/**
 * `save_mfcc`: walk the dataset directory, add one class name per
 * admitted directory to `mapping`, and for every selected file append
 * its matrices, its class index and its path to the aligned lists.
 *
 * The directory walk is given as the sequence of `(dirpath, filenames)`
 * entries `os.walk` yields, in its order; `Path(p).name` and
 * `str(Path(d) / f)` are given as functions.
 */
module DatasetBuilder {
  import opened Framing
  import opened FeatureExtraction
  import opened CorpusRecords

  /** One `(dirpath, dirnames, filenames)` triple of `os.walk`; `dirnames` is unused. */
  datatype WalkEntry = WalkEntry(dirpath: string, filenames: seq<string>)

  /** `Path(p).name` and `str(Path(d) / f)`. */
  datatype PathOps = PathOps(name: string -> string, join: (string, string) -> string)

  /**
   * What one run of `save_mfcc` depends on besides the walk: the guard on
   * `dirpath`, the `voc_only` flag, the extraction settings and the
   * library calls.
   */
  datatype Run = Run(
    guard: string -> bool,
    vocOnly: bool,
    cfg: Settings,
    lib: Librosa,
    paths: PathOps)

  /** Python's `pat in s` on strings. */
  function Contains(s: string, pat: string): bool
    decreases |s|
  {
    |pat| <= |s| && (s[..|pat|] == pat || (0 < |s| && Contains(s[1..], pat)))
  }

  /** `pat` occurs in `s` starting at position `i`. */
  ghost predicate OccursAt(s: string, pat: string, i: int)
  {
    0 <= i && i + |pat| <= |s| && s[i..i + |pat|] == pat
  }

  /** `Contains` holds exactly when `pat` occurs at some position of `s`. */
  lemma {:induction false} ContainsIff(s: string, pat: string)
    ensures Contains(s, pat) <==> exists i :: OccursAt(s, pat, i)
  {
    if |pat| <= |s| && 0 < |s| {
      ContainsIff(s[1..], pat);
      if Contains(s, pat) {
        if s[..|pat|] == pat {
          assert OccursAt(s, pat, 0);
        } else {
          var i :| OccursAt(s[1..], pat, i);
          assert s[1..][i..i + |pat|] == s[i + 1..i + 1 + |pat|];
          assert OccursAt(s, pat, i + 1);
        }
      } else {
        forall i | 0 < i && OccursAt(s, pat, i)
          ensures OccursAt(s[1..], pat, i - 1)
        {
          assert s[1..][i - 1..i - 1 + |pat|] == s[i..i + |pat|];
        }
      }
    } else if |pat| <= |s| {
      assert OccursAt(s, pat, 0);
    }
  }

  /** The file filter `('voc' in f) == voc_only`. */
  predicate Kept(filename: string, vocOnly: bool)
  {
    Contains(filename, "voc") == vocOnly
  }

  /** The two kinds of value the guard compares: a `str` and a `pathlib.Path`. */
  datatype PyValue = PyStr(text: string) | PyPath(path: string)

  /** Python's `==`: a `str` and a `Path` never compare equal. */
  predicate PyEquals(a: PyValue, b: PyValue)
  {
    match (a, b)
    case (PyStr(x), PyStr(y)) => x == y
    case (PyPath(x), PyPath(y)) => x == y
    case _ => false
  }

  /** The guard as written: the `str` dirpath against the `Path` root. */
  function GuardAsWritten(root: string): string -> bool
  {
    dirpath => !PyEquals(PyStr(dirpath), PyPath(root))
  }

  /** The guard as intended: every directory but the root. */
  function GuardSkippingRoot(root: string): string -> bool
  {
    dirpath => dirpath != root
  }

  /** As written, the guard admits every entry, the root included. */
  lemma GuardAsWrittenAdmitsAll(root: string)
    ensures forall dirpath :: GuardAsWritten(root)(dirpath)
    ensures GuardAsWritten(root)(root)
  {
  }

  /**
   * What `extract_mfcc` returns for a path when it does not raise (a
   * non-positive segment length yields no matrix).
   */
  function FileFeatures(path: string, run: Run): seq<Matrix>
  {
    var segLen := SamplesPerSegment(run.cfg.sampleRate, run.cfg.segmentDuration);
    if 0 < segLen then Features(run.lib.load(path, run.cfg.sampleRate), segLen, run.cfg, run.lib.mfcc)
    else []
  }

  /** The records one file name contributes: none unless the filter keeps it. */
  function FileContribution(dirpath: string, filename: string, classIndex: int, run: Run): seq<Record>
  {
    if Kept(filename, run.vocOnly) then
      var path := run.paths.join(dirpath, filename);
      FileRecords(FileFeatures(path, run), classIndex, path)
    else []
  }

  /** The records of a directory's files, in file order. */
  function DirRecords(dirpath: string, filenames: seq<string>, classIndex: int, run: Run): seq<Record>
    decreases |filenames|
  {
    if filenames == [] then []
    else
      var n := |filenames| - 1;
      DirRecords(dirpath, filenames[..n], classIndex, run) + FileContribution(dirpath, filenames[n], classIndex, run)
  }

  /** The records of walk entry `i`: its files with class index `i - 1`, if the guard admits it. */
  function EntryRecords(entry: WalkEntry, i: int, run: Run): seq<Record>
  {
    if run.guard(entry.dirpath) then DirRecords(entry.dirpath, entry.filenames, i - 1, run) else []
  }

  /** The records of a whole walk, in walk order. */
  function WalkRecords(walk: seq<WalkEntry>, run: Run): seq<Record>
    decreases |walk|
  {
    if walk == [] then []
    else
      var n := |walk| - 1;
      WalkRecords(walk[..n], run) + EntryRecords(walk[n], n, run)
  }

  /** `mapping` after a walk: the names of the admitted directories, in walk order. */
  function WalkMapping(walk: seq<WalkEntry>, run: Run): seq<string>
    decreases |walk|
  {
    if walk == [] then []
    else
      var n := |walk| - 1;
      WalkMapping(walk[..n], run) + (if run.guard(walk[n].dirpath) then [run.paths.name(walk[n].dirpath)] else [])
  }

  /** Some file of the directory passes the filter. */
  ghost predicate DirSelectsFile(filenames: seq<string>, vocOnly: bool)
  {
    exists j :: 0 <= j < |filenames| && Kept(filenames[j], vocOnly)
  }

  /** Some admitted directory holds a file the filter keeps. */
  ghost predicate SelectsAnyFile(walk: seq<WalkEntry>, run: Run)
  {
    exists i :: 0 <= i < |walk| && run.guard(walk[i].dirpath) && DirSelectsFile(walk[i].filenames, run.vocOnly)
  }

  /**
   * One pass of the inner loop of `save_mfcc`: a file the filter rejects
   * changes nothing; a kept file either makes `extract_mfcc` raise
   * (`ok` false) or has its records appended. `mapping` is never touched.
   */
  method AddFile(data: Corpus, dirpath: string, f: string, classIndex: int, run: Run) returns (ok: bool)
    requires data.Valid()
    modifies data
    ensures data.Valid()
    ensures data.mapping == old(data.mapping)
    ensures ok <==> !(SamplesPerSegment(run.cfg.sampleRate, run.cfg.segmentDuration) == 0 && Kept(f, run.vocOnly))
    ensures ok ==> data.Records() == old(data.Records()) + FileContribution(dirpath, f, classIndex, run)
    ensures !ok ==> data.Records() == old(data.Records())
  {
    if Contains(f, "voc") == run.vocOnly {
      var filePath := run.paths.join(dirpath, f);
      var mfccs := ExtractMfcc(filePath, run.cfg, run.lib);
      if mfccs.Raised? {
        return false;
      }
      data.Extend(mfccs.value, classIndex, filePath);
    }
    return true;
  }

  /**
   * The inner loop of `save_mfcc` over one admitted directory's files:
   * `ok` is false exactly when a kept file makes `extract_mfcc` raise;
   * otherwise the directory's records are appended after the old ones and
   * `mapping` is unchanged.
   */
  method AddDirectoryFiles(data: Corpus, dirpath: string, filenames: seq<string>, classIndex: int, run: Run)
    returns (ok: bool)
    requires data.Valid()
    modifies data
    ensures data.Valid()
    ensures data.mapping == old(data.mapping)
    ensures ok <==> !(SamplesPerSegment(run.cfg.sampleRate, run.cfg.segmentDuration) == 0
                     && DirSelectsFile(filenames, run.vocOnly))
    ensures ok ==> data.Records() == old(data.Records()) + DirRecords(dirpath, filenames, classIndex, run)
  {
    ghost var segLen := SamplesPerSegment(run.cfg.sampleRate, run.cfg.segmentDuration);
    ghost var start := data.Records();
    var j := 0;
    while j < |filenames|
      invariant 0 <= j <= |filenames|
      invariant data.Valid()
      invariant data.mapping == old(data.mapping)
      invariant data.Records() == start + DirRecords(dirpath, filenames[..j], classIndex, run)
      invariant segLen == 0 ==> !DirSelectsFile(filenames[..j], run.vocOnly)
    {
      DirRecordsSnoc(dirpath, filenames, j, classIndex, run);
      DirSelectsSnoc(filenames, j, run.vocOnly);
      var fileOk := AddFile(data, dirpath, filenames[j], classIndex, run);
      if !fileOk {
        DirSelectsPrefix(filenames, j + 1, run.vocOnly);
        return false;
      }
      j := j + 1;
    }
    assert filenames[..j] == filenames;
    return true;
  }

  /** A file of a prefix of the names is a file of all of them. */
  lemma DirSelectsPrefix(filenames: seq<string>, k: nat, vocOnly: bool)
    requires k <= |filenames|
    requires DirSelectsFile(filenames[..k], vocOnly)
    ensures DirSelectsFile(filenames, vocOnly)
  {
  }

  /** One more file name selects a file exactly when it is kept or an earlier one was. */
  lemma DirSelectsSnoc(filenames: seq<string>, j: nat, vocOnly: bool)
    requires j < |filenames|
    ensures DirSelectsFile(filenames[..j + 1], vocOnly)
        <==> DirSelectsFile(filenames[..j], vocOnly) || Kept(filenames[j], vocOnly)
  {
  }

  /** Taking one more file name appends that file's contribution. */
  lemma DirRecordsSnoc(dirpath: string, filenames: seq<string>, j: nat, classIndex: int, run: Run)
    requires j < |filenames|
    ensures DirRecords(dirpath, filenames[..j + 1], classIndex, run)
         == DirRecords(dirpath, filenames[..j], classIndex, run) + FileContribution(dirpath, filenames[j], classIndex, run)
  {
    assert filenames[..j + 1][..j] == filenames[..j];
  }

  /**
   * `save_mfcc` up to the dump: `ok` is false exactly when some selected
   * file makes `extract_mfcc` raise, and then nothing is written. Otherwise
   * the corpus holds the walk's mapping and records, with the three
   * per-record lists aligned.
   */
  method SaveMfcc(walk: seq<WalkEntry>, run: Run) returns (data: Corpus, ok: bool)
    ensures fresh(data) && data.Valid()
    ensures ok <==> !(SamplesPerSegment(run.cfg.sampleRate, run.cfg.segmentDuration) == 0 && SelectsAnyFile(walk, run))
    ensures ok ==> data.mapping == WalkMapping(walk, run)
    ensures ok ==> data.Records() == WalkRecords(walk, run)
  {
    ghost var segLen := SamplesPerSegment(run.cfg.sampleRate, run.cfg.segmentDuration);
    data := new Corpus();
    var i := 0;
    while i < |walk|
      invariant 0 <= i <= |walk|
      invariant fresh(data) && data.Valid()
      invariant data.mapping == WalkMapping(walk[..i], run)
      invariant data.Records() == WalkRecords(walk[..i], run)
      invariant segLen == 0 ==>
        forall i' :: 0 <= i' < i && run.guard(walk[i'].dirpath) ==> !DirSelectsFile(walk[i'].filenames, run.vocOnly)
    {
      var entry := walk[i];
      assert walk[..i + 1][..i] == walk[..i];
      if run.guard(entry.dirpath) {
        var semanticLabel := run.paths.name(entry.dirpath);
        data.AppendLabel(semanticLabel);
        var dirOk := AddDirectoryFiles(data, entry.dirpath, entry.filenames, i - 1, run);
        if !dirOk {
          assert run.guard(walk[i].dirpath) && DirSelectsFile(walk[i].filenames, run.vocOnly);
          return data, false;
        }
      }
      i := i + 1;
    }
    assert walk[..i] == walk;
    ok := true;
  }
}
