/**
 * What the corpus `save_mfcc` builds says about its records: where each
 * record comes from, which class name `mapping` holds for each admitted
 * directory, and which entry of `mapping` a record's class index names,
 * under the guard as written and under the guard that skips the root.
 */
module Labelling {
  import opened Framing
  import opened FeatureExtraction
  import opened CorpusRecords
  import opened DatasetBuilder

  /**
   * Record `r` comes from walk entry `i`: the entry is admitted, the class
   * index is `i - 1`, and the record holds the path and one matrix of a
   * file of that directory which the filter keeps.
   */
  ghost predicate FromEntry(walk: seq<WalkEntry>, i: int, r: Record, run: Run)
    requires 0 <= i < |walk|
  {
    run.guard(walk[i].dirpath) && r.classIndex == i - 1 &&
    exists j :: 0 <= j < |walk[i].filenames| && Kept(walk[i].filenames[j], run.vocOnly)
      && r.file == run.paths.join(walk[i].dirpath, walk[i].filenames[j])
      && r.features in FileFeatures(r.file, run)
  }

  /**
   * Every record of a directory carries the directory's class index and
   * comes from one of its files that the filter keeps.
   */
  lemma {:induction false} DirRecordsProvenance(dirpath: string, filenames: seq<string>, classIndex: int, run: Run)
    ensures forall r :: r in DirRecords(dirpath, filenames, classIndex, run) ==>
      r.classIndex == classIndex &&
      exists j :: 0 <= j < |filenames| && Kept(filenames[j], run.vocOnly)
        && r.file == run.paths.join(dirpath, filenames[j])
        && r.features in FileFeatures(r.file, run)
  {
    if filenames != [] {
      var n := |filenames| - 1;
      var prefix := filenames[..n];
      DirRecordsProvenance(dirpath, prefix, classIndex, run);
      forall r | r in DirRecords(dirpath, filenames, classIndex, run)
        ensures r.classIndex == classIndex
        ensures exists j :: (0 <= j < |filenames| && Kept(filenames[j], run.vocOnly)
          && r.file == run.paths.join(dirpath, filenames[j])
          && r.features in FileFeatures(r.file, run))
      {
        if r in DirRecords(dirpath, prefix, classIndex, run) {
          var j :| 0 <= j < |prefix| && Kept(prefix[j], run.vocOnly)
            && r.file == run.paths.join(dirpath, prefix[j])
            && r.features in FileFeatures(r.file, run);
          assert filenames[j] == prefix[j];
        } else {
          assert r in FileContribution(dirpath, filenames[n], classIndex, run);
          var path := run.paths.join(dirpath, filenames[n]);
          var k :| 0 <= k < |FileFeatures(path, run)| && r == FileRecords(FileFeatures(path, run), classIndex, path)[k];
          assert Kept(filenames[n], run.vocOnly);
        }
      }
    }
  }

  /**
   * Every record of the corpus comes from an admitted walk entry `i`,
   * carries class index `i - 1`, and holds the path and a matrix of a kept
   * file of that entry: a file contributes records only if
   * `('voc' in f) == voc_only`.
   */
  lemma {:induction false} WalkRecordsProvenance(walk: seq<WalkEntry>, run: Run)
    ensures forall r :: r in WalkRecords(walk, run) ==>
      exists i :: 0 <= i < |walk| && FromEntry(walk, i, r, run)
  {
    if walk != [] {
      var n := |walk| - 1;
      var prefix := walk[..n];
      WalkRecordsProvenance(prefix, run);
      DirRecordsProvenance(walk[n].dirpath, walk[n].filenames, n - 1, run);
      forall r | r in WalkRecords(walk, run)
        ensures exists i :: 0 <= i < |walk| && FromEntry(walk, i, r, run)
      {
        if r in WalkRecords(prefix, run) {
          var i :| 0 <= i < |prefix| && FromEntry(prefix, i, r, run);
          assert prefix[i] == walk[i];
          assert FromEntry(walk, i, r, run);
        } else {
          assert r in EntryRecords(walk[n], n, run);
          assert FromEntry(walk, n, r, run);
        }
      }
    }
  }

  /**
   * With the guard as written every entry, the root included, adds its
   * own name: `mapping[i]` names walk entry `i`.
   */
  lemma {:induction false} MappingAsWritten(walk: seq<WalkEntry>, root: string, run: Run)
    requires run.guard == GuardAsWritten(root)
    ensures |WalkMapping(walk, run)| == |walk|
    ensures forall i :: 0 <= i < |walk| ==> WalkMapping(walk, run)[i] == run.paths.name(walk[i].dirpath)
  {
    if walk != [] {
      var n := |walk| - 1;
      MappingAsWritten(walk[..n], root, run);
      assert run.guard(walk[n].dirpath);
      forall i | 0 <= i < n ensures walk[..n][i] == walk[i] { }
    }
  }

  /** `os.walk` yields the root first and never again. */
  predicate RootFirst(walk: seq<WalkEntry>, root: string)
  {
    0 < |walk| && walk[0].dirpath == root &&
    forall i :: 0 < i < |walk| ==> walk[i].dirpath != root
  }

  /**
   * With the guard that skips the root and a root-first walk, `mapping`
   * has one name per entry after the root: `mapping[i - 1]` names entry `i`.
   */
  lemma {:induction false} MappingSkippingRoot(walk: seq<WalkEntry>, root: string, run: Run)
    requires run.guard == GuardSkippingRoot(root)
    requires RootFirst(walk, root)
    ensures |WalkMapping(walk, run)| == |walk| - 1
    ensures forall i :: 0 < i < |walk| ==> WalkMapping(walk, run)[i - 1] == run.paths.name(walk[i].dirpath)
  {
    var n := |walk| - 1;
    if n == 0 {
      assert walk[..0] == [];
    } else {
      var prefix := walk[..n];
      assert prefix[0] == walk[0];
      assert RootFirst(prefix, root);
      MappingSkippingRoot(prefix, root, run);
      assert run.guard(walk[n].dirpath);
    }
  }

  /** A record of the corpus comes from walk entry `classIndex + 1`. */
  lemma RecordEntry(walk: seq<WalkEntry>, r: Record, run: Run)
    requires r in WalkRecords(walk, run)
    ensures -1 <= r.classIndex && r.classIndex + 1 < |walk|
    ensures FromEntry(walk, r.classIndex + 1, r, run)
  {
    WalkRecordsProvenance(walk, run);
    var i :| 0 <= i < |walk| && FromEntry(walk, i, r, run);
  }

  /**
   * Skipping the root, every class index is a valid position in `mapping`,
   * the record comes from walk entry `classIndex + 1`, and
   * `mapping[classIndex]` is that entry's own name.
   */
  lemma LabelsNameOwnDirectory(walk: seq<WalkEntry>, root: string, run: Run)
    requires run.guard == GuardSkippingRoot(root)
    requires RootFirst(walk, root)
    ensures forall r :: r in WalkRecords(walk, run) ==>
      0 <= r.classIndex < |WalkMapping(walk, run)| && r.classIndex + 1 < |walk|
      && FromEntry(walk, r.classIndex + 1, r, run)
      && WalkMapping(walk, run)[r.classIndex] == run.paths.name(walk[r.classIndex + 1].dirpath)
  {
    MappingSkippingRoot(walk, root, run);
    forall r | r in WalkRecords(walk, run)
      ensures 0 <= r.classIndex && r.classIndex + 1 < |walk|
      ensures FromEntry(walk, r.classIndex + 1, r, run)
    {
      RecordEntry(walk, r, run);
      assert r.classIndex != -1 by {
        assert run.guard(walk[r.classIndex + 1].dirpath);
      }
    }
  }

  /**
   * As written, a record with class index `c` comes from walk entry
   * `c + 1`, yet `mapping[c]` is the name of entry `c`, the entry walked
   * before it (the root for the first class directory); records of files
   * in the root itself get index -1, outside `mapping`.
   */
  lemma LabelsNamePreviousEntry(walk: seq<WalkEntry>, root: string, run: Run)
    requires run.guard == GuardAsWritten(root)
    ensures |WalkMapping(walk, run)| == |walk|
    ensures forall r :: r in WalkRecords(walk, run) ==>
      -1 <= r.classIndex && r.classIndex + 1 < |walk|
      && FromEntry(walk, r.classIndex + 1, r, run)
      && WalkMapping(walk, run)[r.classIndex + 1] == run.paths.name(walk[r.classIndex + 1].dirpath)
      && (0 <= r.classIndex ==> WalkMapping(walk, run)[r.classIndex] == run.paths.name(walk[r.classIndex].dirpath))
  {
    MappingAsWritten(walk, root, run);
    forall r | r in WalkRecords(walk, run)
      ensures -1 <= r.classIndex && r.classIndex + 1 < |walk|
      ensures FromEntry(walk, r.classIndex + 1, r, run)
    {
      RecordEntry(walk, r, run);
    }
  }

  /** A dataset root holding one class directory with one vocal file. */
  function ExampleWalk(): seq<WalkEntry>
  {
    [WalkEntry("data", []), WalkEntry("data/A", ["a_voc.wav"])]
  }

  /** One-sample segments of a one-sample signal, with a stand-in transform. */
  function ExampleRun(guard: string -> bool): Run
  {
    Run(guard, true,
        Settings(1, 1.0, 1, 1, 1),
        Librosa((path, sr) => [0.0], (y, sr, nMfcc, nFft, hop) => [y]),
        PathOps(p => if p == "data" then "data" else "A", (d, f) => d + "/" + f))
  }

  lemma ExampleFeatures(guard: string -> bool)
    ensures FileFeatures("data/A/a_voc.wav", ExampleRun(guard)) == [[[0.0]]]
  {
    var run := ExampleRun(guard);
    assert SamplesPerSegment(1, 1.0) == 1;
    SegmentsCount([0.0], 1);
    assert [0.0][..1] == [0.0];
    assert [0.0][1..] == [];
    assert Segments([0.0][1..], 1) == [];
    assert Segments([0.0], 1) == [[0.0]];
  }

  lemma ExampleKept()
    ensures Kept("a_voc.wav", true)
  {
    assert "a_voc.wav"[2..5] == "voc";
    assert OccursAt("a_voc.wav", "voc", 2);
    ContainsIff("a_voc.wav", "voc");
  }

  /**
   * The walk `data`, `data/A` with file `a_voc.wav`, under the guard as
   * written: the one record's class index 0 names `data`, not `A`.
   */
  lemma AsWrittenMislabelsExample()
    ensures var run := ExampleRun(GuardAsWritten("data"));
      var records := WalkRecords(ExampleWalk(), run);
      var mapping := WalkMapping(ExampleWalk(), run);
      mapping == ["data", "A"] &&
      records == [Record([[0.0]], 0, "data/A/a_voc.wav")] &&
      mapping[records[0].classIndex] != "A"
  {
    var run := ExampleRun(GuardAsWritten("data"));
    var walk := ExampleWalk();
    ExampleFeatures(GuardAsWritten("data"));
    ExampleKept();
    assert walk[..1][..0] == [];
    assert walk[..1] == [WalkEntry("data", [])];
    assert ["a_voc.wav"][..0] == [];
    assert run.paths.join("data/A", "a_voc.wav") == "data/A/a_voc.wav";
    assert FileRecords([[[0.0]]], 0, "data/A/a_voc.wav") == [Record([[0.0]], 0, "data/A/a_voc.wav")];
    assert FileContribution("data/A", "a_voc.wav", 0, run) == [Record([[0.0]], 0, "data/A/a_voc.wav")];
    assert DirRecords("data/A", ["a_voc.wav"], 0, run) == [Record([[0.0]], 0, "data/A/a_voc.wav")];
  }

  /**
   * The same walk with the guard that skips the root: `mapping` is `["A"]`
   * and the record's class index 0 names `A`.
   */
  lemma SkippingRootLabelsExample()
    ensures var run := ExampleRun(GuardSkippingRoot("data"));
      var records := WalkRecords(ExampleWalk(), run);
      var mapping := WalkMapping(ExampleWalk(), run);
      mapping == ["A"] &&
      records == [Record([[0.0]], 0, "data/A/a_voc.wav")] &&
      mapping[records[0].classIndex] == "A"
  {
    var run := ExampleRun(GuardSkippingRoot("data"));
    var walk := ExampleWalk();
    ExampleFeatures(GuardSkippingRoot("data"));
    ExampleKept();
    assert walk[..1][..0] == [];
    assert walk[..1] == [WalkEntry("data", [])];
    assert ["a_voc.wav"][..0] == [];
    assert run.paths.join("data/A", "a_voc.wav") == "data/A/a_voc.wav";
    assert FileRecords([[[0.0]]], 0, "data/A/a_voc.wav") == [Record([[0.0]], 0, "data/A/a_voc.wav")];
    assert FileContribution("data/A", "a_voc.wav", 0, run) == [Record([[0.0]], 0, "data/A/a_voc.wav")];
    assert DirRecords("data/A", ["a_voc.wav"], 0, run) == [Record([[0.0]], 0, "data/A/a_voc.wav")];
  }
}
