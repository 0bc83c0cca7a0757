/**
 * The in-memory corpus `save_mfcc` accumulates before dumping it:
 * a dict of four lists. `mapping` holds class names; `mfcc`, `labels`
 * and `files` hold one entry per segment record and stay index-aligned.
 */
module CorpusRecords {
  import opened FeatureExtraction

  /** One segment record: the aligned entries `mfcc[k]`, `labels[k]` and `files[k]`. */
  datatype Record = Record(features: Matrix, classIndex: int, file: string)

  /** `[x] * n` */
  function Repeat<T>(x: T, n: nat): seq<T>
  {
    seq(n, _ => x)
  }

  /** The block of records one file contributes: its matrices in order, one class index, one path. */
  function FileRecords(mfccs: seq<Matrix>, classIndex: int, path: string): seq<Record>
  {
    seq(|mfccs|, k requires 0 <= k < |mfccs| => Record(mfccs[k], classIndex, path))
  }

  /** The records described by three aligned lists. */
  function Zip(ms: seq<Matrix>, ls: seq<int>, fs: seq<string>): seq<Record>
    requires |ls| == |ms| && |fs| == |ms|
  {
    seq(|ms|, k requires 0 <= k < |ms| => Record(ms[k], ls[k], fs[k]))
  }

  /** The dict `data` of `save_mfcc`. */
  class Corpus {
    var mapping: seq<string>
    var labels: seq<int>
    var mfcc: seq<Matrix>
    var files: seq<string>

    /** The per-record lists have one entry per record. */
    ghost predicate Valid()
      reads this
    {
      |labels| == |mfcc| && |files| == |mfcc|
    }

    /** The records, read off the three aligned lists. */
    ghost function Records(): seq<Record>
      reads this
      requires Valid()
    {
      Zip(mfcc, labels, files)
    }

    /** `{"mapping": [], "labels": [], "mfcc": [], "files": []}` */
    constructor ()
      ensures Valid()
      ensures mapping == [] && labels == [] && mfcc == [] && files == []
      ensures Records() == []
    {
      mapping, labels, mfcc, files := [], [], [], [];
    }

    /** `data["mapping"].append(name)`: the records are untouched. */
    method AppendLabel(name: string)
      requires Valid()
      modifies this
      ensures Valid()
      ensures mapping == old(mapping) + [name]
      ensures labels == old(labels) && mfcc == old(mfcc) && files == old(files)
      ensures Records() == old(Records())
    {
      mapping := mapping + [name];
    }

    /**
     * The three `extend` calls for one file: each per-record list grows by
     * `|mfccs|` entries, existing entries are kept, and the new block is
     * the file's matrices in order with one class index and one path.
     */
    method Extend(mfccs: seq<Matrix>, classIndex: int, path: string)
      requires Valid()
      modifies this
      ensures Valid()
      ensures mapping == old(mapping)
      ensures mfcc == old(mfcc) + mfccs
      ensures labels == old(labels) + Repeat(classIndex, |mfccs|)
      ensures files == old(files) + Repeat(path, |mfccs|)
      ensures Records() == old(Records()) + FileRecords(mfccs, classIndex, path)
    {
      ghost var before := Records();
      mfcc := mfcc + mfccs;
      labels := labels + Repeat(classIndex, |mfccs|);
      files := files + Repeat(path, |mfccs|);
      ghost var block := FileRecords(mfccs, classIndex, path);
      assert Records() == before + block by {
        forall k | 0 <= k < |Records()|
          ensures Records()[k] == (before + block)[k]
        {
          if k < |before| {
            assert Records()[k] == before[k];
          } else {
            assert Records()[k] == block[k - |before|];
          }
        }
      }
    }
  }
}
