# MFCC corpus extraction, modelled in Dafny

This project models the feature-extraction script of an audio-classification
pipeline (`extract_mfcc_data.py`). The script has two steps:

- `extract_mfcc` decodes one recording and cuts the signal into fixed-length,
  non-overlapping segments of `samples_per_segment = int(SAMPLE_RATE * SEGMENT_DURATION)`
  samples. It computes one MFCC matrix per full segment, in signal order, up to the
  floating-point rounding of the track length described under "## Left out".
- `save_mfcc` walks the dataset directory. For each directory the guard admits,
  it appends the directory's name to `mapping`. For each file passing the
  `voc` filter, it extends the three per-record lists `mfcc`, `labels` and
  `files` by the same number of entries.

The model is split into five modules:

- `Framing` (`framing.dfy`): the integer arithmetic of segmentation.
  - Python's truncating `int()` is `Trunc`.
  - The segment count is `NumSegments`.
  - The segments are `Segments`, defined by peeling whole segments off the front of the signal.
- `FeatureExtraction` (`extraction.dfy`): `extract_mfcc` as the method `ExtractMfcc`,
  a loop with the same start/finish clamp as the source. It is proved equal to the
  reference function `Features`.
- `CorpusRecords` (`corpus.dfy`): the dict of four lists as the class `Corpus`.
  Its methods `AppendLabel` and `Extend` are the `append` and `extend` calls.
- `DatasetBuilder` (`dataset.dfy`): `save_mfcc` as the method `SaveMfcc`.
  - Its nested loops walk a given sequence of `(dirpath, filenames)` entries.
  - The inner loop is the method `AddDirectoryFiles`.
  - The method is proved against the reference functions `WalkMapping` and `WalkRecords`.
- `Labelling` (`labelling.dfy`): what the corpus says about each record: the file
  it came from, its class index, and which entry of `mapping` that index names.
  This is stated once for the guard as written and once for a guard that skips the root.

External calls are parameters. They are arrow-typed fields of datatypes and are
never interpreted:

- `Librosa.load` stands for `librosa.load(path, sr=...)`.
- `Librosa.mfcc` stands for `librosa.feature.mfcc(...)` followed by `.T.tolist()`.
- `PathOps.name` stands for `Path(p).name`.
- `PathOps.join` stands for `str(Path(d) / f)`.

The module constants `SAMPLE_RATE` and `SEGMENT_DURATION` and the arguments
`num_mfcc`, `n_fft` and `hop_length` together form the datatype `Settings`.
The guard `dirpath != dataset_path` is a predicate parameter `Run.guard`, with two
instances:

- `GuardAsWritten` compares a `str` with a `Path`, so it admits everything.
- `GuardSkippingRoot` admits every directory except the root.

Two behaviours of the code shape the model:

- The FFT size is clamped once per file with the whole signal's length
  (`extract_mfcc_data.py:26`), not per segment.
  `FftSizeWithinWindows` proves that the clamp keeps the FFT size within every segment
  only when the configured `n_fft` is at most `samples_per_segment`.
  When `n_fft` is larger and the signal is longer than one segment, some segment is
  shorter than the FFT size.
- The guard at line 45 never skips the root (see Findings).

## Model

| member | source | states |
|---|---|---|
| `Framing.Trunc` | extract_mfcc_data.py:23-24 | Python's `int()` on a float: the result has the sign of its argument, is at most as large in magnitude, and is within 1 of it |
| `Framing.SamplesPerSegment` | extract_mfcc_data.py:23 | For a non-negative duration, `samples_per_segment` is the largest whole number of samples not exceeding `SAMPLE_RATE * SEGMENT_DURATION` |
| `Framing.ShippedSegmentLength` | extract_mfcc_data.py:23 | With the shipped constants (22050 Hz and 0.025 s, lines 10-11), a segment is 551 samples |
| `Framing.NumSegments` | extract_mfcc_data.py:24 | `int(samples_per_track / samples_per_segment)` is the floor quotient `len / samples_per_segment` for a positive segment length, and at most 0 (no iteration) for a negative one |
| `Framing.CountFromComputedLength` | extract_mfcc_data.py:21-24 | With `samples_per_track` computed in floating point and within one sample of `len(signal)`, above or below, the count is `len / samples_per_segment` when the length is not a multiple or the value is at least `len(signal)`. It is one less exactly when the length is a multiple and the value falls short |
| `Framing.ComputedLengthDropsSegment` | extract_mfcc_data.py:21-24 | 13775 samples hold 25 segments of 551, but a computed track length of `13774.999999999998` gives `int(13774.999999999998 / 551) == 24` |
| `Framing.SegmentsCount` | extract_mfcc_data.py:24 | There are exactly `floor(len / samples_per_segment)` segments. Fewer than one segment's worth of samples is left over, and a signal shorter than one segment has no segment |
| `Framing.SegmentAt` | extract_mfcc_data.py:30-33 | Segment `d` is exactly samples `[samples_per_segment * d, samples_per_segment * d + samples_per_segment)`. It ends within the signal, so the clamp at lines 32-33 never shortens a segment. Consecutive segments are adjacent and in signal order |
| `Framing.SegmentsCoverPrefix` | extract_mfcc_data.py:24-33 | The segments laid end to end are the signal's first `num_segments * samples_per_segment` samples. The remainder after them is shorter than a segment and is dropped, not padded |
| `FeatureExtraction.EffectiveFftSize` | extract_mfcc_data.py:26 | The clamped `n_fft` is at most the configured value and at most the signal length, and it equals one of them |
| `FeatureExtraction.Features` | extract_mfcc_data.py:28-36 | The reference result of `extract_mfcc` has exactly `floor(len / samples_per_segment)` matrices |
| `FeatureExtraction.FeatureAt` | extract_mfcc_data.py:29-35 | Matrix `d` is the transform of the full segment `d`, computed with the file-wide FFT size `min(len(signal), n_fft)` |
| `FeatureExtraction.FftSizeWithinWindows` | extract_mfcc_data.py:26-34 | The per-file FFT size is at most every segment's length when `n_fft <= samples_per_segment`. When `n_fft` is larger and the signal is longer than one segment, some segment is shorter than the FFT size |
| `FeatureExtraction.ExtractMfcc` | extract_mfcc_data.py:18-36 | The division at line 24 raises `ZeroDivisionError` exactly when `samples_per_segment` is 0. A negative segment length gives no matrix. Otherwise the result is one matrix per full segment, in increasing `d` order, with one FFT size for every segment |
| `CorpusRecords.Corpus.constructor` | extract_mfcc_data.py:41 | The dict starts with four empty lists |
| `CorpusRecords.Corpus.AppendLabel` | extract_mfcc_data.py:47 | `mapping` grows by exactly the new name. The per-record lists are unchanged |
| `CorpusRecords.Corpus.Extend` | extract_mfcc_data.py:54-56 | `mfcc`, `labels` and `files` stay aligned and keep their old entries. The new block is the file's matrices in order, `len(mfccs)` copies of the class index and `len(mfccs)` copies of the path |
| `DatasetBuilder.ContainsIff` | extract_mfcc_data.py:51 | `'voc' in f` holds exactly when `voc` occurs at some position of `f` |
| `DatasetBuilder.GuardAsWrittenAdmitsAll` | extract_mfcc_data.py:42-45 | A `str` dirpath never equals the `Path` root, so the guard as written admits every entry, the root included |
| `DatasetBuilder.AddFile` | extract_mfcc_data.py:50-56 | One file: a file the `voc` filter rejects changes nothing. A kept file either raises (zero segment length), leaving the records as they were, or has its records appended. `mapping` is untouched |
| `DatasetBuilder.AddDirectoryFiles` | extract_mfcc_data.py:50-57 | The inner loop raises exactly when a kept file is reached with a zero segment length. Otherwise it appends the directory's records in file order and leaves `mapping` alone |
| `DatasetBuilder.SaveMfcc` | extract_mfcc_data.py:39-60 | The run aborts exactly when a selected file makes `extract_mfcc` raise. Otherwise `mapping` is the names of the admitted entries in walk order, and the aligned lists hold the walk's records in walk, file and segment order |
| `Labelling.DirRecordsProvenance` | extract_mfcc_data.py:50-56 | Every record of a directory carries that directory's class index and the path of a file the filter keeps, and holds one of that file's matrices |
| `Labelling.WalkRecordsProvenance` | extract_mfcc_data.py:44-56 | Every record comes from an admitted walk entry `i`, with label `i - 1`, and from a kept file of that entry: a file contributes records only if `('voc' in f) == voc_only` |
| `Labelling.MappingAsWritten` | extract_mfcc_data.py:44-47 | With the guard as written, `mapping` has one name per walk entry, and `mapping[i]` is entry `i`'s name |
| `Labelling.MappingSkippingRoot` | extract_mfcc_data.py:44-47 | With the root skipped and the root walked first, `mapping` has one name per non-root entry, and `mapping[i - 1]` is entry `i`'s name |
| `Labelling.LabelsNameOwnDirectory` | extract_mfcc_data.py:44-55 | With the root skipped, every label `i - 1` is a valid index into `mapping`, and `mapping[label]` is the name of the record's own directory |
| `Labelling.LabelsNamePreviousEntry` | extract_mfcc_data.py:44-55 | As written, a record with label `c` comes from entry `c + 1`, but `mapping[c]` names entry `c`. Records of files in the root itself get label -1 |
| `Labelling.AsWrittenMislabelsExample` | extract_mfcc_data.py:42-55 | Walk `data` then `data/A` holding `a_voc.wav`, guard as written: `mapping == ["data", "A"]`, and the one record's label 0 names `data`, not `A` |
| `Labelling.SkippingRootLabelsExample` | extract_mfcc_data.py:42-55 | The same walk with the root skipped: `mapping == ["A"]`, and the record's label 0 names `A` |

## Findings

| source | as written | input that shows it | evidently intended | confidence | as-written member | corrected member |
|---|---|---|---|---|---|---|
| extract_mfcc_data.py:45 | `dirpath != dataset_path` compares a `str` with a `Path`, so it is always true. The root's name becomes `mapping[0]`, and label `i - 1` names the directory walked before entry `i` | walk `data` (no files), then `data/A` with `a_voc.wav`: `mapping == ["data", "A"]`, `labels == [0]`, so the record is labelled `data` | skip the root: `mapping == ["A"]`, and label `i - 1` names the record's own directory | high; not executed | `Labelling.AsWrittenMislabelsExample` | `Labelling.LabelsNameOwnDirectory` |

## Left out

- Decoding and resampling (`librosa.load`, line 20) is the parameter `Librosa.load`. Unreadable files and their exceptions are not modelled.
- `librosa.get_duration` and the float product `SAMPLE_RATE * track_duration` (lines 21-22) are replaced by the integer `len(signal)`. In float64, `22050 * (len / 22050)` can land just above or just below `len(signal)` (13 gives `13.000000000000002`). Landing above never changes the count. For some lengths that are an exact multiple of `samples_per_segment`, the script then computes one segment fewer than `len / samples_per_segment`. For example, 13775 samples (25 segments of 551) give `13774.999999999998` and so 24 segments. Lengths that are not a multiple are never affected. `Framing.CountFromComputedLength` proves this for every computed length within one sample of `len(signal)`, above or below. The model's `ExtractMfcc` itself uses the exact length and so keeps that last segment.
- `int(SAMPLE_RATE * SEGMENT_DURATION)` and `int(samples_per_track / samples_per_segment)` use exact reals instead of float64. For the shipped constants, float64 and exact reals agree that `samples_per_segment` is 551.
- The MFCC transform (STFT, Mel filter bank, log compression, DCT) and the transpose `.T.tolist()` are the uninterpreted parameter `Librosa.mfcc`. Frame counts and librosa's own argument checks, such as rejecting a zero `n_fft`, are not modelled.
- `n_fft` and `hop_length` are naturals. Negative values, which librosa rejects, are not modelled. `num_mfcc` is any integer and is passed unchanged to the uninterpreted transform, so how librosa treats a negative value (as a slice bound) is not modelled.
- `HOP_LENGTH = int(np.floor(OVERLAP_DURATION * SAMPLE_RATE))` (line 16) is not modelled. `hop_length` is just a setting passed through to the transform.
- `os.walk`, `Path(p).name` and `str(Path(d) / f)` are not modelled. The walk is an input sequence, and the two path functions are parameters.
- The `print` diagnostics and the `json.dump` to disk (lines 48, 57, 59-60) are not modelled. `SaveMfcc` returns the in-memory corpus and an `ok` flag saying whether the run reaches the dump.
- DatasetBuilder.SaveMfcc: when a file raises, the contract says nothing about the partly built dict beyond the aligned list lengths, because the dict is never written.
- `audio_prep.py` (plots and exploratory FFTs), `load_mfcc_data.py` and `utils/load_data.py` (JSON loading and train/test split) are not part of this model.
