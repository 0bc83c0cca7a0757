/**
 * `extract_mfcc`: decode one file, cut the signal into fixed-length
 * windows and compute one MFCC matrix per window, in window order.
 *
 * The two librosa calls are given as functions: decoding
 * (`librosa.load`) and the MFCC transform (`librosa.feature.mfcc`
 * followed by `.T.tolist()`). Neither is interpreted here.
 */
module FeatureExtraction {
  import opened Framing

  /** A decoded mono signal. */
  type Signal = seq<real>

  /** One feature matrix, frame-major: one row of coefficients per analysis frame. */
  type Matrix = seq<seq<real>>

  /**
   * The library calls `extract_mfcc` makes.
   * `load(path, sr)` is the decoded signal at rate `sr`;
   * `mfcc(y, sr, n_mfcc, n_fft, hop_length)` is the transposed MFCC matrix of `y`.
   */
  datatype Librosa = Librosa(
    load: (string, nat) -> Signal,
    mfcc: (Signal, nat, int, nat, nat) -> Matrix)

  /**
   * The module constants `SAMPLE_RATE` and `SEGMENT_DURATION` and the
   * arguments `num_mfcc`, `n_fft` and `hop_length`.
   */
  datatype Settings = Settings(
    sampleRate: nat,
    segmentDuration: real,
    numMfcc: int,
    nFft: nat,
    hopLength: nat)

  /** The exception `extract_mfcc` can raise itself. */
  datatype Error = ZeroDivisionError

  datatype Outcome<T> = Ok(value: T) | Raised(error: Error)

  /**
   * `n_fft = min(len(signal), n_fft)`: the FFT size for every window of a
   * file never exceeds the configured size nor the whole signal's length.
   */
  function EffectiveFftSize(signalLength: nat, nFft: nat): (n: nat)
    ensures n <= nFft && n <= signalLength
    ensures n == nFft || n == signalLength
  {
    if signalLength < nFft then signalLength else nFft
  }

  /**
   * The matrices `extract_mfcc` returns for a decoded signal and a
   * positive segment length: the transform of each window of
   * `Segments`, in window order, all with the one FFT size of the file.
   */
  function Features(signal: Signal, segLen: nat, cfg: Settings, mfcc: (Signal, nat, int, nat, nat) -> Matrix): (fs: seq<Matrix>)
    requires 0 < segLen
    ensures |fs| == |signal| / segLen
  {
    SegmentsCount(signal, segLen);
    var segs := Segments(signal, segLen);
    var nFft := EffectiveFftSize(|signal|, cfg.nFft);
    seq(|segs|, d requires 0 <= d < |segs| => mfcc(segs[d], cfg.sampleRate, cfg.numMfcc, nFft, cfg.hopLength))
  }

  /**
   * Matrix `d` is the transform of samples `[segLen * d, segLen * (d + 1))`
   * with the file-wide FFT size: windows are full-length, adjacent and in
   * signal order.
   */
  lemma FeatureAt(signal: Signal, segLen: nat, cfg: Settings, mfcc: (Signal, nat, int, nat, nat) -> Matrix, d: nat)
    requires 0 < segLen
    requires d < |signal| / segLen
    ensures segLen * d + segLen <= |signal|
    ensures Features(signal, segLen, cfg, mfcc)[d]
         == mfcc(signal[segLen * d .. segLen * d + segLen], cfg.sampleRate, cfg.numMfcc,
                 EffectiveFftSize(|signal|, cfg.nFft), cfg.hopLength)
  {
    SegmentsCount(signal, segLen);
    SegmentAt(signal, segLen, d);
  }

  /**
   * The FFT size is clamped with the whole signal's length, so it stays
   * within every window only when the configured size does.
   */
  lemma FftSizeWithinWindows(signal: Signal, segLen: nat, nFft: nat)
    requires 0 < segLen
    ensures nFft <= segLen ==>
      forall w :: w in Segments(signal, segLen) ==> EffectiveFftSize(|signal|, nFft) <= |w|
    ensures segLen < nFft && segLen < |signal| ==>
      exists w :: w in Segments(signal, segLen) && |w| < EffectiveFftSize(|signal|, nFft)
  {
    var segs := Segments(signal, segLen);
    forall w | w in segs ensures |w| == segLen {
      var d :| 0 <= d < |segs| && segs[d] == w;
      SegmentAt(signal, segLen, d);
    }
    if segLen < |signal| {
      assert segs[0] == signal[..segLen];
      assert segs[0] in segs;
    }
  }

  /**
   * `extract_mfcc(file_path, num_mfcc, n_fft, hop_length)`.
   * A zero segment length makes the count's division raise; a negative
   * one yields no window; otherwise the result is one matrix per full
   * window of the decoded signal, in window order.
   */
  method ExtractMfcc(filePath: string, cfg: Settings, lib: Librosa) returns (r: Outcome<seq<Matrix>>)
    ensures r.Raised? <==> SamplesPerSegment(cfg.sampleRate, cfg.segmentDuration) == 0
    ensures SamplesPerSegment(cfg.sampleRate, cfg.segmentDuration) < 0 ==> r == Ok([])
    ensures 0 < SamplesPerSegment(cfg.sampleRate, cfg.segmentDuration) ==>
      r == Ok(Features(lib.load(filePath, cfg.sampleRate),
                       SamplesPerSegment(cfg.sampleRate, cfg.segmentDuration), cfg, lib.mfcc))
  {
    var signal := lib.load(filePath, cfg.sampleRate);
    var samplesPerTrack := |signal|;
    var samplesPerSegment := SamplesPerSegment(cfg.sampleRate, cfg.segmentDuration);
    if samplesPerSegment == 0 {
      return Raised(ZeroDivisionError);
    }
    var numSegments := NumSegments(samplesPerTrack, samplesPerSegment);

    var nFft := EffectiveFftSize(|signal|, cfg.nFft);

    ghost var expected := if 0 < samplesPerSegment then Features(signal, samplesPerSegment, cfg, lib.mfcc) else [];
    assert |expected| == if 0 < numSegments then numSegments else 0;

    var mfccs: seq<Matrix> := [];
    var d := 0;
    while d < numSegments
      invariant 0 <= d <= |expected|
      invariant mfccs == expected[..d]
    {
      var start := samplesPerSegment * d;
      var finish := start + samplesPerSegment;
      if finish > |signal| {
        finish := |signal|;
      }
      FeatureAt(signal, samplesPerSegment, cfg, lib.mfcc, d);
      var mfcc := lib.mfcc(signal[start..finish], cfg.sampleRate, cfg.numMfcc, nFft, cfg.hopLength);
      mfccs := mfccs + [mfcc];
      d := d + 1;
    }
    assert expected[..d] == expected;
    return Ok(mfccs);
  }
}
