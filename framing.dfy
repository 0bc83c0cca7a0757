/**
 * The segmentation arithmetic of `extract_mfcc`: how many fixed-length
 * windows a decoded signal is cut into, and where each window lies.
 * A signal is split into consecutive, non-overlapping windows of
 * `samples_per_segment` samples; a remainder shorter than one window is
 * dropped, never padded.
 */
module Framing {

  /** Python's `int(x)` on a float: truncation toward zero. */
  function Trunc(x: real): (n: int)
    ensures 0.0 <= x ==> 0 <= n && n as real <= x < n as real + 1.0
    ensures x < 0.0 ==> n <= 0 && n as real - 1.0 < x <= n as real
  {
    if 0.0 <= x then x.Floor else -((-x).Floor)
  }

  /**
   * `samples_per_segment = int(SAMPLE_RATE * SEGMENT_DURATION)`: the
   * largest whole number of samples that fits in one segment duration.
   */
  function SamplesPerSegment(sampleRate: nat, segmentDuration: real): (n: int)
    ensures 0.0 <= segmentDuration ==>
      0 <= n && n as real <= sampleRate as real * segmentDuration < n as real + 1.0
  {
    Trunc(sampleRate as real * segmentDuration)
  }

  /** The shipped constants (22050 Hz, 25 ms) give 551-sample segments. */
  lemma ShippedSegmentLength()
    ensures SamplesPerSegment(22050, 0.025) == 551
  {
  }

  /**
   * `num_segments = int(samples_per_track / samples_per_segment)` with a
   * non-zero divisor: for a positive segment length this is the floor of
   * the quotient, for a negative one no segment at all.
   */
  function NumSegments(totalSamples: nat, segLen: int): (n: int)
    requires segLen != 0
    ensures 0 < segLen ==> n == totalSamples / segLen
    ensures segLen < 0 ==> n <= 0
  {
    var q := totalSamples as real / segLen as real;
    if 0 < segLen then
      TruncOfQuotient(totalSamples, segLen);
      Trunc(q)
    else
      assert q * (segLen as real) == totalSamples as real;
      Trunc(q)
  }

  /** Floor division is determined by its bracketing inequalities. */
  lemma DivisionUnique(a: int, b: int, q: int)
    requires 0 < b
    requires q * b <= a < (q + 1) * b
    ensures q == a / b
  {
    var q' := a / b;
    assert q' * b <= a < (q' + 1) * b;
    if q < q' {
      MulMonotone(q + 1, q', b);
    } else if q' < q {
      MulMonotone(q' + 1, q, b);
    }
  }

  lemma MulMonotone(x: int, y: int, b: int)
    requires x <= y && 0 < b
    ensures x * b <= y * b
  {
    assert y * b - x * b == (y - x) * b;
  }

  /** Truncating the real quotient of naturals is integer floor division. */
  lemma TruncOfQuotient(a: nat, b: int)
    requires 0 < b
    ensures Trunc(a as real / b as real) == a / b
  {
    var q := a / b;
    var x := a as real / b as real;
    assert x * b as real == a as real;
    assert q as real * b as real <= a as real by {
      assert q * b <= a;
    }
    assert a as real < (q + 1) as real * b as real by {
      assert a < (q + 1) * b;
    }
    assert q as real <= x;
    assert x < (q + 1) as real;
    assert 0.0 <= x;
  }

  /**
   * `samples_per_track = SAMPLE_RATE * track_duration` is computed in
   * floating point and may come out just above or just below
   * `len(signal)`. For any such value within one sample of the length, the
   * count is the floor quotient when the length is not a multiple of the
   * segment length or the value does not fall short, and one less exactly
   * when the length is a multiple and the computed value falls short.
   */
  lemma CountFromComputedLength(len: nat, spt: real, segLen: int)
    requires 0 < segLen
    requires 0.0 <= spt && len as real - 1.0 < spt < len as real + 1.0
    ensures len / segLen - 1 <= Trunc(spt / segLen as real) <= len / segLen
    ensures len % segLen != 0 || len as real <= spt ==> Trunc(spt / segLen as real) == len / segLen
    ensures len % segLen == 0 && spt < len as real ==> Trunc(spt / segLen as real) == len / segLen - 1
  {
    var k := len / segLen;
    assert k * segLen + len % segLen == len;
    MulShift(k, segLen);
    TruncScaled(spt, segLen, k - 1);
    TruncScaled(spt, segLen, k);
    TruncScaled(spt, segLen, k + 1);
  }

  /**
   * A track of 25 whole segments (13775 samples at 551 per segment) whose
   * length comes back from `22050 * (13775 / 22050)` as 13774.999999999998
   * yields 24 segments: the last full segment is dropped.
   */
  lemma ComputedLengthDropsSegment()
    ensures 13775 / 551 == 25
    ensures Trunc(13774.999999999998 / 551.0) == 24
  {
    CountFromComputedLength(13775, 13774.999999999998, 551);
  }

  /** `(k - 1) * m` and `(k + 1) * m` are one `m` away from `k * m`. */
  lemma MulShift(k: int, m: int)
    ensures (k - 1) * m == k * m - m
    ensures (k + 1) * m == k * m + m
  {
  }

  /**
   * Truncating `spt / segLen` against a whole number `m` of segments: at
   * least `m` when `m` segments fit in `spt`, below `m` otherwise.
   */
  lemma TruncScaled(spt: real, segLen: int, m: int)
    requires 0 < segLen && 0.0 <= spt
    ensures (m * segLen) as real <= spt ==> m <= Trunc(spt / segLen as real)
    ensures spt < (m * segLen) as real ==> Trunc(spt / segLen as real) < m
  {
    var b := segLen as real;
    CastMul(m, segLen);
    ScaleLe(0.0, spt, b);
    ScaleLe(m as real, spt, b);
    ScaleLt(spt, m as real, b);
  }

  /** For a positive `b`, `c <= y / b` exactly when `c * b <= y`. */
  lemma ScaleLe(c: real, y: real, b: real)
    requires 0.0 < b
    ensures c <= y / b <==> c * b <= y
  {
    assert (y / b) * b == y;
    if c <= y / b {
      assert c * b <= (y / b) * b;
    } else {
      assert (y / b) * b < c * b;
    }
  }

  /** For a positive `b`, `y / b < c` exactly when `y < c * b`. */
  lemma ScaleLt(y: real, c: real, b: real)
    requires 0.0 < b
    ensures y / b < c <==> y < c * b
  {
    ScaleLe(c, y, b);
    assert (y / b) * b == y;
    if y / b < c {
      assert (y / b) * b < c * b;
    }
  }

  /** Multiplication commutes with the cast to `real`. */
  lemma CastMul(x: int, y: int)
    ensures (x * y) as real == x as real * y as real
  {
  }

  /**
   * The windows of `extract_mfcc`, defined by peeling whole segments off
   * the front of the signal until fewer than `segLen` samples remain.
   */
  function Segments<T>(s: seq<T>, segLen: nat): seq<seq<T>>
    requires 0 < segLen
    decreases |s|
  {
    if |s| < segLen then [] else [s[..segLen]] + Segments(s[segLen..], segLen)
  }

  /** Concatenation of a sequence of sequences. */
  function Concat<T>(ss: seq<seq<T>>): seq<T>
  {
    if ss == [] then [] else ss[0] + Concat(ss[1..])
  }

  /**
   * There are exactly `floor(|s| / segLen)` windows; what is left after
   * the last one is shorter than a window, and a signal shorter than one
   * window has none.
   */
  lemma {:induction false} SegmentsCount<T>(s: seq<T>, segLen: nat)
    requires 0 < segLen
    ensures |Segments(s, segLen)| == |s| / segLen
    ensures |Segments(s, segLen)| * segLen <= |s| < (|Segments(s, segLen)| + 1) * segLen
    ensures |s| < segLen ==> Segments(s, segLen) == []
  {
    var n := |Segments(s, segLen)|;
    if segLen <= |s| {
      SegmentsCount(s[segLen..], segLen);
      assert n == |Segments(s[segLen..], segLen)| + 1;
    }
    DivisionUnique(|s|, segLen, n);
  }

  /**
   * Window `d` is the slice `[segLen * d, segLen * d + segLen)` of the
   * signal, and it lies inside the signal: consecutive windows are
   * adjacent, do not overlap, follow the signal's order and are never cut
   * short.
   */
  lemma {:induction false} SegmentAt<T>(s: seq<T>, segLen: nat, d: nat)
    requires 0 < segLen
    requires d < |Segments(s, segLen)|
    ensures segLen * d + segLen <= |s|
    ensures Segments(s, segLen)[d] == s[segLen * d .. segLen * d + segLen]
  {
    if d > 0 {
      SegmentAt(s[segLen..], segLen, d - 1);
      assert segLen * d == segLen + segLen * (d - 1);
    }
  }

  /**
   * The windows, laid end to end, are exactly the signal's first
   * `|windows| * segLen` samples; the samples after them (fewer than one
   * window) appear in no window.
   */
  lemma {:induction false} SegmentsCoverPrefix<T>(s: seq<T>, segLen: nat)
    requires 0 < segLen
    ensures |Segments(s, segLen)| * segLen <= |s|
    ensures Concat(Segments(s, segLen)) == s[..|Segments(s, segLen)| * segLen]
    ensures Concat(Segments(s, segLen)) + s[|Segments(s, segLen)| * segLen..] == s
    ensures |s| - |Segments(s, segLen)| * segLen < segLen
  {
    SegmentsCount(s, segLen);
    var covered := |Segments(s, segLen)| * segLen;
    ConcatSegments(s, segLen);
    assert s[..covered] + s[covered..] == s;
  }

  /** The windows laid end to end are the signal's first `|windows| * segLen` samples. */
  lemma {:induction false} ConcatSegments<T>(s: seq<T>, segLen: nat)
    requires 0 < segLen
    ensures |Segments(s, segLen)| * segLen <= |s|
    ensures Concat(Segments(s, segLen)) == s[..|Segments(s, segLen)| * segLen]
    decreases |s|
  {
    var segs := Segments(s, segLen);
    if |s| < segLen {
      assert segs == [];
    } else {
      var rest := s[segLen..];
      ConcatSegments(rest, segLen);
      var tail := Segments(rest, segLen);
      var restCovered := |tail| * segLen;
      assert segs == [s[..segLen]] + tail;
      ConcatCons(s[..segLen], tail);
      MulSucc(|tail|, segLen);
      assert |segs| * segLen == restCovered + segLen;
      assert s[..segLen] + rest[..restCovered] == s[..restCovered + segLen];
    }
  }

  /** `Concat` of a sequence with a first element. */
  lemma ConcatCons<T>(x: seq<T>, xs: seq<seq<T>>)
    ensures Concat([x] + xs) == x + Concat(xs)
  {
  }

  /** `(k + 1) * m == k * m + m` */
  lemma MulSucc(k: nat, m: nat)
    ensures (k + 1) * m == k * m + m
  {
  }
}
