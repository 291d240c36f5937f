/** Fixed-point linear interpolation used by the integer rate transposer.

    The transposer walks over the points xs = [previous sample] + input samples.
    The gap between xs[j] and xs[j+1] is a "segment". Inside a segment the
    slope counter s (a fraction of SCALE) selects the interpolation weight; an
    output sample is emitted for every s <= SCALE, then s grows by the rate.
    Once s exceeds SCALE the walk moves to the next segment with s - SCALE.
    The functions below give that walk as a value; the loops of the transposer
    are proved equal to it. */
module Interpolation {

  /** Fixed-point precision of the slope counter (1.0 == SCALE). */
  const SCALE: int := 65536

  /** SAMPLETYPE of an integer build: a signed 16-bit sample. */
  type Sample = x: int | -0x8000 <= x < 0x8000

  function Min(a: int, b: int): int { if a <= b then a else b }
  function Max(a: int, b: int): int { if a <= b then b else a }

  /** v lies between the two interpolation endpoints a and b. */
  predicate Between(v: int, a: int, b: int) { Min(a, b) <= v <= Max(a, b) }

  /** C's signed integer division, which truncates toward zero. */
  function TruncDiv(x: int, d: int): int
    requires d > 0
  {
    if x >= 0 then x / d else -((-x) / d)
  }

  lemma MulMonotone(x: int, a: int, b: int)
    requires x >= 0 && a <= b
    ensures x * a <= x * b
  {
    assert x * b - x * a == x * (b - a);
  }

  lemma MulSucc(d: int, k: int)
    ensures d * (k + 1) == d * k + d
  {
  }

  /** Dividing something between d*lo and d*hi by d, truncating, stays in [lo, hi]. */
  lemma TruncDivBetween(x: int, d: int, lo: int, hi: int)
    requires d > 0 && d * lo <= x <= d * hi
    ensures lo <= TruncDiv(x, d) <= hi
  {
    var q := TruncDiv(x, d);
    if x >= 0 {
      assert q * d <= x < q * d + d;
    } else {
      assert (-x) / d * d <= -x < (-x) / d * d + d;
      assert q * d - d < x <= q * d;
    }
    MulSucc(d, hi);
    MulSucc(d, q);
    MulSucc(d, lo - 1);
    if q > hi {
      MulMonotone(d, hi + 1, q);
      assert false;
    }
    if q < lo {
      MulMonotone(d, q + 1, lo);
      assert false;
    }
  }

  /** The weighted sum (SCALE - s) * a + s * b that the source forms in a
      LONG_SAMPLETYPE. It lies between SCALE * min and SCALE * max of the two
      endpoints, hence within a signed 32-bit integer. */
  function Weighted(a: Sample, b: Sample, s: int): (w: int)
    requires 0 <= s <= SCALE
    ensures SCALE * Min(a, b) <= w <= SCALE * Max(a, b)
    ensures -0x8000_0000 <= w <= 0x7FFF_FFFF
  {
    var m, mx := Min(a, b), Max(a, b);
    MulMonotone(SCALE - s, m, a);
    MulMonotone(SCALE - s, a, mx);
    MulMonotone(s, m, b);
    MulMonotone(s, b, mx);
    assert (SCALE - s) * m + s * m == SCALE * m;
    assert (SCALE - s) * mx + s * mx == SCALE * mx;
    (SCALE - s) * a + s * b
  }

  /** One interpolated output: ((SCALE - s) * a + s * b) / SCALE in C arithmetic.
      It always fits back into a sample, so the source's cast loses nothing. */
  function Lerp(a: Sample, b: Sample, s: int): (r: Sample)
    requires 0 <= s <= SCALE
    ensures Between(r, a, b)
    ensures s == 0 ==> r == a
    ensures s == SCALE ==> r == b
  {
    var w := Weighted(a, b, s);
    TruncDivBetween(w, SCALE, Min(a, b), Max(a, b));
    assert s == 0 ==> w == SCALE * a;
    assert s == SCALE ==> w == SCALE * b;
    if s == 0 then TruncDivBetween(w, SCALE, a, a); TruncDiv(w, SCALE)
    else if s == SCALE then TruncDivBetween(w, SCALE, b, b); TruncDiv(w, SCALE)
    else TruncDiv(w, SCALE)
  }

  /** The samples emitted inside one segment from a to b, starting at slope s:
      one for each of s, s + rate, s + 2 * rate, ... that is at most SCALE. */
  function Segment(a: Sample, b: Sample, s: int, rate: int): (out: seq<Sample>)
    requires 0 <= s && 0 < rate
    ensures s > SCALE <==> out == []
    decreases SCALE + 1 - s
  {
    if s > SCALE then [] else [Lerp(a, b, s)] + Segment(a, b, s + rate, rate)
  }

  /** Every sample of a segment lies between its two endpoints. */
  lemma {:induction false} SegmentWithin(a: Sample, b: Sample, s: int, rate: int)
    requires 0 <= s && 0 < rate
    ensures forall k :: 0 <= k < |Segment(a, b, s, rate)| ==> Between(Segment(a, b, s, rate)[k], a, b)
    decreases SCALE + 1 - s
  {
    if s <= SCALE {
      SegmentWithin(a, b, s + rate, rate);
    }
  }

  /** The slope at which a segment entered at slope s is left: the first of
      s, s + rate, ... that exceeds SCALE. */
  function SegmentExit(s: int, rate: int): (e: int)
    requires 0 <= s && 0 < rate
    ensures e > SCALE
    ensures s > SCALE ==> e == s
    ensures s <= SCALE ==> e <= SCALE + rate
    decreases SCALE + 1 - s
  {
    if s > SCALE then s else SegmentExit(s + rate, rate)
  }

  /** All samples produced by walking the points xs from slope s. Fewer than
      two points span no segment and give nothing; at a rate of at most 1.0,
      from a slope inside the first segment, every segment gives at least one
      sample. */
  function Transpose(xs: seq<Sample>, s: int, rate: int): (out: seq<Sample>)
    requires 0 <= s && 0 < rate
    ensures |xs| < 2 ==> out == []
    ensures rate <= SCALE && s <= SCALE ==> |out| >= |xs| - 1
    decreases |xs|
  {
    if |xs| < 2 then []
    else Segment(xs[0], xs[1], s, rate) + Transpose(xs[1..], SegmentExit(s, rate) - SCALE, rate)
  }

  /** The slope left over after walking the points xs from slope s; it is
      carried to the next call. */
  function FinalSlope(xs: seq<Sample>, s: int, rate: int): (r: int)
    requires 0 <= s && 0 < rate
    ensures r >= 0
    ensures |xs| >= 2 ==> r > 0
    decreases |xs|
  {
    if |xs| < 2 then s else FinalSlope(xs[1..], SegmentExit(s, rate) - SCALE, rate)
  }

  /** The same walk written as the transposer's loops run it, one step at a
      time from segment j and slope s, appending to the samples already
      produced: emit while s <= SCALE, otherwise move on to the next
      segment, and stop after the last one. */
  function WalkOn(done: seq<Sample>, xs: seq<Sample>, j: nat, s: int, rate: int): (out: seq<Sample>)
    requires j + 2 <= |xs| && 0 <= s && 0 < rate
    ensures |done| <= |out|
    decreases |xs| - j, SCALE + 1 - s
  {
    if s <= SCALE then WalkOn(done + [Lerp(xs[j], xs[j + 1], s)], xs, j, s + rate, rate)
    else if j + 2 < |xs| then WalkOn(done, xs, j + 1, s - SCALE, rate)
    else done
  }

  /** The slope the step-by-step walk ends with. */
  function WalkSlope(xs: seq<Sample>, j: nat, s: int, rate: int): int
    requires j + 2 <= |xs| && 0 <= s && 0 < rate
    decreases |xs| - j, SCALE + 1 - s
  {
    if s <= SCALE then WalkSlope(xs, j, s + rate, rate)
    else if j + 2 < |xs| then WalkSlope(xs, j + 1, s - SCALE, rate)
    else s - SCALE
  }

  /** Within segment j the step-by-step walk emits exactly that segment's
      samples and leaves it at the segment's exit slope. */
  lemma {:induction false} WalkOnSegment(done: seq<Sample>, xs: seq<Sample>, j: nat, s: int, rate: int)
    requires j + 2 <= |xs| && 0 <= s && 0 < rate
    ensures WalkOn(done, xs, j, s, rate)
         == WalkOn(done + Segment(xs[j], xs[j + 1], s, rate), xs, j, SegmentExit(s, rate), rate)
    ensures WalkSlope(xs, j, s, rate) == WalkSlope(xs, j, SegmentExit(s, rate), rate)
    decreases SCALE + 1 - s
  {
    if s <= SCALE {
      var v := Lerp(xs[j], xs[j + 1], s);
      var seg := Segment(xs[j], xs[j + 1], s + rate, rate);
      WalkOnSegment(done + [v], xs, j, s + rate, rate);
      assert (done + [v]) + seg == done + ([v] + seg);
    } else {
      assert done + [] == done;
    }
  }

  /** From segment j on, the step-by-step walk appends to what was already
      produced the transposition of the points from j on. */
  lemma {:induction false} WalkOnTranspose(done: seq<Sample>, xs: seq<Sample>, j: nat, s: int, rate: int)
    requires j + 2 <= |xs| && 0 <= s && 0 < rate
    ensures WalkOn(done, xs, j, s, rate) == done + Transpose(xs[j..], s, rate)
    ensures WalkSlope(xs, j, s, rate) == FinalSlope(xs[j..], s, rate)
    decreases |xs| - j
  {
    var e := SegmentExit(s, rate);
    var seg := Segment(xs[j], xs[j + 1], s, rate);
    var ys := xs[j..];
    assert ys[0] == xs[j] && ys[1] == xs[j + 1] && ys[1..] == xs[j + 1..];
    WalkOnSegment(done, xs, j, s, rate);
    if j + 2 < |xs| {
      WalkOnTranspose(done + seg, xs, j + 1, e - SCALE, rate);
      assert (done + seg) + Transpose(xs[j + 1..], e - SCALE, rate)
          == done + (seg + Transpose(xs[j + 1..], e - SCALE, rate));
    } else {
      assert Transpose(xs[j + 1..], e - SCALE, rate) == [];
      assert seg + [] == seg;
    }
  }

  /** Run from the first segment with nothing produced yet, the step-by-step
      walk computes Transpose and FinalSlope. */
  lemma WalkIsTranspose(xs: seq<Sample>, s: int, rate: int)
    requires 2 <= |xs| && 0 <= s && 0 < rate
    ensures Transpose(xs, s, rate) == WalkOn([], xs, 0, s, rate)
    ensures FinalSlope(xs, s, rate) == WalkSlope(xs, 0, s, rate)
  {
    WalkOnTranspose([], xs, 0, s, rate);
    assert xs[0..] == xs;
    assert [] + Transpose(xs, s, rate) == Transpose(xs, s, rate);
  }

  /** Every output lies between the two consecutive points it interpolates. */
  lemma {:induction false} TransposeWithinNeighbours(xs: seq<Sample>, s: int, rate: int)
    requires 0 <= s && 0 < rate
    ensures forall k :: 0 <= k < |Transpose(xs, s, rate)| ==>
              exists j :: 0 <= j < |xs| - 1 && Between(Transpose(xs, s, rate)[k], xs[j], xs[j + 1])
  {
    if |xs| >= 2 {
      var seg := Segment(xs[0], xs[1], s, rate);
      var s' := SegmentExit(s, rate) - SCALE;
      var tail := Transpose(xs[1..], s', rate);
      TransposeWithinNeighbours(xs[1..], s', rate);
      var out := Transpose(xs, s, rate);
      assert out == seg + tail;
      forall k | 0 <= k < |out|
        ensures exists j :: 0 <= j < |xs| - 1 && Between(out[k], xs[j], xs[j + 1])
      {
        if k < |seg| {
          SegmentWithin(xs[0], xs[1], s, rate);
          assert Between(out[k], xs[0], xs[0 + 1]);
        } else {
          assert out[k] == tail[k - |seg|];
          var j' :| 0 <= j' < |xs[1..]| - 1 && Between(tail[k - |seg|], xs[1..][j'], xs[1..][j' + 1]);
          assert Between(out[k], xs[j' + 1], xs[j' + 1 + 1]);
        }
      }
    } else {
      assert Transpose(xs, s, rate) == [];
    }
  }

  /** A constant input (previous sample included) gives a constant output. */
  lemma {:induction false} TransposeConstant(xs: seq<Sample>, c: Sample, s: int, rate: int)
    requires 0 <= s && 0 < rate
    requires forall k :: 0 <= k < |xs| ==> xs[k] == c
    ensures forall k :: 0 <= k < |Transpose(xs, s, rate)| ==> Transpose(xs, s, rate)[k] == c
  {
    if |xs| >= 2 {
      var s' := SegmentExit(s, rate) - SCALE;
      TransposeConstant(xs[1..], c, s', rate);
      assert xs[0] == c && xs[1] == c;
      SegmentWithin(c, c, s, rate);
    }
  }

  /** How many samples come out, and the slope left over, depend on the number
      of points only, never on their values. */
  lemma {:induction false} TransposeShape(xs: seq<Sample>, ys: seq<Sample>, s: int, rate: int)
    requires 0 <= s && 0 < rate && |xs| == |ys|
    ensures |Transpose(xs, s, rate)| == |Transpose(ys, s, rate)|
    ensures FinalSlope(xs, s, rate) == FinalSlope(ys, s, rate)
  {
    if |xs| >= 2 {
      SegmentShape(xs[0], xs[1], ys[0], ys[1], s, rate);
      TransposeShape(xs[1..], ys[1..], SegmentExit(s, rate) - SCALE, rate);
    }
  }

  lemma {:induction false} SegmentShape(a: Sample, b: Sample, c: Sample, d: Sample, s: int, rate: int)
    requires 0 <= s && 0 < rate
    ensures |Segment(a, b, s, rate)| == |Segment(c, d, s, rate)|
    decreases SCALE + 1 - s
  {
    if s <= SCALE {
      SegmentShape(a, b, c, d, s + rate, rate);
    }
  }

  /** Splitting the input between two calls, where the second call starts
      from the last point of the first (the carried previous sample) and from
      the left-over slope, produces exactly the output of one call on the whole. */
  lemma {:induction false} TransposeSplit(xs: seq<Sample>, ys: seq<Sample>, s: int, rate: int)
    requires 0 <= s && 0 < rate && |xs| >= 1 && |ys| >= 1 && ys[0] == xs[|xs| - 1]
    ensures Transpose(xs + ys[1..], s, rate)
         == Transpose(xs, s, rate) + Transpose(ys, FinalSlope(xs, s, rate), rate)
    ensures FinalSlope(xs + ys[1..], s, rate) == FinalSlope(ys, FinalSlope(xs, s, rate), rate)
    decreases |xs|
  {
    var zs := xs + ys[1..];
    if |xs| == 1 {
      assert zs == ys;
    } else {
      var s' := SegmentExit(s, rate) - SCALE;
      TransposeSplit(xs[1..], ys, s', rate);
      assert zs[0] == xs[0] && zs[1] == xs[1];
      assert zs[1..] == xs[1..] + ys[1..];
    }
  }

  /** Between calls the slope counter stays in (0, rate]. */
  lemma {:induction false} FinalSlopeBounds(xs: seq<Sample>, s: int, rate: int)
    requires 0 <= s <= SCALE + rate && 0 < rate && |xs| >= 2
    ensures 0 < FinalSlope(xs, s, rate) <= rate
    decreases |xs|
  {
    var s' := SegmentExit(s, rate) - SCALE;
    if |xs| > 2 {
      FinalSlopeBounds(xs[1..], s', rate);
    }
  }

  /** At rate 1.0 with the counter at SCALE, the walk reproduces the points
      after the first one and keeps the counter at SCALE. */
  lemma {:induction false} RateOneSteady(xs: seq<Sample>)
    requires |xs| >= 2
    ensures Transpose(xs, SCALE, SCALE) == xs[1..]
    ensures FinalSlope(xs, SCALE, SCALE) == SCALE
    decreases |xs|
  {
    assert Segment(xs[0], xs[1], SCALE, SCALE) == [xs[1]];
    assert SegmentExit(SCALE, SCALE) == 2 * SCALE;
    if |xs| > 2 {
      RateOneSteady(xs[1..]);
    }
  }

  /** At rate 1.0 from a freshly reset counter, the walk reproduces every
      point, the previous sample included, and leaves the counter at SCALE. */
  lemma {:induction false} RateOneFromReset(xs: seq<Sample>)
    requires |xs| >= 2
    ensures Transpose(xs, 0, SCALE) == xs
    ensures FinalSlope(xs, 0, SCALE) == SCALE
  {
    assert Segment(xs[0], xs[1], 0, SCALE) == [xs[0], xs[1]];
    assert SegmentExit(0, SCALE) == 2 * SCALE;
    if |xs| > 2 {
      RateOneSteady(xs[1..]);
    }
  }
}
