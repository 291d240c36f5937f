/** The integer-arithmetic rate transposer: the configuration state shared
    with the floating-point variant (channel count, the three sample
    buffers) and the fixed-point interpolation registers that carry the
    interpolation phase and the last input frame from one call to the next. */
module RateTransposer {
  import opened Interpolation

  /** What this model keeps of a FIFOSampleBuffer: its channel count and how
      many sample frames it holds. */
  datatype SampleBuffer = SampleBuffer(channels: nat, frames: nat)

  /** Lane c (0 = left, 1 = right) of the first n interleaved stereo frames. */
  function Lane(frames: seq<Sample>, n: nat, c: nat): (lane: seq<Sample>)
    requires c < 2 && 2 * n <= |frames|
    ensures |lane| == n
    ensures forall k :: 0 <= k < n ==> lane[k] == frames[2 * k + c]
  {
    seq(n, k requires 0 <= k < n => frames[2 * k + c])
  }

  /** Two equally long lanes as interleaved stereo frames, left first. */
  function Interleave(left: seq<Sample>, right: seq<Sample>): (frames: seq<Sample>)
    requires |left| == |right|
    ensures |frames| == 2 * |left|
  {
    if left == [] then [] else [left[0], right[0]] + Interleave(left[1..], right[1..])
  }

  /** Frame k of the interleaving is the k-th sample of each lane. */
  lemma {:induction false} InterleaveAt(left: seq<Sample>, right: seq<Sample>, k: nat)
    requires |left| == |right| && k < |left|
    ensures Interleave(left, right)[2 * k] == left[k]
    ensures Interleave(left, right)[2 * k + 1] == right[k]
  {
    if k > 0 {
      InterleaveAt(left[1..], right[1..], k - 1);
    }
  }

  /** Splitting interleaved frames gives back the two lanes. */
  lemma LanesOfInterleave(left: seq<Sample>, right: seq<Sample>)
    requires |left| == |right|
    ensures Lane(Interleave(left, right), |left|, 0) == left
    ensures Lane(Interleave(left, right), |left|, 1) == right
  {
    forall k | 0 <= k < |left|
      ensures Interleave(left, right)[2 * k] == left[k]
      ensures Interleave(left, right)[2 * k + 1] == right[k]
    {
      InterleaveAt(left, right, k);
    }
  }

  /** Interleaving the two lanes of n frames gives back those frames. */
  lemma InterleaveOfLanes(frames: seq<Sample>, n: nat)
    requires 2 * n <= |frames|
    ensures Interleave(Lane(frames, n, 0), Lane(frames, n, 1)) == frames[..2 * n]
  {
    var left, right := Lane(frames, n, 0), Lane(frames, n, 1);
    forall j | 0 <= j < 2 * n
      ensures Interleave(left, right)[j] == frames[j]
    {
      InterleaveAt(left, right, j / 2);
    }
  }

  /** Frames whose two lanes are left and right are their interleaving. */
  lemma FramesOfLanes(frames: seq<Sample>, n: nat, left: seq<Sample>, right: seq<Sample>)
    requires 2 * n <= |frames|
    requires Lane(frames, n, 0) == left && Lane(frames, n, 1) == right
    ensures frames[..2 * n] == Interleave(left, right)
  {
    InterleaveOfLanes(frames, n);
  }

  /** The lane after a leading sample p: its k-th point is frame k - 1. */
  lemma LaneAfter(frames: seq<Sample>, n: nat, c: nat, p: Sample)
    requires c < 2 && 2 * n <= |frames|
    ensures forall k :: 1 <= k <= n ==> ([p] + Lane(frames, n, c))[k] == frames[2 * k - 2 + c]
  {
  }

  class RateTransposerInteger {
    /** Number of interleaved channels, 1 (mono) or 2 (stereo). */
    var channels: nat
    var storeBuffer: SampleBuffer
    var tempBuffer: SampleBuffer
    var outputBuffer: SampleBuffer
    /** The slope counter: interpolation phase as a fraction of SCALE. */
    var slopeCount: int
    /** The step added to the slope counter per output sample (rate * SCALE). */
    var rate: int
    /** The last input frame of the previous call. */
    var prevL: Sample
    var prevR: Sample

    ghost predicate Valid()
      reads this
    {
      && (channels == 1 || channels == 2)
      && 0 < rate
      && 0 <= slopeCount
      && storeBuffer.channels == channels
      && tempBuffer.channels == channels
      && outputBuffer.channels == channels
    }

    /** No sample is waiting, neither for output nor for processing: the
        output buffer is looked at first, the store buffer only if that one
        is empty. */
    predicate IsEmpty(): (r: bool)
      reads this
      ensures r <==> outputBuffer.frames + storeBuffer.frames == 0
    {
      if outputBuffer.frames != 0 then false else storeBuffer.frames == 0
    }

    /** A new transposer: stereo, empty buffers, reset registers, rate 1.0. */
    constructor ()
      ensures Valid()
      ensures channels == 2 && rate == SCALE
      ensures slopeCount == 0 && prevL == 0 && prevR == 0
      ensures storeBuffer == tempBuffer == outputBuffer == SampleBuffer(2, 0)
    {
      channels := 2;
      storeBuffer := SampleBuffer(2, 0);
      tempBuffer := SampleBuffer(2, 0);
      outputBuffer := SampleBuffer(2, 0);
      slopeCount := 0;
      prevL, prevR := 0, 0;
      rate := SCALE;
    }

    /** Sets the step of the slope counter; newRate is the already rounded
        fixed-point value of the requested rate. */
    method SetRate(newRate: int)
      requires Valid() && 0 < newRate
      modifies this`rate
      ensures Valid() && rate == newRate
    {
      rate := newRate;
    }

    /** Restarts the interpolation: phase 0 and a silent previous frame. */
    method ResetRegisters()
      requires Valid()
      modifies this`slopeCount, this`prevL, this`prevR
      ensures Valid()
      ensures slopeCount == 0 && prevL == 0 && prevR == 0
    {
      slopeCount := 0;
      prevL, prevR := 0, 0;
    }

    /** Changes the channel count of the transposer and its three buffers.
        Asking for the current count changes nothing; any other count must
        be 1 or 2, and the interpolation restarts. */
    method SetChannels(n: nat)
      requires Valid()
      requires n == channels || n == 1 || n == 2
      modifies this
      ensures Valid()
      ensures n == old(channels) ==> unchanged(this)
      ensures n != old(channels) ==>
        && channels == n
        && storeBuffer == old(storeBuffer).(channels := n)
        && tempBuffer == old(tempBuffer).(channels := n)
        && outputBuffer == old(outputBuffer).(channels := n)
        && slopeCount == 0 && prevL == 0 && prevR == 0
        && rate == old(rate)
    {
      if channels == n {
        return;
      }
      channels := n;
      storeBuffer := storeBuffer.(channels := n);
      tempBuffer := tempBuffer.(channels := n);
      outputBuffer := outputBuffer.(channels := n);
      ResetRegisters();
    }

    /** Drops every pending and finished sample, keeping the configuration
        and the interpolation registers. */
    method Clear()
      requires Valid()
      modifies this`outputBuffer, this`storeBuffer
      ensures Valid() && IsEmpty()
      ensures outputBuffer == old(outputBuffer).(frames := 0)
      ensures storeBuffer == old(storeBuffer).(frames := 0)
    {
      outputBuffer := outputBuffer.(frames := 0);
      storeBuffer := storeBuffer.(frames := 0);
    }

    /** Mono transposition of src[..n] into dest. The output is the walk over
        the previous call's last sample followed by src[..n]; the left-over
        slope and the last sample are kept for the next call. */
    method TransposeMono(dest: array<Sample>, src: array<Sample>, n: nat) returns (count: nat)
      requires Valid()
      requires dest != src
      requires 2 <= n <= src.Length
      requires |Transpose([prevL] + src[..n], slopeCount, rate)| <= dest.Length
      modifies this`slopeCount, this`prevL, dest
      ensures Valid()
      ensures count == |Transpose([old(prevL)] + src[..n], old(slopeCount), rate)|
      ensures dest[..count] == Transpose([old(prevL)] + src[..n], old(slopeCount), rate)
      ensures forall k :: count <= k < dest.Length ==> dest[k] == old(dest[k])
      ensures slopeCount == FinalSlope([old(prevL)] + src[..n], old(slopeCount), rate)
      ensures prevL == src[n - 1]
    {
      ghost var xs := [prevL] + src[..n];
      WalkIsTranspose(xs, slopeCount, rate);
      var i, slope := LeadIn(dest, prevL, src, n, slopeCount, rate, xs);
      count, slope := Interpolate(dest, src, n, i, slope, rate, xs);
      slopeCount := slope;
      prevL := src[n - 1];
    }

    /** Stereo transposition of the n interleaved frames src[..2 * n] into
        dest. Both channels follow the same walk over the slope counter, the
        left one over prevL followed by the left lane of src, the right one
        over prevR followed by the right lane; their outputs come out
        interleaved, and the last frame is kept for the next call. An empty
        input changes nothing. */
    method TransposeStereo(dest: array<Sample>, src: array<Sample>, n: nat) returns (count: nat)
      requires Valid()
      requires dest != src
      requires n == 0 || 2 <= n
      requires 2 * n <= src.Length
      requires n > 0 ==> 2 * |Transpose([prevL] + Lane(src[..], n, 0), slopeCount, rate)| <= dest.Length
      modifies this`slopeCount, this`prevL, this`prevR, dest
      ensures Valid()
      ensures n == 0 ==> count == 0 && unchanged(this) && unchanged(dest)
      ensures n > 0 ==>
        var left := Transpose([old(prevL)] + Lane(src[..], n, 0), old(slopeCount), rate);
        var right := Transpose([old(prevR)] + Lane(src[..], n, 1), old(slopeCount), rate);
        && count == |left| == |right|
        && 2 * count <= dest.Length
        && Lane(dest[..], count, 0) == left
        && Lane(dest[..], count, 1) == right
        && dest[..2 * count] == Interleave(left, right)
        && (forall k :: 2 * count <= k < dest.Length ==> dest[k] == old(dest[k]))
        && slopeCount == FinalSlope([old(prevL)] + Lane(src[..], n, 0), old(slopeCount), rate)
        && prevL == src[2 * n - 2] && prevR == src[2 * n - 1]
    {
      if n == 0 {
        return 0;
      }
      ghost var xsL := [prevL] + Lane(src[..], n, 0);
      ghost var xsR := [prevR] + Lane(src[..], n, 1);
      LaneAfter(src[..], n, 0, prevL);
      LaneAfter(src[..], n, 1, prevR);
      WalkIsTranspose(xsL, slopeCount, rate);
      WalkIsTranspose(xsR, slopeCount, rate);
      ghost var outL, outR;
      var i, slope;
      i, slope, outL, outR := LeadInStereo(dest, prevL, prevR, src, n, slopeCount, rate, xsL, xsR);
      count, slope, outL, outR := InterpolateStereo(dest, src, n, i, slope, rate, xsL, xsR, outL, outR);
      Deinterleave(dest, outL, outR, count);
      FramesOfLanes(dest[..], count, outL, outR);
      slopeCount := slope;
      prevL := src[2 * n - 2];
      prevR := src[2 * n - 1];
    }
  }

  /** The first loop of the mono transposition: the segment from the previous
      call's last sample prev (xs[0]) to src[0] (xs[1]), written from dest[0].
      It leaves the walk in segment 1. */
  method LeadIn(dest: array<Sample>, prev: Sample, src: array<Sample>, n: nat, s: int, rate: int,
                ghost xs: seq<Sample>) returns (i: nat, slope: int)
    requires dest != src && 2 <= n <= src.Length && 0 <= s && 0 < rate
    requires |xs| == n + 1 && xs[0] == prev && forall k :: 0 <= k < n ==> xs[k + 1] == src[k]
    requires |WalkOn([], xs, 0, s, rate)| <= dest.Length
    modifies dest
    ensures 0 <= slope && i <= dest.Length
    ensures WalkOn(dest[..i], xs, 1, slope, rate) == WalkOn([], xs, 0, s, rate)
    ensures WalkSlope(xs, 1, slope, rate) == WalkSlope(xs, 0, s, rate)
    ensures forall k :: i <= k < dest.Length ==> dest[k] == old(dest[k])
  {
    ghost var total := WalkOn([], xs, 0, s, rate);
    slope := s;
    i := 0;
    assert dest[..i] == [];
    while slope <= SCALE
      invariant 0 <= slope && i <= |total|
      invariant WalkOn(dest[..i], xs, 0, slope, rate) == total
      invariant WalkSlope(xs, 0, slope, rate) == WalkSlope(xs, 0, s, rate)
      invariant forall k :: i <= k < dest.Length ==> dest[k] == old(dest[k])
      decreases |total| - i
    {
      ghost var done := dest[..i];
      dest[i] := Lerp(prev, src[0], slope);
      assert dest[..i + 1] == done + [dest[i]];
      i := i + 1;
      slope := slope + rate;
    }
    slope := slope - SCALE;
  }

  /** The second loop of the mono transposition: the segments between
      consecutive samples of src[..n], from segment 1 (src[0] to src[1]) at
      slope s, appended to the start samples already in dest. Returns the
      end of the output and the left-over slope. */
  method Interpolate(dest: array<Sample>, src: array<Sample>, n: nat, start: nat, s: int, rate: int,
                     ghost xs: seq<Sample>) returns (end: nat, slope: int)
    requires dest != src && 2 <= n <= src.Length && 0 <= s && 0 < rate
    requires |xs| == n + 1 && forall k :: 0 <= k < n ==> xs[k + 1] == src[k]
    requires start <= dest.Length && |WalkOn(dest[..start], xs, 1, s, rate)| <= dest.Length
    modifies dest
    ensures start <= end <= dest.Length
    ensures dest[..end] == WalkOn(old(dest[..start]), xs, 1, s, rate)
    ensures slope == WalkSlope(xs, 1, s, rate)
    ensures forall k :: end <= k < dest.Length ==> dest[k] == old(dest[k])
  {
    ghost var total := WalkOn(dest[..start], xs, 1, s, rate);
    slope := s;
    end := start;
    var used: nat := 0;
    while true
      invariant used + 1 < n
      invariant 0 <= slope && start <= end <= |total|
      invariant WalkOn(dest[..end], xs, used + 1, slope, rate) == total
      invariant WalkSlope(xs, used + 1, slope, rate) == WalkSlope(xs, 1, s, rate)
      invariant forall k :: end <= k < dest.Length ==> dest[k] == old(dest[k])
      decreases |total| - end
    {
      var finished;
      used, slope, finished := SkipSegments(n, used, slope, rate, dest[..end], dest[..end], xs, xs);
      if finished {
        break;
      }
      ghost var done := dest[..end];
      dest[end] := Lerp(src[used], src[used + 1], slope);
      assert dest[..end + 1] == done + [dest[end]];
      end := end + 1;
      slope := slope + rate;
    }
  }

  /** The inner loop of both transpositions: while the slope is past SCALE
      it moves on to the next input sample, and it reports when no segment is
      left. The walks over xsA and xsB (one per channel, with doneA and doneB
      produced so far) are not changed by these steps. */
  method SkipSegments(n: nat, used: nat, s: int, rate: int, ghost doneA: seq<Sample>, ghost doneB: seq<Sample>,
                      ghost xsA: seq<Sample>, ghost xsB: seq<Sample>)
    returns (used': nat, slope: int, finished: bool)
    requires used + 1 < n && 0 <= s && 0 < rate
    requires |xsA| == n + 1 && |xsB| == n + 1
    ensures 0 <= slope
    ensures finished ==> && WalkOn(doneA, xsA, used + 1, s, rate) == doneA
                         && WalkOn(doneB, xsB, used + 1, s, rate) == doneB
                         && WalkSlope(xsA, used + 1, s, rate) == slope
    ensures !finished ==> && used' + 1 < n && slope <= SCALE
                          && WalkOn(doneA, xsA, used + 1, s, rate) == WalkOn(doneA, xsA, used' + 1, slope, rate)
                          && WalkOn(doneB, xsB, used + 1, s, rate) == WalkOn(doneB, xsB, used' + 1, slope, rate)
                          && WalkSlope(xsA, used + 1, s, rate) == WalkSlope(xsA, used' + 1, slope, rate)
  {
    used', slope, finished := used, s, false;
    while slope > SCALE
      invariant used' + 1 < n && 0 <= slope
      invariant WalkOn(doneA, xsA, used + 1, s, rate) == WalkOn(doneA, xsA, used' + 1, slope, rate)
      invariant WalkOn(doneB, xsB, used + 1, s, rate) == WalkOn(doneB, xsB, used' + 1, slope, rate)
      invariant WalkSlope(xsA, used + 1, s, rate) == WalkSlope(xsA, used' + 1, slope, rate)
      decreases n - used'
    {
      slope := slope - SCALE;
      used' := used' + 1;
      if used' >= n - 1 {
        return used', slope, true;
      }
    }
  }

  /** dest holds the first i frames of the interleaved pair of outputs. */
  ghost predicate Interleaved(dest: array<Sample>, outL: seq<Sample>, outR: seq<Sample>, i: nat)
    reads dest
  {
    && |outL| == i && |outR| == i && 2 * i <= dest.Length
    && forall k :: 0 <= k < i ==> dest[2 * k] == outL[k] && dest[2 * k + 1] == outR[k]
  }

  /** The two lanes of interleaved output are the two outputs. */
  lemma Deinterleave(dest: array<Sample>, outL: seq<Sample>, outR: seq<Sample>, i: nat)
    requires Interleaved(dest, outL, outR, i)
    ensures Lane(dest[..], i, 0) == outL && Lane(dest[..], i, 1) == outR
  {
  }

  /** Writes the output frame (l, r) at frame position i of dest. */
  method PutFrame(dest: array<Sample>, i: nat, l: Sample, r: Sample,
                  ghost outL: seq<Sample>, ghost outR: seq<Sample>)
    requires Interleaved(dest, outL, outR, i) && 2 * i + 2 <= dest.Length
    modifies dest
    ensures Interleaved(dest, outL + [l], outR + [r], i + 1)
    ensures forall k :: 2 * i + 2 <= k < dest.Length ==> dest[k] == old(dest[k])
  {
    dest[2 * i] := l;
    dest[2 * i + 1] := r;
  }

  /** The first loop of the stereo transposition: the segment from the
      previous call's last frame (prevL, prevR) to the first frame of src,
      both channels at once, written from frame 0 of dest. */
  method LeadInStereo(dest: array<Sample>, prevL: Sample, prevR: Sample, src: array<Sample>, n: nat,
                      s: int, rate: int, ghost xsL: seq<Sample>, ghost xsR: seq<Sample>)
    returns (i: nat, slope: int, ghost outL: seq<Sample>, ghost outR: seq<Sample>)
    requires dest != src && 2 <= n && 2 * n <= src.Length && 0 <= s && 0 < rate
    requires |xsL| == n + 1 && |xsR| == n + 1 && xsL[0] == prevL && xsR[0] == prevR
    requires forall k :: 1 <= k <= n ==> xsL[k] == src[2 * k - 2] && xsR[k] == src[2 * k - 1]
    requires 2 * |WalkOn([], xsL, 0, s, rate)| <= dest.Length
    modifies dest
    ensures 0 <= slope && Interleaved(dest, outL, outR, i)
    ensures WalkOn(outL, xsL, 1, slope, rate) == WalkOn([], xsL, 0, s, rate)
    ensures WalkOn(outR, xsR, 1, slope, rate) == WalkOn([], xsR, 0, s, rate)
    ensures WalkSlope(xsL, 1, slope, rate) == WalkSlope(xsL, 0, s, rate)
    ensures forall k :: 2 * i <= k < dest.Length ==> dest[k] == old(dest[k])
  {
    ghost var totalL := WalkOn([], xsL, 0, s, rate);
    ghost var totalR := WalkOn([], xsR, 0, s, rate);
    slope := s;
    i := 0;
    outL, outR := [], [];
    assert xsL[1] == src[0] && xsR[1] == src[1];
    while slope <= SCALE
      invariant 0 <= slope && i <= |totalL|
      invariant Interleaved(dest, outL, outR, i)
      invariant WalkOn(outL, xsL, 0, slope, rate) == totalL
      invariant WalkOn(outR, xsR, 0, slope, rate) == totalR
      invariant WalkSlope(xsL, 0, slope, rate) == WalkSlope(xsL, 0, s, rate)
      invariant forall k :: 2 * i <= k < dest.Length ==> dest[k] == old(dest[k])
      decreases |totalL| - i
    {
      var l := Lerp(prevL, src[0], slope);
      var r := Lerp(prevR, src[1], slope);
      PutFrame(dest, i, l, r, outL, outR);
      outL, outR := outL + [l], outR + [r];
      i := i + 1;
      slope := slope + rate;
    }
    slope := slope - SCALE;
  }

  /** The second loop of the stereo transposition: the segments between
      consecutive frames of src[..2 * n], from segment 1 at slope s,
      appended to the frames inL, inR already in dest. */
  method InterpolateStereo(dest: array<Sample>, src: array<Sample>, n: nat, start: nat, s: int, rate: int,
                           ghost xsL: seq<Sample>, ghost xsR: seq<Sample>,
                           ghost inL: seq<Sample>, ghost inR: seq<Sample>)
    returns (end: nat, slope: int, ghost outL: seq<Sample>, ghost outR: seq<Sample>)
    requires dest != src && 2 <= n && 2 * n <= src.Length && 0 <= s && 0 < rate
    requires |xsL| == n + 1 && |xsR| == n + 1
    requires forall k :: 1 <= k <= n ==> xsL[k] == src[2 * k - 2] && xsR[k] == src[2 * k - 1]
    requires Interleaved(dest, inL, inR, start)
    requires 2 * |WalkOn(inL, xsL, 1, s, rate)| <= dest.Length
    modifies dest
    ensures start <= end && Interleaved(dest, outL, outR, end)
    ensures outL == WalkOn(inL, xsL, 1, s, rate)
    ensures outR == WalkOn(inR, xsR, 1, s, rate)
    ensures slope == WalkSlope(xsL, 1, s, rate)
    ensures forall k :: 2 * end <= k < dest.Length ==> dest[k] == old(dest[k])
  {
    ghost var totalL := WalkOn(inL, xsL, 1, s, rate);
    ghost var totalR := WalkOn(inR, xsR, 1, s, rate);
    slope := s;
    end := start;
    outL, outR := inL, inR;
    var used: nat := 0;
    while true
      invariant used + 1 < n
      invariant 0 <= slope && start <= end <= |totalL|
      invariant Interleaved(dest, outL, outR, end)
      invariant WalkOn(outL, xsL, used + 1, slope, rate) == totalL
      invariant WalkOn(outR, xsR, used + 1, slope, rate) == totalR
      invariant WalkSlope(xsL, used + 1, slope, rate) == WalkSlope(xsL, 1, s, rate)
      invariant forall k :: 2 * end <= k < dest.Length ==> dest[k] == old(dest[k])
      decreases |totalL| - end
    {
      var finished;
      used, slope, finished := SkipSegments(n, used, slope, rate, outL, outR, xsL, xsR);
      if finished {
        break;
      }
      var srcPos := 2 * used;
      assert src[srcPos] == xsL[used + 1] && src[srcPos + 1] == xsR[used + 1];
      assert src[srcPos + 2] == xsL[used + 2] && src[srcPos + 3] == xsR[used + 2];
      var l := Lerp(src[srcPos], src[srcPos + 2], slope);
      var r := Lerp(src[srcPos + 1], src[srcPos + 3], slope);
      PutFrame(dest, end, l, r, outL, outR);
      outL, outR := outL + [l], outR + [r];
      end := end + 1;
      slope := slope + rate;
    }
  }
}
