// The inner loop of the 16-bit resampler, which steps through its input in fixed
// point, and the closed form of what it computes.

module Resamplers {
  import Gcd
  import opened Sequences

  type Sample = x: int | -0x8000 <= x < 0x8000

  /** One frame in subframes; positions are counted in subframes. */
  const ONE: nat := 0x4000

  // ----- one sample

  /** r is on the straight line from a to b, t subframes after a, rounded down. */
  predicate OnLine(a: Sample, b: Sample, t: nat, r: Sample) {
    r * ONE <= a * ONE + (b - a) * t < (r + 1) * ONE
  }

  /** The value t subframes after a on the way to b. */
  function Interpolate(a: Sample, b: Sample, t: nat): (r: Sample)
    requires t < ONE
    ensures if a <= b then a <= r <= b else b <= r <= a
    ensures t == 0 ==> r == a
  {
    Mixes(a, b, t);
    (a * (ONE - t) + b * t) / ONE
  }

  lemma InterpolateOnLine(a: Sample, b: Sample, t: nat)
    requires t < ONE
    ensures OnLine(a, b, t, Interpolate(a, b, t))
  {
    Mixes(a, b, t);
  }

  /** The weighted sum lies between its ends; it fits 32 bits easily. */
  lemma Mixes(a: Sample, b: Sample, t: nat)
    requires t < ONE
    ensures if a <= b then a * ONE <= a * (ONE - t) + b * t <= b * ONE else b * ONE <= a * (ONE - t) + b * t <= a * ONE
    ensures a * (ONE - t) + b * t == a * ONE + (b - a) * t
    ensures -0x2000_0000 <= a * (ONE - t) + b * t < 0x2000_0000
  {
    assert a * (ONE - t) == a * ONE - a * t;
    var d := b - a;
    assert b * t == a * t + d * t;
    if d >= 0 {
      ScaleUp(d, t);
    } else {
      ScaleUp(-d, t);
      assert d * t == -((-d) * t);
    }
  }

  lemma ScaleUp(d: nat, t: nat)
    requires t < ONE
    ensures 0 <= d * t <= d * ONE
  {
  }

  // ----- frames

  function Blend(a: seq<Sample>, b: seq<Sample>, t: nat): (r: seq<Sample>)
    requires |a| == |b| && t < ONE
    ensures |r| == |a| && forall i :: 0 <= i < |r| ==> r[i] == Interpolate(a[i], b[i], t)
  {
    if a == [] then [] else [Interpolate(a[0], b[0], t)] + Blend(a[1..], b[1..], t)
  }

  lemma BlendNothing(a: seq<Sample>, b: seq<Sample>)
    requires |a| == |b|
    ensures Blend(a, b, 0) == a
  {
  }

  /** The samples in so many frames. */
  function Samples(channels: nat, frames: nat): nat
    decreases frames
  {
    if frames == 0 then 0 else Samples(channels, frames - 1) + channels
  }

  /** Frame q of an input whose frames have so many channels. */
  function Frame(input: seq<Sample>, channels: nat, q: nat): seq<Sample>
    requires Samples(channels, q) + channels <= |input|
  {
    input[Samples(channels, q)..Samples(channels, q) + channels]
  }

  lemma {:induction false} SamplesAdd(channels: nat, a: nat, b: nat)
    ensures Samples(channels, a + b) == Samples(channels, a) + Samples(channels, b)
    decreases b
  {
    if b > 0 {
      SamplesAdd(channels, a, b - 1);
    }
  }

  lemma {:induction false} SamplesAre(channels: nat, frames: nat)
    ensures Samples(channels, frames) == frames * channels
    decreases frames
  {
    if frames > 0 {
      SamplesAre(channels, frames - 1);
      OneMore(frames, channels);
    }
  }

  lemma FrameFits(channels: nat, frames: nat, q: nat)
    requires q < frames
    ensures Samples(channels, q) + channels <= Samples(channels, frames)
  {
    SamplesAdd(channels, q + 1, frames - q - 1);
  }

  /** A place in the input: a frame and how many subframes after it. */
  datatype Place = Place(frame: nat, sub: nat)

  /** Whether the input has the frames on both sides of a place. */
  predicate Inside(frames: nat, p: Place) {
    p.sub < ONE && p.frame + 1 < frames
  }

  function FrameAt(input: seq<Sample>, channels: nat, frames: nat, p: Place): (r: seq<Sample>)
    requires Samples(channels, frames) <= |input| && Inside(frames, p)
    ensures |r| == channels
  {
    FrameFits(channels, frames, p.frame);
    FrameFits(channels, frames, p.frame + 1);
    Blend(Frame(input, channels, p.frame), Frame(input, channels, p.frame + 1), p.sub)
  }

  /** At a whole position the frame is that of the input. */
  lemma FrameIs(input: seq<Sample>, channels: nat, frames: nat, p: Place)
    requires Samples(channels, frames) <= |input| && Inside(frames, p)
    ensures Samples(channels, p.frame) + channels + channels <= |input|
    ensures FrameAt(input, channels, frames, p)
            == Blend(Frame(input, channels, p.frame), Frame(input, channels, p.frame + 1), p.sub)
    ensures p.sub == 0 ==> FrameAt(input, channels, frames, p) == Frame(input, channels, p.frame)
  {
    FrameFits(channels, frames, p.frame);
    FrameFits(channels, frames, p.frame + 1);
    if p.sub == 0 {
      BlendNothing(Frame(input, channels, p.frame), Frame(input, channels, p.frame + 1));
    }
  }

  // ----- the whole loop

  /** What the rate comes to: whole frames and subframes per output frame. */
  datatype Stride = Stride(whole: nat, sub: nat)

  function Advanced(p: Place, step: Stride): Place {
    if p.sub + step.sub >= ONE then Place(p.frame + 1 + step.whole, p.sub + step.sub - ONE)
    else Place(p.frame + step.whole, p.sub + step.sub)
  }

  /** How many frames fit: the output has room for so many, and the input must surround their places. */
  function Count(frames: nat, p: Place, step: Stride, room: nat): (n: nat)
    ensures n <= room
    decreases room
  {
    if room == 0 || !Inside(frames, p) then 0 else 1 + Count(frames, Advanced(p, step), step, room - 1)
  }

  /** Where the loop stops. */
  function Stop(frames: nat, p: Place, step: Stride, room: nat): Place
    decreases room
  {
    if room == 0 || !Inside(frames, p) then p else Stop(frames, Advanced(p, step), step, room - 1)
  }

  function Output(input: seq<Sample>, channels: nat, frames: nat, p: Place, step: Stride, room: nat): seq<Sample>
    requires Samples(channels, frames) <= |input|
    decreases room
  {
    if room == 0 || !Inside(frames, p) then []
    else FrameAt(input, channels, frames, p) + Output(input, channels, frames, Advanced(p, step), step, room - 1)
  }

  // ----- the closed form

  /** The place a number of subframes into the input. */
  function PlaceAt(x: nat): Place {
    Place(x / ONE, x % ONE)
  }

  function Subframes(p: Place): nat {
    p.frame * ONE + p.sub
  }

  function StrideSubframes(step: Stride): nat {
    step.whole * ONE + step.sub
  }

  /** Where frame k is taken from, in subframes. */
  function Position(p: Place, step: Stride, k: nat): nat {
    Subframes(p) + k * StrideSubframes(step)
  }

  lemma PositionMoves(p: Place, step: Stride, k: nat)
    requires k > 0
    ensures Position(Advanced(p, step), step, k - 1) == Position(p, step, k)
  {
    OneMore(k, StrideSubframes(step));
  }

  lemma PlaceIs(p: Place)
    requires p.sub < ONE
    ensures PlaceAt(Subframes(p)) == p
  {
  }

  predicate StrideOk(step: Stride) {
    step.sub < ONE
  }

  /** The loop stops after Count steps, because the output is full or the input used up. */
  lemma {:induction false} StopsWhen(frames: nat, p: Place, step: Stride, room: nat)
    requires p.sub < ONE && StrideOk(step)
    ensures var n, q := Count(frames, p, step, room), Stop(frames, p, step, room);
            q == PlaceAt(Position(p, step, n)) && (n == room || q.frame + 1 >= frames)
    decreases room
  {
    if room > 0 && Inside(frames, p) {
      StopsWhen(frames, Advanced(p, step), step, room - 1);
      PositionMoves(p, step, Count(frames, p, step, room));
    } else {
      PlaceIs(p);
      assert Position(p, step, 0) == Subframes(p);
    }
  }

  /**
   * Frame k of the output is the input at k strides from where the loop began, and the input has the
   * frames around that place.
   */
  lemma {:induction false} OutputAt(input: seq<Sample>, channels: nat, frames: nat, p: Place, step: Stride,
                                    room: nat, k: nat)
    requires Samples(channels, frames) <= |input| && p.sub < ONE && StrideOk(step) && k < Count(frames, p, step, room)
    ensures Inside(frames, PlaceAt(Position(p, step, k))) && PlaceAt(Position(p, step, k)).frame + 1 < frames
    ensures Samples(channels, k) + channels <= |Output(input, channels, frames, p, step, room)|
    ensures Frame(Output(input, channels, frames, p, step, room), channels, k)
            == FrameAt(input, channels, frames, PlaceAt(Position(p, step, k)))
    decreases room
  {
    if k > 0 {
      OutputAt(input, channels, frames, Advanced(p, step), step, room - 1, k - 1);
      PositionMoves(p, step, k);
    } else {
      PlaceIs(p);
      assert Position(p, step, 0) == Subframes(p);
    }
    FrameOfConcat(FrameAt(input, channels, frames, p),
                  Output(input, channels, frames, Advanced(p, step), step, room - 1), channels, k);
  }

  lemma OneMore(k: nat, x: nat)
    requires k > 0
    ensures k * x == x + (k - 1) * x
  {
  }

  lemma FrameOfConcat(first: seq<Sample>, rest: seq<Sample>, channels: nat, k: nat)
    requires |first| == channels && (k > 0 ==> Samples(channels, k - 1) + channels <= |rest|)
    ensures Samples(channels, k) + channels <= |first + rest|
    ensures Frame(first + rest, channels, k) == if k == 0 then first else Frame(rest, channels, k - 1)
  {
    if k > 0 {
      SliceOfConcat(first, rest, Samples(channels, k - 1), channels);
    }
  }

  lemma SliceOfConcat(first: seq<Sample>, rest: seq<Sample>, from: nat, n: nat)
    requires from + n <= |rest|
    ensures (first + rest)[|first| + from..|first| + from + n] == rest[from..from + n]
  {
  }

  /**
   * Every output sample is on the straight line between the two input samples around its place, at its
   * distance from the first of them, and so lies between them.
   */
  lemma SampleOnLine(input: seq<Sample>, channels: nat, frames: nat, p: Place, step: Stride, room: nat, k: nat, c: nat)
    requires Samples(channels, frames) <= |input| && p.sub < ONE && StrideOk(step)
    requires k < Count(frames, p, step, room) && c < channels
    ensures Samples(channels, k) + channels <= |Output(input, channels, frames, p, step, room)|
    ensures var x := Position(p, step, k);
            var q := x / ONE;
            && q + 1 < frames && Samples(channels, q + 1) + channels <= |input|
            && var (a, b, r) := (Frame(input, channels, q)[c], Frame(input, channels, q + 1)[c],
                                 Frame(Output(input, channels, frames, p, step, room), channels, k)[c]);
               OnLine(a, b, x % ONE, r) && if a <= b then a <= r <= b else b <= r <= a
  {
    OutputAt(input, channels, frames, p, step, room, k);
    var q := PlaceAt(Position(p, step, k)).frame;
    FrameFits(channels, frames, q);
    FrameFits(channels, frames, q + 1);
    InterpolateOnLine(Frame(input, channels, q)[c], Frame(input, channels, q + 1)[c], Position(p, step, k) % ONE);
  }

  lemma {:induction false} OutputLength(input: seq<Sample>, channels: nat, frames: nat, p: Place, step: Stride,
                                      room: nat)
    requires Samples(channels, frames) <= |input|
    ensures |Output(input, channels, frames, p, step, room)| == Samples(channels, Count(frames, p, step, room))
    decreases room
  {
    if room > 0 && Inside(frames, p) {
      OutputLength(input, channels, frames, Advanced(p, step), step, room - 1);
    }
  }

  lemma Associative(a: seq<Sample>, b: seq<Sample>, c: seq<Sample>)
    ensures a + (b + c) == a + b + c
  {
  }

  /** Filling two output buffers in turn gives what filling one of their joint size gives. */
  lemma {:induction false} SplitOutput(input: seq<Sample>, channels: nat, frames: nat, p: Place, step: Stride,
                                       room: nat, more: nat)
    requires Samples(channels, frames) <= |input|
    ensures var q := Stop(frames, p, step, room);
            && Output(input, channels, frames, p, step, room + more)
               == Output(input, channels, frames, p, step, room) + Output(input, channels, frames, q, step, more)
            && Count(frames, p, step, room + more) == Count(frames, p, step, room) + Count(frames, q, step, more)
            && Stop(frames, p, step, room + more) == Stop(frames, q, step, more)
    decreases room
  {
    if room > 0 && Inside(frames, p) {
      SplitOutput(input, channels, frames, Advanced(p, step), step, room - 1, more);
      var q := Stop(frames, p, step, room);
      Associative(FrameAt(input, channels, frames, p),
                  Output(input, channels, frames, Advanced(p, step), step, room - 1),
                  Output(input, channels, frames, q, step, more));
    }
  }

  /** The state of a resampler whose rate does not change: positions in the buffers count samples. */
  class Resampler {
    const channelCount: nat
    const input: seq<Sample>
    const output: array<Sample>
    var inFrames: nat
    var inFramesEnd: nat
    var outFrames: nat
    var outFramesEnd: nat
    var subframeIndex: nat
    var subframeStride: nat
    var inSampleStride: nat
    var pts: int

    /** The same in frames: the input's next one and their number, the room in the output, the stride. */
    ghost var inFrame: nat
    ghost var inFrameCount: nat
    ghost var room: nat
    ghost var wholeStride: nat

    ghost predicate Valid()
      reads this
    {
      && channelCount > 0
      && inFrames == Samples(channelCount, inFrame)
      && inFramesEnd == Samples(channelCount, inFrameCount) <= |input| && inFrameCount > 0
      && outFramesEnd == outFrames + Samples(channelCount, room) <= output.Length
      && inSampleStride == Samples(channelCount, wholeStride)
      && subframeIndex < ONE && subframeStride < ONE
    }

    ghost function Here(): Place
      reads this
    {
      Place(inFrame, subframeIndex)
    }

    ghost function Step(): Stride
      reads this
    {
      Stride(wholeStride, subframeStride)
    }

    method CopyFrame(in_: nat, out: nat, ghost q: nat)
      requires in_ == Samples(channelCount, q) && in_ + channelCount <= |input|
      requires out + channelCount <= output.Length
      modifies output
      ensures output[..] == Patched(old(output[..]), out, Frame(input, channelCount, q))
    {
      forall i | 0 <= i < channelCount {
        output[out + i] := input[in_ + i];
      }
      IsPatched(old(output[..]), out, Frame(input, channelCount, q), output[..]);
    }

    method InterpolateFrame(inA: nat, inB: nat, t: nat, out: nat, ghost q: nat)
      requires inA == Samples(channelCount, q) && inB == Samples(channelCount, q + 1) && t < ONE
      requires inA + channelCount <= |input| && inB + channelCount <= |input|
      requires out + channelCount <= output.Length
      modifies output
      ensures output[..] == Patched(old(output[..]), out,
                                    Blend(Frame(input, channelCount, q), Frame(input, channelCount, q + 1), t))
    {
      ghost var was, a, b := output[..], Frame(input, channelCount, q), Frame(input, channelCount, q + 1);
      for i := 0 to channelCount
        invariant Blending(was, out, Blend(a, b, t), output[..], i)
      {
        assert a[i] == input[inA + i] && b[i] == input[inB + i];
        BlendOne(was, out, Blend(a, b, t), output[..], i);
        output[out + i] := Interpolate(input[inA + i], input[inB + i], t);
      }
      IsPatched(was, out, Blend(a, b, t), output[..]);
    }

    /** Writes the frame at a place. */
    method WriteFrame(in_: nat, t: nat, out: nat, ghost p: Place)
      requires Samples(channelCount, inFrameCount) <= |input| && Inside(inFrameCount, p)
      requires in_ == Samples(channelCount, p.frame) && t == p.sub && out + channelCount <= output.Length
      modifies output
      ensures output[..] == Patched(old(output[..]), out, FrameAt(input, channelCount, inFrameCount, p))
    {
      FrameIs(input, channelCount, inFrameCount, p);
      if t == 0 {
        CopyFrame(in_, out, p.frame);
      } else {
        InterpolateFrame(in_, in_ + channelCount, t, out, p.frame);
      }
    }

    /** Fills the output as far as it and the input go. */
    method InterpolateFrames()
      requires Valid()
      modifies `inFrames, `outFrames, `subframeIndex, `pts, `inFrame, `room, output
      ensures Valid()
      ensures var (from, n) := (old(Here()), old(room));
              && Here() == Stop(inFrameCount, from, Step(), n)
              && room == n - Count(inFrameCount, from, Step(), n)
              && pts == old(pts) + Count(inFrameCount, from, Step(), n)
              && Written(old(output[..]), old(outFrames), output[..], outFrames,
                         Output(input, channelCount, inFrameCount, from, Step(), n))
    {
      var in_, subframe, out;
      ghost var at;
      in_, subframe, out, at := Loop();
      Finished(input, channelCount, inFrameCount, Here(), Step(), room, at,
               old(output[..]), outFrames, output[..], out);
      var written := FrameCount(out - outFrames, room - at.left);
      pts := pts + written;
      inFrames := in_;
      outFrames := out;
      subframeIndex := subframe;
      inFrame, room := at.place.frame, at.left;
    }

    method Loop() returns (in_: nat, subframe: nat, out: nat, ghost at: Progress)
      requires Valid()
      modifies output
      ensures At(at, in_, subframe, out) && (at.left == 0 || !Inside(inFrameCount, at.place))
      ensures Running(input, channelCount, inFrameCount, Here(), Step(), room, at)
      ensures Written(old(output[..]), outFrames, output[..], out, at.done)
    {
      in_, subframe, out, at := inFrames, subframeIndex, outFrames, Progress(Here(), room, []);
      var inLast := inFramesEnd - channelCount;
      while in_ < inLast && out < outFramesEnd
        invariant At(at, in_, subframe, out)
        invariant Running(input, channelCount, inFrameCount, Here(), Step(), room, at)
        invariant Written(old(output[..]), outFrames, output[..], out, at.done)
        decreases at.left
      {
        in_, subframe, out, at := OneFrame(in_, subframe, out, at, old(output[..]));
      }
      BeforeLast(channelCount, at.place.frame, inFrameCount);
      Room(channelCount, at.left);
    }

    /** The frames in so many samples. */
    method FrameCount(samples: nat, ghost frames: nat) returns (n: nat)
      requires channelCount > 0 && samples == Samples(channelCount, frames)
      ensures n == frames
    {
      FramesIn(channelCount, frames);
      n := samples / channelCount;
    }

    /** The pointers of the loop stand where it has got to. */
    ghost predicate At(at: Progress, in_: int, subframe: int, out: int)
      reads this
    {
      && in_ == Samples(channelCount, at.place.frame) && subframe == at.place.sub < ONE
      && 0 <= out && outFramesEnd == out + Samples(channelCount, at.left)
    }

    /** One round of the loop. */
    method OneFrame(in_: nat, subframe: nat, out: nat, ghost at: Progress, ghost was: seq<Sample>)
      returns (in': nat, subframe': nat, out': nat, ghost at': Progress)
      requires Valid() && At(at, in_, subframe, out) && in_ < inFramesEnd - channelCount && out < outFramesEnd
      requires Running(input, channelCount, inFrameCount, Here(), Step(), room, at)
      requires Written(was, outFrames, output[..], out, at.done)
      modifies output
      ensures At(at', in', subframe', out') && at'.left < at.left
      ensures Running(input, channelCount, inFrameCount, Here(), Step(), room, at')
      ensures Written(was, outFrames, output[..], out', at'.done)
    {
      BeforeLast(channelCount, at.place.frame, inFrameCount);
      Room(channelCount, at.left);
      RunOne(input, channelCount, inFrameCount, Here(), Step(), room, at);
      at' := Round(input, channelCount, inFrameCount, Step(), at);
      WriteNext(in_, subframe, out, at, was);
      in', subframe' := Advance(in_, subframe, at.place);
      out' := out + channelCount;
    }

    /** Adds the next frame to what has been written. */
    method WriteNext(in_: nat, subframe: nat, out: nat, ghost at: Progress, ghost was: seq<Sample>)
      requires Samples(channelCount, inFrameCount) <= |input| && Inside(inFrameCount, at.place)
      requires in_ == Samples(channelCount, at.place.frame) && subframe == at.place.sub
      requires out + channelCount <= output.Length
      requires Written(was, outFrames, output[..], out, at.done)
      modifies output
      ensures Written(was, outFrames, output[..], out + channelCount,
                      at.done + FrameAt(input, channelCount, inFrameCount, at.place))
    {
      ghost var before, frame := output[..], FrameAt(input, channelCount, inFrameCount, at.place);
      WriteFrame(in_, subframe, out, at.place);
      WriteOne(was, outFrames, before, out, at.done, frame, output[..]);
    }

    /** Moves on in the input by the stride, in whole frames and subframes. */
    method Advance(in_: nat, subframe: nat, ghost p: Place) returns (in': nat, subframe': nat)
      requires Valid() && in_ == Samples(channelCount, p.frame) && subframe == p.sub < ONE
      ensures var q := Advanced(p, Step()); in' == Samples(channelCount, q.frame) && subframe' == q.sub < ONE
    {
      in', subframe' := in_, subframe + subframeStride;
      if subframe' >= ONE {
        subframe' := subframe' - ONE;
        in' := in' + channelCount;
      }
      SamplesAdd(channelCount, if p.sub + subframeStride >= ONE then p.frame + 1 else p.frame, wholeStride);
      in' := in' + inSampleStride;
    }
  }

  /** How far the loop has got: its place in the input, the frames left to fill, and the samples done. */
  datatype Progress = Progress(place: Place, left: nat, done: seq<Sample>)

  function Round(source: seq<Sample>, channels: nat, frames: nat, step: Stride, at: Progress): Progress
    requires Samples(channels, frames) <= |source| && at.left > 0 && Inside(frames, at.place)
  {
    Progress(Advanced(at.place, step), at.left - 1, at.done + FrameAt(source, channels, frames, at.place))
  }

  /** What is done and what is to come make up the whole. */
  ghost predicate Running(source: seq<Sample>, channels: nat, frames: nat, from: Place, step: Stride, room: nat,
                          at: Progress)
    requires Samples(channels, frames) <= |source|
  {
    match at
    case Progress(place, left, done) =>
      && left <= room && |done| == Samples(channels, room - left)
      && Output(source, channels, frames, from, step, room) ==
           done + Output(source, channels, frames, place, step, left)
      && Count(frames, from, step, room) == room - left + Count(frames, place, step, left)
      && Stop(frames, from, step, room) == Stop(frames, place, step, left)
  }

  lemma RunOne(source: seq<Sample>, channels: nat, frames: nat, from: Place, step: Stride, room: nat, at: Progress)
    requires Samples(channels, frames) <= |source| && Running(source, channels, frames, from, step, room, at)
    requires at.left > 0 && Inside(frames, at.place)
    ensures Running(source, channels, frames, from, step, room, Round(source, channels, frames, step, at))
  {
    Associative(at.done, FrameAt(source, channels, frames, at.place),
                Output(source, channels, frames, Advanced(at.place, step), step, at.left - 1));
    SamplesAdd(channels, room - at.left, 1);
  }

  /** What is done has been written from start on, and nothing else has changed. */
  predicate Written(was: seq<Sample>, start: nat, now: seq<Sample>, out: nat, done: seq<Sample>) {
    && start <= out <= |was| == |now| && out - start == |done|
    && now == was[..start] + done + was[out..]
  }

  lemma WriteOne(was: seq<Sample>, start: nat, now: seq<Sample>, out: nat, done: seq<Sample>, frame: seq<Sample>,
                 next: seq<Sample>)
    requires Written(was, start, now, out, done) && out + |frame| <= |now| && next == Patched(now, out, frame)
    ensures Written(was, start, next, out + |frame|, done + frame)
  {
    assert now[..out] == was[..start] + done;
    assert now[out + |frame|..] == was[out + |frame|..];
    assert was[..start] + done + frame == was[..start] + (done + frame);
  }

  lemma Finished(source: seq<Sample>, channels: nat, frames: nat, from: Place, step: Stride, room: nat, at: Progress,
                 was: seq<Sample>, start: nat, now: seq<Sample>, out: nat)
    requires Samples(channels, frames) <= |source| && Running(source, channels, frames, from, step, room, at)
    requires at.left == 0 || !Inside(frames, at.place)
    requires Written(was, start, now, out, at.done)
    ensures Written(was, start, now, out, Output(source, channels, frames, from, step, room))
    ensures out - start == Samples(channels, room - at.left)
    ensures Count(frames, from, step, room) == room - at.left
    ensures Stop(frames, from, step, room) == at.place
  {
    assert at.done + [] == at.done;
  }

  /** The loop's guards on sample positions, in frames. */
  lemma BeforeLast(channels: nat, frame: nat, frames: nat)
    requires channels > 0 && frames > 0
    ensures Samples(channels, frame) < Samples(channels, frames) - channels <==> frame + 1 < frames
  {
    if frame + 1 < frames {
      FrameFits(channels, frames, frame + 1);
    } else {
      SamplesAdd(channels, frames, frame + 1 - frames);
    }
  }

  lemma Room(channels: nat, left: nat)
    requires channels > 0
    ensures left > 0 <==> Samples(channels, left) > 0
  {
  }

  /** Dividing by the number of channels gives back the frames. */
  lemma FramesIn(channels: nat, frames: nat)
    requires channels > 0
    ensures Samples(channels, frames) / channels == frames
  {
    SamplesAre(channels, frames);
    Gcd.RemainderIs(frames * channels, channels, frames, 0);
  }

  /** The first i samples of a frame have been written. */
  ghost predicate Blending(was: seq<Sample>, out: nat, frame: seq<Sample>, now: seq<Sample>, i: nat) {
    && out + |frame| <= |was| == |now| && i <= |frame|
    && forall j {:trigger now[j]} :: 0 <= j < |was| ==> now[j] == if out <= j < out + i then frame[j - out] else was[j]
  }

  lemma BlendOne(was: seq<Sample>, out: nat, frame: seq<Sample>, now: seq<Sample>, i: nat)
    requires Blending(was, out, frame, now, i) && i < |frame|
    ensures Blending(was, out, frame, now[out + i := frame[i]], i + 1)
  {
  }
}
