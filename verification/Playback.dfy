/** The viewer's audio playback: rate and channel conversion of decoded frames, and the bounded
    queue between the decoder thread and the device callback. Samples are reals. */
module Playback {
  import opened Arithmetic
  import opened Bytes

  // ---------- Conversion ----------

  function Sum(s: seq<real>): real {
    if s == [] then 0.0 else s[0] + Sum(s[1..])
  }

  function AtLeastOne(n: nat): nat {
    if n == 0 then 1 else n
  }

  lemma {:induction false} FrameEnds(len: nat, channels: nat, frame: nat)
    requires channels > 0 && frame < len / channels
    ensures (frame + 1) * channels <= len
  {
    assert len / channels * channels <= len;
    ProductBound(frame + 1, channels, len / channels, channels);
  }

  /** One output sample from one source frame. */
  function MixSample(source: seq<real>, outChannels: nat, channel: nat): real
    requires source != []
  {
    if |source| == 1 then source[0]
    else if outChannels == 1 then Sum(source) / (|source| as real)
    else source[if channel < |source| then channel else |source| - 1]
  }

  /** The input frame an output frame is taken from, before the clamp. */
  function SourceFrame(frame: nat, inRate: nat, outRate: nat): nat
    requires outRate > 0
  {
    frame * inRate / outRate
  }

  function OutputFrames(frames: nat, inRate: nat, outRate: nat): nat
    requires inRate > 0
  {
    AtLeastOne(frames * outRate / inRate)
  }

  /** The clamp to the last input frame never changes an index. */
  lemma {:induction false} ClampNeverActs(frames: nat, inRate: nat, outRate: nat, frame: nat)
    requires frames > 0 && inRate > 0 && outRate > 0
    requires frame < OutputFrames(frames, inRate, outRate)
    ensures SourceFrame(frame, inRate, outRate) < frames
  {
    var n := frames * outRate / inRate;
    assert n * inRate <= frames * outRate;
    if frame < n {
      assert (frame + 1) * inRate <= n * inRate;
      assert frame * inRate < frames * outRate;
    } else {
      assert frame == 0;
      assert 0 < frames * outRate;
    }
    DivBetween(frame * inRate, outRate, 0, frames - 1);
  }

  function SourceSlice(input: seq<real>, channels: nat, frame: nat): (r: seq<real>)
    requires channels > 0 && frame < |input| / channels
    ensures |r| == channels
  {
    FrameEnds(|input|, channels, frame);
    assert (frame + 1) * channels == frame * channels + channels;
    input[frame * channels..(frame + 1) * channels]
  }

  predicate Convertible(input: seq<real>, inRate: nat, inChannels: nat, outRate: nat) {
    inRate > 0 && inChannels > 0 && outRate > 0 && |input| / inChannels > 0
  }

  /** The output samples of one output frame. */
  function OutputFrame(input: seq<real>, inRate: nat, inChannels: nat, outRate: nat, outChannels: nat, frame: nat)
    : (r: seq<real>)
    requires Convertible(input, inRate, inChannels, outRate)
    requires frame < OutputFrames(|input| / inChannels, inRate, outRate)
    ensures |r| == outChannels
  {
    ClampNeverActs(|input| / inChannels, inRate, outRate, frame);
    var source := SourceSlice(input, inChannels, SourceFrame(frame, inRate, outRate));
    seq(outChannels, c requires 0 <= c < outChannels => MixSample(source, outChannels, c))
  }

  function FirstFrames(input: seq<real>, inRate: nat, inChannels: nat, outRate: nat, outChannels: nat, n: nat)
    : (r: seq<real>)
    requires Convertible(input, inRate, inChannels, outRate)
    requires n <= OutputFrames(|input| / inChannels, inRate, outRate)
    ensures |r| == n * outChannels
  {
    if n == 0 then []
    else
      FirstFrames(input, inRate, inChannels, outRate, outChannels, n - 1)
      + OutputFrame(input, inRate, inChannels, outRate, outChannels, n - 1)
  }

  function Converted(input: seq<real>, inRate: nat, inChannels: nat, outRate: nat, outChannels: nat): (r: seq<real>)
    ensures |r| % AtLeastOne(outChannels) == 0
  {
    if inRate == 0 || inChannels == 0 || outRate == 0 || |input| / inChannels == 0 then []
    else
      var n := OutputFrames(|input| / inChannels, inRate, outRate);
      DivOfMultiple(n, AtLeastOne(outChannels));
      FirstFrames(input, inRate, inChannels, outRate, AtLeastOne(outChannels), n)
  }

  method ResampleInterleaved(input: seq<real>, inRate: nat, inChannels: nat, outRate: nat, outChannels: nat)
    returns (output: seq<real>)
    ensures output == Converted(input, inRate, inChannels, outRate, outChannels)
  {
    if input == [] || inRate == 0 || inChannels == 0 || outRate == 0 {
      return [];
    }
    var channels := AtLeastOne(outChannels);
    var frames := |input| / inChannels;
    if frames == 0 {
      return [];
    }
    var outputFrames := OutputFrames(frames, inRate, outRate);
    output := [];
    for frame := 0 to outputFrames
      invariant output == FirstFrames(input, inRate, inChannels, outRate, channels, frame)
    {
      var mixed := MixFrame(input, inRate, inChannels, outRate, channels, frame);
      output := output + mixed;
    }
  }

  /** All channels of one output frame. */
  method MixFrame(input: seq<real>, inRate: nat, inChannels: nat, outRate: nat, channels: nat, frame: nat)
    returns (mixed: seq<real>)
    requires Convertible(input, inRate, inChannels, outRate)
    requires frame < OutputFrames(|input| / inChannels, inRate, outRate)
    ensures mixed == OutputFrame(input, inRate, inChannels, outRate, channels, frame)
  {
    var frames := |input| / inChannels;
    ClampNeverActs(frames, inRate, outRate, frame);
    var unclamped := frame * inRate / outRate;
    var sourceFrame := if unclamped < frames - 1 then unclamped else frames - 1;
    var source := SourceSlice(input, inChannels, sourceFrame);
    mixed := [];
    for channel := 0 to channels
      invariant mixed == seq(channel, c requires 0 <= c < channel => MixSample(source, channels, c))
    {
      mixed := mixed + [MixSample(source, channels, channel)];
    }
  }

  /** With equal rates and channel counts the whole frames of the input come out unchanged. */
  lemma {:induction false} ConversionIdentity(input: seq<real>, rate: nat, channels: nat)
    requires rate > 0 && channels > 0
    ensures |input| / channels * channels <= |input|
    ensures Converted(input, rate, channels, rate, channels) == input[..|input| / channels * channels]
  {
    var frames := |input| / channels;
    assert frames * channels <= |input|;
    if frames > 0 {
      DivOfMultiple(frames, rate);
      FirstFramesIdentity(input, rate, channels, frames);
    }
  }

  lemma {:induction false} FirstFramesIdentity(input: seq<real>, rate: nat, channels: nat, n: nat)
    requires Convertible(input, rate, channels, rate)
    requires n <= |input| / channels <= OutputFrames(|input| / channels, rate, rate)
    ensures n * channels <= |input|
    ensures FirstFrames(input, rate, channels, rate, channels, n) == input[..n * channels]
  {
    if n > 0 {
      FrameEnds(|input|, channels, n - 1);
      FirstFramesIdentity(input, rate, channels, n - 1);
      FrameIdentity(input, rate, channels, n - 1);
      OneMore(n, channels);
      hide FirstFrames, OutputFrame, SourceSlice, OutputFrames, Convertible;
      FirstFramesStep(input, rate, channels, n - 1);
      var cut := (n - 1) * channels;
      ExtendPrefix(input, cut, cut + channels);
    }
  }

  lemma {:induction false} ExtendPrefix<T>(s: seq<T>, m: nat, n: nat)
    requires m <= n <= |s|
    ensures s[..n] == s[..m] + s[m..n]
  {
  }

  lemma {:induction false} FirstFramesStep(input: seq<real>, rate: nat, channels: nat, n: nat)
    requires Convertible(input, rate, channels, rate) && n < OutputFrames(|input| / channels, rate, rate)
    ensures FirstFrames(input, rate, channels, rate, channels, n + 1) ==
            FirstFrames(input, rate, channels, rate, channels, n)
            + OutputFrame(input, rate, channels, rate, channels, n)
  {
    hide OutputFrame, OutputFrames, Convertible;
  }

  lemma {:induction false} FrameIdentity(input: seq<real>, rate: nat, channels: nat, frame: nat)
    requires Convertible(input, rate, channels, rate)
    requires frame < |input| / channels <= OutputFrames(|input| / channels, rate, rate)
    ensures frame * channels + channels <= |input|
    ensures OutputFrame(input, rate, channels, rate, channels, frame)
            == input[frame * channels..frame * channels + channels]
  {
    FrameEnds(|input|, channels, frame);
    OneMore(frame + 1, channels);
    DivOfMultiple(frame, rate);
    hide OutputFrames;
    var source := SourceSlice(input, channels, frame);
    assert forall c | 0 <= c < channels :: MixSample(source, channels, c) == source[c] by {
      if channels == 1 {
        assert source == [source[0]];
      }
    }
  }

  lemma {:induction false} FramePlace(input: seq<real>, inRate: nat, inChannels: nat, outRate: nat, channels: nat,
                                      n: nat, k: nat, c: nat)
    requires Convertible(input, inRate, inChannels, outRate) && c < channels
    requires k < n <= OutputFrames(|input| / inChannels, inRate, outRate)
    ensures k * channels + c < n * channels
    ensures FirstFrames(input, inRate, inChannels, outRate, channels, n)[k * channels + c] ==
            OutputFrame(input, inRate, inChannels, outRate, channels, k)[c]
    decreases n
  {
    hide OutputFrame, OutputFrames, Convertible;
    GridBound(k, c, n, channels);
    var front := FirstFrames(input, inRate, inChannels, outRate, channels, n - 1);
    if k < n - 1 {
      FramePlace(input, inRate, inChannels, outRate, channels, n - 1, k, c);
    } else {
      assert k * channels == |front|;
    }
  }

  /** Every output sample on the input's own samples: frame k is taken from frame k * in / out. Mono is
      copied, several channels into one are averaged, and otherwise channel c or the last one is
      taken. */
  lemma {:induction false} ConvertedSample(input: seq<real>, inRate: nat, inChannels: nat, outRate: nat,
                                           channels: nat, k: nat, c: nat, from: nat, at: nat)
    requires inRate > 0 && inChannels > 0 && outRate > 0 && channels > 0 && |input| / inChannels > 0
    requires k == 0 || k < |input| / inChannels * outRate / inRate
    requires c < channels && from == k * inRate / outRate && at == from * inChannels
    ensures from < |input| / inChannels && at + inChannels <= |input|
    ensures k * channels + c < |Converted(input, inRate, inChannels, outRate, channels)|
    ensures Converted(input, inRate, inChannels, outRate, channels)[k * channels + c] ==
            if inChannels == 1 then input[at]
            else if channels == 1 then Sum(input[at..at + inChannels]) / (inChannels as real)
            else input[at + if c < inChannels then c else inChannels - 1]
  {
    var frames := |input| / inChannels;
    var n := OutputFrames(frames, inRate, outRate);
    assert k < n;
    FramePlace(input, inRate, inChannels, outRate, channels, n, k, c);
    hide FirstFrames, OutputFrames, Sum, OutputFrame;
    MixedSample(input, inRate, inChannels, outRate, channels, k, c, from, at);
  }

  lemma {:induction false} MixedSample(input: seq<real>, inRate: nat, inChannels: nat, outRate: nat,
                                       channels: nat, k: nat, c: nat, from: nat, at: nat)
    requires Convertible(input, inRate, inChannels, outRate)
    requires k < OutputFrames(|input| / inChannels, inRate, outRate)
    requires c < channels && from == k * inRate / outRate && at == from * inChannels
    ensures from < |input| / inChannels && at + inChannels <= |input|
    ensures OutputFrame(input, inRate, inChannels, outRate, channels, k)[c] ==
            if inChannels == 1 then input[at]
            else if channels == 1 then Sum(input[at..at + inChannels]) / (inChannels as real)
            else input[at + if c < inChannels then c else inChannels - 1]
  {
    ClampNeverActs(|input| / inChannels, inRate, outRate, k);
    FrameEnds(|input|, inChannels, from);
    OneMore(from + 1, inChannels);
    hide OutputFrames, Sum;
    var source := SourceSlice(input, inChannels, from);
    assert source == input[at..at + inChannels];
    assert OutputFrame(input, inRate, inChannels, outRate, channels, k)[c] == MixSample(source, channels, c);
  }

  /** How many: the scaled frame count, at least one, of `channels` samples each, and none at all for
      an input without a whole frame or with a zero rate or channel count. */
  lemma {:induction false} ConvertedLength(input: seq<real>, inRate: nat, inChannels: nat, outRate: nat, channels: nat)
    requires channels > 0
    ensures |Converted(input, inRate, inChannels, outRate, channels)| ==
            if inRate == 0 || inChannels == 0 || outRate == 0 || |input| < inChannels then 0
            else if |input| / inChannels * outRate < inRate then channels
            else |input| / inChannels * outRate / inRate * channels
  {
    if inChannels > 0 && inRate > 0 {
      var frames := |input| / inChannels;
      assert frames == 0 <==> |input| < inChannels;
      if frames * outRate >= inRate {
        DivAtLeast(frames * outRate, inRate, 1);
      }
    }
  }

  // ---------- The bounded queue ----------

  function Extend(queue: seq<real>, samples: seq<real>, maxSamples: nat): seq<real> {
    var all := queue + samples;
    if |all| > maxSamples then all[|all| - maxSamples..] else all
  }

  function Taken(queue: seq<real>, n: nat): nat {
    if n <= |queue| then n else |queue|
  }

  /** What the device receives: queued samples, then silence. */
  function Played(queue: seq<real>, n: nat): (r: seq<real>)
    ensures |r| == n
  {
    queue[..Taken(queue, n)] + seq(n - Taken(queue, n), _ => 0.0)
  }

  lemma {:induction false} OneMorePlayed(queue: seq<real>, n: nat)
    ensures Played(queue, n + 1) == Played(queue, n) + [if n < |queue| then queue[n] else 0.0]
  {
    if n < |queue| {
      assert queue[..n + 1] == queue[..n] + [queue[n]];
    }
  }

  class AudioPlaybackBuffer {
    const sampleRateHz: nat
    const channels: nat
    const maxSamples: nat
    var samples: seq<real>

    constructor (sampleRateHz: nat, channels: nat)
      ensures this.sampleRateHz == AtLeastOne(sampleRateHz) && this.channels == AtLeastOne(channels)
      ensures maxSamples == this.sampleRateHz * this.channels * 2
      ensures samples == []
    {
      this.sampleRateHz, this.channels := AtLeastOne(sampleRateHz), AtLeastOne(channels);
      maxSamples := AtLeastOne(sampleRateHz) * AtLeastOne(channels) * 2;
      samples := [];
    }

    /** A decoded frame arrives. */
    method PushFrame(input: seq<real>, rate: nat, inChannels: nat)
      modifies this
      ensures input == [] ==> samples == old(samples)
      ensures input != [] ==>
                samples == Extend(old(samples), Converted(input, rate, inChannels, sampleRateHz, channels), maxSamples)
    {
      if input == [] {
        return;
      }
      var converted := ResampleInterleaved(input, rate, inChannels, sampleRateHz, channels);
      samples := samples + converted;
      var overflow := if |samples| > maxSamples then |samples| - maxSamples else 0;
      if overflow > 0 {
        samples := samples[overflow..];
      }
    }

    /** The device asks for `output.Length` samples. */
    method FillOutputF32(output: array<real>)
      modifies this, output
      ensures output[..] == Played(old(samples), output.Length)
      ensures samples == old(samples)[Taken(old(samples), output.Length)..]
    {
      ghost var queue := samples;
      for i := 0 to output.Length
        invariant samples == queue[Taken(queue, i)..]
        invariant output[..i] == Played(queue, i)
      {
        OneMorePlayed(queue, i);
        if samples != [] {
          output[i] := samples[0];
          samples := samples[1..];
        } else {
          output[i] := 0.0;
        }
        assert output[..i + 1] == output[..i] + [output[i]];
      }
      assert output[..output.Length] == output[..];
    }
  }

  // ---------- Whole runs ----------

  datatype Event = Push(samples: seq<real>) | Callback(n: nat)

  function Step(queue: seq<real>, e: Event, maxSamples: nat): seq<real> {
    match e
    case Push(xs) => Extend(queue, xs, maxSamples)
    case Callback(n) => queue[Taken(queue, n)..]
  }

  function Run(queue: seq<real>, events: seq<Event>, maxSamples: nat): seq<real>
    decreases events
  {
    if events == [] then queue else Run(Step(queue, events[0], maxSamples), events[1..], maxSamples)
  }

  /** Everything ever pushed, in order. */
  function Produced(events: seq<Event>): seq<real> {
    if events == [] then []
    else (if events[0].Push? then events[0].samples else []) + Produced(events[1..])
  }

  /** What a push leaves, read from the back: the new samples, then the older ones, up to the limit. */
  lemma {:induction false} QueueAfterPush(queue: seq<real>, xs: seq<real>, maxSamples: nat, i: nat)
    requires i < |Extend(queue, xs, maxSamples)|
    ensures var r := Extend(queue, xs, maxSamples);
      && |r| == (if |queue| + |xs| <= maxSamples then |queue| + |xs| else maxSamples)
      && r[|r| - 1 - i] == if i < |xs| then xs[|xs| - 1 - i] else queue[|queue| - 1 - (i - |xs|)]
  {
  }

  /** What a request for n samples plays and leaves. */
  lemma {:induction false} RequestPlays(queue: seq<real>, n: nat, i: nat)
    requires i < n
    ensures Played(queue, n)[i] == if i < |queue| then queue[i] else 0.0
    ensures var left := Step(queue, Callback(n), 0);
      |left| == (if n <= |queue| then |queue| - n else 0) && left == queue[|queue| - |left|..]
  {
  }

  /** The queued samples the device plays over a run, silence left out. */
  function Heard(queue: seq<real>, events: seq<Event>, maxSamples: nat): seq<real>
    decreases events
  {
    if events == [] then []
    else
      var next := Step(queue, events[0], maxSamples);
      (if events[0].Push? then []
       else Played(queue, events[0].n)[..if events[0].n <= |queue| then events[0].n else |queue|])
      + Heard(next, events[1..], maxSamples)
  }

  /** Samples a run drops on overflow. */
  function Dropped(queue: seq<real>, events: seq<Event>, maxSamples: nat): nat
    decreases events
  {
    if events == [] then 0
    else
      var e := events[0];
      (if e.Push? && |queue| + |e.samples| > maxSamples then |queue| + |e.samples| - maxSamples else 0)
      + Dropped(Step(queue, e, maxSamples), events[1..], maxSamples)
  }

  lemma {:induction false} NothingUncounted(queue: seq<real>, events: seq<Event>, maxSamples: nat)
    ensures |Heard(queue, events, maxSamples)| + |Run(queue, events, maxSamples)| + Dropped(queue, events, maxSamples)
            == |queue| + |Produced(events)|
    decreases events
  {
    if events != [] {
      NothingUncounted(Step(queue, events[0], maxSamples), events[1..], maxSamples);
    }
  }

  /** Over any run what is heard, followed by what is still queued, is everything produced in order,
      exactly when no push overflowed. */
  lemma {:induction false} AllHeardExactlyWhen(queue: seq<real>, events: seq<Event>, maxSamples: nat)
    ensures Heard(queue, events, maxSamples) + Run(queue, events, maxSamples) == queue + Produced(events)
            <==> Dropped(queue, events, maxSamples) == 0
    decreases events
  {
    NothingUncounted(queue, events, maxSamples);
    if Dropped(queue, events, maxSamples) == 0 {
      if events == [] {
        assert [] + queue == queue + [];
      } else {
        var e, next := events[0], Step(queue, events[0], maxSamples);
        AllHeardExactlyWhen(next, events[1..], maxSamples);
        var heard := Heard(next, events[1..], maxSamples);
        var left, more := Run(next, events[1..], maxSamples), Produced(events[1..]);
        if e.Push? {
          assert [] + heard == heard && next == queue + e.samples;
          Associate(queue, e.samples, more);
        } else {
          var n := Taken(queue, e.n);
          assert Played(queue, e.n)[..n] == queue[..n];
          CutInTwo(queue, n);
          Associate(queue[..n], heard, left);
          Associate(queue[..n], queue[n..], more);
          assert [] + more == more;
        }
      }
    }
  }

  /** Every push and every request is a whole number of frames. */
  predicate WholeFramesOnly(events: seq<Event>, channels: nat)
    requires channels > 0
  {
    forall i | 0 <= i < |events| ::
      (if events[i].Push? then |events[i].samples| else events[i].n) % channels == 0
  }

  predicate IsSuffix(s: seq<real>, all: seq<real>) {
    |s| <= |all| && s == all[|all| - |s|..]
  }

  lemma {:induction false} StepSuffix(queue: seq<real>, all: seq<real>, e: Event, maxSamples: nat)
    requires IsSuffix(queue, all)
    ensures IsSuffix(Step(queue, e, maxSamples), all + if e.Push? then e.samples else [])
  {
    var more := if e.Push? then e.samples else [];
    var cut := |all| - |queue|;
    assert (all + more)[cut..] == queue + more;
  }

  /** Over any run the queue is a suffix of what was produced: samples are dropped or played
      only from the front, so what is heard is in order and never repeated. */
  lemma {:induction false} QueueIsSuffix(queue: seq<real>, all: seq<real>, events: seq<Event>, maxSamples: nat)
    requires IsSuffix(queue, all)
    ensures IsSuffix(Run(queue, events, maxSamples), all + Produced(events))
    decreases events
  {
    if events == [] {
      assert all + [] == all;
    } else {
      var e := events[0];
      var more := if e.Push? then e.samples else [];
      StepSuffix(queue, all, e, maxSamples);
      QueueIsSuffix(Step(queue, e, maxSamples), all + more, events[1..], maxSamples);
      Associate(all, more, Produced(events[1..]));
    }
  }

  /** The queue never holds more than the limit once it has been within it. */
  lemma {:induction false} QueueBounded(queue: seq<real>, events: seq<Event>, maxSamples: nat)
    requires |queue| <= maxSamples
    ensures |Run(queue, events, maxSamples)| <= maxSamples
    decreases events
  {
    if events != [] {
      QueueBounded(Step(queue, events[0], maxSamples), events[1..], maxSamples);
    }
  }

  lemma {:induction false} StepAligned(queue: seq<real>, e: Event, maxSamples: nat, channels: nat)
    requires channels > 0 && |queue| % channels == 0 && maxSamples % channels == 0
    requires (if e.Push? then |e.samples| else e.n) % channels == 0
    ensures |Step(queue, e, maxSamples)| % channels == 0
  {
    if e.Push? {
      SumWhole(|queue|, |e.samples|, channels);
    } else if e.n <= |queue| {
      DifferenceWhole(|queue|, e.n, channels);
    }
  }

  /** When pushes, requests and the limit are whole frames, the front of the queue is always the
      first channel of a produced frame. */
  lemma {:induction false} ChannelsStayAligned(queue: seq<real>, all: seq<real>, events: seq<Event>,
                                               maxSamples: nat, channels: nat)
    requires channels > 0 && maxSamples % channels == 0 && WholeFramesOnly(events, channels)
    requires IsSuffix(queue, all) && |queue| % channels == 0 && |all| % channels == 0
    ensures var final, produced := Run(queue, events, maxSamples), all + Produced(events);
      |final| <= |produced| && |final| % channels == 0 && (|produced| - |final|) % channels == 0
    decreases events
  {
    if events != [] {
      var e := events[0];
      var more := if e.Push? then e.samples else [];
      StepSuffix(queue, all, e, maxSamples);
      StepAligned(queue, e, maxSamples, channels);
      SumWhole(|all|, |more|, channels);
      ChannelsStayAligned(Step(queue, e, maxSamples), all + more, events[1..], maxSamples, channels);
      Associate(all, more, Produced(events[1..]));
    } else {
      assert all + [] == all;
      DifferenceWhole(|all|, |queue|, channels);
    }
  }

  /** A request leaves an aligned queue aligned exactly when it is whole frames or drains it. */
  lemma {:induction false} RequestAlignment(queue: seq<real>, n: nat, channels: nat)
    requires channels > 0 && |queue| % channels == 0
    ensures |queue[Taken(queue, n)..]| % channels == 0 <==> n % channels == 0 || n >= |queue|
  {
    if n <= |queue| {
      var left := |queue| - n;
      if n % channels == 0 {
        DifferenceWhole(|queue|, n, channels);
      } else if left % channels == 0 {
        DifferenceWhole(|queue|, left, channels);
      }
    }
  }

  /** The limit the device configuration sets, and every converted frame, are whole frames. */
  lemma {:induction false} LimitIsWhole(rate: nat, channels: nat)
    ensures AtLeastOne(rate) * AtLeastOne(channels) * 2 % AtLeastOne(channels) == 0
  {
    var c := AtLeastOne(channels);
    assert AtLeastOne(rate) * c * 2 == (AtLeastOne(rate) * 2) * c;
    DivOfMultiple(AtLeastOne(rate) * 2, c);
  }

  /** A device run from an empty queue, whatever the rate and channel count: the queue stays within
      two seconds, is the tail of what was converted, and starts at a first channel. */
  lemma {:induction false} DeviceRun(rate: nat, channels: nat, events: seq<Event>)
    requires WholeFramesOnly(events, AtLeastOne(channels))
    ensures var c, limit := AtLeastOne(channels), AtLeastOne(rate) * AtLeastOne(channels) * 2;
      var final, produced := Run([], events, limit), Produced(events);
      && |final| <= limit
      && IsSuffix(final, produced)
      && |final| % c == 0 && (|produced| - |final|) % c == 0
  {
    var c, limit := AtLeastOne(channels), AtLeastOne(rate) * AtLeastOne(channels) * 2;
    LimitIsWhole(rate, channels);
    QueueBounded([], events, limit);
    QueueIsSuffix([], [], events, limit);
    ChannelsStayAligned([], [], events, limit, c);
    assert [] + Produced(events) == Produced(events);
  }
}
