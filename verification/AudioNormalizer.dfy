/** The Windows host's audio path: any WASAPI packet size, rate and channel count turned into
    48 kHz stereo frames of 20 ms. Sample positions are exact rationals. */
module AudioNormalizer {
  import opened Arithmetic
  import opened Bytes

  newtype i16 = x: int | -0x8000 <= x < 0x8000

  const OPUS_SAMPLE_RATE: nat := 48_000
  const OPUS_CHANNELS: nat := 2
  const OPUS_FRAME_PCM_SAMPLES: nat := 1920

  // ---------- Rounding and interpolation ----------

  /** The sample `num / den` of the way from a to b. */
  function Interpolate(a: i16, b: i16, num: nat, den: nat): (r: i16)
    requires num < den
    ensures a <= b ==> a <= r <= b
    ensures b <= a ==> b <= r <= a
    ensures var exact := a as int * den + (b as int - a as int) * num;
      -(den as int) <= 2 * (r as int * den) - 2 * exact <= den
  {
    InterpolateBetween(a as int, b as int, num, den);
    RoundNearest(a as int * den + (b as int - a as int) * num, den);
    RoundDiv(a as int * den + (b as int - a as int) * num, den) as i16
  }

  lemma {:induction false} InterpolateBetween(a: int, b: int, num: nat, den: nat)
    requires num < den
    ensures var r := RoundDiv(a * den + (b - a) * num, den);
      (a <= b ==> a <= r <= b) && (b <= a ==> b <= r <= a)
  {
    var n := a * den + (b - a) * num;
    assert n - b * den == (a - b) * (den - num);
    if a <= b {
      assert 0 <= (b - a) * num && (a - b) * (den - num) <= 0;
      RoundBetween(n, den, a, b);
    } else {
      assert (b - a) * num <= 0 && 0 <= (a - b) * (den - num);
      RoundBetween(n, den, b, a);
    }
  }

  // ---------- Channel layout ----------

  lemma {:induction false} FrameFits(len: nat, channels: nat, frame: nat, c: nat)
    requires c < channels && frame < len / channels
    ensures frame * channels + c < len
  {
    assert len / channels * channels <= len;
    ProductBound(frame + 1, channels, len / channels, channels);
    OneMore(frame + 1, channels);
  }

  /** Mono is doubled, stereo kept, and of more channels the first two are taken. */
  function InterleavedToStereo(samples: seq<i16>, channels: nat): seq<i16> {
    if channels == 0 then []
    else if channels == 1 then seq(2 * |samples|, i requires 0 <= i < 2 * |samples| => samples[i / 2])
    else if channels == 2 then samples
    else
      seq(2 * (|samples| / channels), i requires 0 <= i < 2 * (|samples| / channels) =>
        (FrameFits(|samples|, channels, i / 2, i % 2); samples[i / 2 * channels + i % 2]))
  }

  lemma {:induction false} StereoLength(samples: seq<i16>, channels: nat, frames: nat)
    requires channels != 0 && |samples| == frames * channels
    ensures |InterleavedToStereo(samples, channels)| == 2 * frames
  {
    DivBetween(frames * channels, channels, frames, frames);
  }

  /** Left and right of every stereo frame are the first two channels of the input frame, or its
      only one. */
  lemma {:induction false} StereoFrame(samples: seq<i16>, channels: nat, frames: nat, frame: nat)
    requires channels != 0 && |samples| == frames * channels && frame < frames
    ensures frame * channels + channels <= |samples|
    ensures |InterleavedToStereo(samples, channels)| == 2 * frames
    ensures InterleavedToStereo(samples, channels)[2 * frame] == samples[frame * channels]
    ensures InterleavedToStereo(samples, channels)[2 * frame + 1] ==
            samples[frame * channels + if channels == 1 then 0 else 1]
  {
    hide InterleavedToStereo;
    StereoLength(samples, channels, frames);
    GridRow(frame, frames, channels);
    var at := frame * channels;
    if channels == 1 {
      assert at == frame && |samples| == frames;
      MonoAt(samples, frame, 0);
      MonoAt(samples, frame, 1);
    } else {
      FirstTwoAt(samples, channels, frames, frame, 0, at);
      FirstTwoAt(samples, channels, frames, frame, 1, at);
    }
  }

  lemma {:induction false} MonoAt(samples: seq<i16>, frame: nat, c: nat)
    requires frame < |samples| && c < 2
    ensures |InterleavedToStereo(samples, 1)| == 2 * |samples|
    ensures InterleavedToStereo(samples, 1)[2 * frame + c] == samples[frame]
  {
    var i := 2 * frame + c;
    assert i / 2 == frame;
  }

  lemma {:induction false} FirstTwoAt(samples: seq<i16>, channels: nat, frames: nat, frame: nat, c: nat, at: nat)
    requires channels > 1 && |samples| == frames * channels && frame < frames && c < 2 && at == frame * channels
    requires at + channels <= |samples|
    ensures |InterleavedToStereo(samples, channels)| == 2 * frames
    ensures InterleavedToStereo(samples, channels)[2 * frame + c] == samples[at + c]
  {
    DivOfMultiple(frames, channels);
    var i := 2 * frame + c;
    assert i / 2 == frame && i % 2 == c;
  }

  // ---------- Resampling ----------

  /** Output frames and the new remainder for `frames` input frames. */
  function OutputFrames(frames: nat, inRate: nat, outRate: nat, remainder: nat): nat
    requires inRate > 0
  {
    (frames * outRate + remainder) / inRate
  }

  /** The remainder asks for no more output frames than the largest one below the input rate. */
  predicate SmallRemainder(frames: nat, inRate: nat, outRate: nat, remainder: nat)
    requires inRate > 0
  {
    OutputFrames(frames, inRate, outRate, remainder) <= OutputFrames(frames, inRate, outRate, inRate - 1)
  }

  lemma {:induction false} BelowRateIsSmall(frames: nat, inRate: nat, outRate: nat, remainder: nat)
    requires remainder < inRate
    ensures SmallRemainder(frames, inRate, outRate, remainder)
  {
    DivMonotone(frames * outRate + remainder, frames * outRate + inRate - 1, inRate);
  }

  /** Every output position lies before the last input frame's end exactly when the remainder is
      small, as it is below the input rate. */
  lemma {:induction false} LeftInRangeExactlyWhen(frames: nat, inRate: nat, outRate: nat, remainder: nat)
    requires inRate > 0 && outRate > 0
    ensures SmallRemainder(frames, inRate, outRate, remainder)
            <==> forall k | 0 <= k < OutputFrames(frames, inRate, outRate, remainder) :: k * inRate / outRate < frames
  {
    if SmallRemainder(frames, inRate, outRate, remainder) {
      forall k | 0 <= k < OutputFrames(frames, inRate, outRate, remainder)
        ensures k * inRate / outRate < frames
      {
        LeftInRange(frames, inRate, outRate, remainder, k);
      }
    } else {
      var k := OutputFrames(frames, inRate, outRate, inRate - 1);
      QuotientAndRest(frames * outRate + inRate - 1, inRate);
      DivAtLeast(k * inRate, outRate, frames);
    }
  }

  lemma {:induction false} LeftInRange(frames: nat, inRate: nat, outRate: nat, remainder: nat, outFrame: nat)
    requires inRate > 0 && outRate > 0 && SmallRemainder(frames, inRate, outRate, remainder)
    requires outFrame < OutputFrames(frames, inRate, outRate, remainder)
    ensures outFrame * inRate / outRate < frames
  {
    var total := frames * outRate + inRate - 1;
    QuotientAndRest(total, inRate);
    ProductBound(outFrame + 1, inRate, total / inRate, inRate);
    OneMore(outFrame + 1, inRate);
    assert outFrame * inRate < frames * outRate;
    CancelFactor(0, frames, outRate);
    DivBetween(outFrame * inRate, outRate, 0, frames - 1);
  }

  function OutputSample(stereo: seq<i16>, inRate: nat, outRate: nat, outFrame: nat, channel: nat): i16
    requires outRate > 0 && channel < 2
    requires outFrame * inRate / outRate < |stereo| / 2
  {
    var frames := |stereo| / 2;
    var left := outFrame * inRate / outRate;
    var right := if left + 1 < frames then left + 1 else frames - 1;
    Interpolate(stereo[left * 2 + channel], stereo[right * 2 + channel], outFrame * inRate % outRate, outRate)
  }

  /** Every output sample lies between the two input samples around its position, within half a
      step of the exact linear interpolation, and on an input frame it is that frame's sample. */
  lemma {:induction false} OutputIsInterpolation(stereo: seq<i16>, inRate: nat, outRate: nat,
                                                 outFrame: nat, channel: nat)
    requires outRate > 0 && channel < 2 && outFrame * inRate / outRate < |stereo| / 2
    ensures var frames, left := |stereo| / 2, outFrame * inRate / outRate;
      var right := if left + 1 < frames then left + 1 else frames - 1;
      var num := outFrame * inRate % outRate;
      var a, b := stereo[left * 2 + channel] as int, stereo[right * 2 + channel] as int;
      var r := OutputSample(stereo, inRate, outRate, outFrame, channel) as int;
      && (a <= r <= b || b <= r <= a)
      && -(outRate as int) <= 2 * (r * outRate) - 2 * (a * outRate + (b - a) * num) <= outRate
      && (num == 0 ==> r == a)
  {
    var left, num := outFrame * inRate / outRate, outFrame * inRate % outRate;
    var a := stereo[left * 2 + channel] as int;
    var r := OutputSample(stereo, inRate, outRate, outFrame, channel) as int;
    if num == 0 {
      NearestIsExact(r, a, outRate);
    }
  }

  lemma {:induction false} NearestIsExact(r: int, a: int, d: int)
    requires d > 0 && -d <= 2 * (r * d) - 2 * (a * d) <= d
    ensures r == a
  {
    var k := r - a;
    assert r * d - a * d == k * d;
    CancelFactor(k, 1, d);
    CancelFactor(-1, k, d);
  }

  /** The call stays inside the packet: it passes it on, or its remainder is small. */
  predicate Resamplable(frames: nat, inRate: nat, outRate: nat, remainder: nat) {
    inRate == 0 || outRate == 0 || inRate == outRate || frames <= 1
    || SmallRemainder(frames, inRate, outRate, remainder)
  }

  /** The resampled packet and the remainder carried to the next one. */
  function Resampled(stereo: seq<i16>, inRate: nat, outRate: nat, remainder: nat): (seq<i16>, nat)
    requires Resamplable(|stereo| / 2, inRate, outRate, remainder)
  {
    var frames := |stereo| / 2;
    if stereo == [] || inRate == 0 || outRate == 0 then ([], remainder)
    else if inRate == outRate || frames <= 1 then (stereo, remainder)
    else
      var n := OutputFrames(frames, inRate, outRate, remainder);
      (seq(2 * n, i requires 0 <= i < 2 * n =>
         (LeftInRange(frames, inRate, outRate, remainder, i / 2);
          OutputSample(stereo, inRate, outRate, i / 2, i % 2))),
       (frames * outRate + remainder) % inRate)
  }

  method ResampleStereoLinearWithRemainder(stereo: seq<i16>, inRate: nat, outRate: nat, remainder: nat)
    returns (r: Outcome<(seq<i16>, nat)>)
    ensures r.Returned? <==> Resamplable(|stereo| / 2, inRate, outRate, remainder)
    ensures r.Returned? ==> r.value == Resampled(stereo, inRate, outRate, remainder)
    ensures r.Returned? && remainder < inRate ==> r.value.1 < inRate
  {
    if stereo == [] || inRate == 0 || outRate == 0 {
      return Returned(([], remainder));
    }
    if inRate == outRate {
      return Returned((stereo, remainder));
    }
    var frames := |stereo| / OPUS_CHANNELS;
    if frames <= 1 {
      return Returned((stereo, remainder));
    }
    var scaled := frames * outRate + remainder;
    var outputFrames := scaled / inRate;
    var newRemainder := scaled % inRate;
    ghost var small := SmallRemainder(frames, inRate, outRate, remainder);
    LeftInRangeExactlyWhen(frames, inRate, outRate, remainder);
    if small {
      ResampledShape(stereo, inRate, outRate, remainder);
    }
    hide Resampled, OutputSample, SmallRemainder;
    if outputFrames == 0 {
      return Returned(([], newRemainder));
    }
    var output: seq<i16> := [];
    for outFrame := 0 to outputFrames
      invariant forall k | 0 <= k < outFrame :: k * inRate / outRate < frames
      invariant small ==> output == Resampled(stereo, inRate, outRate, remainder).0[..2 * outFrame]
    {
      var frame := InterpolateFrame(stereo, inRate, outRate, outFrame);
      if frame.OutOfBounds? {
        return OutOfBounds;
      }
      if small {
        NextFrame(stereo, inRate, outRate, remainder, outFrame);
      }
      output := output + frame.value;
    }
    return Returned((output, newRemainder));
  }

  /** One output frame: both channels at the same position between two input frames. A spare
      sample at the end of an odd slice can still be read, for one channel only. */
  method InterpolateFrame(stereo: seq<i16>, inRate: nat, outRate: nat, outFrame: nat)
    returns (r: Outcome<seq<i16>>)
    requires outRate > 0 && |stereo| >= 2
    ensures r.Returned? <==> outFrame * inRate / outRate < |stereo| / 2
    ensures r.Returned? ==> r.value == [OutputSample(stereo, inRate, outRate, outFrame, 0),
                                        OutputSample(stereo, inRate, outRate, outFrame, 1)]
  {
    var frames := |stereo| / OPUS_CHANNELS;
    var left := outFrame * inRate / outRate;
    var right := if left + 1 < frames then left + 1 else frames - 1;
    var fraction := outFrame * inRate % outRate;
    var frame: seq<i16> := [];
    for channel := 0 to OPUS_CHANNELS
      invariant |frame| == channel
      invariant channel == 2 ==> left < frames
      invariant left < frames ==> forall c | 0 <= c < channel ::
                  frame[c] == OutputSample(stereo, inRate, outRate, outFrame, c)
    {
      if left * OPUS_CHANNELS + channel >= |stereo| {
        return OutOfBounds;
      }
      var a := stereo[left * OPUS_CHANNELS + channel];
      var b := stereo[right * OPUS_CHANNELS + channel];
      frame := frame + [Interpolate(a, b, fraction, outRate)];
    }
    return Returned(frame);
  }

  lemma {:induction false} SampleAt(stereo: seq<i16>, inRate: nat, outRate: nat, remainder: nat,
                                    outFrame: nat, channel: nat)
    requires |stereo| >= 4 && inRate > 0 && outRate > 0 && inRate != outRate && channel < 2
    requires SmallRemainder(|stereo| / 2, inRate, outRate, remainder)
    requires outFrame < OutputFrames(|stereo| / 2, inRate, outRate, remainder)
    ensures outFrame * inRate / outRate < |stereo| / 2
    ensures var all := Resampled(stereo, inRate, outRate, remainder).0;
      2 * outFrame + channel < |all|
      && all[2 * outFrame + channel] == OutputSample(stereo, inRate, outRate, outFrame, channel)
  {
    LeftInRange(|stereo| / 2, inRate, outRate, remainder, outFrame);
    var i := 2 * outFrame + channel;
    assert i / 2 == outFrame && i % 2 == channel;
  }

  lemma {:induction false} ResampledShape(stereo: seq<i16>, inRate: nat, outRate: nat, remainder: nat)
    requires |stereo| >= 4 && inRate > 0 && outRate > 0 && inRate != outRate
    requires SmallRemainder(|stereo| / 2, inRate, outRate, remainder)
    ensures var r := Resampled(stereo, inRate, outRate, remainder);
      var n := OutputFrames(|stereo| / 2, inRate, outRate, remainder);
      && |r.0| == 2 * n && r.0[..2 * n] == r.0 && (n == 0 ==> r.0 == [])
      && r.1 == (|stereo| / 2 * outRate + remainder) % inRate
  {
    hide OutputFrames, OutputSample;
  }

  lemma {:induction false} NextFrame(stereo: seq<i16>, inRate: nat, outRate: nat, remainder: nat, k: nat)
    requires |stereo| >= 4 && inRate > 0 && outRate > 0 && inRate != outRate
    requires SmallRemainder(|stereo| / 2, inRate, outRate, remainder)
    requires k < OutputFrames(|stereo| / 2, inRate, outRate, remainder)
    ensures k * inRate / outRate < |stereo| / 2
    ensures var all := Resampled(stereo, inRate, outRate, remainder).0;
      && 2 * k + 2 <= |all|
      && all[..2 * (k + 1)] == all[..2 * k] + [OutputSample(stereo, inRate, outRate, k, 0),
                                               OutputSample(stereo, inRate, outRate, k, 1)]
  {
    SampleAt(stereo, inRate, outRate, remainder, k, 0);
    SampleAt(stereo, inRate, outRate, remainder, k, 1);
    hide Resampled, OutputSample, OutputFrames, SmallRemainder;
    var all := Resampled(stereo, inRate, outRate, remainder).0;
    assert all[..2 * (k + 1)] == all[..2 * k] + [all[2 * k], all[2 * k + 1]];
  }

  // ---------- The normalizer ----------

  datatype Packet = Packet(pcm: seq<i16>, sampleRate: nat, channels: nat, frames: nat)

  datatype Norm = Norm(rate: nat, channels: nat, remainder: nat, buffer: seq<i16>) {
    ghost predicate Valid() {
      && (rate > 0 ==> remainder < rate)
      && |buffer| < OPUS_FRAME_PCM_SAMPLES
    }
  }

  predicate Accepts(rate: nat, channels: nat, packet: Packet) {
    && packet.channels != 0 && packet.sampleRate != 0
    && packet.channels == channels && packet.sampleRate == rate
    && |packet.pcm| == packet.frames * packet.channels
  }

  /** The packet as 48 kHz stereo, with the remainder left after it. */
  function Normalized(packet: Packet, remainder: nat): (seq<i16>, nat)
    requires packet.sampleRate > 0 ==> remainder < packet.sampleRate
  {
    var stereo := InterleavedToStereo(packet.pcm, packet.channels);
    BelowRateResamples(|stereo| / 2, packet.sampleRate, remainder);
    Resampled(stereo, packet.sampleRate, OPUS_SAMPLE_RATE, remainder)
  }

  lemma {:induction false} BelowRateResamples(frames: nat, inRate: nat, remainder: nat)
    requires inRate > 0 ==> remainder < inRate
    ensures Resamplable(frames, inRate, OPUS_SAMPLE_RATE, remainder)
  {
    if inRate > 0 {
      BelowRateIsSmall(frames, inRate, OPUS_SAMPLE_RATE, remainder);
    }
  }

  function WholeFrames(buffer: seq<i16>): (frames: seq<seq<i16>>)
    ensures |frames| == |buffer| / OPUS_FRAME_PCM_SAMPLES
    ensures forall i | 0 <= i < |frames| :: |frames[i]| == OPUS_FRAME_PCM_SAMPLES
    decreases |buffer|
  {
    if |buffer| < OPUS_FRAME_PCM_SAMPLES then []
    else [buffer[..OPUS_FRAME_PCM_SAMPLES]] + WholeFrames(buffer[OPUS_FRAME_PCM_SAMPLES..])
  }

  function Leftover(buffer: seq<i16>): seq<i16> {
    buffer[|buffer| / OPUS_FRAME_PCM_SAMPLES * OPUS_FRAME_PCM_SAMPLES..]
  }

  lemma {:induction false} FramesAndLeftover(buffer: seq<i16>)
    ensures Flatten(WholeFrames(buffer)) + Leftover(buffer) == buffer
    ensures |Leftover(buffer)| < OPUS_FRAME_PCM_SAMPLES
    decreases |buffer|
  {
    if |buffer| >= OPUS_FRAME_PCM_SAMPLES {
      var rest := buffer[OPUS_FRAME_PCM_SAMPLES..];
      FramesAndLeftover(rest);
      assert |buffer| / OPUS_FRAME_PCM_SAMPLES == |rest| / OPUS_FRAME_PCM_SAMPLES + 1;
      assert Leftover(rest) == Leftover(buffer);
      Associate(buffer[..OPUS_FRAME_PCM_SAMPLES], Flatten(WholeFrames(rest)), Leftover(rest));
      CutInTwo(buffer, OPUS_FRAME_PCM_SAMPLES);
    } else {
      assert [] + buffer == buffer;
    }
  }

  lemma {:induction false} WholeFramesAt(buffer: seq<i16>, k: nat)
    requires (k + 1) * OPUS_FRAME_PCM_SAMPLES <= |buffer|
    ensures k < |WholeFrames(buffer)|
    ensures WholeFrames(buffer)[k] == buffer[k * OPUS_FRAME_PCM_SAMPLES..(k + 1) * OPUS_FRAME_PCM_SAMPLES]
    decreases k
  {
    if k > 0 {
      var rest := buffer[OPUS_FRAME_PCM_SAMPLES..];
      WholeFramesAt(rest, k - 1);
      ShiftedSlice(buffer, OPUS_FRAME_PCM_SAMPLES, (k - 1) * OPUS_FRAME_PCM_SAMPLES, k * OPUS_FRAME_PCM_SAMPLES);
    }
  }

  lemma {:induction false} ShiftedSlice<T>(s: seq<T>, skip: nat, from: nat, to: nat)
    requires from <= to && skip + to <= |s|
    ensures s[skip..][from..to] == s[skip + from..skip + to]
  {
  }

  function Push(n: Norm, packet: Packet): (Norm, Result<seq<seq<i16>>>)
    requires n.Valid()
  {
    if !Accepts(n.rate, n.channels, packet) then (n, Err)
    else
      var (samples, remainder) := Normalized(packet, n.remainder);
      var buffer := n.buffer + samples;
      (n.(remainder := remainder, buffer := Leftover(buffer)), Ok(WholeFrames(buffer)))
  }

  lemma {:induction false} PushKeepsValid(n: Norm, packet: Packet)
    requires n.Valid()
    ensures Push(n, packet).0.Valid()
  {
    if Accepts(n.rate, n.channels, packet) {
      FramesAndLeftover(n.buffer + Normalized(packet, n.remainder).0);
    }
  }

  class AudioNormalizer {
    const inputSampleRate: nat
    const inputChannels: nat
    var resampleRemainder: nat
    var bufferedStereo: seq<i16>

    constructor (inputSampleRate: nat, inputChannels: nat)
      ensures State() == Norm(inputSampleRate, inputChannels, 0, []) && State().Valid()
    {
      this.inputSampleRate, this.inputChannels := inputSampleRate, inputChannels;
      resampleRemainder, bufferedStereo := 0, [];
    }

    function State(): Norm
      reads this
    {
      Norm(inputSampleRate, inputChannels, resampleRemainder, bufferedStereo)
    }

    method PushPacket(packet: Packet) returns (r: Result<seq<seq<i16>>>)
      requires State().Valid()
      modifies this
      ensures State().Valid()
      ensures (State(), r) == Push(old(State()), packet)
    {
      if packet.channels == 0 || packet.sampleRate == 0 {
        return Err;
      }
      if packet.channels != inputChannels || packet.sampleRate != inputSampleRate {
        return Err;
      }
      if |packet.pcm| != packet.frames * packet.channels {
        return Err;
      }
      ghost var before := State();
      PushKeepsValid(before, packet);
      var stereo := InterleavedToStereo(packet.pcm, packet.channels);
      BelowRateResamples(|stereo| / 2, packet.sampleRate, resampleRemainder);
      var resampled := ResampleStereoLinearWithRemainder(
        stereo, packet.sampleRate, OPUS_SAMPLE_RATE, resampleRemainder);
      var normalized;
      normalized, resampleRemainder := resampled.value.0, resampled.value.1;
      bufferedStereo := bufferedStereo + normalized;
      assert (normalized, resampleRemainder) == Normalized(packet, before.remainder);
      ghost var after := before.(remainder := resampleRemainder, buffer := Leftover(bufferedStereo));
      assert Push(before, packet) == (after, Ok(WholeFrames(bufferedStereo)));
      var completeFrames := |bufferedStereo| / OPUS_FRAME_PCM_SAMPLES;
      assert completeFrames == 0 ==> bufferedStereo[0..] == bufferedStereo;
      if completeFrames == 0 {
        return Ok([]);
      }
      var frames: seq<seq<i16>> := [];
      for k := 0 to completeFrames
        modifies {}
        invariant |WholeFrames(bufferedStereo)| == completeFrames
        invariant frames == WholeFrames(bufferedStereo)[..k]
      {
        WholeFramesAt(bufferedStereo, k);
        frames := frames + [bufferedStereo[k * OPUS_FRAME_PCM_SAMPLES..(k + 1) * OPUS_FRAME_PCM_SAMPLES]];
      }
      assert frames == WholeFrames(bufferedStereo);
      bufferedStereo := bufferedStereo[completeFrames * OPUS_FRAME_PCM_SAMPLES..];
      return Ok(frames);
    }
  }

  // ---------- Whole runs ----------

  datatype Trace = Trace(final: Norm, emitted: seq<seq<i16>>, stream: seq<i16>)

  /** Any sequence of packets, rejected ones included: the final state, the frames emitted and
      the normalised samples of the accepted packets in order. */
  function Run(n: Norm, packets: seq<Packet>): Trace
    requires n.Valid()
    decreases packets
  {
    if packets == [] then Trace(n, [], [])
    else
      PushKeepsValid(n, packets[0]);
      var (n', r) := Push(n, packets[0]);
      var rest := Run(n', packets[1..]);
      if r.Err? then rest
      else Trace(rest.final, r.value + rest.emitted, Normalized(packets[0], n.remainder).0 + rest.stream)
  }

  /** Input frames of the accepted packets. */
  function FramesIn(rate: nat, channels: nat, packets: seq<Packet>): nat {
    if packets == [] then 0
    else (if Accepts(rate, channels, packets[0]) then packets[0].frames else 0)
         + FramesIn(rate, channels, packets[1..])
  }

  /** Accepted packets of a single frame. */
  function OneFramePackets(rate: nat, channels: nat, packets: seq<Packet>): nat {
    if packets == [] then 0
    else (if Accepts(rate, channels, packets[0]) && packets[0].frames == 1 then 1 else 0)
         + OneFramePackets(rate, channels, packets[1..])
  }

  /** Every emitted frame has 20 ms of samples, and the frames followed by what is buffered are
      the earlier buffer followed by the normalised stream: no sample is lost or moved. */
  lemma {:induction false} FramesAreTheStream(n: Norm, packets: seq<Packet>)
    requires n.Valid()
    ensures var t := Run(n, packets);
      && t.final.Valid()
      && (forall i | 0 <= i < |t.emitted| :: |t.emitted[i]| == OPUS_FRAME_PCM_SAMPLES)
      && Flatten(t.emitted) + t.final.buffer == n.buffer + t.stream
    decreases packets
  {
    if packets == [] {
      assert Flatten<i16>([]) + n.buffer == n.buffer + [];
    } else {
      var p, tail := packets[0], packets[1..];
      PushKeepsValid(n, p);
      var (n', r) := Push(n, p);
      FramesAreTheStream(n', tail);
      if r.Ok? {
        var rest, samples := Run(n', tail), Normalized(p, n.remainder).0;
        var frames := r.value;
        FramesAndLeftover(n.buffer + samples);
        FlattenAppend(frames, rest.emitted);
        Regroup(Flatten(frames), Flatten(rest.emitted), rest.final.buffer, n'.buffer, n.buffer, samples, rest.stream);
      }
    }
  }

  lemma {:induction false} Regroup<T>(f: seq<T>, e: seq<T>, last: seq<T>, b': seq<T>, b: seq<T>, s: seq<T>,
                                      more: seq<T>)
    requires f + b' == b + s
    requires e + last == b' + more
    ensures (f + e) + last == b + (s + more)
  {
    Associate(f, e, last);
    Associate(f, b', more);
    Associate(b, s, more);
  }

  /** One accepted packet: output frames times the input rate plus the new remainder account for
      its input frames, except that a one-frame packet at another rate is passed on unscaled. */
  lemma {:induction false} PacketBalance(packet: Packet, remainder: nat)
    requires Accepts(packet.sampleRate, packet.channels, packet)
    requires remainder < packet.sampleRate
    ensures var (samples, remainder') := Normalized(packet, remainder);
      var rate := packet.sampleRate;
      && |samples| % 2 == 0
      && |samples| / 2 * rate + remainder' ==
         packet.frames * OPUS_SAMPLE_RATE + remainder
         + if packet.frames == 1 then rate - OPUS_SAMPLE_RATE else 0
  {
    StereoLength(packet.pcm, packet.channels, packet.frames);
    BelowRateResamples(packet.frames, packet.sampleRate, remainder);
    ResampledBalance(InterleavedToStereo(packet.pcm, packet.channels), packet.frames, packet.sampleRate, remainder);
  }

  lemma {:induction false} ResampledBalance(stereo: seq<i16>, frames: nat, rate: nat, remainder: nat)
    requires rate > 0 && |stereo| == 2 * frames && Resamplable(frames, rate, OPUS_SAMPLE_RATE, remainder)
    ensures var (samples, remainder') := Resampled(stereo, rate, OPUS_SAMPLE_RATE, remainder);
      && |samples| % 2 == 0
      && |samples| / 2 * rate + remainder' ==
         frames * OPUS_SAMPLE_RATE + remainder + if frames == 1 then rate - OPUS_SAMPLE_RATE else 0
  {
    if frames > 1 && rate != OPUS_SAMPLE_RATE {
      var n := OutputFrames(frames, rate, OPUS_SAMPLE_RATE, remainder);
      assert |Resampled(stereo, rate, OPUS_SAMPLE_RATE, remainder).0| == 2 * n;
      QuotientAndRest(frames * OPUS_SAMPLE_RATE + remainder, rate);
    }
  }

  lemma {:induction false} QuotientAndRest(n: nat, d: nat)
    requires d > 0
    ensures n / d * d + n % d == n
  {
  }

  /** The exact balance over any run from any state. */
  lemma {:induction false} RateBalance(n: Norm, packets: seq<Packet>)
    requires n.Valid()
    ensures var t := Run(n, packets);
      && |t.stream| % 2 == 0
      && (t.final.rate, t.final.channels) == (n.rate, n.channels)
      && |t.stream| / 2 * n.rate + t.final.remainder ==
         FramesIn(n.rate, n.channels, packets) * OPUS_SAMPLE_RATE + n.remainder
         + OneFramePackets(n.rate, n.channels, packets) * (n.rate - OPUS_SAMPLE_RATE)
    decreases packets
  {
    if packets != [] {
      var p, tail := packets[0], packets[1..];
      PushKeepsValid(n, p);
      var (n', r) := Push(n, p);
      RateBalance(n', tail);
      if r.Ok? {
        PacketBalance(p, n.remainder);
        var s, more := Normalized(p, n.remainder).0, Run(n', tail).stream;
        AddBalances(|s| / 2, |more| / 2, n.rate,
                    OneFramePackets(n.rate, n.channels, tail), if p.frames == 1 then 1 else 0);
        assert |s + more| / 2 == |s| / 2 + |more| / 2;
      }
    }
  }

  lemma {:induction false} AddBalances(a: int, b: int, rate: int, k: int, one: int)
    requires one == 0 || one == 1
    ensures (a + b) * rate == a * rate + b * rate
    ensures (k + one) * (rate - OPUS_SAMPLE_RATE) ==
            k * (rate - OPUS_SAMPLE_RATE) + if one == 1 then rate - OPUS_SAMPLE_RATE else 0
  {
  }

  /** From a fresh normalizer there is no drift exactly when the rate is already 48 kHz or no
      accepted packet had a single frame. */
  lemma {:induction false} NoDriftExactlyWhen(rate: nat, channels: nat, packets: seq<Packet>)
    ensures var t := Run(Norm(rate, channels, 0, []), packets);
      |t.stream| / 2 * rate + t.final.remainder == FramesIn(rate, channels, packets) * OPUS_SAMPLE_RATE
      <==> rate == OPUS_SAMPLE_RATE || OneFramePackets(rate, channels, packets) == 0
  {
    RateBalance(Norm(rate, channels, 0, []), packets);
    ZeroProduct(OneFramePackets(rate, channels, packets), rate - OPUS_SAMPLE_RATE);
  }

  lemma {:induction false} ZeroProduct(k: int, d: int)
    ensures k * d == 0 <==> k == 0 || d == 0
  {
  }

  /** Then exactly floor(floor(N * 48000 / rate) / 960) Opus frames have been emitted. */
  lemma {:induction false} OpusFrameCount(rate: nat, channels: nat, packets: seq<Packet>)
    requires rate > 0
    requires rate == OPUS_SAMPLE_RATE || OneFramePackets(rate, channels, packets) == 0
    ensures var t := Run(Norm(rate, channels, 0, []), packets);
      && |t.stream| / 2 == FramesIn(rate, channels, packets) * OPUS_SAMPLE_RATE / rate
      && |t.emitted| == FramesIn(rate, channels, packets) * OPUS_SAMPLE_RATE / rate / 960
  {
    var n := Norm(rate, channels, 0, []);
    var t := Run(n, packets);
    NoDriftExactlyWhen(rate, channels, packets);
    RateBalance(n, packets);
    FramesAreTheStream(n, packets);
    FlattenLength(t.emitted);
    assert |t.stream| == OPUS_FRAME_PCM_SAMPLES * |t.emitted| + |t.final.buffer|;
    CountFrames(|t.stream| / 2, FramesIn(rate, channels, packets) * OPUS_SAMPLE_RATE, rate, t.final.remainder);
  }

  lemma {:induction false} CountFrames(output: nat, scaled: nat, rate: nat, remainder: nat)
    requires remainder < rate && output * rate + remainder == scaled
    ensures output == scaled / rate
  {
    assert (output + 1) * rate == output * rate + rate;
    DivBetween(scaled, rate, output, output);
  }

  // ---------- What the stream is made of ----------

  /** Sample c of an input frame as the stereo stream takes it: the first two channels, mono twice. */
  predicate HasFrame(pcm: seq<i16>, channels: nat, frame: nat, c: nat, stereo: seq<i16>) {
    var i := frame * channels + if channels == 1 then 0 else c;
    i < |pcm| && 2 * frame + c < |stereo| && stereo[2 * frame + c] == pcm[i]
  }

  /** r is within half a step of the point num / 48000 of the way from sample a to sample b. */
  predicate WithinHalfStep(r: i16, a: i16, b: i16, num: nat) {
    -48_000 <= 2 * (r as int * 48_000) - 2 * (a as int * 48_000 + (b as int - a as int) * num) <= 48_000
  }

  /** The samples a packet of at most one frame, or already at 48 kHz, adds: its own. */
  predicate PassedOn(packet: Packet, added: seq<i16>) {
    && |added| == 2 * packet.frames
    && forall k, c | 0 <= k < packet.frames && 0 <= c < 2 ::
         HasFrame(packet.pcm, packet.channels, k, c, added)
  }

  /** Sample c of output frame k lies where the packet's samples around k * rate / 48000 put it. */
  predicate Interpolated(packet: Packet, k: nat, c: nat, added: seq<i16>) {
    var left := k * packet.sampleRate / 48_000;
    var right := if left + 1 < packet.frames then left + 1 else packet.frames - 1;
    var ch := if packet.channels == 1 then 0 else c;
    && left < packet.frames && 2 * k + c < |added|
    && left * packet.channels + ch < |packet.pcm| && right * packet.channels + ch < |packet.pcm|
    && WithinHalfStep(added[2 * k + c], packet.pcm[left * packet.channels + ch],
                      packet.pcm[right * packet.channels + ch], k * packet.sampleRate % 48_000)
  }

  /** What an accepted packet adds to the stream, read off its own samples, when the remainder goes
      from `before` to `after`. */
  predicate AddedBy(packet: Packet, before: nat, after: nat, added: seq<i16>) {
    if packet.sampleRate == 48_000 || packet.frames == 1 then PassedOn(packet, added) && after == before
    else
      && packet.sampleRate > 0
      && |added| == 2 * ((packet.frames * 48_000 + before) / packet.sampleRate)
      && after == (packet.frames * 48_000 + before) % packet.sampleRate
      && forall k, c | 0 <= k < |added| / 2 && 0 <= c < 2 :: Interpolated(packet, k, c, added)
  }

  lemma {:induction false} StereoHasFrame(packet: Packet, frame: nat, c: nat)
    requires Accepts(packet.sampleRate, packet.channels, packet) && frame < packet.frames && c < 2
    ensures var stereo := InterleavedToStereo(packet.pcm, packet.channels);
      |stereo| == 2 * packet.frames && HasFrame(packet.pcm, packet.channels, frame, c, stereo)
  {
    StereoFrame(packet.pcm, packet.channels, packet.frames, frame);
    hide InterleavedToStereo;
  }

  lemma {:induction false} ResampledInterpolates(packet: Packet, remainder: nat, k: nat, c: nat)
    requires Accepts(packet.sampleRate, packet.channels, packet) && remainder < packet.sampleRate
    requires packet.sampleRate != 48_000 && packet.frames > 1 && c < 2
    requires k < (packet.frames * 48_000 + remainder) / packet.sampleRate
    ensures Interpolated(packet, k, c, Normalized(packet, remainder).0)
  {
    hide InterleavedToStereo, Resampled, OutputSample, SmallRemainder;
    var stereo, rate := InterleavedToStereo(packet.pcm, packet.channels), packet.sampleRate;
    StereoHasFrame(packet, 0, 0);
    BelowRateIsSmall(packet.frames, rate, OPUS_SAMPLE_RATE, remainder);
    SampleAt(stereo, rate, OPUS_SAMPLE_RATE, remainder, k, c);
    OutputIsInterpolation(stereo, rate, OPUS_SAMPLE_RATE, k, c);
    var left := k * rate / 48_000;
    var right := if left + 1 < packet.frames then left + 1 else packet.frames - 1;
    StereoHasFrame(packet, left, c);
    StereoHasFrame(packet, right, c);
  }

  /** Exactly the well-formed packets of the stream's own format are accepted, and an accepted
      packet adds samples read off its own. */
  lemma {:induction false} PacketAdds(n: Norm, packet: Packet)
    requires n.Valid()
    ensures Push(n, packet).1.Ok? <==>
              && packet.channels != 0 && packet.sampleRate != 0
              && packet.channels == n.channels && packet.sampleRate == n.rate
              && |packet.pcm| == packet.frames * packet.channels
    ensures Push(n, packet).1.Err? ==> Push(n, packet).0 == n
    ensures Push(n, packet).1.Ok? ==>
              var (samples, after) := Normalized(packet, n.remainder);
              AddedBy(packet, n.remainder, after, samples) && Push(n, packet).0.remainder == after
  {
    if Accepts(n.rate, n.channels, packet) {
      var (samples, after) := Normalized(packet, n.remainder);
      StereoLength(packet.pcm, packet.channels, packet.frames);
      if packet.sampleRate == 48_000 || packet.frames == 1 {
        forall k, c | 0 <= k < packet.frames && 0 <= c < 2
          ensures HasFrame(packet.pcm, packet.channels, k, c, samples)
        {
          StereoHasFrame(packet, k, c);
        }
      } else {
        OutputCount(packet, n.remainder);
        forall k, c | 0 <= k < |samples| / 2 && 0 <= c < 2
          ensures Interpolated(packet, k, c, samples)
        {
          ResampledInterpolates(packet, n.remainder, k, c);
        }
      }
    }
  }

  lemma {:induction false} OutputCount(packet: Packet, remainder: nat)
    requires Accepts(packet.sampleRate, packet.channels, packet) && remainder < packet.sampleRate
    requires packet.sampleRate != 48_000 && packet.frames != 1
    ensures var (samples, after) := Normalized(packet, remainder);
      && |samples| == 2 * ((packet.frames * 48_000 + remainder) / packet.sampleRate)
      && after == (packet.frames * 48_000 + remainder) % packet.sampleRate
      && (packet.frames == 0 ==> samples == [])
  {
    StereoLength(packet.pcm, packet.channels, packet.frames);
  }

  /** A packet's part of a stream at this rate and channel count: nothing when it is rejected. */
  predicate PartOf(rate: nat, channels: nat, packet: Packet, before: nat, after: nat, part: seq<i16>) {
    if Accepts(rate, channels, packet) then AddedBy(packet, before, after, part) else part == [] && after == before
  }

  predicate PartsOf(rate: nat, channels: nat, packets: seq<Packet>, remainders: seq<nat>, parts: seq<seq<i16>>) {
    && |parts| == |packets| && |remainders| == |packets| + 1
    && forall i | 0 <= i < |packets| ::
         PartOf(rate, channels, packets[i], remainders[i], remainders[i + 1], parts[i])
  }

  lemma {:induction false} PartsCons(rate: nat, channels: nat, p: Packet, packets: seq<Packet>,
                                     r: nat, remainders: seq<nat>, part: seq<i16>, parts: seq<seq<i16>>)
    requires PartsOf(rate, channels, packets, remainders, parts)
    requires PartOf(rate, channels, p, r, remainders[0], part)
    ensures PartsOf(rate, channels, [p] + packets, [r] + remainders, [part] + parts)
  {
    hide PartOf;
  }

  /** Over any run, rejected packets included: the stream is one part per packet in order, each read
      off that packet's own samples, with the remainders between them. */
  lemma {:induction false} StreamIsFromPackets(n: Norm, packets: seq<Packet>)
    returns (remainders: seq<nat>, parts: seq<seq<i16>>)
    requires n.Valid()
    ensures PartsOf(n.rate, n.channels, packets, remainders, parts)
    ensures Run(n, packets).stream == Flatten(parts)
    ensures remainders[0] == n.remainder && remainders[|packets|] == Run(n, packets).final.remainder
    decreases packets
  {
    hide PartOf;
    if packets == [] {
      remainders, parts := [n.remainder], [];
    } else {
      var p, tail := packets[0], packets[1..];
      PushKeepsValid(n, p);
      PacketPart(n, p);
      var (n', r) := Push(n, p);
      var part := if r.Ok? then Normalized(p, n.remainder).0 else [];
      var later, laterParts := StreamIsFromPackets(n', tail);
      remainders, parts := [n.remainder] + later, [part] + laterParts;
      PartsCons(n.rate, n.channels, p, tail, n.remainder, later, part, laterParts);
      assert packets == [p] + tail && parts[1..] == laterParts;
      assert r.Err? ==> [] + Run(n', tail).stream == Run(n', tail).stream;
    }
  }

  lemma {:induction false} PacketPart(n: Norm, packet: Packet)
    requires n.Valid()
    ensures var (n', r) := Push(n, packet);
      && n'.rate == n.rate && n'.channels == n.channels
      && PartOf(n.rate, n.channels, packet, n.remainder, n'.remainder,
                if r.Ok? then Normalized(packet, n.remainder).0 else [])
  {
    PacketAdds(n, packet);
    hide AddedBy;
  }

  lemma {:induction false} FlattenLength(frames: seq<seq<i16>>)
    requires forall i | 0 <= i < |frames| :: |frames[i]| == OPUS_FRAME_PCM_SAMPLES
    ensures |Flatten(frames)| == OPUS_FRAME_PCM_SAMPLES * |frames|
  {
    if frames != [] {
      FlattenLength(frames[1..]);
    }
  }
}
