/** What the hosts write and what the viewer reads back, across the three source files. */
module H264Pipeline {
  import opened Bytes
  import opened AnnexB
  import opened Avcc
  import opened ClientMedia
  import opened WindowsEncode
  import opened MacAnnexB
  import opened AccessUnits

  // ---------- Windows host to viewer ----------

  /** Bytes cut out of a start-code-free string are start-code free. */
  lemma {:induction false} SliceHasNoCode(s: seq<byte>, from: nat, to: nat)
    requires from <= to <= |s| && !HasStartCode(s)
    ensures !HasStartCode(s[from..to])
  {
    forall i: nat
      ensures !ThreeByteCodeAt(s[from..to], i)
    {
      assert ThreeByteCodeAt(s[from..to], i) ==> ThreeByteCodeAt(s, from + i);
    }
  }

  /** The guard that skips conversion is also what keeps payloads free of start codes. */
  lemma {:induction false} PayloadsHaveNoCode(data: seq<byte>)
    requires !HasStartCode(data) && Parse(data).Some?
    ensures Clean(Parse(data).value.0)
    decreases |data|
  {
    if |data| >= 4 {
      var n := FromBigEndian32(data[..4]);
      SliceHasNoCode(data, 4, 4 + n);
      SliceHasNoCode(data, 4 + n, |data|);
      assert data[4 + n..|data|] == data[4 + n..];
      PayloadsHaveNoCode(data[4 + n..]);
    }
  }

  /** A non-empty printed list carries a start code, so it is never mistaken for lengths. */
  lemma {:induction false} PrintedHasCode(units: seq<seq<byte>>)
    requires units != []
    ensures HasStartCode(Print(units))
  {
    assert FourByteCodeAt(Print(units), 0);
    StartCodeMeansThreeBytes(Print(units), 0);
  }

  /** Converting twice is converting once, on every input. */
  lemma {:induction false} EnsureAnnexBIdempotent(data: seq<byte>)
    ensures AnnexBOf(AnnexBOf(data)) == AnnexBOf(data)
  {
    if !HasStartCode(data) && ConvertibleUnits(data).Some? {
      PrintedHasCode(ConvertibleUnits(data).value);
    }
  }

  /** Every byte string the host actually changes is a printed list of non-empty units; the
      viewer splits the result into exactly those units, and serialising gives back the
      original bytes without the parameter sets: all of them when there were none. */
  lemma {:induction false} WindowsRoundTrip(data: seq<byte>)
    requires AnnexBOf(data) != data
    ensures ConvertibleUnits(data).Some?
    ensures var units := ConvertibleUnits(data).value;
      && Encodable(units) && data == LengthPrefixed(units)
      && Nalus(AnnexBOf(data)) == units
      && Encodable(PictureUnits(units))
      && AvccSample(Nalus(AnnexBOf(data))) ==
         Ok(if PictureUnits(units) == [] then None else Some(LengthPrefixed(PictureUnits(units))))
      && (AvccSample(Nalus(AnnexBOf(data))) == Ok(Some(data))
          <==> forall i | 0 <= i < |units| :: !IsParameterSet(units[i]))
  {
    var units := ConvertibleUnits(data).value;
    PayloadsHaveNoCode(data);
    PrintSplitRoundTrip(units);
    PrintParsed(data);
    assert LengthPrefixed(units) + [] == LengthPrefixed(units);
    PictureUnitsOfEncodable(units);
    PictureUnitsIdentity(units);
    if PictureUnits(units) != [] && LengthPrefixed(PictureUnits(units)) == data {
      PrintingIsInjective(PictureUnits(units), units);
    }
  }

  lemma {:induction false} PrintingIsInjective(us: seq<seq<byte>>, vs: seq<seq<byte>>)
    requires Encodable(us) && Encodable(vs) && LengthPrefixed(us) == LengthPrefixed(vs)
    ensures us == vs
  {
    ParsePrinted(us, []);
    ParsePrinted(vs, []);
    assert LengthPrefixed(us) + [] == LengthPrefixed(us);
    assert LengthPrefixed(vs) + [] == LengthPrefixed(vs);
  }

  /** The keyframe flag computed after conversion is that of the payloads. */
  lemma {:induction false} KeyframeFlagOfPayloads(data: seq<byte>)
    requires AnnexBOf(data) != data
    ensures var types := HeaderTypes(AnnexBOf(data));
      var units := ConvertibleUnits(data).value;
      (5 in types || 7 in types) <==> HasType(units, 5) || HasType(units, 7)
  {
    WindowsRoundTrip(data);
    ScannersAgree(AnnexBOf(data), 5);
    ScannersAgree(AnnexBOf(data), 7);
  }

  /** Through the transport: when the depacketized chunks of each well-marked unit add up to what
      the host sent for one encoder sample, the viewer assembles one access unit per sample, in
      order, and reads the sample's own payloads from it. */
  lemma {:induction false} SamplesArrive(samples: seq<seq<byte>>, units: seq<seq<Packet>>, packets: seq<Packet>)
    requires |samples| == |units| && Carrying(packets) == Flatten(units)
    requires forall i | 0 <= i < |units| ::
               WellMarked(units[i]) && Sent(units[i]).annexB == AnnexBOf(samples[i]) != samples[i]
    ensures var t := Run(EMPTY, packets);
      && t.pending == EMPTY && |t.units| == |samples|
      && forall i | 0 <= i < |samples| ::
           && ConvertibleUnits(samples[i]).Some?
           && Nalus(t.units[i].annexB) == ConvertibleUnits(samples[i]).value
  {
    StreamDelivered(units, packets);
    var out := AllSent(units);
    forall i | 0 <= i < |samples|
      ensures i < |out| && out[i].annexB == AnnexBOf(samples[i])
      ensures ConvertibleUnits(samples[i]).Some?
              && Nalus(out[i].annexB) == ConvertibleUnits(samples[i]).value
    {
      AllSentAt(units, i);
      WindowsRoundTrip(samples[i]);
    }
    AllSentLength(units);
  }

  lemma {:induction false} AllSentLength(units: seq<seq<Packet>>)
    requires forall i | 0 <= i < |units| :: WellMarked(units[i])
    ensures |AllSent(units)| == |units|
  {
    if units != [] {
      AllSentLength(units[1..]);
    }
  }

  lemma {:induction false} AllSentAt(units: seq<seq<Packet>>, i: nat)
    requires forall j | 0 <= j < |units| :: WellMarked(units[j])
    requires i < |units|
    ensures i < |AllSent(units)| && AllSent(units)[i] == Sent(units[i])
  {
    if i > 0 {
      AllSentAt(units[1..], i - 1);
    }
  }

  // ---------- When a well-formed sample is not converted ----------

  lemma {:induction false} LengthsAreCodes(units: seq<seq<byte>>)
    requires Encodable(units)
    ensures LengthPrefixed(units) == Print(units) <==> forall i | 0 <= i < |units| :: |units[i]| == 1
  {
    if units != [] {
      var u, tail := units[0], units[1..];
      LengthsAreCodes(tail);
      var prefix := ToBigEndian32(|u|);
      BigEndianRoundTrip(|u|, START_CODE);
      BigEndianRoundTrip(1, START_CODE);
      assert prefix == START_CODE <==> |u| == 1;
      SameHead(prefix, START_CODE, u, LengthPrefixed(tail), Print(tail));
      assert LengthPrefixed(units) == prefix + u + LengthPrefixed(tail) && Print(units) == START_CODE + u + Print(tail);
      hide LengthPrefixed, Print, ToBigEndian32, FromBigEndian32;
      assert units == [u] + tail;
    }
  }

  lemma {:induction false} SameHead(p: seq<byte>, q: seq<byte>, u: seq<byte>, s: seq<byte>, t: seq<byte>)
    requires |p| == |q|
    ensures p + u + s == q + u + t <==> p == q && s == t
  {
    var left, right := p + u + s, q + u + t;
    assert left[..|p|] == p && right[..|q|] == q;
    assert left[|p| + |u|..] == s && right[|q| + |u|..] == t;
  }

  /** A well-formed sample is converted to the Annex B print of its units exactly when it
      contains no 00 00 01, or every unit is a single byte (whose length prefix is itself a
      start code). */
  lemma {:induction false} ConvertedExactlyWhen(units: seq<seq<byte>>)
    requires units != [] && Encodable(units) && AllNonEmpty(units)
    ensures var data := LengthPrefixed(units);
      AnnexBOf(data) == Print(units)
      <==> !HasStartCode(data) || forall i | 0 <= i < |units| :: |units[i]| == 1
  {
    var data := LengthPrefixed(units);
    LengthsAreCodes(units);
    ParsePrinted(units, []);
    assert data + [] == data;
    if !HasStartCode(data) {
      assert ConvertibleUnits(data) == Some(units);
    }
  }

  /** One unit of 256 to 511 bytes: its length prefix 00 00 01 xx is taken for a start code,
      the sample is passed on unchanged, and the viewer reads the low length byte as the
      unit's header. */
  lemma {:induction false} LengthMistakenForCode(u: seq<byte>)
    requires 256 <= |u| < 512
    requires !HasStartCode([(|u| - 256) as byte] + u)
    ensures var data := LengthPrefixed([u]);
      AnnexBOf(data) == data && Nalus(AnnexBOf(data)) == [[(|u| - 256) as byte] + u]
  {
    var data, shifted := LengthPrefixed([u]), [(|u| - 256) as byte] + u;
    LoneUnit(u);
    var g := Segment(3, shifted);
    OnlyUnit(g);
    assert data == [] + JoinSegments([g]);
    assert ThreeByteCodeAt(data, 0);
    ProperCutIsUnique([], [g]);
  }

  lemma {:induction false} OnlyUnit(g: Segment)
    requires g.unit != []
    ensures NonEmptyUnits([g]) == [g.unit] && JoinSegments([g]) == Code(g.codeLen) + g.unit
  {
    assert [g][1..] == [];
  }

  lemma {:induction false} LoneUnit(u: seq<byte>)
    requires |u| < U32_LIMIT
    ensures LengthPrefixed([u]) == ToBigEndian32(|u|) + u
  {
    LengthPrefixedSnoc([], u);
    assert [] + [u] == [u];
  }

  // ---------- When the viewer reads the sample's units ----------

  lemma {:induction false} NonEmptyUnitsSnoc(segs: seq<Segment>, g: Segment)
    ensures NonEmptyUnits(segs + [g]) == NonEmptyUnits(segs) + (if g.unit == [] then [] else [g.unit])
  {
    if segs == [] {
      assert segs + [g] == [g] && [g][1..] == [];
    } else {
      assert (segs + [g])[1..] == segs[1..] + [g];
      NonEmptyUnitsSnoc(segs[1..], g);
    }
  }

  predicate EndsInCode(s: seq<byte>) {
    |s| >= 3 && ThreeByteCodeAt(s, |s| - 3)
  }

  /** A printed unit does not end in a start code: its bytes have none, and its length before them is
      not 0. */
  lemma {:induction false} NoCodeAtEnd(front: seq<byte>, u: seq<byte>)
    requires 0 < |u| < U32_LIMIT && !HasStartCode(u)
    ensures !EndsInCode(front + (ToBigEndian32(|u|) + u))
  {
    var prefix := ToBigEndian32(|u|);
    var s := front + (prefix + u);
    var n := |s|;
    if |u| >= 3 {
      assert s[n - 3] == u[|u| - 3] && s[n - 2] == u[|u| - 2] && s[n - 1] == u[|u| - 1];
      assert !ThreeByteCodeAt(u, |u| - 3);
    } else {
      assert prefix[3] as int == |u|;
      assert s[n - |u| - 1] == prefix[3];
    }
  }

  lemma {:induction false} CodeAtEnd(before: seq<byte>, codeLen: nat)
    ensures EndsInCode(before + (Code(codeLen) + []))
  {
  }

  /** The last unit of a list read back follows a whole start code, so its length is 1. */
  lemma {:induction false} LastLengthIsCode(front: seq<byte>, u: seq<byte>, before: seq<byte>, codeLen: nat)
    requires |u| < 0x100_0000
    requires codeLen == 4 || (codeLen == 3 && NotEndingInZero(before))
    requires front + (ToBigEndian32(|u|) + u) == before + (Code(codeLen) + u)
    ensures |u| == 1 && before == front
  {
    var prefix := ToBigEndian32(|u|);
    Associate(front, prefix, u);
    Associate(before, Code(codeLen), u);
    SameFront(front + prefix, before + Code(codeLen), u);
    PrefixIsCode(front, prefix, before, codeLen);
    BigEndianRoundTrip(|u|, START_CODE);
  }

  lemma {:induction false} SameFront<T>(s: seq<T>, t: seq<T>, u: seq<T>)
    requires s + u == t + u
    ensures s == t
  {
    assert (s + u)[..|s|] == s && (t + u)[..|t|] == t;
  }

  lemma {:induction false} PrefixIsCode(front: seq<byte>, prefix: seq<byte>, before: seq<byte>, codeLen: nat)
    requires |prefix| == 4 && prefix[0] == 0 && front + prefix == before + Code(codeLen)
    requires codeLen == 4 || (codeLen == 3 && NotEndingInZero(before))
    ensures prefix == START_CODE && before == front
  {
    var s := front + prefix;
    assert s[|front|] == 0;
    assert |before| + codeLen == |front| + 4;
    assert before == s[..|before|];
    if codeLen == 4 {
      assert front == s[..|front|] && prefix == s[|front|..];
      assert s[|before|..] == Code(4);
    }
  }

  lemma {:induction false} SameLast<T>(s: seq<T>, x: T, t: seq<T>, y: T)
    requires s + [x] == t + [y]
    ensures s == t && x == y
  {
    assert |s| == |t|;
    assert (s + [x])[..|s|] == s && (t + [y])[..|t|] == t;
    assert (s + [x])[|s|] == x && (t + [y])[|t|] == y;
  }

  lemma {:induction false} ReadBackUnconverted(units: seq<seq<byte>>)
    requires units != [] && forall i | 0 <= i < |units| :: |units[i]| < 0x100_0000
    requires Nalus(LengthPrefixed(units)) == units
    ensures forall i | 0 <= i < |units| :: |units[i]| == 1
    decreases |units|
  {
    hide Segments, FirstCode, ToBigEndian32, HasStartCode, Code;
    var s, n := LengthPrefixed(units), |units| - 1;
    var front, u := units[..n], units[n];
    UnitsAreClean(s);
    assert units == front + [u];
    LengthPrefixedSnoc(front, u);
    var printed := LengthPrefixed(front);
    var before, g := LastSegment(s);
    NonEmptyUnitsSnoc(Segments(before), g);
    NoCodeAtEnd(printed, u);
    CodeAtEnd(before, g.codeLen);
    if g.unit != [] {
      SameLast(Nalus(before), g.unit, front, u);
      LastLengthIsCode(printed, u, before, g.codeLen);
      if front != [] {
        ReadBackUnconverted(front);
      }
    }
  }

  /** Whatever the host does with a list of units below 16 MiB, the viewer splits the result into
      exactly that list if and only if no unit is empty, and the length-prefixed bytes contain no
      00 00 01 or every unit is one byte long. */
  lemma {:induction false} ViewerReadsExactlyWhen(units: seq<seq<byte>>)
    requires forall i | 0 <= i < |units| :: |units[i]| < 0x100_0000
    ensures var data := LengthPrefixed(units);
      Nalus(AnnexBOf(data)) == units
      <==> AllNonEmpty(units) && (!HasStartCode(data) || forall i | 0 <= i < |units| :: |units[i]| == 1)
  {
    var data := LengthPrefixed(units);
    UnitsAreClean(AnnexBOf(data));
    if units == [] {
      assert Segments(data) == [];
    } else if AllNonEmpty(units) {
      if HasStartCode(data) && Nalus(data) == units {
        ReadBackUnconverted(units);
      }
      if !HasStartCode(data) || forall i | 0 <= i < |units| :: |units[i]| == 1 {
        ReadableListIsRead(units);
      }
    }
  }

  /** One direction holds for units of any length. */
  lemma {:induction false} ReadableListIsRead(units: seq<seq<byte>>)
    requires Encodable(units) && AllNonEmpty(units) && units != []
    requires !HasStartCode(LengthPrefixed(units)) || forall i | 0 <= i < |units| :: |units[i]| == 1
    ensures Nalus(AnnexBOf(LengthPrefixed(units))) == units
  {
    var data := LengthPrefixed(units);
    ConvertedExactlyWhen(units);
    if !HasStartCode(data) {
      ParsePrinted(units, []);
      assert data + [] == data;
      PayloadsHaveNoCode(data);
    }
    PrintSplitRoundTrip(units);
  }

  /** The other does not: the length of a unit of 2^24 + 1 bytes is 01 00 00 01, the sample is passed
      on unconverted, and the viewer happens to read the unit. */
  lemma {:induction false} LongUnitReadByChance(u: seq<byte>)
    requires |u| == 0x100_0001 && !HasStartCode(u)
    ensures var data := LengthPrefixed([u]);
      HasStartCode(data) && AnnexBOf(data) == data && Nalus(data) == [u]
  {
    var data := LengthPrefixed([u]);
    LoneUnit(u);
    var g := Segment(3, u);
    OnlyUnit(g);
    assert data == [1] + JoinSegments([g]);
    assert ThreeByteCodeAt(data, 1);
    ProperCutIsUnique([1], [g]);
  }

  // ---------- macOS host to viewer ----------

  /** For any block of start-code-free units, a keyframe sample with one SPS and one PPS
      splits into those two followed by the block's non-empty units. The viewer learns exactly
      that SPS and PPS when the block carries none, and rebuilds the block byte for byte exactly
      when the block is at least one unit, all non-empty, no parameter set, no spare bytes. */
  lemma {:induction false} KeyframeRoundTrip(sps: seq<byte>, pps: seq<byte>, block: seq<byte>,
                          knownSps: Option<seq<byte>>, knownPps: Option<seq<byte>>)
    requires sps != [] && NalType(sps) == 7 && !HasStartCode(sps)
    requires pps != [] && NalType(pps) == 8 && !HasStartCode(pps)
    requires Parse(block).Some? && Clean(Parse(block).value.0)
    ensures SampleBytes(true, Some([sps, pps]), block).Ok?
    ensures var sample := SampleBytes(true, Some([sps, pps]), block).value;
      var (units, tail) := Parse(block).value;
      && Nalus(sample) == [sps, pps] + NonEmpty(units)
      && (!HasType(units, 7) ==> LastOfType(Nalus(sample), 7, knownSps) == Some(sps))
      && (!HasType(units, 8) ==> LastOfType(Nalus(sample), 8, knownPps) == Some(pps))
      && (AvccSample(Nalus(sample)) == Ok(Some(block))
          <==> tail == [] && units != [] && AllNonEmpty(units)
               && forall i | 0 <= i < |units| :: !IsParameterSet(units[i]))
  {
    var (units, tail) := Parse(block).value;
    var sets := [sps, pps];
    PrintAppend(sets, units);
    assert Clean(sets + units);
    hide Print, NonEmpty, Parse, Segments, PictureUnits, LastOfType, LengthPrefixed, HasStartCode;
    PrintThenSplit(sets + units);
    NonEmptyAppend(sets, units);
    NonEmptyIdentity(sets);
    ParameterSetsObserved(sps, pps, units, knownSps, knownPps);
    SetsCarryNoPicture(sps, pps, NonEmpty(units));
    BlockRebuilt(block);
  }

  lemma {:induction false} SetsCarryNoPicture(sps: seq<byte>, pps: seq<byte>, rest: seq<seq<byte>>)
    requires IsParameterSet(sps) && IsParameterSet(pps)
    ensures PictureUnits([sps, pps] + rest) == PictureUnits(rest)
  {
    var sets := [sps, pps];
    PictureUnitsAppend(sets, rest);
    assert sets[1..] == [pps] && [pps][1..] == [];
    assert PictureUnits(sets) == [];
    assert [] + PictureUnits(rest) == PictureUnits(rest);
  }

  /** Any captured sample: conversion fails exactly on a truncated block or on a keyframe whose sets
      cannot be read. Otherwise the viewer splits out the sets (on a keyframe only) and the block's
      units, without empty ones. If the sets are parameter sets it rebuilds the block byte for byte
      under the same condition as for a keyframe. */
  lemma {:induction false} MacSampleArrives(isKeyframe: bool, parameterSets: Option<seq<seq<byte>>>, block: seq<byte>)
    ensures SampleBytes(isKeyframe, parameterSets, block) == Err
            <==> Parse(block) == None || (isKeyframe && parameterSets == None)
    ensures Parse(block).Some? && (isKeyframe ==> parameterSets.Some?) ==>
              var sets := if isKeyframe then parameterSets.value else [];
              var (units, tail) := Parse(block).value;
              Clean(sets) && Clean(units) ==>
                var seen := Nalus(SampleBytes(isKeyframe, parameterSets, block).value);
                && seen == NonEmpty(sets) + NonEmpty(units)
                && ((forall i | 0 <= i < |sets| :: sets[i] == [] || IsParameterSet(sets[i])) ==>
                      (AvccSample(seen) == Ok(Some(block))
                       <==> tail == [] && units != [] && AllNonEmpty(units)
                            && forall i | 0 <= i < |units| :: !IsParameterSet(units[i])))
  {
    if Parse(block).Some? && (isKeyframe ==> parameterSets.Some?) {
      var sets := if isKeyframe then parameterSets.value else [];
      var units := Parse(block).value.0;
      assert [] + Print(units) == Print(units);
      assert SampleBytes(isKeyframe, parameterSets, block) == Ok(Print(sets) + Print(units));
      if Clean(sets) && Clean(units) {
        SetsThenUnits(sets, units);
        hide Print, Parse, SampleBytes, Clean, Segments;
        BlockRebuilt(block);
        if forall i | 0 <= i < |sets| :: sets[i] == [] || IsParameterSet(sets[i]) {
          RebuiltWithoutSets(sets, units);
        }
      }
    }
  }

  lemma {:induction false} RebuiltWithoutSets(sets: seq<seq<byte>>, units: seq<seq<byte>>)
    requires forall i | 0 <= i < |sets| :: sets[i] == [] || IsParameterSet(sets[i])
    ensures AvccSample(NonEmpty(sets) + NonEmpty(units)) == AvccSample(NonEmpty(units))
  {
    SetsCarryNothing(sets);
    PictureUnitsAppend(NonEmpty(sets), NonEmpty(units));
    assert [] + PictureUnits(NonEmpty(units)) == PictureUnits(NonEmpty(units));
  }

  lemma {:induction false} SetsThenUnits(sets: seq<seq<byte>>, units: seq<seq<byte>>)
    requires Clean(sets) && Clean(units)
    ensures Nalus(Print(sets) + Print(units)) == NonEmpty(sets) + NonEmpty(units)
  {
    PrintAppend(sets, units);
    PrintThenSplit(sets + units);
    NonEmptyAppend(sets, units);
  }

  lemma {:induction false} SetsCarryNothing(sets: seq<seq<byte>>)
    requires forall i | 0 <= i < |sets| :: sets[i] == [] || IsParameterSet(sets[i])
    ensures PictureUnits(NonEmpty(sets)) == []
  {
    if sets != [] {
      SetsCarryNothing(sets[1..]);
      if sets[0] == [] {
        assert NonEmpty(sets) == NonEmpty(sets[1..]);
      } else {
        assert NonEmpty(sets) == [sets[0]] + NonEmpty(sets[1..]);
        assert NonEmpty(sets)[1..] == NonEmpty(sets[1..]);
      }
    }
  }

  lemma {:induction false} NonEmptyAppend(us: seq<seq<byte>>, vs: seq<seq<byte>>)
    ensures NonEmpty(us + vs) == NonEmpty(us) + NonEmpty(vs)
  {
    if us == [] {
      assert us + vs == vs;
    } else {
      assert (us + vs)[1..] == us[1..] + vs;
      NonEmptyAppend(us[1..], vs);
    }
  }

  lemma {:induction false} NonEmptyKeepsTypes(units: seq<seq<byte>>, t: nat)
    ensures HasType(NonEmpty(units), t) == HasType(units, t)
  {
    if units != [] {
      NonEmptyKeepsTypes(units[1..], t);
      HasTypeCons(units[0], units[1..], t);
      HasTypeCons(units[0], NonEmpty(units[1..]), t);
      assert units == [units[0]] + units[1..];
      assert [] + NonEmpty(units[1..]) == NonEmpty(units[1..]);
    }
  }

  lemma {:induction false} ParameterSetsObserved(sps: seq<byte>, pps: seq<byte>, units: seq<seq<byte>>,
                              knownSps: Option<seq<byte>>, knownPps: Option<seq<byte>>)
    requires sps != [] && NalType(sps) == 7 && pps != [] && NalType(pps) == 8
    ensures var seen := [sps, pps] + NonEmpty(units);
      && (!HasType(units, 7) ==> LastOfType(seen, 7, knownSps) == Some(sps))
      && (!HasType(units, 8) ==> LastOfType(seen, 8, knownPps) == Some(pps))
  {
    var rest := NonEmpty(units);
    NonEmptyKeepsTypes(units, 7);
    NonEmptyKeepsTypes(units, 8);
    if !HasType(units, 7) {
      LastInPrefix([sps, pps], rest, 7, knownSps);
      assert [sps, pps][..1] == [sps];
    }
    if !HasType(units, 8) {
      LastInPrefix([sps, pps], rest, 8, knownPps);
    }
  }

  lemma {:induction false} LastInPrefix(front: seq<seq<byte>>, back: seq<seq<byte>>, t: nat, known: Option<seq<byte>>)
    requires !HasType(back, t)
    ensures LastOfType(front + back, t, known) == LastOfType(front, t, known)
    decreases |back|
  {
    if back == [] {
      assert front + back == front;
    } else {
      var n := |back| - 1;
      assert (front + back)[..|front| + n] == front + back[..n];
      assert (front + back)[|front| + n] == back[n];
      assert !HasType(back[..n], t);
      LastInPrefix(front, back[..n], t, known);
    }
  }

  lemma {:induction false} BlockRebuilt(block: seq<byte>)
    requires Parse(block).Some?
    ensures var (units, tail) := Parse(block).value;
      AvccSample(NonEmpty(units)) == Ok(Some(block))
      <==> tail == [] && units != [] && AllNonEmpty(units)
           && forall i | 0 <= i < |units| :: !IsParameterSet(units[i])
  {
    var (units, tail) := Parse(block).value;
    PrintParsed(block);
    assert tail == [] ==> LengthPrefixed(units) + tail == LengthPrefixed(units);
    PictureUnitsIdentity(units);
    if AllNonEmpty(units) {
      NonEmptyIdentity(units);
    }
    var kept := PictureUnits(NonEmpty(units));
    if AvccSample(NonEmpty(units)) == Ok(Some(block)) {
      ParsePrinted(kept, []);
      assert LengthPrefixed(kept) + [] == LengthPrefixed(kept);
      assert kept == units && tail == [];
      PictureUnitsIdentity(NonEmpty(units));
      NonEmptyShrinks(units);
    }
  }

  lemma {:induction false} NonEmptyShrinks(units: seq<seq<byte>>)
    ensures |NonEmpty(units)| <= |units|
    ensures |NonEmpty(units)| == |units| ==> AllNonEmpty(units)
  {
    if units != [] {
      NonEmptyShrinks(units[1..]);
      assert forall i | 0 < i < |units| :: units[i] == units[1..][i - 1];
    }
  }
}
