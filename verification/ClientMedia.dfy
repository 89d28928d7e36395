/** The viewer's H.264 byte handling: the start-code scanner, the NAL unit splitter, the
    length-prefixing serialiser and the parameter-set observer. */
module ClientMedia {
  import opened Bytes
  import opened AnnexB
  import opened Avcc

  predicate IsParameterSet(unit: seq<byte>) {
    unit != [] && (NalType(unit) == 7 || NalType(unit) == 8)
  }

  // ---------- Scanning ----------

  /** The first start code at or after `from`, whatever `from` is. */
  method FindStartCode(bytes: seq<byte>, from: nat) returns (r: Option<nat>)
    ensures |bytes| < from ==> r == None
    ensures from <= |bytes| ==> r == FindFrom(bytes, from)
  {
    var i := from;
    while i + 3 <= |bytes|
      invariant from <= i
      invariant forall k | from <= k < i :: !StartCodeAt(bytes, k)
    {
      if StartCodeAt(bytes, i) {
        FirstCodeAfter(bytes, from, i);
        return Some(i);
      }
      i := i + 1;
    }
    if from <= |bytes| {
      FirstCodeAfter(bytes, from, |bytes|);
    }
    return None;
  }

  function FindFrom(bytes: seq<byte>, from: nat): (r: Option<nat>)
    requires from <= |bytes|
  {
    var n := FirstCode(bytes[from..]);
    if n == |bytes| - from then None else Some(from + n)
  }

  lemma {:induction false} FirstCodeAfter(bytes: seq<byte>, from: nat, at: nat)
    requires from <= at <= |bytes|
    requires at < |bytes| ==> StartCodeAt(bytes, at)
    requires forall k | from <= k < at :: !StartCodeAt(bytes, k)
    ensures FirstCode(bytes[from..]) == at - from
  {
    var s := bytes[from..];
    assert forall i: nat | i <= |s| :: StartCodeAt(s, i) == StartCodeAt(bytes, from + i);
    FirstCodeUnique(s, at - from);
  }

  function StartCodeLen(bytes: seq<byte>): nat {
    if FourByteCodeAt(bytes, 0) then 4 else 3
  }

  method AnnexBNalus(sample: seq<byte>) returns (nalus: seq<seq<byte>>)
    ensures nalus == Nalus(sample)
  {
    nalus := [];
    var cursor := 0;
    var found := FindStartCode(sample, cursor);
    assert sample[0..] == sample;
    while found.Some?
      invariant cursor <= |sample| && found == FindFrom(sample, cursor)
      invariant nalus + Nalus(sample[cursor..]) == Nalus(sample)
      decreases |sample| - cursor
    {
      var start := found.value;
      var naluStart := start + StartCodeLen(sample[start..]);
      StartCodeFits(sample, cursor);
      var nextFound := FindStartCode(sample, naluStart);
      var next := if nextFound.Some? then nextFound.value else |sample|;
      NaluStep(nalus, sample, cursor, naluStart, next);
      if naluStart < next {
        nalus := nalus + [sample[naluStart..next]];
      }
      cursor := next;
      found := FindStartCode(sample, cursor);
    }
    assert Segments(sample[cursor..]) == [];
  }

  lemma {:induction false} StartCodeFits(s: seq<byte>, cursor: nat)
    requires cursor <= |s| && FindFrom(s, cursor).Some?
    ensures var start := FindFrom(s, cursor).value;
      start + StartCodeLen(s[start..]) <= |s|
  {
    var t, start := s[cursor..], FindFrom(s, cursor).value;
    FirstCodeIsFirst(t);
    assert FourByteCodeAt(s[start..], 0) == FourByteCodeAt(t, start - cursor);
  }

  /** One round of the splitter consumes one segment. */
  lemma {:induction false} NaluStep(done: seq<seq<byte>>, s: seq<byte>, cursor: nat, naluStart: nat, next: nat)
    requires cursor <= |s| && FindFrom(s, cursor).Some?
    requires var start := FindFrom(s, cursor).value;
      naluStart == start + StartCodeLen(s[start..])
    requires naluStart <= next <= |s| && FirstCode(s[naluStart..]) == next - naluStart
    ensures done + Nalus(s[cursor..]) ==
            (if naluStart < next then done + [s[naluStart..next]] else done) + Nalus(s[next..])
  {
    hide Segments, FirstCode, AfterCode, FindFrom, StartCodeLen, CodeLen, NonEmptyUnits;
    var t, u, rest := s[cursor..], s[naluStart..next], s[next..];
    CursorAfterCode(s, cursor);
    CutInTwo(s[naluStart..], next - naluStart);
    assert s[naluStart..][..next - naluStart] == u && s[naluStart..][next - naluStart..] == rest;
    FirstSegment(t, u, rest);
    FirstUnit(CodeLen(t, FirstCode(t)), u, Segments(rest));
    Associate(done, [u], Nalus(rest));
    assert done + [] + Nalus(rest) == done + Nalus(rest);
  }

  lemma {:induction false} FirstUnit(codeLen: nat, u: seq<byte>, segs: seq<Segment>)
    ensures NonEmptyUnits([Segment(codeLen, u)] + segs) == (if u == [] then [] else [u]) + NonEmptyUnits(segs)
  {
    assert ([Segment(codeLen, u)] + segs)[1..] == segs;
  }

  lemma {:induction false} CursorAfterCode(s: seq<byte>, cursor: nat)
    requires cursor <= |s| && FindFrom(s, cursor).Some?
    ensures FirstCode(s[cursor..]) < |s| - cursor
    ensures var start := FindFrom(s, cursor).value;
      var naluStart := start + StartCodeLen(s[start..]);
      naluStart <= |s| && AfterCode(s[cursor..]) == s[naluStart..]
  {
    var t, start := s[cursor..], FindFrom(s, cursor).value;
    assert FourByteCodeAt(s[start..], 0) == FourByteCodeAt(t, start - cursor);
    FirstCodeIsFirst(t);
  }

  // ---------- Serialising ----------

  /** The units that carry pictures: everything except sequence and picture parameter sets. */
  function PictureUnits(units: seq<seq<byte>>): seq<seq<byte>> {
    if units == [] then []
    else (if IsParameterSet(units[0]) then [] else [units[0]]) + PictureUnits(units[1..])
  }

  lemma {:induction false} PictureUnitsAppend(us: seq<seq<byte>>, vs: seq<seq<byte>>)
    ensures PictureUnits(us + vs) == PictureUnits(us) + PictureUnits(vs)
  {
    if us == [] {
      assert us + vs == vs;
    } else {
      assert (us + vs)[1..] == us[1..] + vs;
      PictureUnitsAppend(us[1..], vs);
    }
  }

  lemma {:induction false} PictureUnitsOfEncodable(units: seq<seq<byte>>)
    requires Encodable(units)
    ensures Encodable(PictureUnits(units))
  {
    if units != [] {
      PictureUnitsOfEncodable(units[1..]);
    }
  }

  lemma {:induction false} PictureUnitsIdentity(units: seq<seq<byte>>)
    ensures |PictureUnits(units)| <= |units|
    ensures PictureUnits(units) == units <==> forall i | 0 <= i < |units| :: !IsParameterSet(units[i])
    ensures PictureUnits(units) == units
            <==> forall i | 0 <= i < |units| && units[i] != [] ::
                   units[i][0] as int % 32 != 7 && units[i][0] as int % 32 != 8
  {
    if units != [] {
      PictureUnitsIdentity(units[1..]);
      if IsParameterSet(units[0]) {
        assert |PictureUnits(units)| < |units|;
      } else {
        assert units == [units[0]] + units[1..];
        assert PictureUnits(units)[1..] == PictureUnits(units[1..]);
      }
    }
  }

  /** The sample the decoder is given: the picture units length-prefixed, nothing when there
      are none, an error when one does not fit a 32-bit length. */
  function AvccSample(units: seq<seq<byte>>): Result<Option<seq<byte>>> {
    var kept := PictureUnits(units);
    if !Encodable(kept) then Err
    else if kept == [] then Ok(None)
    else Ok(Some(LengthPrefixed(kept)))
  }

  lemma {:induction false} PictureUnitsFrom(units: seq<seq<byte>>, u: seq<byte>)
    ensures u in PictureUnits(units) <==> u in units && !IsParameterSet(u)
  {
    if units != [] {
      PictureUnitsFrom(units[1..], u);
      assert units == [units[0]] + units[1..];
    }
  }

  /** The serialiser fails exactly when a unit that is no parameter set does not fit a 32-bit length,
      and gives nothing exactly when every unit is one. */
  lemma {:induction false} AvccSampleOutcomes(units: seq<seq<byte>>)
    ensures AvccSample(units) == Err
            <==> exists i :: 0 <= i < |units| && !IsParameterSet(units[i]) && |units[i]| >= 0x1_0000_0000
    ensures AvccSample(units) == Ok(None) <==> forall i | 0 <= i < |units| :: IsParameterSet(units[i])
  {
    var kept := PictureUnits(units);
    forall u: seq<byte>
      ensures u in kept <==> u in units && !IsParameterSet(u)
    {
      PictureUnitsFrom(units, u);
    }
    hide PictureUnits, IsParameterSet, LengthPrefixed;
    if i :| 0 <= i < |units| && !IsParameterSet(units[i]) {
      assert units[i] in kept;
    }
    if i :| 0 <= i < |units| && !IsParameterSet(units[i]) && |units[i]| >= U32_LIMIT {
      assert units[i] in kept;
    }
    if !Encodable(kept) {
      var i :| 0 <= i < |kept| && |kept[i]| >= U32_LIMIT;
      assert kept[i] in kept && kept[i] in units;
    }
    if kept != [] {
      assert kept[0] in kept && kept[0] in units;
    }
  }

  method AnnexBToAvccSample(sample: seq<byte>) returns (r: Result<Option<seq<byte>>>)
    ensures r == AvccSample(Nalus(sample))
  {
    var nalus := AnnexBNalus(sample);
    UnitsAreClean(sample);
    var out: seq<byte> := [];
    for i := 0 to |nalus|
      invariant Encodable(PictureUnits(nalus[..i]))
      invariant out == LengthPrefixed(PictureUnits(nalus[..i]))
    {
      var nalu := nalus[i];
      PictureUnitsPrefix(nalus, i);
      if NalType(nalu) == 7 || NalType(nalu) == 8 {
        continue;
      }
      if |nalu| >= U32_LIMIT {
        LongUnitFails(nalus, i);
        return Err;
      }
      LengthPrefixedSnoc(PictureUnits(nalus[..i]), nalu);
      out := out + (ToBigEndian32(|nalu|) + nalu);
    }
    assert nalus[..|nalus|] == nalus;
    if out == [] {
      return Ok(None);
    }
    return Ok(Some(out));
  }

  lemma {:induction false} PictureUnitsPrefix(units: seq<seq<byte>>, i: nat)
    requires i < |units|
    ensures PictureUnits(units[..i + 1]) ==
            if IsParameterSet(units[i]) then PictureUnits(units[..i])
            else PictureUnits(units[..i]) + [units[i]]
  {
    hide IsParameterSet;
    PictureUnitsAppend(units[..i], [units[i]]);
    assert units[..i + 1] == units[..i] + [units[i]];
    OnePictureUnit(units[i]);
    assert PictureUnits(units[..i]) + [] == PictureUnits(units[..i]);
  }

  lemma {:induction false} OnePictureUnit(u: seq<byte>)
    ensures PictureUnits([u]) == if IsParameterSet(u) then [] else [u]
  {
    assert [u][1..] == [];
    assert PictureUnits([u]) == (if IsParameterSet(u) then [] else [u]) + PictureUnits([]);
  }

  /** A picture unit too long for a 32-bit length is still among the picture units. */
  lemma {:induction false} LongUnitFails(units: seq<seq<byte>>, i: nat)
    requires i < |units| && !IsParameterSet(units[i]) && |units[i]| >= U32_LIMIT
    ensures !Encodable(PictureUnits(units))
  {
    var front, back := units[..i + 1], units[i + 1..];
    CutInTwo(units, i + 1);
    PictureUnitsAppend(front, back);
    PictureUnitsPrefix(units, i);
    hide PictureUnits;
    var n := |PictureUnits(units[..i])|;
    assert (PictureUnits(front) + PictureUnits(back))[n] == units[i];
  }

  // ---------- Learning the parameter sets ----------

  /** The last unit of a type, or what was known before. */
  function LastOfType(units: seq<seq<byte>>, nalType: nat, known: Option<seq<byte>>): Option<seq<byte>> {
    if units == [] then known
    else
      var last := units[|units| - 1];
      if last != [] && NalType(last) == nalType then Some(last)
      else LastOfType(units[..|units| - 1], nalType, known)
  }

  class ParameterSets {
    var sps: Option<seq<byte>>
    var pps: Option<seq<byte>>

    constructor ()
      ensures sps == None && pps == None
    {
      sps, pps := None, None;
    }

    method ObserveAnnexBSample(sample: seq<byte>)
      modifies this
      ensures sps == LastOfType(Nalus(sample), 7, old(sps))
      ensures pps == LastOfType(Nalus(sample), 8, old(pps))
    {
      var nalus := AnnexBNalus(sample);
      for i := 0 to |nalus|
        invariant sps == LastOfType(nalus[..i], 7, old(sps))
        invariant pps == LastOfType(nalus[..i], 8, old(pps))
      {
        assert nalus[..i + 1][..i] == nalus[..i];
        if nalus[i] != [] {
          match NalType(nalus[i])
          case 7 => sps := Some(nalus[i]);
          case 8 => pps := Some(nalus[i]);
          case _ =>
        }
      }
      assert nalus[..|nalus|] == nalus;
    }
  }

  /** The unit at i is the last one of its type. */
  ghost predicate LastAt(units: seq<seq<byte>>, nalType: nat, i: nat) {
    i < |units| && units[i] != [] && NalType(units[i]) == nalType && !HasType(units[i + 1..], nalType)
  }

  /** The observed unit is the last one of its type in the sample: it occurs there, and no
      unit after it has that type. Without a unit of the type, nothing changes. */
  lemma {:induction false} LastOfTypeIsLast(units: seq<seq<byte>>, nalType: nat, known: Option<seq<byte>>)
    ensures !HasType(units, nalType) ==> LastOfType(units, nalType, known) == known
    ensures HasType(units, nalType) ==>
              exists i :: 0 <= i < |units| && LastAt(units, nalType, i)
                          && LastOfType(units, nalType, known) == Some(units[i])
  {
    hide LastAt, HasType, NalType;
    if units == [] {
      NoTypeInNothing(nalType);
    } else {
      var n := |units| - 1;
      var front, last := units[..n], units[n];
      assert units == front + [last];
      LastOfTypeIsLast(front, nalType, known);
      if last != [] && NalType(last) == nalType {
        LastAtEnd(front, last, nalType);
      } else if HasType(front, nalType) {
        var i :| 0 <= i < n && LastAt(front, nalType, i) && LastOfType(front, nalType, known) == Some(front[i]);
        LastAtSnoc(front, last, nalType, i);
      } else {
        NoTypeSnoc(front, last, nalType);
      }
    }
  }

  lemma {:induction false} NoTypeInNothing(nalType: nat)
    ensures !HasType([], nalType)
  {
  }

  lemma {:induction false} LastAtEnd(front: seq<seq<byte>>, last: seq<byte>, nalType: nat)
    requires last != [] && NalType(last) == nalType
    ensures LastAt(front + [last], nalType, |front|) && HasType(front + [last], nalType)
  {
    assert (front + [last])[|front|] == last;
    assert (front + [last])[|front| + 1..] == [];
  }

  lemma {:induction false} LastAtSnoc(front: seq<seq<byte>>, last: seq<byte>, nalType: nat, i: nat)
    requires LastAt(front, nalType, i) && (last == [] || NalType(last) != nalType)
    ensures i < |front| && LastAt(front + [last], nalType, i) && HasType(front + [last], nalType)
  {
    NoTypeSnoc(front[i + 1..], last, nalType);
    assert (front + [last])[i + 1..] == front[i + 1..] + [last];
    assert (front + [last])[i] == front[i];
  }

  lemma {:induction false} NoTypeSnoc(units: seq<seq<byte>>, u: seq<byte>, t: nat)
    requires !HasType(units, t) && (u == [] || NalType(u) != t)
    ensures !HasType(units + [u], t)
  {
    assert forall i | 0 <= i < |units| :: (units + [u])[i] == units[i];
  }
}
