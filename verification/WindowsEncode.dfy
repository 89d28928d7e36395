/** The Windows host's H.264 byte handling: conversion of encoder output to Annex B and the
    keyframe test. */
module WindowsEncode {
  import opened Bytes
  import opened AnnexB
  import opened Avcc

  predicate HasAnnexBStartCode(data: seq<byte>)
    ensures HasAnnexBStartCode(data) <==> HasStartCode(data)
  {
    assert forall i: nat | FourByteCodeAt(data, i) :: ThreeByteCodeAt(data, i + 1);
    || (exists i: nat | i < |data| :: ThreeByteCodeAt(data, i))
    || (exists i: nat | i < |data| :: FourByteCodeAt(data, i))
  }

  /** The units of a well-formed, non-empty, fully consumed length-prefixed sample. */
  function ConvertibleUnits(data: seq<byte>): Option<seq<seq<byte>>> {
    match Parse(data)
    case None => None
    case Some((units, tail)) =>
      if tail == [] && units != [] && AllNonEmpty(units) then Some(units) else None
  }

  /** What the encoder hands to the packetizer. */
  function AnnexBOf(data: seq<byte>): seq<byte> {
    if HasAnnexBStartCode(data) then data
    else
      match ConvertibleUnits(data)
      case None => data
      case Some(units) => Print(units)
  }

  method EnsureAnnexB(data: seq<byte>) returns (r: seq<byte>)
    ensures r == AnnexBOf(data)
  {
    if HasAnnexBStartCode(data) {
      return data;
    }
    var offset := 0;
    var out: seq<byte> := [];
    ghost var done: seq<seq<byte>> := [];
    ParsedSoFarInit(data);
    hide Parse, ParsedSoFar, Print, FromBigEndian32, HasAnnexBStartCode;
    while offset + 4 <= |data|
      invariant offset <= |data|
      invariant out == Print(done) && AllNonEmpty(done)
      invariant ParsedSoFar(data, done, offset)
    {
      var naluLen := FromBigEndian32(data[offset..offset + 4]);
      ParseStep(data, done, offset);
      offset := offset + 4;
      if naluLen == 0 || offset + naluLen > |data| {
        if offset + naluLen <= |data| && Parse(data).Some? {
          EmptyUnitInside(done, data[offset..offset + naluLen], Parse(data[offset + naluLen..]).value.0);
        }
        return data;
      }
      PrintSnoc(done, data[offset..offset + naluLen]);
      out := out + [0, 0, 0, 1];
      out := out + data[offset..offset + naluLen];
      done := done + [data[offset..offset + naluLen]];
      offset := offset + naluLen;
    }
    ParsedSoFarEnd(data, done, offset);
    if offset == |data| && out != [] {
      return out;
    }
    return data;
  }

  lemma {:induction false} EmptyUnitInside(done: seq<seq<byte>>, u: seq<byte>, units: seq<seq<byte>>)
    ensures u == [] ==> !AllNonEmpty(done + [u] + units)
  {
    assert (done + [u] + units)[|done|] == u;
  }

  // ---------- The keyframe test ----------

  /** The header types of all units that have a byte after their start code, read from the
      byte right after the code even when another code starts there. */
  function HeaderTypes(s: seq<byte>): seq<nat>
    decreases |s|
  {
    if FirstCode(s) == |s| || AfterCode(s) == [] then []
    else [NalType(AfterCode(s))] + HeaderTypes(AfterCode(s))
  }

  /** The iterator with its captured offset. */
  class NaluTypes {
    const data: seq<byte>
    var offset: nat

    constructor (data: seq<byte>)
      ensures this.data == data && offset == 0
    {
      this.data := data;
      offset := 0;
    }

    ghost predicate Valid()
      reads this
    {
      offset <= |data|
    }

    /** The types still to come. */
    ghost function Remaining(): seq<nat>
      requires Valid()
      reads this
    {
      HeaderTypes(data[offset..])
    }

    method Next() returns (r: Option<nat>)
      requires Valid()
      modifies this
      ensures Valid()
      ensures r == if old(Remaining()) == [] then None else Some(old(Remaining())[0])
      ensures Remaining() == if old(Remaining()) == [] then [] else old(Remaining())[1..]
    {
      hide HeaderTypes, FirstCode, AfterCode;
      ghost var before := Remaining();
      while offset + 4 <= |data|
        invariant offset <= |data|
        invariant HeaderTypes(data[offset..]) == before
        decreases |data| - offset
      {
        var startLen;
        if FourByteCodeAt(data, offset) {
          startLen := 4;
        } else if ThreeByteCodeAt(data, offset) {
          startLen := 3;
        } else {
          TypesSkip(data, offset);
          offset := offset + 1;
          continue;
        }
        TypesStep(data, offset);
        offset := offset + startLen;
        if offset < |data| {
          var r := data[offset] as int % 32;
          assert before == [r] + HeaderTypes(data[offset..]);
          return Some(r);
        }
      }
      TypesEnd(data, offset);
      return None;
    }
  }

  lemma {:induction false} TypesSkip(data: seq<byte>, offset: nat)
    requires offset + 4 <= |data| && !StartCodeAt(data, offset)
    ensures HeaderTypes(data[offset..]) == HeaderTypes(data[offset + 1..])
  {
    var s, t := data[offset..], data[offset + 1..];
    assert StartCodeAt(s, 0) == StartCodeAt(data, offset);
    assert s[1..] == t;
    assert FirstCode(s) == FirstCode(t) + 1;
    assert FourByteCodeAt(s, FirstCode(t) + 1) == FourByteCodeAt(t, FirstCode(t));
    if FirstCode(t) < |t| {
      FirstCodeIsFirst(t);
      var n := FirstCode(t) + CodeLen(t, FirstCode(t));
      assert s[1..][n..] == s[n + 1..];
      assert AfterCode(s) == AfterCode(t);
    }
  }

  lemma {:induction false} TypesStep(data: seq<byte>, offset: nat)
    requires offset + 4 <= |data| && StartCodeAt(data, offset)
    ensures var b := offset + CodeLen(data, offset);
      && b <= |data|
      && HeaderTypes(data[offset..]) ==
         if b < |data| then [data[b] as int % 32] + HeaderTypes(data[b..]) else []
    ensures offset + CodeLen(data, offset) == |data| ==>
              HeaderTypes(data[offset + CodeLen(data, offset)..]) == []
  {
    var s := data[offset..];
    assert FourByteCodeAt(s, 0) == FourByteCodeAt(data, offset);
    assert StartCodeAt(s, 0);
    FirstCodeUnique(s, 0);
    assert AfterCode(s) == data[offset + CodeLen(data, offset)..];
  }

  /** The iterator's stricter loop bound only ignores a code that ends the data. */
  lemma {:induction false} TypesEnd(data: seq<byte>, offset: nat)
    requires offset <= |data| < offset + 4
    ensures HeaderTypes(data[offset..]) == []
  {
    FirstCodeIsFirst(data[offset..]);
  }

  method AnnexBContainsIdr(data: seq<byte>) returns (found: bool)
    ensures found <==> 5 in HeaderTypes(data) || 7 in HeaderTypes(data)
  {
    hide HeaderTypes;
    var types := new NaluTypes(data);
    assert data[0..] == data;
    ghost var seen: seq<nat> := [];
    var t := types.Next();
    while t.Some?
      invariant types.Valid() && types.data == data
      invariant 5 !in seen && 7 !in seen
      invariant HeaderTypes(data) == seen + (if t.Some? then [t.value] else []) + types.Remaining()
      invariant t.None? ==> types.Remaining() == []
      decreases |types.Remaining()|, if t.Some? then 1 else 0
    {
      if t.value == 5 || t.value == 7 {
        return true;
      }
      seen := seen + [t.value];
      t := types.Next();
    }
    return false;
  }

  // ---------- It sees the same units as the viewer ----------

  lemma {:induction false} TypesFromNextCode(body: seq<byte>)
    ensures HeaderTypes(body) == HeaderTypes(body[FirstCode(body)..])
  {
    RestStartsAtCode(body);
  }

  /** The types the iterator yields, read off the segments. */
  function SegmentTypes(segs: seq<Segment>): seq<nat> {
    if segs == [] then []
    else if segs[0].unit != [] then [NalType(segs[0].unit)] + SegmentTypes(segs[1..])
    else (if |segs| > 1 then [0] else []) + SegmentTypes(segs[1..])
  }

  lemma {:induction false} HeaderTypesOfSegments(s: seq<byte>)
    ensures HeaderTypes(s) == SegmentTypes(Segments(s))
    decreases |s|
  {
    if FirstCode(s) < |s| {
      var body := AfterCode(s);
      var n := FirstCode(body);
      TypesFromNextCode(body);
      RestStartsAtCode(body);
      HeaderTypesOfSegments(body[n..]);
      if n == 0 && body != [] {
        FirstCodeIsFirst(body);
        assert StartCodeAt(body, 0) && body[0] == 0;
        assert body[0..] == body;
      }
    }
  }

  lemma {:induction false} SegmentTypesAreUnitTypes(segs: seq<Segment>, t: nat)
    requires t != 0
    ensures t in SegmentTypes(segs) <==> HasType(NonEmptyUnits(segs), t)
  {
    if segs != [] {
      SegmentTypesAreUnitTypes(segs[1..], t);
      HasTypeCons(segs[0].unit, NonEmptyUnits(segs[1..]), t);
      assert [] + NonEmptyUnits(segs[1..]) == NonEmptyUnits(segs[1..]);
    }
  }

  /** For every type but 0, the host's iterator reports it exactly when the viewer's splitter
      returns a unit of that type, on every byte string. */
  lemma {:induction false} ScannersAgree(s: seq<byte>, t: nat)
    requires t != 0
    ensures t in HeaderTypes(s) <==> HasType(Nalus(s), t)
  {
    HeaderTypesOfSegments(s);
    SegmentTypesAreUnitTypes(Segments(s), t);
  }
}
