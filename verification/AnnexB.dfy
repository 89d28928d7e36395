/** The Annex B byte-stream format (ITU-T H.264, Annex B.1) as a theory of byte strings:
    where start codes are, how they cut a string into NAL units, and how units print. */
module AnnexB {
  import opened Bytes

  const START_CODE: seq<byte> := [0, 0, 0, 1]

  predicate ThreeByteCodeAt(s: seq<byte>, i: nat) {
    i + 3 <= |s| && s[i] == 0 && s[i + 1] == 0 && s[i + 2] == 1
  }

  predicate FourByteCodeAt(s: seq<byte>, i: nat) {
    i + 4 <= |s| && s[i] == 0 && s[i + 1] == 0 && s[i + 2] == 0 && s[i + 3] == 1
  }

  predicate StartCodeAt(s: seq<byte>, i: nat) {
    ThreeByteCodeAt(s, i) || FourByteCodeAt(s, i)
  }

  /** The three bytes 00 00 01 occur somewhere. */
  ghost predicate HasStartCode(s: seq<byte>) {
    exists i: nat :: ThreeByteCodeAt(s, i)
  }

  /** A four-byte code carries a three-byte code one position later. */
  lemma {:induction false} StartCodeMeansThreeBytes(s: seq<byte>, i: nat)
    requires StartCodeAt(s, i)
    ensures HasStartCode(s)
  {
    assert ThreeByteCodeAt(s, i) || ThreeByteCodeAt(s, i + 1);
  }

  function CodeLen(s: seq<byte>, i: nat): nat {
    if FourByteCodeAt(s, i) then 4 else 3
  }

  /** Position of the first start code, or |s| when there is none. */
  function FirstCode(s: seq<byte>): (n: nat)
    ensures n <= |s|
  {
    if |s| < 3 then |s|
    else if StartCodeAt(s, 0) then 0
    else FirstCode(s[1..]) + 1
  }

  /** It is the position with a start code and none before it, or the end without any. */
  lemma {:induction false} FirstCodeIsFirst(s: seq<byte>)
    ensures FirstCode(s) < |s| ==> StartCodeAt(s, FirstCode(s))
    ensures forall i: nat | i < FirstCode(s) :: !StartCodeAt(s, i)
  {
    if |s| >= 3 && !StartCodeAt(s, 0) {
      FirstCodeIsFirst(s[1..]);
      assert forall i: nat :: i > 0 ==> StartCodeAt(s, i) == StartCodeAt(s[1..], i - 1);
    }
  }

  lemma {:induction false} FirstCodeUnique(s: seq<byte>, n: nat)
    requires n <= |s|
    requires n < |s| ==> StartCodeAt(s, n)
    requires forall i: nat | i < n :: !StartCodeAt(s, i)
    ensures FirstCode(s) == n
  {
    FirstCodeIsFirst(s);
    var m := FirstCode(s);
    assert !(m < n) && !(n < m);
  }

  /** The bytes after the first start code. */
  function AfterCode(s: seq<byte>): (body: seq<byte>)
    requires FirstCode(s) < |s|
    ensures |body| < |s|
  {
    FirstCodeIsFirst(s);
    s[FirstCode(s) + CodeLen(s, FirstCode(s))..]
  }

  /** A start code of 3 or 4 bytes with the (possibly empty) bytes up to the next one. */
  datatype Segment = Segment(codeLen: nat, unit: seq<byte>)

  function Code(codeLen: nat): seq<byte> {
    if codeLen == 4 then START_CODE else [0, 0, 1]
  }

  /** Cut at every start code; bytes before the first one are not part of any segment. */
  function Segments(s: seq<byte>): (segs: seq<Segment>)
    decreases |s|
  {
    if FirstCode(s) == |s| then []
    else
      var body := AfterCode(s);
      [Segment(CodeLen(s, FirstCode(s)), body[..FirstCode(body)])] + Segments(body[FirstCode(body)..])
  }

  function NonEmptyUnits(segs: seq<Segment>): seq<seq<byte>> {
    if segs == [] then []
    else (if segs[0].unit == [] then [] else [segs[0].unit]) + NonEmptyUnits(segs[1..])
  }

  /** The NAL units of a byte stream. */
  function Nalus(s: seq<byte>): seq<seq<byte>> {
    NonEmptyUnits(Segments(s))
  }

  /** Every segment written back as its start code and its unit. */
  function JoinSegments(segs: seq<Segment>): seq<byte> {
    if segs == [] then [] else Code(segs[0].codeLen) + segs[0].unit + JoinSegments(segs[1..])
  }

  /** Units printed with four-byte start codes, as both hosts do. */
  function Print(units: seq<seq<byte>>): seq<byte> {
    if units == [] then [] else START_CODE + units[0] + Print(units[1..])
  }

  lemma {:induction false} PrintAppend(us: seq<seq<byte>>, vs: seq<seq<byte>>)
    ensures Print(us + vs) == Print(us) + Print(vs)
  {
    if us == [] {
      assert us + vs == vs;
    } else {
      assert (us + vs)[1..] == us[1..] + vs;
      PrintAppend(us[1..], vs);
    }
  }

  lemma {:induction false} PrintSnoc(units: seq<seq<byte>>, u: seq<byte>)
    ensures Print(units + [u]) == Print(units) + START_CODE + u
  {
    PrintAppend(units, [u]);
    assert [u][1..] == [];
    assert Print([u]) == START_CODE + u;
  }

  /** Every unit is free of 00 00 01. */
  ghost predicate Clean(units: seq<seq<byte>>) {
    forall i | 0 <= i < |units| :: !HasStartCode(units[i])
  }

  predicate AllNonEmpty(units: seq<seq<byte>>) {
    forall i | 0 <= i < |units| :: units[i] != []
  }

  /** The five-bit type in a unit's header byte. */
  function NalType(unit: seq<byte>): nat
    requires unit != []
  {
    unit[0] as int % 32
  }

  ghost predicate HasType(units: seq<seq<byte>>, t: nat) {
    exists i :: 0 <= i < |units| && units[i] != [] && NalType(units[i]) == t
  }

  lemma {:induction false} HasTypeCons(u: seq<byte>, units: seq<seq<byte>>, t: nat)
    ensures HasType([u] + units, t) <==> (u != [] && NalType(u) == t) || HasType(units, t)
  {
    var us := [u] + units;
    assert us[0] == u;
    assert forall i | 0 <= i < |units| :: us[i + 1] == units[i];
    if i :| 0 < i < |us| && us[i] != [] && NalType(us[i]) == t {
      assert units[i - 1] == us[i];
    }
  }

  // ---------- Splitting loses nothing ----------

  /** The input is recovered from the bytes before the first start code and the segments. */
  lemma {:induction false} SplitIsLossless(s: seq<byte>)
    ensures s[..FirstCode(s)] + JoinSegments(Segments(s)) == s
    decreases |s|
  {
    if FirstCode(s) < |s| {
      var body := AfterCode(s);
      var u, rest := body[..FirstCode(body)], body[FirstCode(body)..];
      CutInTwo(body, FirstCode(body));
      JoinFromCode(body);
      JoinOneSegment(s, u, rest);
    } else {
      assert Segments(s) == [];
      assert s[..FirstCode(s)] == s;
    }
  }

  lemma {:induction false} JoinFromCode(body: seq<byte>)
    ensures var rest := body[FirstCode(body)..]; JoinSegments(Segments(rest)) == rest
    decreases |body|, 0
  {
    var rest := body[FirstCode(body)..];
    RestStartsAtCode(body);
    if rest != [] {
      var body' := AfterCode(rest);
      var u, rest' := body'[..FirstCode(body')], body'[FirstCode(body')..];
      JoinFromCode(body');
      CutInTwo(body', FirstCode(body'));
      assert body' == u + rest' && FirstCode(rest) == 0;
      JoinOneSegment(rest, u, rest');
    }
  }

  lemma {:induction false} SplitIsClean(s: seq<byte>)
    ensures !HasStartCode(s[..FirstCode(s)])
    ensures forall k | 0 <= k < |Segments(s)| :: !HasStartCode(Segments(s)[k].unit)
    decreases |s|
  {
    NoCodeBefore(s);
    if FirstCode(s) < |s| {
      var body := AfterCode(s);
      NoCodeBefore(body);
      SplitIsClean(body[FirstCode(body)..]);
    }
  }

  lemma {:induction false} FirstSegment(s: seq<byte>, u: seq<byte>, rest: seq<byte>)
    requires FirstCode(s) < |s|
    requires AfterCode(s) == u + rest
    requires FirstCode(u + rest) == |u|
    ensures Segments(s) == [Segment(CodeLen(s, FirstCode(s)), u)] + Segments(rest)
  {
    assert (u + rest)[..|u|] == u && (u + rest)[|u|..] == rest;
  }

  lemma {:induction false} JoinOneSegment(s: seq<byte>, u: seq<byte>, rest: seq<byte>)
    requires FirstCode(s) < |s|
    requires AfterCode(s) == u + rest
    requires FirstCode(u + rest) == |u|
    requires JoinSegments(Segments(rest)) == rest
    ensures s[..FirstCode(s)] + JoinSegments(Segments(s)) == s
    ensures FirstCode(s) == 0 ==> JoinSegments(Segments(s)) == s
  {
    FirstSegment(s, u, rest);
    var len := CodeLen(s, FirstCode(s));
    JoinCons(Segment(len, u), Segments(rest));
    CodeBytes(s);
    Associate(Code(len), u, rest);
  }

  lemma {:induction false} JoinCons(g: Segment, segs: seq<Segment>)
    ensures JoinSegments([g] + segs) == Code(g.codeLen) + g.unit + JoinSegments(segs)
  {
    assert ([g] + segs)[1..] == segs;
  }

  lemma {:induction false} CodeBytes(s: seq<byte>)
    requires FirstCode(s) < |s|
    ensures s == s[..FirstCode(s)] + (Code(CodeLen(s, FirstCode(s))) + AfterCode(s))
  {
    FirstCodeIsFirst(s);
    CutAroundCode(s, FirstCode(s));
  }

  lemma {:induction false} CutAroundCode(s: seq<byte>, i: nat)
    requires StartCodeAt(s, i)
    ensures i + CodeLen(s, i) <= |s|
    ensures s == s[..i] + (Code(CodeLen(s, i)) + s[i + CodeLen(s, i)..])
  {
    var j := i + CodeLen(s, i);
    CutInThree(s, i, j);
    assert s[i..j] == Code(CodeLen(s, i));
    Associate(s[..i], s[i..j], s[j..]);
  }

  lemma {:induction false} NoCodeBefore(s: seq<byte>)
    ensures !HasStartCode(s[..FirstCode(s)])
  {
    FirstCodeIsFirst(s);
    var t := s[..FirstCode(s)];
    assert forall i: nat | ThreeByteCodeAt(t, i) :: i < |t| && StartCodeAt(s, i);
  }

  /** What follows a unit is empty or starts with a start code, of the same length. */
  lemma {:induction false} RestStartsAtCode(body: seq<byte>)
    ensures var rest := body[FirstCode(body)..];
      && FirstCode(rest) == 0
      && (rest != [] ==> AfterCode(rest) == AfterCode(body)
                         && CodeLen(rest, 0) == CodeLen(body, FirstCode(body)))
  {
    var n := FirstCode(body);
    FirstCodeIsFirst(body);
    if n < |body| {
      assert FourByteCodeAt(body, n) == FourByteCodeAt(body[n..], 0);
      assert ThreeByteCodeAt(body, n) == ThreeByteCodeAt(body[n..], 0);
    }
  }

  lemma {:induction false} NonEmptyUnitsClean(segs: seq<Segment>)
    requires forall k | 0 <= k < |segs| :: !HasStartCode(segs[k].unit)
    ensures Clean(NonEmptyUnits(segs)) && AllNonEmpty(NonEmptyUnits(segs))
  {
    if segs != [] {
      NonEmptyUnitsClean(segs[1..]);
    }
  }

  /** No unit a scanner returns is empty or contains 00 00 01. */
  lemma {:induction false} UnitsAreClean(s: seq<byte>)
    ensures Clean(Nalus(s)) && AllNonEmpty(Nalus(s))
  {
    SplitIsClean(s);
    NonEmptyUnitsClean(Segments(s));
  }

  // ---------- The split is the only one ----------

  /** A start-code-free piece and then segments, all their units start-code free, each start code
      with every zero byte it can claim. */
  ghost predicate ProperlyCut(front: seq<byte>, segs: seq<Segment>)
    decreases segs
  {
    && !HasStartCode(front)
    && (segs != [] ==>
          && (segs[0].codeLen == 4 || (segs[0].codeLen == 3 && NotEndingInZero(front)))
          && ProperlyCut(segs[0].unit, segs[1..]))
  }

  predicate NotEndingInZero(s: seq<byte>) {
    s == [] || s[|s| - 1] != 0
  }

  /** A unit without 00 00 01, trailing zero bytes included, ends exactly where a four-byte code
      begins; before a three-byte code it must not end in a zero byte. */
  lemma {:induction false} UnitEndsAtCode(u: seq<byte>, rest: seq<byte>)
    requires !HasStartCode(u)
    requires rest == [] || FourByteCodeAt(rest, 0) || (ThreeByteCodeAt(rest, 0) && NotEndingInZero(u))
    ensures FirstCode(u + rest) == |u|
  {
    var s := u + rest;
    assert rest != [] ==> StartCodeAt(rest, 0) && (StartCodeAt(s, |u|) <== StartCodeAt(rest, 0));
    assert forall j: nat | j < |u| && ThreeByteCodeAt(s, j) :: j + 3 <= |u| ==> ThreeByteCodeAt(u, j);
    assert forall j: nat | j <= |u| && ThreeByteCodeAt(s, j) :: j + 3 <= |u| || s[j + 2] == rest[j + 2 - |u|];
    assert forall i: nat | FourByteCodeAt(s, i) :: ThreeByteCodeAt(s, i + 1);
    FirstCodeUnique(s, |u|);
  }

  lemma {:induction false} SegmentsFromCode(body: seq<byte>)
    ensures Segments(body) == Segments(body[FirstCode(body)..])
  {
    RestStartsAtCode(body);
  }

  lemma {:induction false} CodeClaimsZeros(s: seq<byte>)
    requires FirstCode(s) < |s| && CodeLen(s, FirstCode(s)) == 3
    ensures NotEndingInZero(s[..FirstCode(s)])
  {
    var n := FirstCode(s);
    FirstCodeIsFirst(s);
    if n > 0 {
      assert !StartCodeAt(s, n - 1) && ThreeByteCodeAt(s, n);
    }
  }

  lemma {:induction false} SplitIsProper(s: seq<byte>)
    ensures ProperlyCut(s[..FirstCode(s)], Segments(s))
    decreases |s|
  {
    NoCodeBefore(s);
    if FirstCode(s) < |s| {
      var body := AfterCode(s);
      if CodeLen(s, FirstCode(s)) == 3 {
        CodeClaimsZeros(s);
      }
      SplitIsProper(body);
      SegmentsFromCode(body);
    }
  }

  lemma {:induction false} CutStep(front: seq<byte>, g: Segment, rest: seq<byte>)
    requires !HasStartCode(front) && FirstCode(g.unit + rest) == |g.unit|
    requires g.codeLen == 4 || (g.codeLen == 3 && NotEndingInZero(front))
    ensures var s := front + (Code(g.codeLen) + g.unit + rest);
      FirstCode(s) == |front| && Segments(s) == [g] + Segments(g.unit + rest)
  {
    var tail := Code(g.codeLen) + g.unit + rest;
    var s := front + tail;
    assert g.codeLen == 4 ==> FourByteCodeAt(tail, 0);
    assert g.codeLen == 3 ==> ThreeByteCodeAt(tail, 0) && !FourByteCodeAt(tail, 0);
    UnitEndsAtCode(front, tail);
    assert FourByteCodeAt(s, |front|) == FourByteCodeAt(tail, 0);
    BodyAfterCode(front, g.codeLen, g.unit, rest);
    hide FirstCode, AfterCode, Segments, FourByteCodeAt, ThreeByteCodeAt;
    SegmentsFromCode(g.unit + rest);
    assert (g.unit + rest)[|g.unit|..] == rest;
    FirstSegment(s, g.unit, rest);
  }

  lemma {:induction false} BodyAfterCode(front: seq<byte>, codeLen: nat, u: seq<byte>, rest: seq<byte>)
    requires FirstCode(front + (Code(codeLen) + u + rest)) == |front|
    requires CodeLen(front + (Code(codeLen) + u + rest), |front|) == codeLen
    ensures AfterCode(front + (Code(codeLen) + u + rest)) == u + rest
  {
    Associate(Code(codeLen), u, rest);
    Associate(front, Code(codeLen), u + rest);
    hide FirstCode;
  }

  /** Any proper cut of a byte string is the scanners' own. */
  lemma {:induction false} ProperCutIsUnique(front: seq<byte>, segs: seq<Segment>)
    requires ProperlyCut(front, segs)
    ensures FirstCode(front + JoinSegments(segs)) == |front|
    ensures Segments(front + JoinSegments(segs)) == segs
    decreases segs
  {
    hide Segments, FirstCode, Code;
    if segs == [] {
      UnitEndsAtCode(front, []);
      NoSegments(front + []);
    } else {
      ProperCutIsUnique(segs[0].unit, segs[1..]);
      CutStep(front, segs[0], JoinSegments(segs[1..]));
      assert segs == [segs[0]] + segs[1..];
    }
  }

  lemma {:induction false} NoSegments(s: seq<byte>)
    requires FirstCode(s) == |s|
    ensures Segments(s) == []
  {
  }

  /** Without its last segment a proper cut is one, and a last code of three bytes does not follow a
      zero byte. */
  lemma {:induction false} DropLast(front: seq<byte>, segs: seq<Segment>)
    requires ProperlyCut(front, segs) && segs != []
    ensures var init, g := segs[..|segs| - 1], segs[|segs| - 1];
      && ProperlyCut(front, init)
      && front + JoinSegments(segs) == front + JoinSegments(init) + (Code(g.codeLen) + g.unit)
      && (g.codeLen == 4 || (g.codeLen == 3 && NotEndingInZero(front + JoinSegments(init))))
    decreases segs
  {
    var init, g := segs[..|segs| - 1], segs[|segs| - 1];
    if |segs| == 1 {
      assert init == [] && segs[1..] == [] && front + [] == front;
    } else {
      var h := segs[0];
      DropLast(h.unit, segs[1..]);
      assert segs[1..][..|segs| - 2] == init[1..] && init[0] == h;
      assert Code(h.codeLen) != [] && Code(h.codeLen)[|Code(h.codeLen)| - 1] == 1;
      var code, mid := Code(h.codeLen), JoinSegments(init[1..]);
      hide Code, HasStartCode, NotEndingInZero;
      Associate(code, h.unit, JoinSegments(segs[1..]));
      Associate(code, h.unit, mid);
      Associate(code, h.unit + mid, Code(g.codeLen) + g.unit);
      Associate(front, JoinSegments(init), Code(g.codeLen) + g.unit);
      Associate(front, code, h.unit + mid);
      if g.codeLen == 3 {
        EndsLike(front + code, h.unit + mid);
      }
    }
  }

  lemma {:induction false} EndsLike(s: seq<byte>, t: seq<byte>)
    requires s != [] && s[|s| - 1] != 0 && NotEndingInZero(t)
    ensures NotEndingInZero(s + t)
  {
  }

  /** The last segment of a byte string and what is before it. */
  lemma {:induction false} LastSegment(s: seq<byte>) returns (before: seq<byte>, g: Segment)
    requires Segments(s) != []
    ensures s == before + (Code(g.codeLen) + g.unit)
    ensures Segments(s) == Segments(before) + [g]
    ensures g.codeLen == 4 || (g.codeLen == 3 && NotEndingInZero(before))
  {
    hide Segments, FirstCode, Code, ProperlyCut, JoinSegments, NotEndingInZero;
    var segs := Segments(s);
    var init, front := segs[..|segs| - 1], s[..FirstCode(s)];
    g := segs[|segs| - 1];
    before := front + JoinSegments(init);
    SplitIsProper(s);
    SplitIsLossless(s);
    DropLast(front, segs);
    ProperCutIsUnique(front, init);
  }

  // ---------- Printing then splitting ----------

  function NonEmpty(units: seq<seq<byte>>): seq<seq<byte>> {
    if units == [] then []
    else (if units[0] == [] then [] else [units[0]]) + NonEmpty(units[1..])
  }

  lemma {:induction false} PrintedHead(u: seq<byte>, rest: seq<byte>)
    requires !HasStartCode(u)
    requires rest == [] || FourByteCodeAt(rest, 0)
    ensures Segments(START_CODE + u + rest) == [Segment(4, u)] + Segments(rest)
  {
    var s := START_CODE + u + rest;
    assert FourByteCodeAt(s, 0);
    FirstCodeUnique(s, 0);
    assert AfterCode(s) == u + rest;
    UnitEndsAtCode(u, rest);
    FirstSegment(s, u, rest);
  }

  /** Printed units come back in order; only empty ones disappear. */
  lemma {:induction false} PrintThenSplit(units: seq<seq<byte>>)
    requires Clean(units)
    ensures Nalus(Print(units)) == NonEmpty(units)
  {
    if units != [] {
      PrintedHead(units[0], Print(units[1..]));
      PrintThenSplit(units[1..]);
    }
  }

  lemma {:induction false} NonEmptyIdentity(units: seq<seq<byte>>)
    requires AllNonEmpty(units)
    ensures NonEmpty(units) == units
  {
    if units != [] {
      NonEmptyIdentity(units[1..]);
    }
  }

  /** A list of units survives printing and splitting exactly when every unit is
      non-empty and free of 00 00 01. */
  lemma {:induction false} PrintSplitRoundTrip(units: seq<seq<byte>>)
    ensures Nalus(Print(units)) == units <==> Clean(units) && AllNonEmpty(units)
  {
    UnitsAreClean(Print(units));
    if Clean(units) && AllNonEmpty(units) {
      PrintThenSplit(units);
      NonEmptyIdentity(units);
    }
  }
}
