/** Length-prefixed H.264 samples (ISO/IEC 14496-15, clause 5) with four-byte lengths. */
module Avcc {
  import opened Bytes

  predicate Encodable(units: seq<seq<byte>>) {
    forall i | 0 <= i < |units| :: |units[i]| < U32_LIMIT
  }

  function LengthPrefixed(units: seq<seq<byte>>): seq<byte>
    requires Encodable(units)
  {
    if units == [] then []
    else ToBigEndian32(|units[0]|) + units[0] + LengthPrefixed(units[1..])
  }

  /** The units of a length-prefixed sample and the bytes after the last complete unit;
      `None` when a declared length exceeds what is left. */
  function Parse(data: seq<byte>): Option<(seq<seq<byte>>, seq<byte>)>
    decreases |data|
  {
    if |data| < 4 then Some(([], data))
    else
      var n := FromBigEndian32(data[..4]);
      if 4 + n > |data| then None
      else
        Prepend([data[4..4 + n]], Parse(data[4 + n..]))
  }

  function Prepend(done: seq<seq<byte>>, parsed: Option<(seq<seq<byte>>, seq<byte>)>)
    : Option<(seq<seq<byte>>, seq<byte>)>
  {
    match parsed
    case None => None
    case Some((units, tail)) => Some((done + units, tail))
  }

  lemma {:induction false} PrependTwice(us: seq<seq<byte>>, vs: seq<seq<byte>>,
                                        parsed: Option<(seq<seq<byte>>, seq<byte>)>)
    ensures Prepend(us, Prepend(vs, parsed)) == Prepend(us + vs, parsed)
  {
    if parsed.Some? {
      Associate(us, vs, parsed.value.0);
    }
  }

  // ---------- Parsing with a moving cursor ----------

  /** `done` are the units before `pos`, and the parse of the rest decides the parse. */
  ghost predicate ParsedSoFar(data: seq<byte>, done: seq<seq<byte>>, pos: nat) {
    pos <= |data| && Parse(data) == Prepend(done, Parse(data[pos..]))
  }

  lemma {:induction false} ParsedSoFarInit(data: seq<byte>)
    ensures ParsedSoFar(data, [], 0)
  {
    assert data[0..] == data;
    if Parse(data).Some? {
      assert [] + Parse(data).value.0 == Parse(data).value.0;
    }
  }

  lemma {:induction false} ParseStep(data: seq<byte>, done: seq<seq<byte>>, pos: nat)
    requires pos + 4 <= |data| && ParsedSoFar(data, done, pos)
    ensures var n := FromBigEndian32(data[pos..pos + 4]);
      if pos + 4 + n > |data| then Parse(data) == None
      else ParsedSoFar(data, done + [data[pos + 4..pos + 4 + n]], pos + 4 + n)
  {
    var rest := data[pos..];
    var n := FromBigEndian32(data[pos..pos + 4]);
    assert rest[..4] == data[pos..pos + 4];
    if 4 + n <= |rest| {
      assert rest[4..4 + n] == data[pos + 4..pos + 4 + n];
      assert rest[4 + n..] == data[pos + 4 + n..];
      PrependTwice(done, [rest[4..4 + n]], Parse(rest[4 + n..]));
    }
  }

  lemma {:induction false} ParsedSoFarEnd(data: seq<byte>, done: seq<seq<byte>>, pos: nat)
    requires pos <= |data| < pos + 4 && ParsedSoFar(data, done, pos)
    ensures Parse(data) == Some((done, data[pos..]))
  {
    assert done + [] == done;
  }

  // ---------- Printing and parsing ----------

  lemma {:induction false} ParseOne(u: seq<byte>, rest: seq<byte>)
    requires |u| < U32_LIMIT
    ensures Parse(ToBigEndian32(|u|) + u + rest) == Prepend([u], Parse(rest))
  {
    var prefix := ToBigEndian32(|u|);
    var data := prefix + u + rest;
    assert data[..4] == prefix;
    BigEndianRoundTrip(|u|, prefix);
    assert data[4..4 + |u|] == u;
    assert data[4 + |u|..] == rest;
  }

  /** Parsing recovers exactly what was printed, followed by fewer than four spare bytes. */
  lemma {:induction false} ParsePrinted(units: seq<seq<byte>>, tail: seq<byte>)
    requires Encodable(units) && |tail| < 4
    ensures Parse(LengthPrefixed(units) + tail) == Some((units, tail))
  {
    if units == [] {
      assert LengthPrefixed(units) + tail == tail;
    } else {
      var u, front := units[0], LengthPrefixed(units[1..]);
      Associate(ToBigEndian32(|u|) + u, front, tail);
      ParseOne(u, front + tail);
      ParsePrinted(units[1..], tail);
      assert units == [u] + units[1..];
    }
  }

  /** Conversely, whatever parses is the printing of its units and its spare bytes. */
  lemma {:induction false} PrintParsed(data: seq<byte>)
    requires Parse(data).Some?
    ensures var (units, tail) := Parse(data).value;
      Encodable(units) && |tail| < 4 && data == LengthPrefixed(units) + tail
    decreases |data|
  {
    if |data| >= 4 {
      var n := FromBigEndian32(data[..4]);
      var (units, tail) := Parse(data).value;
      PrintParsed(data[4 + n..]);
      assert units[0] == data[4..4 + n] && units[1..] == Parse(data[4 + n..]).value.0;
      BigEndianRoundTrip(n, data[..4]);
      CutInThree(data, 4, 4 + n);
      Associate(data[..4] + data[4..4 + n], LengthPrefixed(units[1..]), tail);
    }
  }

  lemma {:induction false} LengthPrefixedAppend(us: seq<seq<byte>>, vs: seq<seq<byte>>)
    requires Encodable(us) && Encodable(vs)
    ensures Encodable(us + vs)
    ensures LengthPrefixed(us + vs) == LengthPrefixed(us) + LengthPrefixed(vs)
  {
    if us == [] {
      assert us + vs == vs;
    } else {
      var ws := us + vs;
      assert ws[0] == us[0] && ws[1..] == us[1..] + vs;
      LengthPrefixedAppend(us[1..], vs);
      Associate(ToBigEndian32(|us[0]|) + us[0], LengthPrefixed(us[1..]), LengthPrefixed(vs));
    }
  }

  lemma {:induction false} LengthPrefixedSnoc(units: seq<seq<byte>>, unit: seq<byte>)
    requires Encodable(units) && |unit| < U32_LIMIT
    ensures Encodable(units + [unit])
    ensures LengthPrefixed(units + [unit]) == LengthPrefixed(units) + (ToBigEndian32(|unit|) + unit)
  {
    LengthPrefixedAppend(units, [unit]);
    assert [unit][1..] == [];
    assert LengthPrefixed([unit]) == ToBigEndian32(|unit|) + unit;
  }
}
