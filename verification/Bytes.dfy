/** Bytes, big-endian 32-bit lengths, and the result types shared by the other modules. */
module Bytes {

  newtype byte = x: int | 0 <= x < 256

  datatype Option<+T> = None | Some(value: T)

  datatype Result<+T> = Ok(value: T) | Err

  /** What a call does that indexes slices: it returns, or an index is out of bounds and it panics. */
  datatype Outcome<+T> = Returned(value: T) | OutOfBounds

  const U32_LIMIT: nat := 0x1_0000_0000

  /** `u32::to_be_bytes`. */
  function ToBigEndian32(n: nat): (b: seq<byte>)
    requires n < U32_LIMIT
    ensures |b| == 4
  {
    [(n / 0x100_0000) as byte, (n / 0x1_0000 % 256) as byte, (n / 0x100 % 256) as byte, (n % 256) as byte]
  }

  /** `u32::from_be_bytes`. */
  function FromBigEndian32(b: seq<byte>): (n: nat)
    requires |b| == 4
    ensures n < U32_LIMIT
  {
    b[0] as int * 0x100_0000 + b[1] as int * 0x1_0000 + b[2] as int * 0x100 + b[3] as int
  }

  /** The two conversions undo each other in both directions. */
  lemma {:induction false} BigEndianRoundTrip(n: nat, b: seq<byte>)
    requires n < U32_LIMIT && |b| == 4
    ensures FromBigEndian32(ToBigEndian32(n)) == n
    ensures ToBigEndian32(FromBigEndian32(b)) == b
  {
    DigitsOf(b[0] as int, b[1] as int, b[2] as int, b[3] as int);
    var m := FromBigEndian32(b);
    var d := ToBigEndian32(m);
    assert d[0] == b[0] && d[1] == b[1] && d[2] == b[2] && d[3] == b[3];
    NumberOf(n);
  }

  lemma {:induction false} NumberOf(n: nat)
    ensures n == n / 0x100_0000 * 0x100_0000 + n / 0x1_0000 % 256 * 0x1_0000 + n / 0x100 % 256 * 0x100 + n % 256
  {
    assert n / 0x1_0000 == n / 0x100 / 256;
    assert n / 0x100_0000 == n / 0x1_0000 / 256;
  }

  lemma {:induction false} DigitsOf(a: nat, b: nat, c: nat, d: nat)
    requires a < 256 && b < 256 && c < 256 && d < 256
    ensures var m := a * 0x100_0000 + b * 0x1_0000 + c * 0x100 + d;
      m / 0x100_0000 == a && m / 0x1_0000 % 256 == b && m / 0x100 % 256 == c && m % 256 == d
  {
    var m := a * 0x100_0000 + b * 0x1_0000 + c * 0x100 + d;
    assert m / 0x1_0000 == a * 256 + b;
    assert m / 0x100 == a * 0x1_0000 + b * 0x100 + c;
  }

  lemma {:induction false} Associate<T>(a: seq<T>, b: seq<T>, c: seq<T>)
    ensures a + b + c == a + (b + c)
  {
  }

  lemma {:induction false} CutInTwo<T>(s: seq<T>, n: nat)
    requires n <= |s|
    ensures s == s[..n] + s[n..]
  {
  }

  lemma {:induction false} CutInThree<T>(s: seq<T>, m: nat, n: nat)
    requires m <= n <= |s|
    ensures s == s[..m] + s[m..n] + s[n..]
  {
  }

  /** Concatenation of a list of sequences. */
  function Flatten<T>(ss: seq<seq<T>>): seq<T> {
    if ss == [] then [] else ss[0] + Flatten(ss[1..])
  }

  lemma {:induction false} FlattenAppend<T>(ss: seq<seq<T>>, ts: seq<seq<T>>)
    ensures Flatten(ss + ts) == Flatten(ss) + Flatten(ts)
  {
    if ss == [] {
      assert ss + ts == ts;
    } else {
      assert (ss + ts)[1..] == ss[1..] + ts;
      FlattenAppend(ss[1..], ts);
    }
  }

  lemma {:induction false} FlattenSnoc<T>(ss: seq<seq<T>>, t: seq<T>)
    ensures Flatten(ss + [t]) == Flatten(ss) + t
  {
    FlattenAppend(ss, [t]);
    assert Flatten([t]) == t + Flatten([]);
  }

  lemma {:induction false} FlattenPrefix<T>(ss: seq<seq<T>>, i: nat)
    requires i < |ss|
    ensures Flatten(ss[..i + 1]) == Flatten(ss[..i]) + ss[i]
  {
    FlattenSnoc(ss[..i], ss[i]);
    assert ss[..i + 1] == ss[..i] + [ss[i]];
  }
}
