/** What every component shares: the result types, fixed-width integers, little-endian byte strings,
    and sequences cut in pieces. */
module Bytes {
  type byte = x: int | 0 <= x < 0x100

  const TWO_32: int := 0x1_0000_0000
  const TWO_63: int := 0x8000_0000_0000_0000
  const TWO_64: int := 0x1_0000_0000_0000_0000

  type u32 = x: int | 0 <= x < TWO_32
  type u64 = x: int | 0 <= x < TWO_64
  type i64 = x: int | -TWO_63 <= x < TWO_63

  datatype Option<+T> = None | Some(value: T)

  /** The source's `io::Result` / `Result<_, PbsError>`, with the message as the error. */
  datatype Result<+T> = Ok(value: T) | Err(error: string) {
    predicate IsFailure() {
      Err?
    }

    function PropagateFailure<U>(): Result<U>
      requires Err?
    {
      Err(error)
    }

    function Extract(): T
      requires Ok?
    {
      value
    }
  }

  function Min(a: int, b: int): int {
    if a < b then a else b
  }

  lemma ConcatIsAssociative<T>(a: seq<T>, b: seq<T>, c: seq<T>)
    ensures a + (b + c) == (a + b) + c
  {
  }

  function LastN<T>(s: seq<T>, n: nat): seq<T> {
    if |s| <= n then s else s[|s| - n..]
  }

  /** The pieces, one after another. */
  function Concat<T>(pieces: seq<seq<T>>): seq<T> {
    if pieces == [] then [] else pieces[0] + Concat(pieces[1..])
  }

  lemma {:induction false} ConcatAppend<T>(pieces: seq<seq<T>>, last: seq<T>)
    ensures Concat(pieces + [last]) == Concat(pieces) + last
    decreases |pieces|
  {
    var all := pieces + [last];
    if pieces == [] {
      assert all[1..] == [];
    } else {
      assert all[1..] == pieces[1..] + [last];
      ConcatAppend(pieces[1..], last);
      ConcatIsAssociative(pieces[0], Concat(pieces[1..]), last);
    }
  }

  /** One piece more. */
  lemma ConcatNext<T>(pieces: seq<seq<T>>, i: nat)
    requires i < |pieces|
    ensures Concat(pieces[..i + 1]) == Concat(pieces[..i]) + pieces[i]
  {
    assert pieces[..i + 1] == pieces[..i] + [pieces[i]];
    ConcatAppend(pieces[..i], pieces[i]);
  }

  lemma TakeMore<T>(s: seq<T>, m: nat, t: seq<T>, n: nat)
    requires m <= |s| && t <= s[m..] && n <= |t|
    ensures m + n <= |s| && s[..m + n] == s[..m] + t[..n]
  {
    assert t[..n] == s[m..][..n];
  }

  lemma SliceOfSlice<T>(s: seq<T>, a: nat, b: nat, c: nat, d: nat)
    requires a <= b <= |s| && c <= d <= b - a
    ensures s[a..b][c..d] == s[a + c..a + d]
  {
    var x, y := s[a..b][c..d], s[a + c..a + d];
    forall i | 0 <= i < d - c ensures x[i] == y[i] {
      assert s[a..b][c + i] == s[a + (c + i)];
    }
  }

  lemma DropTwice<T>(s: seq<T>, m: nat, n: nat)
    requires m + n <= |s|
    ensures s[m..][n..] == s[m + n..]
  {
  }

  // ---------------------------------------------------------------- integers

  function Pow2(e: nat): (p: nat)
    ensures p >= 1
  {
    if e == 0 then 1 else 2 * Pow2(e - 1)
  }

  function Pow256(n: nat): (p: nat)
    ensures p > 0
  {
    if n == 0 then 1 else 256 * Pow256(n - 1)
  }

  /** The low `n` bytes of `v`, least significant first (`to_le_bytes`, truncating like `as`). */
  function LittleEndian(v: nat, n: nat): (s: seq<byte>)
    ensures |s| == n
    decreases n, v
  {
    if n == 0 then [] else [v % 256] + LittleEndian(v / 256, n - 1)
  }

  function FromLittleEndian(s: seq<byte>): nat {
    if s == [] then 0 else s[0] + 256 * FromLittleEndian(s[1..])
  }

  lemma {:induction false} LittleEndianRoundTrip(v: nat, n: nat)
    requires v < Pow256(n)
    ensures FromLittleEndian(LittleEndian(v, n)) == v
  {
    if n > 0 {
      LittleEndianRoundTrip(v / 256, n - 1);
      assert LittleEndian(v, n)[1..] == LittleEndian(v / 256, n - 1);
    }
  }

  lemma {:induction false} FromLittleEndianBound(s: seq<byte>)
    ensures FromLittleEndian(s) < Pow256(|s|)
  {
    if s != [] {
      FromLittleEndianBound(s[1..]);
    }
  }

  /** Every byte string is the encoding of what it reads as. */
  lemma {:induction false} FromLittleEndianRoundTrip(s: seq<byte>)
    ensures LittleEndian(FromLittleEndian(s), |s|) == s
  {
    if s != [] {
      FromLittleEndianRoundTrip(s[1..]);
      assert FromLittleEndian(s) % 256 == s[0] && FromLittleEndian(s) / 256 == FromLittleEndian(s[1..]);
      assert s == [s[0]] + s[1..];
    }
  }

  function LE64(v: nat): (s: seq<byte>)
    ensures |s| == 8
  {
    LittleEndian(v, 8)
  }

  function LE32(v: nat): (s: seq<byte>)
    ensures |s| == 4
  {
    LittleEndian(v, 4)
  }

  lemma Pow256Widths()
    ensures Pow256(4) == TWO_32
    ensures Pow256(8) == TWO_64
  {
    assert Pow256(2) == 0x1_0000;
    assert Pow256(3) == 0x100_0000;
    assert Pow256(4) == TWO_32;
    assert Pow256(5) == 0x100 * TWO_32;
    assert Pow256(6) == 0x1_0000 * TWO_32;
    assert Pow256(7) == 0x100_0000 * TWO_32;
  }

  lemma LE64RoundTrip(v: u64)
    ensures FromLittleEndian(LE64(v)) == v
  {
    Pow256Widths();
    LittleEndianRoundTrip(v, 8);
  }

  lemma LE32RoundTrip(v: u32)
    ensures FromLittleEndian(LE32(v)) == v
  {
    Pow256Widths();
    LittleEndianRoundTrip(v, 4);
  }

  /** `v as u64` for an `i64`: two's complement. */
  function ToUnsigned(v: i64): u64 {
    if v < 0 then v + TWO_64 else v
  }

  /** `v as i64` for a `u64`. */
  function ToSigned(v: u64): i64 {
    if v >= TWO_63 then v - TWO_64 else v
  }

  // ---------------------------------------------------------------- byte strings

  /** `s` stands in `data` at offset `at`. */
  ghost predicate Occurs(data: seq<byte>, at: nat, s: seq<byte>) {
    at + |s| <= |data| && data[at..at + |s|] == s
  }

  lemma OccursConcat(data: seq<byte>, at: nat, a: seq<byte>, b: seq<byte>)
    ensures Occurs(data, at, a + b) <==> Occurs(data, at, a) && Occurs(data, at + |a|, b)
  {
    if at + |a| + |b| <= |data| {
      var x, y := data[at..at + |a|], data[at + |a|..at + |a| + |b|];
      assert data[at..at + |a + b|] == x + y;
      assert (x + y)[..|a|] == x && (x + y)[|a|..] == y;
      assert (a + b)[..|a|] == a && (a + b)[|a|..] == b;
    }
  }

  lemma FirstByte(data: seq<byte>, at: nat, s: seq<byte>)
    requires Occurs(data, at, s) && s != []
    ensures at < |data| && data[at] == s[0]
  {
    assert data[at..at + |s|][0] == s[0];
  }

  lemma OccursWhole(data: seq<byte>)
    ensures Occurs(data, 0, data)
  {
    assert data[0..|data|] == data;
  }
}
