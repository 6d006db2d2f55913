/** The catalog's variable-length integers: seven bits a byte, low bits first, the top bit
    marking that more follow; signed values keep their sign in bit 6 of the last byte. */
module Varint {
  import opened Bytes

  function EncodeU64(value: nat): (s: seq<byte>)
    ensures |s| >= 1
  {
    if value < 0x80 then [value] else [0x80 + value % 0x80] + EncodeU64(value / 0x80)
  }

  function EncodeMagnitude(negative: bool, magnitude: nat): (s: seq<byte>)
    ensures |s| >= 1
  {
    if magnitude < 0x40 then [(if negative then 0x40 else 0) + magnitude]
    else [0x80 + magnitude % 0x80] + EncodeMagnitude(negative, magnitude / 0x80)
  }

  function EncodeI64(value: i64): seq<byte> {
    EncodeMagnitude(value < 0, if value < 0 then -(value + 1) else value)
  }

  /** `encode_u64`: pushes onto `out`, seven bits a round. */
  method PushU64(out: seq<byte>, value: nat) returns (r: seq<byte>)
    ensures r == out + EncodeU64(value)
  {
    r := out;
    var left: nat := value;
    while left >= 0x80
      invariant r + EncodeU64(left) == out + EncodeU64(value)
    {
      r := r + [0x80 + left % 0x80];
      left := left / 0x80;
    }
    r := r + [left];
  }

  /** `encode_i64`. */
  method PushI64(out: seq<byte>, value: i64) returns (r: seq<byte>)
    ensures r == out + EncodeI64(value)
  {
    var negative := value < 0;
    var magnitude: nat := if negative then -(value + 1) else value;
    r := out;
    ghost var whole := magnitude;
    while magnitude >= 0x40
      invariant r + EncodeMagnitude(negative, magnitude) == out + EncodeMagnitude(negative, whole)
    {
      r := r + [0x80 + magnitude % 0x80];
      magnitude := magnitude / 0x80;
    }
    r := r + [(if negative then 0x40 else 0) + magnitude];
  }

  // ---------------------------------------------------------------- decoding

  /** `value | (bits << shift)` on a `u64`. The bits of `value` all lie below `shift`, so the
      union is a sum; what is shifted out at the top is lost. */
  function OrShifted(value: nat, bits: nat, shift: nat): nat {
    (value + bits * Pow2(shift) % TWO_64) % TWO_64
  }

  function DecodeU64From(data: seq<byte>, pos: nat, value: nat, shift: nat): (r: Result<(nat, nat)>)
    ensures r.Ok? ==> r.value.0 < TWO_64 && pos < r.value.1 <= |data|
    decreases if pos <= |data| then |data| - pos else 0
  {
    if pos >= |data| then Err("catalog: unexpected end of data")
    else if shift >= 64 then Err("catalog: varint too long")
    else
      var b := data[pos];
      var next := OrShifted(value, b % 0x80, shift);
      if b < 0x80 then Ok((next, pos + 1)) else DecodeU64From(data, pos + 1, next, shift + 7)
  }

  /** `Cursor::u64`: the value and the position after it. */
  function DecodeU64(data: seq<byte>, pos: nat): (r: Result<(nat, nat)>)
    ensures r.Ok? ==> r.value.0 < TWO_64 && pos < r.value.1 <= |data|
  {
    DecodeU64From(data, pos, 0, 0)
  }

  /** `-(value as i64) - 1` with wrapping negation, or `value as i64`. */
  function Signed(negative: bool, value: u64): i64 {
    if negative then -1 - ToSigned(value) else ToSigned(value)
  }

  function DecodeI64From(data: seq<byte>, pos: nat, value: nat, shift: nat): (r: Result<(i64, nat)>)
    ensures r.Ok? ==> pos < r.value.1 <= |data|
    decreases if pos <= |data| then |data| - pos else 0
  {
    if pos >= |data| then Err("catalog: unexpected end of data")
    else if shift >= 64 then Err("catalog: varint too long")
    else
      var b := data[pos];
      if b >= 0x80 then DecodeI64From(data, pos + 1, OrShifted(value, b % 0x80, shift), shift + 7)
      else Ok((Signed(b / 0x40 % 2 == 1, OrShifted(value, b % 0x40, shift)), pos + 1))
  }

  function DecodeI64(data: seq<byte>, pos: nat): (r: Result<(i64, nat)>)
    ensures r.Ok? ==> pos < r.value.1 <= |data|
  {
    DecodeI64From(data, pos, 0, 0)
  }

  // ---------------------------------------------------------------- round trips

  lemma {:induction false} Pow2Add(a: nat, b: nat)
    ensures Pow2(a + b) == Pow2(a) * Pow2(b)
  {
    if a > 0 {
      Pow2Add(a - 1, b);
    }
  }

  lemma {:induction false} Pow2Monotone(a: nat, b: nat)
    requires a <= b
    ensures Pow2(a) <= Pow2(b)
  {
    if a < b {
      Pow2Monotone(a, b - 1);
    }
  }

  lemma SmallPow2()
    ensures Pow2(1) == 2 && Pow2(7) == 0x80 && Pow2(8) == 0x100
  {
  }

  lemma Pow2Is64()
    ensures Pow2(63) == TWO_63 && Pow2(64) == TWO_64 && Pow2(7) == 0x80
  {
    hide Pow2;
    SmallPow2();
    Pow2Add(8, 8);
    Pow2Add(16, 16);
    Pow2Add(32, 32);
    Pow2Add(63, 1);
  }

  /** One round: the low seven bits go in at `shift`, the rest is worth `rest << (shift + 7)`. */
  lemma SevenBits(v: nat, shift: nat)
    ensures Pow2(shift + 7) == 0x80 * Pow2(shift)
    ensures v * Pow2(shift) == v % 0x80 * Pow2(shift) + v / 0x80 * Pow2(shift + 7)
  {
    Pow2Add(7, shift);
    Pow2Is64();
    var p := Pow2(shift);
    assert v == v % 0x80 + 0x80 * (v / 0x80);
    assert v * p == v % 0x80 * p + 0x80 * (v / 0x80) * p;
    assert 0x80 * (v / 0x80) * p == v / 0x80 * (0x80 * p);
  }

  lemma OrIsSum(value: nat, bits: nat, shift: nat, total: nat)
    requires value + bits * Pow2(shift) <= total < TWO_64
    ensures OrShifted(value, bits, shift) == value + bits * Pow2(shift)
  {
  }

  /** On any bytes the result is the sum in 64 bits. */
  lemma OrIsModular(value: nat, bits: nat, shift: nat)
    ensures OrShifted(value, bits, shift) < TWO_64
    ensures exists k: nat :: OrShifted(value, bits, shift) + k * TWO_64 == value + bits * Pow2(shift)
  {
    var shifted := bits * Pow2(shift);
    var low := shifted % TWO_64;
    var k := shifted / TWO_64 + (value + low) / TWO_64;
    hide Pow2;
    assert shifted == shifted / TWO_64 * TWO_64 + low;
    assert value + low == (value + low) / TWO_64 * TWO_64 + OrShifted(value, bits, shift);
    assert OrShifted(value, bits, shift) + k * TWO_64 == value + bits * Pow2(shift);
  }

  /** On any magnitude the sign is applied as in 64-bit wrapping arithmetic. */
  lemma SignedWraps(negative: bool, value: u64)
    ensures var exact := if negative then -1 - value else value;
            Signed(negative, value) == exact || Signed(negative, value) == exact + TWO_64
            || Signed(negative, value) == exact - TWO_64
  {
  }

  lemma ShiftFits(v: nat, shift: nat, limit: nat)
    requires v >= 1 && v * Pow2(shift) < Pow2(limit)
    ensures shift < limit
  {
    assert v * Pow2(shift) >= Pow2(shift);
    if shift >= limit {
      Pow2Monotone(limit, shift);
    }
  }

  /** The last byte. */
  lemma U64Ends(data: seq<byte>, pos: nat, v: nat, value: nat, shift: nat)
    requires v < 0x80 && Occurs(data, pos, [v]) && shift < 64
    requires value + v * Pow2(shift) < TWO_64
    ensures DecodeU64From(data, pos, value, shift) == Ok((value + v * Pow2(shift), pos + 1))
  {
    hide OrShifted, Pow2, Occurs;
    FirstByte(data, pos, [v]);
    OrIsSum(value, v, shift, value + v * Pow2(shift));
  }

  /** Any other byte. */
  lemma U64GoesOn(data: seq<byte>, pos: nat, low: nat, more: seq<byte>, value: nat, shift: nat)
    requires low < 0x80 && Occurs(data, pos, [0x80 + low] + more) && shift < 64
    requires value + low * Pow2(shift) < TWO_64
    ensures Occurs(data, pos + 1, more)
    ensures DecodeU64From(data, pos, value, shift)
         == DecodeU64From(data, pos + 1, value + low * Pow2(shift), shift + 7)
  {
    hide OrShifted, Pow2, Occurs;
    OccursConcat(data, pos, [0x80 + low], more);
    FirstByte(data, pos, [0x80 + low]);
    OrIsSum(value, low, shift, value + low * Pow2(shift));
    assert (0x80 + low) % 0x80 == low;
  }

  lemma {:induction false} U64RoundTripFrom(data: seq<byte>, pos: nat, v: nat, value: nat, shift: nat)
    requires Occurs(data, pos, EncodeU64(v)) && shift < 64
    requires value + v * Pow2(shift) < TWO_64
    ensures DecodeU64From(data, pos, value, shift) == Ok((value + v * Pow2(shift), pos + |EncodeU64(v)|))
    decreases v
  {
    hide OrShifted, Pow2, Occurs;
    if v < 0x80 {
      U64Ends(data, pos, v, value, shift);
    } else {
      var low, rest := v % 0x80, v / 0x80;
      SevenBits(v, shift);
      U64GoesOn(data, pos, low, EncodeU64(rest), value, shift);
      Pow2Is64();
      ShiftFits(rest, shift + 7, 64);
      U64RoundTripFrom(data, pos + 1, rest, value + low * Pow2(shift), shift + 7);
    }
  }

  /** Every `u64` decodes to itself, with the cursor right behind it, whatever follows. */
  lemma U64RoundTrip(data: seq<byte>, pos: nat, v: u64)
    requires Occurs(data, pos, EncodeU64(v))
    ensures DecodeU64(data, pos) == Ok((v, pos + |EncodeU64(v)|))
  {
    assert Pow2(0) == 1;
    U64RoundTripFrom(data, pos, v, 0, 0);
  }

  /** The last byte of a signed value. */
  lemma MagnitudeEnds(data: seq<byte>, pos: nat, negative: bool, m: nat, value: nat, shift: nat)
    requires m < 0x40 && Occurs(data, pos, [(if negative then 0x40 else 0) + m]) && shift < 64
    requires value + m * Pow2(shift) < TWO_63
    ensures DecodeI64From(data, pos, value, shift)
         == Ok((if negative then -1 - (value + m * Pow2(shift)) else value + m * Pow2(shift), pos + 1))
  {
    hide OrShifted, Pow2, Occurs;
    FirstByte(data, pos, [(if negative then 0x40 else 0) + m]);
    OrIsSum(value, m, shift, value + m * Pow2(shift));
  }

  /** Any other byte. */
  lemma MagnitudeGoesOn(data: seq<byte>, pos: nat, low: nat, more: seq<byte>, value: nat, shift: nat)
    requires low < 0x80 && Occurs(data, pos, [0x80 + low] + more) && shift < 64
    requires value + low * Pow2(shift) < TWO_63
    ensures Occurs(data, pos + 1, more)
    ensures DecodeI64From(data, pos, value, shift)
         == DecodeI64From(data, pos + 1, value + low * Pow2(shift), shift + 7)
  {
    hide OrShifted, Pow2, Occurs;
    OccursConcat(data, pos, [0x80 + low], more);
    FirstByte(data, pos, [0x80 + low]);
    OrIsSum(value, low, shift, value + low * Pow2(shift));
    assert (0x80 + low) % 0x80 == low;
  }

  lemma {:induction false} MagnitudeRoundTripFrom(data: seq<byte>, pos: nat, negative: bool, m: nat, value: nat, shift: nat)
    requires Occurs(data, pos, EncodeMagnitude(negative, m)) && shift < 64
    requires value + m * Pow2(shift) < TWO_63
    ensures DecodeI64From(data, pos, value, shift)
         == Ok((if negative then -1 - (value + m * Pow2(shift)) else value + m * Pow2(shift),
                pos + |EncodeMagnitude(negative, m)|))
    decreases m
  {
    hide OrShifted, Pow2, Occurs;
    if m < 0x40 {
      MagnitudeEnds(data, pos, negative, m, value, shift);
    } else {
      var low, rest := m % 0x80, m / 0x80;
      SevenBits(m, shift);
      MagnitudeGoesOn(data, pos, low, EncodeMagnitude(negative, rest), value, shift);
      Pow2Is64();
      LastByteFits(m, shift);
      MagnitudeRoundTripFrom(data, pos + 1, negative, rest, value + low * Pow2(shift), shift + 7);
    }
  }

  /** A magnitude too big for the last byte leaves room for one more: `2^6 <= m`, `m << shift < 2^63`. */
  lemma LastByteFits(m: nat, shift: nat)
    requires m >= 0x40 && m * Pow2(shift) < Pow2(63)
    ensures shift + 7 < 64
  {
    hide Pow2;
    var p := Pow2(shift);
    assert 0x40 * p <= m * p by { MulMonotone(0x40, m, p); }
    assert Pow2(6 + shift) == 0x40 * p by { Pow2Add(6, shift); Pow2Of6(); }
    ShiftFits(1, 6 + shift, 63);
  }

  lemma Pow2Of6()
    ensures Pow2(6) == 0x40
  {
    assert Pow2(5) == 0x20;
  }

  lemma MulMonotone(a: nat, b: nat, p: nat)
    requires a <= b
    ensures a * p <= b * p
  {
  }

  /** Every `i64`, the least one included, decodes to itself. */
  lemma I64RoundTrip(data: seq<byte>, pos: nat, v: i64)
    requires Occurs(data, pos, EncodeI64(v))
    ensures DecodeI64(data, pos) == Ok((v, pos + |EncodeI64(v)|))
  {
    assert Pow2(0) == 1;
    MagnitudeRoundTripFrom(data, pos, v < 0, if v < 0 then -(v + 1) else v, 0, 0);
  }

  lemma {:induction false} LengthBound(v: nat, k: nat)
    requires k >= 1 && v < Pow2(7 * k)
    ensures |EncodeU64(v)| <= k
  {
    if v >= 0x80 {
      Pow2Is64();
      assert k > 1;
      Pow2Add(7, 7 * (k - 1));
      assert 7 + 7 * (k - 1) == 7 * k;
      LengthBound(v / 0x80, k - 1);
    }
  }

  lemma {:induction false} MagnitudeLengthBound(negative: bool, m: nat, k: nat)
    requires k >= 1 && 2 * m < Pow2(7 * k)
    ensures |EncodeMagnitude(negative, m)| <= k
  {
    if m >= 0x40 {
      Pow2Is64();
      assert k > 1;
      Pow2Add(7, 7 * (k - 1));
      assert 7 + 7 * (k - 1) == 7 * k;
      MagnitudeLengthBound(negative, m / 0x80, k - 1);
    }
  }

  /** No integer takes more than ten bytes. */
  lemma TenBytes(u: u64, i: i64)
    ensures |EncodeU64(u)| <= 10 && |EncodeI64(i)| <= 10
  {
    Pow2Is64();
    Pow2Monotone(64, 70);
    LengthBound(u, 10);
    MagnitudeLengthBound(i < 0, if i < 0 then -(i + 1) else i, 10);
  }

  // ---------------------------------------------------------------- the cursor

  function SliceAt(data: seq<byte>, pos: nat, len: nat): (r: Result<seq<byte>>)
    ensures r.Ok? ==> |r.value| == len && pos + len <= |data|
  {
    if pos + len >= TWO_64 then Err("catalog: length overflow")
    else if pos + len > |data| then Err("catalog: slice out of range")
    else Ok(data[pos..pos + len])
  }

  class Cursor {
    const data: seq<byte>
    var pos: nat

    constructor (data: seq<byte>, pos: nat)
      ensures this.data == data && this.pos == pos
    {
      this.data, this.pos := data, pos;
    }

    method Byte() returns (r: Result<byte>)
      modifies this
      ensures r == if old(pos) < |data| then Ok(data[old(pos)]) else Err("catalog: unexpected end of data")
      ensures pos == old(pos) + if r.Ok? then 1 else 0
    {
      if pos >= |data| {
        return Err("catalog: unexpected end of data");
      }
      r := Ok(data[pos]);
      pos := pos + 1;
    }

    method Take(len: nat) returns (r: Result<seq<byte>>)
      modifies this
      ensures r == SliceAt(data, old(pos), len)
      ensures pos == old(pos) + if r.Ok? then len else 0
    {
      if pos + len >= TWO_64 {
        return Err("catalog: length overflow");
      }
      if pos + len > |data| {
        return Err("catalog: slice out of range");
      }
      r := Ok(data[pos..pos + len]);
      pos := pos + len;
    }

    method U64() returns (r: Result<nat>)
      modifies this
      ensures match DecodeU64(data, old(pos))
              case Ok((v, end)) => r == Ok(v) && pos == end
              case Err(m) => r == Err(m)
    {
      var value, shift := 0, 0;
      ghost var goal := DecodeU64(data, pos);
      while true
        invariant DecodeU64From(data, pos, value, shift) == goal
        decreases if pos <= |data| then |data| - pos else 0
      {
        var b :- Byte();
        if shift >= 64 {
          return Err("catalog: varint too long");
        }
        value := OrShifted(value, b % 0x80, shift);
        if b < 0x80 {
          return Ok(value);
        }
        shift := shift + 7;
      }
    }

    method I64() returns (r: Result<i64>)
      modifies this
      ensures match DecodeI64(data, old(pos))
              case Ok((v, end)) => r == Ok(v) && pos == end
              case Err(m) => r == Err(m)
    {
      var value, shift := 0, 0;
      ghost var goal := DecodeI64(data, pos);
      while true
        invariant DecodeI64From(data, pos, value, shift) == goal
        decreases if pos <= |data| then |data| - pos else 0
      {
        var b :- Byte();
        if shift >= 64 {
          return Err("catalog: varint too long");
        }
        if b >= 0x80 {
          value := OrShifted(value, b % 0x80, shift);
          shift := shift + 7;
        } else {
          value := OrShifted(value, b % 0x40, shift);
          return Ok(Signed(b / 0x40 % 2 == 1, value));
        }
      }
    }
  }
}
