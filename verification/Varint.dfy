/** Variable-length integers: 7 bits a byte, least significant group first, high bit set on all but the last. */
module Varint {
  import opened Wrappers
  import opened ByteStrings

  // ----- Encoding

  function EncodeVarint(v: nat): (b: Bytes)
    ensures |b| >= 1
  {
    if v < 0x80 then [v] else [v % 0x80 + 0x80] + EncodeVarint(v / 0x80)
  }

  method PutVarint64(out: Bytes, value: u64) returns (out': Bytes)
    ensures out' == out + EncodeVarint(value)
  {
    out' := out;
    var v: nat := value;
    while v >= 0x80
      invariant out' + EncodeVarint(v) == out + EncodeVarint(value)
    {
      ghost var before := out';
      out' := out' + [v % 0x80 + 0x80];
      assert out' + EncodeVarint(v / 0x80) == before + EncodeVarint(v);
      v := v / 0x80;
    }
    out' := out' + [v];
  }

  method PutVarint32(out: Bytes, value: u32) returns (out': Bytes)
    ensures out' == out + EncodeVarint(value)
  {
    out' := PutVarint64(out, value);
  }

  // ----- Decoding

  const MAX_VARINT_LEN := 10

  // The number spelled by the 7-bit groups from `p` on, at most n of them, and the position after the last.
  function ReadGroups(buf: Bytes, p: nat, n: nat): (r: Option<(nat, nat)>)
    ensures r.Some? ==> p < r.value.1 <= |buf|
    decreases n
  {
    if p >= |buf| || n == 0 then None
    else if buf[p] < 0x80 then Some((buf[p], p + 1))
    else
      match ReadGroups(buf, p + 1, n - 1)
      case Some((v, end)) => Some((buf[p] - 0x80 + 0x80 * v, end))
      case None => None
  }

  // The value decoded at `pos` and the position after it; None when the bytes run out or run too long.
  // Bits past the 64th are lost.
  function Varint64At(buf: Bytes, pos: nat): (r: Option<(u64, nat)>)
    ensures r.Some? ==> pos < r.value.1 <= |buf|
  {
    match ReadGroups(buf, pos, MAX_VARINT_LEN)
    case Some((v, end)) => Some((v % U64_LIMIT, end))
    case None => None
  }

  function Varint32At(buf: Bytes, pos: nat): (r: Option<(u32, nat)>)
    ensures r.Some? ==> pos < r.value.1 <= |buf|
  {
    match Varint64At(buf, pos)
    case Some((v, end)) => if v < U32_LIMIT then Some((v, end)) else None
    case None => None
  }

  // One byte's payload moved to its place; bits pushed past the 64th are lost.
  function ShiftIn(b: byte, shift: nat): u64 {
    (b % 0x80 * Pow2(shift)) % U64_LIMIT
  }

  // What the decoding loop still has to return when it stands at p with `acc` gathered.
  ghost function Continue(buf: Bytes, p: nat, n: nat, shift: nat, acc: u64): Option<(u64, nat)> {
    match ReadGroups(buf, p, n)
    case Some((v, end)) => Some(((acc + v * Pow2(shift)) % U64_LIMIT, end))
    case None => None
  }

  // The accumulator stays below 2^shift, so or-ing the next group into it is addition; `% U64_LIMIT`
  // keeps the sum in range. On failure the program leaves the position alone, as `None` says.
  method GetVarint64(buf: Bytes, pos: nat) returns (r: Option<(u64, nat)>)
    ensures r == Varint64At(buf, pos)
  {
    var result: u64 := 0;
    var shift := 0;
    var p := pos;
    ghost var n := MAX_VARINT_LEN;
    while true
      invariant 1 <= n <= MAX_VARINT_LEN && shift == 7 * (MAX_VARINT_LEN - n) && p >= pos
      invariant Varint64At(buf, pos) == Continue(buf, p, n, shift, result)
      decreases n
    {
      if p >= |buf| {
        return None;
      }
      var b := buf[p];
      LoopStep(buf, p, n, shift, result);
      p := p + 1;
      result := (result + ShiftIn(b, shift)) % U64_LIMIT;
      if b < 0x80 {
        return Some((result, p));
      }
      shift := shift + 7;
      n := n - 1;
      if shift >= 64 {
        return None;
      }
    }
  }

  lemma LoopStep(buf: Bytes, p: nat, n: nat, shift: nat, acc: u64)
    requires p < |buf| && n >= 1
    ensures var acc' := (acc + ShiftIn(buf[p], shift)) % U64_LIMIT;
            Continue(buf, p, n, shift, acc) ==
            if buf[p] < 0x80 then Some((acc', p + 1)) else Continue(buf, p + 1, n - 1, shift + 7, acc')
  {
    var rest := ReadGroups(buf, p + 1, n - 1);
    if buf[p] < 0x80 {
      LastGroup(acc, buf[p], shift);
    } else if rest.Some? {
      MoreGroups(acc, buf[p], rest.value.0, shift);
    }
  }

  lemma LastGroup(acc: u64, b: byte, shift: nat)
    requires b < 0x80
    ensures (acc + b * Pow2(shift)) % U64_LIMIT == (acc + ShiftIn(b, shift)) % U64_LIMIT
  {
    assert b % 0x80 == b;
    TermModulo(acc, b * Pow2(shift));
  }

  lemma TermModulo(acc: u64, term: nat)
    ensures (acc + term) % U64_LIMIT == (acc + term % U64_LIMIT) % U64_LIMIT
  {
  }

  lemma MoreGroups(acc: u64, b: byte, v: nat, shift: nat)
    requires b >= 0x80
    ensures (acc + (b - 0x80 + 0x80 * v) * Pow2(shift)) % U64_LIMIT ==
            ((acc + ShiftIn(b, shift)) % U64_LIMIT + v * Pow2(shift + 7)) % U64_LIMIT
  {
    assert b % 0x80 == b - 0x80;
    Pow2Step(shift);
    GroupShift(acc, b - 0x80, v, Pow2(shift));
  }

  lemma GroupShift(acc: u64, group: nat, v: nat, p: nat)
    ensures (acc + (group + 0x80 * v) * p) % U64_LIMIT ==
            ((acc + (group * p) % U64_LIMIT) % U64_LIMIT + v * (0x80 * p)) % U64_LIMIT
  {
    GroupJoin(group, v, p);
    assert v * (0x80 * p) >= 0 && group * p >= 0;
    GroupModulo(acc, group * p, v * (0x80 * p));
  }

  lemma GroupJoin(group: nat, v: nat, p: nat)
    ensures (group + 0x80 * v) * p == group * p + v * (0x80 * p)
  {
    assert (0x80 * v) * p == v * (0x80 * p);
    assert (group + 0x80 * v) * p == group * p + (0x80 * v) * p;
  }

  // Truncating along the way or at the end is the same.
  lemma GroupModulo(acc: u64, term: nat, rest: nat)
    ensures (acc + term + rest) % U64_LIMIT == ((acc + term % U64_LIMIT) % U64_LIMIT + rest) % U64_LIMIT
  {
  }

  method GetVarint32(buf: Bytes, pos: nat) returns (r: Option<(u32, nat)>)
    ensures r == Varint32At(buf, pos)
  {
    var v := GetVarint64(buf, pos);
    match v
    case None => return None;
    case Some((n, end)) =>
      if n >= U32_LIMIT {
        return None;
      }
      return Some((n, end));
  }

  // ----- Encoding and decoding undo each other

  // `part` stands in `buf` at `pos`.
  ghost predicate At(buf: Bytes, pos: nat, part: Bytes) {
    pos + |part| <= |buf| && forall i :: 0 <= i < |part| ==> buf[pos + i] == part[i]
  }

  lemma AtIsSlice(buf: Bytes, pos: nat, part: Bytes)
    ensures At(buf, pos, part) <==> pos + |part| <= |buf| && buf[pos..pos + |part|] == part
  {
    if At(buf, pos, part) {
      assert buf[pos..pos + |part|] == part;
    }
    if pos + |part| <= |buf| && buf[pos..pos + |part|] == part {
      assert forall i :: 0 <= i < |part| ==> buf[pos..pos + |part|][i] == part[i];
    }
  }

  lemma AtSplit(buf: Bytes, pos: nat, a: Bytes, b: Bytes)
    requires At(buf, pos, a + b)
    ensures At(buf, pos, a) && At(buf, pos + |a|, b)
  {
    assert forall i :: 0 <= i < |a| ==> (a + b)[i] == a[i];
    assert forall i :: 0 <= i < |b| ==> (a + b)[|a| + i] == b[i];
  }

  lemma AtConcat(pre: Bytes, part: Bytes, post: Bytes)
    ensures At(pre + part + post, |pre|, part)
  {
  }

  lemma AtInPrefix(whole: Bytes, pre: Bytes, part: Bytes)
    requires pre + part <= whole
    ensures At(whole, |pre|, part)
  {
    assert At(whole, 0, pre + part);
    AtSplit(whole, 0, pre, part);
  }

  lemma Pow2Step(n: nat)
    ensures Pow2(n + 7) == 0x80 * Pow2(n)
  {
    assert Pow2(n + 2) == 4 * Pow2(n);
    assert Pow2(n + 4) == 4 * Pow2(n + 2);
    assert Pow2(n + 6) == 4 * Pow2(n + 4);
  }

  lemma FirstByte(buf: Bytes, p: nat, v: nat)
    requires At(buf, p, EncodeVarint(v))
    ensures p < |buf| && buf[p] == (if v < 0x80 then v else v % 0x80 + 0x80)
    ensures v >= 0x80 ==> At(buf, p + 1, EncodeVarint(v / 0x80))
  {
    var enc := EncodeVarint(v);
    assert buf[p + 0] == enc[0];
    if v >= 0x80 {
      AtSplit(buf, p, [enc[0]], EncodeVarint(v / 0x80));
    }
  }

  lemma {:induction false} ReadGroupsEncoded(buf: Bytes, p: nat, v: nat, n: nat)
    requires At(buf, p, EncodeVarint(v)) && |EncodeVarint(v)| <= n
    ensures ReadGroups(buf, p, n) == Some((v, p + |EncodeVarint(v)|))
    decreases n
  {
    FirstByte(buf, p, v);
    if v >= 0x80 {
      ReadGroupsEncoded(buf, p + 1, v / 0x80, n - 1);
    }
  }

  // n groups hold any number below 128^n.
  function Pow128(n: nat): nat {
    if n == 0 then 1 else 0x80 * Pow128(n - 1)
  }

  lemma {:induction false} EncodedLength(v: nat, n: nat)
    requires n >= 1 && v < Pow128(n)
    ensures |EncodeVarint(v)| <= n
  {
    if v >= 0x80 {
      assert n > 1;
      EncodedLength(v / 0x80, n - 1);
    }
  }

  lemma TenGroupsHoldU64()
    ensures Pow128(MAX_VARINT_LEN) >= U64_LIMIT
  {
    assert Pow128(2) == 0x4000;
    assert Pow128(4) == 0x4000 * 0x4000;
    assert Pow128(6) == 0x4000 * 0x4000 * 0x4000;
    assert Pow128(8) == 0x4000 * 0x4000 * 0x4000 * 0x4000;
  }

  lemma EncodedIsShort(v: u64)
    ensures 1 <= |EncodeVarint(v)| <= 10
  {
    TenGroupsHoldU64();
    EncodedLength(v, MAX_VARINT_LEN);
  }

  // Reading back inside any surrounding buffer: the value, 1 to 10 bytes, and exactly those bytes consumed.
  lemma VarintRoundTrip(buf: Bytes, pos: nat, v: u64)
    requires At(buf, pos, EncodeVarint(v))
    ensures Varint64At(buf, pos) == Some((v, pos + |EncodeVarint(v)|))
    ensures v < U32_LIMIT ==> Varint32At(buf, pos) == Some((v, pos + |EncodeVarint(v)|))
    ensures v >= U32_LIMIT ==> Varint32At(buf, pos) == None
    ensures 1 <= |EncodeVarint(v)| <= 10
  {
    TenGroupsHoldU64();
    EncodedIsShort(v);
    ReadGroupsEncoded(buf, pos, v, MAX_VARINT_LEN);
  }

  lemma Varint64RoundTrip(buf: Bytes, pos: nat, v: u64, end: nat)
    requires At(buf, pos, EncodeVarint(v)) && end == pos + |EncodeVarint(v)|
    ensures Varint64At(buf, pos) == Some((v, end))
  {
    VarintRoundTrip(buf, pos, v);
  }

  lemma Varint32RoundTrip(buf: Bytes, pos: nat, v: u32, end: nat)
    requires At(buf, pos, EncodeVarint(v)) && end == pos + |EncodeVarint(v)|
    ensures Varint32At(buf, pos) == Some((v, end))
  {
    VarintRoundTrip(buf, pos, v);
  }

  // Byte i holds digit i to base 128, least significant first, and says whether more follow ...
  lemma {:induction false} VarintDigit(v: nat, i: nat)
    requires i < |EncodeVarint(v)|
    ensures Pow128(i) > 0 && EncodeVarint(v)[i] == v / Pow128(i) % 0x80 + if i + 1 < |EncodeVarint(v)| then 0x80 else 0
  {
    if i > 0 {
      VarintDigit(v / 0x80, i - 1);
      DivDiv(v, 0x80, Pow128(i - 1));
    }
  }

  // ... and there are as many as the number needs.
  lemma {:induction false} VarintIsMinimal(v: nat)
    ensures v < Pow128(|EncodeVarint(v)|)
    ensures |EncodeVarint(v)| > 1 ==> v >= Pow128(|EncodeVarint(v)| - 1)
  {
    if v >= 0x80 {
      VarintIsMinimal(v / 0x80);
    }
  }

  // ----- Signed values: zigzag

  type i64 = n: int | -0x8000_0000_0000_0000 <= n < 0x8000_0000_0000_0000

  // (v << 1) ^ (v >> 63): the doubled value, complemented when v is negative
  function ZigZag(v: i64): u64 {
    if v >= 0 then 2 * v else -2 * v - 1
  }

  // (u >> 1) ^ -(u & 1)
  function UnZigZag(u: u64): i64 {
    if u % 2 == 0 then u / 2 else -(u / 2) - 1
  }

  function VarSigned64At(buf: Bytes, pos: nat): (r: Option<(i64, nat)>)
    ensures r.Some? ==> pos < r.value.1 <= |buf|
  {
    match Varint64At(buf, pos)
    case Some((u, end)) => Some((UnZigZag(u), end))
    case None => None
  }

  method PutVarSigned64(out: Bytes, v: i64) returns (out': Bytes)
    ensures out' == out + EncodeVarint(ZigZag(v))
  {
    out' := PutVarint64(out, ZigZag(v));
  }

  method GetVarSigned64(buf: Bytes, pos: nat) returns (r: Option<(i64, nat)>)
    ensures r == VarSigned64At(buf, pos)
  {
    var u := GetVarint64(buf, pos);
    match u
    case None => return None;
    case Some((n, end)) => return Some((UnZigZag(n), end));
  }

  // Zigzag is a bijection between i64 and u64 that the reader inverts.
  lemma ZigZagBijective(v: i64, u: u64)
    ensures UnZigZag(ZigZag(v)) == v && ZigZag(UnZigZag(u)) == u
  {
  }

  lemma {:induction false} XorZero(a: nat, width: nat)
    requires a < Pow2(width)
    ensures Xor(a, 0, width) == a
  {
    if width > 0 {
      XorZero(a / 2, width - 1);
    }
  }

  lemma FlippedBit(a: nat, p: nat)
    requires p >= 1
    ensures (a + (2 * p - 1)) % 2 == 1 - a % 2
  {
    DigitAndRest(1 - a % 2, a / 2 + a % 2 + p - 1);
  }

  lemma {:induction false} XorOnes(a: nat, width: nat)
    requires a < Pow2(width)
    ensures Xor(a, Pow2(width) - 1, width) == Pow2(width) - 1 - a
  {
    if width > 0 {
      var p := Pow2(width - 1);
      XorOnes(a / 2, width - 1);
      DigitAndRest(1, p - 1);
      FlippedBit(a, p);
    }
  }

  lemma Doubled(v: i64)
    ensures (2 * v) % U64_LIMIT == if v < 0 then U64_LIMIT + 2 * v else 2 * v
  {
  }

  // It is the doubled value, exclusive-or the sign in every bit.
  lemma ZigZagIsShiftXor(v: i64)
    ensures ZigZag(v) == Xor((2 * v) % U64_LIMIT, if v < 0 then U64_LIMIT - 1 else 0, 64)
  {
    Pow2Values();
    Doubled(v);
    if v < 0 {
      XorOnes(U64_LIMIT + 2 * v, 64);
    } else {
      XorZero(2 * v, 64);
    }
  }

  lemma VarSignedRoundTrip(buf: Bytes, pos: nat, v: i64)
    requires At(buf, pos, EncodeVarint(ZigZag(v)))
    ensures VarSigned64At(buf, pos) == Some((v, pos + |EncodeVarint(ZigZag(v))|))
    ensures 1 <= |EncodeVarint(ZigZag(v))| <= 10
  {
    VarintRoundTrip(buf, pos, ZigZag(v));
    ZigZagBijective(v, 0);
  }
}
