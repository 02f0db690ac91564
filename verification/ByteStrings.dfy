/**
 Bytes, machine-integer ranges and the fixed-width integer encodings the file format uses.
 Machine integers are mathematical integers confined to their range; a narrowing cast is written out.
 */
module ByteStrings {
  type byte = b: int | 0 <= b < 0x100
  type u32 = n: int | 0 <= n < 0x1_0000_0000
  type u64 = n: int | 0 <= n < 0x1_0000_0000_0000_0000

  type Bytes = seq<byte>

  const U32_LIMIT := 0x1_0000_0000
  const U64_LIMIT := 0x1_0000_0000_0000_0000

  // `n as u32`: keeps the low 32 bits.
  function AsU32(n: nat): u32 {
    n % U32_LIMIT
  }

  lemma AsU32Keeps(n: nat)
    requires n < U32_LIMIT
    ensures AsU32(n) == n
  {
  }

  function Pow2(n: nat): (p: nat)
    ensures p > 0
  {
    if n == 0 then 1 else 2 * Pow2(n - 1)
  }

  function Pow256(width: nat): (p: nat)
    ensures p > 0
  {
    if width == 0 then 1 else 256 * Pow256(width - 1)
  }

  lemma Pow256Values()
    ensures Pow256(4) == U32_LIMIT && Pow256(8) == U64_LIMIT
  {
    assert Pow256(2) == 0x1_0000;
    assert Pow256(4) == 0x1_0000_0000;
    assert Pow256(6) == 0x1_0000_0000_0000;
  }

  // to_le_bytes, for any width
  function LittleEndian(n: nat, width: nat): (b: Bytes)
    ensures |b| == width
  {
    if width == 0 then [] else [n % 256] + LittleEndian(n / 256, width - 1)
  }

  // from_le_bytes, for any width
  function FromLittleEndian(b: Bytes): nat {
    if b == [] then 0 else b[0] + 256 * FromLittleEndian(b[1..])
  }

  lemma {:induction false} FromLittleEndianBound(b: Bytes)
    ensures FromLittleEndian(b) < Pow256(|b|)
  {
    if b != [] {
      FromLittleEndianBound(b[1..]);
    }
  }

  lemma {:induction false} LittleEndianRoundTrip(n: nat, width: nat)
    requires n < Pow256(width)
    ensures FromLittleEndian(LittleEndian(n, width)) == n
  {
    if width > 0 {
      LittleEndianRoundTrip(n / 256, width - 1);
    }
  }

  lemma {:induction false} LittleEndianInverse(b: Bytes)
    ensures LittleEndian(FromLittleEndian(b), |b|) == b
  {
    if b != [] {
      LittleEndianInverse(b[1..]);
      FirstDigit(b[0], FromLittleEndian(b[1..]), |b|);
      assert b == [b[0]] + b[1..];
    }
  }

  lemma FirstDigit(d: byte, v: nat, width: nat)
    requires width > 0
    ensures LittleEndian(d + 256 * v, width) == [d] + LittleEndian(v, width - 1)
  {
    assert (d + 256 * v) % 256 == d && (d + 256 * v) / 256 == v;
  }

  lemma U32RoundTrip(n: u32)
    ensures FromLittleEndian(LittleEndian(n, 4)) == n
  {
    Pow256Values();
    LittleEndianRoundTrip(n, 4);
  }

  lemma U64RoundTrip(n: u64)
    ensures FromLittleEndian(LittleEndian(n, 8)) == n
  {
    Pow256Values();
    LittleEndianRoundTrip(n, 8);
  }

  lemma NoSmallMultiple(k: int, d: int)
    requires -d < k * d < d
    ensures k == 0
  {
    assert k >= 1 ==> k * d >= d;
    assert k <= -1 ==> k * d <= -d;
  }

  lemma DivModUnique(x: nat, d: nat, q: nat, r: nat)
    requires d > 0 && x == d * q + r && r < d
    ensures x / d == q && x % d == r
  {
    var q', r' := x / d, x % d;
    assert x == d * q' + r' && 0 <= r' < d;
    assert (q' - q) * d == d * q' - d * q == r - r';
    NoSmallMultiple(q' - q, d);
  }

  lemma Regroup(a: nat, b: nat, q: nat, r: nat)
    ensures a * (b * q + r) == (a * b) * q + a * r
  {
  }

  lemma RemainderBelow(a: nat, b: nat, r: nat, r': nat)
    requires r < a && r' < b
    ensures 0 <= a * r' + r < a * b
  {
    var gap := b - r' - 1;
    assert a * b == a * r' + a * gap + a;
    assert a * gap >= 0;
  }

  lemma DivTwice(n: nat, a: nat, b: nat, q: nat, r: nat, q': nat, r': nat)
    requires a > 0 && b > 0 && n == a * q + r && r < a && q == b * q' + r' && r' < b
    ensures a * b > 0 && n / (a * b) == q'
  {
    Regroup(a, b, q', r');
    RemainderBelow(a, b, r, r');
    DivModUnique(n, a * b, q', a * r' + r);
  }

  lemma DivDiv(n: nat, a: nat, b: nat)
    requires a > 0 && b > 0
    ensures a * b > 0 && n / a / b == n / (a * b)
  {
    assert n == a * (n / a) + n % a;
    DivTwice(n, a, b, n / a, n % a, n / a / b, n / a % b);
  }

  // Byte i of the encoding is digit i of the number to base 256, least significant first.
  lemma {:induction false} LittleEndianDigit(n: nat, width: nat, i: nat)
    requires i < width
    ensures LittleEndian(n, width)[i] == n / Pow256(i) % 256
  {
    if i > 0 {
      LittleEndianDigit(n / 256, width - 1, i - 1);
      DivDiv(n, 256, Pow256(i - 1));
    }
  }

  // What four bytes spell.
  lemma FromFourBytes(b: Bytes)
    requires |b| == 4
    ensures FromLittleEndian(b) == (b[0] as nat) + 0x100 * (b[1] as nat) + 0x1_0000 * (b[2] as nat) + 0x100_0000 * (b[3] as nat)
  {
    assert b[1..][1..] == b[2..] && b[2..][1..] == b[3..] && b[3..][1..] == [];
    assert FromLittleEndian(b[3..]) == b[3];
    assert FromLittleEndian(b[2..]) == (b[2] as nat) + 0x100 * FromLittleEndian(b[3..]);
  }

  // ----- Bits

  lemma {:induction false} Pow2Sum(a: nat, b: nat)
    ensures Pow2(a + b) == Pow2(a) * Pow2(b)
  {
    if a > 0 {
      Pow2Sum(a - 1, b);
    }
  }

  lemma Pow2Square(n: nat, m: nat, p: nat)
    requires Pow2(n) == p && m == n + n
    ensures Pow2(m) == p * p
  {
    Pow2Sum(n, n);
  }

  lemma Pow2Values()
    ensures Pow2(32) == U32_LIMIT && Pow2(64) == U64_LIMIT
  {
    assert Pow2(4) == 0x10;
    Pow2Square(4, 8, 0x10);
    Pow2Square(8, 16, 0x100);
    Pow2Square(16, 32, 0x1_0000);
    Pow2Square(32, 64, 0x1_0000_0000);
  }

  // Exclusive or of the low `width` bits.
  function Xor(a: nat, b: nat, width: nat): nat {
    if width == 0 then 0 else (a + b) % 2 + 2 * Xor(a / 2, b / 2, width - 1)
  }

  lemma {:induction false} XorBound(a: nat, b: nat, width: nat)
    ensures Xor(a, b, width) < Pow2(width)
  {
    if width > 0 {
      XorBound(a / 2, b / 2, width - 1);
    }
  }

  lemma {:induction false} XorInjective(a: nat, x: nat, y: nat, width: nat)
    requires x < Pow2(width) && y < Pow2(width) && Xor(a, x, width) == Xor(a, y, width)
    ensures x == y
  {
    if width > 0 {
      XorSplits((a + x) % 2, Xor(a / 2, x / 2, width - 1), (a + y) % 2, Xor(a / 2, y / 2, width - 1));
      XorInjective(a / 2, x / 2, y / 2, width - 1);
      SameParity(a, x, y);
    }
  }

  lemma XorSplits(b: nat, hi: nat, b': nat, hi': nat)
    requires b < 2 && b' < 2 && b + 2 * hi == b' + 2 * hi'
    ensures b == b' && hi == hi'
  {
  }

  lemma SameParity(a: nat, x: nat, y: nat)
    requires (a + x) % 2 == (a + y) % 2 && x / 2 == y / 2
    ensures x == y
  {
  }

  function Bit(n: nat, i: nat): nat {
    n / Pow2(i) % 2
  }

  lemma LowBit(n: nat)
    ensures Bit(n, 0) == n % 2
  {
  }

  lemma HigherBit(n: nat, i: nat)
    requires i > 0
    ensures Bit(n, i) == Bit(n / 2, i - 1)
  {
    DivDiv(n, 2, Pow2(i - 1));
  }

  lemma DigitAndRest(d: nat, rest: nat)
    requires d < 2
    ensures (d + 2 * rest) % 2 == d && (d + 2 * rest) / 2 == rest
  {
  }

  // A bit of the result is set exactly when the bits it comes from differ.
  lemma {:induction false} XorBits(a: nat, b: nat, width: nat, i: nat)
    requires i < width
    ensures Bit(Xor(a, b, width), i) == 1 <==> Bit(a, i) != Bit(b, i)
  {
    var x := Xor(a, b, width);
    DigitAndRest((a + b) % 2, Xor(a / 2, b / 2, width - 1));
    if i == 0 {
      LowBit(x);
      LowBit(a);
      LowBit(b);
    } else {
      HigherBit(x, i);
      HigherBit(a, i);
      HigherBit(b, i);
      XorBits(a / 2, b / 2, width - 1, i - 1);
    }
  }
}
