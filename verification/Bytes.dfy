/** Octets, 32-bit words, and the bit operations and big-endian codecs of the C sources. */
module Bytes {
  type byte = x: int | 0 <= x < 0x100
  type half = x: int | 0 <= x < 0x1_0000
  type word = x: int | 0 <= x < 0x1_0000_0000

  function Min(a: int, b: int): int {
    if a < b then a else b
  }

  function Zeros(n: nat): (z: seq<byte>)
    ensures |z| == n
  {
    seq(n, i => 0)
  }

  /** Bitwise AND of two naturals. */
  function And(a: nat, b: nat): nat {
    if a == 0 || b == 0 then 0
    else 2 * And(a / 2, b / 2) + (if a % 2 == 1 && b % 2 == 1 then 1 else 0)
  }

  /** Bitwise exclusive OR of two naturals. */
  function Xor(a: nat, b: nat): nat
    decreases a + b
  {
    if a == 0 then b
    else if b == 0 then a
    else 2 * Xor(a / 2, b / 2) + (if a % 2 != b % 2 then 1 else 0)
  }

  /** A result of XOR needs no more bits than its operands. */
  lemma {:induction false} XorBounded(a: nat, b: nat, bits: nat)
    requires a < Pow2(bits) && b < Pow2(bits)
    ensures Xor(a, b) < Pow2(bits)
    decreases a + b
  {
    if a != 0 && b != 0 {
      XorBounded(a / 2, b / 2, bits - 1);
    }
  }

  /** XOR with the same operand twice gives back the first operand. */
  lemma {:induction false} XorInvolution(a: nat, b: nat)
    ensures Xor(Xor(a, b), b) == a
    decreases a + b
  {
    if a == 0 {
      XorSelf(b);
    } else if b != 0 {
      XorInvolution(a / 2, b / 2);
      var x := Xor(a, b);
      assert x / 2 == Xor(a / 2, b / 2) && x % 2 == (if a % 2 != b % 2 then 1 else 0);
      if x == 0 {
        XorZero(a / 2, b / 2);
      }
    }
  }

  lemma {:induction false} XorSelf(b: nat)
    ensures Xor(b, b) == 0
  {
    if b != 0 {
      XorSelf(b / 2);
    }
  }

  lemma {:induction false} XorZero(a: nat, b: nat)
    requires Xor(a, b) == 0
    ensures a == b
    decreases a + b
  {
    if a != 0 && b != 0 {
      XorZero(a / 2, b / 2);
    }
  }

  // ---------- single bits ----------

  predicate Bit(n: nat, i: nat) {
    n / Pow2(i) % 2 == 1
  }

  lemma {:induction false} DivTwice(n: nat, p: nat)
    requires p > 0
    ensures n / (2 * p) == n / 2 / p
  {
    var q, r := n / 2 / p, n / 2 % p;
    assert n / 2 == q * p + r;
    assert n == q * (2 * p) + (2 * r + n % 2);
    QuotientUnique(n, 2 * p, q, 2 * r + n % 2);
  }

  lemma {:induction false} QuotientUnique(n: nat, d: nat, q: nat, r: nat)
    requires n == q * d + r && r < d
    ensures n / d == q
  {
    var q', r' := n / d, n % d;
    assert n == q' * d + r';
    assert (q - q') * d == r' - r;
    SmallMultiple(q - q', d);
  }

  lemma {:induction false} SmallMultiple(x: int, d: int)
    requires 0 < d && -d < x * d < d
    ensures x == 0
  {
    assert x >= 1 ==> x * d >= d;
    assert x <= -1 ==> x * d <= -d;
  }

  /** Bit `i` is bit `i - 1` of the half. */
  lemma {:induction false} BitOfHalf(n: nat, i: nat)
    requires i > 0
    ensures Bit(n, i) <==> Bit(n / 2, i - 1)
  {
    DivTwice(n, Pow2(i - 1));
  }

  lemma {:induction false} BitZero(n: nat)
    ensures Bit(n, 0) <==> n % 2 == 1
  {
  }

  lemma {:induction false} NoBits(i: nat)
    ensures !Bit(0, i)
  {
  }

  /** AND, bit by bit. */
  lemma {:induction false} AndBit(a: nat, b: nat, i: nat)
    ensures Bit(And(a, b), i) <==> Bit(a, i) && Bit(b, i)
    decreases i
  {
    NoBits(i);
    if a != 0 && b != 0 {
      var c := And(a, b);
      assert c / 2 == And(a / 2, b / 2) && (c % 2 == 1 <==> a % 2 == 1 && b % 2 == 1);
      if i == 0 {
        BitZero(a);
        BitZero(b);
        BitZero(c);
      } else {
        AndBit(a / 2, b / 2, i - 1);
        BitOfHalf(a, i);
        BitOfHalf(b, i);
        BitOfHalf(c, i);
      }
    }
  }

  /** Exclusive OR, bit by bit. */
  lemma {:induction false} XorBit(a: nat, b: nat, i: nat)
    ensures Bit(Xor(a, b), i) <==> (Bit(a, i) != Bit(b, i))
    decreases i
  {
    NoBits(i);
    if a != 0 && b != 0 {
      var c := Xor(a, b);
      assert c / 2 == Xor(a / 2, b / 2) && (c % 2 == 1 <==> a % 2 != b % 2);
      if i == 0 {
        BitZero(a);
        BitZero(b);
        BitZero(c);
      } else {
        XorBit(a / 2, b / 2, i - 1);
        BitOfHalf(a, i);
        BitOfHalf(b, i);
        BitOfHalf(c, i);
      }
    }
  }

  lemma {:induction false} AndBounded(a: nat, b: nat, bits: nat)
    requires a < Pow2(bits)
    ensures And(a, b) < Pow2(bits)
  {
    if a != 0 && b != 0 {
      AndBounded(a / 2, b / 2, bits - 1);
    }
  }

  /** A number that is not zero has a bit. */
  lemma {:induction false} SomeBit(n: nat, bits: nat) returns (i: nat)
    requires 0 < n < Pow2(bits)
    ensures i < bits && Bit(n, i)
  {
    if n % 2 == 1 {
      BitZero(n);
      i := 0;
    } else {
      i := SomeBit(n / 2, bits - 1);
      i := i + 1;
      BitOfHalf(n, i);
    }
  }

  /** A number below 2^bits is its bits. */
  lemma {:induction false} SameBits(a: nat, b: nat, bits: nat)
    requires a < Pow2(bits) && b < Pow2(bits)
    requires forall i :: 0 <= i < bits ==> (Bit(a, i) <==> Bit(b, i))
    ensures a == b
  {
    if bits > 0 {
      forall i | 0 <= i < bits - 1
        ensures Bit(a / 2, i) <==> Bit(b / 2, i)
      {
        BitOfHalf(a, i + 1);
        BitOfHalf(b, i + 1);
      }
      BitZero(a);
      BitZero(b);
      SameBits(a / 2, b / 2, bits - 1);
    }
  }

  function Pow2(n: nat): (p: nat)
    ensures p > 0
  {
    if n == 0 then 1 else 2 * Pow2(n - 1)
  }

  lemma {:induction false} Pow2Word()
    ensures Pow2(32) == 0x1_0000_0000
  {
    assert Pow2(8) == 0x100;
    assert Pow2(16) == 0x1_0000;
    assert Pow2(24) == 0x100_0000;
  }

  /** `word` XOR, as the C code applies it to `uint32_t`. */
  function XorWord(a: word, b: word): word {
    Pow2Word();
    XorBounded(a, b, 32);
    Xor(a, b)
  }

  function Read16(hi: byte, lo: byte): (n: nat)
    ensures n < 0x1_0000
  {
    hi as int * 0x100 + lo as int
  }

  /** The number that four octets are, the most significant first. */
  function Read32(s: seq<byte>): (w: word)
    requires |s| == 4
    ensures w as int == s[0] as int * 0x100_0000 + s[1] as int * 0x1_0000 + s[2] as int * 0x100 + s[3] as int
  {
    Read16(s[0], s[1]) * 0x1_0000 + Read16(s[2], s[3])
  }

  function Write32(w: word): (s: seq<byte>)
    ensures |s| == 4 && Read32(s) == w
  {
    var hi, lo := w as int / 0x1_0000, w as int % 0x1_0000;
    [hi / 0x100, hi % 0x100, lo / 0x100, lo % 0x100]
  }
}
