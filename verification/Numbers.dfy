/** What byte strings mean as big-endian numbers and bytes as bits, without the shifts and masks that
    the code computes them with. */
module Numbers {
  import opened Base

  ghost function Pow(n: nat): (r: nat)
    ensures r >= 1
  {
    if n == 0 then 1 else 256 * Pow(n - 1)
  }

  /** The number that a byte string is, most significant byte first. */
  ghost function Value(s: Bytes): nat {
    if s == [] then 0 else 256 * Value(s[..|s| - 1]) + s[|s| - 1]
  }

  /** The last n bytes of a number. */
  ghost function Big(n: nat, v: nat): (r: Bytes)
    ensures |r| == n
  {
    if n == 0 then [] else Big(n - 1, v / 256) + [v % 256]
  }

  lemma {:induction false} ValueOfBig(n: nat, v: nat)
    requires v < Pow(n)
    ensures Value(Big(n, v)) == v
  {
    if n > 0 {
      var r := Big(n, v);
      assert r[..n - 1] == Big(n - 1, v / 256) && r[n - 1] == v % 256;
      ValueOfBig(n - 1, v / 256);
    }
  }

  lemma {:induction false} BigOfValue(s: Bytes)
    ensures Value(s) < Pow(|s|) && Big(|s|, Value(s)) == s
  {
    if s != [] {
      var front := s[..|s| - 1];
      BigOfValue(front);
      assert s == front + [s[|s| - 1]];
      assert Value(s) / 256 == Value(front) && Value(s) % 256 == s[|s| - 1];
    }
  }

  lemma {:induction false} BigInjective(n: nat, v: nat, w: nat)
    requires v < Pow(n) && w < Pow(n) && Big(n, v) == Big(n, w)
    ensures v == w
  {
    ValueOfBig(n, v);
    ValueOfBig(n, w);
  }

  /** The shifts of the code pick the bytes of the number. */
  lemma {:induction false} BigDigits(n: nat, v: nat, j: nat)
    requires j < n
    ensures Big(n, v)[j] == Digit(v, n - 1 - j)
  {
    if j < n - 1 {
      BigDigits(n - 1, v / 256, j);
    }
  }

  lemma {:induction false} PowSmall()
    ensures Pow(1) == 256 && Pow(2) == 0x1_0000 && Pow(3) == 0x100_0000 && Pow(4) == WORD32 && Pow(8) == WORD64
  {
    assert Pow(4) == WORD32;
    assert Pow(8) == 256 * 256 * 256 * 256 * Pow(4);
  }

  /** Integers are written and read most significant byte first (section 3.1 of RFC 8446). */
  lemma {:induction false} WrittenBigEndian(width: Width, v: nat)
    requires v < Pow(width)
    ensures Be(width, v) == Big(width, v) && Value(Be(width, v)) == v
  {
    forall j | 0 <= j < width ensures Be(width, v)[j] == Big(width, v)[j] {
      BigDigits(width, v, j);
    }
    ValueOfBig(width, v);
  }

  lemma {:induction false} ReadBigEndian(s: Bytes, i: nat)
    requires i + 3 <= |s|
    ensures GetU16(s, i) == Value(s[i..i + 2]) && GetU24(s, i) == Value(s[i..i + 3])
  {
    var two, three := s[i..i + 2], s[i..i + 3];
    assert three[..2] == two && two[..1] == [s[i]] && [s[i]][..0] == [];
    assert Value([s[i]]) == s[i];
    assert Value(two) == 256 * Value([s[i]]) + s[i + 1];
  }

  // ---- bits ----

  ghost function Bit(v: nat, i: nat): nat {
    if i == 0 then v % 2 else Bit(v / 2, i - 1)
  }

  lemma {:induction false} XorBitsBit(a: nat, b: nat, bits: nat, i: nat)
    requires i < bits
    ensures Bit(XorBits(a, b, bits), i) == if Bit(a, i) == Bit(b, i) then 0 else 1
  {
    var r := XorBits(a, b, bits);
    assert r / 2 == XorBits(a / 2, b / 2, bits - 1) && r % 2 == if a % 2 == b % 2 then 0 else 1;
    if i > 0 {
      XorBitsBit(a / 2, b / 2, bits - 1, i - 1);
    }
  }

  /** Exclusive or is bitwise inequality. */
  lemma {:induction false} XorIsBitwise(a: Byte, b: Byte)
    ensures forall i :: 0 <= i < 8 ==> Bit(Xor(a, b), i) == if Bit(a, i) == Bit(b, i) then 0 else 1
  {
    forall i | 0 <= i < 8 ensures Bit(Xor(a, b), i) == if Bit(a, i) == Bit(b, i) then 0 else 1 {
      XorBitsBit(a, b, 8, i);
    }
  }

  lemma {:induction false} XorBitsZero(a: nat, bits: nat)
    requires a < Pow2(bits)
    ensures XorBits(a, 0, bits) == a && XorBits(0, a, bits) == a
  {
    if bits > 0 {
      XorBitsZero(a / 2, bits - 1);
    }
  }

  lemma {:induction false} XorZero(a: Byte)
    ensures Xor(a, 0) == a && Xor(0, a) == a
  {
    assert Pow2(8) == 256 by { assert Pow2(4) == 16; }
    XorBitsZero(a, 8);
  }
}
