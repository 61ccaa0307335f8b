/** Bytes, big-endian integers, return codes, handshake messages and exclusive or. */
module Base {

  type Byte = b: int | 0 <= b < 256
  type Bytes = seq<Byte>

  datatype Option<+T> = None | Some(value: T)

  /** The return codes of include/wolfnano/wolfnano.h. */
  datatype Code =
    | Success
    | InvalidArg
    | Crypto
    | Unsupported
    | BadState
    | UnexpectedMsg
    | Decode
    | BadMac
    | IllegalParam
    | BadCert
    | Closed

  /** word32 and word64 arithmetic wraps. */
  const WORD32: nat := 0x1_0000_0000
  const WORD64: nat := 0x1_0000_0000_0000_0000

  function Add32(a: nat, b: nat): (r: nat)
    ensures a + b < WORD32 ==> r == a + b
  {
    (a + b) % WORD32
  }

  /** No caller hands the codec a buffer longer than this; with fields below 2^24 bytes no 32-bit
      bounds test wraps. */
  const MAX_BUFFER: nat := 0xFF00_0000
  const MAX_FIELD: nat := 0x100_0000

  function Zeros(n: nat): (r: Bytes)
    ensures |r| == n && forall i :: 0 <= i < n ==> r[i] == 0
  {
    seq(n, i => 0)
  }

  // ---- big-endian integers ----

  /** The widths of a length prefix. */
  type Width = w: nat | 1 <= w <= 3 witness 1

  function Pow256(width: nat): nat
    requires width <= 3
  {
    if width == 0 then 1 else if width == 1 then 256 else if width == 2 then 0x1_0000 else 0x100_0000
  }

  /** (byte)(v >> (8 * i)). */
  function Digit(v: nat, i: nat): Byte {
    if i == 0 then v % 256 else Digit(v / 256, i - 1)
  }

  /** The low `width` bytes of v, most significant first; higher bytes are dropped as in C. */
  function Be(width: Width, v: nat): (r: Bytes)
    ensures |r| == width
  {
    seq(width, i requires 0 <= i < width => Digit(v, width - 1 - i))
  }

  lemma {:induction false} BeBytes(v: nat)
    ensures Be(1, v) == [v % 256]
    ensures Be(2, v) == [v / 256 % 256, v % 256]
    ensures Be(3, v) == [v / 256 / 256 % 256, v / 256 % 256, v % 256]
  {
    assert Digit(v, 0) == v % 256;
    assert Digit(v, 1) == Digit(v / 256, 0) == v / 256 % 256;
    assert Digit(v, 2) == Digit(v / 256, 1) == Digit(v / 256 / 256, 0) == v / 256 / 256 % 256;
  }

  function U16(v: nat): (r: Bytes)
    ensures |r| == 2
  {
    Be(2, v)
  }

  function U24(v: nat): (r: Bytes)
    ensures |r| == 3
  {
    Be(3, v)
  }

  function GetU16(s: Bytes, i: nat): (r: nat)
    requires i + 2 <= |s|
    ensures r < 0x1_0000
  {
    s[i] as int * 0x100 + s[i + 1]
  }

  function GetU24(s: Bytes, i: nat): (r: nat)
    requires i + 3 <= |s|
    ensures r < 0x100_0000
  {
    s[i] as int * 0x1_0000 + s[i + 1] as int * 0x100 + s[i + 2]
  }

  /** A length-prefixed vector (section 3 of RFC 8446). */
  function Vec(width: Width, body: Bytes): (r: Bytes)
    ensures |r| == width + |body|
  {
    Be(width, |body|) + body
  }

  lemma {:induction false} U16RoundTrip(v: nat)
    requires v < 0x1_0000
    ensures GetU16(U16(v), 0) == v
  {
    BeBytes(v);
  }

  lemma {:induction false} U24RoundTrip(v: nat)
    requires v < 0x100_0000
    ensures GetU24(U24(v), 0) == v
  {
    BeBytes(v);
    var mid := v / 256;
    assert v == mid * 256 + v % 256 && mid == mid / 256 * 256 + mid % 256;
  }

  /** Reading where an integer was written. */
  lemma {:induction false} ReadsU16(s: Bytes, i: nat, v: nat)
    requires i + 2 <= |s| && s[i..i + 2] == U16(v) && v < 0x1_0000
    ensures GetU16(s, i) == v
  {
    var t := s[i..i + 2];
    assert s[i] == t[0] && s[i + 1] == t[1];
    U16RoundTrip(v);
  }

  lemma {:induction false} ReadsU24(s: Bytes, i: nat, v: nat)
    requires i + 3 <= |s| && s[i..i + 3] == U24(v) && v < 0x100_0000
    ensures GetU24(s, i) == v
  {
    var t := s[i..i + 3];
    assert s[i] == t[0] && s[i + 1] == t[1] && s[i + 2] == t[2];
    U24RoundTrip(v);
  }

  lemma {:induction false} U16Unique(s: Bytes, i: nat)
    requires i + 2 <= |s|
    ensures U16(GetU16(s, i)) == s[i..i + 2]
  {
    var v := GetU16(s, i);
    BeBytes(v);
    assert v / 256 == s[i] && v % 256 == s[i + 1];
  }

  lemma {:induction false} U24Unique(s: Bytes, i: nat)
    requires i + 3 <= |s|
    ensures U24(GetU24(s, i)) == s[i..i + 3]
  {
    var v := GetU24(s, i);
    var mid := v / 256;
    assert mid == s[i] as int * 0x100 + s[i + 1] && v % 256 == s[i + 2];
    assert mid / 256 == s[i] && mid % 256 == s[i + 1];
    BeBytes(v);
  }

  // ---- taking a byte string apart ----

  lemma {:induction false} Assoc(a: Bytes, b: Bytes, c: Bytes)
    ensures a + b + c == a + (b + c)
  {
  }

  lemma {:induction false} Assoc3(a: Bytes, b: Bytes, c: Bytes, d: Bytes)
    ensures a + b + c + d == a + (b + c + d)
  {
    Assoc(a + b, c, d);
    Assoc(a, b, c + d);
  }

  /** From offset i a string reads a, then b. */
  lemma {:induction false} Front(s: Bytes, i: nat, a: Bytes, b: Bytes)
    requires i <= |s| && s[i..] == a + b
    ensures i + |a| <= |s| && s[i..i + |a|] == a && s[i + |a|..] == b
  {
    var t := s[i..];
    assert t[..|a|] == a && t[|a|..] == b;
  }

  /** From offset i a string reads four pieces. */
  lemma {:induction false} FrontPieces(s: Bytes, i: nat, a: Bytes, b: Bytes, c: Bytes, d: Bytes)
    requires i <= |s| && s[i..] == a + (b + (c + d))
    ensures var j, k := i + |a|, i + |a| + |b|;
            k + |c| <= |s| && s[i..j] == a && s[j..k] == b && s[k..k + |c|] == c && s[k + |c|..] == d
  {
    Front(s, i, a, b + (c + d));
    Front(s, i + |a|, b, c + d);
    Front(s, i + |a| + |b|, c, d);
  }

  lemma {:induction false} CutPieces(s: Bytes, i: nat, j: nat, k: nat, l: nat)
    requires i <= j <= k <= l <= |s|
    ensures s[i..] == s[i..j] + (s[j..k] + (s[k..l] + s[l..]))
  {
    Cut(s, k, l);
    Cut(s, j, k);
    Cut(s, i, j);
  }

  /** The pieces of a slice, in place. */
  lemma {:induction false} SlicePieces(s: Bytes, p: nat, q: nat, a: Bytes, b: Bytes, c: Bytes, d: Bytes)
    requires p <= q <= |s| && s[p..q] == (a + b) + (c + d)
    ensures var j, k := p + |a|, p + |a| + |b|;
            k + |c| + |d| == q && s[p..j] == a && s[j..k] == b && s[k..k + |c|] == c && s[k + |c|..q] == d
  {
    var t := s[p..q];
    Assoc(a, b, c + d);
    assert t[0..] == t;
    FrontPieces(t, 0, a, b, c, d);
    SliceOfSlice(s, p, q, 0, |a|);
    SliceOfSlice(s, p, q, |a|, |a| + |b|);
    SliceOfSlice(s, p, q, |a| + |b|, |a| + |b| + |c|);
    SliceOfSlice(s, p, q, |a| + |b| + |c|, q - p);
  }

  lemma {:induction false} Cut(s: Bytes, i: nat, j: nat)
    requires i <= j <= |s|
    ensures s[i..] == s[i..j] + s[j..]
  {
  }

  lemma {:induction false} SliceOfSlice(s: Bytes, p: nat, q: nat, i: nat, j: nat)
    requires p <= q <= |s| && i <= j <= q - p
    ensures s[p..q][i..j] == s[p + i..p + j]
  {
    forall k | 0 <= k < j - i ensures s[p..q][i..j][k] == s[p + i..p + j][k] {
      assert s[p..q][i..j][k] == s[p..q][i + k] == s[p + i + k];
    }
  }

  lemma {:induction false} U16OfSlice(s: Bytes, p: nat, q: nat, i: nat)
    requires p <= q <= |s| && i + 2 <= q - p
    ensures GetU16(s[p..q], i) == GetU16(s, p + i)
  {
  }

  // ---- handshake messages (section 4 of RFC 8446) ----

  function Message(ty: Byte, body: Bytes): (r: Bytes)
    ensures |r| == 4 + |body|
  {
    [ty] + Vec(3, body)
  }

  /** The message at the front of a stream can be read back off it. */
  lemma {:induction false} MessageParts(ty: Byte, body: Bytes, rest: Bytes)
    requires |body| < 0x100_0000
    ensures var s, n := Message(ty, body) + rest, |body|;
            && s[0] == ty && GetU24(s, 1) == n
            && s[..4 + n] == Message(ty, body) && s[4..4 + n] == body && s[4 + n..] == rest
  {
    var s, n, len := Message(ty, body) + rest, |body|, U24(|body|);
    assert s == [ty] + (len + (body + rest));
    assert s[1..4] == len;
    ReadsU24(s, 1, n);
  }

  /** A complete message at the front of a stream is the encoding of its parts. */
  lemma {:induction false} MessageUnique(s: Bytes)
    requires 4 <= |s| && 4 + GetU24(s, 1) <= |s|
    ensures s[..4 + GetU24(s, 1)] == Message(s[0], s[4..4 + GetU24(s, 1)])
  {
    var n := GetU24(s, 1);
    U24Unique(s, 1);
    assert s[..4 + n] == [s[0]] + (s[1..4] + s[4..4 + n]);
  }

  // ---- exclusive or, bit by bit ----

  function Pow2(n: nat): (r: nat)
    ensures r >= 1
  {
    if n == 0 then 1 else 2 * Pow2(n - 1)
  }

  function XorBits(a: nat, b: nat, bits: nat): (r: nat)
    ensures r < Pow2(bits)
  {
    if bits == 0 then 0
    else 2 * XorBits(a / 2, b / 2, bits - 1) + (if a % 2 == b % 2 then 0 else 1)
  }

  function Xor(a: Byte, b: Byte): Byte {
    assert Pow2(8) == 256 by { assert Pow2(4) == 16; }
    XorBits(a, b, 8)
  }

  lemma {:induction false} XorBitsCancels(a: nat, b: nat, c: nat, bits: nat)
    requires b < Pow2(bits) && c < Pow2(bits)
    requires XorBits(a, b, bits) == XorBits(a, c, bits)
    ensures b == c
  {
    if bits > 0 {
      XorBitsCancels(a / 2, b / 2, c / 2, bits - 1);
    }
  }

  /** a ^ b determines b. */
  lemma {:induction false} XorCancels(a: Byte, b: Byte, c: Byte)
    requires Xor(a, b) == Xor(a, c)
    ensures b == c
  {
    assert Pow2(8) == 256 by { assert Pow2(4) == 16; }
    XorBitsCancels(a, b, c, 8);
  }
}
