/** Bytes, fixed-size blocks, big-endian numbers and the 32-bit integers of the C# code. */
module Bytes {

  /** An unsigned 8-bit value. */
  newtype byte = x: int | 0 <= x < 256

  /** A 16-byte AES block (also the size of a file key, a chunk MAC and the file MAC). */
  type Block = s: seq<byte> | |s| == 16 witness Zeros(16)

  function Zeros(n: nat): (r: seq<byte>)
    ensures |r| == n && forall i | 0 <= i < n :: r[i] == 0
  {
    seq(n, _ => 0)
  }

  function Pow2(k: nat): (r: nat)
    ensures r > 0
  {
    if k == 0 then 1 else 2 * Pow2(k - 1)
  }

  /** The k low-order bits of a and b, combined by exclusive or bit by bit. */
  function XorBits(a: nat, b: nat, k: nat): (r: nat)
    ensures r < Pow2(k)
  {
    if k == 0 then 0 else (a + b) % 2 + 2 * XorBits(a / 2, b / 2, k - 1)
  }

  /** The exclusive or of two bytes (C#'s ^ on byte operands). */
  function XorByte(a: byte, b: byte): byte
  {
    XorBits(a as nat, b as nat, 8) as byte
  }

  /** Xor-ing the same value twice gives back any k-bit number. */
  lemma {:induction false} XorBitsCancel(a: nat, b: nat, k: nat)
    requires b < Pow2(k)
    ensures XorBits(a, XorBits(a, b, k), k) == b
    decreases k
  {
    if k > 0 {
      var x := XorBits(a, b, k);
      var high := XorBits(a / 2, b / 2, k - 1);
      XorBitsSplit(a, b, k);
      assert x / 2 == high;
      XorBitsCancel(a / 2, b / 2, k - 1);
      XorBitsStep(a, x, k);
      Parity(a, b, x);
      assert XorBits(a, x, k) == b % 2 + 2 * (b / 2);
    }
  }

  lemma Parity(a: nat, b: nat, x: nat)
    requires x % 2 == (a + b) % 2
    ensures (a + x) % 2 == b % 2
  {
  }

  /** The lowest bit of a k-bit xor and the xor of the remaining bits. */
  lemma XorBitsSplit(a: nat, b: nat, k: nat)
    requires k > 0
    ensures XorBits(a, b, k) % 2 == (a + b) % 2
    ensures XorBits(a, b, k) / 2 == XorBits(a / 2, b / 2, k - 1)
  {
  }

  lemma XorBitsStep(a: nat, x: nat, k: nat)
    requires k > 0
    ensures XorBits(a, x, k) == (a + x) % 2 + 2 * XorBits(a / 2, x / 2, k - 1)
  {
  }

  lemma XorByteCancel(a: byte, b: byte)
    ensures XorByte(a, XorByte(a, b)) == b
  {
    XorBitsCancel(a as nat, b as nat, 8);
  }

  /** Byte-wise exclusive or of two equally long sequences. */
  function Xor(a: seq<byte>, b: seq<byte>): (r: seq<byte>)
    requires |a| == |b|
    ensures |r| == |a| && forall i | 0 <= i < |a| :: r[i] == XorByte(a[i], b[i])
  {
    seq(|a|, i requires 0 <= i < |a| => XorByte(a[i], b[i]))
  }

  /** Xor-ing the same pad twice gives back the data. */
  lemma XorCancel(pad: seq<byte>, data: seq<byte>)
    requires |pad| == |data|
    ensures Xor(pad, Xor(pad, data)) == data
  {
    var once := Xor(pad, data);
    forall i | 0 <= i < |data|
      ensures Xor(pad, once)[i] == data[i]
    {
      XorByteCancel(pad[i], data[i]);
    }
  }

  function Pow256(k: nat): (r: nat)
    ensures r > 0
  {
    if k == 0 then 1 else 256 * Pow256(k - 1)
  }

  /** Digit k of n in base 256. */
  function Digit(n: nat, k: nat): byte
  {
    ((n / Pow256(k)) % 256) as byte
  }

  /** The k low-order bytes of n, most significant first (n modulo 256^k). */
  function ToBigEndian(n: nat, k: nat): (r: seq<byte>)
    ensures |r| == k
  {
    if k == 0 then [] else ToBigEndian(n / 256, k - 1) + [(n % 256) as byte]
  }

  /** The unsigned value of a big-endian byte string. */
  function FromBigEndian(s: seq<byte>): nat
  {
    if s == [] then 0 else FromBigEndian(s[..|s| - 1]) * 256 + s[|s| - 1] as nat
  }

  /** Decoding k big-endian bytes gives back any value that fits in them. */
  lemma {:induction false} FromToBigEndian(n: nat, k: nat)
    requires n < Pow256(k)
    ensures FromBigEndian(ToBigEndian(n, k)) == n
  {
    if k > 0 {
      var s := ToBigEndian(n, k);
      assert s[..k - 1] == ToBigEndian(n / 256, k - 1);
      assert n / 256 < Pow256(k - 1);
      FromToBigEndian(n / 256, k - 1);
    }
  }

  /** The k-byte encoding keeps n modulo 256^k: adding 256^k changes nothing. */
  lemma {:induction false} ToBigEndianWraps(n: nat, k: nat)
    ensures ToBigEndian(n + Pow256(k), k) == ToBigEndian(n, k)
  {
    if k > 0 {
      var m := n + Pow256(k);
      DivMod(n, 256);
      assert m == 256 * (n / 256 + Pow256(k - 1)) + n % 256;
      DivUnique(m, 256, n / 256 + Pow256(k - 1), n % 256);
      DivMod(m, 256);
      ToBigEndianWraps(n / 256, k - 1);
    }
  }

  /** Byte i of the k-byte encoding is digit k - 1 - i of n in base 256. */
  lemma {:induction false} ToBigEndianDigit(n: nat, k: nat, i: nat)
    requires i < k
    ensures ToBigEndian(n, k)[i] == ((n / Pow256(k - 1 - i)) % 256) as byte
  {
    if i < k - 1 {
      ToBigEndianDigit(n / 256, k - 1, i);
      DivDiv(n, 256, Pow256(k - 2 - i));
    }
  }

  lemma MulMono(d: nat, x: nat, y: nat)
    requires x <= y
    ensures d * x <= d * y
  {
    assert d * y == d * x + d * (y - x);
  }

  lemma DivUnique(n: nat, d: nat, q: nat, r: nat)
    requires d > 0 && r < d && n == d * q + r
    ensures n / d == q
  {
    var q', r' := n / d, n % d;
    assert n == d * q' + r';
    if q' < q {
      assert d * (q' + 1) == d * q' + d;
      MulMono(d, q' + 1, q);
    } else if q < q' {
      MulMono(d, q + 1, q');
    }
  }

  /** Dividing by a, then by b, is dividing by a * b. */
  lemma DivDiv(n: nat, a: nat, b: nat)
    requires a > 0 && b > 0
    ensures n / a / b == n / (a * b)
  {
    var q1, r1 := n / a, n % a;
    var q2, r2 := q1 / b, q1 % b;
    DivMod(n, a);
    DivMod(q1, b);
    Regroup(a, b, q2, r2, r1);
    Bound(a, b, r2, r1);
    assert n == (a * b) * q2 + (a * r2 + r1);
    DivUnique(n, a * b, q2, a * r2 + r1);
  }

  lemma DivMod(n: nat, d: nat)
    requires d > 0
    ensures n == d * (n / d) + n % d && n % d < d
  {
  }

  lemma Regroup(a: nat, b: nat, q: nat, r2: nat, r1: nat)
    ensures a * (b * q + r2) + r1 == (a * b) * q + (a * r2 + r1)
  {
  }

  lemma Bound(a: nat, b: nat, r2: nat, r1: nat)
    requires r2 < b && r1 < a
    ensures a * r2 + r1 < a * b
  {
    MulMono(a, r2, b - 1);
    assert a * (b - 1) == a * b - a;
  }

  /** The shortest big-endian encoding of n: no leading zero byte, empty for zero. */
  function MinimalBigEndian(n: nat): (r: seq<byte>)
    ensures n > 0 ==> |r| > 0 && r[0] != 0
  {
    if n == 0 then [] else MinimalBigEndian(n / 256) + [(n % 256) as byte]
  }

  lemma {:induction false} FromMinimalBigEndian(n: nat)
    ensures FromBigEndian(MinimalBigEndian(n)) == n
  {
    if n > 0 {
      var s := MinimalBigEndian(n);
      assert s[..|s| - 1] == MinimalBigEndian(n / 256);
      FromMinimalBigEndian(n / 256);
    }
  }

  /** C#'s int. */
  newtype int32 = x: int | -0x8000_0000 <= x < 0x8000_0000

  const Int32MaxValue: int32 := 0x7FFF_FFFF

  /** An explicit C# cast (int)x of a long in an unchecked context: keeps the low 32 bits. */
  function Truncate32(x: int): (r: int32)
    ensures (r as int - x) % 0x1_0000_0000 == 0
  {
    var low := x % 0x1_0000_0000;
    if low < 0x8000_0000 then low as int32 else (low - 0x1_0000_0000) as int32
  }

  /** The conversion of a long to an int that keeps its order: values above int.MaxValue become it. */
  function Saturate32(x: int): (r: int32)
    requires x >= -0x8000_0000
    ensures r as int <= x && r <= Int32MaxValue
    ensures r as int == x || r == Int32MaxValue
  {
    if x <= Int32MaxValue as int then x as int32 else Int32MaxValue
  }

  /** Within the int range the saturating conversion is the unchecked cast; above it they part. */
  lemma SaturateAgrees(x: int)
    requires x >= -0x8000_0000
    ensures x <= Int32MaxValue as int ==> Saturate32(x) == Truncate32(x)
    ensures x == 0x8000_0000 ==> Saturate32(x) == Int32MaxValue && Truncate32(x) as int == -0x8000_0000
  {
    if x <= Int32MaxValue as int {
      assert Truncate32(x) as int - x == 0 by {
        var d := Truncate32(x) as int - x;
        assert -0x1_0000_0000 < d < 0x1_0000_0000;
      }
    }
  }
}
