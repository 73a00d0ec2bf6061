/**
  Bytes of the wire format and the big-endian integer fields built from them.
  The server works on `unsigned char`; lengths are decoded into unbounded
  naturals and encoded back by shifting and truncating to a byte.
 */
module Bytes {

  /** One `unsigned char`. */
  type Byte = b: int | 0 <= b < 256

  const Two16: nat := 0x1_0000
  const Two24: nat := 0x100_0000
  const Two31: nat := 0x8000_0000
  const Two32: nat := 0x1_0000_0000
  const Two64: nat := 0x1_0000_0000_0000_0000

  /** `n` zero bytes. */
  function Zeros(n: nat): (z: seq<Byte>)
    ensures |z| == n
    ensures forall i :: 0 <= i < n ==> z[i] == 0
  {
    seq(n, _ => 0)
  }

  /** The 16-bit big-endian value `(hi << 8) + lo`: both bytes can be read back from it. */
  function Be16(hi: Byte, lo: Byte): (n: nat)
    ensures n < Two16
    ensures n / 0x100 == hi && n % 0x100 == lo
  {
    LemmaDivMod((hi as int) * 0x100 + lo, hi, lo, 0x100);
    (hi as int) * 0x100 + lo
  }

  /**
    The 32-bit big-endian value of four bytes, as an unbounded natural. Its
    top byte is `n / 2^24`, so the value reaches 2^31 exactly when that byte
    has its high bit set.
   */
  function Be32(s: seq<Byte>): (n: nat)
    requires |s| == 4
    ensures n < Two32
    ensures n / Two24 == s[0]
    ensures n < Two31 <==> s[0] < 0x80
  {
    var low := (s[1] as int) * Two16 + (s[2] as int) * 0x100 + s[3];
    var n := (s[0] as int) * Two24 + low;
    LemmaDivMod(n, s[0], low, Two24);
    n
  }

  /** The two bytes `n >> 8` and `n & 0xff` of a 16-bit length. */
  function ToBe16(n: nat): (s: seq<Byte>)
    requires n < Two16
    ensures |s| == 2
    ensures Be16(s[0], s[1]) == n
  {
    [n / 0x100, n % 0x100]
  }

  /**
    The four bytes `n >> 24`, `n >> 16`, `n >> 8` and `n & 0xff`, each
    truncated to a byte on assignment: the low 32 bits of `n`, big-endian.
   */
  function ToBe32(n: nat): (s: seq<Byte>)
    ensures |s| == 4
    ensures Be32(s) == n % Two32
    ensures n < Two32 ==> Be32(s) == n
  {
    LemmaBe32Digits(n);
    LemmaModBelow(n, Two32);
    [(n / Two24) % 0x100, (n / Two16) % 0x100, (n / 0x100) % 0x100, n % 0x100]
  }

  lemma LemmaBe32Digits(n: nat)
    ensures ((n / Two24) % 0x100) * Two24 + ((n / Two16) % 0x100) * Two16
            + ((n / 0x100) % 0x100) * 0x100 + n % 0x100 == n % Two32
  {
    var a, b, c, d := (n / Two24) % 0x100, (n / Two16) % 0x100, (n / 0x100) % 0x100, n % 0x100;
    var q1 := n / 0x100;
    var q2 := n / Two16;
    var q3 := n / Two24;
    assert n == q1 * 0x100 + d;
    assert q2 == q1 / 0x100;
    assert q1 == q2 * 0x100 + c;
    assert q3 == q2 / 0x100;
    assert q2 == q3 * 0x100 + b;
    assert n == q3 * Two24 + b * Two16 + c * 0x100 + d;
    assert q3 == (q3 / 0x100) * 0x100 + a;
    assert n == (q3 / 0x100) * Two32 + (a * Two24 + b * Two16 + c * 0x100 + d);
  }

  /** Reading a 32-bit field back after writing it recovers the field. */
  lemma LemmaToBe32OfBe32(s: seq<Byte>)
    requires |s| == 4
    ensures ToBe32(Be32(s)) == s
  {
    var n := Be32(s);
    LemmaBe32Split(s);
    assert (n / Two24) % 0x100 == s[0];
  }

  /** Distinct four-byte fields denote distinct lengths. */
  lemma LemmaBe32Injective(s: seq<Byte>, t: seq<Byte>)
    requires |s| == 4 && |t| == 4
    requires Be32(s) == Be32(t)
    ensures s == t
  {
    LemmaBe32Split(s);
    LemmaBe32Split(t);
  }

  /** Each byte of a four-byte field is recovered by shifting and masking its value. */
  lemma LemmaBe32Split(s: seq<Byte>)
    requires |s| == 4
    ensures Be32(s) % 0x100 == s[3]
    ensures (Be32(s) / 0x100) % 0x100 == s[2]
    ensures (Be32(s) / Two16) % 0x100 == s[1]
    ensures Be32(s) / Two24 == s[0]
  {
    var n := Be32(s);
    var q1 := (s[0] as int) * Two16 + (s[1] as int) * 0x100 + s[2];
    var q2 := (s[0] as int) * 0x100 + s[1];
    LemmaDivMod(n, q1, s[3], 0x100);
    LemmaDivMod(q1, q2, s[2], 0x100);
    LemmaDivMod(q2, s[0], s[1], 0x100);
    LemmaDivMod(n, q2, (s[2] as int) * 0x100 + s[3], Two16);
    LemmaDivMod(n, s[0], (s[1] as int) * Two16 + (s[2] as int) * 0x100 + s[3], Two24);
  }

  lemma LemmaModBelow(n: nat, d: nat)
    requires d > 0
    ensures n < d ==> n % d == n
  {
    if n < d {
      LemmaDivMod(n, 0, n, d);
    }
  }

  /** Euclidean division is unique: the quotient and remainder are determined. */
  lemma LemmaDivMod(n: int, q: int, r: int, d: int)
    requires 0 <= r < d
    requires n == q * d + r
    ensures n / d == q && n % d == r
  {
    var q', r' := n / d, n % d;
    assert (q - q') * d == r' - r;
    if q > q' {
      assert (q - q') * d >= d by { LemmaMulAtLeast(q - q', d); }
    } else if q < q' {
      assert (q' - q) * d >= d by { LemmaMulAtLeast(q' - q, d); }
    }
  }

  lemma LemmaMulAtLeast(k: int, d: int)
    requires k >= 1 && d > 0
    ensures k * d >= d
  {
  }
}
