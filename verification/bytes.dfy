/**
 Octets as `bv8` values and byte strings read as unsigned big-endian
 numbers (most significant byte first), the reading RFC 9562 uses for the
 48-bit `unix_ts_ms` field of a version 7 UUID, together with the
 division facts the proofs rely on.

 The numeric value of an octet is computed nibble by nibble from a
 16-entry table rather than with a bit-vector/integer conversion; the
 two agree, and the table keeps the proofs cheap for the solver.
 */
module Bytes {

  /** The high nibble of an octet, `b >> 4`. */
  function Hi(b: bv8): (n: bv8)
    ensures n < 16
  {
    b >> 4
  }

  /** The low nibble of an octet, `b & 0x0f`. */
  function Lo(b: bv8): (n: bv8)
    ensures n < 16
  {
    b & 0x0F
  }

  /** An octet is its two nibbles put back together, and two nibbles put together split back. */
  lemma Nibbles(b: bv8, hi: bv8, lo: bv8)
    requires hi < 16 && lo < 16
    ensures (Hi(b) << 4) | Lo(b) == b
    ensures Hi((hi << 4) | lo) == hi && Lo((hi << 4) | lo) == lo
  {
  }

  /** A smaller octet has a smaller high nibble, or the same high nibble and a smaller low one. */
  lemma SplitOrder(x: bv8, y: bv8)
    requires x < y
    ensures Hi(x) < Hi(y) || (Hi(x) == Hi(y) && Lo(x) < Lo(y))
  {
  }

  /** The number a nibble stands for. */
  function NibbleValue(n: bv8): (r: nat)
    requires n < 16
    ensures r < 16
  {
    match n
    case 0 => 0   case 1 => 1   case 2 => 2   case 3 => 3
    case 4 => 4   case 5 => 5   case 6 => 6   case 7 => 7
    case 8 => 8   case 9 => 9   case 10 => 10 case 11 => 11
    case 12 => 12 case 13 => 13 case 14 => 14 case _ => 15
  }

  /** The nibble that stands for `k`. */
  function Nibble(k: nat): (n: bv8)
    requires k < 16
    ensures n < 16 && NibbleValue(n) == k
  {
    match k
    case 0 => 0   case 1 => 1   case 2 => 2   case 3 => 3
    case 4 => 4   case 5 => 5   case 6 => 6   case 7 => 7
    case 8 => 8   case 9 => 9   case 10 => 10 case 11 => 11
    case 12 => 12 case 13 => 13 case 14 => 14 case _ => 15
  }

  lemma NibbleOfValue(n: bv8)
    requires n < 16
    ensures Nibble(NibbleValue(n)) == n
  {
  }

  lemma NibbleValueOrder(m: bv8, n: bv8)
    requires m < 16 && n < 16
    ensures m < n <==> NibbleValue(m) < NibbleValue(n)
  {
  }

  /** The unsigned value of an octet, `ord` in PHP. */
  function ByteValue(x: bv8): (r: nat)
    ensures r < 256
  {
    16 * NibbleValue(Hi(x)) + NibbleValue(Lo(x))
  }

  /** The octet holding the low eight bits of `n`, `chr(n & 0xff)` in PHP. */
  function LowByte(n: nat): (x: bv8)
    ensures ByteValue(x) == n % 256
  {
    var x := (Nibble(n % 256 / 16) << 4) | Nibble(n % 16);
    Nibbles(0, Nibble(n % 256 / 16), Nibble(n % 16));
    x
  }

  /** Octets with the same value are equal. */
  lemma ByteValueInjective(x: bv8, y: bv8)
    requires ByteValue(x) == ByteValue(y)
    ensures x == y
  {
    NibbleOfValue(Hi(x));
    NibbleOfValue(Hi(y));
    NibbleOfValue(Lo(x));
    NibbleOfValue(Lo(y));
    Nibbles(x, 0, 0);
    Nibbles(y, 0, 0);
  }

  /** Octet order is the order of their values. */
  lemma ByteValueOrder(x: bv8, y: bv8)
    ensures x < y <==> ByteValue(x) < ByteValue(y)
  {
    NibbleValueOrder(Hi(x), Hi(y));
    NibbleValueOrder(Lo(x), Lo(y));
    NibbleOfValue(Hi(x));
    NibbleOfValue(Hi(y));
    Nibbles(x, 0, 0);
    Nibbles(y, 0, 0);
  }

  /** 256^n: the number of distinct n-byte strings. */
  function Pow256(n: nat): (r: nat)
    ensures r >= 1
  {
    if n == 0 then 1 else 256 * Pow256(n - 1)
  }

  /** The unsigned value of `s`, first byte most significant. */
  function BeValue(s: seq<bv8>): (r: nat)
    ensures r < Pow256(|s|)
  {
    if |s| == 0 then 0
    else BeValue(s[..|s| - 1]) * 256 + ByteValue(s[|s| - 1])
  }

  /** The `len`-byte big-endian encoding of `n`, keeping only the low `8 * len` bits. */
  function BeEncode(n: nat, len: nat): (r: seq<bv8>)
    ensures |r| == len
    ensures BeValue(r) == n % Pow256(len)
  {
    if len == 0 then []
    else
      var prefix := BeEncode(n / 256, len - 1);
      var r := prefix + [LowByte(n)];
      var p := Pow256(len - 1);
      BeValueSnoc(prefix, LowByte(n));
      ModSplit(n, p);
      assert Pow256(len) == 256 * p;
      r
  }

  /** Appending a byte shifts the value up by one byte. */
  lemma BeValueSnoc(s: seq<bv8>, x: bv8)
    ensures BeValue(s + [x]) == BeValue(s) * 256 + ByteValue(x)
  {
    assert (s + [x])[..|s|] == s;
  }

  /** Euclidean division is determined by its quotient/remainder equation. */
  lemma DivModUnique(n: int, m: int, q: int, r: int)
    requires 0 < m && 0 <= r < m && n == q * m + r
    ensures n / m == q && n % m == r
  {
    var q', r' := n / m, n % m;
    assert n == q' * m + r';
    if q' < q {
      assert (q - q') * m >= m by { MulAtLeast(q - q', m); }
      assert false;
    } else if q < q' {
      assert (q' - q) * m >= m by { MulAtLeast(q' - q, m); }
      assert false;
    }
  }

  lemma MulDistrib(a: int, x: int, y: int)
    ensures a * (x + y) == a * x + a * y
  {
  }

  lemma MulAssoc(a: int, b: int, c: int)
    ensures a * (b * c) == (a * b) * c
  {
  }

  lemma MulMono(a: int, x: int, y: int)
    requires a >= 0 && x <= y
    ensures a * x <= a * y
  {
    MulDistrib(a, x, y - x);
    MulNonneg(a, y - x);
  }

  lemma MulNonneg(a: int, b: int)
    requires a >= 0 && b >= 0
    ensures a * b >= 0
  {
  }

  lemma MulAtLeast(a: int, m: int)
    requires a >= 1 && m > 0
    ensures a * m >= m
  {
  }

  /** Dividing by `a` and then by `b` is dividing by `a * b`. */
  lemma DivDiv(n: nat, a: nat, b: nat)
    requires a > 0 && b > 0
    ensures (n / a) / b == n / (a * b)
  {
    var q1, r1 := n / a, n % a;
    var q2, r2 := q1 / b, q1 % b;
    assert n == q1 * a + r1;
    assert q1 == q2 * b + r2;
    MulDistrib(a, b * q2, r2);
    MulAssoc(a, b, q2);
    assert n == q2 * (a * b) + (a * r2 + r1);
    MulMono(a, r2, b - 1);
    MulDistrib(a, b - 1, 1);
    assert a * r2 + r1 < a * b;
    DivModUnique(n, a * b, q2, a * r2 + r1);
  }

  /** The low `8 * (k + 1)` bits of `n` are its low byte below the low `8 * k` bits of `n / 256`. */
  lemma ModSplit(n: nat, p: nat)
    requires p > 0
    ensures ((n / 256) % p) * 256 + n % 256 == n % (256 * p)
  {
    var q, r := n / 256, n % 256;
    var a, b := q / p, q % p;
    assert n == (256 * p) * a + (b * 256 + r);
    DivModUnique(n, 256 * p, a, b * 256 + r);
  }

  /** Byte `i` of the encoding is `(n >> 8 * (len - 1 - i)) & 0xff`. */
  lemma {:induction false} BeEncodeByte(n: nat, len: nat, i: nat)
    requires i < len
    ensures BeEncode(n, len)[i] == LowByte(n / Pow256(len - 1 - i))
  {
    var prefix := BeEncode(n / 256, len - 1);
    assert BeEncode(n, len) == prefix + [LowByte(n)];
    if i < len - 1 {
      BeEncodeByte(n / 256, len - 1, i);
      var p := Pow256(len - 2 - i);
      assert Pow256(len - 1 - i) == 256 * p;
      assert (n / 256) / p == n / (256 * p) by {
        DivDiv(n, 256, p);
      }
      assert BeEncode(n, len)[i] == prefix[i];
    } else {
      assert Pow256(0) == 1;
      assert n / 1 == n;
    }
  }

  /** The last byte of a non-empty string is its value mod 256; the rest is the quotient. */
  lemma BeValueLast(a: seq<bv8>)
    requires |a| > 0
    ensures BeValue(a) / 256 == BeValue(a[..|a| - 1])
    ensures BeValue(a) % 256 == ByteValue(a[|a| - 1])
  {
    DivModUnique(BeValue(a), 256, BeValue(a[..|a| - 1]), ByteValue(a[|a| - 1]));
  }

  /** Two byte strings of one length with the same value are equal. */
  lemma {:induction false} BeValueInjective(a: seq<bv8>, b: seq<bv8>)
    requires |a| == |b|
    requires BeValue(a) == BeValue(b)
    ensures a == b
  {
    if |a| > 0 {
      var n := |a|;
      var pa, pb, xa, xb := a[..n - 1], b[..n - 1], a[n - 1], b[n - 1];
      assert BeValue(pa) == BeValue(pb) && ByteValue(xa) == ByteValue(xb) by {
        BeValueLast(a);
        BeValueLast(b);
      }
      ByteValueInjective(xa, xb);
      BeValueInjective(pa, pb);
      assert a == pa + [xa] && b == pb + [xb];
    }
  }

  /** Decoding then re-encoding at the same width gives the bytes back. */
  lemma EncodeDecode(s: seq<bv8>)
    ensures BeEncode(BeValue(s), |s|) == s
  {
    DivModUnique(BeValue(s), Pow256(|s|), 0, BeValue(s));
    BeValueInjective(BeEncode(BeValue(s), |s|), s);
  }

  /** Encoding then decoding recovers `n` exactly when `n` fits in `len` bytes. */
  lemma DecodeEncode(n: nat, len: nat)
    ensures BeValue(BeEncode(n, len)) == n <==> n < Pow256(len)
  {
    if n < Pow256(len) {
      DivModUnique(n, Pow256(len), 0, n);
    }
  }

  /**
   For byte strings of one length, a smaller value means a first
   differing byte that is smaller: the big-endian order is the
   lexicographic order of the bytes.
   */
  lemma {:induction false} BeValueFirstDifference(a: seq<bv8>, b: seq<bv8>) returns (k: nat)
    requires |a| == |b|
    requires BeValue(a) < BeValue(b)
    ensures k < |a|
    ensures a[..k] == b[..k] && a[k] < b[k]
  {
    if |a| == 0 {
      assert false;
    }
    var n := |a|;
    var a', b' := a[..n - 1], b[..n - 1];
    if BeValue(a') < BeValue(b') {
      k := BeValueFirstDifference(a', b');
      assert a[..k] == a'[..k] && b[..k] == b'[..k];
    } else if BeValue(a') == BeValue(b') {
      BeValueInjective(a', b');
      ByteValueOrder(a[n - 1], b[n - 1]);
      k := n - 1;
    } else {
      assert false;
    }
  }
}
