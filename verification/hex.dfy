/**
 Lowercase hexadecimal text of a byte string, as PHP's `bin2hex` writes
 it (two digits per byte, high nibble first), and the decoder that
 undoes it.
 */
module Hex {
  import opened Wrappers
  import opened Bytes
  import opened Seqs

  /** A character `bin2hex` can produce: `[0-9a-f]`. */
  predicate IsLowerHex(c: char) {
    '0' <= c <= '9' || 'a' <= c <= 'f'
  }

  /** The lowercase digit for a nibble, from the table `0123456789abcdef`. */
  function HexDigit(n: bv8): (c: char)
    requires n < 16
    ensures IsLowerHex(c)
  {
    match n
    case 0 => '0'  case 1 => '1'  case 2 => '2'  case 3 => '3'
    case 4 => '4'  case 5 => '5'  case 6 => '6'  case 7 => '7'
    case 8 => '8'  case 9 => '9'  case 10 => 'a' case 11 => 'b'
    case 12 => 'c' case 13 => 'd' case 14 => 'e' case _ => 'f'
  }

  /** The nibble a lowercase digit stands for; `None` for any other character. */
  function DigitValue(c: char): (r: Option<bv8>)
    ensures r.Some? <==> IsLowerHex(c)
    ensures r.Some? ==> r.value < 16
  {
    match c
    case '0' => Some(0)  case '1' => Some(1)  case '2' => Some(2)  case '3' => Some(3)
    case '4' => Some(4)  case '5' => Some(5)  case '6' => Some(6)  case '7' => Some(7)
    case '8' => Some(8)  case '9' => Some(9)  case 'a' => Some(10) case 'b' => Some(11)
    case 'c' => Some(12) case 'd' => Some(13) case 'e' => Some(14) case 'f' => Some(15)
    case _ => None
  }

  /** Reading the digit of a nibble gives the nibble. */
  lemma ValueOfDigit(n: bv8)
    requires n < 16
    ensures DigitValue(HexDigit(n)) == Some(n)
  {
  }

  /** Writing the value of a digit gives the digit. */
  lemma DigitOfValue(c: char)
    requires IsLowerHex(c)
    ensures HexDigit(DigitValue(c).value) == c
  {
  }

  /** A larger nibble gets a later digit, so digit order is numeric order. */
  lemma HexDigitMonotone(m: bv8, n: bv8)
    requires m < n < 16
    ensures HexDigit(m) < HexDigit(n)
  {
  }

  /** The two digits of one byte, high nibble first. */
  function ByteHex(b: bv8): seq<char> {
    [HexDigit(Hi(b)), HexDigit(Lo(b))]
  }

  /** The byte two lowercase digits stand for, the first giving the high nibble; `None` unless both are digits. */
  function DecodePair(c0: char, c1: char): Option<bv8> {
    match (DigitValue(c0), DigitValue(c1))
    case (Some(hi), Some(lo)) => Some((hi << 4) | lo)
    case _ => None
  }

  /** The two digits of a byte decode to that byte. */
  lemma PairOfByte(b: bv8)
    ensures DecodePair(ByteHex(b)[0], ByteHex(b)[1]) == Some(b)
  {
    ValueOfDigit(Hi(b));
    ValueOfDigit(Lo(b));
    Nibbles(b, 0, 0);
  }

  /** A pair decodes exactly when both are digits, and then the pair is the text of its byte. */
  lemma ByteOfPair(c0: char, c1: char)
    ensures DecodePair(c0, c1).Some? <==> IsLowerHex(c0) && IsLowerHex(c1)
    ensures DecodePair(c0, c1).Some? ==> ByteHex(DecodePair(c0, c1).value) == [c0, c1]
  {
    if DecodePair(c0, c1).Some? {
      var hi, lo := DigitValue(c0).value, DigitValue(c1).value;
      Nibbles(0, hi, lo);
      DigitOfValue(c0);
      DigitOfValue(c1);
    }
  }

  /** `bin2hex`: every byte becomes two lowercase digits, high nibble first. */
  function Bin2Hex(bs: seq<bv8>): (h: seq<char>)
    ensures |h| == 2 * |bs|
  {
    if |bs| == 0 then []
    else ByteHex(bs[0]) + Bin2Hex(bs[1..])
  }

  /** Digits `2i` and `2i + 1` of the text are the high and the low nibble of byte `i`, and nothing else appears. */
  lemma {:induction false} Bin2HexDigits(bs: seq<bv8>)
    ensures forall i :: 0 <= i < |bs| ==>
      Bin2Hex(bs)[2 * i] == HexDigit(Hi(bs[i])) && Bin2Hex(bs)[2 * i + 1] == HexDigit(Lo(bs[i]))
    ensures forall j :: 0 <= j < 2 * |bs| ==> IsLowerHex(Bin2Hex(bs)[j])
  {
    if |bs| > 0 {
      var h, rest := Bin2Hex(bs), Bin2Hex(bs[1..]);
      Bin2HexDigits(bs[1..]);
      assert h == ByteHex(bs[0]) + rest;
      forall i | 1 <= i < |bs|
        ensures h[2 * i] == HexDigit(Hi(bs[i])) && h[2 * i + 1] == HexDigit(Lo(bs[i]))
      {
        assert bs[i] == bs[1..][i - 1];
        assert h[2 * i] == rest[2 * (i - 1)];
        assert h[2 * i + 1] == rest[2 * (i - 1) + 1];
      }
      forall j | 2 <= j < 2 * |bs|
        ensures IsLowerHex(h[j])
      {
        assert h[j] == rest[j - 2];
      }
    }
  }

  /** Reads pairs of lowercase digits back into bytes; `None` on an odd length or a non-digit. */
  function DecodeHex(h: seq<char>): (r: Option<seq<bv8>>)
    ensures r.Some? ==> 2 * |r.value| == |h|
    decreases |h|
  {
    if |h| == 0 then Some([])
    else if |h| == 1 then None
    else
      match (DecodePair(h[0], h[1]), DecodeHex(h[2..]))
      case (Some(b), Some(rest)) => Some([b] + rest)
      case _ => None
  }

  /** Decoding the text of `bs` gives `bs` back. */
  lemma {:induction false} DecodeBin2Hex(bs: seq<bv8>)
    ensures DecodeHex(Bin2Hex(bs)) == Some(bs)
  {
    if |bs| > 0 {
      var h := Bin2Hex(bs);
      assert h == ByteHex(bs[0]) + Bin2Hex(bs[1..]);
      assert h[2..] == Bin2Hex(bs[1..]);
      PairOfByte(bs[0]);
      DecodeBin2Hex(bs[1..]);
      assert [bs[0]] + bs[1..] == bs;
    }
  }

  /** Text the decoder accepts is exactly the text of what it returns. */
  lemma {:induction false} Bin2HexDecode(h: seq<char>)
    requires DecodeHex(h).Some?
    ensures Bin2Hex(DecodeHex(h).value) == h
    decreases |h|
  {
    if |h| >= 2 {
      var b := DecodePair(h[0], h[1]).value;
      var rest := DecodeHex(h[2..]).value;
      assert DecodeHex(h).value == [b] + rest;
      Bin2HexDecode(h[2..]);
      ByteOfPair(h[0], h[1]);
      assert ([b] + rest)[1..] == rest;
      assert Bin2Hex([b] + rest) == ByteHex(b) + h[2..];
      assert h == [h[0], h[1]] + h[2..];
    }
  }

  /** The decoder accepts exactly the even-length strings of lowercase digits. */
  lemma {:induction false} DecodeHexAccepts(h: seq<char>)
    ensures DecodeHex(h).Some? <==> |h| % 2 == 0 && forall j :: 0 <= j < |h| ==> IsLowerHex(h[j])
    decreases |h|
  {
    if |h| >= 2 {
      DecodeHexAccepts(h[2..]);
      ByteOfPair(h[0], h[1]);
      assert forall j :: 2 <= j < |h| ==> h[j] == h[2..][j - 2];
    }
  }

  /** The text of a concatenation is the concatenation of the texts. */
  lemma {:induction false} Bin2HexConcat(x: seq<bv8>, y: seq<bv8>)
    ensures Bin2Hex(x + y) == Bin2Hex(x) + Bin2Hex(y)
  {
    if |x| > 0 {
      assert (x + y)[1..] == x[1..] + y;
      Bin2HexConcat(x[1..], y);
    } else {
      assert x + y == y;
    }
  }

  /** The text of bytes, one byte, and more bytes: the three texts in turn. */
  lemma Bin2HexSplit(x: seq<bv8>, b: bv8, z: seq<bv8>)
    ensures Bin2Hex(x + ([b] + z)) == Bin2Hex(x) + (ByteHex(b) + Bin2Hex(z))
  {
    Bin2HexConcat(x, [b] + z);
    assert ([b] + z)[1..] == z;
  }

  /** The text of `a` around byte `k`: the text of the bytes before it, its two digits, and the text of the rest. */
  lemma Bin2HexAt(a: seq<bv8>, k: nat)
    requires k < |a|
    ensures Bin2Hex(a) == Bin2Hex(a[..k]) + (ByteHex(a[k]) + Bin2Hex(a[k + 1..]))
  {
    SplitAt(a, k);
    Bin2HexSplit(a[..k], a[k], a[k + 1..]);
  }

  /**
   Text order follows byte order: when `a` and `b` first differ at byte
   `k`, with `a[k] < b[k]`, their texts first differ at digit `2k` or
   `2k + 1`, and the digit of `a` there is the smaller.
   */
  lemma Bin2HexFirstDifference(a: seq<bv8>, b: seq<bv8>, k: nat) returns (m: nat)
    requires |a| == |b| && k < |a|
    requires a[..k] == b[..k] && a[k] < b[k]
    ensures m == 2 * k || m == 2 * k + 1
    ensures Bin2Hex(a)[..m] == Bin2Hex(b)[..m] && Bin2Hex(a)[m] < Bin2Hex(b)[m]
  {
    Bin2HexAt(a, k);
    Bin2HexAt(b, k);
    var p := Bin2Hex(a[..k]);
    assert Bin2Hex(b[..k]) == p;
    var qa, qb := ByteHex(a[k]) + Bin2Hex(a[k + 1..]), ByteHex(b[k]) + Bin2Hex(b[k + 1..]);
    SplitOrder(a[k], b[k]);
    if Hi(a[k]) < Hi(b[k]) {
      m := 2 * k;
      HexDigitMonotone(Hi(a[k]), Hi(b[k]));
      ConcatAt(p, qa, 0);
      ConcatAt(p, qb, 0);
      assert qa[..0] == qb[..0];
    } else {
      m := 2 * k + 1;
      HexDigitMonotone(Lo(a[k]), Lo(b[k]));
      ConcatAt(p, qa, 1);
      ConcatAt(p, qb, 1);
      assert qa[..1] == [HexDigit(Hi(a[k]))] && qb[..1] == [HexDigit(Hi(b[k]))];
    }
  }
}
