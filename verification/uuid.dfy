/**
 `ID::uuid4` and `ID::uuid7` as pure functions: the 16 octets that
 `random_bytes(16)` returns, and for version 7 the millisecond clock
 reading, are parameters.
 */
module Uuid {
  import opened Wrappers
  import opened Bytes
  import opened Fields
  import opened Hex
  import opened Layout
  import opened Lex

  /** 36 characters: hyphens at the four hyphen positions and lowercase hexadecimal digits everywhere else. */
  predicate IsCanonical(s: seq<char>) {
    && |s| == TextLength
    && forall p :: 0 <= p < TextLength ==> if IsHyphenPosition(p) then s[p] == '-' else IsLowerHex(s[p])
  }

  /** Canonical text with the version digit at position 14 and one of `8`, `9`, `a`, `b` at position 19. */
  predicate IsVersionText(s: seq<char>, version: char) {
    && IsCanonical(s)
    && s[14] == version
    && s[19] in "89ab"
  }

  /** Every character of `t` is in `[0-9a-f]`. */
  predicate AllLowerHex(t: seq<char>) {
    forall i :: 0 <= i < |t| ==> IsLowerHex(t[i])
  }

  /**
   The regular expression the tests hold the output to, between its
   anchors, group by group:
   `[0-9a-f]{8}-[0-9a-f]{4}-V[0-9a-f]{3}-[89ab][0-9a-f]{3}-[0-9a-f]{12}`
   with `V` the version digit.
   */
  predicate PatternBody(s: seq<char>, version: char) {
    && |s| == TextLength
    && AllLowerHex(s[0..8]) && s[8] == '-'
    && AllLowerHex(s[9..13]) && s[13] == '-'
    && s[14] == version && AllLowerHex(s[15..18]) && s[18] == '-'
    && s[19] in "89ab" && AllLowerHex(s[20..23]) && s[23] == '-'
    && AllLowerHex(s[24..36])
  }

  /**
   `preg_match` of the anchored pattern `/^...$/`. Without the `D`
   modifier, `$` matches at the end of the subject and also just before
   a newline that ends it, so the body followed by `"\n"` matches too.
   */
  predicate MatchesTestPattern(s: seq<char>, version: char) {
    || PatternBody(s, version)
    || (|s| == TextLength + 1 && s[TextLength] == '\n' && PatternBody(s[..TextLength], version))
  }

  /** The group-by-group reading of the pattern and the positional one agree. */
  lemma PatternBodyVersionText(s: seq<char>, version: char)
    requires IsLowerHex(version)
    ensures PatternBody(s, version) <==> IsVersionText(s, version)
  {
    if PatternBody(s, version) {
      forall p | 0 <= p < TextLength
        ensures if IsHyphenPosition(p) then s[p] == '-' else IsLowerHex(s[p])
      {
        if p < 8 {
          assert s[p] == s[0..8][p];
        } else if 8 < p < 13 {
          assert s[p] == s[9..13][p - 9];
        } else if 14 < p < 18 {
          assert s[p] == s[15..18][p - 15];
        } else if 19 < p < 23 {
          assert s[p] == s[20..23][p - 20];
        } else if 23 < p {
          assert s[p] == s[24..36][p - 24];
        }
      }
    }
    if IsVersionText(s, version) {
      assert AllLowerHex(s[0..8]) by {
        forall i | 0 <= i < 8 ensures IsLowerHex(s[0..8][i]) { assert s[0..8][i] == s[i]; }
      }
      assert AllLowerHex(s[9..13]) by {
        forall i | 0 <= i < 4 ensures IsLowerHex(s[9..13][i]) { assert s[9..13][i] == s[9 + i]; }
      }
      assert AllLowerHex(s[15..18]) by {
        forall i | 0 <= i < 3 ensures IsLowerHex(s[15..18][i]) { assert s[15..18][i] == s[15 + i]; }
      }
      assert AllLowerHex(s[20..23]) by {
        forall i | 0 <= i < 3 ensures IsLowerHex(s[20..23][i]) { assert s[20..23][i] == s[20 + i]; }
      }
      assert AllLowerHex(s[24..36]) by {
        forall i | 0 <= i < 12 ensures IsLowerHex(s[24..36][i]) { assert s[24..36][i] == s[24 + i]; }
      }
    }
  }

  /** Hyphen deletion followed by hexadecimal decoding: the inverse of the formatting. */
  function Parse(s: seq<char>): Option<seq<bv8>> {
    DecodeHex(Dehyphenate(s))
  }

  /** The `bin2hex` text of the octets in the 8-4-4-4-12 layout. */
  function Format(b: seq<bv8>): (s: seq<char>)
    requires |b| == UuidLength
    ensures IsCanonical(s)
    ensures forall i :: 0 <= i < UuidLength ==>
      s[TextPosition(2 * i)] == HexDigit(Hi(b[i])) && s[TextPosition(2 * i + 1)] == HexDigit(Lo(b[i]))
    ensures Parse(s) == Some(b)
  {
    var h := Bin2Hex(b);
    var s := Hyphenate(h);
    Bin2HexDigits(b);
    assert forall j :: 0 <= j < DigitCount ==> s[TextPosition(j)] == h[j];
    assert '-' !in h by {
      assert forall j :: 0 <= j < |h| ==> IsLowerHex(h[j]);
    }
    DehyphenateHyphenate(h);
    DecodeBin2Hex(b);
    s
  }

  /** Canonical text is the formatting of the octets it parses to. */
  lemma FormatParse(s: seq<char>)
    requires IsCanonical(s)
    ensures Parse(s).Some? && |Parse(s).value| == UuidLength
    ensures Format(Parse(s).value) == s
  {
    assert IsHyphenated(s) by {
      forall p | 0 <= p < TextLength
        ensures s[p] == '-' <==> IsHyphenPosition(p)
      {
      }
    }
    HyphenateDehyphenate(s);
    var d := Dehyphenate(s);
    assert forall j :: 0 <= j < DigitCount ==> Hyphenate(d)[TextPosition(j)] == d[j];
    DecodeHexAccepts(d);
    Bin2HexDecode(d);
  }

  /** Formatting loses nothing: two octet arrays format alike exactly when they are equal. */
  lemma FormatInjective(a: seq<bv8>, b: seq<bv8>)
    requires |a| == UuidLength && |b| == UuidLength
    ensures Format(a) == Format(b) <==> a == b
  {
  }

  /** `ID::uuid4`: the version 4 patch of the random octets, formatted. */
  function Uuid4(random: seq<bv8>): (s: seq<char>)
    requires |random| == UuidLength
    ensures IsVersionText(s, '4') && MatchesTestPattern(s, '4')
    ensures Parse(s).Some? && IsPatched(Parse(s).value, V4)
    ensures Parse(s).Some? && SameRandomBits(Parse(s).value, random, 0)
  {
    var b := Patch(random, V4);
    var s := Format(b);
    FieldDigits(b, V4);
    PatternBodyVersionText(s, '4');
    s
  }

  /** `ID::uuid7`: the timestamp store and then the version 7 patch of the random octets, formatted. */
  function Uuid7(random: seq<bv8>, ts: nat): (s: seq<char>)
    requires |random| == UuidLength
    ensures IsVersionText(s, '7') && MatchesTestPattern(s, '7')
    ensures Parse(s).Some? && IsPatched(Parse(s).value, V7)
    ensures Parse(s).Some? && BeValue(Parse(s).value[..TimestampLength]) == ts % TimestampModulus
    ensures Parse(s).Some? && SameRandomBits(Parse(s).value, random, TimestampLength)
  {
    var t := StoreTimestamp(random, ts);
    var b := Patch(t, V7);
    var s := Format(b);
    FieldDigits(b, V7);
    KeptOctets(t, b, random);
    PatternBodyVersionText(s, '7');
    s
  }

  /** Octets 0 to 5 survive the patch, and after them the random bits the patch keeps. */
  lemma KeptOctets(t: seq<bv8>, b: seq<bv8>, random: seq<bv8>)
    requires |t| == UuidLength && |random| == UuidLength
    requires t[TimestampLength..] == random[TimestampLength..]
    requires SameRandomBits(b, t, 0)
    ensures b[..TimestampLength] == t[..TimestampLength]
    ensures SameRandomBits(b, random, TimestampLength)
  {
    forall i | TimestampLength <= i < UuidLength
      ensures t[i] == random[i]
    {
      assert t[i] == t[TimestampLength..][i - TimestampLength];
      assert random[i] == random[TimestampLength..][i - TimestampLength];
    }
  }

  /** The digit of the version field is the version, and the first digit of the variant octet is `8`, `9`, `a` or `b`. */
  lemma FieldDigits(b: seq<bv8>, v: Version)
    requires IsPatched(b, v)
    ensures Format(b)[14] == (if v == V4 then '4' else '7')
    ensures Format(b)[19] in "89ab"
  {
    var s := Format(b);
    assert s[14] == s[TextPosition(2 * VersionOctet)];
    assert s[19] == s[TextPosition(2 * VariantOctet)];
    assert Hi(b[VariantOctet]) == 8 || Hi(b[VariantOctet]) == 9 || Hi(b[VariantOctet]) == 10 || Hi(b[VariantOctet]) == 11;
  }

  /** Read back from the digits: a version field 4 or 7 and the RFC 9562 variant. */
  lemma DigitFields(b: seq<bv8>, v: Version)
    requires |b| == UuidLength
    requires Format(b)[14] == (if v == V4 then '4' else '7')
    requires Format(b)[19] in "89ab"
    ensures IsPatched(b, v)
  {
    var s := Format(b);
    assert s[14] == HexDigit(Hi(b[VersionOctet])) by {
      assert s[14] == s[TextPosition(2 * VersionOctet)];
    }
    assert s[19] == HexDigit(Hi(b[VariantOctet])) by {
      assert s[19] == s[TextPosition(2 * VariantOctet)];
    }
    ValueOfDigit(Hi(b[VersionOctet]));
    ValueOfDigit(Hi(b[VariantOctet]));
  }

  /** Two random inputs give the same version 4 UUID exactly when they agree on the 122 bits the patch keeps. */
  lemma Uuid4Equal(r1: seq<bv8>, r2: seq<bv8>)
    requires |r1| == UuidLength && |r2| == UuidLength
    ensures Uuid4(r1) == Uuid4(r2) <==> SameRandomBits(r1, r2, 0)
  {
    FormatInjective(Patch(r1, V4), Patch(r2, V4));
    PatchEqual(r1, r2, V4);
  }

  /**
   Two calls give the same version 7 UUID exactly when their timestamps
   agree modulo 2^48 and their random octets agree on the bits after
   the timestamp that the patch keeps.
   */
  lemma Uuid7Equal(r1: seq<bv8>, t1: nat, r2: seq<bv8>, t2: nat)
    requires |r1| == UuidLength && |r2| == UuidLength
    ensures Uuid7(r1, t1) == Uuid7(r2, t2)
        <==> t1 % TimestampModulus == t2 % TimestampModulus && SameRandomBits(r1, r2, TimestampLength)
  {
    var a, b := StoreTimestamp(r1, t1), StoreTimestamp(r2, t2);
    FormatInjective(Patch(a, V7), Patch(b, V7));
    PatchEqual(a, b, V7);
    StoreTimestampSame(r1, t1, r2, t2);
  }

  /** Version 4 text is exactly the output of `ID::uuid4` for some random octets. */
  lemma Uuid4Exactly(s: seq<char>)
    ensures IsVersionText(s, '4') <==> exists random :: |random| == UuidLength && Uuid4(random) == s
  {
    if IsVersionText(s, '4') {
      FormatParse(s);
      var b := Parse(s).value;
      DigitFields(b, V4);
      PatchFixedPoint(b, V4);
      assert Uuid4(b) == s;
    }
  }

  /** Version 7 text is exactly the output of `ID::uuid7` for some random octets and clock reading. */
  lemma Uuid7Exactly(s: seq<char>)
    ensures IsVersionText(s, '7') <==> exists random, ts :: |random| == UuidLength && Uuid7(random, ts) == s
  {
    if IsVersionText(s, '7') {
      FormatParse(s);
      var b := Parse(s).value;
      var ts := BeValue(b[..TimestampLength]);
      DigitFields(b, V7);
      StoreOwnTimestamp(b);
      PatchFixedPoint(b, V7);
      assert Uuid7(b, ts) == s;
    }
  }

  /** The test pattern accepts version text, and version text followed by one newline. */
  lemma TestPatternNewline(s: seq<char>, version: char)
    requires IsLowerHex(version)
    ensures MatchesTestPattern(s, version)
        <==> IsVersionText(s, version) || (|s| == TextLength + 1 && s[TextLength] == '\n' && IsVersionText(s[..TextLength], version))
  {
    PatternBodyVersionText(s, version);
    if |s| >= TextLength {
      PatternBodyVersionText(s[..TextLength], version);
    }
  }

  /** The `unix_ts_ms` value of canonical text: octets 0 to 5 read big-endian; `None` for other text. */
  function UnixTsMs(s: seq<char>): Option<nat> {
    match Parse(s)
    case Some(b) => if |b| == UuidLength then Some(BeValue(b[..TimestampLength])) else None
    case None => None
  }

  /** The timestamp read back from a version 7 UUID is the clock reading exactly when it is below 2^48. */
  lemma UnixTsMsRoundTrip(random: seq<bv8>, ts: nat)
    requires |random| == UuidLength
    ensures UnixTsMs(Uuid7(random, ts)) == Some(ts % TimestampModulus)
    ensures UnixTsMs(Uuid7(random, ts)) == Some(ts) <==> ts < TimestampModulus
  {
    if ts < TimestampModulus {
      DivModUnique(ts, TimestampModulus, 0, ts);
    }
  }

  /** Formatting keeps order: octets that first differ upward give text that sorts strictly before. */
  lemma FormatOrdered(b1: seq<bv8>, b2: seq<bv8>, k: nat)
    requires |b1| == UuidLength && |b2| == UuidLength && k < UuidLength
    requires b1[..k] == b2[..k] && b1[k] < b2[k]
    ensures Less(Format(b1), Format(b2))
  {
    var m := Bin2HexFirstDifference(b1, b2, k);
    var q := HyphenateFirstDifference(Bin2Hex(b1), Bin2Hex(b2), m);
    var s1, s2 := Format(b1), Format(b2);
    assert s1[..q] == s2[..q] && s1[q] < s2[q];
  }

  /** The patched version 7 octets of an earlier timestamp first differ upward from those of a later one, within octets 0 to 5. */
  lemma Uuid7OctetsOrdered(r1: seq<bv8>, t1: nat, r2: seq<bv8>, t2: nat) returns (k: nat)
    requires |r1| == UuidLength && |r2| == UuidLength
    requires t1 < t2 < TimestampModulus
    ensures k < TimestampLength
    ensures Patch(StoreTimestamp(r1, t1), V7)[..k] == Patch(StoreTimestamp(r2, t2), V7)[..k]
    ensures Patch(StoreTimestamp(r1, t1), V7)[k] < Patch(StoreTimestamp(r2, t2), V7)[k]
  {
    var a1, a2 := StoreTimestamp(r1, t1), StoreTimestamp(r2, t2);
    var b1, b2 := Patch(a1, V7), Patch(a2, V7);
    KeptOctets(a1, b1, r1);
    KeptOctets(a2, b2, r2);
    var p1, p2 := b1[..TimestampLength], b2[..TimestampLength];
    DivModUnique(t1, TimestampModulus, 0, t1);
    DivModUnique(t2, TimestampModulus, 0, t2);
    assert BeValue(p1) == t1 && BeValue(p2) == t2;
    k := BeValueFirstDifference(p1, p2);
    assert b1[..k] == p1[..k] && b2[..k] == p2[..k];
    assert b1[k] == p1[k] && b2[k] == p2[k];
  }

  /**
   Time ordering: a version 7 UUID taken at an earlier millisecond sorts
   strictly before one taken later, whatever the random octets, while
   both readings are below 2^48.
   */
  lemma Uuid7Ordered(r1: seq<bv8>, t1: nat, r2: seq<bv8>, t2: nat)
    requires |r1| == UuidLength && |r2| == UuidLength
    requires t1 < t2 < TimestampModulus
    ensures Less(Uuid7(r1, t1), Uuid7(r2, t2))
  {
    var k := Uuid7OctetsOrdered(r1, t1, r2, t2);
    FormatOrdered(Patch(StoreTimestamp(r1, t1), V7), Patch(StoreTimestamp(r2, t2), V7), k);
  }
}
