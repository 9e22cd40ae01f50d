/**
 The textual layout of a UUID: 32 hexadecimal digits split into groups of
 8, 4, 4, 4 and 12 by hyphens, 36 characters in all, as `ID::uuid4` and
 `ID::uuid7` assemble it from `substr` pieces of the `bin2hex` text.
 */
module Layout {

  const DigitCount: nat := 32
  const TextLength: nat := 36

  /** The four positions of the 36-character text that hold a hyphen. */
  predicate IsHyphenPosition(p: int) {
    p == 8 || p == 13 || p == 18 || p == 23
  }

  /** For a digit position `p` of the text, the index of the digit it shows. */
  function DigitIndex(p: nat): nat {
    if p < 8 then p
    else if p < 13 then p - 1
    else if p < 18 then p - 2
    else if p < 23 then p - 3
    else p - 4
  }

  /** The text position at which digit `j` is shown. */
  function TextPosition(j: nat): (p: nat)
    ensures j < DigitCount ==> p < TextLength && !IsHyphenPosition(p) && DigitIndex(p) == j
  {
    if j < 8 then j
    else if j < 12 then j + 1
    else if j < 16 then j + 2
    else if j < 20 then j + 3
    else j + 4
  }

  /**
   The `sprintf('%s-%s-%s-%s-%s', ...)` of the five `substr` groups at
   offsets 0, 8, 12, 16 and 20, of lengths 8, 4, 4, 4 and 12.
   */
  function Hyphenate(h: seq<char>): (s: seq<char>)
    requires |h| == DigitCount
    ensures |s| == TextLength
    ensures forall p :: 0 <= p < TextLength ==> s[p] == if IsHyphenPosition(p) then '-' else h[DigitIndex(p)]
  {
    h[0..8] + "-" + h[8..12] + "-" + h[12..16] + "-" + h[16..20] + "-" + h[20..32]
  }

  /** `s` has the 8-4-4-4-12 shape: 36 characters, with hyphens exactly at the four hyphen positions. */
  predicate IsHyphenated(s: seq<char>) {
    && |s| == TextLength
    && forall p :: 0 <= p < TextLength ==> (s[p] == '-' <==> IsHyphenPosition(p))
  }

  /** `s` with every hyphen deleted. */
  function Dehyphenate(s: seq<char>): (r: seq<char>)
    ensures '-' !in r
    ensures |r| <= |s|
  {
    if |s| == 0 then []
    else (if s[0] == '-' then [] else [s[0]]) + Dehyphenate(s[1..])
  }

  /** Deleting hyphens from a concatenation deletes them from each part. */
  lemma {:induction false} DehyphenateConcat(a: seq<char>, b: seq<char>)
    ensures Dehyphenate(a + b) == Dehyphenate(a) + Dehyphenate(b)
  {
    if |a| > 0 {
      assert (a + b)[1..] == a[1..] + b;
      DehyphenateConcat(a[1..], b);
    } else {
      assert a + b == b;
    }
  }

  /** Text without hyphens is left as it is. */
  lemma {:induction false} DehyphenateNoHyphens(s: seq<char>)
    requires '-' !in s
    ensures Dehyphenate(s) == s
  {
    if |s| > 0 {
      DehyphenateNoHyphens(s[1..]);
      assert [s[0]] + s[1..] == s;
    }
  }

  /** Deleting the hyphen between two parts joins the parts. */
  lemma DehyphenateJoin(a: seq<char>, b: seq<char>)
    ensures Dehyphenate(a + "-" + b) == Dehyphenate(a) + Dehyphenate(b)
  {
    var hyphen := "-";
    assert Dehyphenate(hyphen) == [] by {
      assert hyphen[1..] == [];
    }
    DehyphenateConcat(a, hyphen);
    DehyphenateConcat(a + hyphen, b);
  }

  /** A slice of hyphen-free text is hyphen-free. */
  lemma NoHyphenSlice(s: seq<char>, i: nat, j: nat)
    requires i <= j <= |s| && '-' !in s
    ensures '-' !in s[i..j]
  {
  }

  /** Deleting the hyphens between five hyphen-free groups concatenates the groups. */
  lemma DehyphenateGroups(g0: seq<char>, g1: seq<char>, g2: seq<char>, g3: seq<char>, g4: seq<char>)
    requires '-' !in g0 && '-' !in g1 && '-' !in g2 && '-' !in g3 && '-' !in g4
    ensures Dehyphenate(g0 + "-" + g1 + "-" + g2 + "-" + g3 + "-" + g4) == g0 + g1 + g2 + g3 + g4
  {
    DehyphenateJoin(g0 + "-" + g1 + "-" + g2 + "-" + g3, g4);
    DehyphenateJoin(g0 + "-" + g1 + "-" + g2, g3);
    DehyphenateJoin(g0 + "-" + g1, g2);
    DehyphenateJoin(g0, g1);
    DehyphenateNoHyphens(g0);
    DehyphenateNoHyphens(g1);
    DehyphenateNoHyphens(g2);
    DehyphenateNoHyphens(g3);
    DehyphenateNoHyphens(g4);
  }

  /** Deleting the hyphens of the layout gives the 32 digits back. */
  lemma DehyphenateHyphenate(h: seq<char>)
    requires |h| == DigitCount && '-' !in h
    ensures Dehyphenate(Hyphenate(h)) == h
  {
    NoHyphenSlice(h, 0, 8);
    NoHyphenSlice(h, 8, 12);
    NoHyphenSlice(h, 12, 16);
    NoHyphenSlice(h, 16, 20);
    NoHyphenSlice(h, 20, 32);
    DehyphenateGroups(h[0..8], h[8..12], h[12..16], h[16..20], h[20..32]);
    assert h[0..8] + h[8..12] + h[12..16] + h[16..20] + h[20..32] == h;
  }

  /** The digits of text of the 8-4-4-4-12 shape: its five groups, concatenated. */
  lemma DigitsOfHyphenated(s: seq<char>)
    requires IsHyphenated(s)
    ensures Dehyphenate(s) == s[0..8] + s[9..13] + s[14..18] + s[19..23] + s[24..36]
  {
    var g0, g1, g2, g3, g4 := s[0..8], s[9..13], s[14..18], s[19..23], s[24..36];
    assert s == g0 + "-" + g1 + "-" + g2 + "-" + g3 + "-" + g4;
    forall p | 0 <= p < TextLength && !IsHyphenPosition(p)
      ensures s[p] != '-'
    {
    }
    assert '-' !in g0 && '-' !in g1 && '-' !in g2 && '-' !in g3 && '-' !in g4;
    DehyphenateGroups(g0, g1, g2, g3, g4);
  }

  /** Text of the 8-4-4-4-12 shape is the layout of its own digits. */
  lemma HyphenateDehyphenate(s: seq<char>)
    requires IsHyphenated(s)
    ensures |Dehyphenate(s)| == DigitCount
    ensures Hyphenate(Dehyphenate(s)) == s
  {
    DigitsOfHyphenated(s);
    var d := Dehyphenate(s);
    assert forall j :: 0 <= j < DigitCount ==> d[j] == s[TextPosition(j)];
    var t := Hyphenate(d);
    forall p | 0 <= p < TextLength
      ensures t[p] == s[p]
    {
      if !IsHyphenPosition(p) {
        assert TextPosition(DigitIndex(p)) == p;
      }
    }
  }

  /**
   The layout keeps text order: when two digit strings first differ at
   digit `m`, their layouts first differ at the position showing digit
   `m`, with the same comparison there.
   */
  lemma HyphenateFirstDifference(h1: seq<char>, h2: seq<char>, m: nat) returns (q: nat)
    requires |h1| == DigitCount && |h2| == DigitCount && m < DigitCount
    requires h1[..m] == h2[..m] && h1[m] < h2[m]
    ensures q < TextLength
    ensures Hyphenate(h1)[..q] == Hyphenate(h2)[..q] && Hyphenate(h1)[q] < Hyphenate(h2)[q]
  {
    q := TextPosition(m);
    var s1, s2 := Hyphenate(h1), Hyphenate(h2);
    forall p | 0 <= p < q
      ensures s1[p] == s2[p]
    {
      if !IsHyphenPosition(p) {
        var j := DigitIndex(p);
        assert j < m;
        assert h1[j] == h1[..m][j] == h2[..m][j] == h2[j];
      }
    }
  }
}
