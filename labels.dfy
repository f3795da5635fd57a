/** The Python string operations the classification flows apply to class
    labels: `split('_')[0]`, `lower()`, `replace('_', ' ')` and `title()`,
    for ASCII text. */
module Labels {

  /** The character that joins the parts of a class label. */
  const Separator: char := '_'

  predicate IsUpper(c: char)
  {
    'A' <= c <= 'Z'
  }

  predicate IsLower(c: char)
  {
    'a' <= c <= 'z'
  }

  /** Python's "cased" characters, for ASCII: the letters. */
  predicate IsLetter(c: char)
  {
    IsUpper(c) || IsLower(c)
  }

  function LowerChar(c: char): (d: char)
    ensures !IsUpper(d) && IsLetter(d) == IsLetter(c)
    ensures !IsUpper(c) ==> d == c
  {
    if IsUpper(c) then (c as int + 32) as char else c
  }

  function UpperChar(c: char): (d: char)
    ensures !IsLower(d) && IsLetter(d) == IsLetter(c)
    ensures !IsLower(c) ==> d == c
  {
    if IsLower(c) then (c as int - 32) as char else c
  }

  /** Upper- and lower-casing forget the case a letter had before. */
  lemma CaseMappingsAbsorb(c: char)
    ensures LowerChar(UpperChar(c)) == LowerChar(c)
    ensures UpperChar(LowerChar(c)) == UpperChar(c)
  {
  }

  // ---------------------------------------------------------------------
  // split('_')[0]

  /** `s.split('_')[0]`: the longest prefix of `s` without a separator. */
  function FirstSegment(s: string): (r: string)
    ensures r <= s
    ensures Separator !in r
    ensures |r| < |s| ==> s[|r|] == Separator
    ensures Separator !in s ==> r == s
  {
    if s == [] || s[0] == Separator then [] else [s[0]] + FirstSegment(s[1..])
  }

  /** Splitting a first segment again gives it back. */
  lemma FirstSegmentIdempotent(s: string)
    ensures FirstSegment(FirstSegment(s)) == FirstSegment(s)
  {
  }

  // ---------------------------------------------------------------------
  // lower()

  /** `s.lower()` on ASCII text. */
  function Lower(s: string): (r: string)
    ensures |r| == |s|
    ensures forall i :: 0 <= i < |r| ==> !IsUpper(r[i])
    ensures forall i :: 0 <= i < |s| && !IsUpper(s[i]) ==> r[i] == s[i]
    ensures forall i :: 0 <= i < |s| && IsUpper(s[i]) ==> r[i] as int == s[i] as int + 32
  {
    seq(|s|, i requires 0 <= i < |s| => LowerChar(s[i]))
  }

  /** Lower-casing twice is lower-casing once. */
  lemma LowerIdempotent(s: string)
    ensures Lower(Lower(s)) == Lower(s)
  {
    assert forall i :: 0 <= i < |s| ==> Lower(Lower(s))[i] == Lower(s)[i];
  }

  // ---------------------------------------------------------------------
  // replace('_', ' ')

  /** `s.replace('_', ' ')`. */
  function SeparatorsToSpaces(s: string): (r: string)
    ensures |r| == |s| && Separator !in r
    ensures forall i :: 0 <= i < |s| ==> r[i] == (if s[i] == Separator then ' ' else s[i])
  {
    seq(|s|, i requires 0 <= i < |s| => if s[i] == Separator then ' ' else s[i])
  }

  // ---------------------------------------------------------------------
  // title()

  /** `title()` from a position whose previous character was (or, at the
      start, was not) a letter: each letter is upper-cased after a
      non-letter and lower-cased after a letter. */
  function TitleFrom(s: string, afterLetter: bool): (r: string)
    ensures |r| == |s|
  {
    if s == [] then []
    else [if afterLetter then LowerChar(s[0]) else UpperChar(s[0])] + TitleFrom(s[1..], IsLetter(s[0]))
  }

  /** `s.title()` on ASCII text. */
  function Title(s: string): (r: string)
    ensures |r| == |s|
  {
    TitleFrom(s, false)
  }

  /** Position i begins a word: it is not preceded by a letter. */
  predicate StartsWord(s: string, i: nat)
    requires i < |s|
  {
    i == 0 || !IsLetter(s[i - 1])
  }

  /** The character-level rule of `title()`. */
  predicate TitleCasedAt(s: string, r: string, i: nat)
    requires i < |s| && |r| == |s|
  {
    r[i] == if StartsWord(s, i) then UpperChar(s[i]) else LowerChar(s[i])
  }

  lemma {:induction false} TitleFromAt(s: string, afterLetter: bool, i: nat)
    requires i < |s|
    ensures TitleFrom(s, afterLetter)[i] ==
      if (if i == 0 then afterLetter else IsLetter(s[i - 1])) then LowerChar(s[i]) else UpperChar(s[i])
  {
    if i > 0 {
      TitleFromAt(s[1..], IsLetter(s[0]), i - 1);
      if i > 1 {
        assert s[1..][i - 2] == s[i - 1];
      }
    }
  }

  /** Every character of `title()` follows the rule: the first letter of each
      word upper-cased, the other letters lower-cased, the rest unchanged. */
  lemma TitleAt(s: string)
    ensures forall i :: 0 <= i < |s| ==> TitleCasedAt(s, Title(s), i)
  {
    forall i | 0 <= i < |s|
      ensures TitleCasedAt(s, Title(s), i)
    {
      TitleFromAt(s, false, i);
    }
  }

  /** Title-casing a title-cased string changes nothing. */
  lemma TitleIdempotent(s: string)
    ensures Title(Title(s)) == Title(s)
  {
    var t := Title(s);
    TitleAt(s);
    TitleAt(t);
    forall i | 0 <= i < |s|
      ensures Title(t)[i] == t[i]
    {
      assert TitleCasedAt(s, t, i) && TitleCasedAt(t, Title(t), i);
      CaseMappingsAbsorb(s[i]);
      if i > 0 {
        assert TitleCasedAt(s, t, i - 1);
      }
      assert StartsWord(t, i) == StartsWord(s, i);
    }
  }

  // ---------------------------------------------------------------------
  // replace('_', ' ').title()

  /** The disease name as the infected flow formats it. */
  function FormatDiseaseName(s: string): (r: string)
    ensures |r| == |s|
  {
    Title(SeparatorsToSpaces(s))
  }

  /** The formatted disease name has no separator, starts each word with a
      capital and keeps the other letters lower-case; every non-letter
      other than the separator is kept. Character by character: a separator
      becomes a space, and every other character of the label is upper-cased
      where it starts a word and lower-cased where it follows a letter. */
  lemma FormatDiseaseNameShape(s: string)
    ensures forall i :: 0 <= i < |s| ==>
      FormatDiseaseName(s)[i] == (if s[i] == Separator then ' '
                                  else if StartsWord(s, i) then UpperChar(s[i]) else LowerChar(s[i]))
    ensures Separator !in FormatDiseaseName(s)
    ensures forall i :: 0 <= i < |s| && StartsWord(s, i) && IsLetter(s[i]) ==>
      IsUpper(FormatDiseaseName(s)[i])
    ensures forall i :: 0 <= i < |s| && !StartsWord(s, i) ==> !IsUpper(FormatDiseaseName(s)[i])
    ensures forall i :: 0 <= i < |s| && !IsLetter(s[i]) ==>
      FormatDiseaseName(s)[i] == (if s[i] == Separator then ' ' else s[i])
  {
    var spaced := SeparatorsToSpaces(s);
    var r := FormatDiseaseName(s);
    TitleAt(spaced);
    forall i | 0 <= i < |s|
      ensures r[i] == (if s[i] == Separator then ' '
                       else if StartsWord(s, i) then UpperChar(s[i]) else LowerChar(s[i]))
      ensures r[i] != Separator
      ensures StartsWord(s, i) && IsLetter(s[i]) ==> IsUpper(r[i])
      ensures !StartsWord(s, i) ==> !IsUpper(r[i])
      ensures !IsLetter(s[i]) ==> r[i] == (if s[i] == Separator then ' ' else s[i])
    {
      assert TitleCasedAt(spaced, r, i);
      assert spaced[i] == (if s[i] == Separator then ' ' else s[i]);
      if i > 0 {
        assert spaced[i - 1] == (if s[i - 1] == Separator then ' ' else s[i - 1]);
        assert IsLetter(spaced[i - 1]) == IsLetter(s[i - 1]);
      }
      assert StartsWord(spaced, i) == StartsWord(s, i);
    }
  }

  /** Formatting an already formatted name changes nothing. */
  lemma FormatDiseaseNameIdempotent(s: string)
    ensures FormatDiseaseName(FormatDiseaseName(s)) == FormatDiseaseName(s)
  {
    var r := FormatDiseaseName(s);
    FormatDiseaseNameShape(s);
    assert SeparatorsToSpaces(r) == r;
    TitleIdempotent(SeparatorsToSpaces(s));
  }
}
