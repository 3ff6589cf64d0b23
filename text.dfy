/** The text normaliser `Scraper.parse_text`: drop line feeds and tabs, then strip
    surrounding whitespace. */
module TextNormalizer {
  import opened Chars

  /** Python's `s.lstrip()`: the longest whitespace prefix removed. */
  function LStrip(s: string): (r: string)
    ensures |r| <= |s| && r == s[|s| - |r|..]
    ensures forall k :: 0 <= k < |s| - |r| ==> IsSpace(s[k])
    ensures r == [] || !IsSpace(r[0])
  {
    if s != [] && IsSpace(s[0]) then LStrip(s[1..]) else s
  }

  /** Python's `s.rstrip()`: the longest whitespace suffix removed. */
  function RStrip(s: string): (r: string)
    ensures |r| <= |s| && r == s[..|r|]
    ensures forall k :: |r| <= k < |s| ==> IsSpace(s[k])
    ensures r == [] || !IsSpace(r[|r| - 1])
  {
    if s != [] && IsSpace(s[|s| - 1]) then RStrip(s[..|s| - 1]) else s
  }

  /** Python's `s.strip()`. */
  function Strip(s: string): string {
    RStrip(LStrip(s))
  }

  /** A string is stripped when it neither starts nor ends with whitespace. */
  predicate IsStripped(s: string) {
    s == [] || (!IsSpace(s[0]) && !IsSpace(s[|s| - 1]))
  }

  /** A suffix or a prefix has no character its string lacks. */
  lemma SliceKeepsAbsence(s: string, i: nat, c: char)
    requires i <= |s| && c !in s
    ensures c !in s[i..] && c !in s[..i]
  {
    assert forall k :: 0 <= k < |s| - i ==> s[i..][k] == s[i + k];
    assert forall k :: 0 <= k < i ==> s[..i][k] == s[k];
  }

  /** Stripping never brings in a character. */
  lemma StripKeepsAbsence(s: string, c: char)
    requires c !in s
    ensures c !in Strip(s)
  {
    var l := LStrip(s);
    SliceKeepsAbsence(s, |s| - |l|, c);
    SliceKeepsAbsence(l, |RStrip(l)|, c);
  }

  /** `Scraper.parse_text`. */
  function ParseText(text: string): (r: string)
    ensures '\n' !in r && '\t' !in r
    ensures IsStripped(r)
  {
    var noTabs := RemoveChar(RemoveChar(text, '\n'), '\t');
    StripKeepsAbsence(noTabs, '\n');
    StripKeepsAbsence(noTabs, '\t');
    Strip(noTabs)
  }

  /** `core` sits in `s` at offset `lo` with only whitespace around it. */
  ghost predicate IsCoreAt(s: string, lo: nat, core: string) {
    lo + |core| <= |s| && s[lo..lo + |core|] == core
    && (forall k :: 0 <= k < lo ==> IsSpace(s[k]))
    && (forall k :: lo + |core| <= k < |s| ==> IsSpace(s[k]))
  }

  /** A suffix of `s` cut after leading whitespace, then cut before trailing
      whitespace, is a core of `s`. */
  lemma CoreOfCuts(s: string, l: string, r: string)
    requires |l| <= |s| && l == s[|s| - |l|..] && |r| <= |l| && r == l[..|r|]
    requires forall k :: 0 <= k < |s| - |l| ==> IsSpace(s[k])
    requires forall k :: |r| <= k < |l| ==> IsSpace(l[k])
    ensures IsCoreAt(s, |s| - |l|, r)
  {
    var lo := |s| - |l|;
    SlicePrefix(s, lo, lo + |r|, |s|);
    forall k | lo + |r| <= k < |s| ensures IsSpace(s[k]) {
      assert s[k] == l[k - lo];
    }
  }

  /** `Strip` keeps a contiguous run of its input and drops only whitespace around it. */
  lemma StripKeepsCore(s: string)
    ensures IsCoreAt(s, |s| - |LStrip(s)|, Strip(s))
  {
    CoreOfCuts(s, LStrip(s), RStrip(LStrip(s)));
  }

  /** What `ParseText` keeps is a contiguous run of the input with line feeds and
      tabs taken out, and only whitespace is dropped around it. */
  lemma ParseTextKeepsCore(text: string)
    ensures exists lo :: IsCoreAt(RemoveChar(RemoveChar(text, '\n'), '\t'), lo, ParseText(text))
  {
    var noTabs := RemoveChar(RemoveChar(text, '\n'), '\t');
    StripKeepsCore(noTabs);
    assert ParseText(text) == Strip(noTabs);
  }

  /** Stripping a stripped string changes nothing. */
  lemma StripStripped(s: string)
    requires IsStripped(s)
    ensures Strip(s) == s
  {
  }

  /** Normalising twice is normalising once. */
  lemma ParseTextIdempotent(text: string)
    ensures ParseText(ParseText(text)) == ParseText(text)
  {
    var r := ParseText(text);
    RemoveAbsentChar(r, '\n');
    RemoveAbsentChar(r, '\t');
    StripStripped(r);
  }
}
