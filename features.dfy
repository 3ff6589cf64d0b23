/** `Scraper.parse_features` over `FEATURE_UNIT_DICT`: the case-insensitive pattern
    `(\d+\.?\d*)\s?(m2\.?|m²\.?|amb\.?|dorm\.?|bañ[oo]s?\.?|coch\.?)` is searched with
    `findall`, every match's unit is canonicalised and mapped to a field name, and a
    dictionary is filled in match order, so that a later match of a unit wins. */
module FeatureParser {
  import opened Chars

  /** `FEATURE_UNIT_DICT`. */
  const FeatureUnitDict: map<string, string> := map[
    "m\U{B2}" := "square_meters_area",
    "amb" := "rooms",
    "dorm" := "bedrooms",
    "ba\U{F1}o" := "bathrooms",
    "ba\U{F1}os" := "bathrooms",
    "coch" := "parking"
  ]

  /** The five field names a feature can be stored under. */
  const FeatureFields: set<string> :=
    {"square_meters_area", "rooms", "bedrooms", "bathrooms", "parking"}

  lemma FeatureFieldsAreDictValues()
    ensures FeatureUnitDict.Values == FeatureFields
  {
    assert FeatureUnitDict["m\U{B2}"] == "square_meters_area";
    assert FeatureUnitDict["amb"] == "rooms";
    assert FeatureUnitDict["dorm"] == "bedrooms";
    assert FeatureUnitDict["ba\U{F1}o"] == "bathrooms";
    assert FeatureUnitDict["coch"] == "parking";
  }

  // ---------------------------------------------------------------------------------
  // Case-insensitive matching of the pattern's unit literals

  /** Upper-case partner of a lower-case pattern character (ASCII letters and `ñ`). */
  function UpperOf(p: char): char {
    if 'a' <= p <= 'z' then (p as int - 32) as char
    else if p == '\U{F1}' then '\U{D1}'
    else p
  }

  /** Under `re.IGNORECASE` the text character `c` matches the lower-case pattern
      character `p`: itself, its upper-case form, and for `s` also the long s U+017F. */
  predicate MatchesCI(c: char, p: char) {
    c == p || c == UpperOf(p) || (p == 's' && c == '\U{17F}')
  }

  /** The pattern literal `lit` matches case-insensitively at position `p`. */
  predicate HasCI(s: string, p: nat, lit: string) {
    p + |lit| <= |s| && forall k :: 0 <= k < |lit| ==> MatchesCI(s[p + k], lit[k])
  }

  /** `u` is matched in full, case-insensitively, by the literal `lit`. */
  predicate EqualsCI(u: string, lit: string) {
    |u| == |lit| && forall k :: 0 <= k < |u| ==> MatchesCI(u[k], lit[k])
  }

  // ---------------------------------------------------------------------------------
  // What the pattern matches, stated declaratively

  /** `t` is matched in full by `\d+\.?\d*`: a digit first, then digits with at most
      one `.` among them. */
  predicate IsFeatureNumber(t: string) {
    && |t| >= 1 && IsDigit(t[0])
    && (forall k :: 0 <= k < |t| ==> IsDigit(t[k]) || t[k] == '.')
    && (forall k, l :: 0 <= k < l < |t| && t[k] == '.' ==> t[l] != '.')
  }

  /** The unit stems of the alternation, without their optional trailing `.`. */
  predicate IsUnitStem(b: string) {
    || EqualsCI(b, "m2") || EqualsCI(b, "m\U{B2}") || EqualsCI(b, "amb")
    || EqualsCI(b, "dorm") || EqualsCI(b, "ba\U{F1}o") || EqualsCI(b, "ba\U{F1}os")
    || EqualsCI(b, "coch")
  }

  /** `u` is matched in full by the unit alternation. */
  predicate IsUnitToken(u: string) {
    IsUnitStem(u) || (|u| > 0 && u[|u| - 1] == '.' && IsUnitStem(u[..|u| - 1]))
  }

  /** The whole pattern matches `s[i..q]` with the number in `s[i..e]` and the unit in
      `s[p..q]`. */
  predicate IsOccurrence(s: string, i: nat, e: nat, p: nat, q: nat) {
    && i < e <= p <= q <= |s|
    && IsFeatureNumber(s[i..e])
    && (p == e || (p == e + 1 && IsSpace(s[e])))
    && IsUnitToken(s[p..q])
  }

  // ---------------------------------------------------------------------------------
  // The scanner

  /** End of `\d+\.?\d*` taken greedily from a digit at `i`. */
  function NumberEnd(s: string, i: nat): (e: nat)
    requires i < |s| && IsDigit(s[i])
    ensures i < e <= |s|
  {
    var a := i + DigitRun(s, i);
    if a < |s| && s[a] == '.' then a + 1 + DigitRun(s, a + 1) else a
  }

  /** End of the unit stem matched at `p`: the first alternative that matches, with
      the optional `s` of `bañ[oo]s?` taken when present. */
  function StemEndAt(s: string, p: nat): (t: Option<nat>)
    requires p <= |s|
    ensures t.Some? ==> p < t.value <= |s|
  {
    if HasCI(s, p, "m2") || HasCI(s, p, "m\U{B2}") then Some(p + 2)
    else if HasCI(s, p, "amb") then Some(p + 3)
    else if HasCI(s, p, "dorm") then Some(p + 4)
    else if HasCI(s, p, "ba\U{F1}o") then
      Some(if p + 4 < |s| && MatchesCI(s[p + 4], 's') then p + 5 else p + 4)
    else if HasCI(s, p, "coch") then Some(p + 4)
    else None
  }

  /** End of the unit alternation matched at `p`: the stem and a greedy optional `.`;
      nothing follows the unit in the pattern, so no backtracking happens. */
  function UnitMatchAt(s: string, p: nat): (q: Option<nat>)
    requires p <= |s|
    ensures q.Some? ==> p < q.value <= |s|
  {
    match StemEndAt(s, p)
    case None => None
    case Some(t) => Some(if t < |s| && s[t] == '.' then t + 1 else t)
  }

  /** One match of the pattern: the number group, and the unit group with its start. */
  datatype FeatureMatch = FeatureMatch(start: nat, number: string, unitStart: nat, unit: string)
  {
    function End(): nat { unitStart + |unit| }
  }

  /** The match the engine finds when it tries the pattern at position `i`. */
  function FeatureMatchAt(s: string, i: nat): (m: Option<FeatureMatch>)
    requires i <= |s|
    ensures m.Some? ==> m.value.start == i < m.value.End() <= |s|
  {
    if i == |s| || !IsDigit(s[i]) then None
    else
      var e := NumberEnd(s, i);
      var p := UnitStart(s, i);
      match UnitMatchAt(s, p)
      case None => None
      case Some(q) => Some(FeatureMatch(i, s[i..e], p, s[p..q]))
  }

  /** `pattern.findall(s[from..])`: the non-overlapping matches, left to right. */
  function MatchesFrom(s: string, from: nat): seq<FeatureMatch>
    requires from <= |s|
    decreases |s| - from
  {
    if from == |s| then []
    else
      match FeatureMatchAt(s, from)
      case Some(m) => [m] + MatchesFrom(s, m.End())
      case None => MatchesFrom(s, from + 1)
  }

  function FeatureMatches(text: string): seq<FeatureMatch> {
    MatchesFrom(text, 0)
  }

  // ---------------------------------------------------------------------------------
  // Canonicalisation of a matched unit

  /** Python's `str.lower()` on the characters a unit can hold. */
  function LowerChar(c: char): char {
    if 'A' <= c <= 'Z' then (c as int + 32) as char
    else if c == '\U{D1}' then '\U{F1}'
    else c
  }

  function Lower(s: string): (r: string)
    ensures |r| == |s| && forall k :: 0 <= k < |s| ==> r[k] == LowerChar(s[k])
  {
    seq(|s|, k requires 0 <= k < |s| => LowerChar(s[k]))
  }

  /** Python's `s.rstrip(c)`. */
  function RStripChar(s: string, c: char): (r: string)
    ensures |r| <= |s| && r == s[..|r|]
    ensures r == [] || r[|r| - 1] != c
    ensures forall k :: |r| <= k < |s| ==> s[k] == c
  {
    if s != [] && s[|s| - 1] == c then RStripChar(s[..|s| - 1], c) else s
  }

  /** The `if`/`elif` chain that folds spelling variants onto one unit key. */
  function CanonicalUnit(u: string): string {
    if u == "m2" || u == "m\U{B2}" then "m\U{B2}"
    else if StartsWith(u, "amb") then "amb"
    else if StartsWith(u, "dorm") then "dorm"
    else if StartsWith(u, "ba\U{F1}") then "ba\U{F1}os"
    else if StartsWith(u, "coch") then "coch"
    else u
  }

  /** `FEATURE_UNIT_DICT.get(unit_clean, unit_clean)` for `unit_clean` computed from the
      raw unit by lower-casing, stripping trailing dots and canonicalising. */
  function FeatureKey(rawUnit: string): string {
    var unitClean := CanonicalUnit(RStripChar(Lower(rawUnit), '.'));
    if unitClean in FeatureUnitDict then FeatureUnitDict[unitClean] else unitClean
  }

  // ---------------------------------------------------------------------------------
  // The dictionary built from the matches

  /** The dictionary after the loop of `parse_features` has run over `ms`. */
  function FeatureMap(ms: seq<FeatureMatch>): map<string, string> {
    if ms == [] then map[]
    else FeatureMap(ms[..|ms| - 1])[FeatureKey(ms[|ms| - 1].unit) := ms[|ms| - 1].number]
  }

  /** `ms[j]` is the last match whose unit maps to its field. */
  ghost predicate IsLastOfKey(ms: seq<FeatureMatch>, j: int) {
    0 <= j < |ms| && forall l :: j < l < |ms| ==> FeatureKey(ms[l].unit) != FeatureKey(ms[j].unit)
  }

  // ---------------------------------------------------------------------------------
  // The unit alternation

  /** Every unit stem starts with a letter, so no unit starts with a digit, a `.` or
      whitespace. */
  lemma UnitStemStart(b: string)
    requires IsUnitStem(b)
    ensures |b| >= 2 && !IsDigit(b[0]) && b[0] != '.' && !IsSpace(b[0])
  {
  }

  /** A unit token at `p` means one of the scanner's literals matches at `p`. */
  lemma UnitStemHasCI(s: string, p: nat, q: nat)
    requires p <= q <= |s| && IsUnitStem(s[p..q])
    ensures || HasCI(s, p, "m2") || HasCI(s, p, "m\U{B2}") || HasCI(s, p, "amb")
            || HasCI(s, p, "dorm") || HasCI(s, p, "ba\U{F1}o") || HasCI(s, p, "coch")
  {
    var b := s[p..q];
    assert forall k :: 0 <= k < |b| ==> b[k] == s[p + k];
    if EqualsCI(b, "ba\U{F1}os") {
      assert forall k :: 0 <= k < 4 ==> "ba\U{F1}os"[k] == "ba\U{F1}o"[k];
    }
  }

  /** When the alternation fails at `p`, no unit token starts at `p`. */
  lemma UnitMatchAtComplete(s: string, p: nat)
    requires p <= |s| && UnitMatchAt(s, p).None?
    ensures forall q :: p <= q <= |s| ==> !IsUnitToken(s[p..q])
  {
    forall q | p <= q <= |s| ensures !IsUnitToken(s[p..q]) {
      if IsUnitStem(s[p..q]) {
        UnitStemHasCI(s, p, q);
      } else if q > p && s[q - 1] == '.' && IsUnitStem(s[p..q][..q - 1 - p]) {
        SlicePrefix(s, p, q - 1, q);
        UnitStemHasCI(s, p, q - 1);
      }
    }
  }

  /** The first character of a unit token fixes its stem, hence its length. */
  lemma UnitStemLength(b: string)
    requires IsUnitStem(b)
    ensures MatchesCI(b[0], 'm') ==> |b| == 2
    ensures MatchesCI(b[0], 'a') ==> |b| == 3 && EqualsCI(b, "amb")
    ensures MatchesCI(b[0], 'd') ==> |b| == 4 && EqualsCI(b, "dorm")
    ensures MatchesCI(b[0], 'c') ==> |b| == 4 && EqualsCI(b, "coch")
    ensures MatchesCI(b[0], 'b') ==> EqualsCI(b, "ba\U{F1}o") || EqualsCI(b, "ba\U{F1}os")
    ensures MatchesCI(b[0], 'm') || MatchesCI(b[0], 'a') || MatchesCI(b[0], 'd')
            || MatchesCI(b[0], 'c') || MatchesCI(b[0], 'b')
  {
  }

  /** The stem found at `p` is a unit stem, and the longest one starting at `p`. */
  lemma StemEndAtSound(s: string, p: nat)
    requires p <= |s| && StemEndAt(s, p).Some?
    ensures IsUnitStem(s[p..StemEndAt(s, p).value])
    ensures forall t' :: p <= t' <= |s| && IsUnitStem(s[p..t']) ==> t' <= StemEndAt(s, p).value
  {
    var t := StemEndAt(s, p).value;
    var b := s[p..t];
    assert forall k :: 0 <= k < |b| ==> b[k] == s[p + k];
    if t == p + 5 {
      assert forall k :: 0 <= k < 4 ==> "ba\U{F1}os"[k] == "ba\U{F1}o"[k];
      assert EqualsCI(b, "ba\U{F1}os");
    }
    forall t' | p <= t' <= |s| && IsUnitStem(s[p..t']) ensures t' <= t {
      var b' := s[p..t'];
      UnitStemLength(b');
      assert b'[0] == s[p];
      assert "m2"[0] == 'm' && "m\U{B2}"[0] == 'm' && "amb"[0] == 'a' && "dorm"[0] == 'd';
      assert "ba\U{F1}o"[0] == 'b' && "coch"[0] == 'c';
      if t' - p == 5 {
        assert b'[4] == s[p + 4];
      }
    }
  }

  /** What the alternation matches at `p` is a unit token. */
  lemma UnitMatchAtIsToken(s: string, p: nat)
    requires p <= |s| && UnitMatchAt(s, p).Some?
    ensures IsUnitToken(s[p..UnitMatchAt(s, p).value])
  {
    var q := UnitMatchAt(s, p).value;
    var t := StemEndAt(s, p).value;
    StemEndAtSound(s, p);
    if q == t + 1 {
      SlicePrefix(s, p, t, q);
    }
  }

  /** No unit token starting at `p` is longer than what the alternation matches. */
  lemma UnitMatchAtLongest(s: string, p: nat)
    requires p <= |s| && UnitMatchAt(s, p).Some?
    ensures forall q' :: UnitMatchAt(s, p).value < q' <= |s| ==> !IsUnitToken(s[p..q'])
  {
    var q := UnitMatchAt(s, p).value;
    var t := StemEndAt(s, p).value;
    assert t <= q && (q == t ==> t == |s| || s[t] != '.');
    StemEndAtSound(s, p);
    forall q' | q < q' <= |s| ensures !IsUnitToken(s[p..q']) {
      var u := s[p..q'];
      assert !IsUnitStem(u);
      if u[|u| - 1] == '.' {
        SlicePrefix(s, p, q' - 1, q');
        assert s[q' - 1] == '.';
        assert !IsUnitStem(s[p..q' - 1]);
      }
    }
  }

  /** What the alternation matches at `p` is a unit token, and no longer one starts at `p`. */
  lemma UnitMatchAtSound(s: string, p: nat)
    requires p <= |s| && UnitMatchAt(s, p).Some?
    ensures IsUnitToken(s[p..UnitMatchAt(s, p).value])
    ensures forall q' :: UnitMatchAt(s, p).value < q' <= |s| ==> !IsUnitToken(s[p..q'])
  {
    UnitMatchAtIsToken(s, p);
    UnitMatchAtLongest(s, p);
  }

  /** A unit token starts with a letter. */
  lemma UnitTokenStart(u: string)
    requires IsUnitToken(u)
    ensures |u| >= 2 && !IsDigit(u[0]) && u[0] != '.' && !IsSpace(u[0])
  {
    if IsUnitStem(u) {
      UnitStemStart(u);
    } else {
      UnitStemStart(u[..|u| - 1]);
    }
  }

  // ---------------------------------------------------------------------------------
  // One attempt of the whole pattern

  /** The greedy number is a token of `\d+\.?\d*`, every character it spans is a digit
      or a `.`, and no longer token starts at `i`. */
  lemma NumberEndSound(s: string, i: nat)
    requires i < |s| && IsDigit(s[i])
    ensures var e := NumberEnd(s, i);
            && IsFeatureNumber(s[i..e])
            && (forall k :: i <= k < e ==> IsDigit(s[k]) || s[k] == '.')
            && (forall e' :: e < e' <= |s| ==> !IsFeatureNumber(s[i..e']))
  {
    var a := i + DigitRun(s, i);
    var e := NumberEnd(s, i);
    var t := s[i..e];
    if a < |s| && s[a] == '.' {
      forall k, l | 0 <= k < l < |t| && t[k] == '.' ensures t[l] != '.' {
        assert t[k] == s[i + k] && t[l] == s[i + l];
      }
      forall e' | e < e' <= |s| ensures !IsFeatureNumber(s[i..e']) {
        var t' := s[i..e'];
        assert t'[a - i] == '.' && t'[e - i] == s[e];
      }
    } else {
      forall e' | e < e' <= |s| ensures !IsFeatureNumber(s[i..e']) {
        var t' := s[i..e'];
        assert t'[a - i] == s[a];
      }
    }
  }

  /** Where the unit begins after the number that starts at `i`: one whitespace
      character is skipped when present. */
  function UnitStart(s: string, i: nat): (p: nat)
    requires i < |s| && IsDigit(s[i])
    ensures p <= |s|
  {
    var e := NumberEnd(s, i);
    if e < |s| && IsSpace(s[e]) then e + 1 else e
  }

  /** Every occurrence at `i` has the greedy number and the unit start that follows it:
      the unit begins with a letter, so the number cannot stop early, and `\s?` cannot
      give up a whitespace character. */
  lemma OccurrenceIsGreedy(s: string, i: nat, e: nat, p: nat, q: nat)
    requires IsOccurrence(s, i, e, p, q)
    ensures IsDigit(s[i]) && e == NumberEnd(s, i) && p == UnitStart(s, i)
  {
    assert s[i..e][0] == s[i];
    NumberEndSound(s, i);
    UnitTokenStart(s[p..q]);
    assert s[p..q][0] == s[p];
  }

  /** When the attempt at `i` fails, the pattern has no occurrence starting at `i`. */
  lemma FeatureMatchAtFails(s: string, i: nat)
    requires i <= |s| && FeatureMatchAt(s, i).None?
    ensures forall e: nat, p: nat, q: nat :: !IsOccurrence(s, i, e, p, q)
  {
    forall e: nat, p: nat, q: nat ensures !IsOccurrence(s, i, e, p, q) {
      if IsOccurrence(s, i, e, p, q) {
        OccurrenceIsGreedy(s, i, e, p, q);
        UnitMatchAtComplete(s, p);
      }
    }
  }

  /** A match assembled from a number token and a unit token is an occurrence. */
  lemma MatchOfTokens(s: string, i: nat, e: nat, p: nat, q: nat, m: FeatureMatch)
    requires i < e <= p <= q <= |s| && (p == e || (p == e + 1 && IsSpace(s[e])))
    requires IsFeatureNumber(s[i..e]) && IsUnitToken(s[p..q])
    requires m == FeatureMatch(i, s[i..e], p, s[p..q])
    ensures && IsOccurrence(s, i, i + |m.number|, m.unitStart, m.End())
            && m.number == s[i..i + |m.number|] && m.unit == s[m.unitStart..m.End()]
            && IsFeatureNumber(m.number) && IsUnitToken(m.unit)
  {
    assert i + |m.number| == e && m.unitStart == p && m.End() == q;
  }

  /** When the attempt at `i` succeeds, it reports an occurrence whose groups are slices
      of `s`: a number of `\d+\.?\d*` and a unit token. */
  lemma FeatureMatchAtOccurs(s: string, i: nat)
    requires i <= |s| && FeatureMatchAt(s, i).Some?
    ensures var m := FeatureMatchAt(s, i).value;
            && IsOccurrence(s, i, i + |m.number|, m.unitStart, m.End())
            && m.number == s[i..i + |m.number|] && m.unit == s[m.unitStart..m.End()]
            && IsFeatureNumber(m.number) && IsUnitToken(m.unit)
  {
    var e0 := NumberEnd(s, i);
    var p0 := UnitStart(s, i);
    var q0 := UnitMatchAt(s, p0).value;
    NumberEndSound(s, i);
    UnitMatchAtIsToken(s, p0);
    MatchOfTokens(s, i, e0, p0, q0, FeatureMatchAt(s, i).value);
  }

  /** When the attempt at `i` succeeds, it reports an occurrence whose groups are slices
      of `s`, and every occurrence at `i` shares its number and unit start and ends no
      later. */
  lemma FeatureMatchAtFinds(s: string, i: nat)
    requires i <= |s| && FeatureMatchAt(s, i).Some?
    ensures var m := FeatureMatchAt(s, i).value;
            && IsOccurrence(s, i, i + |m.number|, m.unitStart, m.End())
            && m.number == s[i..i + |m.number|] && m.unit == s[m.unitStart..m.End()]
            && forall e: nat, p: nat, q: nat :: IsOccurrence(s, i, e, p, q) ==>
                 e == i + |m.number| && p == m.unitStart && q <= m.End()
  {
    var m := FeatureMatchAt(s, i).value;
    var p0 := UnitStart(s, i);
    FeatureMatchAtOccurs(s, i);
    UnitMatchAtLongest(s, p0);
    forall e: nat, p: nat, q: nat | IsOccurrence(s, i, e, p, q)
      ensures e == i + |m.number| && p == m.unitStart && q <= m.End()
    {
      OccurrenceIsGreedy(s, i, e, p, q);
    }
  }

  /** `FeatureMatchAt` is the engine's attempt at `i`: it fails exactly when the pattern
      has no occurrence starting at `i`; otherwise it reports an occurrence, every
      occurrence at `i` has the same number and unit start, and none has a longer unit. */
  lemma FeatureMatchAtCorrect(s: string, i: nat)
    requires i <= |s|
    ensures FeatureMatchAt(s, i).None? ==> forall e: nat, p: nat, q: nat :: !IsOccurrence(s, i, e, p, q)
    ensures FeatureMatchAt(s, i).Some? ==>
              var m := FeatureMatchAt(s, i).value;
              && IsOccurrence(s, i, i + |m.number|, m.unitStart, m.End())
              && m.number == s[i..i + |m.number|] && m.unit == s[m.unitStart..m.End()]
              && forall e: nat, p: nat, q: nat :: IsOccurrence(s, i, e, p, q) ==>
                   e == i + |m.number| && p == m.unitStart && q <= m.End()
  {
    if FeatureMatchAt(s, i).None? {
      FeatureMatchAtFails(s, i);
    } else {
      FeatureMatchAtFinds(s, i);
    }
  }

  // ---------------------------------------------------------------------------------
  // The scan over the whole text

  /** No occurrence of the pattern starts in `[lo, hi)`. */
  ghost predicate NoOccurrenceBetween(s: string, lo: nat, hi: nat) {
    forall i: nat, e: nat, p: nat, q: nat :: lo <= i < hi ==> !IsOccurrence(s, i, e, p, q)
  }

  /** `m` is the match `findall` reports when it resumes at `from`: no occurrence starts
      between `from` and `m`, and `m` is the engine's match at its start (which
      `FeatureMatchAtCorrect` characterises). */
  ghost predicate IsNextMatch(s: string, from: nat, m: FeatureMatch) {
    && from <= m.start <= |s|
    && NoOccurrenceBetween(s, from, m.start)
    && FeatureMatchAt(s, m.start) == Some(m)
  }

  /** A position where the engine fails extends a stretch without occurrences. */
  lemma NoOccurrenceExtend(s: string, from: nat, hi: nat)
    requires from < |s| && FeatureMatchAt(s, from).None?
    requires NoOccurrenceBetween(s, from + 1, hi)
    ensures NoOccurrenceBetween(s, from, hi)
  {
    FeatureMatchAtFails(s, from);
  }

  /** What `findall` promises of the list `ms` it returns when it scans from `from`:
      the first match is the next one after `from`, the rest is a scan from where that
      match ends, and when the list is exhausted no occurrence starts after `from`. */
  ghost predicate IsScanFrom(s: string, from: nat, ms: seq<FeatureMatch>)
    decreases |ms|
  {
    if ms == [] then NoOccurrenceBetween(s, from, |s| + 1)
    else IsNextMatch(s, from, ms[0]) && IsScanFrom(s, ms[0].End(), ms[1..])
  }

  /** `MatchesFrom` is `findall` from `from`. */
  lemma {:induction false} MatchesFromCorrect(s: string, from: nat)
    requires from <= |s|
    ensures IsScanFrom(s, from, MatchesFrom(s, from))
    decreases |s| - from
  {
    var ms := MatchesFrom(s, from);
    if from < |s| {
      match FeatureMatchAt(s, from)
      case Some(m) =>
        MatchesFromCorrect(s, m.End());
        assert ms[1..] == MatchesFrom(s, m.End());
      case None =>
        MatchesFromCorrect(s, from + 1);
        if ms == [] {
          NoOccurrenceExtend(s, from, |s| + 1);
        } else {
          NoOccurrenceExtend(s, from, ms[0].start);
        }
    }
  }

  /** A scan lies left to right without overlapping, each match inside the text. */
  lemma {:induction false} ScanOrdered(s: string, from: nat, ms: seq<FeatureMatch>)
    requires IsScanFrom(s, from, ms)
    ensures forall j :: 0 <= j < |ms| ==> from <= ms[j].start < ms[j].End() <= |s|
    ensures forall j :: 0 < j < |ms| ==> ms[j - 1].End() <= ms[j].start
    decreases |ms|
  {
    if ms != [] {
      ScanOrdered(s, ms[0].End(), ms[1..]);
      assert forall j :: 0 < j < |ms| ==> ms[j] == ms[1..][j - 1];
    }
  }

  // ---------------------------------------------------------------------------------
  // Unit keys

  /** Lower-casing undoes the upper-casing of a pattern character that is its own
      lower case. */
  lemma LowerOfUpper(p: char)
    requires LowerChar(p) == p
    ensures LowerChar(UpperOf(p)) == p
  {
  }

  /** A unit matched by a literal without `s` lower-cases to that literal. */
  lemma LowerEqualsCI(u: string, lit: string)
    requires EqualsCI(u, lit)
    requires forall k :: 0 <= k < |lit| ==> LowerChar(lit[k]) == lit[k] && lit[k] != 's'
    ensures Lower(u) == lit
  {
    forall k | 0 <= k < |u| ensures Lower(u)[k] == lit[k] {
      LowerOfUpper(lit[k]);
    }
  }

  /** The lower-cased units that the `if`/`elif` chain and the dictionary take to a
      field name. */
  predicate IsCleanUnit(l: string) {
    l == "m2" || l == "m\U{B2}" || l == "amb" || l == "dorm" || l == "coch"
    || (|l| >= 4 && l[..3] == "ba\U{F1}")
  }

  lemma CleanUnitKey(l: string)
    requires IsCleanUnit(l)
    ensures var c := CanonicalUnit(l); c in FeatureUnitDict && FeatureUnitDict[c] in FeatureFields
  {
    assert "amb"[..3] == "amb" && "dorm"[..4] == "dorm" && "coch"[..4] == "coch";
    assert "m2" != "m\U{B2}" && "m2"[0] != "amb"[0];
    if |l| >= 4 && l[..3] == "ba\U{F1}" {
      assert l[0] == 'b' && l[2] == '\U{F1}';
      assert l != "m2" && l != "m\U{B2}";
      assert !StartsWith(l, "amb") by { assert "amb"[0] == 'a'; }
      assert !StartsWith(l, "dorm") by { assert "dorm"[0] == 'd'; }
      assert StartsWith(l, "ba\U{F1}");
    }
  }

  /** A stem matched by a literal that is its own clean form lower-cases to it. */
  lemma StemLowerLiteral(b: string, lit: string)
    requires EqualsCI(b, lit) && IsCleanUnit(lit) && |lit| > 0 && lit[|lit| - 1] != '.'
    requires forall k :: 0 <= k < |lit| ==> LowerChar(lit[k]) == lit[k] && lit[k] != 's'
    ensures IsCleanUnit(Lower(b)) && Lower(b)[|b| - 1] != '.'
  {
    LowerEqualsCI(b, lit);
  }

  /** `baños` in any case lower-cases to a clean unit: its first three characters
      lower-case to `bañ`. */
  lemma StemLowerPlural(b: string)
    requires EqualsCI(b, "ba\U{F1}os")
    ensures IsCleanUnit(Lower(b)) && Lower(b)[|b| - 1] != '.'
  {
    var b4 := b[..4];
    assert forall k :: 0 <= k < 4 ==> "ba\U{F1}os"[k] == "ba\U{F1}o"[k];
    assert EqualsCI(b4, "ba\U{F1}o");
    LowerEqualsCI(b4, "ba\U{F1}o");
    assert Lower(b)[..3] == Lower(b4)[..3];
    assert MatchesCI(b[4], "ba\U{F1}os"[4]);
  }

  /** A unit stem lower-cases to a clean unit that does not end in `.`. */
  lemma StemLower(b: string)
    requires IsUnitStem(b)
    ensures IsCleanUnit(Lower(b)) && Lower(b)[|b| - 1] != '.'
  {
    if EqualsCI(b, "m2") {
      StemLowerLiteral(b, "m2");
    } else if EqualsCI(b, "m\U{B2}") {
      StemLowerLiteral(b, "m\U{B2}");
    } else if EqualsCI(b, "amb") {
      StemLowerLiteral(b, "amb");
    } else if EqualsCI(b, "dorm") {
      StemLowerLiteral(b, "dorm");
    } else if EqualsCI(b, "coch") {
      StemLowerLiteral(b, "coch");
    } else if EqualsCI(b, "ba\U{F1}o") {
      assert "ba\U{F1}o"[..3] == "ba\U{F1}";
      StemLowerLiteral(b, "ba\U{F1}o");
    } else {
      StemLowerPlural(b);
    }
  }

  /** A trailing `.` after a unit stem does not change its key: `rstrip('.')` removes
      it, and the lower-cased stem does not end in `.`. */
  lemma KeyIgnoresDot(b: string)
    requires IsUnitStem(b)
    ensures FeatureKey(b + ['.']) == FeatureKey(b)
  {
    StemLower(b);
    var l := Lower(b);
    assert Lower(b + ['.']) == l + ['.'];
    assert (l + ['.'])[..|l|] == l;
    assert RStripChar(l + ['.'], '.') == RStripChar(l, '.');
  }

  /** Every unit the pattern can match maps to one of the five fields: the trailing `.`
      is stripped and the spelling variants are folded together. */
  lemma FeatureKeyOfUnit(u: string)
    requires IsUnitToken(u)
    ensures FeatureKey(u) in FeatureFields
  {
    if IsUnitStem(u) {
      StemLower(u);
      CleanUnitKey(Lower(u));
    } else {
      var b := u[..|u| - 1];
      assert u == b + ['.'];
      KeyIgnoresDot(b);
      StemLower(b);
      CleanUnitKey(Lower(b));
    }
  }

  /** A string whose first character differs from the literal's does not start with it. */
  lemma FirstCharDiffers(u: string, lit: string)
    requires |lit| > 0 && |u| > 0 && u[0] != lit[0]
    ensures !StartsWith(u, lit)
  {
    if |lit| <= |u| {
      assert u[..|lit|][0] == u[0];
    }
  }

  /** `m2` and `m²` in any case, with or without the trailing `.`, are stored under
      `square_meters_area`. */
  lemma SquareMetersKey(b: string)
    requires EqualsCI(b, "m2") || EqualsCI(b, "m\U{B2}")
    ensures FeatureKey(b) == "square_meters_area"
    ensures FeatureKey(b + ['.']) == "square_meters_area"
  {
    KeyIgnoresDot(b);
    if EqualsCI(b, "m2") {
      LowerEqualsCI(b, "m2");
      assert RStripChar("m2", '.') == "m2";
    } else {
      LowerEqualsCI(b, "m\U{B2}");
      assert RStripChar("m\U{B2}", '.') == "m\U{B2}";
    }
  }

  /** `amb` in any case, with or without the trailing `.`, is stored under `rooms`. */
  lemma RoomsKey(b: string)
    requires EqualsCI(b, "amb")
    ensures FeatureKey(b) == "rooms" && FeatureKey(b + ['.']) == "rooms"
  {
    KeyIgnoresDot(b);
    LowerEqualsCI(b, "amb");
    assert RStripChar("amb", '.') == "amb";
    assert "amb"[..3] == "amb";
  }

  /** `dorm` in any case, with or without the trailing `.`, is stored under `bedrooms`. */
  lemma BedroomsKey(b: string)
    requires EqualsCI(b, "dorm")
    ensures FeatureKey(b) == "bedrooms" && FeatureKey(b + ['.']) == "bedrooms"
  {
    KeyIgnoresDot(b);
    LowerEqualsCI(b, "dorm");
    assert RStripChar("dorm", '.') == "dorm";
    FirstCharDiffers("dorm", "amb");
    assert "dorm"[..4] == "dorm";
  }

  /** `baño` and `baños` in any case, with or without the trailing `.`, are stored under
      `bathrooms`. */
  lemma BathroomsKey(b: string)
    requires EqualsCI(b, "ba\U{F1}o") || EqualsCI(b, "ba\U{F1}os")
    ensures FeatureKey(b) == "bathrooms" && FeatureKey(b + ['.']) == "bathrooms"
  {
    KeyIgnoresDot(b);
    StemLower(b);
    var l := Lower(b);
    var b4 := b[..4];
    assert forall k :: 0 <= k < 4 ==> "ba\U{F1}os"[k] == "ba\U{F1}o"[k];
    assert EqualsCI(b4, "ba\U{F1}o");
    LowerEqualsCI(b4, "ba\U{F1}o");
    assert l[..3] == Lower(b4)[..3] == "ba\U{F1}";
    assert RStripChar(l, '.') == l;
    assert l != "m2" && l != "m\U{B2}" by { assert l[0] == 'b'; }
    FirstCharDiffers(l, "amb");
    FirstCharDiffers(l, "dorm");
  }

  /** `coch` in any case, with or without the trailing `.`, is stored under `parking`. */
  lemma ParkingKey(b: string)
    requires EqualsCI(b, "coch")
    ensures FeatureKey(b) == "parking" && FeatureKey(b + ['.']) == "parking"
  {
    KeyIgnoresDot(b);
    LowerEqualsCI(b, "coch");
    assert RStripChar("coch", '.') == "coch";
    FirstCharDiffers("coch", "amb");
    FirstCharDiffers("coch", "dorm");
    FirstCharDiffers("coch", "ba\U{F1}");
    assert "coch"[..4] == "coch";
  }

  // ---------------------------------------------------------------------------------
  // The dictionary

  /** Every match of a scan holds a number of `\d+\.?\d*` and a unit of the alternation. */
  lemma {:induction false} ScanTokens(s: string, from: nat, ms: seq<FeatureMatch>)
    requires IsScanFrom(s, from, ms)
    ensures forall j :: 0 <= j < |ms| ==> IsFeatureNumber(ms[j].number) && IsUnitToken(ms[j].unit)
    decreases |ms|
  {
    if ms != [] {
      FeatureMatchAtOccurs(s, ms[0].start);
      ScanTokens(s, ms[0].End(), ms[1..]);
      assert forall j :: 0 < j < |ms| ==> ms[j] == ms[1..][j - 1];
    }
  }

  /** A field is in the dictionary exactly when some match's unit maps to it. */
  lemma {:induction false} FeatureMapDomain(ms: seq<FeatureMatch>, k: string)
    ensures k in FeatureMap(ms) <==> exists j :: 0 <= j < |ms| && FeatureKey(ms[j].unit) == k
  {
    if ms != [] {
      var init := ms[..|ms| - 1];
      FeatureMapDomain(init, k);
      if k in FeatureMap(init) {
        var j :| 0 <= j < |init| && FeatureKey(init[j].unit) == k;
        assert ms[j] == init[j];
      }
      if j :| 0 <= j < |ms| - 1 && FeatureKey(ms[j].unit) == k {
        assert init[j] == ms[j];
      }
    }
  }

  /** A field holds the number of the last match whose unit maps to it. */
  lemma {:induction false} FeatureMapLastWins(ms: seq<FeatureMatch>, j: int)
    requires IsLastOfKey(ms, j)
    ensures FeatureKey(ms[j].unit) in FeatureMap(ms)
    ensures FeatureMap(ms)[FeatureKey(ms[j].unit)] == ms[j].number
  {
    if j < |ms| - 1 {
      var init := ms[..|ms| - 1];
      assert init[j] == ms[j];
      assert IsLastOfKey(init, j) by {
        forall l | j < l < |init| ensures FeatureKey(init[l].unit) != FeatureKey(init[j].unit) {
          assert init[l] == ms[l];
        }
      }
      FeatureMapLastWins(init, j);
      var last := ms[|ms| - 1];
      assert FeatureKey(last.unit) != FeatureKey(ms[j].unit);
      assert FeatureMap(ms) == FeatureMap(init)[FeatureKey(last.unit) := last.number];
    }
  }

  /** A dictionary built from pattern matches has only the five fields as keys and
      numbers as values. */
  lemma {:induction false} FeatureMapFields(ms: seq<FeatureMatch>)
    requires forall j :: 0 <= j < |ms| ==> IsFeatureNumber(ms[j].number) && IsUnitToken(ms[j].unit)
    ensures FeatureMap(ms).Keys <= FeatureFields
    ensures forall k :: k in FeatureMap(ms) ==> IsFeatureNumber(FeatureMap(ms)[k])
  {
    if ms != [] {
      var init := ms[..|ms| - 1];
      assert forall j :: 0 <= j < |init| ==> init[j] == ms[j];
      FeatureMapFields(init);
      FeatureKeyOfUnit(ms[|ms| - 1].unit);
    }
  }

  /** Every key of the dictionary is one of the five fields of `FEATURE_UNIT_DICT`, and
      every value is a number the pattern matched. */
  lemma FeatureMatchesFields(text: string)
    ensures FeatureMap(FeatureMatches(text)).Keys <= FeatureFields
    ensures forall k :: k in FeatureMap(FeatureMatches(text)) ==>
              IsFeatureNumber(FeatureMap(FeatureMatches(text))[k])
  {
    MatchesFromCorrect(text, 0);
    ScanTokens(text, 0, FeatureMatches(text));
    FeatureMapFields(FeatureMatches(text));
  }

  /** An occurrence at or after `from` means the stretch from `from` is not free of them. */
  lemma OccurrenceBreaksNone(s: string, from: nat, i: nat, e: nat, p: nat, q: nat)
    requires from <= i <= |s| && IsOccurrence(s, i, e, p, q)
    ensures !NoOccurrenceBetween(s, from, |s| + 1)
  {
  }

  /** A scan is empty exactly when no occurrence starts at or after its start. */
  lemma ScanEmpty(s: string, from: nat, ms: seq<FeatureMatch>)
    requires IsScanFrom(s, from, ms)
    ensures ms == [] <==> NoOccurrenceBetween(s, from, |s| + 1)
  {
    if ms != [] {
      var m := ms[0];
      FeatureMatchAtOccurs(s, m.start);
      OccurrenceBreaksNone(s, from, m.start, m.start + |m.number|, m.unitStart, m.End());
    }
  }

  /** The dictionary is empty exactly when there is no match. */
  lemma FeatureMapEmptyIff(ms: seq<FeatureMatch>)
    ensures FeatureMap(ms) == map[] <==> ms == []
  {
    if ms != [] {
      FeatureMapDomain(ms, FeatureKey(ms[0].unit));
    }
  }

  /** The dictionary is empty exactly when the pattern occurs nowhere in the text. */
  lemma FeatureMapEmpty(text: string)
    ensures FeatureMap(FeatureMatches(text)) == map[] <==> NoOccurrenceBetween(text, 0, |text| + 1)
  {
    MatchesFromCorrect(text, 0);
    ScanEmpty(text, 0, FeatureMatches(text));
    FeatureMapEmptyIff(FeatureMatches(text));
  }

  /** `Scraper.parse_features`: the dictionary filled from the matches in order. */
  method ParseFeatures(text: string) returns (features: map<string, string>)
    ensures features == FeatureMap(FeatureMatches(text))
    ensures features.Keys <= FeatureFields
    ensures forall k :: k in features ==> IsFeatureNumber(features[k])
  {
    var matches := FeatureMatches(text);
    features := map[];
    for i := 0 to |matches|
      invariant features == FeatureMap(matches[..i])
    {
      var m := matches[i];
      features := features[FeatureKey(m.unit) := m.number];
      assert matches[..i + 1][..i] == matches[..i];
    }
    assert matches[..|matches|] == matches;
    FeatureMatchesFields(text);
  }
}
