/** `Scraper.parse_phone`: the first `"mainPhone":"<digits>"` in a listing's markup. */
module PhoneFinder {
  import opened Chars

  /** The literal that opens the pattern `"mainPhone":"(\d+)"`. */
  const Marker: string := "\"mainPhone\":\""

  /** The pattern matches at `i` with `digits` as its group: the marker, a non-empty
      run of digits, and a closing quote. */
  predicate IsPhoneMatch(s: string, i: nat, digits: string) {
    |digits| > 0 && AllDigits(digits) && OccursAt(s, i, Marker + digits + "\"")
  }

  /** The group the engine captures when it tries the pattern at `i`. The greedy `\d+`
      is followed by a quote, which no digit matches, so giving digits back never
      helps: the match exists only when the whole digit run is followed by a quote. */
  function PhoneAt(s: string, i: nat): Option<string>
    requires i <= |s|
  {
    if !OccursAt(s, i, Marker) then None
    else
      var start := i + |Marker|;
      var n := DigitRun(s, start);
      if n > 0 && start + n < |s| && s[start + n] == '"' then Some(s[start..start + n])
      else None
  }

  /** `re.search` from `from`: the group of the leftmost match. */
  function FindPhoneFrom(s: string, from: nat): Option<string>
    requires from <= |s|
    decreases |s| - from
  {
    match PhoneAt(s, from)
    case Some(d) => Some(d)
    case None => if from == |s| then None else FindPhoneFrom(s, from + 1)
  }

  /** `Scraper.parse_phone`: the captured digits, or `None` when the pattern is absent. */
  function ParsePhone(pageText: string): (r: Option<string>)
    ensures r.Some? ==> |r.value| > 0 && AllDigits(r.value)
  {
    PhoneFoundIsMatch(pageText, 0);
    FindPhoneFrom(pageText, 0)
  }

  /** The leftmost match of the pattern in `s` starts at `i` and captures `digits`. */
  ghost predicate IsFirstPhone(s: string, i: nat, digits: string) {
    IsPhoneMatch(s, i, digits) && forall i': nat, d: string :: i' < i ==> !IsPhoneMatch(s, i', d)
  }

  ghost predicate HasPhone(s: string) {
    exists i: nat, d: string :: IsPhoneMatch(s, i, d)
  }

  /** What the engine captures at `i` is a match of the pattern. */
  lemma PhoneAtSound(s: string, i: nat)
    requires i <= |s| && PhoneAt(s, i).Some?
    ensures IsPhoneMatch(s, i, PhoneAt(s, i).value)
  {
    var d := PhoneAt(s, i).value;
    var lit := Marker + d + "\"";
    var start := i + |Marker|;
    forall k | 0 <= k < |lit| ensures s[i + k] == lit[k] {
      if k < |Marker| {
        assert lit[k] == Marker[k];
      } else if k < |Marker| + |d| {
        assert lit[k] == d[k - |Marker|] == s[start + (k - |Marker|)];
      } else {
        assert lit[k] == '"';
      }
    }
  }

  /** A match at `i` is the one the engine captures there, so there is at most one. */
  lemma PhoneAtComplete(s: string, i: nat, digits: string)
    requires IsPhoneMatch(s, i, digits)
    ensures i <= |s| && PhoneAt(s, i) == Some(digits)
  {
    var lit := Marker + digits + "\"";
    var start := i + |Marker|;
    assert OccursAt(s, i, Marker) by {
      forall k | 0 <= k < |Marker| ensures s[i + k] == Marker[k] {
        assert lit[k] == Marker[k];
      }
    }
    forall k | 0 <= k < |digits| ensures s[start + k] == digits[k] {
      assert lit[|Marker| + k] == digits[k];
    }
    assert forall k :: start <= k < start + |digits| ==> s[k] == digits[k - start];
    assert s[start + |digits|] == '"' by {
      assert lit[|Marker| + |digits|] == '"';
    }
    DigitRunIs(s, start, |digits|);
    assert s[start..start + |digits|] == digits;
  }

  /** What the search reports is a match. */
  lemma {:induction false} PhoneFoundIsMatch(s: string, from: nat)
    requires from <= |s|
    ensures FindPhoneFrom(s, from).Some? ==>
              |FindPhoneFrom(s, from).value| > 0 && AllDigits(FindPhoneFrom(s, from).value)
    decreases |s| - from
  {
    match PhoneAt(s, from)
    case Some(d) =>
      PhoneAtSound(s, from);
    case None =>
      if from < |s| {
        PhoneFoundIsMatch(s, from + 1);
      }
  }

  /** When the engine fails at `i`, no match starts at `i`. */
  lemma PhoneAtNone(s: string, i: nat)
    requires i <= |s| && PhoneAt(s, i).None?
    ensures forall d: string :: !IsPhoneMatch(s, i, d)
  {
    forall d: string | IsPhoneMatch(s, i, d) ensures false {
      PhoneAtComplete(s, i, d);
    }
  }

  /** No match starts past the end of the text. */
  lemma NoPhonePastEnd(s: string)
    ensures forall i: nat, d: string :: |s| < i ==> !IsPhoneMatch(s, i, d)
  {
  }

  /** The search from `from` reports the leftmost match at or after `from`. */
  lemma {:induction false} FindPhoneFromCorrect(s: string, from: nat)
    requires from <= |s|
    ensures FindPhoneFrom(s, from).None? ==>
              forall i: nat, d: string :: from <= i ==> !IsPhoneMatch(s, i, d)
    ensures FindPhoneFrom(s, from).Some? ==>
              exists i: nat :: from <= i && IsPhoneMatch(s, i, FindPhoneFrom(s, from).value)
                && forall i': nat, d: string :: from <= i' < i ==> !IsPhoneMatch(s, i', d)
    decreases |s| - from
  {
    match PhoneAt(s, from)
    case Some(d) =>
      PhoneAtSound(s, from);
      assert from <= from && IsPhoneMatch(s, from, d);
    case None =>
      PhoneAtNone(s, from);
      if from < |s| {
        FindPhoneFromCorrect(s, from + 1);
      } else {
        NoPhonePastEnd(s);
      }
  }

  /** `parse_phone` returns nothing exactly when the pattern occurs nowhere. */
  lemma ParsePhoneNone(pageText: string)
    ensures ParsePhone(pageText).None? <==> !HasPhone(pageText)
  {
    FindPhoneFromCorrect(pageText, 0);
    if ParsePhone(pageText).Some? {
      var i: nat :| IsPhoneMatch(pageText, i, ParsePhone(pageText).value);
    }
  }

  /** `parse_phone` returns the digits of the leftmost match. */
  lemma ParsePhoneFirst(pageText: string, i: nat, digits: string)
    requires IsFirstPhone(pageText, i, digits)
    ensures ParsePhone(pageText) == Some(digits)
  {
    FindPhoneFromCorrect(pageText, 0);
    ParsePhoneNone(pageText);
    var d := ParsePhone(pageText).value;
    var i0: nat :| IsPhoneMatch(pageText, i0, d)
                   && forall i': nat, d': string :: i' < i0 ==> !IsPhoneMatch(pageText, i', d');
    assert !(i < i0);
    assert !(i0 < i);
    PhoneAtComplete(pageText, i, digits);
    PhoneAtComplete(pageText, i0, d);
  }

  /** Every match starts with a quote. */
  lemma PhoneMatchStartsWithQuote(s: string, i: nat, digits: string)
    requires IsPhoneMatch(s, i, digits)
    ensures i < |s| && s[i] == '"'
  {
    assert (Marker + digits + "\"")[0] == Marker[0] == '"';
  }

  /** The number of the doc comment, embedded in a listing's markup. */
  lemma ParsePhoneDocExample()
    ensures ParsePhone("{\"mainPhone\":\"1151020499\"}") == Some("1151020499")
  {
    var s := "{\"mainPhone\":\"1151020499\"}";
    var d := "1151020499";
    assert OccursAt(s, 1, Marker + d + "\"") by {
      assert s[1..] == Marker + d + "\"" + "}";
    }
    forall i': nat, d': string | i' < 1 ensures !IsPhoneMatch(s, i', d') {
      if IsPhoneMatch(s, i', d') {
        PhoneMatchStartsWithQuote(s, i', d');
      }
    }
    ParsePhoneFirst(s, 1, d);
  }

  /** Markup without a quote holds no phone. */
  lemma NoQuoteNoPhone(pageText: string)
    requires '"' !in pageText
    ensures ParsePhone(pageText) == None
  {
    forall i: nat, d: string ensures !IsPhoneMatch(pageText, i, d) {
      if IsPhoneMatch(pageText, i, d) {
        PhoneMatchStartsWithQuote(pageText, i, d);
      }
    }
    ParsePhoneNone(pageText);
  }

  lemma ParsePhoneAbsent()
    ensures ParsePhone("<div>sin datos</div>") == None
  {
    NoQuoteNoPhone("<div>sin datos</div>");
  }

  /** An empty number is no match: `\d+` needs a digit. */
  lemma ParsePhoneEmptyNumber()
    ensures ParsePhone("\"mainPhone\":\"\"") == None
  {
    var t := "\"mainPhone\":\"\"";
    forall i: nat, d: string ensures !IsPhoneMatch(t, i, d) {
      assert |d| > 0 ==> |Marker + d + "\""| >= 15;
    }
    ParsePhoneNone(t);
  }
}
