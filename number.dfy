/** The numeric pattern `\d+\.?\d+` that `parse_currency_value` and
    `get_estates_quantity` search with `re.findall(...)[0]`, written as a hand scanner,
    together with a declarative description of what the pattern matches. */
module NumberPattern {
  import opened Chars

  /** `t` is matched in full by `\d+\.?\d+`: at least two characters, digits at both
      ends, nothing but digits and at most one `.` in between. */
  predicate IsNumberToken(t: string) {
    && |t| >= 2
    && IsDigit(t[0]) && IsDigit(t[|t| - 1])
    && (forall k :: 0 <= k < |t| ==> IsDigit(t[k]) || t[k] == '.')
    && (forall k, l :: 0 <= k < l < |t| && t[k] == '.' ==> t[l] != '.')
  }

  /** End of the match the regular-expression engine finds when it tries the pattern
      at position `i`: the greedy `\d+` keeps every digit unless a `.` and a digit
      follow, in which case the second `\d+` takes every digit after the `.`; with no
      `.` the engine gives one digit back to the second `\d+`, which needs two digits. */
  function NumberMatchAt(s: string, i: nat): Option<nat>
    requires i <= |s|
  {
    if i == |s| || !IsDigit(s[i]) then None
    else
      var a := i + DigitRun(s, i);
      if a + 1 < |s| && s[a] == '.' && IsDigit(s[a + 1]) then Some(a + 1 + DigitRun(s, a + 1))
      else if a - i >= 2 then Some(a)
      else None
  }

  /** The leftmost match at or after `from`, as start and end. */
  function FindNumberFrom(s: string, from: nat): Option<(nat, nat)>
    requires from <= |s|
    decreases |s| - from
  {
    match NumberMatchAt(s, from)
    case Some(e) => Some((from, e))
    case None => if from == |s| then None else FindNumberFrom(s, from + 1)
  }

  /** `re.findall(r'\d+\.?\d+', s)[0]`, as a position pair, or `None` for an empty list. */
  function FindNumber(s: string): Option<(nat, nat)> {
    FindNumberFrom(s, 0)
  }

  /** No token of the pattern starts at any position in `[lo, hi)`. */
  ghost predicate NoNumberBetween(s: string, lo: nat, hi: nat) {
    forall i, e :: lo <= i < hi && i <= e <= |s| ==> !IsNumberToken(s[i..e])
  }

  /** `s[i..e]` is the leftmost token of the pattern in `s`, taken as long as possible:
      the match Python reports first. */
  ghost predicate IsFirstNumber(s: string, i: nat, e: nat) {
    && i <= e <= |s|
    && IsNumberToken(s[i..e])
    && NoNumberBetween(s, 0, i)
    && (forall e' :: e < e' <= |s| ==> !IsNumberToken(s[i..e']))
  }

  ghost predicate HasNumber(s: string) {
    exists i, e :: 0 <= i <= e <= |s| && IsNumberToken(s[i..e])
  }

  /** A match found at `i` is a token, and no longer token starts at `i`. */
  lemma NumberMatchAtSound(s: string, i: nat)
    requires i <= |s| && NumberMatchAt(s, i).Some?
    ensures var e := NumberMatchAt(s, i).value;
            i < e <= |s| && IsNumberToken(s[i..e])
            && forall e' :: e < e' <= |s| ==> !IsNumberToken(s[i..e'])
  {
    var a := i + DigitRun(s, i);
    var e := NumberMatchAt(s, i).value;
    var t := s[i..e];
    if a + 1 < |s| && s[a] == '.' && IsDigit(s[a + 1]) {
      assert t[a - i] == '.';
      forall k, l | 0 <= k < l < |t| && t[k] == '.' ensures t[l] != '.' {
        assert t[k] == s[i + k] && t[l] == s[i + l];
      }
      forall e' | e < e' <= |s| ensures !IsNumberToken(s[i..e']) {
        var t' := s[i..e'];
        assert t'[a - i] == '.' && t'[e - i] == s[e];
      }
    } else {
      forall e' | e < e' <= |s| ensures !IsNumberToken(s[i..e']) {
        var t' := s[i..e'];
        assert t'[a - i] == s[a];
        if e' == a + 1 {
          assert t'[|t'| - 1] == s[a];
        } else {
          assert t'[a + 1 - i] == s[a + 1];
        }
      }
    }
  }

  /** When the engine fails at `i`, no token of the pattern starts at `i`. */
  lemma NumberMatchAtComplete(s: string, i: nat)
    requires i <= |s| && NumberMatchAt(s, i).None?
    ensures forall e :: i <= e <= |s| ==> !IsNumberToken(s[i..e])
  {
    forall e | i <= e <= |s| ensures !IsNumberToken(s[i..e]) {
      var t := s[i..e];
      if |t| >= 2 && IsDigit(t[0]) {
        assert t[1] == s[i + 1];
        if |t| >= 3 {
          assert t[2] == s[i + 2];
        }
      }
    }
  }

  /** The scan from `from` finds the leftmost, longest token at or after `from`. */
  lemma {:induction false} FindNumberFromCorrect(s: string, from: nat)
    requires from <= |s|
    ensures FindNumberFrom(s, from).None? ==> NoNumberBetween(s, from, |s| + 1)
    ensures FindNumberFrom(s, from).Some? ==>
              var (i, e) := FindNumberFrom(s, from).value;
              && from <= i < e <= |s| && IsNumberToken(s[i..e])
              && NoNumberBetween(s, from, i)
              && (forall e' :: e < e' <= |s| ==> !IsNumberToken(s[i..e']))
    decreases |s| - from
  {
    match NumberMatchAt(s, from)
    case Some(e) =>
      NumberMatchAtSound(s, from);
    case None =>
      NumberMatchAtComplete(s, from);
      if from < |s| {
        FindNumberFromCorrect(s, from + 1);
      }
  }

  /** `FindNumber` reports exactly the match Python's `re.findall(...)[0]` reports:
      none when the pattern occurs nowhere, otherwise the leftmost, longest token. */
  lemma FindNumberCorrect(s: string)
    ensures FindNumber(s).None? <==> !HasNumber(s)
    ensures FindNumber(s).Some? ==>
              var (i, e) := FindNumber(s).value; IsFirstNumber(s, i, e)
  {
    FindNumberFromCorrect(s, 0);
    if FindNumber(s).Some? {
      var (i, e) := FindNumber(s).value;
      assert 0 <= i <= e <= |s| && IsNumberToken(s[i..e]);
    }
  }

  /** At most one token is the leftmost, longest one. */
  lemma FirstNumberUnique(s: string, i: nat, e: nat, i': nat, e': nat)
    requires IsFirstNumber(s, i, e) && IsFirstNumber(s, i', e')
    ensures i == i' && e == e'
  {
  }

  /** The search stops at the first position where the engine succeeds. */
  lemma {:induction false} FindNumberFromAt(s: string, from: nat, i: nat, e: nat)
    requires from <= i <= |s|
    requires forall j :: from <= j < i ==> NumberMatchAt(s, j).None?
    requires NumberMatchAt(s, i) == Some(e)
    ensures FindNumberFrom(s, from) == Some((i, e))
    decreases i - from
  {
    if from < i {
      assert NumberMatchAt(s, from).None?;
      FindNumberFromAt(s, from + 1, i, e);
    }
  }

  /** The search finds nothing when the engine fails at every position. */
  lemma {:induction false} FindNumberFromNone(s: string, from: nat)
    requires from <= |s|
    requires forall j :: from <= j <= |s| ==> NumberMatchAt(s, j).None?
    ensures FindNumberFrom(s, from).None?
    decreases |s| - from
  {
    assert NumberMatchAt(s, from).None?;
    if from < |s| {
      FindNumberFromNone(s, from + 1);
    }
  }

  /** A text that opens with one digit, a `.` and three more digits, then something
      other than a digit, holds its first number in those five characters. */
  lemma LeadingThousands(s: string)
    requires |s| > 5 && IsDigit(s[0]) && s[1] == '.'
    requires IsDigit(s[2]) && IsDigit(s[3]) && IsDigit(s[4]) && !IsDigit(s[5])
    ensures FindNumber(s) == Some((0, 5))
  {
    DigitRunIs(s, 0, 1);
    DigitRunIs(s, 2, 3);
  }

  /** The integer a token denotes: its digits with the `.` removed, read in base ten
      (`int(token.replace('.', ''))`). */
  function TokenValue(t: string): nat
    requires IsNumberToken(t)
  {
    RemoveCharKeepsDigits(t, '.');
    DecimalValue(RemoveChar(t, '.'))
  }
}
