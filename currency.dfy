/** `Scraper.parse_currency_value`: an amount and a currency code read from a price
    or fee text, with the whole text handed back when either is missing. */
module CurrencyParser {
  import opened Chars
  import opened NumberPattern

  /** The three tokens of `(USD)|(ARS)|(\$)`. */
  datatype Currency = USD | ARS | Peso

  function Code(c: Currency): string {
    match c
    case USD => "USD"
    case ARS => "ARS"
    case Peso => "$"
  }

  /** The outcome of `parse_currency_value`: the pair `(amount, code)` on success, or
      the pair `(text, None)` when the text cannot be read. */
  datatype CurrencyValue = Parsed(amount: nat, currency: Currency) | Degraded(text: string)

  /** No currency token occurs at `i`. */
  predicate NoCurrencyAt(s: string, i: nat) {
    !OccursAt(s, i, "USD") && !OccursAt(s, i, "ARS") && !OccursAt(s, i, "$")
  }

  /** The currency token that the alternation `(USD)|(ARS)|(\$)` matches at `i`. */
  function CurrencyAt(s: string, i: nat): (c: Option<Currency>)
    ensures c.Some? ==> OccursAt(s, i, Code(c.value))
    ensures c.None? ==> NoCurrencyAt(s, i)
  {
    if OccursAt(s, i, "USD") then Some(USD)
    else if OccursAt(s, i, "ARS") then Some(ARS)
    else if OccursAt(s, i, "$") then Some(Peso)
    else None
  }

  /** The leftmost currency token at or after `from`, with its position. */
  function FindCurrencyFrom(s: string, from: nat): Option<(nat, Currency)>
    requires from <= |s|
    decreases |s| - from
  {
    match CurrencyAt(s, from)
    case Some(c) => Some((from, c))
    case None => if from == |s| then None else FindCurrencyFrom(s, from + 1)
  }

  /** `re.findall(r'(USD)|(ARS)|(\$)', s)[0]` with its non-empty group picked out. */
  function FindCurrency(s: string): Option<(nat, Currency)> {
    FindCurrencyFrom(s, 0)
  }

  /** Currency `c` occurs at `i` and no currency token occurs before it. */
  ghost predicate IsFirstCurrency(s: string, i: nat, c: Currency) {
    OccursAt(s, i, Code(c)) && forall i': nat :: i' < i ==> NoCurrencyAt(s, i')
  }

  ghost predicate HasCurrency(s: string) {
    exists i: nat :: !NoCurrencyAt(s, i)
  }

  lemma {:induction false} FindCurrencyFromCorrect(s: string, from: nat)
    requires from <= |s|
    ensures FindCurrencyFrom(s, from).None? ==> forall i: nat :: from <= i ==> NoCurrencyAt(s, i)
    ensures FindCurrencyFrom(s, from).Some? ==>
              var (i, c) := FindCurrencyFrom(s, from).value;
              && from <= i && OccursAt(s, i, Code(c))
              && forall i': nat :: from <= i' < i ==> NoCurrencyAt(s, i')
    decreases |s| - from
  {
    if CurrencyAt(s, from).None? {
      if from < |s| {
        FindCurrencyFromCorrect(s, from + 1);
      } else {
        assert forall i: nat :: from <= i ==> NoCurrencyAt(s, i);
      }
    }
  }

  /** `FindCurrency` reports the leftmost currency token, and nothing when none occurs. */
  lemma FindCurrencyCorrect(s: string)
    ensures FindCurrency(s).None? <==> !HasCurrency(s)
    ensures FindCurrency(s).Some? ==>
              var (i, c) := FindCurrency(s).value; IsFirstCurrency(s, i, c)
  {
    FindCurrencyFromCorrect(s, 0);
    if FindCurrency(s).Some? {
      var (i, c) := FindCurrency(s).value;
      assert !NoCurrencyAt(s, i);
    }
  }

  /** `Scraper.parse_currency_value`. Any failed lookup ends in the `except` branch. */
  function ParseCurrencyValue(text: string): (r: CurrencyValue)
    ensures r.Degraded? ==> r.text == text
  {
    match FindNumber(text)
    case None => Degraded(text)
    case Some((i, e)) =>
      FindNumberCorrect(text);
      match FindCurrency(text)
      case None => Degraded(text)
      case Some((_, c)) => Parsed(TokenValue(text[i..e]), c)
  }

  /** Success exactly when the text holds both a number token and a currency token;
      otherwise the text comes back unchanged. */
  lemma ParseCurrencyValueOutcome(text: string)
    ensures ParseCurrencyValue(text).Parsed? <==> HasNumber(text) && HasCurrency(text)
    ensures ParseCurrencyValue(text).Degraded? ==> ParseCurrencyValue(text) == Degraded(text)
  {
    FindNumberCorrect(text);
    FindCurrencyCorrect(text);
  }

  /** On success the amount is the value of the leftmost, longest number token. */
  lemma ParseCurrencyValueAmount(text: string, i: nat, e: nat)
    requires IsFirstNumber(text, i, e) && ParseCurrencyValue(text).Parsed?
    ensures ParseCurrencyValue(text).amount == TokenValue(text[i..e])
  {
    FindNumberCorrect(text);
    var (i0, e0) := FindNumber(text).value;
    FirstNumberUnique(text, i, e, i0, e0);
  }

  /** On success the currency is the leftmost currency token. */
  lemma ParseCurrencyValueCurrency(text: string, i: nat, c: Currency)
    requires IsFirstCurrency(text, i, c) && ParseCurrencyValue(text).Parsed?
    ensures ParseCurrencyValue(text).currency == c
  {
    FindCurrencyCorrect(text);
    var (i0, c0) := FindCurrency(text).value;
    assert IsFirstCurrency(text, i0, c0);
    assert !(i < i0) by { assert !NoCurrencyAt(text, i); }
    assert !(i0 < i) by { assert !NoCurrencyAt(text, i0); }
    assert text[i] == Code(c)[0] && text[i0] == Code(c0)[0];
  }

  /** The search stops at the first position holding a currency token. */
  lemma {:induction false} FindCurrencyFromAt(s: string, from: nat, i: nat, c: Currency)
    requires from <= i <= |s|
    requires forall j :: from <= j < i ==> NoCurrencyAt(s, j)
    requires CurrencyAt(s, i) == Some(c)
    ensures FindCurrencyFrom(s, from) == Some((i, c))
    decreases i - from
  {
    if from < i {
      assert NoCurrencyAt(s, from);
      FindCurrencyFromAt(s, from + 1, i, c);
    }
  }

  /** A text without `U`, `A` or `$` holds no currency token. */
  lemma NoCurrencyLetters(s: string)
    requires forall k :: 0 <= k < |s| ==> s[k] != 'U' && s[k] != 'A' && s[k] != '$'
    ensures FindCurrency(s).None?
  {
    FindCurrencyCorrect(s);
    assert "USD"[0] == 'U' && "ARS"[0] == 'A' && "$"[0] == '$';
  }

  lemma DocExampleNumber()
    ensures FindNumber("330.000 USD") == Some((0, 7))
    ensures "330.000 USD"[0..7] == "330.000"
  {
    DigitRunIs("330.000 USD", 0, 3);
    DigitRunIs("330.000 USD", 4, 3);
  }

  lemma DocExampleCurrency()
    ensures FindCurrency("330.000 USD") == Some((8, USD))
  {
    var s := "330.000 USD";
    assert "USD"[0] == 'U' && "ARS"[0] == 'A' && "$"[0] == '$';
    assert forall i :: 0 <= i < 8 ==> s[i] != 'U' && s[i] != 'A' && s[i] != '$';
    assert CurrencyAt(s, 8) == Some(USD);
    FindCurrencyFromAt(s, 0, 8, USD);
  }

  lemma DocExampleDigits()
    ensures RemoveChar("330.000", '.') == "330000"
  {
    assert "330.000"[..6] == "330.00";
    assert "330.00"[..5] == "330.0";
    assert "330.0"[..4] == "330.";
    assert "330."[..3] == "330";
    assert "330"[..2] == "33";
    assert "33"[..1] == "3";
    assert "3"[..0] == "";
    assert RemoveChar("3", '.') == "3";
    assert RemoveChar("33", '.') == "33";
    assert RemoveChar("330", '.') == "330";
    assert RemoveChar("330.", '.') == "330";
    assert RemoveChar("330.0", '.') == "3300";
    assert RemoveChar("330.00", '.') == "33000";
  }

  lemma DocExampleDecimal()
    ensures DecimalValue("330000") == 330000
  {
    assert "330000"[..5] == "33000";
    assert "33000"[..4] == "3300";
    assert "3300"[..3] == "330";
    assert "330"[..2] == "33";
    assert "33"[..1] == "3";
    assert "3"[..0] == "";
    assert DecimalValue("3") == 3;
    assert DecimalValue("33") == 33;
    assert DecimalValue("330") == 330;
    assert DecimalValue("3300") == 3300;
    assert DecimalValue("33000") == 33000;
  }

  lemma DocExampleAmount()
    ensures TokenValue("330.000") == 330000
  {
    DocExampleDigits();
    DocExampleDecimal();
  }

  /** The example of the doc comment: `'330.000 USD'` reads as 330000 dollars. */
  lemma ParseCurrencyValueDocExample()
    ensures ParseCurrencyValue("330.000 USD") == Parsed(330000, USD)
  {
    DocExampleNumber();
    DocExampleCurrency();
    DocExampleAmount();
  }

  lemma SeparatorsExampleNumber()
    ensures FindNumber("1.250.000 USD") == Some((0, 5))
  {
    var s := "1.250.000 USD";
    assert s[0] == '1' && s[2] == '2' && s[3] == '5' && s[4] == '0' && s[5] == '.';
    LeadingThousands(s);
  }

  lemma SeparatorsExampleSlice()
    ensures "1.250.000 USD"[0..5] == "1.250"
  {
    var s := "1.250.000 USD";
    assert s[0] == '1' && s[1] == '.' && s[2] == '2' && s[3] == '5' && s[4] == '0';
  }

  lemma SeparatorsExampleCurrency()
    ensures FindCurrency("1.250.000 USD") == Some((10, USD))
  {
    var s := "1.250.000 USD";
    assert "USD"[0] == 'U' && "ARS"[0] == 'A' && "$"[0] == '$';
    assert forall i :: 0 <= i < 10 ==> s[i] != 'U' && s[i] != 'A' && s[i] != '$';
    assert CurrencyAt(s, 10) == Some(USD);
    FindCurrencyFromAt(s, 0, 10, USD);
  }

  lemma SeparatorsExampleDigits()
    ensures RemoveChar("1.250", '.') == "1250"
  {
    assert "1.250"[..4] == "1.25";
    assert "1.25"[..3] == "1.2";
    assert "1.2"[..2] == "1.";
    assert "1."[..1] == "1";
    assert "1"[..0] == "";
    assert RemoveChar("1", '.') == "1";
    assert RemoveChar("1.", '.') == "1";
    assert RemoveChar("1.2", '.') == "12";
    assert RemoveChar("1.25", '.') == "125";
  }

  lemma SeparatorsExampleDecimal()
    ensures DecimalValue("1250") == 1250
  {
    assert "1250"[..3] == "125";
    assert "125"[..2] == "12";
    assert "12"[..1] == "1";
    assert "1"[..0] == "";
    assert DecimalValue("1") == 1;
    assert DecimalValue("12") == 12;
    assert DecimalValue("125") == 125;
  }

  lemma SeparatorsExampleAmount()
    ensures TokenValue("1.250") == 1250
  {
    SeparatorsExampleDigits();
    SeparatorsExampleDecimal();
  }

  /** Only one `.` belongs to a token, so `'1.250.000 USD'` reads as 1250. */
  lemma ParseCurrencyValueSeveralSeparators()
    ensures ParseCurrencyValue("1.250.000 USD") == Parsed(1250, USD)
  {
    SeparatorsExampleNumber();
    SeparatorsExampleSlice();
    SeparatorsExampleCurrency();
    SeparatorsExampleAmount();
  }

  /** A text without a number degrades to itself. */
  lemma ParseCurrencyValueNoNumber()
    ensures ParseCurrencyValue("consultar") == Degraded("consultar")
  {
    var s := "consultar";
    assert forall j :: 0 <= j < |s| ==> !IsDigit(s[j]);
    FindNumberFromNone(s, 0);
  }

  /** A number without a currency token degrades too. */
  lemma ParseCurrencyValueNoCurrency()
    ensures ParseCurrencyValue("1200") == Degraded("1200")
  {
    NoCurrencyLetters("1200");
  }

  /** A lone digit is no token of `\d+\.?\d+`: `'USD 5'` degrades. */
  lemma ParseCurrencyValueSingleDigit()
    ensures ParseCurrencyValue("USD 5") == Degraded("USD 5")
  {
    var s := "USD 5";
    assert forall j :: 0 <= j < 4 ==> !IsDigit(s[j]);
    DigitRunIs(s, 4, 1);
    FindNumberFromNone(s, 0);
  }
}
