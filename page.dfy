/** One page of results: its URL, the total count read from the heading, the records of
    `Scraper.scrap_page`, and the header that `write_to_csv` collects from them. */
module Page {
  import opened Chars
  import opened NumberPattern
  import opened PhoneFinder
  import opened Listing
  import opened CurrencyParser

  const PageUrlSuffix: string := "-pagina-"
  const HtmlExtension: string := ".html"

  /** The URL of page `pageNumber` of the listing at `baseUrl`. */
  function PageUrl(baseUrl: string, pageNumber: int): (url: string)
    ensures StartsWith(url, baseUrl)
    ensures |url| >= |baseUrl| + |HtmlExtension|
    ensures url[|url| - |HtmlExtension|..] == HtmlExtension
  {
    if pageNumber == 1 then baseUrl + HtmlExtension
    else baseUrl + PageUrlSuffix + IntToString(pageNumber) + HtmlExtension
  }

  /** Distinct pages of one listing have distinct URLs. */
  lemma PageUrlInjective(baseUrl: string, m: int, n: int)
    requires PageUrl(baseUrl, m) == PageUrl(baseUrl, n)
    ensures m == n
  {
    var u := PageUrl(baseUrl, m);
    if m != 1 && n != 1 {
      var lo := |baseUrl| + |PageUrlSuffix|;
      assert u[lo..|u| - |HtmlExtension|] == IntToString(m);
      assert PageUrl(baseUrl, n)[lo..|u| - |HtmlExtension|] == IntToString(n);
      IntToStringInjective(m, n);
    }
  }

  /** Page 1 has no page suffix; every other page carries its number after it. */
  lemma PageUrlShape(baseUrl: string, pageNumber: int)
    ensures pageNumber == 1 <==> |PageUrl(baseUrl, pageNumber)| == |baseUrl| + |HtmlExtension|
    ensures pageNumber != 1 ==>
              var url := PageUrl(baseUrl, pageNumber);
              && url[|baseUrl|..|baseUrl| + |PageUrlSuffix|] == PageUrlSuffix
              && url[|baseUrl| + |PageUrlSuffix|..|url| - |HtmlExtension|] == IntToString(pageNumber)
  {
  }

  /** The number part of `get_estates_quantity`: the first token of `\d+\.?\d+` in the
      heading with its `.` removed, or 0 when there is none. */
  function TotalCount(heading: string): nat {
    match FindNumber(heading)
    case None => 0
    case Some((i, e)) =>
      FindNumberCorrect(heading);
      TokenValue(heading[i..e])
  }

  /** The count is 0 exactly when the heading holds no token, and otherwise the value of
      the leftmost, longest token. */
  lemma TotalCountCorrect(heading: string)
    ensures !HasNumber(heading) ==> TotalCount(heading) == 0
    ensures forall i: nat, e: nat :: IsFirstNumber(heading, i, e) ==>
              TotalCount(heading) == TokenValue(heading[i..e])
  {
    FindNumberCorrect(heading);
    forall i: nat, e: nat | IsFirstNumber(heading, i, e)
      ensures TotalCount(heading) == TokenValue(heading[i..e])
    {
      var (i0, e0) := FindNumber(heading).value;
      FirstNumberUnique(heading, i, e, i0, e0);
    }
  }

  lemma TotalCountExampleToken()
    ensures FindNumber("1.250 resultados") == Some((0, 5))
  {
    var s := "1.250 resultados";
    assert s[0] == '1' && s[2] == '2' && s[3] == '5' && s[4] == '0' && s[5] == ' ';
    LeadingThousands(s);
  }

  lemma TotalCountExampleSlice()
    ensures "1.250 resultados"[0..5] == "1.250"
  {
    var s := "1.250 resultados";
    assert s[0] == '1' && s[1] == '.' && s[2] == '2' && s[3] == '5' && s[4] == '0';
  }

  /** A thousands separator is dropped: `'1.250 resultados'` counts 1250. */
  lemma TotalCountExample()
    ensures TotalCount("1.250 resultados") == 1250
  {
    TotalCountExampleToken();
    TotalCountExampleSlice();
    SeparatorsExampleAmount();
  }

  /** Every heading without a digit falls back to 0: no token of `\d+\.?\d+` can
      start anywhere in it. */
  lemma TotalCountFallback(heading: string)
    requires forall k :: 0 <= k < |heading| ==> !IsDigit(heading[k])
    ensures TotalCount(heading) == 0
  {
    FindNumberFromNone(heading, 0);
  }

  /** `'Departamentos en venta'` counts 0. */
  lemma TotalCountFallbackExample()
    ensures TotalCount("Departamentos en venta") == 0
  {
    var s := "Departamentos en venta";
    assert forall k :: 0 <= k < |s| ==> !IsDigit(s[k]);
    TotalCountFallback(s);
  }

  /** `parse_phone`'s result as a record value. */
  function PhoneValue(phone: Option<string>): Value {
    match phone
    case Some(digits) => Str(digits)
    case None => Null
  }

  /** The record `scrap_page` keeps for one posting block: `parse_estate`'s record with
      the block's phone attached. */
  function PageRecord(b: Block): Estate {
    EstateRecord(b)["phone" := PhoneValue(ParsePhone(b.markup))]
  }

  /** Every page record has a `url` and a `phone` key; the phone is `None` exactly when
      the block's markup holds no `"mainPhone":"<digits>"`, and otherwise its digits.
      Every other key keeps the value `parse_estate` gave it. */
  lemma PageRecordShape(b: Block)
    ensures "url" in PageRecord(b) && "phone" in PageRecord(b)
    ensures PageRecord(b)["phone"] == Null <==> !HasPhone(b.markup)
    ensures PageRecord(b)["phone"] != Null ==>
              var digits := PageRecord(b)["phone"].text; |digits| > 0 && AllDigits(digits)
    ensures forall k :: k in EstateRecord(b) && k != "phone" ==> PageRecord(b)[k] == EstateRecord(b)[k]
  {
    EstateUrl(b);
    ParsePhoneNone(b.markup);
  }

  /** `Scraper.scrap_page`. Fetching the page and finding its posting blocks is the
      parameter `fetchBlocks`. */
  method ScrapPage(baseUrl: string, pageNumber: int, fetchBlocks: string -> seq<Block>)
    returns (estates: seq<Estate>)
    ensures var blocks := fetchBlocks(PageUrl(baseUrl, pageNumber));
            && |estates| == |blocks|
            && forall j :: 0 <= j < |blocks| ==> estates[j] == PageRecord(blocks[j])
  {
    var pageUrl: string;
    if pageNumber == 1 {
      pageUrl := baseUrl + HtmlExtension;
    } else {
      pageUrl := baseUrl + PageUrlSuffix + IntToString(pageNumber) + HtmlExtension;
    }
    var blocks := fetchBlocks(pageUrl);
    estates := [];
    for i := 0 to |blocks|
      invariant |estates| == i
      invariant forall j :: 0 <= j < i ==> estates[j] == PageRecord(blocks[j])
    {
      var estate := ParseEstate(blocks[i]);
      var phone := ParsePhone(blocks[i].markup);
      estate := estate["phone" := PhoneValue(phone)];
      estates := estates + [estate];
    }
  }

  /** The union of the records' key sets. */
  function AllKeys(estates: seq<Estate>): set<string> {
    if estates == [] then {} else AllKeys(estates[..|estates| - 1]) + estates[|estates| - 1].Keys
  }

  /** A key is in the union exactly when some record has it. */
  lemma {:induction false} AllKeysMembers(estates: seq<Estate>, k: string)
    ensures k in AllKeys(estates) <==> exists j :: 0 <= j < |estates| && k in estates[j]
  {
    if estates != [] {
      var prefix := estates[..|estates| - 1];
      AllKeysMembers(prefix, k);
      if j :| 0 <= j < |prefix| && k in prefix[j] {
        assert estates[j] == prefix[j];
      }
      if j :| 0 <= j < |estates| - 1 && k in estates[j] {
        assert prefix[j] == estates[j];
      }
    }
  }

  /** The header `write_to_csv` collects: nothing when there are no records (the
      function returns early), otherwise the union of all keys. */
  method CsvFieldnames(estates: seq<Estate>) returns (fieldnames: Option<set<string>>)
    ensures fieldnames.None? <==> |estates| == 0
    ensures fieldnames.Some? ==> fieldnames.value == AllKeys(estates)
  {
    if |estates| == 0 {
      return None;
    }
    var allKeys: set<string> := {};
    for i := 0 to |estates|
      invariant allKeys == AllKeys(estates[..i])
    {
      allKeys := allKeys + estates[i].Keys;
      assert estates[..i + 1][..i] == estates[..i];
    }
    assert estates[..|estates|] == estates;
    fieldnames := Some(allKeys);
  }
}
