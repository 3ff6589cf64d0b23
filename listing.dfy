/** `Scraper.parse_estate`: the record of one posting block. The HTML queries are
    replaced by the `Block` datatype, which holds what they return. */
module Listing {
  import opened Chars
  import opened TextNormalizer
  import opened CurrencyParser
  import opened FeatureParser

  /** The Python values a record holds: `None`, a string, or an int. */
  datatype Value = Null | Str(text: string) | Int(number: int)

  type Estate = map<string, Value>

  /** What the CSS queries find in one `div[data-posting-type]`: the `data-to-posting`
      attribute, the `(data-qa, get_text())` pairs in document order, the text of the
      address node when there is one, the texts of the feature spans (already stripped
      by `get_text(strip=True)`), and the block's serialised markup. */
  datatype Block = Block(
    permalink: Option<string>,
    dataQa: seq<(string, string)>,
    address: Option<string>,
    featureSpans: seq<string>,
    markup: string)

  /** `LABEL_DICT`. */
  const LabelDict: map<string, string> := map[
    "POSTING_CARD_PRICE" := "price",
    "expensas" := "expenses",
    "POSTING_CARD_LOCATION" := "location",
    "POSTING_CARD_DESCRIPTION" := "description"
  ]

  predicate IsCurrencyTag(tag: string) {
    tag == "POSTING_CARD_PRICE" || tag == "expensas"
  }

  predicate IsTextTag(tag: string) {
    tag == "POSTING_CARD_LOCATION" || tag == "POSTING_CARD_DESCRIPTION"
  }

  /** `url_list[0] if url_list else None`: `get_attribute_list` yields `[None]` for a
      missing attribute, so the record holds `None` then. */
  function UrlValue(permalink: Option<string>): Value {
    match permalink
    case Some(u) => Str(u)
    case None => Null
  }

  /** The pair `parse_currency_value` returns, as record values. */
  function CurrencyPair(v: CurrencyValue): (Value, Value) {
    match v
    case Parsed(n, c) => (Int(n), Str(Code(c)))
    case Degraded(t) => (Str(t), Null)
  }

  /** The two entries a price or fee node writes under `name`: the pair returned by
      `parse_currency_value`. */
  function CurrencyEntries(name: string, text: string): (r: Estate)
    ensures r.Keys == {name + "_value", name + "_type"}
    ensures r[name + "_type"] == Null <==> ParseCurrencyValue(text).Degraded?
    ensures r[name + "_type"] == Null ==> r[name + "_value"] == Str(text)
    ensures r[name + "_type"] != Null ==>
              r[name + "_value"] == Int(ParseCurrencyValue(text).amount)
              && r[name + "_type"] == Str(Code(ParseCurrencyValue(text).currency))
  {
    assert (name + "_value")[|name|..] == "_value" && (name + "_type")[|name|..] == "_type";
    var (value, kind) := CurrencyPair(ParseCurrencyValue(text));
    map[name + "_value" := value, name + "_type" := kind]
  }

  /** The keys one `data-qa` node writes. */
  function TagKeys(tag: string): set<string> {
    if IsCurrencyTag(tag) then {LabelDict[tag] + "_value", LabelDict[tag] + "_type"}
    else if IsTextTag(tag) then {LabelDict[tag]}
    else {tag}
  }

  /** The entries one `data-qa` node writes, by tag. */
  function TagEntries(tag: string, text: string): Estate {
    if IsCurrencyTag(tag) then CurrencyEntries(LabelDict[tag], text)
    else if IsTextTag(tag) then map[LabelDict[tag] := Str(ParseText(text))]
    else map[tag := Str(ParseText(text))]
  }

  lemma LabelDictEntries()
    ensures LabelDict["POSTING_CARD_PRICE"] == "price" && LabelDict["expensas"] == "expenses"
    ensures LabelDict["POSTING_CARD_LOCATION"] == "location"
    ensures LabelDict["POSTING_CARD_DESCRIPTION"] == "description"
  {
  }
  /** A price or fee node writes the pair of its `LABEL_DICT` name. */
  lemma CurrencyTagEntries(tag: string, text: string)
    requires IsCurrencyTag(tag)
    ensures TagEntries(tag, text) == CurrencyEntries(LabelDict[tag], text)
  {
  }

  /** A location or description node writes its normalised text under its short name. */
  lemma TextTagEntries(tag: string, text: string)
    requires !IsCurrencyTag(tag) && IsTextTag(tag)
    ensures TagEntries(tag, text) == map[LabelDict[tag] := Str(ParseText(text))]
  {
  }

  /** Any other node writes its normalised text under its own tag. */
  lemma OtherTagEntries(tag: string, text: string)
    requires !IsCurrencyTag(tag) && !IsTextTag(tag)
    ensures TagEntries(tag, text) == map[tag := Str(ParseText(text))]
  {
  }

  /** Prices and fees write exactly their `_value`/`_type` pair; location and
      description are stored normalised under their short names; any other tag is
      stored normalised under itself. */
  lemma TagEntriesByTag(tag: string, text: string)
    ensures tag == "POSTING_CARD_PRICE" ==> TagEntries(tag, text) == CurrencyEntries("price", text)
    ensures tag == "expensas" ==> TagEntries(tag, text) == CurrencyEntries("expenses", text)
    ensures tag == "POSTING_CARD_LOCATION" ==>
              TagEntries(tag, text) == map["location" := Str(ParseText(text))]
    ensures tag == "POSTING_CARD_DESCRIPTION" ==>
              TagEntries(tag, text) == map["description" := Str(ParseText(text))]
    ensures !IsCurrencyTag(tag) && !IsTextTag(tag) ==>
              TagEntries(tag, text) == map[tag := Str(ParseText(text))]
  {
    LabelDictEntries();
    if IsCurrencyTag(tag) {
      CurrencyTagEntries(tag, text);
    } else if IsTextTag(tag) {
      TextTagEntries(tag, text);
    } else {
      OtherTagEntries(tag, text);
    }
  }

  /** The keys of a node's entries. */
  lemma TagEntriesKeys(tag: string, text: string)
    ensures TagEntries(tag, text).Keys == TagKeys(tag)
  {
  }

  /** The record after the `data_qa` loop has run over `nodes`, starting from `init`. */
  function ApplyTags(init: Estate, nodes: seq<(string, string)>): Estate {
    if nodes == [] then init
    else
      var (tag, text) := nodes[|nodes| - 1];
      ApplyTags(init, nodes[..|nodes| - 1]) + TagEntries(tag, text)
  }

  /** The feature dictionary as record entries: the same keys, each number string
      stored as a string value, ready for `estate.update`. */
  function FeatureValues(features: map<string, string>): (r: Estate)
    ensures r.Keys == features.Keys
    ensures forall k :: k in features ==> r[k] == Str(features[k])
  {
    map k | k in features :: Str(features[k])
  }

  /** `' '.join(...)` of the feature span texts. */
  function FeaturesText(b: Block): string {
    JoinWithSpaces(b.featureSpans)
  }

  /** The record before the features are merged: `url`, then the `data_qa` loop, then
      the address. */
  function AddressedRecord(b: Block): Estate {
    var labelled := ApplyTags(map["url" := UrlValue(b.permalink)], b.dataQa);
    match b.address
    case Some(a) => labelled["address" := Str(ParseText(a))]
    case None => labelled
  }

  /** The feature dictionary merged into the record of `b`, or nothing when the joined
      span text is empty. */
  function MergedFeatures(b: Block): map<string, string> {
    var raw := FeaturesText(b);
    if raw != [] then FeatureMap(FeatureMatches(raw)) else map[]
  }

  /** The record `parse_estate` returns for `b`: the addressed record updated with the
      features. */
  function EstateRecord(b: Block): Estate {
    AddressedRecord(b) + FeatureValues(MergedFeatures(b))
  }

  /** An assignment is a merge with a one-entry map. */
  lemma AssignOnce(m: Estate, a: string, x: Value)
    ensures m[a := x] == m + map[a := x]
  {
  }

  /** Two assignments to distinct keys merge a two-entry map. */
  lemma AssignTwice(m: Estate, a: string, x: Value, b: string, y: Value)
    requires a != b
    ensures m[a := x][b := y] == m + map[a := x, b := y]
  {
  }

  /** One pass of the `data_qa` loop: the `if`/`elif`/`else` on the node's tag. */
  method StoreTag(estate: Estate, tag: string, text: string) returns (updated: Estate)
    ensures updated == estate + TagEntries(tag, text)
  {
    updated := estate;
    if tag == "POSTING_CARD_PRICE" || tag == "expensas" {
      var name := LabelDict[tag];
      var (value, kind) := CurrencyPair(ParseCurrencyValue(text));
      updated := updated[name + "_value" := value];
      updated := updated[name + "_type" := kind];
      CurrencyTagEntries(tag, text);
      AssignTwice(estate, name + "_value", value, name + "_type", kind);
    } else if tag == "POSTING_CARD_LOCATION" || tag == "POSTING_CARD_DESCRIPTION" {
      updated := updated[LabelDict[tag] := Str(ParseText(text))];
      TextTagEntries(tag, text);
      AssignOnce(estate, LabelDict[tag], Str(ParseText(text)));
    } else {
      updated := updated[tag := Str(ParseText(text))];
      OtherTagEntries(tag, text);
      AssignOnce(estate, tag, Str(ParseText(text)));
    }
  }

  /** One more node extends the fold by that node's entries. */
  lemma ApplyTagsStep(init: Estate, nodes: seq<(string, string)>, i: nat)
    requires i < |nodes|
    ensures ApplyTags(init, nodes[..i + 1]) ==
            ApplyTags(init, nodes[..i]) + TagEntries(nodes[i].0, nodes[i].1)
  {
    assert nodes[..i + 1][..i] == nodes[..i];
  }

  /** `Scraper.parse_estate`. */
  method ParseEstate(b: Block) returns (estate: Estate)
    ensures estate == EstateRecord(b)
  {
    var start := map["url" := UrlValue(b.permalink)];
    estate := start;
    for i := 0 to |b.dataQa|
      invariant estate == ApplyTags(start, b.dataQa[..i])
    {
      estate := StoreTag(estate, b.dataQa[i].0, b.dataQa[i].1);
      ApplyTagsStep(start, b.dataQa, i);
    }
    assert b.dataQa[..|b.dataQa|] == b.dataQa;
    if b.address.Some? {
      estate := estate["address" := Str(ParseText(b.address.value))];
    }
    var raw := JoinWithSpaces(b.featureSpans);
    if raw != [] {
      var features := ParseFeatures(raw);
      estate := estate + FeatureValues(features);
    }
  }

  // ---------------------------------------------------------------------------------
  // The `data_qa` loop

  /** A key is in the record after the loop exactly when it was there before or some
      node writes it. */
  lemma {:induction false} ApplyTagsDomain(init: Estate, nodes: seq<(string, string)>, k: string)
    ensures k in ApplyTags(init, nodes) <==>
            k in init || exists j :: 0 <= j < |nodes| && k in TagKeys(nodes[j].0)
  {
    if nodes != [] {
      var prefix := nodes[..|nodes| - 1];
      ApplyTagsDomain(init, prefix, k);
      TagEntriesKeys(nodes[|nodes| - 1].0, nodes[|nodes| - 1].1);
      if j :| 0 <= j < |prefix| && k in TagKeys(prefix[j].0) {
        assert nodes[j] == prefix[j];
      }
      if j :| 0 <= j < |nodes| - 1 && k in TagKeys(nodes[j].0) {
        assert prefix[j] == nodes[j];
      }
    }
  }

  /** A key holds what the last node writing it wrote. */
  lemma {:induction false} ApplyTagsLastWins(init: Estate, nodes: seq<(string, string)>, j: nat, k: string)
    requires j < |nodes| && k in TagKeys(nodes[j].0)
    requires forall l :: j < l < |nodes| ==> k !in TagKeys(nodes[l].0)
    ensures k in ApplyTags(init, nodes)
    ensures ApplyTags(init, nodes)[k] == TagEntries(nodes[j].0, nodes[j].1)[k]
  {
    var prefix := nodes[..|nodes| - 1];
    TagEntriesKeys(nodes[|nodes| - 1].0, nodes[|nodes| - 1].1);
    if j < |nodes| - 1 {
      assert prefix[j] == nodes[j];
      forall l | j < l < |prefix| ensures k !in TagKeys(prefix[l].0) {
        assert prefix[l] == nodes[l];
      }
      ApplyTagsLastWins(init, prefix, j, k);
    } else {
      TagEntriesKeys(nodes[j].0, nodes[j].1);
    }
  }

  /** A key no node writes keeps its initial value. */
  lemma {:induction false} ApplyTagsUntouched(init: Estate, nodes: seq<(string, string)>, k: string)
    requires k in init && forall j :: 0 <= j < |nodes| ==> k !in TagKeys(nodes[j].0)
    ensures k in ApplyTags(init, nodes) && ApplyTags(init, nodes)[k] == init[k]
  {
    if nodes != [] {
      var prefix := nodes[..|nodes| - 1];
      forall j | 0 <= j < |prefix| ensures k !in TagKeys(prefix[j].0) {
        assert prefix[j] == nodes[j];
      }
      ApplyTagsUntouched(init, prefix, k);
      TagEntriesKeys(nodes[|nodes| - 1].0, nodes[|nodes| - 1].1);
    }
  }

  // ---------------------------------------------------------------------------------
  // The record

  /** The merged features are keyed by field names only. */
  lemma MergedFeaturesFields(b: Block)
    ensures MergedFeatures(b).Keys <= FeatureFields
  {
    if FeaturesText(b) != [] {
      FeatureMatchesFields(FeaturesText(b));
    }
  }

  /** The keys of a record: `url`, the keys its nodes write, `address` when the address
      node exists, and the feature fields when the span text is non-empty. */
  lemma EstateKeys(b: Block, k: string)
    ensures k in EstateRecord(b) <==>
            || k == "url"
            || (exists j :: 0 <= j < |b.dataQa| && k in TagKeys(b.dataQa[j].0))
            || (k == "address" && b.address.Some?)
            || (FeaturesText(b) != [] && k in FeatureMap(FeatureMatches(FeaturesText(b))))
  {
    MergedFeaturesFields(b);
    ApplyTagsDomain(map["url" := UrlValue(b.permalink)], b.dataQa, k);
  }

  /** Only a node tagged `url` can write the key `url`. */
  lemma UrlKeyOnlyFromUrlTag(tag: string)
    requires tag != "url"
    ensures "url" !in TagKeys(tag)
  {
    LabelDictEntries();
    assert ("price" + "_value")[0] != 'u' && ("price" + "_type")[0] != 'u';
    assert ("expenses" + "_value")[0] != 'u' && ("expenses" + "_type")[0] != 'u';
  }

  /** `url` and `address` are not feature fields. */
  lemma NotFeatureFields()
    ensures "url" !in FeatureFields && "address" !in FeatureFields
  {
    assert "url"[0] == 'u' && "address"[0] == 'a';
    assert "square_meters_area"[0] == 's' && "rooms"[0] == 'r' && "bedrooms"[0] == 'b';
    assert "bathrooms"[0] == 'b' && "parking"[0] == 'p';
  }

  /** Every record has a `url` key; unless a node is tagged `url`, it holds the
      permalink, or `None` when the block has none. */
  lemma EstateUrl(b: Block)
    ensures "url" in EstateRecord(b)
    ensures (forall j :: 0 <= j < |b.dataQa| ==> b.dataQa[j].0 != "url") ==>
              EstateRecord(b)["url"] == UrlValue(b.permalink)
  {
    EstateKeys(b, "url");
    MergedFeaturesFields(b);
    NotFeatureFields();
    var init := map["url" := UrlValue(b.permalink)];
    if forall j :: 0 <= j < |b.dataQa| ==> b.dataQa[j].0 != "url" {
      forall j | 0 <= j < |b.dataQa| ensures "url" !in TagKeys(b.dataQa[j].0) {
        UrlKeyOnlyFromUrlTag(b.dataQa[j].0);
      }
      ApplyTagsUntouched(init, b.dataQa, "url");
      assert AddressedRecord(b)["url"] == UrlValue(b.permalink);
    }
  }

  /** The normalised address text is stored when the address node exists. */
  lemma EstateAddress(b: Block)
    requires b.address.Some?
    ensures "address" in EstateRecord(b)
    ensures EstateRecord(b)["address"] == Str(ParseText(b.address.value))
  {
    MergedFeaturesFields(b);
    NotFeatureFields();
    assert "address" !in FeatureValues(MergedFeatures(b));
    assert AddressedRecord(b)["address"] == Str(ParseText(b.address.value));
  }

  /** Every merged feature field holds its number string. */
  lemma EstateFeatures(b: Block)
    ensures forall k :: k in MergedFeatures(b) ==>
              k in EstateRecord(b) && EstateRecord(b)[k] == Str(MergedFeatures(b)[k])
  {
    MergedFeaturesFields(b);
  }

  /** A key written by a node, and by no later node, the address or a feature, holds
      what that node wrote. */
  lemma EstateTagLastWins(b: Block, j: nat, k: string)
    requires j < |b.dataQa| && k in TagKeys(b.dataQa[j].0)
    requires forall l :: j < l < |b.dataQa| ==> k !in TagKeys(b.dataQa[l].0)
    requires k != "address" || b.address.None?
    requires k !in MergedFeatures(b)
    ensures k in EstateRecord(b)
    ensures EstateRecord(b)[k] == TagEntries(b.dataQa[j].0, b.dataQa[j].1)[k]
  {
    var init := map["url" := UrlValue(b.permalink)];
    ApplyTagsLastWins(init, b.dataQa, j, k);
    assert k in AddressedRecord(b) && AddressedRecord(b)[k] == ApplyTags(init, b.dataQa)[k];
    assert k !in FeatureValues(MergedFeatures(b));
    MergedFeaturesFields(b);
  }

  /** The record of a block with one node, no address and no feature spans. */
  lemma SingleNodeRecord(b: Block)
    requires |b.dataQa| == 1 && b.address.None? && b.featureSpans == []
    ensures EstateRecord(b) ==
            map["url" := UrlValue(b.permalink)] + TagEntries(b.dataQa[0].0, b.dataQa[0].1)
  {
    var init := map["url" := UrlValue(b.permalink)];
    MergedFeaturesFields(b);
    assert FeaturesText(b) == [];
    assert FeatureValues(MergedFeatures(b)) == map[];
    assert b.dataQa[..0] == [];
    assert ApplyTags(init, b.dataQa) == init + TagEntries(b.dataQa[0].0, b.dataQa[0].1);
    assert AddressedRecord(b) == ApplyTags(init, b.dataQa);
  }

  lemma CurrencyEntriesParsed(name: string, text: string, n: nat, c: Currency)
    requires ParseCurrencyValue(text) == Parsed(n, c)
    ensures CurrencyEntries(name, text) ==
            map[name + "_value" := Int(n), name + "_type" := Str(Code(c))]
  {
  }

  lemma CurrencyEntriesDegraded(name: string, text: string)
    requires ParseCurrencyValue(text).Degraded?
    ensures CurrencyEntries(name, text) == map[name + "_value" := Str(text), name + "_type" := Null]
  {
  }

  lemma PriceKeys()
    ensures "price" + "_value" == "price_value" && "price" + "_type" == "price_type"
  {
  }

  /** A block with a permalink and a readable price only. */
  lemma PriceOnlyRecord(b: Block, url: string, text: string, n: nat, c: Currency)
    requires b.permalink == Some(url) && b.dataQa == [("POSTING_CARD_PRICE", text)]
    requires b.address.None? && b.featureSpans == []
    requires ParseCurrencyValue(text) == Parsed(n, c)
    ensures EstateRecord(b) == map["url" := Str(url), "price_value" := Int(n), "price_type" := Str(Code(c))]
  {
    SingleNodeRecord(b);
    LabelDictEntries();
    CurrencyTagEntries("POSTING_CARD_PRICE", text);
    CurrencyEntriesParsed("price", text, n, c);
    PriceKeys();
    AssignTwice(map["url" := Str(url)], "price_value", Int(n), "price_type", Str(Code(c)));
  }

  /** The doc comment's price in a record. */
  lemma PriceOnlyExample()
    ensures EstateRecord(Block(Some("/p/1.html"), [("POSTING_CARD_PRICE", "330.000 USD")], None, [], ""))
            == map["url" := Str("/p/1.html"), "price_value" := Int(330000), "price_type" := Str("USD")]
  {
    ParseCurrencyValueDocExample();
    PriceOnlyRecord(Block(Some("/p/1.html"), [("POSTING_CARD_PRICE", "330.000 USD")], None, [], ""), "/p/1.html", "330.000 USD", 330000, USD);
  }

  lemma ExpensesKeys()
    ensures "expenses" + "_value" == "expenses_value" && "expenses" + "_type" == "expenses_type"
  {
  }

  /** A fee that cannot be read keeps its text, with `None` as its type. */
  lemma UnreadableFeeExample()
    ensures EstateRecord(Block(None, [("expensas", "consultar")], None, [], ""))
            == map["url" := Null, "expenses_value" := Str("consultar"), "expenses_type" := Null]
  {
    var text := "consultar";
    SingleNodeRecord(Block(None, [("expensas", text)], None, [], ""));
    LabelDictEntries();
    CurrencyTagEntries("expensas", text);
    ParseCurrencyValueNoNumber();
    CurrencyEntriesDegraded("expenses", text);
    ExpensesKeys();
    AssignTwice(map["url" := Null], "expenses_value", Str(text), "expenses_type", Null);
  }
}
