# Zona Prop scraper: a verified model of the listing parsers

The scraper downloads the result pages of a Zona Prop property search, picks out
each posting card, and turns it into a flat record. That record holds the price
and the expenses (amount and currency), the location, the description, the
address, the URL, the main phone and the headline features: area, rooms,
bedrooms, bathrooms and parking. This project models the parsing core of
`Scraper` in Dafny and proves what each parser returns.

- **Text normaliser** (`text.dfy`). `parse_text` removes line feeds and tabs, then
  strips surrounding whitespace. The result holds neither character, is stripped,
  and is a contiguous part of the text with the two characters removed. Applying it
  twice changes nothing.
- **Number pattern** (`number.dfy`). A scanner for `\d+\.?\d+`, proved to return the
  leftmost, longest token, as Python's `re.findall(...)[0]` does. It is checked
  against a declarative description of the tokens. `TokenValue` gives the integer a
  token denotes once its `.` is removed.
- **Currency parser** (`currency.dfy`). `parse_currency_value` returns an amount and a
  currency code (`USD`, `ARS` or `$`). When the text has no number token, or no
  currency token, it degrades to the text itself.
- **Feature parser** (`features.dfy`, examples in `features_example.dfy`). The
  case-insensitive feature pattern is a scanner whose results are proved to be
  exactly `findall`'s non-overlapping, leftmost, greedy matches. Units are
  canonicalised and looked up in `FEATURE_UNIT_DICT`. The map is filled in match
  order, so the last match of a field wins. Every key is one of the five field
  names, and every value is a number token.
- **Phone finder** (`phone.dfy`). `parse_phone` finds the first `"mainPhone":"<digits>"`
  and returns its digits, or nothing.
- **Posting record** (`listing.dfy`). `parse_estate` runs over an abstract `Block`: the
  card's `data-to-posting` link, its `data-qa` nodes in document order, its address
  `div`, its feature `span`s and its markup. The loop over the nodes is proved
  against a fold, and the keys and values of the record are characterised.
- **Page** (`page.dfy`). This file models:
  - the page URL built in `scrap_page`, proved injective in the page number;
  - the count `get_estates_quantity` reads from the heading;
  - `scrap_page` itself;
  - the union of keys that `write_to_csv` uses as the CSV header.

The feature pattern's bathroom alternative is modelled as the code writes it,
`bañ[oo]s?`. The class `[oo]` only matches `o`, so `baño` and `baños` are recognised
(in any case), and `bano` is not. Under `re.IGNORECASE` Python also lets the long s
(U+017F) match `s`, and the model includes that.

`parse_text` removes only `\n` and `\t` before stripping, so a carriage return or a
form feed inside the text is kept. `parse_currency_value` degrades not only when the number is missing but also when
the currency is missing, because the second `[0]` fails inside the same `try`.

## Model

| member | source | states |
|---|---|---|
| TextNormalizer.LStrip | zona-prop-scraper/src/scraper.py:176 | the result is a suffix of the input; everything dropped is whitespace; the result does not start with whitespace |
| TextNormalizer.RStrip | zona-prop-scraper/src/scraper.py:176 | the result is a prefix of the input; everything dropped is whitespace; the result does not end with whitespace |
| TextNormalizer.ParseText | zona-prop-scraper/src/scraper.py:172-176 | the result contains no line feed and no tab, and has no leading or trailing whitespace |
| TextNormalizer.ParseTextKeepsCore | zona-prop-scraper/src/scraper.py:172-176 | the result is the contiguous part of the text, with `\n` and `\t` removed, that is left once only whitespace is dropped from both ends |
| TextNormalizer.StripKeepsAbsence | zona-prop-scraper/src/scraper.py:176 | stripping introduces no character that was not there |
| TextNormalizer.StripKeepsCore | zona-prop-scraper/src/scraper.py:176 | `strip()` keeps one contiguous run of its input and drops only whitespace before and after it |
| TextNormalizer.ParseTextIdempotent | zona-prop-scraper/src/scraper.py:172-176 | normalising already normalised text changes nothing |
| Chars.RemoveChar | zona-prop-scraper/src/scraper.py:164 | `replace('.', '')` leaves no `.`, does not lengthen the string and adds no character |
| Chars.RemoveCharCounts | zona-prop-scraper/src/scraper.py:164 | every character other than the removed one keeps its number of occurrences |
| Chars.RemoveCharSingle | zona-prop-scraper/src/scraper.py:164 | a single character is dropped exactly when it is the removed one |
| Chars.RemoveCharAppend | zona-prop-scraper/src/scraper.py:164 | removal works piecewise over a concatenation, so the kept characters stay in their original order |
| Chars.NatToStringRoundTrip | zona-prop-scraper/src/scraper.py:41 | reading back the decimal form of a page number gives the number |
| Chars.IntToStringInjective | zona-prop-scraper/src/scraper.py:41 | distinct integers have distinct decimal forms |
| Chars.JoinWithSpaces | zona-prop-scraper/src/scraper.py:148 | `' '.join` is empty exactly when there is no part, or a single empty part |
| NumberPattern.NumberMatchAtSound | zona-prop-scraper/src/scraper.py:163 | a match the scanner reports at a position is a token of `\d+\.?\d+`, and no longer token starts there |
| NumberPattern.NumberMatchAtComplete | zona-prop-scraper/src/scraper.py:163 | when the scanner fails at a position, no token starts there |
| NumberPattern.FindNumberFromCorrect | zona-prop-scraper/src/scraper.py:163 | the search from a position finds the leftmost token at or after it, taken as long as possible, or reports none when no token exists |
| NumberPattern.FindNumberCorrect | zona-prop-scraper/src/scraper.py:90-91 | `findall(...)[0]` exists exactly when the text holds a token, and is then the leftmost, longest token |
| NumberPattern.FirstNumberUnique | zona-prop-scraper/src/scraper.py:163 | the leftmost, longest token is unique |
| NumberPattern.LeadingThousands | zona-prop-scraper/src/scraper.py:94 | a text opening with a digit, a `.`, three digits and then a non-digit has those five characters as its first token |
| CurrencyParser.CurrencyAt | zona-prop-scraper/src/scraper.py:166 | the alternation `(USD)\|(ARS)\|(\$)` matches the reported code at the position, or none of the three occurs there |
| CurrencyParser.FindCurrencyFromCorrect | zona-prop-scraper/src/scraper.py:166 | the currency search finds the leftmost currency token at or after a position, or none exists |
| CurrencyParser.FindCurrencyCorrect | zona-prop-scraper/src/scraper.py:166-167 | the first currency token is found exactly when one exists, and no currency token occurs before it |
| CurrencyParser.ParseCurrencyValue | zona-prop-scraper/src/scraper.py:158-170 | a degraded result carries the input text unchanged |
| CurrencyParser.ParseCurrencyValueOutcome | zona-prop-scraper/src/scraper.py:162-170 | parsing succeeds exactly when the text holds both a number token and a currency token; otherwise the result is `(text, None)` |
| CurrencyParser.ParseCurrencyValueAmount | zona-prop-scraper/src/scraper.py:163-165 | on success the amount is the integer of the leftmost, longest number token with its `.` removed |
| CurrencyParser.ParseCurrencyValueCurrency | zona-prop-scraper/src/scraper.py:166-167 | on success the currency is the leftmost currency token |
| CurrencyParser.NoCurrencyLetters | zona-prop-scraper/src/scraper.py:166 | a text without `U`, `A` and `$` has no currency token |
| CurrencyParser.ParseCurrencyValueDocExample | zona-prop-scraper/src/scraper.py:160 | `'330.000 USD'` gives 330000 and `USD` |
| CurrencyParser.ParseCurrencyValueSeveralSeparators | zona-prop-scraper/src/scraper.py:163-165 | `'1.250.000 USD'` gives 1250, because a token holds at most one `.` |
| CurrencyParser.ParseCurrencyValueNoNumber | zona-prop-scraper/src/scraper.py:169-170 | `'consultar'` degrades to itself |
| CurrencyParser.ParseCurrencyValueNoCurrency | zona-prop-scraper/src/scraper.py:166-170 | `'1200'` degrades to itself, because it has no currency token |
| CurrencyParser.ParseCurrencyValueSingleDigit | zona-prop-scraper/src/scraper.py:163 | `'USD 5'` degrades, because a single digit is not a token of `\d+\.?\d+` |
| FeatureParser.FeatureFieldsAreDictValues | zona-prop-scraper/src/scraper.py:11-18 | the values of `FEATURE_UNIT_DICT` are exactly the five field names |
| FeatureParser.Lower | zona-prop-scraper/src/scraper.py:193 | `lower()` keeps the length and lowers each character |
| FeatureParser.RStripChar | zona-prop-scraper/src/scraper.py:193 | `rstrip('.')` drops exactly the trailing run of `.` |
| FeatureParser.StemEndAtSound | zona-prop-scraper/src/scraper.py:185 | the unit scanner's stem is a case-insensitive unit alternative, and no longer alternative starts at the same position |
| FeatureParser.UnitMatchAtSound | zona-prop-scraper/src/scraper.py:185 | a unit the scanner reports is a unit token (a stem and an optional `.`), and no longer unit token starts there |
| FeatureParser.UnitMatchAtComplete | zona-prop-scraper/src/scraper.py:185 | when the unit scanner fails, no unit token starts at the position |
| FeatureParser.UnitTokenStart | zona-prop-scraper/src/scraper.py:185 | a unit token starts with neither a digit, `.` nor whitespace, so the number group and `\s?` before it match greedily |
| FeatureParser.OccurrenceIsGreedy | zona-prop-scraper/src/scraper.py:185 | every occurrence of the pattern at a position has the greedy number and the unit start the scanner uses |
| FeatureParser.FeatureMatchAtCorrect | zona-prop-scraper/src/scraper.py:184-187 | the scanner at a position fails exactly when the pattern has no occurrence there, and otherwise reports an occurrence whose groups are slices of the text and whose end is the furthest possible |
| FeatureParser.MatchesFromCorrect | zona-prop-scraper/src/scraper.py:188 | the match list is `findall`'s: each match is the next leftmost occurrence after the previous one ends, and no occurrence starts after the last |
| FeatureParser.ScanOrdered | zona-prop-scraper/src/scraper.py:188 | the matches lie inside the text, in order, without overlap |
| FeatureParser.ScanTokens | zona-prop-scraper/src/scraper.py:188 | each match's first group is a number of the pattern and its second group a unit token |
| FeatureParser.CleanUnitKey | zona-prop-scraper/src/scraper.py:194-205 | a lowered, `.`-stripped unit canonicalises to a key of `FEATURE_UNIT_DICT` whose value is a field name |
| FeatureParser.StemLower | zona-prop-scraper/src/scraper.py:193 | lowering a unit stem gives one of the clean unit spellings |
| FeatureParser.FeatureKeyOfUnit | zona-prop-scraper/src/scraper.py:193-205 | every unit token the pattern can match is stored under one of the five field names, never under its raw spelling |
| FeatureParser.SquareMetersKey | zona-prop-scraper/src/scraper.py:193-205 | `m2` and `m²` in any case, with or without a trailing `.`, are stored under `square_meters_area` |
| FeatureParser.RoomsKey | zona-prop-scraper/src/scraper.py:193-205 | `amb` in any case, with or without a trailing `.`, is stored under `rooms` |
| FeatureParser.BedroomsKey | zona-prop-scraper/src/scraper.py:193-205 | `dorm` in any case, with or without a trailing `.`, is stored under `bedrooms` |
| FeatureParser.BathroomsKey | zona-prop-scraper/src/scraper.py:193-205 | `baño` and `baños` in any case, with or without a trailing `.`, are stored under `bathrooms` |
| FeatureParser.ParkingKey | zona-prop-scraper/src/scraper.py:193-205 | `coch` in any case, with or without a trailing `.`, is stored under `parking` |
| FeatureParser.FeatureMapDomain | zona-prop-scraper/src/scraper.py:191-206 | a key is in the dictionary exactly when some match maps to it |
| FeatureParser.FeatureMapLastWins | zona-prop-scraper/src/scraper.py:206 | the value under a key is the number of the last match mapping to that key |
| FeatureParser.FeatureMapFields | zona-prop-scraper/src/scraper.py:205-206 | built from matches of the pattern, the dictionary's keys are field names and its values number tokens |
| FeatureParser.FeatureMatchesFields | zona-prop-scraper/src/scraper.py:178-209 | for every text the result's keys are field names and its values number tokens |
| FeatureParser.ScanEmpty | zona-prop-scraper/src/scraper.py:188 | the match list is empty exactly when the pattern occurs nowhere after the start |
| FeatureParser.FeatureMapEmptyIff | zona-prop-scraper/src/scraper.py:191-206 | the dictionary is empty exactly when there are no matches |
| FeatureParser.FeatureMapEmpty | zona-prop-scraper/src/scraper.py:178-209 | the result is empty exactly when the pattern occurs nowhere in the text |
| FeatureParser.ParseFeatures | zona-prop-scraper/src/scraper.py:178-209 | the loop builds the dictionary of the matches in order; its keys are field names and its values number tokens |
| FeatureExample.BathroomsUnit | zona-prop-scraper/src/scraper.py:185 | `baños` followed by a space is matched as a five-character unit, the plural `s` included |
| FeatureExample.ListingMatches | zona-prop-scraper/src/scraper.py:180 | the doc example yields the five matches `215 m²`, `5 amb.`, `4 dorm.`, `2 baños`, `1 coch.` |
| FeatureExample.ParseFeaturesDocExample | zona-prop-scraper/src/scraper.py:180-181 | `'215 m² tot. 5 amb. 4 dorm. 2 baños 1 coch.'` gives area 215, rooms 5, bedrooms 4, bathrooms 2, parking 1 |
| FeatureExample.NoDigitsNoFeatures | zona-prop-scraper/src/scraper.py:184-188 | a text without digits gives the empty dictionary |
| PhoneFinder.ParsePhone | zona-prop-scraper/src/scraper.py:98-106 | a phone found is a non-empty run of digits |
| PhoneFinder.PhoneAtSound | zona-prop-scraper/src/scraper.py:103 | a phone reported at a position is the digits of a full `"mainPhone":"<digits>"` occurrence there |
| PhoneFinder.PhoneAtComplete | zona-prop-scraper/src/scraper.py:103 | an occurrence at a position is reported there with its digits |
| PhoneFinder.FindPhoneFromCorrect | zona-prop-scraper/src/scraper.py:103 | the search finds the first occurrence at or after a position, or none exists |
| PhoneFinder.ParsePhoneNone | zona-prop-scraper/src/scraper.py:103-106 | `None` is returned exactly when the text holds no occurrence |
| PhoneFinder.ParsePhoneFirst | zona-prop-scraper/src/scraper.py:103-105 | when an occurrence is the first one, its digits are returned |
| PhoneFinder.NoQuoteNoPhone | zona-prop-scraper/src/scraper.py:103-106 | a text without `"` has no phone |
| PhoneFinder.ParsePhoneDocExample | zona-prop-scraper/src/scraper.py:100 | `{"mainPhone":"1151020499"}` gives `1151020499` |
| PhoneFinder.ParsePhoneEmptyNumber | zona-prop-scraper/src/scraper.py:103 | `"mainPhone":""` gives no phone, because `\d+` needs a digit |
| Listing.CurrencyEntries | zona-prop-scraper/src/scraper.py:125-127 | a currency node sets exactly `<name>_value` and `<name>_type`; the type is `None` exactly when the text is unreadable, and the value is then the text, otherwise the amount and the code |
| Listing.LabelDictEntries | zona-prop-scraper/src/scraper.py:20-25 | `LABEL_DICT` maps the four tags to `price`, `expenses`, `location` and `description` |
| Listing.TagEntriesByTag | zona-prop-scraper/src/scraper.py:123-134 | price and fee nodes store currency entries, location and description nodes store the normalised text under their field, any other tag stores its normalised text under the tag |
| Listing.TagEntriesKeys | zona-prop-scraper/src/scraper.py:124-134 | the keys a node writes depend on its tag alone |
| Listing.FeatureValues | zona-prop-scraper/src/scraper.py:153 | merged features keep their keys and their string values |
| Listing.StoreTag | zona-prop-scraper/src/scraper.py:122-134 | one loop iteration overwrites the record with the node's entries and keeps everything else |
| Listing.ParseEstate | zona-prop-scraper/src/scraper.py:116-156 | the method builds the record of the block: the url, then the nodes in order, then the address, then the features when the joined span text is non-empty |
| Listing.ApplyTagsDomain | zona-prop-scraper/src/scraper.py:122-134 | after the loop a key is present exactly when it was present before or some node writes it |
| Listing.ApplyTagsLastWins | zona-prop-scraper/src/scraper.py:122-134 | a key holds the entry of the last node that writes it |
| Listing.ApplyTagsUntouched | zona-prop-scraper/src/scraper.py:122-134 | a key no node writes keeps its value |
| Listing.MergedFeaturesFields | zona-prop-scraper/src/scraper.py:150-153 | the features merged into the record are keyed by field names only |
| Listing.EstateKeys | zona-prop-scraper/src/scraper.py:116-153 | a key is in the record exactly when it is `url`, a key some node writes, `address` when the address exists, or a feature field found in the span text |
| Listing.EstateUrl | zona-prop-scraper/src/scraper.py:117-119 | every record has `url`, which is the posting link (or `None`) unless a node is tagged `url` |
| Listing.EstateAddress | zona-prop-scraper/src/scraper.py:137-142 | when the address exists, `address` holds its normalised text |
| Listing.EstateFeatures | zona-prop-scraper/src/scraper.py:145-153 | every parsed feature appears in the record with its number |
| Listing.EstateTagLastWins | zona-prop-scraper/src/scraper.py:122-153 | a key last written by a node, and not overwritten by the address or the features, holds that node's entry |
| Listing.SingleNodeRecord | zona-prop-scraper/src/scraper.py:116-156 | a card with one node, no address and no features gives the url plus that node's entries |
| Listing.PriceOnlyRecord | zona-prop-scraper/src/scraper.py:119-127 | a card with a readable price has exactly `url`, `price_value` (the amount) and `price_type` (the code) |
| Listing.PriceOnlyExample | zona-prop-scraper/src/scraper.py:119-127 | a card priced `330.000 USD` has price value 330000 and type `USD` |
| Listing.UnreadableFeeExample | zona-prop-scraper/src/scraper.py:117-127 | a card without link whose fee reads `consultar` has url `None`, fee value `consultar` and type `None` |
| Page.PageUrl | zona-prop-scraper/src/scraper.py:38-41 | the page URL starts with the base URL and ends with `.html` |
| Page.PageUrlShape | zona-prop-scraper/src/scraper.py:38-41 | only page 1 omits the suffix; every other page has `-pagina-` and its number before `.html` |
| Page.PageUrlInjective | zona-prop-scraper/src/scraper.py:38-41 | distinct page numbers give distinct URLs |
| Page.TotalCountCorrect | zona-prop-scraper/src/scraper.py:90-96 | the count is 0 when the heading has no token, and otherwise the integer of the leftmost, longest token with its `.` removed |
| Page.TotalCountExample | zona-prop-scraper/src/scraper.py:94-95 | `'1.250 resultados'` counts 1250 |
| Page.TotalCountFallback | zona-prop-scraper/src/scraper.py:91-93 | every heading without a digit counts 0 |
| Page.TotalCountFallbackExample | zona-prop-scraper/src/scraper.py:91-93 | `'Departamentos en venta'` counts 0 |
| Page.PageRecordShape | zona-prop-scraper/src/scraper.py:53-56 | every page record has `url` and `phone`; the phone is `None` exactly when the card's markup has no phone, and otherwise a run of digits; other keys keep `parse_estate`'s values |
| Page.ScrapPage | zona-prop-scraper/src/scraper.py:38-60 | one record per card of the fetched page, in order, each the card's `parse_estate` record with its phone |
| Page.AllKeysMembers | zona-prop-scraper/src/scraper.py:218-220 | a key is in the union exactly when some record has it |
| Page.CsvFieldnames | zona-prop-scraper/src/scraper.py:212-223 | no header without records; otherwise the header is the union of all record keys |

## Left out

- Downloading pages (`browser.get_text`) is left out. `ScrapPage` takes the fetch and the card lookup together as the function parameter `fetchBlocks`.
- The HTML layer (BeautifulSoup, `find_all`, `select`, `select_one`, `get_text`) is left out. A card is the `Block` datatype, which holds the values these calls return: the link, the `data-qa` nodes and their texts in document order, the address text, the texts of the feature spans after `get_text(strip=True)`, and the card markup for `str(estate_post)`.
- `get_estates_quantity` is modelled from the heading text onward (`TotalCount`). Fetching page 1 and taking the first `h1` are left out, and so is the `IndexError` raised when the page has no `h1`.
- `scrap_website`'s paging loop is left out because it is I/O driven. It fetches pages until the count is reached and sleeps three seconds between pages.
- `write_to_csv` is modelled only up to the set of field names. Opening the file and writing rows are I/O. The order `list(all_keys)` gives a Python set is left out, so the header is modelled as a set.
- The `print` tracing is left out because it changes no value.
- `data/analisis.py` is not part of this model.
- Python dictionaries keep insertion order; records are modelled as maps, so that order is not captured. The keys and values are.
- `\d` and `\s` are modelled on ASCII: the digits `0`-`9`, and the whitespace characters 9-13 and 28-32. Python also accepts other Unicode digits and spaces.
- `str.strip()` is modelled on the same ASCII whitespace.
- `lower()` and `re.IGNORECASE` are modelled for ASCII letters, `ñ`/`Ñ`, `²` and the long s. Other case pairs cannot occur inside a matched unit.
- The Python `int` values built from digit strings are unbounded, as in the model.
