/** The example of `parse_features`'s doc comment, worked through the model. */
module FeatureExample {
  import opened Chars
  import opened FeatureParser

  const DocListing: string := "215 m\U{B2} tot. 5 amb. 4 dorm. 2 ba\U{F1}os 1 coch."

  /** A run of `n` digits followed by a space: the number ends at the space and the
      unit starts after it. */
  lemma NumberBeforeSpace(s: string, i: nat, n: nat)
    requires 0 < n && i + n < |s| && s[i + n] == ' '
    requires forall k :: i <= k < i + n ==> IsDigit(s[k])
    ensures IsDigit(s[i]) && NumberEnd(s, i) == i + n && UnitStart(s, i) == i + n + 1
  {
    DigitRunIs(s, i, n);
  }

  /** The engine's match at `i` assembled from its parts. */
  lemma FeatureMatchAtIs(s: string, i: nat, e: nat, p: nat, q: nat)
    requires i < |s| && IsDigit(s[i]) && NumberEnd(s, i) == e && UnitStart(s, i) == p
    requires UnitMatchAt(s, p) == Some(q)
    ensures FeatureMatchAt(s, i) == Some(FeatureMatch(i, s[i..e], p, s[p..q]))
  {
  }

  /** The five matches of the listing. */
  const AreaMatch := FeatureMatch(0, "215", 4, "m\U{B2}")
  const RoomsMatch := FeatureMatch(12, "5", 14, "amb.")
  const BedroomsMatch := FeatureMatch(19, "4", 21, "dorm.")
  const BathroomsMatch := FeatureMatch(27, "2", 29, "ba\U{F1}os")
  const ParkingMatch := FeatureMatch(35, "1", 37, "coch.")

  /** A single digit followed by a space. */
  lemma OneDigitNumber(s: string, i: nat)
    requires i + 1 < |s| && IsDigit(s[i]) && s[i + 1] == ' '
    ensures NumberEnd(s, i) == i + 1 && UnitStart(s, i) == i + 2 && s[i..i + 1] == [s[i]]
  {
    NumberBeforeSpace(s, i, 1);
  }

  /** Three digits followed by a space. */
  lemma ThreeDigitNumber(s: string, i: nat)
    requires i + 3 < |s| && IsDigit(s[i]) && IsDigit(s[i + 1]) && IsDigit(s[i + 2])
    requires s[i + 3] == ' '
    ensures NumberEnd(s, i) == i + 3 && UnitStart(s, i) == i + 4
    ensures s[i..i + 3] == [s[i], s[i + 1], s[i + 2]]
  {
    NumberBeforeSpace(s, i, 3);
  }

  /** A literal written out at `p` is matched there, case-insensitively. */
  lemma LiteralMatches(s: string, p: nat, lit: string)
    requires OccursAt(s, p, lit)
    ensures HasCI(s, p, lit)
  {
  }

  /** One character that does not match rules the literal out. */
  lemma LiteralMismatch(s: string, p: nat, lit: string, k: nat)
    requires k < |lit| && p + k < |s| && !MatchesCI(s[p + k], lit[k])
    ensures !HasCI(s, p, lit)
  {
  }

  /** `m²` followed by a space is a unit of two characters. */
  lemma SquareMetersUnit(s: string, p: nat)
    requires p + 3 <= |s| && s[p] == 'm' && s[p + 1] == '\U{B2}' && s[p + 2] == ' '
    ensures UnitMatchAt(s, p) == Some(p + 2) && s[p..p + 2] == "m\U{B2}"
  {
    LiteralMismatch(s, p, "m2", 1);
    LiteralMatches(s, p, "m\U{B2}");
  }

  /** `amb.` is a unit of four characters, the dot included. */
  lemma RoomsUnit(s: string, p: nat)
    requires p + 4 <= |s| && s[p] == 'a' && s[p + 1] == 'm' && s[p + 2] == 'b' && s[p + 3] == '.'
    ensures UnitMatchAt(s, p) == Some(p + 4) && s[p..p + 4] == "amb."
  {
    LiteralMismatch(s, p, "m2", 0);
    LiteralMismatch(s, p, "m\U{B2}", 0);
    LiteralMatches(s, p, "amb");
  }

  /** `dorm.` is a unit of five characters, the dot included. */
  lemma BedroomsUnit(s: string, p: nat)
    requires p + 5 <= |s| && s[p] == 'd' && s[p + 1] == 'o' && s[p + 2] == 'r' && s[p + 3] == 'm'
    requires s[p + 4] == '.'
    ensures UnitMatchAt(s, p) == Some(p + 5) && s[p..p + 5] == "dorm."
  {
    LiteralMismatch(s, p, "m2", 0);
    LiteralMismatch(s, p, "m\U{B2}", 0);
    LiteralMismatch(s, p, "amb", 0);
    LiteralMatches(s, p, "dorm");
  }

  /** `baños` followed by a space is a unit of five characters, the plural `s` included. */
  lemma BathroomsUnit(s: string, p: nat)
    requires p + 6 <= |s| && s[p] == 'b' && s[p + 1] == 'a' && s[p + 2] == '\U{F1}'
    requires s[p + 3] == 'o' && s[p + 4] == 's' && s[p + 5] == ' '
    ensures UnitMatchAt(s, p) == Some(p + 5) && s[p..p + 5] == "ba\U{F1}os"
  {
    LiteralMismatch(s, p, "m2", 0);
    LiteralMismatch(s, p, "m\U{B2}", 0);
    LiteralMismatch(s, p, "amb", 0);
    LiteralMismatch(s, p, "dorm", 0);
    LiteralMatches(s, p, "ba\U{F1}o");
  }

  /** `coch.` is a unit of five characters, the dot included. */
  lemma ParkingUnit(s: string, p: nat)
    requires p + 5 <= |s| && s[p] == 'c' && s[p + 1] == 'o' && s[p + 2] == 'c' && s[p + 3] == 'h'
    requires s[p + 4] == '.'
    ensures UnitMatchAt(s, p) == Some(p + 5) && s[p..p + 5] == "coch."
  {
    LiteralMismatch(s, p, "m2", 0);
    LiteralMismatch(s, p, "m\U{B2}", 0);
    LiteralMismatch(s, p, "amb", 0);
    LiteralMismatch(s, p, "dorm", 0);
    LiteralMismatch(s, p, "ba\U{F1}o", 0);
    LiteralMatches(s, p, "coch");
  }

  lemma FirstChars()
    ensures DocListing[0] == '2' && DocListing[1] == '1' && DocListing[2] == '5' && DocListing[3] == ' '
    ensures DocListing[4] == 'm' && DocListing[5] == '\U{B2}' && DocListing[6] == ' '
  {
  }

  lemma FirstMatch()
    ensures FeatureMatchAt(DocListing, 0) == Some(AreaMatch)
  {
    FirstChars();
    ThreeDigitNumber(DocListing, 0);
    SquareMetersUnit(DocListing, 4);
    FeatureMatchAtIs(DocListing, 0, 3, 4, 6);
  }

  lemma SecondChars()
    ensures DocListing[12] == '5' && DocListing[13] == ' '
    ensures DocListing[14] == 'a' && DocListing[15] == 'm' && DocListing[16] == 'b' && DocListing[17] == '.'
  {
  }

  lemma SecondMatch()
    ensures FeatureMatchAt(DocListing, 12) == Some(RoomsMatch)
  {
    SecondChars();
    OneDigitNumber(DocListing, 12);
    RoomsUnit(DocListing, 14);
    FeatureMatchAtIs(DocListing, 12, 13, 14, 18);
  }

  lemma ThirdChars()
    ensures DocListing[19] == '4' && DocListing[20] == ' '
    ensures DocListing[21] == 'd' && DocListing[22] == 'o' && DocListing[23] == 'r' && DocListing[24] == 'm'
    ensures DocListing[25] == '.'
  {
  }

  lemma ThirdMatch()
    ensures FeatureMatchAt(DocListing, 19) == Some(BedroomsMatch)
  {
    ThirdChars();
    OneDigitNumber(DocListing, 19);
    BedroomsUnit(DocListing, 21);
    FeatureMatchAtIs(DocListing, 19, 20, 21, 26);
  }

  lemma FourthChars()
    ensures DocListing[27] == '2' && DocListing[28] == ' '
    ensures DocListing[29] == 'b' && DocListing[30] == 'a' && DocListing[31] == '\U{F1}'
    ensures DocListing[32] == 'o' && DocListing[33] == 's' && DocListing[34] == ' '
  {
  }

  lemma FourthMatch()
    ensures FeatureMatchAt(DocListing, 27) == Some(BathroomsMatch)
  {
    FourthChars();
    OneDigitNumber(DocListing, 27);
    BathroomsUnit(DocListing, 29);
    FeatureMatchAtIs(DocListing, 27, 28, 29, 34);
  }

  lemma FifthChars()
    ensures |DocListing| == 42 && DocListing[35] == '1' && DocListing[36] == ' '
    ensures DocListing[37] == 'c' && DocListing[38] == 'o' && DocListing[39] == 'c' && DocListing[40] == 'h'
    ensures DocListing[41] == '.'
  {
  }

  lemma FifthMatch()
    ensures FeatureMatchAt(DocListing, 35) == Some(ParkingMatch)
  {
    FifthChars();
    OneDigitNumber(DocListing, 35);
    ParkingUnit(DocListing, 37);
    FeatureMatchAtIs(DocListing, 35, 36, 37, 42);
  }

  /** One step of `findall`: a match at `from`, then the scan resumes at its end. */
  lemma MatchesFromStep(s: string, from: nat, m: FeatureMatch)
    requires from < |s| && FeatureMatchAt(s, from) == Some(m)
    ensures MatchesFrom(s, from) == [m] + MatchesFrom(s, m.End())
  {
  }

  /** The scan passes over a position where no number starts. */
  lemma MatchesFromSkipOne(s: string, from: nat)
    requires from < |s| && !IsDigit(s[from])
    ensures MatchesFrom(s, from) == MatchesFrom(s, from + 1)
  {
    assert FeatureMatchAt(s, from).None?;
  }

  /** A match followed by one space: the scan resumes after the space. */
  lemma MatchThenSpace(s: string, from: nat, m: FeatureMatch)
    requires from < |s| && FeatureMatchAt(s, from) == Some(m)
    requires m.End() < |s| && s[m.End()] == ' '
    ensures MatchesFrom(s, from) == [m] + MatchesFrom(s, m.End() + 1)
  {
    MatchesFromStep(s, from, m);
    MatchesFromSkipOne(s, m.End());
  }

  lemma ListingSpaces()
    ensures |DocListing| == 42
    ensures DocListing[18] == ' ' && DocListing[26] == ' ' && DocListing[34] == ' '
  {
  }

  lemma TailFromFifth()
    ensures MatchesFrom(DocListing, 35) == [ParkingMatch]
  {
    FifthMatch();
    MatchesFromStep(DocListing, 35, ParkingMatch);
    assert ParkingMatch.End() == |DocListing|;
  }

  lemma TailFromFourth()
    ensures MatchesFrom(DocListing, 27) == [BathroomsMatch] + [ParkingMatch]
  {
    FourthMatch();
    ListingSpaces();
    TailFromFifth();
    MatchThenSpace(DocListing, 27, BathroomsMatch);
  }

  lemma TailFromThird()
    ensures MatchesFrom(DocListing, 19) == [BedroomsMatch] + ([BathroomsMatch] + [ParkingMatch])
  {
    ThirdMatch();
    ListingSpaces();
    TailFromFourth();
    MatchThenSpace(DocListing, 19, BedroomsMatch);
  }

  lemma TailFromSecond()
    ensures MatchesFrom(DocListing, 12) ==
            [RoomsMatch] + ([BedroomsMatch] + ([BathroomsMatch] + [ParkingMatch]))
  {
    SecondMatch();
    ListingSpaces();
    TailFromThird();
    MatchThenSpace(DocListing, 12, RoomsMatch);
  }

  lemma SkipUnitWord()
    ensures MatchesFrom(DocListing, 6) == MatchesFrom(DocListing, 12)
  {
    assert DocListing[6] == ' ' && DocListing[7] == 't' && DocListing[8] == 'o';
    assert DocListing[9] == 't' && DocListing[10] == '.' && DocListing[11] == ' ';
    MatchesFromSkipOne(DocListing, 6);
    MatchesFromSkipOne(DocListing, 7);
    MatchesFromSkipOne(DocListing, 8);
    MatchesFromSkipOne(DocListing, 9);
    MatchesFromSkipOne(DocListing, 10);
    MatchesFromSkipOne(DocListing, 11);
  }

  /** Five one-element sequences joined from the right, and from the left. */
  lemma FiveInARow<T>(a: T, b: T, c: T, d: T, e: T)
    ensures [a] + ([b] + ([c] + ([d] + [e]))) == [a, b, c, d, e]
    ensures [a, b, c, d, e] == [a, b, c, d] + [e]
    ensures [a, b, c, d] == [a, b, c] + [d] && [a, b, c] == [a, b] + [c]
    ensures [a, b] == [a] + [b] && [a] == [] + [a]
  {
  }

  /** The matches of the doc-comment listing. */
  lemma ListingMatches()
    ensures FeatureMatches(DocListing) ==
            [AreaMatch, RoomsMatch, BedroomsMatch, BathroomsMatch, ParkingMatch]
  {
    FirstMatch();
    MatchesFromStep(DocListing, 0, AreaMatch);
    assert AreaMatch.End() == 6;
    SkipUnitWord();
    TailFromSecond();
    FiveInARow(AreaMatch, RoomsMatch, BedroomsMatch, BathroomsMatch, ParkingMatch);
  }

  lemma KeyOfSquareMeters()
    ensures FeatureKey("m\U{B2}") == "square_meters_area"
  {
    SquareMetersKey("m\U{B2}");
  }

  lemma KeyOfRooms()
    ensures FeatureKey("amb.") == "rooms"
  {
    assert "amb" + ['.'] == "amb.";
    RoomsKey("amb");
  }

  lemma KeyOfBedrooms()
    ensures FeatureKey("dorm.") == "bedrooms"
  {
    assert "dorm" + ['.'] == "dorm.";
    BedroomsKey("dorm");
  }

  lemma KeyOfBathrooms()
    ensures FeatureKey("ba\U{F1}os") == "bathrooms"
  {
    BathroomsKey("ba\U{F1}os");
  }

  lemma KeyOfParking()
    ensures FeatureKey("coch.") == "parking"
  {
    assert "coch" + ['.'] == "coch.";
    ParkingKey("coch");
  }

  /** One more match extends the dictionary by its field. */
  lemma FeatureMapSnoc(ms: seq<FeatureMatch>, m: FeatureMatch)
    ensures FeatureMap(ms + [m]) == FeatureMap(ms)[FeatureKey(m.unit) := m.number]
  {
    assert (ms + [m])[..|ms|] == ms;
  }

  /** The dictionary grows one field per match of the listing. */
  lemma ListingMap()
    ensures FeatureMap([AreaMatch, RoomsMatch, BedroomsMatch, BathroomsMatch, ParkingMatch]) == map[
      "square_meters_area" := "215", "rooms" := "5", "bedrooms" := "4",
      "bathrooms" := "2", "parking" := "1"]
  {
    var a, r, b, t, p := AreaMatch, RoomsMatch, BedroomsMatch, BathroomsMatch, ParkingMatch;
    FiveInARow(a, r, b, t, p);
    KeyOfSquareMeters();
    KeyOfRooms();
    KeyOfBedrooms();
    KeyOfBathrooms();
    KeyOfParking();
    FeatureMapSnoc([], a);
    FeatureMapSnoc([a], r);
    FeatureMapSnoc([a, r], b);
    FeatureMapSnoc([a, r, b], t);
    FeatureMapSnoc([a, r, b, t], p);
  }

  /** The doc comment's example: each of the five features lands in its field. */
  lemma ParseFeaturesDocExample()
    ensures FeatureMap(FeatureMatches(DocListing)) == map[
      "square_meters_area" := "215", "rooms" := "5", "bedrooms" := "4",
      "bathrooms" := "2", "parking" := "1"]
  {
    ListingMatches();
    ListingMap();
  }

  /** An occurrence starts with a digit. */
  lemma OccurrenceStartsWithDigit(s: string, i: nat, e: nat, p: nat, q: nat)
    ensures IsOccurrence(s, i, e, p, q) ==> IsDigit(s[i])
  {
    if i < e <= |s| {
      assert s[i..e][0] == s[i];
    }
  }

  /** A text without digits yields the empty dictionary. */
  lemma NoDigitsNoFeatures(text: string)
    requires forall k :: 0 <= k < |text| ==> !IsDigit(text[k])
    ensures FeatureMap(FeatureMatches(text)) == map[]
  {
    FeatureMapEmpty(text);
    forall i: nat, e: nat, p: nat, q: nat | 0 <= i < |text| + 1
      ensures !IsOccurrence(text, i, e, p, q)
    {
      OccurrenceStartsWithDigit(text, i, e, p, q);
    }
  }
}
