/** A float reader that meets what is assumed of it, and lists that do not get what they ask for. */
module AcceptExamples {
  import opened Wrappers
  import opened Text
  import opened Headers
  import opened Negotiation
  import opened AcceptGrammar
  import opened AcceptLists

  /** The exact value of a fraction's digits. */
  function Fraction(digits: string): (v: real)
    ensures v >= 0.0
  {
    if digits == "" then 0.0
    else (DigitValue(digits[0]) as real + Fraction(digits[1..])) / 10.0
  }

  function DigitValue(c: char): nat {
    if IsDecimal(c) then c as int - '0' as int else 0
  }

  /** A reader that is exact on weights and reads nothing else. */
  function ExactReader(text: string): Number {
    if text == "" || text[0] !in "01" || (|text| > 1 && text[1] != '.') then Invalid
    else Finite((if text[0] == '1' then 1.0 else 0.0) + (if |text| > 1 then Fraction(text[2..]) else 0.0))
  }

  lemma {:induction false} FractionPositive(digits: string)
    requires AllOf(digits, IsDecimal)
    ensures Fraction(digits) > 0.0 <==> exists c :: c in digits && c != '0'
  {
    if digits != "" {
      assert digits == [digits[0]] + digits[1..];
      AllOfConcat([digits[0]], digits[1..], IsDecimal);
      FractionPositive(digits[1..]);
      assert forall c :: c in digits <==> c == digits[0] || c in digits[1..];
      assert digits[0] in digits && (DigitValue(digits[0]) > 0 <==> digits[0] != '0');
    }
  }

  /** Exact decimal reading meets the assumption, so it can be met. */
  lemma ExactReaderReadsQvalues()
    ensures ReadsQvalues(ExactReader)
  {
    forall q: Qvalue | q.Valid()
      ensures ExactReader(q.Text()).Finite? && (ExactReader(q.Text()).value > 0.0 <==> q.NonZero())
    {
      FractionPositive(q.digits);
      if q.point {
        assert q.Text()[2..] == q.digits;
      } else {
        assert q.Text() == if q.one then "1" else "0";
      }
    }
  }

  const QUOTED_ZERO: Parameter := Parameter("", "x", "\"a;q=0\"", "")
  const MARKDOWN_OFFER: Item := Item("", MARKDOWN, "", [QUOTED_ZERO], None)

  /** The parameter `x="a;q=0"` is not harmless: the offer it is part of carries no weight, and is lost. */
  lemma QuotedSemicolonExample(parse: FloatParser)
    requires ReadsQvalues(parse)
    ensures MARKDOWN_OFFER.Valid() && CommaFree([MARKDOWN_OFFER])
    ensures MARKDOWN_OFFER.Wanted() && !MARKDOWN_OFFER.Harmless(parse)
    ensures Negotiated(Some(ListText([MARKDOWN_OFFER])), true, parse) != Chosen([MARKDOWN_OFFER])
  {
    OfferIsValid();
    OfferHasNoComma();
    OfferIsNotHarmless(parse);
    MarkdownIsLower();
    OneOfferSelectsExactly(MARKDOWN_OFFER, parse);
  }

  lemma MarkdownIsLower()
    ensures Lower(MARKDOWN) == MARKDOWN
  {
    assert AllOf(MARKDOWN, c => !('A' <= c <= 'Z'));
    LowerAlready(MARKDOWN);
  }

  lemma OfferIsValid()
    ensures MARKDOWN_OFFER.Valid()
  {
    assert AllOf(MARKDOWN, IsMediaTypeChar);
    assert Lower("x") == "x";
  }

  lemma OfferHasNoComma()
    ensures CommaFree([MARKDOWN_OFFER])
  {
    var p := QUOTED_ZERO;
    assert p.Text() == "x=\"a;q=0\"";
    assert [p][1..] == [];
    assert ParameterTexts([p]) == [p.Text()] + [];
    assert "" + MARKDOWN + "" == MARKDOWN;
    assert MARKDOWN_OFFER.Pieces() == [MARKDOWN, p.Text()];
    assert Join([p.Text()], ';') == p.Text();
    assert MARKDOWN_OFFER.Text() == MARKDOWN + [';'] + p.Text();
    assert ',' !in MARKDOWN && ',' !in p.Text();
  }

  lemma OfferIsNotHarmless(parse: FloatParser)
    requires ReadsQvalues(parse)
    ensures !MARKDOWN_OFFER.Harmless(parse)
  {
    StrayZero();
    assert [QUOTED_ZERO][1..] == [];
    assert StraysOf([QUOTED_ZERO]) == QUOTED_ZERO.Strays() + [];
    assert MARKDOWN_OFFER.Strays() == ["0"];
    var zero := Qvalue(false, false, "");
    assert zero.Valid() && zero.Text() == "0" && !zero.NonZero();
  }

  lemma StrayZero()
    ensures QUOTED_ZERO.Strays() == ["0"]
  {
    var left, right := "x=\"a", "q=0\"";
    QuotedZeroText();
    SplitConcat(left, ';', right);
    SplitWithout(left, ';');
    SplitWithout(right, ';');
    assert Split(QUOTED_ZERO.Text(), ';')[1..] == [right];
    HalfQuotedZero();
  }

  lemma QuotedZeroText()
    ensures QUOTED_ZERO.Text() == "x=\"a" + [';'] + "q=0\""
  {}

  lemma HalfQuotedZero()
    ensures Weights(["q=0\""]) == ["0"]
  {
    var w := Spelling("", 'q', "", "", "", "\"", "");
    WeightReadsInner(w, "0");
    assert w.Around("0") == "q=0\"";
    assert ["q=0\""][1..] == [];
  }

  /** An item whose one parameter holds another media type between two commas. */
  function Smuggling(mediaType: string, left: string, offer: string, right: string): Item {
    Item("", mediaType, "", [Parameter("", "x", left + [','] + (offer + [','] + right), "")], None)
  }

  lemma SmugglingText(mediaType: string, left: string, offer: string, right: string)
    ensures var item := Smuggling(mediaType, left, offer, right);
            && item.Text() == (mediaType + ([';'] + ("x=" + left))) + [','] + (offer + [','] + right)
            && item.parameters[0].Text() == "x=" + (left + [','] + (offer + [','] + right))
  {
    var item := Smuggling(mediaType, left, offer, right);
    var p := item.parameters[0];
    assert p.Text() == "x=" + (left + [','] + (offer + [','] + right));
    assert [p][1..] == [];
    assert ParameterTexts([p]) == [p.Text()] + [];
    assert "" + mediaType + "" == mediaType;
    assert item.Pieces() == [mediaType, p.Text()];
    assert Join([p.Text()], ';') == p.Text();
    assert item.Text() == mediaType + [';'] + p.Text();
  }

  /** Cut at its commas, such an item offers the type in between, whatever it means. */
  lemma SmugglesOffer(mediaType: string, left: string, offer: string, right: string, parse: FloatParser)
    requires offer != "" && AllOf(offer, IsSmallChar)
    ensures Offers(Split(Smuggling(mediaType, left, offer, right).Text(), ','), offer, parse)
  {
    var head := mediaType + ([';'] + ("x=" + left));
    SmugglingText(mediaType, left, offer, right);
    SplitConcat(head, ',', offer + [','] + right);
    SplitConcat(offer, ',', right);
    BareOffer(offer, parse);
    SplitWithout(offer, ',');
    var tail := Split(offer + [','] + right, ',');
    assert tail[0] == offer;
    assert offer in tail && offer in Split(head, ',') + tail;
  }

  /** The characters of lower-case media types like the ones here. */
  predicate IsSmallChar(c: char) {
    'a' <= c <= 'z' || c == '/' || c == '+'
  }

  lemma SmallIsMediaType(c: char)
    requires IsSmallChar(c)
    ensures IsMediaTypeChar(c) && IsPieceChar(c)
  {}

  lemma SmallText(text: string)
    requires AllOf(text, IsSmallChar)
    ensures AllOf(text, IsMediaTypeChar) && IsPiece(text) && Lower(text) == text
  {
    forall c | c in text ensures IsMediaTypeChar(c) && IsPieceChar(c) {
      SmallIsMediaType(c);
    }
    LowerAlready(text);
  }

  predicate IsReadableButSemicolon(c: char) {
    IsReadableChar(c) && c != ';'
  }

  lemma ThreePieces(left: string, middle: string, right: string)
    requires IsPiece(left) && IsPiece(middle) && IsPiece(right)
    ensures AllOf(left + [','] + (middle + [','] + right), IsReadableButSemicolon)
    ensures AllOf(left + [','] + (middle + [','] + right), IsReadableChar)
  {
    var text := left + [','] + (middle + [','] + right);
    forall c | c in text ensures IsReadableButSemicolon(c) {
      assert c in left || c == ',' || c in middle || c in right;
    }
    AllOfWeaken(text, IsReadableButSemicolon, IsReadableChar);
  }

  lemma SmugglingIsPlain(mediaType: string, left: string, offer: string, right: string, parse: FloatParser)
    requires mediaType != "" && AllOf(mediaType, IsMediaTypeChar)
    requires IsPiece(left) && IsPiece(offer) && IsPiece(right)
    ensures Smuggling(mediaType, left, offer, right).Valid() && Smuggling(mediaType, left, offer, right).Harmless(parse)
  {
    var item := Smuggling(mediaType, left, offer, right);
    SmugglingText(mediaType, left, offer, right);
    ThreePieces(left, offer, right);
    LettersOfX();
    AllOfConcat("x=", item.parameters[0].value, IsReadableButSemicolon);
    NoSemicolon(item.parameters[0].Text());
    PlainIsHarmless(item, parse);
  }

  lemma LettersOfX()
    ensures Lower("x") == "x" && AllOf("x", IsTokenChar) && AllOf("x=", IsReadableButSemicolon)
  {}

  lemma NoSemicolon(text: string)
    requires AllOf(text, IsReadableButSemicolon)
    ensures ';' !in text
  {}

  /** A list of one item that is read as offering ajar JSON gets it, whatever it asks for. */
  lemma ReadAsAjar(item: Item, parse: FloatParser)
    requires item.Valid() && Offers(Split(item.Text(), ','), AJAR_JSON, parse)
    ensures Negotiated(Some(ListText([item])), true, parse) == AjarJson
  {
    ItemOffers(item, AJAR_JSON, parse);
    AnyListSelectsExactly([item], parse);
    assert item in [item];
  }

  lemma AsksForNeither(item: Item)
    requires Lower(item.mediaType) != AJAR_JSON && Lower(item.mediaType) != MARKDOWN
    ensures Chosen([item]) == Passthrough
  {}

  /** Another media type, and ajar JSON for one of its parameters to hold. */
  ghost predicate CanSmuggle(mediaType: string, left: string, offer: string, right: string) {
    && mediaType != "" && AllOf(mediaType, IsMediaTypeChar)
    && Lower(mediaType) != AJAR_JSON && Lower(mediaType) != MARKDOWN
    && offer == AJAR_JSON && AllOf(offer, IsSmallChar) && IsPiece(left) && IsPiece(right)
  }

  /**
   A comma inside a quoted parameter ends the item. An item of another type, valid and
   harmless, that asks for neither representation gets ajar JSON when its parameter holds it.
   */
  lemma QuotedCommaOpensOffer(mediaType: string, left: string, offer: string, right: string, parse: FloatParser)
    requires CanSmuggle(mediaType, left, offer, right)
    ensures var item := Smuggling(mediaType, left, offer, right);
            && item.Valid() && item.Harmless(parse) && Chosen([item]) == Passthrough
            && Negotiated(Some(ListText([item])), true, parse) == AjarJson
  {
    var item := Smuggling(mediaType, left, offer, right);
    SmallText(offer);
    SmugglingIsPlain(mediaType, left, offer, right, parse);
    SmugglesOffer(mediaType, left, offer, right, parse);
    ReadAsAjar(item, parse);
    AsksForNeither(item);
  }

  /** For instance `text/html;x="a,application/ajar+json,b"`. */
  lemma QuotedCommaExample(parse: FloatParser) returns (item: Item)
    ensures item == Smuggling("text/html", "\"a", AJAR_JSON, "b\"")
    ensures item.Valid() && item.Harmless(parse) && Chosen([item]) == Passthrough
    ensures Negotiated(Some(ListText([item])), true, parse) == AjarJson
  {
    HtmlCanSmuggle();
    QuotedCommaOpensOffer("text/html", "\"a", AJAR_JSON, "b\"", parse);
    item := Smuggling("text/html", "\"a", AJAR_JSON, "b\"");
  }

  lemma HtmlCanSmuggle()
    ensures CanSmuggle("text/html", "\"a", AJAR_JSON, "b\"")
  {
    HtmlChars();
    assert Lower("text/html") == "text/html" by {
      SmallText("text/html");
    }
    assert |AJAR_JSON| == 21 && |MARKDOWN| == 13;
  }

  lemma HtmlChars()
    ensures AllOf("text/html", IsSmallChar) && AllOf("text/html", IsMediaTypeChar)
    ensures AllOf(AJAR_JSON, IsSmallChar)
    ensures IsPiece("\"a") && IsPiece("b\"")
  {}

  /**
   A refused item is served: one for ajar JSON with weight zero, whose own weight is cut off
   by a comma with no semicolon before it, gets ajar JSON.
   */
  lemma RefusedItemServed(item: Item, parse: FloatParser)
    requires item.Valid() && item.IsCut() && CutStraysOf(item.parameters) == [] && !item.Wanted()
    requires Lower(item.mediaType) == AJAR_JSON
    ensures item.Harmless(parse) && !item.ReadsAsMeant(parse) && Chosen([item]) == Passthrough
    ensures Negotiated(Some(ListText([item])), true, parse) == AjarJson
  {
    RefusedAsksForNothing(item);
    assert item.Counts(parse);
    ItemOffers(item, AJAR_JSON, parse);
    ReadAsAjar(item, parse);
  }

  lemma RefusedAsksForNothing(item: Item)
    requires !item.Wanted()
    ensures Chosen([item]) == Passthrough
  {}

  const COMMA_PARAMETER: Parameter := Parameter("", "x", "\"a,b\"", "")
  const ZERO_WEIGHT: SpelledWeight := SpelledWeight(Spelling("", 'q', "", "", "", "", ""), Qvalue(false, false, ""))

  function RefusedItem(mediaType: string): Item {
    Item("", mediaType, "", [COMMA_PARAMETER], Some(ZERO_WEIGHT))
  }

  /** For instance `application/ajar+json;x="a,b";q=0`. */
  lemma RefusedItemExample(parse: FloatParser) returns (item: Item)
    ensures item == RefusedItem(AJAR_JSON)
    ensures item.Valid() && item.Harmless(parse) && !item.Wanted() && Chosen([item]) == Passthrough
    ensures Negotiated(Some(ListText([item])), true, parse) == AjarJson
  {
    HtmlChars();
    SmallText(AJAR_JSON);
    RefusedItemIsCut(AJAR_JSON);
    RefusedItemServed(RefusedItem(AJAR_JSON), parse);
    item := RefusedItem(AJAR_JSON);
  }

  lemma RefusedItemIsCut(mediaType: string)
    requires mediaType != "" && AllOf(mediaType, IsMediaTypeChar)
    ensures var item := RefusedItem(mediaType);
            item.Valid() && !item.Wanted() && item.IsCut() && CutStraysOf(item.parameters) == []
  {
    var p := COMMA_PARAMETER;
    CommaParameterText();
    LettersOfX();
    FirstPiece("x=\"a", ",b\"", ',');
    SplitWithout(Split(p.Text(), ',')[0], ';');
    assert p in RefusedItem(mediaType).parameters;
  }

  lemma CommaParameterText()
    ensures COMMA_PARAMETER.Text() == "x=\"a" + ",b\"" && COMMA_PARAMETER.Valid()
    ensures Split(COMMA_PARAMETER.Text(), ',')[0] == "x=\"a"
  {
    LettersOfX();
    FirstPiece("x=\"a", ",b\"", ',');
    assert Split(",b\"", ',')[0] == "";
  }

  /** A bare media type in lower case offers itself. */
  lemma BareOffer(mediaType: string, parse: FloatParser)
    requires mediaType != "" && AllOf(mediaType, IsSmallChar)
    ensures MediaType(mediaType) == mediaType && Acceptable(mediaType, parse)
  {
    SmallText(mediaType);
    SplitWithout(mediaType, ';');
    TokenTight(mediaType);
    TrimTight(mediaType, IsWhitespace);
  }

  // --------------------------------------------------------------- the two types

  /** The two types by name, alone in a header of one line: each gets its representation. */
  lemma BareTypes(parse: FloatParser)
    ensures Negotiated(Some("application/ajar+json"), true, parse) == AjarJson
    ensures Negotiated(Some("text/markdown"), true, parse) == Representation.Markdown
  {
    BareType(AJAR_JSON, parse);
    BareType(MARKDOWN, parse);
    assert AJAR_JSON != MARKDOWN;
  }

  lemma BareType(mediaType: string, parse: FloatParser)
    requires mediaType == AJAR_JSON || mediaType == MARKDOWN
    ensures Negotiated(Some(mediaType), true, parse) == if mediaType == AJAR_JSON then AjarJson else Representation.Markdown
  {
    TypeIsSmall(mediaType);
    BareOffer(mediaType, parse);
    SplitWithout(mediaType, ',');
    OneItemPreferred(mediaType, parse);
  }

  lemma OneItemPreferred(text: string, parse: FloatParser)
    requires Acceptable(text, parse) && (MediaType(text) == AJAR_JSON || MediaType(text) == MARKDOWN)
    ensures Preferred([text], parse) == if MediaType(text) == AJAR_JSON then AjarJson else Representation.Markdown
  {
    OffersOne(text, AJAR_JSON, parse);
    OffersOne(text, MARKDOWN, parse);
  }

  lemma TypeIsSmall(mediaType: string)
    requires mediaType == AJAR_JSON || mediaType == MARKDOWN
    ensures mediaType != "" && AllOf(mediaType, IsSmallChar) && ',' !in mediaType
  {}
}
