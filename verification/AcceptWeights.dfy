/** What weights of any text say, and that how a weight is written does not matter. */
module AcceptWeights {
  import opened Wrappers
  import opened Text
  import opened Negotiation
  import opened AcceptGrammar
  import opened AcceptLists

  // ----------------------------------------------------------- weights of any text

  /** A weight of any text, not only a qvalue. */
  datatype AnyWeight = AnyWeight(spelling: Spelling, inner: string) {

    predicate Valid() {
      spelling.Valid() && Printable(spelling.opening, inner, spelling.closing)
    }

    function Text(): string {
      spelling.Around(inner)
    }
  }

  function AnyTexts(weights: seq<AnyWeight>): (texts: seq<string>)
    ensures |texts| == |weights|
  {
    if weights == [] then [] else [weights[0].Text()] + AnyTexts(weights[1..])
  }

  function Inners(weights: seq<AnyWeight>): (texts: seq<string>)
    ensures |texts| == |weights|
    ensures forall i :: 0 <= i < |weights| ==> texts[i] == weights[i].inner
  {
    if weights == [] then [] else [weights[0].inner] + Inners(weights[1..])
  }

  lemma {:induction false} WeightsReadBack(weights: seq<AnyWeight>)
    requires forall w :: w in weights ==> w.Valid()
    ensures Weights(AnyTexts(weights)) == Inners(weights)
    ensures forall text :: text in AnyTexts(weights) ==> ';' !in text && ',' !in text
  {
    if weights != [] {
      assert weights[0] in weights && weights[0].Valid();
      WeightReadsInner(weights[0].spelling, weights[0].inner);
      assert forall w :: w in weights[1..] ==> w in weights;
      WeightsReadBack(weights[1..]);
      assert forall c :: c in weights[0].Text() ==> IsPieceChar(c);
    }
  }

  /** What the number a weight reads as says of the offer: it is refused at zero and below, and not-a-number is not below. */
  predicate SaysYes(n: Number) {
    match n
    case Invalid => false
    case NotANumber => true
    case Infinite(negative) => !negative
    case Finite(value) => value > 0.0
  }

  function WeightedText(mediaType: string, weights: seq<AnyWeight>): string {
    Join([mediaType] + AnyTexts(weights), ';')
  }

  /**
   A media type with any weights, of any text and however written: it is an acceptable offer
   exactly when every weight reads as a number and the last one, if there is one, says yes.
   */
  lemma AnyWeightsExactly(mediaType: string, weights: seq<AnyWeight>, parse: FloatParser)
    requires mediaType != "" && AllOf(mediaType, IsMediaTypeChar)
    requires forall w :: w in weights ==> w.Valid()
    ensures MediaType(WeightedText(mediaType, weights)) == Lower(mediaType)
    ensures Acceptable(WeightedText(mediaType, weights), parse) <==>
              && (forall i :: 0 <= i < |weights| ==> parse(weights[i].inner) != Invalid)
              && (weights == [] || SaysYes(parse(weights[|weights| - 1].inner)))
  {
    WeightedReadsBack(mediaType, weights);
    var inners := Inners(weights);
    assert AllRead(inners, parse) <==> forall i :: 0 <= i < |weights| ==> parse(weights[i].inner) != Invalid by {
      forall i | 0 <= i < |weights| ensures weights[i].inner in inners {
        assert inners[i] == weights[i].inner;
      }
    }
  }

  lemma WeightedReadsBack(mediaType: string, weights: seq<AnyWeight>)
    requires mediaType != "" && AllOf(mediaType, IsMediaTypeChar)
    requires forall w :: w in weights ==> w.Valid()
    ensures MediaType(WeightedText(mediaType, weights)) == Lower(mediaType)
    ensures Weights(Parameters(WeightedText(mediaType, weights))) == Inners(weights)
  {
    var pieces := [mediaType] + AnyTexts(weights);
    WeightsReadBack(weights);
    TokenTight(mediaType);
    TrimTight(mediaType, IsWhitespace);
    assert forall c :: c in mediaType ==> IsMediaTypeChar(c);
    SplitJoinPieces(pieces, ';');
    assert pieces[1..] == AnyTexts(weights);
  }

  /** A name without a value is a weight of no text, and so is one with nothing but quotes. */
  lemma EmptyWeights(w: Spelling)
    requires w.Valid()
    ensures Weight(w.before + ([w.letter] + w.gap)) == Some("")
    ensures w.opening + w.closing != "" ==> Weight(w.Around("")) == Some("")
  {
    NameTrims(w);
    var name := [w.letter] + w.gap;
    AllOfWeaken(w.before, IsBlank, IsWhitespace);
    AllOfWeaken(w.gap, IsBlank, IsWhitespace);
    TrimPadded(w.before, [w.letter], w.gap, IsWhitespace);
    assert w.before + [w.letter] + w.gap == w.before + name;
    SplitOnceAt([w.letter], '=', "");
    TrimTight([w.letter], IsWhitespace);
    assert Lower([w.letter]) == "q";
    if w.opening + w.closing != "" {
      OnlyQuotes(w.opening, w.closing);
      WeightReadsInner(w, "");
    }
  }

  lemma OnlyQuotes(opening: string, closing: string)
    requires AllOf(opening, IsQuote) && AllOf(closing, IsQuote) && opening + closing != ""
    ensures Printable(opening, "", closing)
  {
    var text := opening + "" + closing;
    AllOfConcat(opening, closing, IsQuote);
    assert text == opening + closing && text[0] in text && text[|text| - 1] in text;
  }

  // ------------------------------------------------------- spelling does not matter

  /** The same item but for blanks, the case of its media type, and how its weight is written. */
  predicate SameMeaning(a: Item, b: Item) {
    && Lower(a.mediaType) == Lower(b.mediaType) && a.parameters == b.parameters
    && a.weight.Some? == b.weight.Some?
    && (a.weight.Some? ==> a.weight.value.qvalue == b.weight.value.qvalue)
  }

  /** Two lists of the same items, however their weights are written, quoted or not, select the same. */
  lemma SpellingDoesNotMatter(items: seq<Item>, others: seq<Item>, parse: FloatParser)
    requires items != [] && |items| == |others| && AllValid(items) && AllValid(others) && ReadsQvalues(parse)
    requires CommaFree(items)
    requires forall i :: 0 <= i < |items| ==> SameMeaning(items[i], others[i])
    ensures Negotiated(Some(ListText(items)), true, parse) == Negotiated(Some(ListText(others)), true, parse)
  {
    SameCommas(items, others);
    PrintedListSelects(items, parse);
    PrintedListSelects(others, parse);
    SameKept(items, others, AJAR_JSON, parse);
    SameKept(items, others, MARKDOWN, parse);
  }

  lemma SameCommas(items: seq<Item>, others: seq<Item>)
    requires |items| == |others| && AllValid(items) && AllValid(others) && CommaFree(items)
    requires forall i :: 0 <= i < |items| ==> SameMeaning(items[i], others[i])
    ensures CommaFree(others)
  {
    forall i | 0 <= i < |others| ensures ',' !in others[i].Text() {
      assert items[i] in items && SameMeaning(items[i], others[i]);
      CutHasComma(items[i]);
      CutHasComma(others[i]);
    }
  }

  lemma SameKept(items: seq<Item>, others: seq<Item>, mediaType: string, parse: FloatParser)
    requires |items| == |others| && forall i :: 0 <= i < |items| ==> SameMeaning(items[i], others[i])
    ensures Keeps(items, mediaType, parse) <==> Keeps(others, mediaType, parse)
  {
    forall i | 0 <= i < |items|
      ensures items[i].Wanted() == others[i].Wanted() && items[i].Harmless(parse) == others[i].Harmless(parse)
    {
      assert SameMeaning(items[i], others[i]);
    }
    if Keeps(items, mediaType, parse) {
      var i :| 0 <= i < |items| && Lower(items[i].mediaType) == mediaType && items[i].Wanted() && items[i].Harmless(parse);
      assert SameMeaning(items[i], others[i]) && others[i] in others;
    }
    if Keeps(others, mediaType, parse) {
      var i :| 0 <= i < |others| && Lower(others[i].mediaType) == mediaType && others[i].Wanted() && others[i].Harmless(parse);
      assert SameMeaning(items[i], others[i]) && items[i] in items;
    }
  }

  /** An item with its weight, if any, written plainly: `;q=` and the qvalue. */
  function Plainly(item: Item): Item {
    match item.weight
    case None => item
    case Some(w) => item.(weight := Some(SpelledWeight(Spelling("", 'q', "", "", "", "", ""), w.qvalue)))
  }

  /** In particular one item with a quoted weight offers what it would offer unquoted. */
  lemma QuotedWeightSelects(item: Item, parse: FloatParser)
    requires item.Valid() && ReadsQvalues(parse) && CommaFree([item])
    ensures Negotiated(Some(ListText([item])), true, parse) == Negotiated(Some(ListText([Plainly(item)])), true, parse)
  {
    SpellingDoesNotMatter([item], [Plainly(item)], parse);
  }
}
