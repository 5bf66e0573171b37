/** Choosing a representation from the Accept header. */
module Negotiation {
  import opened Wrappers
  import opened Text
  import opened Headers

  const AJAR_JSON := "application/ajar+json"
  const MARKDOWN := "text/markdown"

  datatype Representation = AjarJson | Markdown | Passthrough

  /** What reading a text as a 32-bit float can give. */
  datatype Number = Invalid | NotANumber | Infinite(negative: bool) | Finite(value: real)

  /** How the library reads floats is a parameter of everything below. */
  type FloatParser = string -> Number

  /** The comparison `q <= 0.0`: false of not-a-number. */
  predicate AtMostZero(n: Number) {
    (n.Finite? && n.value <= 0.0) || (n.Infinite? && n.negative)
  }

  // ------------------------------------------------------ what an item of the list says

  function MediaType(item: string): string {
    Lower(Trim(Split(item, ';')[0]))
  }

  function Parameters(item: string): seq<string> {
    Split(item, ';')[1..]
  }

  /** The text of the weight, if this parameter is one. */
  function Weight(parameter: string): Option<string> {
    var (name, value) := SplitOnce(Trim(parameter), '=');
    if Lower(Trim(name)) == "q"
    then Some(TrimQuotes(Trim(if value.Some? then value.value else "")))
    else None
  }

  function Weights(parameters: seq<string>): seq<string> {
    if parameters == [] then [] else WeightsIn(parameters[0]) + Weights(parameters[1..])
  }

  function WeightsIn(parameter: string): seq<string> {
    var weight := Weight(parameter);
    if weight.Some? then [weight.value] else []
  }

  lemma {:induction false} WeightsConcat(a: seq<string>, b: seq<string>)
    ensures Weights(a + b) == Weights(a) + Weights(b)
  {
    if a == [] {
      assert a + b == b;
    } else {
      assert (a + b)[1..] == a[1..] + b;
      WeightsConcat(a[1..], b);
    }
  }

  predicate AllRead(weights: seq<string>, parse: FloatParser) {
    forall w :: w in weights ==> parse(w) != Invalid
  }

  /** The last weight; one when there is none. */
  function LastWeight(weights: seq<string>, parse: FloatParser): Number {
    if weights == [] then Finite(1.0) else parse(weights[|weights| - 1])
  }

  /** Every weight reads as a number, and the last one is not at most zero. */
  predicate Acceptable(item: string, parse: FloatParser) {
    var weights := Weights(Parameters(item));
    AllRead(weights, parse) && !AtMostZero(LastWeight(weights, parse))
  }

  predicate Offers(items: seq<string>, mediaType: string, parse: FloatParser) {
    exists item :: item in items && MediaType(item) == mediaType && Acceptable(item, parse)
  }

  /** AjarJson when it is acceptable, else Markdown when that is, else the origin's page. */
  function Preferred(items: seq<string>, parse: FloatParser): Representation {
    if Offers(items, AJAR_JSON, parse) then AjarJson
    else if Offers(items, MARKDOWN, parse) then Markdown
    else Passthrough
  }

  function Negotiated(accept: Option<string>, hasView: bool, parse: FloatParser): Representation {
    if !hasView || accept.None? then Passthrough else Preferred(Split(accept.value, ','), parse)
  }

  method ReadWeights(parameters: seq<string>, parse: FloatParser) returns (q: Number, invalidQ: bool)
    ensures invalidQ == !AllRead(Weights(parameters), parse)
    ensures !invalidQ ==> q == LastWeight(Weights(parameters), parse)
  {
    q := Finite(1.0);
    invalidQ := false;
    for k := 0 to |parameters|
      invariant invalidQ == !AllRead(Weights(parameters[..k]), parse)
      invariant !invalidQ ==> q == LastWeight(Weights(parameters[..k]), parse)
    {
      WeightsNext(parameters, k);
      var (name, value) := SplitOnce(Trim(parameters[k]), '=');
      var text := TrimQuotes(Trim(if value.Some? then value.value else ""));
      if Lower(Trim(name)) == "q" {
        assert WeightsIn(parameters[k]) == [text];
        AllReadNext(Weights(parameters[..k]), text, parse);
        if parse(text) != Invalid {
          q := parse(text);
        } else {
          invalidQ := true;
        }
      }
    }
    assert parameters[..|parameters|] == parameters;
  }

  lemma WeightsNext(parameters: seq<string>, k: nat)
    requires k < |parameters|
    ensures Weights(parameters[..k + 1]) == Weights(parameters[..k]) + WeightsIn(parameters[k])
  {
    assert parameters[..k + 1] == parameters[..k] + [parameters[k]];
    WeightsConcat(parameters[..k], [parameters[k]]);
    assert [parameters[k]][1..] == [];
  }

  lemma AllReadNext(weights: seq<string>, w: string, parse: FloatParser)
    ensures AllRead(weights + [w], parse) <==> AllRead(weights, parse) && parse(w) != Invalid
  {
    assert w in weights + [w];
    assert forall v :: v in weights ==> v in weights + [w];
  }

  method Negotiate(accept: Option<string>, hasView: bool, parse: FloatParser) returns (r: Representation)
    ensures r == Negotiated(accept, hasView, parse)
  {
    if !hasView {
      return Passthrough;
    }
    if accept.None? {
      return Passthrough;
    }
    var markdown := false;
    var items := Split(accept.value, ',');
    for i := 0 to |items|
      invariant !Offers(items[..i], AJAR_JSON, parse)
      invariant markdown == Offers(items[..i], MARKDOWN, parse)
    {
      assert items[..i + 1] == items[..i] + [items[i]];
      OffersConcat(items[..i], [items[i]], AJAR_JSON, parse);
      OffersConcat(items[..i], [items[i]], MARKDOWN, parse);
      OffersOne(items[i], AJAR_JSON, parse);
      OffersOne(items[i], MARKDOWN, parse);
      var parts := Split(items[i], ';');
      var mediaType := Lower(Trim(parts[0]));
      if mediaType != AJAR_JSON && mediaType != MARKDOWN {
        continue;
      }
      var q, invalidQ := ReadWeights(parts[1..], parse);
      if invalidQ || AtMostZero(q) {
        continue;
      }
      assert Acceptable(items[i], parse);
      if mediaType == AJAR_JSON {
        assert items[i] in items;
        return AjarJson;
      }
      markdown := true;
    }
    assert items[..|items|] == items;
    return if markdown then Markdown else Passthrough;
  }

  lemma OffersOne(item: string, mediaType: string, parse: FloatParser)
    ensures Offers([item], mediaType, parse) <==> MediaType(item) == mediaType && Acceptable(item, parse)
  {
    assert item in [item];
  }

  lemma OffersConcat(a: seq<string>, b: seq<string>, mediaType: string, parse: FloatParser)
    ensures Offers(a + b, mediaType, parse) <==> Offers(a, mediaType, parse) || Offers(b, mediaType, parse)
  {}

  /** Without a view, or without a readable Accept line, the origin answers. */
  lemma NothingToChoose(accept: Option<string>, parse: FloatParser)
    ensures Negotiated(accept, false, parse) == Passthrough
    ensures Negotiated(None, true, parse) == Passthrough
  {}

  // ------------------------------------------------------------ what does not matter

  /** Only which items occur matters: not their order, not how often. */
  lemma OrderAndRepetitionDoNotMatter(items: seq<string>, others: seq<string>, parse: FloatParser)
    requires forall item :: item in items <==> item in others
    ensures Preferred(items, parse) == Preferred(others, parse)
  {}

  /** The items of all the readable Accept lines. */
  function AcceptItems(lines: seq<string>): seq<string> {
    Flatten(SplitAll(ReadableValues(lines), ','))
  }

  /** The list may be spread over header lines in any way: only its items count. */
  lemma LinesDoNotMatter(h: Headers, parse: FloatParser)
    ensures Negotiated(CombinedAccept(h), true, parse) == Preferred(AcceptItems(GetAll(h, "accept")), parse)
  {
    var lines := ReadableValues(GetAll(h, "accept"));
    if lines != [] {
      SplitJoin(lines, ',');
    }
  }

  /** In particular the lines may come in any order, be repeated, and be cut differently. */
  lemma SameItemsSameChoice(h: Headers, g: Headers, parse: FloatParser)
    requires forall item ::
               item in AcceptItems(GetAll(h, "accept")) <==> item in AcceptItems(GetAll(g, "accept"))
    ensures Negotiated(CombinedAccept(h), true, parse) == Negotiated(CombinedAccept(g), true, parse)
  {
    LinesDoNotMatter(h, parse);
    LinesDoNotMatter(g, parse);
    OrderAndRepetitionDoNotMatter(AcceptItems(GetAll(h, "accept")), AcceptItems(GetAll(g, "accept")), parse);
  }

  lemma {:induction false} ItemsOfLines(lines: seq<string>, item: string)
    ensures item in AcceptItems(lines) <==>
            exists line :: line in lines && IsReadable(line) && item in Split(line, ',')
  {
    if lines != [] {
      var rest := lines[1..];
      ItemsOfLines(rest, item);
      assert lines == [lines[0]] + rest;
      if IsReadable(lines[0]) {
        assert ReadableValues(lines) == [lines[0]] + ReadableValues(rest);
        assert AcceptItems(lines) == Split(lines[0], ',') + AcceptItems(rest);
      } else {
        assert ReadableValues(lines) == ReadableValues(rest);
      }
    }
  }

  /** Header lines in any order, with any repeats, choose the same representation. */
  lemma LineOrderDoesNotMatter(h: Headers, g: Headers, parse: FloatParser)
    requires forall line :: line in GetAll(h, "accept") <==> line in GetAll(g, "accept")
    ensures Negotiated(CombinedAccept(h), true, parse) == Negotiated(CombinedAccept(g), true, parse)
  {
    forall item
      ensures item in AcceptItems(GetAll(h, "accept")) <==> item in AcceptItems(GetAll(g, "accept"))
    {
      ItemsOfLines(GetAll(h, "accept"), item);
      ItemsOfLines(GetAll(g, "accept"), item);
    }
    SameItemsSameChoice(h, g, parse);
  }
}
