/** What negotiating over printed lists selects, on one line or several, with separators inside the items or not. */
module AcceptLists {
  import opened Wrappers
  import opened Text
  import opened Headers
  import opened Negotiation
  import opened AcceptGrammar

  /** No item's text holds a comma, so the list is cut where its items end. */
  predicate CommaFree(items: seq<Item>) {
    forall item :: item in items ==> ',' !in item.Text()
  }

  /** Any printed list is readable, and is cut into its items exactly when none holds a comma. */
  lemma ListReadsBack(items: seq<Item>)
    requires items != [] && AllValid(items)
    ensures IsReadable(ListText(items))
    ensures Split(ListText(items), ',') == ItemTexts(items) <==> CommaFree(items)
  {
    forall text | text in ItemTexts(items) ensures IsReadable(text) {
      var i :| 0 <= i < |items| && text == items[i].Text();
      ItemIsReadable(items[i]);
    }
    AllOfJoin(ItemTexts(items), ',', IsReadableChar);
    if CommaFree(items) {
      SplitJoinPieces(ItemTexts(items), ',');
    } else {
      JoinSplit(ListText(items), ',');
      var item :| item in items && ',' in item.Text();
      var i :| 0 <= i < |items| && items[i] == item;
      assert ItemTexts(items)[i] == item.Text();
    }
  }

  /** Some item of the type counts. */
  predicate Counted(items: seq<Item>, mediaType: string, parse: FloatParser) {
    exists item :: item in items && Lower(item.mediaType) == mediaType && item.Counts(parse)
  }

  /** Some item of the type counts although it is not wanted. */
  predicate RefusedCounted(items: seq<Item>, mediaType: string, parse: FloatParser) {
    exists item :: item in items && Lower(item.mediaType) == mediaType && item.Counts(parse) && !item.Wanted()
  }

  /** What follows a comma inside some item offers the type. */
  predicate Smuggled(items: seq<Item>, mediaType: string, parse: FloatParser) {
    exists item :: item in items && Offers(LaterFragments(item), mediaType, parse)
  }

  /** The choice as the list is read. */
  function ReadChoice(items: seq<Item>, parse: FloatParser): Representation {
    if Counted(items, AJAR_JSON, parse) || Smuggled(items, AJAR_JSON, parse) then AjarJson
    else if Counted(items, MARKDOWN, parse) || Smuggled(items, MARKDOWN, parse) then Markdown
    else Passthrough
  }

  /** An item's text offers a type by itself, as it is read, or by what follows a comma in it. */
  lemma ItemOffers(item: Item, mediaType: string, parse: FloatParser)
    requires item.Valid()
    ensures Offers(Split(item.Text(), ','), mediaType, parse) <==>
              (Lower(item.mediaType) == mediaType && item.Counts(parse)) || Offers(LaterFragments(item), mediaType, parse)
  {
    OwnFragmentReadsBack(item);
    assert Split(item.Text(), ',') == [OwnFragment(item)] + LaterFragments(item);
    OffersConcat([OwnFragment(item)], LaterFragments(item), mediaType, parse);
    OffersOne(OwnFragment(item), mediaType, parse);
  }

  lemma {:induction false} FragmentsOffer(items: seq<Item>, mediaType: string, parse: FloatParser)
    requires AllValid(items)
    ensures Offers(Flatten(SplitAll(ItemTexts(items), ',')), mediaType, parse) <==>
              Counted(items, mediaType, parse) || Smuggled(items, mediaType, parse)
  {
    if items != [] {
      var rest := items[1..];
      assert forall item :: item in items <==> item == items[0] || item in rest;
      FragmentsOffer(rest, mediaType, parse);
      ItemOffers(items[0], mediaType, parse);
      assert ItemTexts(items) == [items[0].Text()] + ItemTexts(rest);
      OffersConcat(Split(items[0].Text(), ','), Flatten(SplitAll(ItemTexts(rest), ',')), mediaType, parse);
    }
  }

  lemma FragmentsChoose(items: seq<Item>, parse: FloatParser)
    requires AllValid(items)
    ensures Preferred(Flatten(SplitAll(ItemTexts(items), ',')), parse) == ReadChoice(items, parse)
  {
    FragmentsOffer(items, AJAR_JSON, parse);
    FragmentsOffer(items, MARKDOWN, parse);
  }

  /**
   What has to hold of the items for the choice to be right: the wanted type is not lost, no
   refused item that would come before it counts, and nothing before it is smuggled in.
   */
  predicate RightlyRead(items: seq<Item>, parse: FloatParser) {
    match Chosen(items)
    case AjarJson => Counted(items, AJAR_JSON, parse) || Smuggled(items, AJAR_JSON, parse)
    case Markdown =>
      && !RefusedCounted(items, AJAR_JSON, parse) && !Smuggled(items, AJAR_JSON, parse)
      && (Counted(items, MARKDOWN, parse) || Smuggled(items, MARKDOWN, parse))
    case Passthrough =>
      && !RefusedCounted(items, AJAR_JSON, parse) && !Smuggled(items, AJAR_JSON, parse)
      && !RefusedCounted(items, MARKDOWN, parse) && !Smuggled(items, MARKDOWN, parse)
  }

  lemma RightlyReadExactly(items: seq<Item>, parse: FloatParser)
    ensures ReadChoice(items, parse) == Chosen(items) <==> RightlyRead(items, parse)
  {
    if !Wants(items, AJAR_JSON) {
      RefusedOnly(items, AJAR_JSON, parse);
      if !Wants(items, MARKDOWN) {
        RefusedOnly(items, MARKDOWN, parse);
      }
    }
  }

  /** When no item of a type is wanted, only refused ones can count. */
  lemma RefusedOnly(items: seq<Item>, mediaType: string, parse: FloatParser)
    requires !Wants(items, mediaType)
    ensures Counted(items, mediaType, parse) <==> RefusedCounted(items, mediaType, parse)
  {}

  /**
   Negotiating over any printed list, commas and semicolons in its parameters or not: an item
   offers its type by the weights it is read with, and what follows a comma in it is read as
   items of its own. The choice is what the list asks for exactly when it is rightly read.
   */
  lemma AnyListSelectsExactly(items: seq<Item>, parse: FloatParser)
    requires items != [] && AllValid(items)
    ensures Negotiated(Some(ListText(items)), true, parse) == ReadChoice(items, parse)
    ensures Negotiated(Some(ListText(items)), true, parse) == Chosen(items) <==> RightlyRead(items, parse)
  {
    SplitJoin(ItemTexts(items), ',');
    FragmentsChoose(items, parse);
    RightlyReadExactly(items, parse);
  }

  /** What follows a comma inside an item never names one of the two types. */
  predicate NamesNoType(items: seq<Item>) {
    forall item, fragment :: item in items && fragment in LaterFragments(item) ==>
      MediaType(fragment) != AJAR_JSON && MediaType(fragment) != MARKDOWN
  }

  lemma NothingSmuggled(items: seq<Item>, parse: FloatParser)
    requires NamesNoType(items)
    ensures !Smuggled(items, AJAR_JSON, parse) && !Smuggled(items, MARKDOWN, parse)
  {}

  /** The chosen type is not lost, and no refused item that would come before it counts. */
  predicate NeitherLostNorRevived(items: seq<Item>, parse: FloatParser) {
    match Chosen(items)
    case AjarJson => Counted(items, AJAR_JSON, parse)
    case Markdown => Counted(items, MARKDOWN, parse) && !RefusedCounted(items, AJAR_JSON, parse)
    case Passthrough => !RefusedCounted(items, AJAR_JSON, parse) && !RefusedCounted(items, MARKDOWN, parse)
  }

  /** When what follows inner commas names neither type, only lost and revived items can spoil the choice. */
  lemma NamelessListSelectsExactly(items: seq<Item>, parse: FloatParser)
    requires items != [] && AllValid(items) && NamesNoType(items)
    ensures Negotiated(Some(ListText(items)), true, parse) == Chosen(items) <==> NeitherLostNorRevived(items, parse)
  {
    AnyListSelectsExactly(items, parse);
    NothingSmuggled(items, parse);
  }

  /** In particular a list whose items all read as they are meant gets what it asks for. */
  lemma MeantListSelects(items: seq<Item>, parse: FloatParser)
    requires items != [] && AllValid(items) && NamesNoType(items) && ReadsQvalues(parse)
    requires forall item :: item in items ==> item.ReadsAsMeant(parse)
    ensures Negotiated(Some(ListText(items)), true, parse) == Chosen(items)
  {
    NamelessListSelectsExactly(items, parse);
    forall item | item in items ensures item.Counts(parse) <==> item.Wanted() {
      AcceptableIffWanted(item, parse);
    }
  }

  /**
   Only a comma revives a refused item: it counts exactly when it is cut short and the strays
   before the first comma, if any, read as numbers with the last above zero.
   */
  lemma RevivedExactly(item: Item, parse: FloatParser)
    requires item.Valid() && ReadsQvalues(parse) && !item.Wanted()
    ensures item.Counts(parse) <==>
              && item.IsCut() && AllRead(CutStraysOf(item.parameters), parse)
              && !AtMostZero(LastWeight(CutStraysOf(item.parameters), parse))
  {
    if !item.IsCut() {
      UncutCounts(item, parse);
    }
  }

  // --------------------------------------------------------------- without commas

  /** Some item of the type is wanted, and its stray weights do no harm. */
  predicate Keeps(items: seq<Item>, mediaType: string, parse: FloatParser) {
    exists item :: item in items && Lower(item.mediaType) == mediaType && item.Wanted() && item.Harmless(parse)
  }

  function KeptChoice(items: seq<Item>, parse: FloatParser): Representation {
    if Keeps(items, AJAR_JSON, parse) then AjarJson
    else if Keeps(items, MARKDOWN, parse) then Markdown
    else Passthrough
  }

  lemma CommaFreeCounts(items: seq<Item>, mediaType: string, parse: FloatParser)
    requires AllValid(items) && ReadsQvalues(parse) && CommaFree(items)
    ensures Counted(items, mediaType, parse) <==> Keeps(items, mediaType, parse)
    ensures NamesNoType(items)
  {
    forall item | item in items
      ensures item.Counts(parse) <==> item.Wanted() && item.Harmless(parse)
      ensures LaterFragments(item) == []
    {
      CutHasComma(item);
      UncutCounts(item, parse);
      SplitWithout(item.Text(), ',');
    }
  }

  lemma CommaFreeChoice(items: seq<Item>, parse: FloatParser)
    requires AllValid(items) && ReadsQvalues(parse) && CommaFree(items)
    ensures ReadChoice(items, parse) == KeptChoice(items, parse)
  {
    CommaFreeCounts(items, AJAR_JSON, parse);
    CommaFreeCounts(items, MARKDOWN, parse);
    NothingSmuggled(items, parse);
  }

  /** The representation is the origin's page, or is still offered by an item that keeps its meaning. */
  predicate StillOffered(items: seq<Item>, chosen: Representation, parse: FloatParser) {
    match chosen
    case AjarJson => Keeps(items, AJAR_JSON, parse)
    case Markdown => Keeps(items, MARKDOWN, parse)
    case Passthrough => true
  }

  /** Stray weights can only lose offers, so the choice is right exactly when the right one is not lost. */
  lemma KeptExactly(items: seq<Item>, parse: FloatParser)
    ensures KeptChoice(items, parse) == Chosen(items) <==> StillOffered(items, Chosen(items), parse)
  {}

  /**
   Negotiating over a printed list without commas inside its items, however it was spelled,
   selects by the items that are wanted and keep their meaning; and that is what the list asks
   for exactly when some such item still offers it, or it is the origin's page.
   */
  lemma PrintedListSelects(items: seq<Item>, parse: FloatParser)
    requires items != [] && AllValid(items) && ReadsQvalues(parse) && CommaFree(items)
    ensures Negotiated(Some(ListText(items)), true, parse) == KeptChoice(items, parse)
    ensures Negotiated(Some(ListText(items)), true, parse) == Chosen(items)
            <==> StillOffered(items, Chosen(items), parse)
  {
    AnyListSelectsExactly(items, parse);
    CommaFreeChoice(items, parse);
    KeptExactly(items, parse);
  }

  /** In particular a list with no semicolon inside its parameters always gets what it asks for. */
  lemma PlainListSelects(items: seq<Item>, parse: FloatParser)
    requires items != [] && AllValid(items) && ReadsQvalues(parse) && CommaFree(items)
    requires forall item, p :: item in items && p in item.parameters ==> ';' !in p.Text()
    ensures Negotiated(Some(ListText(items)), true, parse) == Chosen(items)
  {
    PrintedListSelects(items, parse);
    forall item | item in items ensures item.Harmless(parse) {
      PlainIsHarmless(item, parse);
    }
  }

  /** For a list of one offer the condition is that the item is harmless. */
  lemma OneOfferSelectsExactly(item: Item, parse: FloatParser)
    requires item.Valid() && ReadsQvalues(parse) && CommaFree([item])
    requires Lower(item.mediaType) == AJAR_JSON || Lower(item.mediaType) == MARKDOWN
    ensures Negotiated(Some(ListText([item])), true, parse) == Chosen([item]) <==> item.Harmless(parse)
  {
    PrintedListSelects([item], parse);
    assert item in [item];
  }

  // ------------------------------------------------------------------ several lines

  function ListTexts(lists: seq<seq<Item>>): (texts: seq<string>)
    ensures |texts| == |lists|
    ensures forall i :: 0 <= i < |texts| ==> texts[i] == ListText(lists[i])
  {
    if lists == [] then [] else [ListText(lists[0])] + ListTexts(lists[1..])
  }

  /** The items read from printed lines are the fragments of all their items. */
  lemma {:induction false} PrintedItems(lists: seq<seq<Item>>)
    requires forall list :: list in lists ==> list != [] && AllValid(list)
    ensures AcceptItems(ListTexts(lists)) == Flatten(SplitAll(ItemTexts(Flatten(lists)), ','))
  {
    if lists != [] {
      assert lists[0] in lists && forall list :: list in lists[1..] ==> list in lists;
      PrintedItems(lists[1..]);
      ListReadsBack(lists[0]);
      SplitJoin(ItemTexts(lists[0]), ',');
      ItemTextsConcat(lists[0], Flatten(lists[1..]));
      SplitAllConcat(ItemTexts(lists[0]), ItemTexts(Flatten(lists[1..])), ',');
      assert ReadableValues(ListTexts(lists)) == [ListText(lists[0])] + ReadableValues(ListTexts(lists[1..]));
    }
  }

  lemma {:induction false} SplitAllConcat(a: seq<string>, b: seq<string>, sep: char)
    ensures Flatten(SplitAll(a + b, sep)) == Flatten(SplitAll(a, sep)) + Flatten(SplitAll(b, sep))
  {
    if a == [] {
      assert a + b == b;
    } else {
      assert (a + b)[1..] == a[1..] + b;
      SplitAllConcat(a[1..], b, sep);
    }
  }

  lemma {:induction false} ItemTextsConcat(a: seq<Item>, b: seq<Item>)
    ensures ItemTexts(a + b) == ItemTexts(a) + ItemTexts(b)
  {
    if a == [] {
      assert a + b == b;
    } else {
      assert (a + b)[1..] == a[1..] + b;
      ItemTextsConcat(a[1..], b);
    }
  }

  /** The same over several header lines: the lines together are read as the fragments of all their items. */
  lemma AnyLinesSelectExactly(h: Headers, lists: seq<seq<Item>>, parse: FloatParser)
    requires forall list :: list in lists ==> list != [] && AllValid(list)
    requires GetAll(h, "accept") == ListTexts(lists)
    ensures Negotiated(CombinedAccept(h), true, parse) == ReadChoice(Flatten(lists), parse)
    ensures Negotiated(CombinedAccept(h), true, parse) == Chosen(Flatten(lists)) <==> RightlyRead(Flatten(lists), parse)
  {
    LinesDoNotMatter(h, parse);
    PrintedItems(lists);
    FlattenAllValid(lists);
    FragmentsChoose(Flatten(lists), parse);
    RightlyReadExactly(Flatten(lists), parse);
  }

  lemma {:induction false} FlattenAllValid(lists: seq<seq<Item>>)
    requires forall list :: list in lists ==> AllValid(list)
    ensures AllValid(Flatten(lists))
  {
    if lists != [] {
      assert lists[0] in lists && forall list :: list in lists[1..] ==> list in lists;
      FlattenAllValid(lists[1..]);
    }
  }

  lemma {:induction false} FlattenValid(lists: seq<seq<Item>>)
    requires forall list :: list in lists ==> AllValid(list) && CommaFree(list)
    ensures AllValid(Flatten(lists)) && CommaFree(Flatten(lists))
  {
    if lists != [] {
      assert lists[0] in lists && forall list :: list in lists[1..] ==> list in lists;
      FlattenValid(lists[1..]);
    }
  }

  /** And, without commas inside the items, select what they ask for exactly under the same condition. */
  lemma PrintedLinesSelect(h: Headers, lists: seq<seq<Item>>, parse: FloatParser)
    requires ReadsQvalues(parse)
    requires forall list :: list in lists ==> list != [] && AllValid(list) && CommaFree(list)
    requires GetAll(h, "accept") == ListTexts(lists)
    ensures Negotiated(CombinedAccept(h), true, parse) == KeptChoice(Flatten(lists), parse)
    ensures Negotiated(CombinedAccept(h), true, parse) == Chosen(Flatten(lists))
            <==> StillOffered(Flatten(lists), Chosen(Flatten(lists)), parse)
  {
    AnyLinesSelectExactly(h, lists, parse);
    FlattenValid(lists);
    CommaFreeChoice(Flatten(lists), parse);
    KeptExactly(Flatten(lists), parse);
  }
}
