/**
 Accept lists written by the grammar of sections 12.4.2 and 12.5.1 of RFC 9110, printed in
 any of the spellings it allows, and what negotiating over the printed text then selects.
 */
module AcceptGrammar {
  import opened Wrappers
  import opened Text
  import opened Headers
  import opened Negotiation

  /** A piece of a list element: visible, and free of the two separators. */
  predicate IsPieceChar(c: char) {
    IsReadableChar(c) && c != ',' && c != ';'
  }

  predicate IsPiece(text: string) {
    AllOf(text, IsPieceChar)
  }

  predicate IsDecimal(c: char) {
    '0' <= c <= '9'
  }

  predicate IsMediaTypeChar(c: char) {
    IsTokenChar(c) || c == '/'
  }

  /** `0` or `1`, optionally a point and up to three digits; all zeros after a one. */
  datatype Qvalue = Qvalue(one: bool, point: bool, digits: string) {

    predicate Valid() {
      && |digits| <= 3
      && AllOf(digits, IsDecimal)
      && (one ==> AllOf(digits, c => c == '0'))
      && (!point ==> digits == "")
    }

    function Text(): string {
      (if one then "1" else "0") + (if point then "." + digits else "")
    }

    predicate NonZero() {
      one || exists c :: c in digits && c != '0'
    }
  }

  /** A media type parameter that is not a weight. Its value, quoted or not, may hold any visible text. */
  datatype Parameter = Parameter(before: string, name: string, value: string, after: string) {

    predicate Valid() {
      && AllOf(before, IsBlank) && AllOf(after, IsBlank)
      && name != "" && AllOf(name, IsTokenChar) && Lower(name) != "q"
      && AllOf(value, IsReadableChar)
    }

    function Text(): string {
      before + (name + "=" + value) + after
    }

    /** What a reader that splits at every semicolon takes for weights inside this parameter. */
    function Strays(): seq<string> {
      Weights(Split(Text(), ';')[1..])
    }

    /** The same, of what is left when the list is cut at the parameter's first comma. */
    function CutStrays(): seq<string> {
      Weights(Split(Split(Text(), ',')[0], ';')[1..])
    }
  }

  /**
   A way to write a weight: either letter case of its name, blanks around the name, the
   value and the whole, and any number of quotes on either side of the value.
   */
  datatype Spelling = Spelling(before: string, letter: char, gap: string, lead: string,
                               opening: string, closing: string, after: string) {

    predicate Valid() {
      && AllOf(before, IsBlank) && AllOf(gap, IsBlank) && AllOf(lead, IsBlank) && AllOf(after, IsBlank)
      && (letter == 'q' || letter == 'Q') && AllOf(opening, IsQuote) && AllOf(closing, IsQuote)
    }

    function Around(inner: string): string {
      before + (([letter] + gap) + "=" + (lead + (opening + inner + closing))) + after
    }
  }

  datatype SpelledWeight = SpelledWeight(spelling: Spelling, qvalue: Qvalue) {

    predicate Valid() {
      spelling.Valid() && qvalue.Valid()
    }

    function Text(): string {
      spelling.Around(qvalue.Text())
    }
  }

  datatype Item = Item(before: string, mediaType: string, after: string,
                       parameters: seq<Parameter>, weight: Option<SpelledWeight>) {

    predicate Valid() {
      && AllOf(before, IsBlank) && AllOf(after, IsBlank)
      && mediaType != "" && AllOf(mediaType, IsMediaTypeChar)
      && (forall p :: p in parameters ==> p.Valid())
      && (weight.Some? ==> weight.value.Valid())
    }

    function Pieces(): (pieces: seq<string>)
      ensures pieces != []
    {
      [before + mediaType + after] + ParameterTexts(parameters)
        + WeightTexts(this)
    }

    function Text(): string {
      Join(Pieces(), ';')
    }

    /** The element's own meaning: it is wanted when it has no weight or a weight above zero. */
    predicate Wanted() {
      weight.None? || weight.value.qvalue.NonZero()
    }

    function Strays(): seq<string> {
      StraysOf(parameters)
    }

    /** A parameter holds a comma, so a reader that splits at every comma cuts the element short. */
    predicate IsCut() {
      exists p :: p in parameters && ',' in p.Text()
    }

    /**
     The weights such a reader finds: the strays and the element's own, or, when it is cut
     short, only the strays before the first comma.
     */
    function WeightsAsRead(): seq<string> {
      if IsCut() then CutStraysOf(parameters) else Strays() + OwnWeight(this)
    }

    /** It counts as an offer: all those weights read as numbers, and the last is above zero. */
    predicate Counts(parse: FloatParser) {
      AllRead(WeightsAsRead(), parse) && !AtMostZero(LastWeight(WeightsAsRead(), parse))
    }

    /**
     The reader takes the element as it is meant: cut short, when what is left counts just if
     the whole is wanted; uncut, when its stray weights are harmless.
     */
    predicate ReadsAsMeant(parse: FloatParser) {
      if IsCut() then
        Wanted() <==> AllRead(CutStraysOf(parameters), parse) && !AtMostZero(LastWeight(CutStraysOf(parameters), parse))
      else Harmless(parse)
    }

    /**
     The stray weights leave the element's meaning as it is: it is unwanted anyway, or they
     all read as numbers and the last of them, unless the element's own weight follows, is above zero.
     */
    predicate Harmless(parse: FloatParser) {
      || !Wanted()
      || (AllRead(Strays(), parse) && (weight.Some? || !AtMostZero(LastWeight(Strays(), parse))))
    }
  }

  function StraysOf(parameters: seq<Parameter>): seq<string> {
    if parameters == [] then [] else parameters[0].Strays() + StraysOf(parameters[1..])
  }

  function CutStraysOf(parameters: seq<Parameter>): seq<string> {
    if parameters == [] then []
    else if ',' in parameters[0].Text() then parameters[0].CutStrays()
    else parameters[0].Strays() + CutStraysOf(parameters[1..])
  }

  function ParameterTexts(parameters: seq<Parameter>): (texts: seq<string>)
    ensures |texts| == |parameters|
    ensures forall i :: 0 <= i < |parameters| ==> texts[i] == parameters[i].Text()
  {
    if parameters == [] then [] else [parameters[0].Text()] + ParameterTexts(parameters[1..])
  }

  function ItemTexts(items: seq<Item>): (texts: seq<string>)
    ensures |texts| == |items|
    ensures forall i :: 0 <= i < |items| ==> texts[i] == items[i].Text()
  {
    if items == [] then [] else [items[0].Text()] + ItemTexts(items[1..])
  }

  function ListText(items: seq<Item>): string {
    Join(ItemTexts(items), ',')
  }

  predicate AllValid(items: seq<Item>) {
    forall item :: item in items ==> item.Valid()
  }

  predicate Wants(items: seq<Item>, mediaType: string) {
    exists item :: item in items && Lower(item.mediaType) == mediaType && item.Wanted()
  }

  /** What the list asks for, read off its abstract items. */
  function Chosen(items: seq<Item>): Representation {
    if Wants(items, AJAR_JSON) then AjarJson
    else if Wants(items, MARKDOWN) then Markdown
    else Passthrough
  }

  /** The float reader gives each weight a finite value, above zero exactly when a digit is. */
  ghost predicate ReadsQvalues(parse: FloatParser) {
    forall q: Qvalue :: q.Valid() ==>
      parse(q.Text()).Finite? && (parse(q.Text()).value > 0.0 <==> q.NonZero())
  }

  // -------------------------------------------------------------- one item's text

  lemma PaddedPiece(before: string, core: string, after: string)
    requires AllOf(before, IsBlank) && AllOf(after, IsBlank)
    requires IsPiece(core) && Tight(core, IsWhitespace)
    ensures IsPiece(before + core + after) && Trim(before + core + after) == core
  {
    AllOfWeaken(before, IsBlank, IsPieceChar);
    AllOfWeaken(after, IsBlank, IsPieceChar);
    AllOfConcat(before, core, IsPieceChar);
    AllOfConcat(before + core, after, IsPieceChar);
    AllOfWeaken(before, IsBlank, IsWhitespace);
    AllOfWeaken(after, IsBlank, IsWhitespace);
    TrimPadded(before, core, after, IsWhitespace);
  }

  /** Characters that a trim for quotes, or for blanks, leaves at the ends. */
  predicate Printable(opening: string, inner: string, closing: string) {
    && IsPiece(inner) && Tight(inner, IsQuote)
    && opening + inner + closing != "" && Tight(opening + inner + closing, IsWhitespace)
  }

  /** However a weight is written, what is read is the text inside the quotes, blanks around them or not. */
  lemma WeightReadsInner(w: Spelling, inner: string)
    requires w.Valid() && Printable(w.opening, inner, w.closing)
    ensures IsPiece(w.Around(inner)) && Weight(w.Around(inner)) == Some(inner)
  {
    var name, value := [w.letter] + w.gap, w.opening + inner + w.closing;
    var core := name + "=" + (w.lead + value);
    SpellingIsPiece(w, inner);
    assert core[0] == w.letter && core[|core| - 1] == value[|value| - 1];
    PaddedPiece(w.before, core, w.after);
    SplitOnceAt(name, '=', w.lead + value);
    NameTrims(w);
    AllOfWeaken(w.lead, IsBlank, IsWhitespace);
    TrimPadded(w.lead, value, "", IsWhitespace);
    assert w.lead + value + "" == w.lead + value;
    TrimPadded(w.opening, inner, w.closing, IsQuote);
  }

  lemma NameTrims(w: Spelling)
    requires w.Valid()
    ensures '=' !in [w.letter] + w.gap && Lower(Trim([w.letter] + w.gap)) == "q"
  {
    AllOfWeaken(w.gap, IsBlank, IsWhitespace);
    TrimPadded("", [w.letter], w.gap, IsWhitespace);
    assert "" + [w.letter] + w.gap == [w.letter] + w.gap;
    assert Lower([w.letter]) == "q";
  }

  lemma SpellingIsPiece(w: Spelling, inner: string)
    requires w.Valid() && IsPiece(inner)
    ensures IsPiece(([w.letter] + w.gap) + "=" + (w.lead + (w.opening + inner + w.closing)))
  {
    AllOfWeaken(w.gap, IsBlank, IsPieceChar);
    AllOfWeaken(w.lead, IsBlank, IsPieceChar);
    AllOfWeaken(w.opening, IsQuote, IsPieceChar);
    AllOfWeaken(w.closing, IsQuote, IsPieceChar);
    AllOfConcat([w.letter], w.gap, IsPieceChar);
    AllOfConcat([w.letter] + w.gap, "=", IsPieceChar);
    AllOfConcat(w.opening, inner, IsPieceChar);
    AllOfConcat(w.opening + inner, w.closing, IsPieceChar);
    AllOfConcat(w.lead, w.opening + inner + w.closing, IsPieceChar);
    AllOfConcat(([w.letter] + w.gap) + "=", w.lead + (w.opening + inner + w.closing), IsPieceChar);
  }

  /** A piece that starts with another name is not a weight, whatever follows. */
  lemma NotAWeight(before: string, name: string, rest: string)
    requires AllOf(before, IsBlank) && name != "" && AllOf(name, IsTokenChar) && Lower(name) != "q"
    ensures Weight(before + (name + "=") + rest) == None
  {
    var head := name + "=";
    TokenTight(name);
    AllOfWeaken(before, IsBlank, IsWhitespace);
    assert before + head + rest == before + (head + rest);
    TrimStartOff(before, head + rest, IsWhitespace);
    TrimEndKeeps(head, rest, IsWhitespace);
    var kept := TrimEnd(rest, IsWhitespace);
    assert Trim(before + head + rest) == name + ['='] + kept;
    SplitOnceAt(name, '=', kept);
    TrimTight(name, IsWhitespace);
  }

  lemma TokenTight(name: string)
    requires name != "" && AllOf(name, IsMediaTypeChar)
    ensures Tight(name, IsWhitespace) && '=' !in name
  {
    assert name[0] in name && name[|name| - 1] in name;
  }

  lemma QvalueTight(q: Qvalue)
    requires q.Valid()
    ensures q.Text() != "" && IsPiece(q.Text())
    ensures Tight(q.Text(), IsWhitespace) && Tight(q.Text(), IsQuote)
  {
    var head := if q.one then "1" else "0";
    AllOfWeaken(q.digits, IsDecimal, IsPieceChar);
    AllOfConcat(".", q.digits, IsPieceChar);
    AllOfConcat(head, if q.point then "." + q.digits else "", IsPieceChar);
    var last := q.Text()[|q.Text()| - 1];
    if q.point && q.digits != "" {
      assert last == q.digits[|q.digits| - 1] && last in q.digits;
    }
    assert q.Text()[0] == head[0] && last != '"';
  }

  lemma WeightText(w: SpelledWeight)
    requires w.Valid()
    ensures IsPiece(w.Text()) && WeightsIn(w.Text()) == [w.qvalue.Text()]
  {
    QvalueTight(w.qvalue);
    QuotedTight(w.spelling.opening, w.qvalue.Text(), w.spelling.closing);
    WeightReadsInner(w.spelling, w.qvalue.Text());
    AllOfWeaken(w.spelling.before, IsBlank, IsPieceChar);
  }

  lemma QuotedTight(opening: string, inner: string, closing: string)
    requires AllOf(opening, IsQuote) && AllOf(closing, IsQuote)
    requires inner != "" && Tight(inner, IsWhitespace)
    ensures Tight(opening + inner + closing, IsWhitespace)
  {
    var text := opening + inner + closing;
    assert text[0] == if opening != "" then opening[0] else inner[0];
    assert text[|text| - 1] == if closing != "" then closing[|closing| - 1] else inner[|inner| - 1];
    assert opening != "" ==> opening[0] in opening;
    assert closing != "" ==> closing[|closing| - 1] in closing;
  }

  lemma ParameterHead(p: Parameter)
    requires p.Valid()
    ensures IsPiece(p.before + (p.name + "="))
  {
    AllOfWeaken(p.before, IsBlank, IsPieceChar);
    AllOfWeaken(p.name, IsTokenChar, IsPieceChar);
    AllOfConcat(p.name, "=", IsPieceChar);
    AllOfConcat(p.before, p.name + "=", IsPieceChar);
  }

  /** A parameter reads back with only its stray weights. */
  lemma ParameterText(p: Parameter)
    requires p.Valid()
    ensures AllOf(p.Text(), IsReadableChar) && Weights(Split(p.Text(), ';')) == p.Strays()
  {
    var head, tail := p.before + (p.name + "="), p.value + p.after;
    ParameterHead(p);
    AllOfWeaken(head, IsPieceChar, IsReadableChar);
    AllOfWeaken(p.after, IsBlank, IsReadableChar);
    AllOfConcat(p.value, p.after, IsReadableChar);
    AllOfConcat(head, tail, IsReadableChar);
    assert p.Text() == head + tail;
    SplitAfter(head, tail, ';');
    NotAWeight(p.before, p.name, Split(tail, ';')[0]);
  }

  /** Without a semicolon in its text a parameter has no stray weight. */
  lemma NoStrays(p: Parameter)
    requires ';' !in p.Text()
    ensures p.Strays() == []
  {
    SplitWithout(p.Text(), ';');
  }

  lemma HeadText(item: Item)
    requires item.Valid()
    ensures IsPiece(item.before + item.mediaType + item.after)
    ensures Trim(item.before + item.mediaType + item.after) == item.mediaType
  {
    TokenTight(item.mediaType);
    AllOfWeaken(item.mediaType, IsMediaTypeChar, IsPieceChar);
    PaddedPiece(item.before, item.mediaType, item.after);
  }

  function WeightTexts(item: Item): seq<string> {
    if item.weight.Some? then [item.weight.value.Text()] else []
  }

  lemma WeightReadsBack(item: Item)
    requires item.Valid()
    ensures forall t :: t in WeightTexts(item) ==> IsPiece(t)
    ensures Weights(WeightTexts(item)) ==
            if item.weight.Some? then [item.weight.value.qvalue.Text()] else []
  {
    if item.weight.Some? {
      WeightText(item.weight.value);
      assert WeightTexts(item)[1..] == [];
    }
  }

  lemma {:induction false} SplitParameters(parameters: seq<Parameter>, others: seq<string>)
    requires forall p :: p in parameters ==> p.Valid()
    ensures Weights(Flatten(SplitAll(ParameterTexts(parameters) + others, ';')))
            == StraysOf(parameters) + Weights(Flatten(SplitAll(others, ';')))
  {
    if parameters == [] {
      assert ParameterTexts(parameters) + others == others;
    } else {
      var first, rest := parameters[0].Text(), ParameterTexts(parameters[1..]) + others;
      assert ParameterTexts(parameters) + others == [first] + rest;
      assert ([first] + rest)[1..] == rest;
      ParameterText(parameters[0]);
      SplitParameters(parameters[1..], others);
      WeightsConcat(Split(first, ';'), Flatten(SplitAll(rest, ';')));
    }
  }

  function OwnWeight(item: Item): seq<string> {
    if item.weight.Some? then [item.weight.value.qvalue.Text()] else []
  }

  lemma SplitWeight(item: Item)
    requires item.Valid()
    ensures Weights(Flatten(SplitAll(WeightTexts(item), ';'))) == OwnWeight(item)
  {
    WeightReadsBack(item);
    var texts := WeightTexts(item);
    if item.weight.Some? {
      assert IsPiece(texts[0]);
      SplitWithout(texts[0], ';');
      assert texts[1..] == [];
      assert Flatten(SplitAll(texts, ';')) == texts;
    }
  }

  lemma SplitPieces(item: Item)
    requires item.Valid()
    ensures MediaType(item.Text()) == Lower(item.mediaType)
    ensures Parameters(item.Text()) == Flatten(SplitAll(item.Pieces()[1..], ';'))
  {
    var head := item.before + item.mediaType + item.after;
    HeadText(item);
    assert IsPiece(head);
    SplitWithout(head, ';');
    SplitJoin(item.Pieces(), ';');
    assert item.Pieces()[0] == head;
  }

  /** An item's text reads back as the item: its media type, its stray weights, then its own weight. */
  lemma ItemReadsBack(item: Item)
    requires item.Valid()
    ensures MediaType(item.Text()) == Lower(item.mediaType)
    ensures Weights(Parameters(item.Text())) == item.Strays() + OwnWeight(item)
  {
    SplitPieces(item);
    assert item.Pieces()[1..] == ParameterTexts(item.parameters) + WeightTexts(item);
    SplitParameters(item.parameters, WeightTexts(item));
    SplitWeight(item);
  }

  lemma ItemIsReadable(item: Item)
    requires item.Valid()
    ensures AllOf(item.Text(), IsReadableChar)
  {
    HeadText(item);
    WeightReadsBack(item);
    forall piece | piece in item.Pieces() ensures AllOf(piece, IsReadableChar) {
      if piece in ParameterTexts(item.parameters) {
        var i :| 0 <= i < |item.parameters| && piece == item.parameters[i].Text();
        ParameterText(item.parameters[i]);
      } else {
        assert IsPiece(piece);
        AllOfWeaken(piece, IsPieceChar, IsReadableChar);
      }
    }
    AllOfJoin(item.Pieces(), ';', IsReadableChar);
  }

  // ----------------------------------------------------------- an item cut at commas

  /** A parameter cut at its first comma reads back with only the strays before it. */
  lemma CutParameter(p: Parameter)
    requires p.Valid()
    ensures Weights(Split(Split(p.Text(), ',')[0], ';')) == p.CutStrays()
  {
    var head, tail := p.before + (p.name + "="), p.value + p.after;
    ParameterHead(p);
    PieceHasNoSeparator(head);
    assert p.Text() == head + tail;
    SplitAfter(head, tail, ',');
    var left := Split(tail, ',')[0];
    assert Split(p.Text(), ',')[0] == head + left;
    SplitAfter(head, left, ';');
    NotAWeight(p.before, p.name, Split(left, ';')[0]);
  }

  lemma PieceHasNoSeparator(text: string)
    requires IsPiece(text)
    ensures ',' !in text && ';' !in text
  {}

  lemma CutInFirst(first: string, rest: seq<string>)
    requires ',' in first
    ensures Split(Join([first] + rest, ';'), ',')[0] == Split(first, ',')[0]
  {
    assert ([first] + rest)[1..] == rest;
    if rest != [] {
      FirstPiece(first, [';'] + Join(rest, ';'), ',');
      assert Join([first] + rest, ';') == first + ([';'] + Join(rest, ';'));
    }
  }

  lemma CutAfterFirst(first: string, rest: seq<string>)
    requires ',' !in first && rest != []
    ensures Weights(Split(Split(Join([first] + rest, ';'), ',')[0], ';'))
            == Weights(Split(first, ';')) + Weights(Split(Split(Join(rest, ';'), ',')[0], ';'))
  {
    assert ([first] + rest)[1..] == rest;
    var left := Split(Join(rest, ';'), ',')[0];
    FirstPiece(first + [';'], Join(rest, ';'), ',');
    assert Join([first] + rest, ';') == first + [';'] + Join(rest, ';');
    SplitConcat(first, ';', left);
    WeightsConcat(Split(first, ';'), Split(left, ';'));
  }

  lemma {:induction false} CutReads(parameters: seq<Parameter>, k: nat, others: seq<string>)
    requires forall p :: p in parameters ==> p.Valid()
    requires k < |parameters| && ',' in parameters[k].Text()
    ensures Weights(Split(Split(Join(ParameterTexts(parameters) + others, ';'), ',')[0], ';')) == CutStraysOf(parameters)
  {
    var first, rest := parameters[0].Text(), ParameterTexts(parameters[1..]) + others;
    assert ParameterTexts(parameters) + others == [first] + rest;
    assert ([first] + rest)[1..] == rest;
    if ',' in first {
      CutInFirst(first, rest);
      CutParameter(parameters[0]);
    } else {
      CutAfterFirst(first, rest);
      ParameterText(parameters[0]);
      CutReads(parameters[1..], k - 1, others);
    }
  }

  /** What is read as the item itself: its text up to the first comma. */
  function OwnFragment(item: Item): string {
    Split(item.Text(), ',')[0]
  }

  function LaterFragments(item: Item): seq<string> {
    Split(item.Text(), ',')[1..]
  }

  lemma CutHasComma(item: Item)
    requires item.Valid()
    ensures item.IsCut() <==> ',' in item.Text()
  {
    HeadText(item);
    WeightReadsBack(item);
    InJoin(item.Pieces(), ';', ',');
    var head := item.before + item.mediaType + item.after;
    assert forall c :: c in head ==> IsPieceChar(c);
    forall text | text in WeightTexts(item) ensures ',' !in text {
      assert IsPiece(text);
    }
    if item.IsCut() {
      var i :| 0 <= i < |item.parameters| && ',' in item.parameters[i].Text();
      assert ParameterTexts(item.parameters)[i] in item.Pieces();
    } else {
      forall i | 0 <= i < |item.parameters| ensures ',' !in ParameterTexts(item.parameters)[i] {
        assert item.parameters[i] in item.parameters;
      }
    }
  }

  lemma CutFragment(item: Item)
    requires item.Valid() && item.IsCut()
    ensures MediaType(OwnFragment(item)) == Lower(item.mediaType)
    ensures Weights(Parameters(OwnFragment(item))) == CutStraysOf(item.parameters)
  {
    var head, rest := item.before + item.mediaType + item.after, ParameterTexts(item.parameters) + WeightTexts(item);
    HeadText(item);
    PieceHasNoSeparator(head);
    assert item.Pieces() == [head] + rest && ([head] + rest)[1..] == rest;
    var left := Split(Join(rest, ';'), ',')[0];
    SplitAfter(head + [';'], Join(rest, ';'), ',');
    assert OwnFragment(item) == head + [';'] + left;
    SplitConcat(head, ';', left);
    SplitWithout(head, ';');
    var k :| 0 <= k < |item.parameters| && ',' in item.parameters[k].Text();
    CutReads(item.parameters, k, WeightTexts(item));
  }

  /** What is read as the item has its media type, and the weights it is read with. */
  lemma OwnFragmentReadsBack(item: Item)
    requires item.Valid()
    ensures MediaType(OwnFragment(item)) == Lower(item.mediaType)
    ensures Weights(Parameters(OwnFragment(item))) == item.WeightsAsRead()
  {
    CutHasComma(item);
    if item.IsCut() {
      CutFragment(item);
    } else {
      SplitWithout(item.Text(), ',');
      ItemReadsBack(item);
    }
  }

  /** Uncut, an item counts exactly when it is wanted and its stray weights are harmless. */
  lemma UncutCounts(item: Item, parse: FloatParser)
    requires item.Valid() && ReadsQvalues(parse) && !item.IsCut()
    ensures item.Counts(parse) <==> item.Wanted() && item.Harmless(parse)
  {
    var strays := item.Strays();
    if item.weight.Some? {
      var q := item.weight.value.qvalue;
      assert q.Valid() && parse(q.Text()).Finite?;
      AllReadNext(strays, q.Text(), parse);
    } else {
      assert strays + OwnWeight(item) == strays;
    }
  }

  /** An item is acceptable as read just when it is wanted, exactly when it reads as it is meant. */
  lemma AcceptableIffWanted(item: Item, parse: FloatParser)
    requires item.Valid() && ReadsQvalues(parse)
    ensures Acceptable(OwnFragment(item), parse) <==> item.Counts(parse)
    ensures (Acceptable(OwnFragment(item), parse) <==> item.Wanted()) <==> item.ReadsAsMeant(parse)
  {
    OwnFragmentReadsBack(item);
    if !item.IsCut() {
      UncutCounts(item, parse);
    }
  }

  /** In particular when no parameter holds a semicolon. */
  lemma {:induction false} NoSemicolonsNoStrays(parameters: seq<Parameter>)
    requires forall p :: p in parameters ==> ';' !in p.Text()
    ensures StraysOf(parameters) == []
  {
    if parameters != [] {
      NoStrays(parameters[0]);
      NoSemicolonsNoStrays(parameters[1..]);
    }
  }

  lemma PlainIsHarmless(item: Item, parse: FloatParser)
    requires forall p :: p in item.parameters ==> ';' !in p.Text()
    ensures item.Harmless(parse)
  {
    NoSemicolonsNoStrays(item.parameters);
  }
}
