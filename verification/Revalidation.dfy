/** Revalidation with entity tags: when a client that sends tags back is told it is up to date. */
module Revalidation {
  import opened Wrappers
  import opened Numbers
  import opened Text
  import opened Headers
  import opened Negotiation
  import opened EntityTag
  import opened PreparedStore
  import opened Serving
  import opened Gateway
  import opened GatewaySafety

  // ------------------------------------------------------------- lists of tags

  /** An element of a list: a tag as a client writes it, or a star, with blanks around it; or, with an empty tag, nothing. */
  datatype ListedTag = ListedTag(before: string, tag: string, after: string) {

    predicate Valid() {
      && AllOf(before, IsBlank) && AllOf(after, IsBlank)
      && AllOf(tag, IsTagChar)
    }

    function Text(): string {
      before + tag + after
    }
  }

  /** Visible, and not a comma. */
  predicate IsTagChar(c: char) {
    '!' <= c <= '~' && c != ','
  }

  /** A text that can stand in a list for itself: the lone star means any tag. */
  predicate IsListable(tag: string) {
    tag != "" && tag != "*" && AllOf(tag, IsTagChar)
  }

  predicate IsElementChar(c: char) {
    IsReadableChar(c) && c != ','
  }

  function Texts(tags: seq<ListedTag>): (texts: seq<string>)
    ensures |texts| == |tags|
    ensures forall i :: 0 <= i < |tags| ==> texts[i] == tags[i].Text()
  {
    if tags == [] then [] else [tags[0].Text()] + Texts(tags[1..])
  }

  function LineText(tags: seq<ListedTag>): string {
    Join(Texts(tags), ',')
  }

  ghost predicate ValidLine(tags: seq<ListedTag>) {
    tags != [] && forall t :: t in tags ==> t.Valid()
  }

  lemma ListedTagText(t: ListedTag)
    requires t.Valid()
    ensures AllOf(t.Text(), IsElementChar) && Trim(t.Text()) == t.tag
  {
    if t.tag != "" {
      assert t.tag[0] in t.tag && t.tag[|t.tag| - 1] in t.tag;
    }
    AllOfWeaken(t.before, IsBlank, IsWhitespace);
    AllOfWeaken(t.after, IsBlank, IsWhitespace);
    TrimPadded(t.before, t.tag, t.after, IsWhitespace);
    AllOfWeaken(t.before, IsBlank, IsElementChar);
    AllOfWeaken(t.after, IsBlank, IsElementChar);
    AllOfWeaken(t.tag, IsTagChar, IsElementChar);
    AllOfConcat(t.before, t.tag, IsElementChar);
    AllOfConcat(t.before + t.tag, t.after, IsElementChar);
  }

  lemma LineReadsBack(tags: seq<ListedTag>)
    requires ValidLine(tags)
    ensures IsReadable(LineText(tags)) && Split(LineText(tags), ',') == Texts(tags)
  {
    forall text | text in Texts(tags) ensures ',' !in text && IsReadable(text) {
      var i :| 0 <= i < |tags| && text == tags[i].Text();
      ListedTagText(tags[i]);
      AllOfWeaken(text, IsElementChar, IsReadableChar);
    }
    AllOfJoin(Texts(tags), ',', IsReadableChar);
    SplitJoinPieces(Texts(tags), ',');
  }

  /** The request lists these tags, over any number of If-None-Match lines. */
  ghost predicate Lists(h: Headers, lines: seq<seq<ListedTag>>) {
    && |GetAll(h, "if-none-match")| == |lines|
    && forall i :: 0 <= i < |lines| ==> ValidLine(lines[i]) && GetAll(h, "if-none-match")[i] == LineText(lines[i])
  }

  ghost predicate InLine(tag: string, tags: seq<ListedTag>) {
    exists j :: 0 <= j < |tags| && tags[j].tag == tag
  }

  ghost predicate Listed(tag: string, lines: seq<seq<ListedTag>>) {
    exists i :: 0 <= i < |lines| && InLine(tag, lines[i])
  }

  lemma LineHits(tags: seq<ListedTag>, etag: string)
    requires ValidLine(tags)
    ensures ValueHit(LineText(tags), etag) <==> InLine(etag, tags) || InLine("*", tags)
  {
    LineReadsBack(tags);
    forall j | 0 <= j < |tags| ensures Asks(tags[j].Text(), etag) <==> tags[j].tag == etag || tags[j].tag == "*" {
      ListedTagText(tags[j]);
    }
    if InLine(etag, tags) || InLine("*", tags) {
      var j :| 0 <= j < |tags| && (tags[j].tag == etag || tags[j].tag == "*");
      assert Texts(tags)[j] in Texts(tags);
    }
  }

  /** A list hits exactly when it lists the tag or a star, wherever and however it is spaced. */
  lemma HitsExactlyWhenListed(h: Headers, lines: seq<seq<ListedTag>>, etag: string)
    requires Lists(h, lines)
    ensures NoneMatchHit(h, etag) <==> Listed(etag, lines) || Listed("*", lines)
  {
    var values := GetAll(h, "if-none-match");
    forall i | 0 <= i < |lines| ensures ValueHit(values[i], etag) <==> InLine(etag, lines[i]) || InLine("*", lines[i]) {
      LineHits(lines[i], etag);
    }
    if Listed(etag, lines) || Listed("*", lines) {
      var i :| 0 <= i < |lines| && (InLine(etag, lines[i]) || InLine("*", lines[i]));
      assert values[i] in values;
    }
  }

  // ------------------------------------------------------------- weak comparison

  /** A tag without its weakness prefix, section 8.8.3 of RFC 9110. */
  function Opaque(tag: string): string {
    if "W/" <= tag then tag[2..] else tag
  }

  predicate IsStrong(tag: string) {
    !("W/" <= tag)
  }

  ghost predicate WeakInLine(etag: string, tags: seq<ListedTag>) {
    exists j :: 0 <= j < |tags| && Opaque(tags[j].tag) == Opaque(etag)
  }

  /** The list holds a tag that matches by the weak comparison, section 8.8.3.2 of RFC 9110. */
  ghost predicate WeakListed(etag: string, lines: seq<seq<ListedTag>>) {
    exists i :: 0 <= i < |lines| && WeakInLine(etag, lines[i])
  }

  /** The tag it matches weakly besides itself: its weak form, or, of a weak tag, its strong form. */
  function OtherForm(tag: string): string {
    if IsStrong(tag) then "W/" + tag else Opaque(tag)
  }

  /** A tag with at most one weakness prefix. Any other text with two is matched weakly only by itself. */
  predicate HasTwoForms(tag: string) {
    IsStrong(Opaque(tag))
  }

  /** A tag is weakly listed as itself or in its other form. */
  lemma WeakListedForms(etag: string, lines: seq<seq<ListedTag>>)
    ensures WeakListed(etag, lines) <==>
              Listed(etag, lines) || (HasTwoForms(etag) && Listed(OtherForm(etag), lines))
  {
    forall i | 0 <= i < |lines|
      ensures WeakInLine(etag, lines[i]) <==>
                InLine(etag, lines[i]) || (HasTwoForms(etag) && InLine(OtherForm(etag), lines[i]))
    {
      WeakForms(etag, lines[i]);
    }
  }

  /** Two texts match weakly exactly when they are equal or one is the other's second form. */
  lemma SameOpaque(tag: string, etag: string)
    ensures Opaque(tag) == Opaque(etag) <==> tag == etag || (HasTwoForms(etag) && tag == OtherForm(etag))
  {
    assert ("W/" + etag)[..2] == "W/" && ("W/" + etag)[2..] == etag;
    if "W/" <= tag {
      assert tag == "W/" + tag[2..];
    }
    if "W/" <= etag {
      assert etag == "W/" + etag[2..];
    }
  }

  lemma WeakForms(etag: string, tags: seq<ListedTag>)
    ensures WeakInLine(etag, tags) <==> InLine(etag, tags) || (HasTwoForms(etag) && InLine(OtherForm(etag), tags))
  {
    forall j | 0 <= j < |tags|
      ensures Opaque(tags[j].tag) == Opaque(etag) <==>
                tags[j].tag == etag || (HasTwoForms(etag) && tags[j].tag == OtherForm(etag))
    {
      SameOpaque(tags[j].tag, etag);
    }
  }

  /** The tag matches by the weak comparison, or the list holds the star that any tag matches. */
  ghost predicate WeakMatch(etag: string, lines: seq<seq<ListedTag>>) {
    WeakListed(etag, lines) || Listed("*", lines)
  }

  /** The list does not hold the tag's other form without the tag itself, or a star. */
  ghost predicate NotOnlyOtherForm(etag: string, lines: seq<seq<ListedTag>>) {
    HasTwoForms(etag) && Listed(OtherForm(etag), lines) ==> Listed(etag, lines) || Listed("*", lines)
  }

  /**
   Section 13.1.2 of RFC 9110 asks for the weak comparison; the code compares exactly. For
   any tag, weak or strong, the two agree on a list exactly when the list does not hold the
   tag's other form without the tag itself.
   */
  lemma WeakComparisonExactly(h: Headers, lines: seq<seq<ListedTag>>, etag: string)
    requires Lists(h, lines)
    ensures (NoneMatchHit(h, etag) <==> WeakMatch(etag, lines)) <==> NotOnlyOtherForm(etag, lines)
  {
    HitsExactlyWhenListed(h, lines, etag);
    WeakListedForms(etag, lines);
  }

  /** A client that sends only the other form of a tag matches it weakly, and is not hit. */
  lemma OtherFormAloneMissed(h: Headers, etag: string)
    requires HasTwoForms(etag) && IsListable(OtherForm(etag)) && GetAll(h, "if-none-match") == [OtherForm(etag)]
    ensures var lines := [[ListedTag("", OtherForm(etag), "")]];
            Lists(h, lines) && WeakListed(etag, lines) && !NoneMatchHit(h, etag)
  {
    var other := OtherForm(etag);
    var lines := [[ListedTag("", other, "")]];
    OneTag(h, other);
    WeakListedForms(etag, lines);
    HitsExactlyWhenListed(h, lines, etag);
    assert |other| != |etag|;
    assert !Listed(etag, lines) && !Listed("*", lines);
  }

  const STRONG_X := "\"x\""
  const WEAK_X := "W/\"x\""

  /** For instance a client that sends `W/"x"` for the tag `"x"`, or `"x"` for a view's tag `W/"x"`. */
  lemma OtherFormMissed()
    ensures var lines := [[ListedTag("", WEAK_X, "")]];
            var h: Headers := map["if-none-match" := [WEAK_X]];
            Lists(h, lines) && WeakListed(STRONG_X, lines) && !NoneMatchHit(h, STRONG_X)
    ensures var lines := [[ListedTag("", STRONG_X, "")]];
            var h: Headers := map["if-none-match" := [STRONG_X]];
            Lists(h, lines) && WeakListed(WEAK_X, lines) && !NoneMatchHit(h, WEAK_X)
  {
    FormsOfX();
    OtherFormAloneMissed(map["if-none-match" := [WEAK_X]], STRONG_X);
    OtherFormAloneMissed(map["if-none-match" := [STRONG_X]], WEAK_X);
  }

  lemma FormsOfX()
    ensures OtherForm(STRONG_X) == WEAK_X && OtherForm(WEAK_X) == STRONG_X
    ensures HasTwoForms(STRONG_X) && HasTwoForms(WEAK_X)
    ensures IsListable(STRONG_X) && IsListable(WEAK_X)
  {
    assert "W/" + STRONG_X == WEAK_X && WEAK_X[2..] == STRONG_X;
    assert STRONG_X[0] != 'W';
    assert forall c :: c in WEAK_X ==> IsTagChar(c);
  }

  // --------------------------------------------------------- tags the gateway computes

  /** The artifacts whose tag the gateway computes. */
  datatype Artifact = TheManifest | TheViewIndex

  function TagOf(which: Artifact, bytes: Bytes): string {
    match which
    case TheManifest => ManifestEtag(bytes)
    case TheViewIndex => ViewIndexEtag(bytes)
  }

  function RouteTo(which: Artifact): Route {
    match which
    case TheManifest => ToManifest
    case TheViewIndex => ToViewIndex
  }

  function BytesOf(which: Artifact, store: PreparedContentStore): Bytes {
    match which
    case TheManifest => store.manifest.bytes
    case TheViewIndex => store.viewIndex.bytes
  }

  /** Every listed tag is the artifact's tag for some bytes the client holds. */
  ghost predicate Holds(lines: seq<seq<ListedTag>>, which: Artifact, held: set<Bytes>) {
    && (forall bytes :: bytes in held ==> Listed(TagOf(which, bytes), lines))
    && (forall i, j :: 0 <= i < |lines| && 0 <= j < |lines[i]| ==>
          exists bytes :: bytes in held && lines[i][j].tag == TagOf(which, bytes))
  }

  /** A change the tag is certain to show: another length, or exactly one byte changed. */
  ghost predicate Changed(held: Bytes, current: Bytes) {
    |held| != |current| || OneByteApart(held, current)
  }

  lemma TagSeesChange(which: Artifact, held: Bytes, current: Bytes)
    ensures held == current ==> TagOf(which, held) == TagOf(which, current)
    ensures Changed(held, current) ==> TagOf(which, held) != TagOf(which, current)
  {
    if Changed(held, current) {
      ChangeSeen(MANIFEST_PREFIX, held, current, None);
      ChangeSeen(VIEW_INDEX_PREFIX, held, current, None);
    }
  }

  lemma EtagIsListable(prefix: Bytes, bytes: Bytes)
    ensures IsListable(EtagOf(prefix, bytes, None)) && IsStrong(EtagOf(prefix, bytes, None))
  {
    TagCharacters(prefix, bytes, None);
    assert forall c :: c in "\"-0123456789abcdef" ==> IsTagChar(c);
  }

  /** A computed tag is a valid list element. */
  lemma TagIsListable(which: Artifact, bytes: Bytes)
    ensures IsListable(TagOf(which, bytes)) && IsStrong(TagOf(which, bytes))
  {
    EtagIsListable(if which.TheManifest? then MANIFEST_PREFIX else VIEW_INDEX_PREFIX, bytes);
  }

  /**
   Whatever reloads were committed in between, an answer to a client that sends back tags of
   bytes it holds is 304 when it holds the bytes its snapshot serves, and is the full content
   when every artifact it holds differs in length or in exactly one byte.
   */
  lemma RevalidatesAcrossReloads(g: Gateway, actions: seq<Action>, i: nat,
                                 which: Artifact, lines: seq<seq<ListedTag>>, held: set<Bytes>, parse: FloatParser)
    requires Started(g) && ValidInv(g)
    requires i < |Run(g, actions, parse).history.answers|
    requires var r := Run(g, actions, parse).history.answers[i];
             r.source.FromTheStore? && r.source.route == RouteTo(which) && Lists(r.request.headers, lines)
    requires Holds(lines, which, held)
    ensures var h := Run(g, actions, parse).history;
            var r := h.answers[i];
            && r.generation < |h.generations|
            && var current := BytesOf(which, h.generations[r.generation].store);
               && (current in held ==> r.response == NOT_MODIFIED)
               && ((forall bytes :: bytes in held ==> Changed(bytes, current)) ==>
                     r.response.status == 200 && r.response.body == Stored(current))
  {
    AnswersAreWholeAndFresh(g, actions, i, parse);
    var h := Run(g, actions, parse).history;
    var r := h.answers[i];
    ServedStoresAreWellTimed(g, actions, r.generation, parse);
    RevalidatesAgainst(h.generations[r.generation].store, r.request, r.source.now, which, lines, held);
  }

  /** A listed tag is that of held bytes; a star, which is no computed tag, is not listed. */
  lemma OnlyHeldListed(lines: seq<seq<ListedTag>>, which: Artifact, held: set<Bytes>, tag: string)
    requires Holds(lines, which, held) && Listed(tag, lines)
    ensures tag != "*" && exists bytes :: bytes in held && tag == TagOf(which, bytes)
  {
    var i :| 0 <= i < |lines| && InLine(tag, lines[i]);
    var j :| 0 <= j < |lines[i]| && lines[i][j].tag == tag;
    var bytes :| bytes in held && lines[i][j].tag == TagOf(which, bytes);
    TagIsListable(which, bytes);
  }

  /** Held tags hit the current one when the bytes are held, and miss it when each has visibly changed. */
  lemma HeldTagsHit(h: Headers, lines: seq<seq<ListedTag>>, which: Artifact, held: set<Bytes>, current: Bytes)
    requires Lists(h, lines) && Holds(lines, which, held)
    ensures current in held ==> NoneMatchHit(h, TagOf(which, current))
    ensures (forall bytes :: bytes in held ==> Changed(bytes, current)) ==> !NoneMatchHit(h, TagOf(which, current))
  {
    var etag := TagOf(which, current);
    HitsExactlyWhenListed(h, lines, etag);
    if Listed("*", lines) {
      OnlyHeldListed(lines, which, held, "*");
    }
    if Listed(etag, lines) {
      OnlyHeldListed(lines, which, held, etag);
      var bytes :| bytes in held && etag == TagOf(which, bytes);
      TagSeesChange(which, bytes, current);
    }
  }

  lemma RevalidatesAgainst(store: PreparedContentStore, request: Request, now: i64,
                           which: Artifact, lines: seq<seq<ListedTag>>, held: set<Bytes>)
    requires !IsExpired(store, now)
    requires EtagFor(RouteTo(which), store) == TagOf(which, BytesOf(which, store))
    requires Lists(request.headers, lines) && Holds(lines, which, held)
    ensures var response := StoreResponse(RouteTo(which), store, request, now);
            var current := BytesOf(which, store);
            && (current in held ==> response == NOT_MODIFIED)
            && ((forall bytes :: bytes in held ==> Changed(bytes, current)) ==>
                  response.status == 200 && response.body == Stored(current))
  {
    HeldTagsHit(request.headers, lines, which, held, BytesOf(which, store));
  }

  /** What a full answer sends as its tag is the tag of the bytes it sends. */
  lemma FullAnswerCarriesItsTag(g: Gateway, actions: seq<Action>, i: nat,
                                which: Artifact, parse: FloatParser)
    requires Started(g) && ValidInv(g)
    requires i < |Run(g, actions, parse).history.answers|
    requires var r := Run(g, actions, parse).history.answers[i];
             r.source.FromTheStore? && r.source.route == RouteTo(which) && r.response.status == 200
    ensures var r := Run(g, actions, parse).history.answers[i];
            && r.response.body.Stored?
            && "etag" in r.response.headers
            && r.response.headers["etag"] == [TagOf(which, r.response.body.bytes)]
  {
    AnswersAreWholeAndFresh(g, actions, i, parse);
    var h := Run(g, actions, parse).history;
    var r := h.answers[i];
    ServedStoresAreWellTimed(g, actions, r.generation, parse);
    FullResponseCarriesTag(h.generations[r.generation].store, r.request, r.source.now, which);
  }

  lemma FullResponseCarriesTag(store: PreparedContentStore, request: Request, now: i64, which: Artifact)
    requires StoreResponse(RouteTo(which), store, request, now).status == 200
    requires EtagFor(RouteTo(which), store) == TagOf(which, BytesOf(which, store))
    ensures var response := StoreResponse(RouteTo(which), store, request, now);
            && response.body == Stored(BytesOf(which, store))
            && "etag" in response.headers
            && response.headers["etag"] == [TagOf(which, BytesOf(which, store))]
  {
    OkCarriesTag(store, now, which);
  }

  lemma OkCarriesTag(store: PreparedContentStore, now: i64, which: Artifact)
    requires EtagFor(RouteTo(which), store) == TagOf(which, BytesOf(which, store))
    ensures var response := OkResponse(RouteTo(which), store, now);
            && response.body == Stored(BytesOf(which, store))
            && "etag" in response.headers
            && response.headers["etag"] == [TagOf(which, BytesOf(which, store))]
  {
    TagIsInsertable(which, BytesOf(which, store));
  }

  lemma TagIsInsertable(which: Artifact, bytes: Bytes)
    ensures IsInsertable(TagOf(which, bytes))
  {
    TagIsListable(which, bytes);
  }

  /** A client that sends back, alone, the tag of an earlier full answer. */
  lemma EchoedTagRevalidates(g: Gateway, actions: seq<Action>, i: nat, j: nat,
                             which: Artifact, parse: FloatParser)
    requires Started(g) && ValidInv(g)
    requires i < |Run(g, actions, parse).history.answers| && j < |Run(g, actions, parse).history.answers|
    requires var earlier := Run(g, actions, parse).history.answers[i];
             earlier.source.FromTheStore? && earlier.source.route == RouteTo(which) && earlier.response.status == 200
    requires var earlier, later := Run(g, actions, parse).history.answers[i], Run(g, actions, parse).history.answers[j];
             && later.source.FromTheStore? && later.source.route == RouteTo(which)
             && GetAll(later.request.headers, "if-none-match") == GetAll(earlier.response.headers, "etag")
    ensures var h := Run(g, actions, parse).history;
            var earlier, later := h.answers[i], h.answers[j];
            && earlier.response.body.Stored? && later.generation < |h.generations|
            && var had, current := earlier.response.body.bytes, BytesOf(which, h.generations[later.generation].store);
               && (had == current ==> later.response == NOT_MODIFIED)
               && (Changed(had, current) ==> later.response.status == 200 && later.response.body == Stored(current))
  {
    FullAnswerCarriesItsTag(g, actions, i, which, parse);
    AnswersAreWholeAndFresh(g, actions, j, parse);
    var h := Run(g, actions, parse).history;
    ServedStoresAreWellTimed(g, actions, h.answers[j].generation, parse);
    EchoedTag(h.generations[h.answers[j].generation].store, h.answers[j].request, h.answers[j].source.now, which,
              h.answers[i].response.body.bytes);
  }

  lemma EchoedTag(store: PreparedContentStore, request: Request, now: i64, which: Artifact, had: Bytes)
    requires !IsExpired(store, now)
    requires EtagFor(RouteTo(which), store) == TagOf(which, BytesOf(which, store))
    requires GetAll(request.headers, "if-none-match") == [TagOf(which, had)]
    ensures var response := StoreResponse(RouteTo(which), store, request, now);
            var current := BytesOf(which, store);
            && (had == current ==> response == NOT_MODIFIED)
            && (Changed(had, current) ==> response.status == 200 && response.body == Stored(current))
  {
    EchoHits(request.headers, which, had, BytesOf(which, store));
  }

  lemma EchoHits(h: Headers, which: Artifact, had: Bytes, current: Bytes)
    requires GetAll(h, "if-none-match") == [TagOf(which, had)]
    ensures had == current ==> NoneMatchHit(h, TagOf(which, current))
    ensures Changed(had, current) ==> !NoneMatchHit(h, TagOf(which, current))
  {
    OneTagLine(h, which, had);
    HeldTagsHit(h, [[ListedTag("", TagOf(which, had), "")]], which, {had}, current);
    assert had in {had};
  }

  lemma OneTagLine(h: Headers, which: Artifact, bytes: Bytes)
    requires GetAll(h, "if-none-match") == [TagOf(which, bytes)]
    ensures var lines := [[ListedTag("", TagOf(which, bytes), "")]];
            Lists(h, lines) && Holds(lines, which, {bytes})
  {
    TagIsListable(which, bytes);
    OneTag(h, TagOf(which, bytes));
  }

  lemma OneTag(h: Headers, tag: string)
    requires GetAll(h, "if-none-match") == [tag] && ListedTag("", tag, "").Valid()
    ensures Lists(h, [[ListedTag("", tag, "")]]) && Listed(tag, [[ListedTag("", tag, "")]])
  {
    var t := ListedTag("", tag, "");
    assert t.Text() == tag;
    assert Texts([t]) == [tag];
    assert LineText([t]) == tag;
    assert [t][0].tag == tag;
    assert [[t]][0] == [t] && InLine(tag, [[t]][0]);
  }

  /**
   In every run, on every store route, view routes and their authors' tags included: an
   answer follows the weak comparison exactly when the request does not list the other form
   of the current tag without the tag itself.
   */
  lemma AnswersFollowWeakComparisonExactly(g: Gateway, actions: seq<Action>, i: nat, lines: seq<seq<ListedTag>>,
                                           parse: FloatParser)
    requires Started(g)
    requires i < |Run(g, actions, parse).history.answers|
    requires var r := Run(g, actions, parse).history.answers[i];
             r.source.FromTheStore? && Lists(r.request.headers, lines)
    ensures var h := Run(g, actions, parse).history;
            var r := h.answers[i];
            && r.generation < |h.generations| && FromStore(r.source.route)
            && var etag := EtagFor(r.source.route, h.generations[r.generation].store);
               (r.response == NOT_MODIFIED <==> WeakMatch(etag, lines)) <==> NotOnlyOtherForm(etag, lines)
  {
    AnswersAreWholeAndFresh(g, actions, i, parse);
    var h := Run(g, actions, parse).history;
    var r := h.answers[i];
    WeakComparisonExactly(r.request.headers, lines, EtagFor(r.source.route, h.generations[r.generation].store));
  }

  /** For the manifest and the index, whose tags are strong, the other form is the weak one. */
  lemma ComputedTagsHaveWeakForm(which: Artifact, bytes: Bytes)
    ensures HasTwoForms(TagOf(which, bytes)) && OtherForm(TagOf(which, bytes)) == "W/" + TagOf(which, bytes)
  {
    TagIsListable(which, bytes);
  }

  // ------------------------------------------------------------ tags of any content

  /** A tag that survives being sent back alone: it reads as text, and is one trimmed list element or holds a star. */
  ghost predicate Echoable(etag: string) {
    && IsReadable(etag)
    && ((',' !in etag && Trim(etag) == etag) || exists piece :: piece in Split(etag, ',') && Trim(piece) == "*")
  }

  /** Sending a tag back alone hits exactly when it is echoable. */
  lemma EchoHitsExactly(h: Headers, etag: string)
    requires GetAll(h, "if-none-match") == [etag]
    ensures NoneMatchHit(h, etag) <==> Echoable(etag)
  {
    assert [etag][0] in GetAll(h, "if-none-match");
    if ',' !in etag {
      SplitWithout(etag, ',');
    }
    forall piece | piece in Split(etag, ',') && Trim(piece) == etag ensures ',' !in etag && piece == etag {
      PieceLength(etag, ',', piece);
      TrimLength(piece, IsWhitespace);
      SplitWithout(etag, ',');
    }
    if Echoable(etag) && ',' !in etag && Trim(etag) == etag {
      assert etag in Split(etag, ',') && Asks(etag, etag);
      assert ValueHit(etag, etag);
    }
  }

  /**
   View tags are their author's, and not every one can be sent back: a client that sends back
   the current tag of the content it asks for is answered 304 exactly when the tag is echoable.
   */
  lemma CurrentTagRevalidatesExactly(g: Gateway, actions: seq<Action>, i: nat, parse: FloatParser)
    requires Started(g)
    requires i < |Run(g, actions, parse).history.answers|
    requires Run(g, actions, parse).history.answers[i].source.FromTheStore?
    requires var h := Run(g, actions, parse).history;
             var r := h.answers[i];
             && r.generation < |h.generations| && FromStore(r.source.route)
             && GetAll(r.request.headers, "if-none-match")
                == [EtagFor(r.source.route, h.generations[r.generation].store)]
    ensures var h := Run(g, actions, parse).history;
            var r := h.answers[i];
            r.response == NOT_MODIFIED <==> Echoable(EtagFor(r.source.route, h.generations[r.generation].store))
  {
    AnswersAreWholeAndFresh(g, actions, i, parse);
    var h := Run(g, actions, parse).history;
    var r := h.answers[i];
    EchoHitsExactly(r.request.headers, EtagFor(r.source.route, h.generations[r.generation].store));
  }

  /** The one ETag header of a full answer is the tag that If-None-Match is compared with, when a header can hold it. */
  lemma EtagSent(route: Route, store: PreparedContentStore, now: i64)
    requires FromStore(route)
    ensures GetAll(OkResponse(route, store, now).headers, "etag")
            == if IsInsertable(EtagFor(route, store)) then [EtagFor(route, store)] else []
  {}

  /**
   On every store route: a client that sends back the ETag header of a full answer, and is
   answered from the same generation on the same route, gets 304 exactly when that header is
   echoable, and the content again otherwise.
   */
  lemma EchoedHeaderRevalidatesExactly(g: Gateway, actions: seq<Action>, i: nat, j: nat, parse: FloatParser)
    requires Started(g)
    requires i < |Run(g, actions, parse).history.answers| && j < |Run(g, actions, parse).history.answers|
    requires var full, later := Run(g, actions, parse).history.answers[i], Run(g, actions, parse).history.answers[j];
             && full.source.FromTheStore? && full.response.status == 200 && later.source.FromTheStore?
             && later.source.route == full.source.route && later.generation == full.generation
             && GetAll(full.response.headers, "etag") != []
             && GetAll(later.request.headers, "if-none-match") == GetAll(full.response.headers, "etag")
    ensures var full, later := Run(g, actions, parse).history.answers[i], Run(g, actions, parse).history.answers[j];
            && |GetAll(full.response.headers, "etag")| == 1
            && (later.response.status == 304 <==> Echoable(GetAll(full.response.headers, "etag")[0]))
            && (later.response.status == 200 <==> !Echoable(GetAll(full.response.headers, "etag")[0]))
  {
    AnswersAreWholeAndFresh(g, actions, i, parse);
    AnswersAreWholeAndFresh(g, actions, j, parse);
    var h := Run(g, actions, parse).history;
    var full, later := h.answers[i], h.answers[j];
    EchoAgainst(h.generations[full.generation].store, full.source.route, full.request, full.source.now,
                later.request, later.source.now);
  }

  lemma EchoAgainst(store: PreparedContentStore, route: Route, first: Request, t0: i64, second: Request, t1: i64)
    requires FromStore(route) && !IsExpired(store, t0) && !IsExpired(store, t1)
    requires StoreResponse(route, store, first, t0).status == 200
    requires GetAll(StoreResponse(route, store, first, t0).headers, "etag") != []
    requires GetAll(second.headers, "if-none-match") == GetAll(StoreResponse(route, store, first, t0).headers, "etag")
    ensures var sent := GetAll(StoreResponse(route, store, first, t0).headers, "etag");
            var status := StoreResponse(route, store, second, t1).status;
            && |sent| == 1 && (status == 304 <==> Echoable(sent[0])) && (status == 200 <==> !Echoable(sent[0]))
  {
    EtagSent(route, store, t0);
    EchoHitsExactly(second.headers, EtagFor(route, store));
    Statuses(store, route, second, t1);
  }

  lemma Statuses(store: PreparedContentStore, route: Route, request: Request, now: i64)
    requires FromStore(route) && !IsExpired(store, now)
    ensures StoreResponse(route, store, request, now).status == if NoneMatch(request, route, store) then 304 else 200
  {}

  const COMMA_TAG := "\"a,b\""

  lemma CommaTagNotEchoable()
    ensures !Echoable(COMMA_TAG)
  {
    assert COMMA_TAG == "\"a" + [','] + "b\"";
    SplitConcat("\"a", ',', "b\"");
    SplitWithout("\"a", ',');
    SplitWithout("b\"", ',');
    assert Split(COMMA_TAG, ',') == ["\"a", "b\""];
    TrimTight("\"a", IsWhitespace);
    TrimTight("b\"", IsWhitespace);
    assert COMMA_TAG[2] == ',';
  }

  /** For instance the tag `"a,b"`: a client that holds the view and sends its tag back gets the view again. */
  lemma CommaTagNeverRevalidates(store: PreparedContentStore, view: StoredView, request: Request, now: i64)
    requires view.view.etag == COMMA_TAG && GetAll(request.headers, "if-none-match") == [COMMA_TAG]
    requires !IsExpired(store, now)
    ensures StoreResponse(ToViewJson(view), store, request, now).status == 200
    ensures StoreResponse(ToViewMarkdown(view), store, request, now).status == 200
  {
    CommaTagNotEchoable();
    EchoHitsExactly(request.headers, COMMA_TAG);
  }
}
