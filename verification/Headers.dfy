/** Header maps: reading them, stripping the hop-by-hop headers, and the If-None-Match test. */
module Headers {
  import opened Wrappers
  import opened Text

  /** Lower-case names to their values in arrival order; a value's characters stand for its bytes. */
  type Headers = map<string, seq<string>>

  const HOP_BY_HOP: seq<string> :=
    ["connection", "keep-alive", "te", "trailer", "transfer-encoding", "upgrade"]

  function GetAll(h: Headers, name: string): seq<string> {
    if name in h then h[name] else []
  }

  /** A header value reads as text when it is visible ASCII, spaces and tabs. */
  predicate IsReadable(value: string) {
    AllOf(value, IsReadableChar)
  }

  predicate IsReadableChar(c: char) {
    c == '\t' || ' ' <= c <= '~'
  }

  /** A value that a header can be given: no control character but the tab. */
  predicate IsInsertable(value: string) {
    forall c :: c in value ==> c == '\t' || (' ' <= c && c != '\U{007F}')
  }

  function InsertHeader(h: Headers, name: string, value: string): Headers {
    if IsInsertable(value) then h[name := [value]] else h
  }

  function AppendHeader(h: Headers, name: string, value: string): Headers {
    h[name := GetAll(h, name) + [value]]
  }

  // ------------------------------------------------------------ hop-by-hop headers

  /** The characters of a token, section 5.6.2 of RFC 9110. */
  predicate IsTokenChar(c: char) {
    'a' <= c <= 'z' || 'A' <= c <= 'Z' || '0' <= c <= '9' || c in "!#$%&'*+-.^_`|~"
  }

  predicate IsHeaderName(text: string) {
    1 <= |text| <= 65_535 && AllOf(text, IsTokenChar)
  }

  function HeaderName(text: string): Option<string> {
    if IsHeaderName(text) then Some(Lower(text)) else None
  }

  /** One of the elements of this value, trimmed, is a header name spelling `name`. */
  predicate Names(value: string, name: string) {
    IsReadable(value) && exists token :: token in Split(value, ',') && HeaderName(Trim(token)) == Some(name)
  }

  predicate NamedByConnection(h: Headers, name: string) {
    exists value :: value in GetAll(h, "connection") && Names(value, name)
  }

  /** Headers that concern one connection only, section 7.6.1 of RFC 9110, plus every `proxy-` header. */
  predicate IsHopByHop(h: Headers, name: string) {
    name in HOP_BY_HOP || StartsWith(Lower(name), "proxy-") || NamedByConnection(h, name)
  }

  function EndToEnd(h: Headers): Headers {
    map name | name in h && !IsHopByHop(h, name) :: h[name]
  }

  /** The characters of a token are the visible ones but the delimiters of section 5.6.2 of RFC 9110. */
  lemma TokenCharsExactly(c: char)
    ensures IsTokenChar(c) <==> 33 <= c as int <= 126 && c !in "\"(),/:;<=>?@[\\]{}"
  {}

  /** A value reads as text exactly when its characters are tabs, spaces and visible ASCII; trimming it takes off tabs and spaces, or double quotes. */
  lemma ReadableExactly(c: char)
    ensures IsReadableChar(c) <==> c as int == 9 || 32 <= c as int <= 126
    ensures IsReadableChar(c) ==> (IsWhitespace(c) <==> c as int == 9 || c as int == 32)
    ensures IsQuote(c) <==> c as int == 34
  {}

  /** What a header can be given: no control character but the tab, and no delete. */
  lemma InsertableExactly(value: string)
    ensures IsInsertable(value) <==>
              forall c :: c in value ==> c as int == 9 || (32 <= c as int && c as int != 127)
  {}

  /**
   The headers that concern one connection only, section 7.6.1 of RFC 9110, with the names
   and the prefix written out: fixed ones, `proxy-` ones, and those that a token of a
   readable Connection value names.
   */
  ghost predicate PerConnection(h: Headers, name: string) {
    || name == "connection" || name == "keep-alive" || name == "te"
    || name == "trailer" || name == "transfer-encoding" || name == "upgrade"
    || "proxy-" <= Lower(name)
    || exists value, token :: TokenNames(h, value, token, name)
  }

  ghost predicate TokenNames(h: Headers, value: string, token: string, name: string) {
    && "connection" in h && value in h["connection"] && IsReadable(value) && token in Split(value, ',')
    && 0 < |Trim(token)| < 0x1_0000 && AllOf(Trim(token), IsTokenChar)
    && Lower(Trim(token)) == name
  }

  lemma HopByHopExactly(h: Headers, name: string)
    ensures IsHopByHop(h, name) <==> PerConnection(h, name)
  {
    if NamedByConnection(h, name) {
      var value :| value in GetAll(h, "connection") && Names(value, name);
      var token :| token in Split(value, ',') && HeaderName(Trim(token)) == Some(name);
      assert TokenNames(h, value, token, name);
    }
    if value, token :| TokenNames(h, value, token, name) {
      assert Names(value, name);
    }
    assert name in HOP_BY_HOP <==> name == "connection" || name == "keep-alive" || name == "te"
                                   || name == "trailer" || name == "transfer-encoding" || name == "upgrade";
  }

  /** A header survives stripping, with all its values, exactly when it does not concern the connection. */
  lemma StrippingKeepsExactly(h: Headers, name: string)
    ensures name in EndToEnd(h) <==> name in h && !PerConnection(h, name)
    ensures name in EndToEnd(h) ==> EndToEnd(h)[name] == h[name]
  {
    HopByHopExactly(h, name);
  }

  /** Nothing is left for a second pass to strip. */
  lemma EndToEndIdempotent(h: Headers)
    ensures EndToEnd(EndToEnd(h)) == EndToEnd(h)
  {
    var once := EndToEnd(h);
    assert "connection" == HOP_BY_HOP[0];
    assert "connection" !in once;
    assert forall name :: !NamedByConnection(once, name);
  }

  class HeaderMap {
    var entries: Headers

    constructor (entries: Headers)
      ensures this.entries == entries
    {
      this.entries := entries;
    }

    method Remove(name: string)
      modifies this
      ensures entries == old(entries) - {name}
    {
      entries := entries - {name};
    }

    method Append(name: string, value: string)
      modifies this
      ensures entries == AppendHeader(old(entries), name, value)
    {
      entries := AppendHeader(entries, name, value);
    }
  }

  method HopByHopNames(headers: HeaderMap) returns (names: seq<string>)
    ensures forall name :: name in names <==>
              name in HOP_BY_HOP || NamedByConnection(headers.entries, name)
  {
    names := HOP_BY_HOP;
    var values := GetAll(headers.entries, "connection");
    for i := 0 to |values|
      invariant forall name :: name in names <==>
                  name in HOP_BY_HOP || exists j :: 0 <= j < i && Names(values[j], name)
    {
      if IsReadable(values[i]) {
        var tokens := Split(values[i], ',');
        ghost var before := names;
        for k := 0 to |tokens|
          invariant forall name :: name in names <==>
                      name in before || exists l :: 0 <= l < k && HeaderName(Trim(tokens[l])) == Some(name)
        {
          var parsed := HeaderName(Trim(tokens[k]));
          if parsed.Some? {
            names := names + [parsed.value];
          }
        }
      }
    }
  }

  method StripHopByHopHeaders(headers: HeaderMap)
    modifies headers
    ensures headers.entries == EndToEnd(old(headers.entries))
  {
    ghost var h := headers.entries;
    var names := HopByHopNames(headers);
    var keys := headers.entries.Keys;
    while keys != {}
      invariant keys <= h.Keys
      invariant forall name :: name in h ==>
                  (name in names <==>
                    || name in HOP_BY_HOP || NamedByConnection(h, name)
                    || (name !in keys && StartsWith(Lower(name), "proxy-")))
    {
      var name :| name in keys;
      keys := keys - {name};
      if StartsWith(Lower(name), "proxy-") {
        names := names + [name];
      }
    }
    for i := 0 to |names|
      invariant headers.entries == map name | name in h && name !in names[..i] :: h[name]
    {
      assert names[..i + 1] == names[..i] + [names[i]];
      headers.Remove(names[i]);
    }
    assert names[..|names|] == names;
  }

  // -------------------------------------------------------------- combined Accept

  /** The values that read as text, in order. */
  function ReadableValues(values: seq<string>): seq<string> {
    if values == [] then []
    else (if IsReadable(values[0]) then [values[0]] else []) + ReadableValues(values[1..])
  }

  lemma {:induction false} ReadableValuesConcat(a: seq<string>, b: seq<string>)
    ensures ReadableValues(a + b) == ReadableValues(a) + ReadableValues(b)
  {
    if a == [] {
      assert a + b == b;
    } else {
      assert (a + b)[1..] == a[1..] + b;
      ReadableValuesConcat(a[1..], b);
    }
  }

  function CombinedAccept(h: Headers): Option<string> {
    var values := ReadableValues(GetAll(h, "accept"));
    if values == [] then None else Some(Join(values, ','))
  }

  method CombinedAcceptHeader(headers: Headers) returns (r: Option<string>)
    ensures r == CombinedAccept(headers)
  {
    var all := GetAll(headers, "accept");
    var values: seq<string> := [];
    for i := 0 to |all|
      invariant values == ReadableValues(all[..i])
    {
      assert all[..i + 1] == all[..i] + [all[i]];
      ReadableValuesConcat(all[..i], [all[i]]);
      if IsReadable(all[i]) {
        values := values + [all[i]];
      }
    }
    assert all[..|all|] == all;
    return if values == [] then None else Some(Join(values, ','));
  }

  // ---------------------------------------------------------------- If-None-Match

  predicate Asks(candidate: string, etag: string) {
    Trim(candidate) == "*" || Trim(candidate) == etag
  }

  /** The value reads as text, and an element of it is a star or the tag, character for character. */
  predicate ValueHit(value: string, etag: string) {
    IsReadable(value) && exists candidate :: candidate in Split(value, ',') && Asks(candidate, etag)
  }

  predicate NoneMatchHit(h: Headers, etag: string) {
    exists value :: value in GetAll(h, "if-none-match") && ValueHit(value, etag)
  }

  method IfNoneMatchMatches(headers: Headers, etag: string) returns (hit: bool)
    ensures hit == NoneMatchHit(headers, etag)
  {
    var values := GetAll(headers, "if-none-match");
    for i := 0 to |values|
      invariant forall j :: 0 <= j < i ==> !ValueHit(values[j], etag)
    {
      if !IsReadable(values[i]) {
        continue;
      }
      var candidates := Split(values[i], ',');
      for k := 0 to |candidates|
        invariant forall l :: 0 <= l < k ==> !Asks(candidates[l], etag)
      {
        if Trim(candidates[k]) == "*" || Trim(candidates[k]) == etag {
          assert values[i] in values && candidates[k] in candidates && Asks(candidates[k], etag);
          return true;
        }
      }
    }
    return false;
  }
}
