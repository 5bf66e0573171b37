/** The string operations header parsing is built from: split, join, trim and case folding. */
module Text {
  import opened Wrappers

  // -------------------------------------------------------------- split and join

  /** The pieces between separators; there is always at least one. */
  function Split(s: string, sep: char): (parts: seq<string>)
    ensures |parts| >= 1
  {
    if s == "" then [""]
    else
      var rest := Split(s[1..], sep);
      if s[0] == sep then [""] + rest else [[s[0]] + rest[0]] + rest[1..]
  }

  function Join(parts: seq<string>, sep: char): string {
    if parts == [] then ""
    else if |parts| == 1 then parts[0]
    else parts[0] + [sep] + Join(parts[1..], sep)
  }

  lemma {:induction false} SplitWithout(s: string, sep: char)
    requires sep !in s
    ensures Split(s, sep) == [s]
  {
    if s != "" {
      SplitWithout(s[1..], sep);
      assert s == [s[0]] + s[1..];
    }
  }

  /** Splitting at a separator that is already there splits each side on its own. */
  lemma {:induction false} SplitConcat(a: string, sep: char, b: string)
    ensures Split(a + [sep] + b, sep) == Split(a, sep) + Split(b, sep)
  {
    var s := a + [sep] + b;
    if a == "" {
      assert s[0] == sep && s[1..] == b;
    } else {
      assert s[0] == a[0] && s[1..] == a[1..] + [sep] + b;
      SplitConcat(a[1..], sep, b);
      assert Split(s, sep) == Split(a, sep) + Split(b, sep);
    }
  }

  function Flatten<T>(xss: seq<seq<T>>): seq<T> {
    if xss == [] then [] else xss[0] + Flatten(xss[1..])
  }

  function SplitAll(lines: seq<string>, sep: char): seq<seq<string>> {
    if lines == [] then [] else [Split(lines[0], sep)] + SplitAll(lines[1..], sep)
  }

  /** Splitting a join gives every line's own pieces, in line order. */
  lemma {:induction false} SplitJoin(lines: seq<string>, sep: char)
    requires lines != []
    ensures Split(Join(lines, sep), sep) == Flatten(SplitAll(lines, sep))
  {
    if |lines| == 1 {
      assert lines[1..] == [];
      assert Flatten(SplitAll(lines, sep)) == Split(lines[0], sep) + [];
    } else {
      SplitConcat(lines[0], sep, Join(lines[1..], sep));
      SplitJoin(lines[1..], sep);
    }
  }

  /** Nothing after the first separator changes the first piece. */
  lemma {:induction false} FirstPieceEnds(a: string, b: string, sep: char)
    requires sep in a
    ensures Split(a + b, sep)[0] == Split(a, sep)[0]
  {
    assert (a + b)[0] == a[0];
    if a[0] != sep {
      assert (a + b)[1..] == a[1..] + b;
      FirstPieceEnds(a[1..], b, sep);
    }
  }

  /** The first piece is decided by the first text that holds a separator. */
  lemma FirstPiece(a: string, b: string, sep: char)
    ensures Split(a + b, sep)[0] == if sep in a then Split(a, sep)[0] else a + Split(b, sep)[0]
  {
    if sep in a {
      FirstPieceEnds(a, b, sep);
    } else {
      SplitAfter(a, b, sep);
    }
  }

  /** A character other than the separator is in a join exactly when it is in a piece. */
  lemma {:induction false} InJoin(parts: seq<string>, sep: char, c: char)
    requires c != sep
    ensures c in Join(parts, sep) <==> exists part :: part in parts && c in part
  {
    if |parts| > 1 {
      InJoin(parts[1..], sep, c);
      assert forall part :: part in parts <==> part == parts[0] || part in parts[1..];
    }
  }

  /** Joining pieces that hold no separator is undone by splitting. */
  lemma {:induction false} SplitJoinPieces(parts: seq<string>, sep: char)
    requires parts != [] && forall p :: p in parts ==> sep !in p
    ensures Split(Join(parts, sep), sep) == parts
  {
    SplitWithout(parts[0], sep);
    if |parts| > 1 {
      SplitConcat(parts[0], sep, Join(parts[1..], sep));
      SplitJoinPieces(parts[1..], sep);
    }
  }

  /** Splitting loses nothing, and its pieces hold no separator: together with SplitJoinPieces, this fixes Split. */
  lemma {:induction false} JoinSplit(s: string, sep: char)
    ensures Join(Split(s, sep), sep) == s
    ensures forall p :: p in Split(s, sep) ==> sep !in p
  {
    if s != "" {
      JoinSplit(s[1..], sep);
      var rest := Split(s[1..], sep);
      if s[0] == sep {
        assert ([""] + rest)[1..] == rest;
      } else {
        var parts := [[s[0]] + rest[0]] + rest[1..];
        assert parts[1..] == rest[1..];
        assert Join(parts, sep) == [s[0]] + Join(rest, sep);
      }
    }
  }

  /** A piece is no longer than the text, and shorter when there is something to split at. */
  lemma {:induction false} PieceLength(s: string, sep: char, piece: string)
    requires piece in Split(s, sep)
    ensures |piece| <= |s| && (sep in s ==> |piece| < |s|)
  {
    if s != "" {
      var rest := Split(s[1..], sep);
      assert s == [s[0]] + s[1..];
      if piece in rest {
        PieceLength(s[1..], sep, piece);
      } else if s[0] != sep {
        PieceLength(s[1..], sep, rest[0]);
      }
    }
  }

  /** Text before any separator stays with the first piece. */
  lemma {:induction false} SplitAfter(a: string, b: string, sep: char)
    requires sep !in a
    ensures Split(a + b, sep) == [a + Split(b, sep)[0]] + Split(b, sep)[1..]
  {
    if a == "" {
      assert a + b == b && a + Split(b, sep)[0] == Split(b, sep)[0];
    } else {
      assert (a + b)[1..] == a[1..] + b && (a + b)[0] == a[0];
      SplitAfter(a[1..], b, sep);
      assert [a[0]] + (a[1..] + Split(b, sep)[0]) == a + Split(b, sep)[0];
    }
  }

  /** At most one split: the text before the first separator, and the rest if there is one. */
  function SplitOnce(s: string, sep: char): (string, Option<string>) {
    if s == "" then ("", None)
    else if s[0] == sep then ("", Some(s[1..]))
    else var (head, tail) := SplitOnce(s[1..], sep); ([s[0]] + head, tail)
  }

  lemma {:induction false} SplitOnceAt(a: string, sep: char, b: string)
    requires sep !in a
    ensures SplitOnce(a + [sep] + b, sep) == (a, Some(b))
    ensures SplitOnce(a, sep) == (a, None)
  {
    if a == "" {
      assert a + [sep] + b == [sep] + b;
    } else {
      assert (a + [sep] + b)[1..] == a[1..] + [sep] + b;
      SplitOnceAt(a[1..], sep, b);
      assert a == [a[0]] + a[1..];
    }
  }

  // ------------------------------------------------------------------------ trim

  /** The characters with the Unicode White_Space property. */
  predicate IsWhitespace(c: char) {
    || '\t' <= c <= '\r' || c == ' ' || c == '\U{0085}' || c == '\U{00A0}' || c == '\U{1680}'
    || '\U{2000}' <= c <= '\U{200A}' || c == '\U{2028}' || c == '\U{2029}' || c == '\U{202F}'
    || c == '\U{205F}' || c == '\U{3000}'
  }

  /** A space or a tab. */
  predicate IsBlank(c: char) {
    c == ' ' || c == '\t'
  }

  function TrimStart(s: string, strip: char -> bool): (t: string) {
    if s != "" && strip(s[0]) then TrimStart(s[1..], strip) else s
  }

  function TrimEnd(s: string, strip: char -> bool): (t: string) {
    if s != "" && strip(s[|s| - 1]) then TrimEnd(s[..|s| - 1], strip) else s
  }

  function TrimBy(s: string, strip: char -> bool): string {
    TrimEnd(TrimStart(s, strip), strip)
  }

  function Trim(s: string): string {
    TrimBy(s, IsWhitespace)
  }

  predicate IsQuote(c: char) {
    c == '"'
  }

  function TrimQuotes(s: string): string {
    TrimBy(s, IsQuote)
  }

  /** Neither end of the text would be trimmed. */
  predicate Tight(s: string, strip: char -> bool) {
    s == "" || (!strip(s[0]) && !strip(s[|s| - 1]))
  }

  predicate AllOf(s: string, p: char -> bool) {
    forall c :: c in s ==> p(c)
  }

  lemma AllOfConcat(a: string, b: string, p: char -> bool)
    ensures AllOf(a + b, p) <==> AllOf(a, p) && AllOf(b, p)
  {
    assert forall c :: c in a + b <==> c in a || c in b;
  }

  lemma AllOfWeaken(s: string, p: char -> bool, q: char -> bool)
    requires AllOf(s, p) && forall c :: p(c) ==> q(c)
    ensures AllOf(s, q)
  {}

  lemma {:induction false} AllOfJoin(parts: seq<string>, sep: char, p: char -> bool)
    requires p(sep) && forall part :: part in parts ==> AllOf(part, p)
    ensures AllOf(Join(parts, sep), p)
  {
    if |parts| > 1 {
      AllOfJoin(parts[1..], sep, p);
      AllOfConcat(parts[0] + [sep], Join(parts[1..], sep), p);
      AllOfConcat(parts[0], [sep], p);
    }
  }

  lemma {:induction false} TrimEndLength(s: string, strip: char -> bool)
    ensures |TrimEnd(s, strip)| <= |s|
  {
    if s != "" {
      TrimEndLength(s[..|s| - 1], strip);
    }
  }

  /** Trimming never lengthens a text. */
  lemma {:induction false} TrimLength(s: string, strip: char -> bool)
    ensures |TrimBy(s, strip)| <= |s|
  {
    if s != "" && strip(s[0]) {
      TrimLength(s[1..], strip);
    } else {
      TrimEndLength(s, strip);
    }
  }

  /** Trimming leaves a tight text alone. */
  lemma TrimTight(s: string, strip: char -> bool)
    requires Tight(s, strip)
    ensures TrimBy(s, strip) == s
  {
    TrimPadded("", s, "", strip);
    assert "" + s + "" == s;
  }

  lemma {:induction false} TrimStartOff(left: string, s: string, strip: char -> bool)
    requires AllOf(left, strip)
    ensures TrimStart(left + s, strip) == TrimStart(s, strip)
  {
    if left == "" {
      assert left + s == s;
    } else {
      assert left[0] in left && (left + s)[1..] == left[1..] + s;
      TrimStartOff(left[1..], s, strip);
    }
  }

  lemma {:induction false} TrimEndOff(s: string, right: string, strip: char -> bool)
    requires AllOf(right, strip)
    ensures TrimEnd(s + right, strip) == TrimEnd(s, strip)
  {
    if right == "" {
      assert s + right == s;
    } else {
      assert right[|right| - 1] in right && (s + right)[..|s + right| - 1] == s + right[..|right| - 1];
      TrimEndOff(s, right[..|right| - 1], strip);
    }
  }

  /** Trimming at the end stops at a character that stays. */
  lemma {:induction false} TrimEndKeeps(a: string, b: string, strip: char -> bool)
    requires a != "" && !strip(a[|a| - 1])
    ensures TrimEnd(a + b, strip) == a + TrimEnd(b, strip)
  {
    if b == "" {
      assert a + b == a;
    } else if strip(b[|b| - 1]) {
      assert (a + b)[..|a + b| - 1] == a + b[..|b| - 1];
      TrimEndKeeps(a, b[..|b| - 1], strip);
    }
  }

  /** Trimming takes off exactly the padding around a tight text. */
  lemma TrimPadded(left: string, s: string, right: string, strip: char -> bool)
    requires AllOf(left, strip) && AllOf(right, strip) && Tight(s, strip)
    ensures TrimBy(left + s + right, strip) == s
  {
    assert left + s + right == left + (s + right);
    TrimStartOff(left, s + right, strip);
    if s == "" {
      assert s + right == right + "";
      TrimStartOff(right, "", strip);
    } else {
      TrimEndOff(s, right, strip);
    }
  }

  // ------------------------------------------------------------------------ case

  function LowerChar(c: char): char {
    if 'A' <= c <= 'Z' then c - 'A' + 'a' else c
  }

  function Lower(s: string): (t: string)
    ensures |t| == |s|
    ensures forall i :: 0 <= i < |s| ==> t[i] == LowerChar(s[i])
  {
    if s == "" then "" else [LowerChar(s[0])] + Lower(s[1..])
  }

  const UPPER_CASE := "ABCDEFGHIJKLMNOPQRSTUVWXYZ"
  const LOWER_CASE := "abcdefghijklmnopqrstuvwxyz"

  /** The twenty-six capitals become their small letters, and nothing else changes. */
  lemma LowerCharExactly(c: char)
    ensures forall i :: 0 <= i < 26 && c == UPPER_CASE[i] ==> LowerChar(c) == LOWER_CASE[i]
    ensures c !in UPPER_CASE ==> LowerChar(c) == c
  {
    if 'A' <= c <= 'Z' {
      assert UPPER_CASE[c as int - 'A' as int] == c;
    }
  }

  lemma LowerAlready(s: string)
    requires AllOf(s, c => !('A' <= c <= 'Z'))
    ensures Lower(s) == s
  {
    forall i | 0 <= i < |s| ensures Lower(s)[i] == s[i] {
      assert s[i] in s;
    }
  }

  predicate StartsWith(s: string, prefix: string) {
    prefix <= s
  }
}
