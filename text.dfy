/** Line handling for segment rule text: the JavaScript string operations
    `trim()`, `split('\n')` and `filter(Boolean)` that turn the request's
    rule text into rule lines. */
module Text {

  /** The characters `String.prototype.trim` removes: ECMAScript WhiteSpace
      (tab, vertical tab, form feed, space, no-break space, byte order mark
      and the space separators) and LineTerminator (line feed, carriage
      return, line and paragraph separators). */
  predicate IsWhitespace(c: char) {
    || c == '\t' || c == '\n' || c == '\U{000B}' || c == '\U{000C}' || c == '\r'
    || c == ' ' || c == '\U{00A0}' || c == '\U{1680}'
    || ('\U{2000}' <= c <= '\U{200A}')
    || c == '\U{2028}' || c == '\U{2029}' || c == '\U{202F}' || c == '\U{205F}'
    || c == '\U{3000}' || c == '\U{FEFF}'
  }

  predicate AllWhitespace(s: string) {
    forall k :: 0 <= k < |s| ==> IsWhitespace(s[k])
  }

  /** Neither end of `s` is whitespace. */
  predicate Trimmed(s: string) {
    s == [] || (!IsWhitespace(s[0]) && !IsWhitespace(s[|s| - 1]))
  }

  /** Drops the leading whitespace: the result is a suffix of `s`, what was
      dropped is all whitespace, and the result does not start with any. */
  function TrimStart(s: string): (r: string)
    ensures |r| <= |s| && r == s[|s| - |r|..]
    ensures forall k {:trigger IsWhitespace(s[k])} :: 0 <= k < |s| - |r| ==> IsWhitespace(s[k])
    ensures r == [] || !IsWhitespace(r[0])
  {
    if |s| > 0 && IsWhitespace(s[0]) then
      var r := TrimStart(s[1..]);
      assert s[1..][|s| - 1 - |r|..] == s[|s| - |r|..];
      assert forall k :: 1 <= k < |s| ==> s[k] == s[1..][k - 1];
      r
    else s
  }

  /** Drops the trailing whitespace: the result is a prefix of `s`, what was
      dropped is all whitespace, and the result does not end with any. */
  function TrimEnd(s: string): (r: string)
    ensures |r| <= |s| && r == s[..|r|]
    ensures forall k {:trigger IsWhitespace(s[k])} :: |r| <= k < |s| ==> IsWhitespace(s[k])
    ensures r == [] || !IsWhitespace(r[|r| - 1])
  {
    if |s| > 0 && IsWhitespace(s[|s| - 1]) then
      var r := TrimEnd(s[..|s| - 1]);
      assert s[..|s| - 1][..|r|] == s[..|r|];
      assert forall k :: 0 <= k < |s| - 1 ==> s[k] == s[..|s| - 1][k];
      r
    else s
  }

  /** `s.trim()`. */
  function Trim(s: string): (r: string)
    ensures Trimmed(r)
    ensures r == [] <==> AllWhitespace(s)
  {
    var t := TrimStart(s);
    var r := TrimEnd(t);
    assert r == [] ==> t == [];
    assert |r| > 0 ==> r[0] == t[0];
    r
  }

  /** Trimming is determined by the text between the surrounding whitespace:
      whatever whitespace surrounds a trimmed `core`, `trim()` returns `core`. */
  lemma {:induction false} TrimSurrounded(before: string, core: string, after: string)
    requires AllWhitespace(before) && AllWhitespace(after) && Trimmed(core)
    ensures Trim(before + core + after) == core
  {
    assert before + core + after == before + (core + after);
    if core == [] {
      assert core + after == after;
      WhitespaceConcat(before, after);
    } else {
      TrimStartPrefix(before, core + after);
      TrimEndSuffix(core, after);
    }
  }

  lemma WhitespaceConcat(a: string, b: string)
    requires AllWhitespace(a) && AllWhitespace(b)
    ensures AllWhitespace(a + b)
  {
    assert forall i :: 0 <= i < |a + b| ==> (a + b)[i] == if i < |a| then a[i] else b[i - |a|];
  }

  lemma {:induction false} TrimStartPrefix(before: string, rest: string)
    requires AllWhitespace(before)
    requires rest == [] || !IsWhitespace(rest[0])
    ensures TrimStart(before + rest) == rest
  {
    if before != [] {
      assert (before + rest)[1..] == before[1..] + rest;
      TrimStartPrefix(before[1..], rest);
    }
  }

  lemma {:induction false} TrimEndSuffix(core: string, after: string)
    requires AllWhitespace(after)
    requires core == [] || !IsWhitespace(core[|core| - 1])
    ensures TrimEnd(core + after) == core
  {
    if after != [] {
      var s := core + after;
      assert s[..|s| - 1] == core + after[..|after| - 1];
      TrimEndSuffix(core, after[..|after| - 1]);
    } else {
      assert core + after == core;
    }
  }

  /** What `trim()` keeps is a stretch of the original text, starting at
      `start`. */
  lemma TrimInside(s: string) returns (start: nat)
    ensures start + |Trim(s)| <= |s|
    ensures forall k :: 0 <= k < |Trim(s)| ==> Trim(s)[k] == s[start + k]
  {
    var t := TrimStart(s);
    start := |s| - |t|;
    var r := Trim(s);
    assert r == TrimEnd(t);
    forall k | 0 <= k < |r|
      ensures r[k] == s[start + k]
    {
      assert r[k] == t[k];
    }
  }

  lemma TrimTrimmed(s: string)
    requires Trimmed(s)
    ensures Trim(s) == s
  {
    assert TrimStart(s) == s;
    assert TrimEnd(s) == s;
  }

  /** Glues `parts` back together with `sep` between neighbours. */
  function Join(parts: seq<string>, sep: char): string
    requires |parts| >= 1
  {
    if |parts| == 1 then parts[0] else parts[0] + [sep] + Join(parts[1..], sep)
  }

  /** `s.split(sep)` for a one-character separator: at least one piece, no
      piece holds the separator, and joining the pieces gives `s` back. */
  function Split(s: string, sep: char): (parts: seq<string>)
    ensures |parts| >= 1
    ensures forall k :: 0 <= k < |parts| ==> sep !in parts[k]
    ensures Join(parts, sep) == s
  {
    if s == [] then [[]]
    else
      var rest := Split(s[1..], sep);
      if s[0] == sep then
        assert s == [] + [sep] + Join(rest, sep);
        [[]] + rest
      else
        var parts := [[s[0]] + rest[0]] + rest[1..];
        assert parts[1..] == rest[1..];
        assert s == [s[0]] + s[1..];
        parts
  }

  /** Splitting undoes joining, for pieces free of the separator. */
  lemma {:induction false} SplitJoin(parts: seq<string>, sep: char)
    requires |parts| >= 1
    requires forall k :: 0 <= k < |parts| ==> sep !in parts[k]
    ensures Split(Join(parts, sep), sep) == parts
  {
    if |parts| == 1 {
      SplitLast(parts[0], sep);
    } else {
      SplitJoin(parts[1..], sep);
      SplitPiece(parts[0], Join(parts[1..], sep), sep);
      assert [parts[0]] + parts[1..] == parts;
    }
  }

  /** A separator-free `piece` in front of `[sep] + rest` becomes one whole
      piece in front of the pieces of `rest`. */
  lemma {:induction false} SplitPiece(piece: string, rest: string, sep: char)
    requires sep !in piece
    ensures Split(piece + [sep] + rest, sep) == [piece] + Split(rest, sep)
  {
    var s := piece + [sep] + rest;
    if piece != [] {
      assert s[0] == piece[0] && s[0] != sep;
      assert s[1..] == piece[1..] + [sep] + rest;
      SplitPiece(piece[1..], rest, sep);
      var tail := Split(s[1..], sep);
      assert tail[0] == piece[1..] && tail[1..] == Split(rest, sep);
      assert [s[0]] + tail[0] == piece;
    } else {
      assert s == [sep] + rest && s[1..] == rest;
    }
  }

  /** With nothing after it, a separator-free piece is the only piece. */
  lemma {:induction false} SplitLast(piece: string, sep: char)
    requires sep !in piece
    ensures Split(piece, sep) == [piece]
  {
    if piece != [] {
      SplitLast(piece[1..], sep);
      assert [piece[0]] + piece[1..] == piece;
    }
  }

  /** `.map(line => line.trim())`. */
  function TrimEach(parts: seq<string>): (r: seq<string>)
    ensures |r| == |parts|
    ensures forall k :: 0 <= k < |r| ==> r[k] == Trim(parts[k]) && Trimmed(r[k])
  {
    seq(|parts|, k requires 0 <= k < |parts| => Trim(parts[k]))
  }

  /** `.filter(Boolean)` on strings: keeps the non-empty ones, in order. */
  function DropEmpty(parts: seq<string>): (r: seq<string>)
    ensures |r| <= |parts|
    ensures forall k :: 0 <= k < |r| ==> r[k] != [] && r[k] in parts
  {
    if parts == [] then []
    else if parts[0] == [] then DropEmpty(parts[1..])
    else [parts[0]] + DropEmpty(parts[1..])
  }

  /** The rule lines of `text`: `text.split('\n').map(trim).filter(Boolean)`. */
  function Lines(text: string): (lines: seq<string>)
    ensures forall k :: 0 <= k < |lines| ==> lines[k] != [] && Trimmed(lines[k]) && '\n' !in lines[k]
  {
    var pieces := Split(text, '\n');
    var lines := DropEmpty(TrimEach(pieces));
    forall k | 0 <= k < |lines| ensures '\n' !in lines[k] {
      NoNewlineAfterTrim(pieces, lines[k]);
    }
    lines
  }

  /** A newline splits the text in two: the rule lines of the whole are
      those of the part before it followed by those of the part after it,
      so every line keeps its place and none is lost or repeated. */
  lemma LinesConcat(a: string, b: string)
    ensures Lines(a + ['\n'] + b) == Lines(a) + Lines(b)
  {
    var pa, pb := Split(a, '\n'), Split(b, '\n');
    SplitConcat(a, b, '\n');
    TrimEachConcat(pa, pb);
    DropEmptyConcat(TrimEach(pa), TrimEach(pb));
  }

  /** Text without a newline has no rule line when it is blank, and
      otherwise the one line that is its trimmed text. */
  lemma LinesSingle(s: string)
    requires '\n' !in s
    ensures Lines(s) == if AllWhitespace(s) then [] else [Trim(s)]
  {
    SplitLast(s, '\n');
    assert TrimEach([s]) == [Trim(s)];
    assert [Trim(s)][1..] == [];
  }

  /** `split` of two texts joined by the separator: the pieces of the first,
      then those of the second. */
  lemma {:induction false} SplitConcat(a: string, b: string, sep: char)
    ensures Split(a + [sep] + b, sep) == Split(a, sep) + Split(b, sep)
    decreases |a|
  {
    var s := a + [sep] + b;
    if a == [] {
      assert s == [sep] + b;
      SplitStep(s, sep);
      assert s[1..] == b;
    } else {
      assert s[0] == a[0] && s[1..] == a[1..] + [sep] + b;
      SplitConcat(a[1..], b, sep);
      SplitConcatStep(a, b, sep, s);
    }
  }

  /** The step of `SplitConcat` for a non-empty first part. */
  lemma SplitConcatStep(a: string, b: string, sep: char, s: string)
    requires a != [] && s != [] && s[0] == a[0]
    requires Split(s[1..], sep) == Split(a[1..], sep) + Split(b, sep)
    ensures Split(s, sep) == Split(a, sep) + Split(b, sep)
  {
    SplitStep(s, sep);
    SplitStep(a, sep);
    if a[0] != sep {
      PieceJoinsFirst(a[0], Split(a[1..], sep), Split(b, sep), Split(s, sep), Split(a, sep));
    } else {
      EmptyPieceFirst(Split(a[1..], sep), Split(b, sep), Split(s, sep), Split(a, sep));
    }
  }

  lemma PieceJoinsFirst(c: char, r: seq<string>, q: seq<string>, whole: seq<string>, first: seq<string>)
    requires |r| >= 1
    requires whole == [[c] + (r + q)[0]] + (r + q)[1..]
    requires first == [[c] + r[0]] + r[1..]
    ensures whole == first + q
  {
    assert (r + q)[0] == r[0] && (r + q)[1..] == r[1..] + q;
  }

  lemma EmptyPieceFirst(r: seq<string>, q: seq<string>, whole: seq<string>, first: seq<string>)
    requires whole == [[]] + (r + q) && first == [[]] + r
    ensures whole == first + q
  {
  }

  /** One step of `split`, as its definition takes it. */
  lemma SplitStep(s: string, sep: char)
    requires s != []
    ensures s[0] == sep ==> Split(s, sep) == [[]] + Split(s[1..], sep)
    ensures s[0] != sep ==> Split(s, sep) == [[s[0]] + Split(s[1..], sep)[0]] + Split(s[1..], sep)[1..]
  {
  }

  lemma TrimEachConcat(x: seq<string>, y: seq<string>)
    ensures TrimEach(x + y) == TrimEach(x) + TrimEach(y)
  {
    assert forall k :: 0 <= k < |x + y| ==> (x + y)[k] == if k < |x| then x[k] else y[k - |x|];
  }

  /** `filter(Boolean)` works piece by piece and keeps the order. */
  lemma {:induction false} DropEmptyConcat(x: seq<string>, y: seq<string>)
    ensures DropEmpty(x + y) == DropEmpty(x) + DropEmpty(y)
  {
    if x == [] {
      assert x + y == y;
    } else {
      assert (x + y)[0] == x[0] && (x + y)[1..] == x[1..] + y;
      DropEmptyConcat(x[1..], y);
    }
  }

  lemma NoNewlineAfterTrim(pieces: seq<string>, line: string)
    requires forall k :: 0 <= k < |pieces| ==> '\n' !in pieces[k]
    requires line in TrimEach(pieces)
    ensures '\n' !in line
  {
    var k :| 0 <= k < |pieces| && TrimEach(pieces)[k] == line;
    TrimKeepsAbsent(pieces[k], '\n');
  }

  /** A character missing from `s` is missing from `s.trim()`. */
  lemma TrimKeepsAbsent(s: string, c: char)
    requires c !in s
    ensures c !in Trim(s)
  {
    var i := TrimInside(s);
    forall j | 0 <= j < |Trim(s)| ensures Trim(s)[j] != c {
      assert Trim(s)[j] == s[i + j];
    }
  }

  /** Text made only of whitespace and newlines has no rule lines, and text
      with any other character has at least one. */
  lemma {:induction false} NoLinesIffBlank(text: string)
    ensures Lines(text) == [] <==> AllWhitespace(text)
  {
    var pieces := Split(text, '\n');
    JoinBlank(pieces);
    DropEmptyNone(TrimEach(pieces));
    TrimEachBlank(pieces);
  }

  lemma {:induction false} JoinBlank(parts: seq<string>)
    requires |parts| >= 1
    ensures AllWhitespace(Join(parts, '\n')) <==> forall k :: 0 <= k < |parts| ==> AllWhitespace(parts[k])
  {
    if |parts| > 1 {
      JoinBlank(parts[1..]);
      var j := Join(parts[1..], '\n');
      var s := parts[0] + ['\n'] + j;
      assert forall i :: 0 <= i < |parts[0]| ==> s[i] == parts[0][i];
      assert forall i :: 0 <= i < |j| ==> s[|parts[0]| + 1 + i] == j[i];
      assert forall k :: 1 <= k < |parts| ==> parts[k] == parts[1..][k - 1];
    }
  }

  lemma {:induction false} DropEmptyNone(parts: seq<string>)
    ensures DropEmpty(parts) == [] <==> forall k :: 0 <= k < |parts| ==> parts[k] == []
  {
    if parts != [] {
      DropEmptyNone(parts[1..]);
      assert forall k :: 1 <= k < |parts| ==> parts[k] == parts[1..][k - 1];
    }
  }

  /** `filter(Boolean)` keeps exactly the non-empty strings. */
  lemma {:induction false} DropEmptyMembers(parts: seq<string>, x: string)
    ensures x in DropEmpty(parts) <==> x in parts && x != []
  {
    if parts != [] {
      DropEmptyMembers(parts[1..], x);
      assert parts == [parts[0]] + parts[1..];
    }
  }

  lemma TrimEachBlank(parts: seq<string>)
    ensures (forall k :: 0 <= k < |parts| ==> TrimEach(parts)[k] == [])
       <==> (forall k :: 0 <= k < |parts| ==> AllWhitespace(parts[k]))
  {
    assert forall k :: 0 <= k < |parts| ==> TrimEach(parts)[k] == Trim(parts[k]);
  }

  /** Rule lines written one per line come back unchanged: for non-empty,
      trimmed lines without newlines, `Lines` inverts joining them with
      `'\n'`. */
  lemma {:induction false} LinesOfJoin(lines: seq<string>)
    requires |lines| >= 1
    requires forall k :: 0 <= k < |lines| ==> lines[k] != [] && Trimmed(lines[k]) && '\n' !in lines[k]
    ensures Lines(Join(lines, '\n')) == lines
  {
    SplitJoin(lines, '\n');
    KeepTrimmedLines(lines);
  }

  /** A trimmed, non-empty line without a newline is its own only line. */
  lemma SingleLine(line: string)
    requires line != [] && Trimmed(line) && '\n' !in line
    ensures Lines(line) == [line]
  {
    assert Join([line], '\n') == line;
    LinesOfJoin([line]);
  }

  lemma KeepTrimmedLines(lines: seq<string>)
    requires forall k :: 0 <= k < |lines| ==> lines[k] != [] && Trimmed(lines[k])
    ensures DropEmpty(TrimEach(lines)) == lines
  {
    forall k | 0 <= k < |lines| ensures TrimEach(lines)[k] == lines[k] {
      TrimTrimmed(lines[k]);
    }
    assert TrimEach(lines) == lines;
    KeepNonEmpty(lines);
  }

  lemma {:induction false} KeepNonEmpty(parts: seq<string>)
    requires forall k :: 0 <= k < |parts| ==> parts[k] != []
    ensures DropEmpty(parts) == parts
  {
    if parts != [] {
      assert forall k :: 0 <= k < |parts| - 1 ==> parts[1..][k] == parts[k + 1];
      KeepNonEmpty(parts[1..]);
      assert [parts[0]] + parts[1..] == parts;
    }
  }
}
