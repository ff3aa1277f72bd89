/** Splitting one rule line into field, operator and raw value:
    `line.split(/(=|>=|<=|>|<)/).map(s => s.trim())` destructured as
    `[field, operator, valueRaw]`. */
module Tokenizer {
  import opened Optional
  import opened Text

  /** Every alternative of the operator pattern starts with one of these. */
  predicate IsOperatorChar(c: char) {
    c == '=' || c == '>' || c == '<'
  }

  predicate NoOperatorChar(s: string) {
    forall k :: 0 <= k < |s| ==> !IsOperatorChar(s[k])
  }

  /** The texts the pattern's capture group can hold. */
  predicate IsOperator(t: string) {
    t == "=" || t == ">=" || t == "<=" || t == ">" || t == "<"
  }

  /** The alternation `=|>=|<=|>|<` tried at the start of `s`, alternatives in
      their written order: it matches exactly when `s` starts with an operator
      character, the match is a prefix of `s`, and a `>` or `<` directly
      followed by `=` is matched as the two-character operator. */
  function MatchAt(s: string): (m: Option<string>)
    ensures m.Some? <==> s != [] && IsOperatorChar(s[0])
    ensures m.Some? ==> IsOperator(m.value) && |m.value| <= |s| && s[..|m.value|] == m.value
    ensures m.Some? && (m.value == ">" || m.value == "<") ==> |s| == 1 || s[1] != '='
  {
    if s == [] then None
    else if s[0] == '=' then Some("=")
    else if s[0] == '>' && |s| >= 2 && s[1] == '=' then Some(">=")
    else if s[0] == '<' && |s| >= 2 && s[1] == '=' then Some("<=")
    else if s[0] == '>' then Some(">")
    else if s[0] == '<' then Some("<")
    else None
  }

  function Concat(pieces: seq<string>): string {
    if pieces == [] then [] else pieces[0] + Concat(pieces[1..])
  }

  /** Text piece, then any number of operator-and-text pairs. */
  predicate Alternating(pieces: seq<string>) {
    && |pieces| >= 1
    && NoOperatorChar(pieces[0])
    && (|pieces| == 1 || (|pieces| >= 3 && IsOperator(pieces[1]) && Alternating(pieces[2..])))
  }

  /** `s.split(/(=|>=|<=|>|<)/)`: the text between matches at even positions,
      the captured operators at odd positions. The pieces put together give
      `s` back, and the text pieces hold no operator character, so each match
      is the leftmost one after the previous. There is more than one piece
      exactly when `s` holds an operator character. */
  function SplitOnOperators(s: string): (pieces: seq<string>)
    ensures Concat(pieces) == s
    ensures |pieces| == 1 <==> NoOperatorChar(s)
    ensures Alternating(pieces)
    decreases |s|
  {
    if s == [] then [[]]
    else match MatchAt(s)
      case None =>
        var rest := SplitOnOperators(s[1..]);
        TextCase(s, rest);
        [[s[0]] + rest[0]] + rest[1..]
      case Some(op) =>
        var rest := SplitOnOperators(s[|op|..]);
        OperatorCase(s, op, rest);
        [[], op] + rest
  }

  /** A character that starts no operator joins the first piece of the
      split of the remaining text. */
  lemma TextCase(s: string, rest: seq<string>)
    requires s != [] && !IsOperatorChar(s[0])
    requires Concat(rest) == s[1..] && Alternating(rest)
    requires |rest| == 1 <==> NoOperatorChar(s[1..])
    ensures Concat([[s[0]] + rest[0]] + rest[1..]) == s
    ensures |[[s[0]] + rest[0]] + rest[1..]| == 1 <==> NoOperatorChar(s)
    ensures Alternating([[s[0]] + rest[0]] + rest[1..])
  {
    ConsTextConcat(s[0], rest);
    ConsTextAlternating(s[0], rest);
    NoOperatorCharTail(s);
  }

  /** An operator matched at the start opens an empty text piece and an
      operator piece before the split of the remaining text. */
  lemma OperatorCase(s: string, op: string, rest: seq<string>)
    requires MatchAt(s) == Some(op)
    requires Concat(rest) == s[|op|..] && Alternating(rest)
    ensures Concat([[], op] + rest) == s
    ensures |[[], op] + rest| != 1 && !NoOperatorChar(s)
    ensures Alternating([[], op] + rest)
  {
    ConsOperator(op, rest);
    assert s == op + s[|op|..];
  }

  lemma NoOperatorCharTail(s: string)
    requires s != [] && !IsOperatorChar(s[0])
    ensures NoOperatorChar(s) <==> NoOperatorChar(s[1..])
    ensures s == [s[0]] + s[1..]
  {
    assert forall k :: 1 <= k < |s| ==> s[k] == s[1..][k - 1];
  }

  lemma NoOperatorCharCons(c: char, t: string)
    requires !IsOperatorChar(c) && NoOperatorChar(t)
    ensures NoOperatorChar([c] + t)
  {
    var s := [c] + t;
    forall k | 0 <= k < |s| ensures !IsOperatorChar(s[k]) {
      if k > 0 {
        assert s[k] == t[k - 1];
      }
    }
  }

  /** A character that starts no operator joins the first text piece; the
      pieces still put together the text. */
  lemma ConsTextConcat(c: char, rest: seq<string>)
    requires |rest| >= 1
    ensures Concat([[c] + rest[0]] + rest[1..]) == [c] + Concat(rest)
  {
    var tail := rest[1..];
    ConcatCons([c] + rest[0], tail);
    ConcatCons(rest[0], tail);
    assert [rest[0]] + tail == rest;
    PrependAssoc(c, rest[0], Concat(tail));
  }

  lemma AfterPrefix(a: string, b: string, c: string)
    ensures (a + b + c)[|a|..] == b + c
  {
    assert a + b + c == a + (b + c);
  }

  lemma PrependAssoc(c: char, x: string, y: string)
    ensures [c] + x + y == [c] + (x + y)
  {
  }

  lemma ConcatCons(piece: string, pieces: seq<string>)
    ensures Concat([piece] + pieces) == piece + Concat(pieces)
  {
    assert ([piece] + pieces)[1..] == pieces;
  }

  /** ... and they still alternate. */
  lemma ConsTextAlternating(c: char, rest: seq<string>)
    requires !IsOperatorChar(c) && Alternating(rest)
    ensures Alternating([[c] + rest[0]] + rest[1..])
  {
    var first := [c] + rest[0];
    var pieces := [first] + rest[1..];
    assert pieces[0] == first && pieces[1..] == rest[1..];
    NoOperatorCharCons(c, rest[0]);
    if |rest| > 1 {
      assert pieces[1] == rest[1] && pieces[2..] == rest[2..];
    }
  }

  /** A matched operator opens an empty text piece and an operator piece. */
  lemma ConsOperator(op: string, rest: seq<string>)
    requires IsOperator(op) && Alternating(rest)
    ensures Concat([[], op] + rest) == op + Concat(rest)
    ensures Alternating([[], op] + rest)
  {
    var pieces := [[], op] + rest;
    assert pieces[1..] == [op] + rest && ([op] + rest)[1..] == rest;
    assert pieces[2..] == rest;
  }

  /** The destructured pieces. `OnlyField` is a line the pattern does not
      match: the split has one piece, so `operator` and `valueRaw` are
      `undefined`. */
  datatype RuleParts =
    | OnlyField(field: string)
    | Parts(field: string, operator: string, valueRaw: string)

  /** Tokenises one rule line. There is an operator exactly when the line
      holds `=`, `>` or `<`; the field is the trimmed text before the first
      of them and the raw value the trimmed text up to the next one, so
      neither holds an operator character. */
  function Tokenize(line: string): (t: RuleParts)
    ensures t.OnlyField? <==> NoOperatorChar(line)
    ensures t.OnlyField? ==> t.field == Trim(line)
    ensures t.Parts? ==> IsOperator(t.operator)
    ensures t.Parts? ==> NoOperatorChar(t.field) && Trimmed(t.field)
    ensures t.Parts? ==> NoOperatorChar(t.valueRaw) && Trimmed(t.valueRaw)
  {
    var pieces := SplitOnOperators(line);
    if |pieces| == 1 then
      assert pieces[0] == line by {
        assert pieces[1..] == [];
        assert Concat(pieces) == pieces[0] + Concat(pieces[1..]);
        assert pieces[0] + [] == pieces[0];
      }
      OnlyField(Trim(pieces[0]))
    else
      TrimOperator(pieces[1]);
      TrimKeepsText(pieces[0]);
      assert Alternating(pieces[2..]);
      assert pieces[2..][0] == pieces[2];
      TrimKeepsText(pieces[2]);
      Parts(Trim(pieces[0]), Trim(pieces[1]), Trim(pieces[2]))
  }

  lemma TrimKeepsText(s: string)
    requires NoOperatorChar(s)
    ensures NoOperatorChar(Trim(s))
  {
    var t := Trim(s);
    var i := TrimInside(s);
    forall k | 0 <= k < |t| ensures !IsOperatorChar(t[k]) {
      assert t[k] == s[i + k];
    }
  }

  lemma TrimOperator(op: string)
    requires IsOperator(op)
    ensures Trim(op) == op
  {
    assert IsOperatorChar(op[0]) && IsOperatorChar(op[|op| - 1]);
    TrimTrimmed(op);
  }

  /** The decomposition `Tokenize` finds is the only one: a field and a value
      free of operator characters, around an operator the pattern matches in
      full, with the value running up to the next operator character or the
      end of the line, tokenise to the trimmed field, that operator and the
      trimmed value, whatever follows. */
  lemma {:induction false} TokenizeDecomposition(field: string, op: string, value: string, rest: string)
    requires NoOperatorChar(field) && NoOperatorChar(value)
    requires MatchAt(op + value + rest) == Some(op)
    requires rest == [] || IsOperatorChar(rest[0])
    ensures Tokenize(field + op + value + rest) == Parts(Trim(field), op, Trim(value))
  {
    var tail := op + value + rest;
    assert field + op + value + rest == field + tail;
    SplitFromOperator(op, value, rest);
    SplitAfterText(field, tail);
    var pieces := SplitOnOperators(field + tail);
    var afterField := SplitOnOperators(tail);
    assert pieces[0] == field + afterField[0] == field + [] == field;
    assert pieces[1] == pieces[1..][0] == afterField[1..][0] == op;
    assert pieces[2] == pieces[1..][1] == afterField[1..][1] == value;
    TrimOperator(op);
  }

  /** From a matched operator to the next operator character: the operator,
      then the value as one piece. */
  lemma {:induction false} SplitFromOperator(op: string, value: string, rest: string)
    requires NoOperatorChar(value)
    requires MatchAt(op + value + rest) == Some(op)
    requires rest == [] || IsOperatorChar(rest[0])
    ensures |SplitOnOperators(op + value + rest)| >= 3
    ensures SplitOnOperators(op + value + rest)[0] == []
    ensures SplitOnOperators(op + value + rest)[1] == op
    ensures SplitOnOperators(op + value + rest)[2] == value
  {
    if rest != [] {
      SplitOpStep(rest);
    }
    SplitAfterText(value, rest);
    assert SplitOnOperators(value + rest)[0] == value + [];
    var s := op + value + rest;
    AfterPrefix(op, value, rest);
    SplitOpStep(s);
    assert SplitOnOperators(s)[2] == SplitOnOperators(s)[2..][0];
  }

  /** A matched operator at the front: an empty text piece, the operator,
      then the pieces of what follows it. */
  lemma SplitOpStep(s: string)
    requires MatchAt(s).Some?
    ensures |SplitOnOperators(s)| == |SplitOnOperators(s[|MatchAt(s).value|..])| + 2
    ensures SplitOnOperators(s)[0] == [] && SplitOnOperators(s)[1] == MatchAt(s).value
    ensures SplitOnOperators(s)[2..] == SplitOnOperators(s[|MatchAt(s).value|..])
  {
  }

  /** Text free of operator characters joins the first piece of what follows. */
  lemma {:induction false} SplitAfterText(text: string, s: string)
    requires NoOperatorChar(text)
    ensures |SplitOnOperators(text + s)| == |SplitOnOperators(s)|
    ensures SplitOnOperators(text + s)[0] == text + SplitOnOperators(s)[0]
    ensures SplitOnOperators(text + s)[1..] == SplitOnOperators(s)[1..]
  {
    var after := SplitOnOperators(s);
    if text == [] {
      assert [] + s == s;
    } else {
      var t := text + s;
      assert t[0] == text[0] && t[1..] == text[1..] + s;
      NoOperatorCharTail(text);
      SplitAfterText(text[1..], s);
      SplitTextStep(t);
      PrependAssoc(text[0], text[1..], after[0]);
      assert [text[0]] + text[1..] == text;
    }
  }

  /** A first character that starts no operator is glued to the first
      piece of the rest. */
  lemma SplitTextStep(s: string)
    requires s != [] && !IsOperatorChar(s[0])
    ensures |SplitOnOperators(s)| == |SplitOnOperators(s[1..])|
    ensures SplitOnOperators(s)[0] == [s[0]] + SplitOnOperators(s[1..])[0]
    ensures SplitOnOperators(s)[1..] == SplitOnOperators(s[1..])[1..]
  {
    var r := SplitOnOperators(s[1..]);
    assert MatchAt(s) == None;
    assert SplitOnOperators(s) == [[s[0]] + r[0]] + r[1..];
  }

  /** One rule per line: a field and a value free of operator characters
      around any operator tokenise to exactly those three parts, trimmed. So
      `x >= 10` gives `>=`, not `>` and a stray `=`. */
  lemma TokenizeRule(field: string, op: string, value: string)
    requires NoOperatorChar(field) && NoOperatorChar(value) && IsOperator(op)
    ensures Tokenize(field + op + value) == Parts(Trim(field), op, Trim(value))
  {
    assert op + value + [] == op + value;
    assert value != [] ==> !IsOperatorChar(value[0]);
    assert (op + value)[0] == op[0];
    assert |op| == 2 ==> (op + value)[1] == op[1];
    assert |op| == 1 && value != [] ==> (op + value)[1] == value[0];
    assert (op + value)[..|op|] == op;
    TokenizeDecomposition(field, op, value, []);
    assert field + op + value + [] == field + op + value;
  }

  /** `brand != Samsung`: `!=` is not an operator of the pattern. The `=` is
      the operator and the `!` stays at the end of the field. */
  lemma TokenizeNotEqual(field: string, value: string)
    requires NoOperatorChar(field) && NoOperatorChar(value)
    ensures Tokenize(field + "!=" + value) == Parts(Trim(field + "!"), "=", Trim(value))
  {
    var bang := field + "!";
    assert NoOperatorChar(bang) by {
      assert forall k :: 0 <= k < |field| ==> bang[k] == field[k];
      assert bang[|field|] == '!';
    }
    TokenizeRule(bang, "=", value);
    NotEqualText(field, value);
  }

  lemma NotEqualText(field: string, value: string)
    ensures field + "!" + "=" + value == field + "!=" + value
  {
    assert "!" + "=" == "!=";
  }
}
