/** The query document a segment compiles to, and the fold that builds it
    from the rule lines: each accepted line sets its own field's entry, and
    a line without an operator rejects the whole text. */
module Query {
  import opened Optional
  import opened Text
  import opened Tokenizer
  import opened Coercion

  /** A field's entry in the query document: `=` stores the bare value,
      the comparisons store `{$gt: v}`, `{$lt: v}`, `{$gte: v}` or
      `{$lte: v}`. */
  datatype Cond = Eq(v: Value) | Gt(v: Value) | Lt(v: Value) | Ge(v: Value) | Le(v: Value)

  /** The query document handed to the store, keyed by field name. */
  type QueryDoc = map<string, Cond>

  /** The `switch (operator)`: each of the five operator texts has its
      case, anything else falls to `default` (`None`). */
  function CondFor(operator: string, value: Value): (c: Option<Cond>)
    ensures c.Some? <==> IsOperator(operator)
    ensures c.Some? ==> c.value.v == value
    ensures c.Some? ==> (c.value.Eq? <==> operator == "=")
    ensures c.Some? ==> (c.value.Gt? <==> operator == ">")
    ensures c.Some? ==> (c.value.Lt? <==> operator == "<")
    ensures c.Some? ==> (c.value.Ge? <==> operator == ">=")
    ensures c.Some? ==> (c.value.Le? <==> operator == "<=")
  {
    if operator == "=" then Some(Eq(value))
    else if operator == ">" then Some(Gt(value))
    else if operator == "<" then Some(Lt(value))
    else if operator == ">=" then Some(Ge(value))
    else if operator == "<=" then Some(Le(value))
    else None
  }

  /** The outcome of compiling the rule lines: the finished query, or the
      message of the 400 answer. */
  datatype Compiled = Rejected(error: string) | Built(query: QueryDoc)

  /** The message for a line the switch does not accept; `operator` is
      `undefined` for a line with no operator. */
  function UnsupportedMessage(operator: Option<string>): string {
    match operator
    case None => "Unsupported operator: undefined"
    case Some(op) => "Unsupported operator: " + op
  }

  /** What one line does to the query: set `field` to `cond`, or end the
      compilation with `error`. */
  datatype Step = Accept(field: string, cond: Cond) | Reject(error: string)

  /** One pass of the loop body: tokenise, coerce the raw value, and go
      through the switch. A line is accepted exactly when it holds an
      operator character; since `Tokenize` only ever yields one of the five
      operators, the `default` case is reached only for a line without one,
      whose operator is `undefined`. */
  function ReadLine(line: string): (s: Step)
    ensures s.Accept? <==> !NoOperatorChar(line)
    ensures s.Reject? ==> s.error == "Unsupported operator: undefined"
    ensures s.Accept? ==> s.cond.v == Coerce(Tokenize(line).valueRaw)
  {
    match Tokenize(line)
    case OnlyField(_) => Reject(UnsupportedMessage(None))
    case Parts(field, operator, raw) =>
      match CondFor(operator, Coerce(raw))
      case None => Reject(UnsupportedMessage(Some(operator)))
      case Some(c) => Accept(field, c)
  }

  /** The steps of the lines, in order. */
  function Steps(lines: seq<string>): (steps: seq<Step>)
    ensures |steps| == |lines|
    ensures forall k :: 0 <= k < |lines| ==> steps[k] == ReadLine(lines[k])
  {
    seq(|lines|, k requires 0 <= k < |lines| => ReadLine(lines[k]))
  }

  /** The loop over the lines' steps, from a partly built query: each step
      in turn sets its field's entry; the first rejecting step ends the
      compilation with its message. */
  function CompileSteps(query: QueryDoc, steps: seq<Step>): (r: Compiled)
    ensures r.Built? ==> query.Keys <= r.query.Keys
    decreases |steps|
  {
    if steps == [] then Built(query)
    else match steps[0]
      case Reject(error) => Rejected(error)
      case Accept(field, c) => CompileSteps(query[field := c], steps[1..])
  }

  /** One turn of the fold, taken at position `i`. */
  lemma CompileStepsAt(query: QueryDoc, steps: seq<Step>, i: nat)
    requires i < |steps|
    ensures CompileSteps(query, steps[i..]) == match steps[i]
      case Reject(error) => Rejected(error)
      case Accept(field, c) => CompileSteps(query[field := c], steps[i + 1..])
  {
    assert steps[i..][1..] == steps[i + 1..];
  }

  /** Compiling the rule text: its lines folded into the empty query. */
  function Compile(rules: string): (r: Compiled)
    ensures r.Built? <==> forall k :: 0 <= k < |Lines(rules)| ==> !NoOperatorChar(Lines(rules)[k])
    ensures r.Rejected? ==> r.error == "Unsupported operator: undefined"
  {
    CompileOutcome(Lines(rules));
    CompileSteps(map[], Steps(Lines(rules)))
  }

  predicate AllAccepted(steps: seq<Step>) {
    forall k :: 0 <= k < |steps| ==> steps[k].Accept?
  }

  /** The fold is built exactly when every step accepts; otherwise its
      message is that of the first rejecting step. */
  lemma {:induction false} CompileStepsOutcome(query: QueryDoc, steps: seq<Step>)
    ensures CompileSteps(query, steps).Built? <==> AllAccepted(steps)
    ensures CompileSteps(query, steps).Rejected? ==>
      exists k :: 0 <= k < |steps| && steps[k] == Reject(CompileSteps(query, steps).error)
        && AllAccepted(steps[..k])
    decreases |steps|
  {
    if steps != [] {
      assert steps[..0] == [];
      match steps[0]
      case Reject(_) =>
      case Accept(field, c) =>
        var rest := steps[1..];
        CompileStepsOutcome(query[field := c], rest);
        assert forall k :: 1 <= k < |steps| ==> steps[k] == rest[k - 1];
        if CompileSteps(query, steps).Rejected? {
          var k :| 0 <= k < |rest| && rest[k] == Reject(CompileSteps(query, steps).error)
            && AllAccepted(rest[..k]);
          assert steps[..k + 1] == [steps[0]] + rest[..k];
          assert steps[k + 1] == rest[k];
        }
    }
  }

  /** Reference reading of the fold, scanning backwards: the entry for
      `field` is the one of the last step that sets it. */
  function LastRule(steps: seq<Step>, field: string): Option<Cond> {
    if steps == [] then None
    else match steps[|steps| - 1]
      case Accept(f, c) => if f == field then Some(c) else LastRule(steps[..|steps| - 1], field)
      case Reject(_) => LastRule(steps[..|steps| - 1], field)
  }

  function Get(query: QueryDoc, field: string): Option<Cond> {
    if field in query then Some(query[field]) else None
  }

  /** What the fold builds: each field's entry is that of the last step
      setting it, and a field no step sets keeps its entry from the starting
      query. So a line changes only its own field's entry, and a later rule
      on a field replaces the earlier one. */
  lemma {:induction false} CompileStepsEntries(query: QueryDoc, steps: seq<Step>, field: string)
    requires CompileSteps(query, steps).Built?
    ensures Get(CompileSteps(query, steps).query, field)
      == if LastRule(steps, field).Some? then LastRule(steps, field) else Get(query, field)
    decreases |steps|
  {
    if steps != [] {
      match steps[0]
      case Accept(f, c) =>
        CompileStepsEntries(query[f := c], steps[1..], field);
        LastRuleFirst(steps, field);
    }
  }

  /** Splitting off the first step: the last rule on `field` is the last one
      in the remaining steps, or else the first step's if it sets `field`. */
  lemma {:induction false} LastRuleFirst(steps: seq<Step>, field: string)
    requires steps != []
    ensures LastRule(steps, field)
      == if LastRule(steps[1..], field).Some? then LastRule(steps[1..], field)
         else match steps[0]
           case Accept(f, c) => if f == field then Some(c) else None
           case Reject(_) => None
    decreases |steps|
  {
    if |steps| > 1 {
      var init := steps[..|steps| - 1];
      LastRuleFirst(init, field);
      assert init[1..] == steps[1..][..|steps[1..]| - 1];
      assert init[0] == steps[0];
    }
  }

  /** No step sets `field`: no rule for it. */
  lemma {:induction false} LastRuleNone(steps: seq<Step>, field: string)
    requires forall k :: 0 <= k < |steps| ==> steps[k].Accept? ==> steps[k].field != field
    ensures LastRule(steps, field) == None
  {
    if steps != [] {
      var init := steps[..|steps| - 1];
      assert forall k :: 0 <= k < |init| ==> init[k] == steps[k];
      LastRuleNone(init, field);
    }
  }

  /** When every rejecting step carries the same message, a refused
      compilation carries it too. */
  lemma {:induction false} CompileStepsMessage(query: QueryDoc, steps: seq<Step>, message: string)
    requires forall k :: 0 <= k < |steps| ==> steps[k].Reject? ==> steps[k].error == message
    ensures CompileSteps(query, steps).Rejected? ==> CompileSteps(query, steps).error == message
    decreases |steps|
  {
    if steps != [] && steps[0].Accept? {
      assert forall k :: 1 <= k < |steps| ==> steps[k] == steps[1..][k - 1];
      CompileStepsMessage(query[steps[0].field := steps[0].cond], steps[1..], message);
    }
  }

  /** Compiling the lines is refused exactly when one of them has no `=`,
      `<` or `>`, and the refusal always reads `Unsupported operator:
      undefined`. */
  lemma CompileOutcome(lines: seq<string>)
    ensures CompileSteps(map[], Steps(lines)).Built? <==> forall k :: 0 <= k < |lines| ==> !NoOperatorChar(lines[k])
    ensures CompileSteps(map[], Steps(lines)).Rejected? ==>
      CompileSteps(map[], Steps(lines)).error == "Unsupported operator: undefined"
  {
    var steps := Steps(lines);
    StepsOutcomes(lines);
    CompileStepsOutcome(map[], steps);
    CompileStepsMessage(map[], steps, "Unsupported operator: undefined");
  }

  /** Line by line: a step accepts exactly when its line has an operator
      character, and a rejecting step carries the `undefined` message. */
  lemma StepsOutcomes(lines: seq<string>)
    ensures AllAccepted(Steps(lines)) <==> forall k :: 0 <= k < |lines| ==> !NoOperatorChar(lines[k])
    ensures forall k :: 0 <= k < |lines| ==> Steps(lines)[k].Reject? ==>
      Steps(lines)[k].error == "Unsupported operator: undefined"
  {
    var steps := Steps(lines);
    forall k | 0 <= k < |lines|
      ensures steps[k].Accept? <==> !NoOperatorChar(lines[k])
      ensures steps[k].Reject? ==> steps[k].error == "Unsupported operator: undefined"
    {
      var s := ReadLine(lines[k]);
      assert steps[k] == s;
    }
  }

  /** Rule text that is empty or only whitespace has no lines and compiles
      to the empty query, which matches every product. */
  lemma CompileBlank(rules: string)
    requires AllWhitespace(rules)
    ensures Compile(rules) == Built(map[])
  {
    NoLinesIffBlank(rules);
  }

  /** Compiling lines that end with a rule on `field`: that last rule's
      entry is the field's, whatever came before, so `price > 100` followed
      by `price < 500` keeps only the `<` entry. */
  lemma LastLineWins(lines: seq<string>, field: string, c: Cond)
    requires CompileSteps(map[], Steps(lines)).Built?
    requires lines != [] && ReadLine(lines[|lines| - 1]) == Accept(field, c)
    ensures Get(CompileSteps(map[], Steps(lines)).query, field) == Some(c)
  {
    var steps := Steps(lines);
    assert steps[|lines| - 1] == Accept(field, c);
    assert LastRule(steps, field) == Some(c);
    CompileStepsEntries(map[], steps, field);
  }

  /** A field is in the built query exactly when some step sets it or it
      was there to begin with. */
  lemma {:induction false} CompileStepsPresence(query: QueryDoc, steps: seq<Step>, field: string)
    requires CompileSteps(query, steps).Built?
    ensures field in CompileSteps(query, steps).query <==>
      field in query || exists k :: 0 <= k < |steps| && steps[k].Accept? && steps[k].field == field
  {
    CompileStepsEntries(query, steps, field);
    if LastRule(steps, field).Some? {
      LastRuleFound(steps, field);
    } else {
      forall k | 0 <= k < |steps| && steps[k].Accept?
        ensures steps[k].field != field
      {
        if steps[k].field == field {
          LastRuleSome(steps, k);
        }
      }
    }
  }

  /** A step that sets `field` leaves a rule for it. */
  lemma {:induction false} LastRuleSome(steps: seq<Step>, k: nat)
    requires k < |steps| && steps[k].Accept?
    ensures LastRule(steps, steps[k].field).Some?
  {
    if k < |steps| - 1 {
      var init := steps[..|steps| - 1];
      assert init[k] == steps[k];
      LastRuleSome(init, k);
    }
  }

  /** A rule found for `field` comes from a step that sets it. */
  lemma {:induction false} LastRuleFound(steps: seq<Step>, field: string)
    requires LastRule(steps, field).Some?
    ensures exists k :: 0 <= k < |steps| && steps[k] == Accept(field, LastRule(steps, field).value)
  {
    var last := steps[|steps| - 1];
    if !(last.Accept? && last.field == field) {
      var init := steps[..|steps| - 1];
      LastRuleFound(init, field);
      var k :| 0 <= k < |init| && init[k] == Accept(field, LastRule(init, field).value);
      assert steps[k] == init[k];
    }
  }
}
