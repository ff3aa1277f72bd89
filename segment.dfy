/** The segment-evaluation handler: check the `rules` field of the request
    body, compile the rule lines into a query document, send it to the
    product collection and answer 400, 200 or 500. */
module Segment {
  import opened Optional
  import opened Text
  import opened Tokenizer
  import opened Coercion
  import opened Query

  /** A stored product as the collection returns it. */
  type Product = map<string, Value>

  /** What the collection does with one query: the matching products, or a
      failure (a lost connection, a query it refuses). */
  datatype StoreReply = Found(products: seq<Product>) | Failed(reason: string)

  /** The product collection, seen from the handler. Which products match a
      query is the database's business and is given as `answer`; the model
      keeps the log of queries sent. */
  class ProductStore {
    const answer: QueryDoc -> StoreReply
    var finds: seq<QueryDoc>

    constructor (answer: QueryDoc -> StoreReply)
      ensures this.answer == answer && finds == []
    {
      this.answer := answer;
      finds := [];
    }

    /** `Product.find(query)`. */
    method Find(query: QueryDoc) returns (reply: StoreReply)
      modifies this
      ensures finds == old(finds) + [query]
      ensures reply == answer(query)
    {
      finds := finds + [query];
      reply := answer(query);
    }
  }

  /** The `rules` field of the parsed request body: absent (or `null`), a
      string, or any other JSON value. */
  datatype Body = NoRules | RulesText(text: string) | RulesOther

  datatype Response =
    | BadRequest(error: string)
    | Ok(products: seq<Product>)
    | ServerError(error: string)

  function Status(r: Response): (code: int)
    ensures code == 400 || code == 200 || code == 500
  {
    match r
    case BadRequest(_) => 400
    case Ok(_) => 200
    case ServerError(_) => 500
  }

  const GuardMessage := "Rules must be a plain text string"
  const FailureMessage := "Failed to evaluate segment"

  /** One request as a whole: the response and the queries sent to the
      collection. */
  datatype Exchange = Exchange(response: Response, sent: seq<QueryDoc>)

  /** What the handler does with a request body. At most one query reaches
      the collection, and one does exactly when the answer is not 400; it is
      the query compiled from the rule text. A 200 carries the products the
      collection found, a 500 happens only when the collection failed, and
      a 400 carries either the guard's message or the `undefined` operator
      message. */
  function Evaluate(body: Body, answer: QueryDoc -> StoreReply): (x: Exchange)
    ensures |x.sent| <= 1
    ensures x.sent == [] <==> Status(x.response) == 400
    ensures x.sent != [] ==> body.RulesText? && Compile(body.text) == Built(x.sent[0])
    ensures x.response.Ok? ==> answer(x.sent[0]) == Found(x.response.products)
    ensures x.sent != [] ==> (x.response.Ok? <==> answer(x.sent[0]).Found?)
    ensures x.response.ServerError? ==> answer(x.sent[0]).Failed? && x.response.error == FailureMessage
    ensures x.response.BadRequest? ==>
      x.response.error == GuardMessage || x.response.error == "Unsupported operator: undefined"
  {
    if !body.RulesText? || body.text == [] then Exchange(BadRequest(GuardMessage), [])
    else
      CompileOutcome(Lines(body.text));
      match Compile(body.text)
      case Rejected(error) => Exchange(BadRequest(error), [])
      case Built(query) =>
        match answer(query)
        case Found(products) => Exchange(Ok(products), [query])
        case Failed(_) => Exchange(ServerError(FailureMessage), [query])
  }

  /** The loop of the handler: split the text into trimmed non-empty lines
      and, line by line, tokenise, coerce the raw value and set the field's
      entry through the operator switch; a line the switch does not accept
      ends the loop with its message. */
  method CompileRules(rules: string) returns (result: Compiled)
    ensures result == Compile(rules)
  {
    var lines := Lines(rules);
    ghost var steps := Steps(lines);
    var query: QueryDoc := map[];
    for i := 0 to |lines|
      invariant CompileSteps(query, steps[i..]) == CompileSteps(map[], steps)
    {
      CompileStepsAt(query, steps, i);
      ReadLineCases(lines[i]);
      var parts := Tokenize(lines[i]);
      if parts.OnlyField? {
        // `operator` is undefined, so the switch takes its default case.
        return Rejected(UnsupportedMessage(None));
      }
      var field, operator, valueRaw := parts.field, parts.operator, parts.valueRaw;
      var value: Value;
      if valueRaw == "true" {
        value := VBool(true);
      } else if valueRaw == "false" {
        value := VBool(false);
      } else if ToNumber(valueRaw).Some? {
        value := VNum(ToNumber(valueRaw).value);
      } else {
        value := VStr(valueRaw);
      }
      assert value == Coerce(valueRaw);
      var entry: Cond;
      if operator == "=" {
        entry := Eq(value);
      } else if operator == ">" {
        entry := Gt(value);
      } else if operator == "<" {
        entry := Lt(value);
      } else if operator == ">=" {
        entry := Ge(value);
      } else if operator == "<=" {
        entry := Le(value);
      } else {
        return Rejected(UnsupportedMessage(Some(operator)));
      }
      assert steps[i] == Accept(field, entry);
      query := query[field := entry];
    }
    return Built(query);
  }

  /** `ReadLine` read through its two outcomes, for the loop above. */
  lemma ReadLineCases(line: string)
    ensures Tokenize(line).OnlyField? ==> ReadLine(line) == Reject(UnsupportedMessage(None))
    ensures Tokenize(line).Parts? ==> CondFor(Tokenize(line).operator, Coerce(Tokenize(line).valueRaw)).Some?
    ensures Tokenize(line).Parts? ==>
      ReadLine(line) == Accept(Tokenize(line).field, CondFor(Tokenize(line).operator, Coerce(Tokenize(line).valueRaw)).value)
  {
  }

  /** The handler: the guard, the compilation, the `find` and the status.
      The response and the queries it adds to the store's log are those of
      `Evaluate`; nothing else about the store changes. */
  method EvaluateSegment(body: Body, store: ProductStore) returns (response: Response)
    modifies store
    ensures response == Evaluate(body, store.answer).response
    ensures store.finds == old(store.finds) + Evaluate(body, store.answer).sent
  {
    if !body.RulesText? || body.text == [] {
      return BadRequest(GuardMessage);
    }
    var compiled := CompileRules(body.text);
    if compiled.Rejected? {
      return BadRequest(compiled.error);
    }
    var reply := store.Find(compiled.query);
    match reply
    case Found(products) =>
      response := Ok(products);
    case Failed(_) =>
      response := ServerError(FailureMessage);
  }

  /** Non-empty rule text made only of whitespace passes the guard, has no
      lines, and sends the empty query, which matches every product: the
      answer is 200 or 500, never 400. */
  lemma BlankRulesMatchEverything(text: string, answer: QueryDoc -> StoreReply)
    requires text != [] && AllWhitespace(text)
    ensures Evaluate(RulesText(text), answer).sent == [map[]]
    ensures Status(Evaluate(RulesText(text), answer).response) != 400
  {
    CompileBlank(text);
  }

  /** One line without `=`, `<` or `>` anywhere in the text is answered 400
      `Unsupported operator: undefined`, and no query is sent. */
  lemma OperatorlessLineRejected(text: string, answer: QueryDoc -> StoreReply, k: nat)
    requires text != [] && k < |Lines(text)| && NoOperatorChar(Lines(text)[k])
    ensures Evaluate(RulesText(text), answer) == Exchange(BadRequest("Unsupported operator: undefined"), [])
  {
    CompileOutcome(Lines(text));
  }

  /** A body whose `rules` is missing, empty or not a string is answered 400
      with the guard's message, and no query is sent. */
  lemma GuardRejects(body: Body, answer: QueryDoc -> StoreReply)
    requires !body.RulesText? || body.text == []
    ensures Evaluate(body, answer) == Exchange(BadRequest(GuardMessage), [])
  {
  }

  /** A single rule `field op value`: the query sent holds exactly that
      field, set by the operator's case to the coerced value. */
  lemma SingleRuleQuery(field: string, op: string, value: string, answer: QueryDoc -> StoreReply)
    requires NoOperatorChar(field) && NoOperatorChar(value) && IsOperator(op)
    requires Trimmed(field + op + value) && '\n' !in field + op + value
    ensures Evaluate(RulesText(field + op + value), answer).sent
      == [map[Trim(field) := CondFor(op, Coerce(Trim(value))).value]]
    ensures var sent := Evaluate(RulesText(field + op + value), answer).sent;
      var v := Coerce(Trim(value));
      && (op == "=" ==> sent == [map[Trim(field) := Eq(v)]])
      && (op == ">" ==> sent == [map[Trim(field) := Gt(v)]])
      && (op == "<" ==> sent == [map[Trim(field) := Lt(v)]])
      && (op == ">=" ==> sent == [map[Trim(field) := Ge(v)]])
      && (op == "<=" ==> sent == [map[Trim(field) := Le(v)]])
  {
    var line := field + op + value;
    assert |line| >= |op| >= 1;
    ReadRule(field, op, value);
    CompileSingleLine(line);
    SentQuery(line, answer, map[Trim(field) := CondFor(op, Coerce(Trim(value))).value]);
  }

  /** `price > 5000` sends `{price: {$gt: 5000}}`. */
  lemma PriceAbove(answer: QueryDoc -> StoreReply)
    ensures Evaluate(RulesText("price > 5000"), answer).sent == [map["price" := Gt(VNum(Finite(5000.0)))]]
  {
    PriceLine();
    PricePieces();
    FiveThousand();
    SingleRuleQuery("price ", ">", " 5000", answer);
  }

  lemma PriceLine()
    ensures "price " + ">" + " 5000" == "price > 5000"
    ensures NoOperatorChar("price ") && NoOperatorChar(" 5000")
    ensures Trimmed("price > 5000") && '\n' !in "price > 5000"
  {
  }

  lemma PricePieces()
    ensures Trim("price ") == "price" && Trim(" 5000") == "5000"
  {
    PriceLiterals();
    SpaceAfter("price ", "price");
    SpaceBefore(" 5000", "5000");
  }

  lemma PriceLiterals()
    ensures "price" + " " == "price " && " " + "5000" == " 5000"
    ensures Trimmed("price") && Trimmed("5000")
  {
  }

  lemma SpaceAfter(s: string, core: string)
    requires s == core + " " && Trimmed(core)
    ensures Trim(s) == core
  {
    assert s == [] + core + " ";
    TrimSurrounded([], core, " ");
  }

  lemma SpaceBefore(s: string, core: string)
    requires s == " " + core && Trimmed(core)
    ensures Trim(s) == core
  {
    assert s == " " + core + [];
    TrimSurrounded(" ", core, []);
  }

  lemma FiveThousand()
    ensures Coerce("5000") == VNum(Finite(5000.0))
  {
    DigitsOfFiveThousand();
    CoerceNatural("5000");
  }

  lemma DigitsOfFiveThousand()
    ensures "5000" != [] && AllDigits("5000", 10) && "5000"[0] != '0'
    ensures DigitsValue("5000", 10) == 5000
  {
    assert DigitsValue("5", 10) == 5 && "50"[..1] == "5";
    assert DigitsValue("50", 10) == 50 && "500"[..2] == "50";
    assert DigitsValue("500", 10) == 500 && "5000"[..3] == "500";
  }

  lemma ReadRule(field: string, op: string, value: string)
    requires NoOperatorChar(field) && NoOperatorChar(value) && IsOperator(op)
    ensures ReadLine(field + op + value) == Accept(Trim(field), CondFor(op, Coerce(Trim(value))).value)
  {
    TokenizeRule(field, op, value);
    ReadLineCases(field + op + value);
  }

  /** Rule text that passes the guard and compiles sends its query. */
  lemma SentQuery(text: string, answer: QueryDoc -> StoreReply, query: QueryDoc)
    requires text != [] && Compile(text) == Built(query)
    ensures Evaluate(RulesText(text), answer).sent == [query]
  {
  }

  lemma CompileSingleLine(line: string)
    requires line != [] && Trimmed(line) && '\n' !in line
    ensures ReadLine(line).Accept? ==> Compile(line) == Built(map[ReadLine(line).field := ReadLine(line).cond])
  {
    SingleLine(line);
    var s := ReadLine(line);
    StepsSingle(line);
    CompileOneStep(s);
  }
  lemma StepsSingle(line: string)
    ensures Steps([line]) == [ReadLine(line)]
  {
    assert [line][1..] == [];
  }
  lemma CompileOneStep(s: Step)
    ensures s.Accept? ==> CompileSteps(map[], [s]) == Built(map[s.field := s.cond])
  {
    assert [s][1..] == [];
  }
}
