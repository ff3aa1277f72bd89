# Segment rule compiler

This project models the segment service's one handler, `evaluateSegment`, in
`server/segment-service/controllers/segmentController.js`. The handler takes
a request body whose `rules` field holds plain-text rules, one per line (for
example `price > 5000`). It compiles the rules into a MongoDB-style query
document, asks the product collection for the matching products and answers:

- 400 with an error message when `rules` is missing, empty or not a string;
- 400 when a line has no operator;
- 200 with the products found;
- 500 when the collection fails.

The model follows the code as written:

- A line is split on `\n`, trimmed with JavaScript's `trim()` whitespace set,
  and blank lines are dropped (`text.dfy`).
- Each line is split with the pattern `/(=|>=|<=|>|<)/`, and only the first
  three trimmed pieces are kept (`tokenizer.dfy`). `=` is the first
  alternative, so `brand != Samsung` gives the field `brand !` and the
  operator `=`. Text after a second operator is dropped.
- The raw value becomes `true`, `false`, the number `Number()` reads, or the
  unchanged string, in that order (`coercion.dfy`). `Number("")` is 0, so
  `price >` compiles to `{$gt: 0}`. `Number()` is modelled by the
  ECMAScript string-to-number grammar over exact values: decimal literals
  with fraction and exponent, `Infinity`, and the `0x`/`0o`/`0b` forms.
- The operator switch turns each line into a query entry, and the lines are
  folded into a map from field to entry (`query.dfy`). A later line on the
  same field replaces the earlier entry. There is no field schema, type
  check or enum check.
- Because the tokeniser only ever produces one of the five operators, the
  switch's `default` case is reached only for a line with no operator. Its
  message is always `Unsupported operator: undefined`.
- The handler itself is `segment.dfy`:
  - the guard;
  - the compile loop, as a method with a loop invariant, proved equal to the
    compile function;
  - the single `find` call on a `ProductStore` object, which records every
    query it is given;
  - the choice among 400, 200 and 500.

Text made only of whitespace passes the guard and compiles to the empty
query, which matches every product.

## Model

| member | source | states |
|---|---|---|
| Text.Trim | server/segment-service/controllers/segmentController.js:11 | `trim()` leaves no whitespace at either end, and gives the empty string exactly when the text is all whitespace |
| Text.TrimSurrounded | server/segment-service/controllers/segmentController.js:11 | `trim()` of any whitespace, then trimmed text, then any whitespace, is that trimmed text |
| Text.TrimInside | server/segment-service/controllers/segmentController.js:11 | what `trim()` keeps is one contiguous stretch of the original text |
| Text.Split | server/segment-service/controllers/segmentController.js:11 | `split('\n')` gives at least one piece, no piece holds the separator, and joining the pieces with it gives the text back |
| Text.SplitJoin | server/segment-service/controllers/segmentController.js:11 | splitting undoes joining, for pieces without the separator |
| Text.TrimEach | server/segment-service/controllers/segmentController.js:11 | `map(line => line.trim())` keeps the number and order of the pieces, and each result is the trimmed piece at the same position |
| Text.DropEmpty | server/segment-service/controllers/segmentController.js:11 | `filter(Boolean)` is never longer than its input, and every string it keeps is non-empty and taken from the input |
| Text.DropEmptyConcat | server/segment-service/controllers/segmentController.js:11 | filtering two lists joined end to end is filtering each and joining the results, so the filter keeps order and multiplicity |
| Text.SplitConcat | server/segment-service/controllers/segmentController.js:11 | splitting two texts joined by the separator gives the pieces of the first followed by those of the second |
| Text.DropEmptyMembers | server/segment-service/controllers/segmentController.js:11 | `filter(Boolean)` keeps a string exactly when it is in the input and non-empty |
| Text.Lines | server/segment-service/controllers/segmentController.js:11 | every rule line is non-empty, trimmed and free of newlines |
| Text.LinesConcat | server/segment-service/controllers/segmentController.js:11 | the rule lines of text, newline, more text are the lines of the first part followed by those of the second: every line keeps its place, none is lost or repeated |
| Text.LinesSingle | server/segment-service/controllers/segmentController.js:11 | text without a newline gives no rule line when it is all whitespace, and otherwise exactly one, the trimmed text |
| Text.NoLinesIffBlank | server/segment-service/controllers/segmentController.js:11 | the text has no rule lines exactly when it is all whitespace |
| Text.LinesOfJoin | server/segment-service/controllers/segmentController.js:11 | non-empty trimmed lines joined with `\n` come back from the line split unchanged and in order |
| Tokenizer.MatchAt | server/segment-service/controllers/segmentController.js:16 | the pattern matches at a position exactly when an operator character is there; `>=` and `<=` win over `>` and `<` |
| Tokenizer.SplitOnOperators | server/segment-service/controllers/segmentController.js:16 | the regex split alternates text and operator pieces, the pieces concatenate back to the line, and there is one piece exactly when the line has no operator character |
| Tokenizer.Tokenize | server/segment-service/controllers/segmentController.js:16 | an operator is found exactly when the line has `=`, `<` or `>`; the operator is one of the five; the field and raw value are trimmed and free of operator characters |
| Tokenizer.TokenizeDecomposition | server/segment-service/controllers/segmentController.js:16 | field, operator and value followed by anything that starts with an operator character tokenise to the trimmed field, that operator and the trimmed value; the rest is dropped |
| Tokenizer.TokenizeRule | server/segment-service/controllers/segmentController.js:16 | `field op value` with operator-free field and value tokenises to exactly those three parts, trimmed, so `x >= 10` gives `>=` |
| Tokenizer.TokenizeNotEqual | server/segment-service/controllers/segmentController.js:16 | `field != value` tokenises to the field `field !`, the operator `=` and the value |
| Coercion.Coerce | server/segment-service/controllers/segmentController.js:18-21 | the result is a boolean exactly for `"true"` and `"false"`, with the matching truth value; otherwise a number exactly when `Number()` reads the text, and then that number; a string exactly when `Number()` gives `NaN`, and then the unchanged raw text |
| Coercion.ToNumberBlank | server/segment-service/controllers/segmentController.js:21 | `Number()` of empty or whitespace-only text is 0 |
| Coercion.ToNumberSurrounded | server/segment-service/controllers/segmentController.js:21 | `Number()` ignores any whitespace before and after the literal |
| Coercion.CoerceNumeric | server/segment-service/controllers/segmentController.js:18-21 | text other than `true` and `false` that `Number()` reads becomes that number |
| Coercion.CoerceNaN | server/segment-service/controllers/segmentController.js:18-21 | text other than `true` and `false` that `Number()` turns into `NaN` stays the same string |
| Coercion.CoerceModelName | server/segment-service/controllers/segmentController.js:18-21 | `5G` starts like a number but `Number()` rejects it, so it stays the string `5G` |
| Coercion.CoerceEmpty | server/segment-service/controllers/segmentController.js:21 | an empty raw value becomes the number 0 |
| Coercion.CoerceInteger | server/segment-service/controllers/segmentController.js:21 | any integer written in decimal coerces to that number |
| Coercion.CoerceWord | server/segment-service/controllers/segmentController.js:18-21 | text other than `true` or `false` that cannot start a numeric literal stays the same string |
| Coercion.NatDigitsValue | server/segment-service/controllers/segmentController.js:21 | the decimal digits of `n` are digits without a superfluous leading zero, and their value is `n` |
| Query.CondFor | server/segment-service/controllers/segmentController.js:24-41 | the switch has a case exactly for the five operators; `=` stores the bare value, `>` the `$gt` entry, `<` the `$lt` entry, `>=` the `$gte` entry and `<=` the `$lte` entry, each holding the coerced value |
| Query.ReadLine | server/segment-service/controllers/segmentController.js:16-41 | a line is accepted exactly when it has an operator character; otherwise it is rejected with `Unsupported operator: undefined`; an accepted entry holds the coerced raw value |
| Query.CompileSteps | server/segment-service/controllers/segmentController.js:15-43 | a built query keeps every field of the query the loop started from |
| Query.Compile | server/segment-service/controllers/segmentController.js:11-43 | the rule text compiles exactly when each of its rule lines has an operator character; a refusal always reads `Unsupported operator: undefined` |
| Query.CompileStepsOutcome | server/segment-service/controllers/segmentController.js:15-43 | the fold builds a query exactly when every line is accepted; otherwise the message is that of the first rejected line |
| Query.CompileStepsEntries | server/segment-service/controllers/segmentController.js:24-39 | each field's entry in the built query is that of the last line setting it, and fields no line sets keep their previous entry |
| Query.CompileStepsPresence | server/segment-service/controllers/segmentController.js:24-39 | a field is in the built query exactly when it was there before or some accepted line sets it |
| Query.CompileStepsMessage | server/segment-service/controllers/segmentController.js:40-41 | when every rejected line carries the same message, a rejected compilation carries it too |
| Query.StepsOutcomes | server/segment-service/controllers/segmentController.js:16-41 | line by line: accepted exactly when the line has an operator character, and rejected lines carry the `undefined` message |
| Query.CompileOutcome | server/segment-service/controllers/segmentController.js:11-43 | the rule lines compile exactly when each has an operator character; a refusal always reads `Unsupported operator: undefined` |
| Query.CompileBlank | server/segment-service/controllers/segmentController.js:11-15 | empty or whitespace-only text compiles to the empty query |
| Query.LastLineWins | server/segment-service/controllers/segmentController.js:24-39 | the last line's rule on a field is that field's entry, whatever came before |
| Segment.ProductStore.Find | server/segment-service/controllers/segmentController.js:45 | the query is appended to the store's log and the reply is the store's answer to it |
| Segment.Evaluate | server/segment-service/controllers/segmentController.js:3-51 | at most one query is sent, and one is sent exactly when the answer is not 400; it is the compiled query; 200 exactly when the store found products, and those products; 500 only on store failure, with the fixed message; a 400 carries the guard message or the `undefined` operator message |
| Segment.CompileRules | server/segment-service/controllers/segmentController.js:11-43 | the loop with its early returns computes exactly the compiled query or refusal |
| Segment.EvaluateSegment | server/segment-service/controllers/segmentController.js:3-51 | the handler's response is that of `Evaluate`, and the store's log grows by exactly the queries `Evaluate` sends |
| Segment.BlankRulesMatchEverything | server/segment-service/controllers/segmentController.js:6-15 | non-empty whitespace-only rules send the empty query and are never answered 400 |
| Segment.OperatorlessLineRejected | server/segment-service/controllers/segmentController.js:40-41 | one line without an operator makes the answer 400 `Unsupported operator: undefined`, with no query sent |
| Segment.GuardRejects | server/segment-service/controllers/segmentController.js:6-8 | missing, empty or non-string rules are answered 400 with the guard message, and no query is sent |
| Segment.SingleRuleQuery | server/segment-service/controllers/segmentController.js:11-45 | a single rule `field op value` sends one query holding only the trimmed field, set to the coerced trimmed value as the bare value for `=` and as the `$gt`, `$lt`, `$gte` or `$lte` entry for `>`, `<`, `>=` or `<=` |
| Segment.PriceAbove | server/segment-service/controllers/segmentController.js:11-45 | the rule `price > 5000` sends exactly the query `{price: {$gt: 5000}}` |

## Left out

- HTTP and Express framing: the status and JSON body are a `Response` value. A request with no parsed body throws before the `try` block; the model's `Body` always exists.
- MongoDB matching: what `Product.find` returns for a query is a parameter of the store (`answer`). Cross-type ordering and array-field equality are not modelled.
- `async`/`await` and the `console.error` log line are not modelled. The only failure inside the `try` block is a failure of the store.
- `Number()` works on exact values here. IEEE-754 rounding, overflow to `Infinity` and negative zero are not modelled.
- Coercion.CoerceInteger: this lemma states the numeric outcome only for integers written in decimal. Fractions, exponents and prefixed literals follow the `ToNumber` definition, but have no lemma of their own.
- A rule on the field `__proto__` sets the object's prototype in JavaScript. The model treats it as an ordinary key.
- The key order of the query object is not modelled; the query is a map.
- A field schema, type and enum validation, a `!=` operator, and per-line error kinds such as an unknown field are described for the rule language. The handler has none of them, and the model follows the handler.
- The client pages, the product-ingestion job, the Swagger set-up, the product routes and controller, and the Mongoose product schema are not part of this model.
