# Fizzbot client: rule evaluator and submit handler

This project is a Dafny model of the core of a desktop client for the Fizzbot challenge. The client fetches a question from the challenge API. It pre-computes an answer with a FizzBuzz-style rule evaluator, lets the user edit that answer, submits it and moves on to the next question when the answer is correct.

Two pieces of `fizzbot_with_gui.rb` are modelled:

- **The rule evaluator** (`divisible?` and `process`), in module `Evaluator`. A question has a list of numbers and an ordered list of rules `(divisor, response)`. A number's answer is the concatenation, in rule order, of the responses of every rule whose divisor divides it. When that concatenation is empty, the answer is the number's decimal text. The answers are joined with single spaces.
  - `Evaluate` is the specification. It is built from `Matches`, `Answer` and `Answers`.
  - `Process` is the nested loop of the source, proved to return `Evaluate`. Its accumulators are `answers` (the array grown with `<<`) and `result` (the string appended to with `<<`).
  - Ruby's `%` is floored division. It is written out as `RubyDiv`/`RubyMod`, and `divisible?` checks that the floored remainder is zero.
- **The submit handler** (the `SEL_COMMAND` block of `MyWindow#initialize`), in module `Client`. Class `Session` has the fields the handler reassigns: `nextQuestionPath`, `lastQuestion`, the answer-field text, and a `status` for the end of the program. `Submit` posts the answer field and branches on the verdict's `result`: `"correct"`, `"interview complete"` or anything else.

Two helper modules stand in for Ruby built-ins:

- `Decimal.IntToString` is `Integer#to_s`. `Array#join` applies it to the numbers that `process` pushes. Its partner `ParseInt` reads back exactly the canonical decimal strings.
- `Text.Join` is `Array#join`. Its partner `Split` undoes a join when no part contains the separator.

The HTTP calls are opaque. `Submit` takes the server as two function parameters: `post(path, answer)` gives the verdict and `get(path)` gives a question. `Submit` returns the requests it issued, so its contract can count the fetches.

`process` only reads its question. In the model the question is an immutable datatype value and `Process` has no `modifies` clause, so it changes no state. Its `ensures` fixes the result as a function of the question alone, which makes it deterministic.

Two behaviours of the code worth noting:

- The first answer field holds the literal `"Ruby"`, not an evaluated answer (line 45). `Session.constructor` states this.
- On `"correct"` with no `nextQuestion`, the source raises inside the handler. It also raises when the fetched question has a zero divisor and at least one number, because `divisible?` is only reached inside the loop over the numbers (lines 117-120). These exceptions end the program, so the model moves to the terminal status `Aborted`. A question with no numbers evaluates to `""` whatever its divisors are.

## Model

| member | source | states |
|---|---|---|
| `Evaluator.RubyMod` | fizzbot_with_gui.rb:112 | The remainder of floored division: `a == b * RubyDiv(a, b) + r`, with `0 <= r < b` for a positive divisor and `b < r <= 0` for a negative one. These bounds determine `r` uniquely. |
| `Evaluator.Divisible` | fizzbot_with_gui.rb:111-113 | `divisible?(a, b)` holds exactly when the Euclidean remainder is zero. When it holds, `a` is `b` times the floored quotient. A zero divisor is excluded, because Ruby raises there. |
| `Evaluator.MultipleIsDivisible` | fizzbot_with_gui.rb:111-113 | Every multiple `b * k` of a non-zero `b` is `divisible?` by `b`, for negative operands too. This is the converse of the witness clause of `Divisible`. |
| `Evaluator.MatchesAppend` | fizzbot_with_gui.rb:118-123 | The matched responses of `r1 + r2` are the matches of `r1` followed by those of `r2`: earlier rules contribute first, with no separator. |
| `Evaluator.MatchesCons` | fizzbot_with_gui.rb:119-123 | Read from the front: the first rule's response (if its divisor divides the number), then the matches of the remaining rules. |
| `Evaluator.MatchesEmptyIff` | fizzbot_with_gui.rb:118-123 | A number's concatenation is empty if and only if every rule whose divisor divides the number has an empty response. Both directions are proved. |
| `Evaluator.Answer` | fizzbot_with_gui.rb:125-129 | A number's answer is never the empty string. |
| `Evaluator.AnswerCases` | fizzbot_with_gui.rb:118-129 | If no dividing rule has a non-empty response, the answer is the number's decimal text. This covers no match and all-empty responses. If some dividing rule has a non-empty response, the answer is the non-empty concatenation. |
| `Evaluator.AnswersShape` | fizzbot_with_gui.rb:116-130 | Exactly one answer per input number: the answer list has the length of `numbers`, and entry `k` is the answer for `numbers[k]`. |
| `Evaluator.EvaluateNoNumbers` | fizzbot_with_gui.rb:116-132 | No numbers give the empty string, for any rules, zero divisors included. |
| `Evaluator.EvaluateOne` | fizzbot_with_gui.rb:132 | A single number gives its answer alone, with no separator. |
| `Evaluator.EvaluateSnoc` | fizzbot_with_gui.rb:132 | Appending a number to a non-empty list appends a single space and that number's answer to the output. |
| `Evaluator.EvaluateNoRules` | fizzbot_with_gui.rb:119-132 | With no rules, the output is the decimal text of every number, joined by single spaces in input order. |
| `Evaluator.EvaluateDecodes` | fizzbot_with_gui.rb:116-132 | With at least one number and no space in any response, splitting the output at spaces gives back exactly the per-number answers, in input order. |
| `Evaluator.FizzBuzzFifteen` | fizzbot_with_gui.rb:115-133 | `[15]` under `Fizz@3, Buzz@5` gives `"FizzBuzz"`. |
| `Evaluator.FizzBuzzSeven` | fizzbot_with_gui.rb:115-133 | `[7]` under `Fizz@3, Buzz@5` gives `"7"`. |
| `Evaluator.FizzBuzzOneToFive` | fizzbot_with_gui.rb:115-133 | `[1, 2, 3, 4, 5]` under `Fizz@3, Buzz@5` gives `"1 2 Fizz 4 Buzz"`. |
| `Evaluator.Process` | fizzbot_with_gui.rb:115-133 | The nested loops over numbers and rules, with the `answers` and `result` accumulators, return exactly `Evaluate(numbers, rules)`. They read the question and change nothing. A zero divisor is excluded only when there is at least one number. |
| `Decimal.NatToString` | fizzbot_with_gui.rb:126 | A natural number's text is a non-empty digit string with no leading zero that denotes the number. |
| `Decimal.IntToString` | fizzbot_with_gui.rb:126 | An integer's text is canonical. It starts with `-` exactly when the integer is negative, and every later character is a digit. |
| `Decimal.ParseIntToString` | fizzbot_with_gui.rb:126 | An integer's text reads back as that integer. |
| `Decimal.IntToStringInjective` | fizzbot_with_gui.rb:126 | Distinct numbers have distinct texts. |
| `Decimal.IntToStringOfParse` | fizzbot_with_gui.rb:126 | Every canonical decimal string is the text of the integer it denotes. With `ParseIntToString`, `IntToString` is a bijection onto canonical strings. |
| `Text.SplitJoin` | fizzbot_with_gui.rb:132 | Splitting `join` at a one-character separator gives back the parts, provided there is at least one part and no part contains the separator. |
| `Text.JoinSnoc` | fizzbot_with_gui.rb:132 | Joining one more part adds the separator and that part at the end. |
| `Client.Classify` | fizzbot_with_gui.rb:52-66 | The handler's branch is `Correct` exactly for `"correct"` and `Finished` exactly for `"interview complete"`; every other text is `Other`. |
| `Client.Session.constructor` | fizzbot_with_gui.rb:29-45 | At start-up the path is the one the entry point names, and the question is the one fetched from it. The answer field holds the literal `"Ruby"` and the session awaits an answer. |
| `Client.Session.EditAnswer` | fizzbot_with_gui.rb:44-45 | The user replaces the answer-field text. Path, question and status are unchanged. |
| `Client.Session.Submit` | fizzbot_with_gui.rb:49-70 | The answer field is posted to the current path. On `"correct"` with a next path: the path becomes it, the question becomes the one fetched from it (exactly one fetch), and the answer field becomes `Evaluate` of that question, unless that question has a number and a zero divisor, which aborts with the answer text unchanged. On `"interview complete"`: the session is complete, nothing changes and nothing is fetched. On any other result: path, question and answer text are unchanged, nothing is fetched and the session still awaits an answer. |

## Left out

- Window, frames, text boxes, button and message boxes (FXRuby, lines 26, 34-48, 51, 67, 73-81, 135-147): toolkit glue. `getApp().exit` is modelled only as the terminal status `Complete`.
- The question display text (lines 58-62): presentation only, partly built by JSON pretty-printing.
- HTTP and JSON (`get_json`, `post_json`, `send_answer`, `build_uri`, TLS): foreign library calls. The server is a pair of function parameters, and a reply is a typed record rather than a parsed hash. Network failures and malformed JSON are not modelled, because `get` and `post` always return a value.
- The start-up request to `/fizzbot` (line 29): `Session.constructor` is given the path that request returns.
- Client.Session.Submit: on `"correct"` with no `nextQuestion`, Ruby first sets the path to `nil` and then raises in `get_json`. The model keeps the old path and moves to `Aborted`. The program ends at that point, so the difference cannot be observed.
- Evaluator.Divisible: a zero divisor is a precondition rather than a modelled `ZeroDivisionError`. `Process` and `Evaluate` require it only when the question has at least one number (`Evaluable`), which is exactly when Ruby raises. At the session level, `Submit` models that exception by moving to `Aborted`.
- Ruby's dynamic typing: answers in the source mix integers and strings until `join` converts them. The model converts a number to its text when it is pushed, which gives the same joined string. Non-string responses and non-integer numbers cannot occur in the typed records.
