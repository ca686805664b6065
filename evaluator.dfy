/**
 * The rule evaluator of the Fizzbot client: `divisible?` and `process`.
 *
 * A question carries a list of numbers and an ordered list of rules. Each
 * number's answer is the concatenation, in rule order, of the response of
 * every rule whose divisor divides it; when that is empty the answer is the
 * number's own decimal text. The answers are joined with single spaces.
 *
 * `Evaluate` is the specification; `Process` is the nested loop of the
 * client, proved equal to it.
 */
module Evaluator {
  import opened Decimal
  import opened Text

  datatype Rule = Rule(divisor: int, response: string)

  datatype Question = Question(message: string, numbers: seq<int>, rules: seq<Rule>)

  /** Ruby raises ZeroDivisionError on a zero divisor, so every rule that is tried must have a non-zero one. */
  predicate ValidRules(rules: seq<Rule>) {
    forall k :: 0 <= k < |rules| ==> rules[k].divisor != 0
  }

  /**
   * The rules are only tried inside the loop over the numbers, so a question
   * without numbers is evaluated whatever its divisors are.
   */
  predicate Evaluable(numbers: seq<int>, rules: seq<Rule>) {
    numbers == [] || ValidRules(rules)
  }

  /** Ruby's Integer#div: the quotient rounded towards negative infinity. */
  function RubyDiv(a: int, b: int): int
    requires b != 0
  {
    if b > 0 || a % b == 0 then a / b else a / b - 1
  }

  /** Ruby's Integer#%: the remainder of floored division, which takes the sign of the divisor. */
  function RubyMod(a: int, b: int): (r: int)
    requires b != 0
    ensures a == b * RubyDiv(a, b) + r
    ensures b > 0 ==> 0 <= r < b
    ensures b < 0 ==> b < r <= 0
  {
    if b > 0 || a % b == 0 then a % b else a % b + b
  }

  /** `divisible?(a, b)`: the floored remainder is zero, i.e. `a` is a multiple of `b`. */
  function Divisible(a: int, b: int): (r: bool)
    requires b != 0
    ensures r <==> a % b == 0
    ensures r ==> a == b * RubyDiv(a, b)
  {
    RubyMod(a, b) == 0
  }

  /** Every multiple of a non-zero divisor is divisible by it. */
  lemma MultipleIsDivisible(k: int, b: int)
    requires b != 0
    ensures Divisible(b * k, b)
  {
  }

  /** What one rule adds to a number's answer. */
  function Contribution(n: int, rule: Rule): string
    requires rule.divisor != 0
  {
    if Divisible(n, rule.divisor) then rule.response else ""
  }

  /** The responses of the matching rules, concatenated in rule order. */
  function Matches(n: int, rules: seq<Rule>): string
    requires ValidRules(rules)
    decreases |rules|
  {
    if rules == [] then ""
    else Matches(n, rules[..|rules| - 1]) + Contribution(n, rules[|rules| - 1])
  }

  /** The answer for one number: its matches, or its decimal text when they are empty. */
  function Answer(n: int, rules: seq<Rule>): (a: string)
    requires ValidRules(rules)
    ensures a != []
  {
    var m := Matches(n, rules);
    if m == "" then IntToString(n) else m
  }

  /** The answers of all numbers, in input order. */
  function Answers(numbers: seq<int>, rules: seq<Rule>): seq<string>
    requires Evaluable(numbers, rules)
    decreases |numbers|
  {
    if numbers == [] then []
    else Answers(numbers[..|numbers| - 1], rules) + [Answer(numbers[|numbers| - 1], rules)]
  }

  /** What `process` returns: the answers joined with single spaces. */
  function Evaluate(numbers: seq<int>, rules: seq<Rule>): string
    requires Evaluable(numbers, rules)
  {
    Join(Answers(numbers, rules), " ")
  }

  /** Matching distributes over splitting the rule list: earlier rules contribute first. */
  lemma {:induction false} MatchesAppend(n: int, r1: seq<Rule>, r2: seq<Rule>)
    requires ValidRules(r1) && ValidRules(r2)
    ensures ValidRules(r1 + r2)
    ensures Matches(n, r1 + r2) == Matches(n, r1) + Matches(n, r2)
    decreases |r2|
  {
    var rs := r1 + r2;
    if r2 != [] {
      var init := r2[..|r2| - 1];
      assert rs[..|rs| - 1] == r1 + init;
      MatchesAppend(n, r1, init);
    } else {
      assert rs == r1;
    }
  }

  /** Read from the front: the first rule's contribution, then the rest's. */
  lemma MatchesCons(n: int, rule: Rule, rest: seq<Rule>)
    requires rule.divisor != 0 && ValidRules(rest)
    ensures ValidRules([rule] + rest)
    ensures Matches(n, [rule] + rest) == Contribution(n, rule) + Matches(n, rest)
  {
    MatchesAppend(n, [rule], rest);
    assert [rule][..0] == [];
  }

  /** The matches are empty exactly when every rule that divides `n` has an empty response. */
  lemma {:induction false} MatchesEmptyIff(n: int, rules: seq<Rule>)
    requires ValidRules(rules)
    ensures Matches(n, rules) == "" <==>
              forall k :: 0 <= k < |rules| && Divisible(n, rules[k].divisor) ==> rules[k].response == ""
    decreases |rules|
  {
    if rules != [] {
      var init := rules[..|rules| - 1];
      MatchesEmptyIff(n, init);
      assert forall k :: 0 <= k < |init| ==> init[k] == rules[k];
    }
  }

  /** A character that no response holds does not appear in the matches. */
  lemma {:induction false} MatchesAvoid(n: int, rules: seq<Rule>, c: char)
    requires ValidRules(rules)
    requires forall k :: 0 <= k < |rules| ==> c !in rules[k].response
    ensures c !in Matches(n, rules)
    decreases |rules|
  {
    if rules != [] {
      var init := rules[..|rules| - 1];
      assert forall k :: 0 <= k < |init| ==> init[k] == rules[k];
      MatchesAvoid(n, init, c);
    }
  }

  /** The fallback: the decimal text exactly when no matching rule contributes anything. */
  lemma AnswerCases(n: int, rules: seq<Rule>)
    requires ValidRules(rules)
    ensures (forall k :: 0 <= k < |rules| && Divisible(n, rules[k].divisor) ==> rules[k].response == "")
              ==> Answer(n, rules) == IntToString(n)
    ensures (exists k :: 0 <= k < |rules| && Divisible(n, rules[k].divisor) && rules[k].response != "")
              ==> Answer(n, rules) == Matches(n, rules) && Matches(n, rules) != ""
  {
    MatchesEmptyIff(n, rules);
  }

  /** Exactly one answer per number, in input order. */
  lemma {:induction false} AnswersShape(numbers: seq<int>, rules: seq<Rule>)
    requires Evaluable(numbers, rules)
    ensures |Answers(numbers, rules)| == |numbers|
    ensures forall k :: 0 <= k < |numbers| ==> Answers(numbers, rules)[k] == Answer(numbers[k], rules)
    decreases |numbers|
  {
    if numbers != [] {
      var init := numbers[..|numbers| - 1];
      AnswersShape(init, rules);
    }
  }

  /** No numbers: the empty answer, whatever the rules (a zero divisor included). */
  lemma EvaluateNoNumbers(rules: seq<Rule>)
    ensures Evaluate([], rules) == ""
  {
  }

  /** A single number: its answer, without any separator. */
  lemma EvaluateOne(n: int, rules: seq<Rule>)
    requires ValidRules(rules)
    ensures Evaluate([n], rules) == Answer(n, rules)
  {
    assert [n][..0] == [];
    assert Answers([n], rules) == [Answer(n, rules)];
  }

  /** One more number: the answers so far, a single space, then that number's answer. */
  lemma EvaluateSnoc(numbers: seq<int>, n: int, rules: seq<Rule>)
    requires ValidRules(rules)
    requires |numbers| >= 1
    ensures Evaluate(numbers + [n], rules) == Evaluate(numbers, rules) + " " + Answer(n, rules)
  {
    var ns := numbers + [n];
    assert ns[..|ns| - 1] == numbers;
    AnswersShape(numbers, rules);
    JoinSnoc(Answers(numbers, rules), " ", Answer(n, rules));
  }

  /** No rules: every number answers with its own decimal text. */
  lemma EvaluateNoRules(numbers: seq<int>)
    ensures Evaluate(numbers, []) == Join(seq(|numbers|, k requires 0 <= k < |numbers| => IntToString(numbers[k])), " ")
  {
    AnswersShape(numbers, []);
    assert Answers(numbers, []) == seq(|numbers|, k requires 0 <= k < |numbers| => IntToString(numbers[k]));
  }

  /**
   * The output decodes back into the answers: when no response holds a space,
   * splitting at spaces recovers one answer per number, in order.
   */
  lemma EvaluateDecodes(numbers: seq<int>, rules: seq<Rule>)
    requires ValidRules(rules)
    requires |numbers| >= 1
    requires forall k :: 0 <= k < |rules| ==> ' ' !in rules[k].response
    ensures Split(Evaluate(numbers, rules), ' ')
         == seq(|numbers|, k requires 0 <= k < |numbers| => Answer(numbers[k], rules))
  {
    var answers := Answers(numbers, rules);
    AnswersShape(numbers, rules);
    forall k | 0 <= k < |answers|
      ensures ' ' !in answers[k]
    {
      var n := numbers[k];
      MatchesAvoid(n, rules, ' ');
    }
    SplitJoin(answers, ' ');
  }

  /** The classic FizzBuzz rules. */
  function FizzBuzzRules(): (rules: seq<Rule>)
    ensures ValidRules(rules)
  {
    [Rule(3, "Fizz"), Rule(5, "Buzz")]
  }

  /** Both rules match 15: the responses concatenate in rule order. */
  lemma FizzBuzzFifteen()
    ensures Evaluate([15], FizzBuzzRules()) == "FizzBuzz"
  {
    var rules := FizzBuzzRules();
    EvaluateOne(15, rules);
    assert rules[..1] == [Rule(3, "Fizz")] && rules[..1][..0] == [];
    assert Divisible(15, 3) && Divisible(15, 5);
    assert Matches(15, rules[..1]) == "Fizz";
  }

  /** No rule matches 7: the number's own text. */
  lemma FizzBuzzSeven()
    ensures Evaluate([7], FizzBuzzRules()) == "7"
  {
    var rules := FizzBuzzRules();
    EvaluateOne(7, rules);
    assert rules[..1] == [Rule(3, "Fizz")] && rules[..1][..0] == [];
    assert Matches(7, rules) == "";
  }

  lemma FizzBuzzMatches(n: int)
    ensures Matches(n, FizzBuzzRules()) == Contribution(n, Rule(3, "Fizz")) + Contribution(n, Rule(5, "Buzz"))
  {
    var rules := FizzBuzzRules();
    assert rules[..1] == [Rule(3, "Fizz")] && rules[..1][..0] == [];
  }

  lemma FizzBuzzSmallAnswers()
    ensures Answer(1, FizzBuzzRules()) == "1" && Answer(2, FizzBuzzRules()) == "2"
    ensures Answer(3, FizzBuzzRules()) == "Fizz" && Answer(4, FizzBuzzRules()) == "4"
    ensures Answer(5, FizzBuzzRules()) == "Buzz"
  {
    FizzBuzzMatches(1);
    FizzBuzzMatches(2);
    FizzBuzzMatches(3);
    FizzBuzzMatches(4);
    FizzBuzzMatches(5);
  }

  lemma FizzBuzzAnswersOneToFive()
    ensures Answers([1, 2, 3, 4, 5], FizzBuzzRules()) == ["1", "2", "Fizz", "4", "Buzz"]
  {
    FizzBuzzSmallAnswers();
    AnswersShape([1, 2, 3, 4, 5], FizzBuzzRules());
  }

  lemma JoinFizzBuzzOneToFive()
    ensures Join(["1", "2", "Fizz", "4", "Buzz"], " ") == "1 2 Fizz 4 Buzz"
  {
    var answers: seq<string> := ["1", "2", "Fizz", "4", "Buzz"];
    assert answers[1..][1..][1..][1..] == ["Buzz"];
    assert Join(answers[1..][1..][1..], " ") == "4 Buzz";
    assert Join(answers[1..][1..], " ") == "Fizz 4 Buzz";
    assert Join(answers[1..], " ") == "2 Fizz 4 Buzz";
  }

  /** One to five under FizzBuzz: "1 2 Fizz 4 Buzz". */
  lemma FizzBuzzOneToFive()
    ensures Evaluate([1, 2, 3, 4, 5], FizzBuzzRules()) == "1 2 Fizz 4 Buzz"
  {
    FizzBuzzAnswersOneToFive();
    JoinFizzBuzzOneToFive();
  }

  /** `process(question)`: the nested loops of the client, with `answers` and `result` as accumulators. */
  method Process(question: Question) returns (output: string)
    requires Evaluable(question.numbers, question.rules)
    ensures output == Evaluate(question.numbers, question.rules)
  {
    var numbers, rules := question.numbers, question.rules;
    var answers: seq<string> := [];
    var i := 0;
    while i < |numbers|
      invariant 0 <= i <= |numbers|
      invariant answers == Answers(numbers[..i], rules)
    {
      assert ValidRules(rules);
      var number := numbers[i];
      var result := "";
      var j := 0;
      while j < |rules|
        invariant 0 <= j <= |rules|
        invariant result == Matches(number, rules[..j])
      {
        var rule := rules[j];
        assert rules[..j + 1][..j] == rules[..j];
        if Divisible(number, rule.divisor) {
          result := result + rule.response;
        }
        j := j + 1;
      }
      assert rules[..j] == rules;
      assert numbers[..i + 1][..i] == numbers[..i];
      if result == "" {
        answers := answers + [IntToString(number)];
      } else {
        answers := answers + [result];
      }
      i := i + 1;
    }
    assert numbers[..i] == numbers;
    output := Join(answers, " ");
  }
}
