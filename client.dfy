/**
 * The challenge client's session: the window's current question path, the
 * last question fetched and the text of the answer field, and what a click
 * on Submit does to them.
 *
 * The two HTTP round trips are opaque, so the server is a pair of functions
 * passed in: `post(path, answer)` is the verdict on a submitted answer and
 * `get(path)` the question found at a path. `Submit` returns the requests
 * it issued, so that the number of fetches can be stated.
 */
module Client {
  import opened Wrappers
  import opened Evaluator

  /** The server's verdict on a submitted answer. */
  datatype AnswerResult = AnswerResult(result: string, message: string, nextQuestion: Option<string>)

  /** One HTTP request of the client. */
  datatype Request = Get(path: string) | Post(path: string, answer: string)

  /**
   * Awaiting: a question is shown and the user may edit and submit the answer.
   * Complete: the interview is over and the application exited.
   * Aborted: an exception escaped the submit handler (an absent next-question
   * path, or a zero divisor in a fetched question that has numbers to
   * evaluate), ending the program.
   */
  datatype Status = Awaiting | Complete | Aborted

  /** How the submit handler reads a verdict. */
  datatype Verdict = Correct | Finished | Other

  /** The handler compares the verdict's result text with two literals. */
  function Classify(result: string): (v: Verdict)
    ensures v == Correct <==> result == "correct"
    ensures v == Finished <==> result == "interview complete"
  {
    if result == "correct" then Correct
    else if result == "interview complete" then Finished
    else Other
  }

  /** Counts the GET requests among those issued. */
  function Fetches(issued: seq<Request>): nat
  {
    if issued == [] then 0
    else Fetches(issued[..|issued| - 1]) + (if issued[|issued| - 1].Get? then 1 else 0)
  }

  class Session {
    var nextQuestionPath: string
    var lastQuestion: Question
    var answerText: string
    var status: Status

    /** The answer field holds the evaluator's answer to the question shown. */
    predicate Prefilled()
      reads this
    {
      Evaluable(lastQuestion.numbers, lastQuestion.rules) && answerText == Evaluate(lastQuestion.numbers, lastQuestion.rules)
    }

    /**
     * Window start-up: the entry point's reply names the first question, which
     * is fetched; the answer field starts as the literal "Ruby", not as an
     * evaluated answer.
     */
    constructor (firstPath: string, get: string -> Question)
      ensures nextQuestionPath == firstPath && lastQuestion == get(firstPath)
      ensures answerText == "Ruby" && status == Awaiting
    {
      nextQuestionPath := firstPath;
      lastQuestion := get(firstPath);
      answerText := "Ruby";
      status := Awaiting;
    }

    /** The user edits the answer field before submitting. */
    method EditAnswer(text: string)
      requires status == Awaiting
      modifies this
      ensures answerText == text
      ensures nextQuestionPath == old(nextQuestionPath) && lastQuestion == old(lastQuestion) && status == old(status)
    {
      answerText := text;
    }

    /**
     * A click on Submit: post the answer field to the current path, then act on the verdict.
     * "correct": move to the verdict's next path, fetch that question (one fetch) and fill
     * the answer field with the evaluator's answer to it. "interview complete": the session
     * ends, with no fetch. Any other verdict: nothing changes and nothing is fetched.
     */
    method Submit(post: (string, string) -> AnswerResult, get: string -> Question) returns (issued: seq<Request>)
      requires status == Awaiting
      modifies this
      ensures var reply := post(old(nextQuestionPath), old(answerText));
        Fetches(issued) == if Classify(reply.result) == Correct && reply.nextQuestion.Some? then 1 else 0
      ensures var reply := post(old(nextQuestionPath), old(answerText));
        match Classify(reply.result)
        case Correct =>
          if reply.nextQuestion.None? then
            && issued == [Post(old(nextQuestionPath), old(answerText))]
            && status == Aborted
            && nextQuestionPath == old(nextQuestionPath) && lastQuestion == old(lastQuestion)
            && answerText == old(answerText)
          else
            var path := reply.nextQuestion.value;
            && issued == [Post(old(nextQuestionPath), old(answerText)), Get(path)]
            && nextQuestionPath == path && lastQuestion == get(path)
            && (if Evaluable(get(path).numbers, get(path).rules)
                then status == Awaiting && Prefilled()
                else status == Aborted && answerText == old(answerText))
        case Finished =>
          && issued == [Post(old(nextQuestionPath), old(answerText))]
          && status == Complete
          && nextQuestionPath == old(nextQuestionPath) && lastQuestion == old(lastQuestion)
          && answerText == old(answerText)
        case Other =>
          && issued == [Post(old(nextQuestionPath), old(answerText))]
          && status == Awaiting
          && nextQuestionPath == old(nextQuestionPath) && lastQuestion == old(lastQuestion)
          && answerText == old(answerText)
    {
      var reply := post(nextQuestionPath, answerText);
      issued := [Post(nextQuestionPath, answerText)];
      assert issued[..0] == [];
      var verdict := Classify(reply.result);
      if verdict == Correct {
        if reply.nextQuestion.None? {
          status := Aborted;
        } else {
          nextQuestionPath := reply.nextQuestion.value;
          lastQuestion := get(nextQuestionPath);
          issued := issued + [Get(nextQuestionPath)];
          assert issued[..1] == [issued[0]];
          if Evaluable(lastQuestion.numbers, lastQuestion.rules) {
            answerText := Process(lastQuestion);
          } else {
            status := Aborted;
          }
        }
      } else if verdict == Finished {
        status := Complete;
      }
    }
  }
}
