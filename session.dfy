/** The quiz session of App.js: the current quiz, the answer map and the two
    flags that select the screen, with the retry-incorrect transform and the
    score shown on the results screen. */
module Session {
  import opened Wrappers
  import opened Quiz
  import opened Derivation

  /** `answers[i]`: the recorded answer at position `i`, or `undefined`. */
  function Lookup(answers: map<nat, string>, i: nat): Option<string> {
    if i in answers then Some(answers[i]) else None
  }

  /** The correctness check applied to position `i` of the quiz. */
  predicate CorrectAt(quiz: seq<Question>, answers: map<nat, string>, i: nat)
    requires i < |quiz|
  {
    IsCorrect(quiz[i].answer, Lookup(answers, i))
  }

  /** Every recorded answer belongs to a position of the quiz. */
  predicate AnswersFit(quiz: seq<Question>, answers: map<nat, string>) {
    forall k :: k in answers ==> k < |quiz|
  }

  /** `quizQuestions.filter((q, index) => !correct)`: the questions whose
      answer is missing or wrong, in quiz order (`RetryTakesWrongPositions`). */
  function Retry(quiz: seq<Question>, answers: map<nat, string>): (r: seq<Question>)
    ensures |r| <= |quiz|
  {
    if quiz == [] then []
    else
      var n := |quiz| - 1;
      Retry(quiz[..n], answers) + (if CorrectAt(quiz, answers, n) then [] else [quiz[n]])
  }

  /** The positions whose answer is missing or wrong, ascending. */
  function WrongPositions(quiz: seq<Question>, answers: map<nat, string>): (r: seq<nat>)
    ensures forall k :: 0 <= k < |r| ==> r[k] < |quiz| && !CorrectAt(quiz, answers, r[k])
    ensures forall i :: 0 <= i < |quiz| && !CorrectAt(quiz, answers, i) ==> i in r
    ensures forall j, k :: 0 <= j < k < |r| ==> r[j] < r[k]
  {
    if quiz == [] then []
    else
      var n := |quiz| - 1;
      var prefix := WrongPositions(quiz[..n], answers);
      assert forall i :: 0 <= i < n ==> CorrectAt(quiz[..n], answers, i) == CorrectAt(quiz, answers, i);
      prefix + (if CorrectAt(quiz, answers, n) then [] else [n])
  }

  /** The retried quiz is the subsequence of the quiz at the wrong positions. */
  lemma {:induction false} RetryTakesWrongPositions(quiz: seq<Question>, answers: map<nat, string>)
    ensures |Retry(quiz, answers)| == |WrongPositions(quiz, answers)|
    ensures forall k :: 0 <= k < |Retry(quiz, answers)| ==>
      Retry(quiz, answers)[k] == quiz[WrongPositions(quiz, answers)[k]]
  {
    if quiz != [] {
      var n := |quiz| - 1;
      var prefix := quiz[..n];
      RetryTakesWrongPositions(prefix, answers);
      var r, w := Retry(prefix, answers), WrongPositions(prefix, answers);
      var last := CorrectAt(quiz, answers, n);
      var r', w' := (if last then [] else [quiz[n]]), (if last then [] else [n]);
      assert Retry(quiz, answers) == r + r';
      assert WrongPositions(quiz, answers) == w + w';
      forall k | 0 <= k < |r + r'|
        ensures (r + r')[k] == quiz[(w + w')[k]]
      {
        if k < |r| {
          assert (r + r')[k] == r[k] == prefix[w[k]];
          assert (w + w')[k] == w[k] < n;
        }
      }
    }
  }

  /** Every retried question is a question of the quiz. */
  lemma RetryFromQuiz(quiz: seq<Question>, answers: map<nat, string>)
    ensures forall q :: q in Retry(quiz, answers) ==> q in quiz
  {
    RetryTakesWrongPositions(quiz, answers);
    var r, w := Retry(quiz, answers), WrongPositions(quiz, answers);
    forall q | q in r
      ensures q in quiz
    {
      var k :| 0 <= k < |r| && r[k] == q;
      assert q == quiz[w[k]];
    }
  }

  /** The number of positions whose answer passes the correctness check. */
  function CorrectCount(quiz: seq<Question>, answers: map<nat, string>): nat {
    if quiz == [] then 0
    else
      var n := |quiz| - 1;
      CorrectCount(quiz[..n], answers) + (if CorrectAt(quiz, answers, n) then 1 else 0)
  }

  /** Correct and retried questions split the quiz: unanswered ones are retried. */
  lemma {:induction false} CorrectPlusRetry(quiz: seq<Question>, answers: map<nat, string>)
    ensures CorrectCount(quiz, answers) + |Retry(quiz, answers)| == |quiz|
  {
    if quiz != [] {
      CorrectPlusRetry(quiz[..|quiz| - 1], answers);
    }
  }

  /** The entries of the answer map whose answer is correct for its position. */
  function CorrectEntries(quiz: seq<Question>, answers: map<nat, string>): set<nat> {
    set i | i in answers && i < |quiz| && IsCorrect(quiz[i].answer, Some(answers[i]))
  }

  lemma {:induction false} CorrectCountIsEntries(quiz: seq<Question>, answers: map<nat, string>)
    ensures CorrectCount(quiz, answers) == |CorrectEntries(quiz, answers)|
  {
    if quiz != [] {
      var n := |quiz| - 1;
      CorrectCountIsEntries(quiz[..n], answers);
      var before := CorrectEntries(quiz[..n], answers);
      if CorrectAt(quiz, answers, n) {
        assert CorrectEntries(quiz, answers) == before + {n};
      } else {
        assert CorrectEntries(quiz, answers) == before;
      }
    }
  }

  /** `Object.entries(answers).filter(correct).length`; an entry past the end
      of the quiz would make the source fail, hence the precondition. */
  function Score(quiz: seq<Question>, answers: map<nat, string>): (r: nat)
    requires AnswersFit(quiz, answers)
    ensures r == CorrectCount(quiz, answers)
    ensures r + |Retry(quiz, answers)| == |quiz|
  {
    CorrectCountIsEntries(quiz, answers);
    CorrectPlusRetry(quiz, answers);
    |CorrectEntries(quiz, answers)|
  }

  /** The keys of an answer map that fits the quiz number as many as the
      quiz's positions exactly when every position is answered. */
  lemma {:induction false} CoverageByCount(keys: set<nat>, n: nat)
    requires forall k :: k in keys ==> k < n
    ensures |keys| == n <==> forall i :: 0 <= i < n ==> i in keys
  {
    if n == 0 {
      assert keys == {};
    } else {
      var rest := keys - {n - 1};
      CoverageByCount(rest, n - 1);
      if n - 1 in keys {
        assert |keys| == |rest| + 1;
        assert forall i :: 0 <= i < n - 1 ==> (i in rest <==> i in keys);
      } else {
        assert rest == keys;
        BoundedSetSize(keys, n - 1);
      }
    }
  }

  lemma {:induction false} BoundedSetSize(keys: set<nat>, n: nat)
    requires forall k :: k in keys ==> k < n
    ensures |keys| <= n
  {
    if n > 0 {
      BoundedSetSize(keys - {n - 1}, n - 1);
    } else {
      assert keys == {};
    }
  }

  /** Two questions answered "A" and "B"; the user answers "A" and "C": the
      score is 1 and the retry keeps only the second question. */
  lemma {:induction false} TwoQuestionExample(first: Question, second: Question)
    requires first.answer == Single("A") && second.answer == Single("B")
    ensures Score([first, second], map[0 := "A", 1 := "C"]) == 1
    ensures Retry([first, second], map[0 := "A", 1 := "C"]) == [second]
  {
    var quiz, answers := [first, second], map[0 := "A", 1 := "C"];
    assert quiz[..1] == [first];
    assert [first][..0] == [];
    assert CorrectAt(quiz, answers, 0) && !CorrectAt(quiz, answers, 1);
    assert Retry(quiz[..1], answers) == [];
    assert CorrectCount(quiz[..1], answers) == 1;
  }

  /** The session state of App.js. */
  class QuizSession {
    var quiz: seq<Question>
    var answers: map<nat, string>
    var started: bool
    var showResults: bool

    constructor ()
      ensures quiz == [] && answers == map[] && !started && !showResults
    {
      quiz := [];
      answers := map[];
      started := false;
      showResults := false;
    }

    /** Every position of the quiz has an answer. */
    predicate AllAnswered()
      reads this
    {
      forall i :: 0 <= i < |quiz| ==> i in answers
    }

    /** The start button: switches from the configuration screen to the quiz. */
    method Start()
      modifies this
      ensures started
      ensures quiz == old(quiz) && answers == old(answers) && showResults == old(showResults)
    {
      started := true;
    }

    /** `handleAnswer`: records the first answer given at a position and shows
        the results once the answer map covers the quiz. */
    method Answer(qIndex: nat, answer: string)
      requires qIndex < |quiz|
      modifies this
      ensures quiz == old(quiz) && started == old(started)
      ensures qIndex in old(answers) ==> answers == old(answers) && showResults == old(showResults)
      ensures qIndex !in old(answers) ==>
        answers == old(answers)[qIndex := answer] &&
        showResults == (old(showResults) || |answers| == |quiz|)
      ensures old(showResults) ==> showResults
      ensures AnswersFit(old(quiz), old(answers)) ==> AnswersFit(quiz, answers)
      ensures qIndex !in old(answers) && AnswersFit(old(quiz), old(answers)) ==>
        (showResults <==> old(showResults) || AllAnswered())
    {
      if qIndex in answers {
        return;
      }
      answers := answers[qIndex := answer];
      if |answers| == |quiz| {
        showResults := true;
      }
      if AnswersFit(quiz, answers) {
        CoverageByCount(answers.Keys, |quiz|);
      }
    }

    /** `handleRetryIncorrect`: the quiz shrinks to its wrongly answered and
        unanswered questions and starts over, still on the quiz screen. */
    method RetryIncorrect()
      modifies this
      ensures quiz == Retry(old(quiz), old(answers))
      ensures answers == map[] && !showResults && started
      ensures |quiz| + CorrectCount(old(quiz), old(answers)) == |old(quiz)|
    {
      CorrectPlusRetry(quiz, answers);
      quiz := Retry(quiz, answers);
      answers := map[];
      showResults := false;
      started := true;
    }

    /** The back-to-top button: clears the answers and the results and
        returns to the configuration screen; the quiz itself is kept. */
    method Reset()
      modifies this
      ensures answers == map[] && !showResults && !started
      ensures quiz == old(quiz)
    {
      answers := map[];
      showResults := false;
      started := false;
    }

    /** The derivation effect: replaces the quiz and leaves the answers as
        they are. */
    method Recompute(questions: seq<Question>, p: Params, picks: seq<nat>)
      modifies this
      ensures quiz == Derive(questions, p, picks, old(quiz))
      ensures answers == old(answers) && started == old(started) && showResults == old(showResults)
    {
      quiz := Derive(questions, p, picks, quiz);
    }
  }
}
