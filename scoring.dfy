/**
 * The scoring part of finalize (app.js:189-200): the number of correct
 * items, the number required, ceil(0.7 * total), and the pass verdict.
 * The grade `correct/total*20` is a floating-point display value and is
 * represented by the pair (correct, total).
 */
module Scoring {
  import opened Text
  import opened Questions

  datatype Score = Score(correct: nat, total: nat, required: nat, passed: bool)

  /** `Math.ceil(0.7 * total)`, with 0.7 taken as the exact fraction 7/10. */
  function Required(total: nat): nat
  {
    (7 * total + 9) / 10
  }

  /** Required(total) is the least count whose tenfold reaches 7 * total. */
  lemma RequiredIsCeiling(total: nat)
    ensures 10 * Required(total) >= 7 * total
    ensures Required(total) == 0 || 10 * (Required(total) - 1) < 7 * total
  {
  }

  /** The number of the first `n` items whose sorted key equals the sorted answer. */
  function CountCorrect(items: seq<Item>, answers: seq<Answer>, n: nat): (c: nat)
    requires n <= |items|
    ensures c <= n
  {
    if n == 0 then 0
    else
      CountCorrect(items, answers, n - 1) +
      (if Sort(items[n - 1].answerLetters) == Sort(AnswerAt(answers, n - 1)) then 1 else 0)
  }

  function ScoreOf(items: seq<Item>, answers: seq<Answer>): Score
  {
    var c := CountCorrect(items, answers, |items|);
    Score(c, |items|, Required(|items|), c >= Required(|items|))
  }

  /** The scoring loop of finalize. */
  method ScoreAttempt(items: seq<Item>, answers: seq<Answer>) returns (s: Score)
    ensures s == ScoreOf(items, answers)
    ensures s.total == |items| && s.correct <= s.total
    ensures 10 * s.required >= 7 * s.total
    ensures s.required == 0 || 10 * (s.required - 1) < 7 * s.total
    ensures s.passed <==> s.correct >= s.required
  {
    var total := |items|;
    var correct := 0;
    for i := 0 to total
      invariant correct == CountCorrect(items, answers, i)
    {
      var need := Sort(items[i].answerLetters);
      var got := Sort(AnswerAt(answers, i));
      if need == got {
        correct := correct + 1;
      }
    }
    var required := Required(total);
    RequiredIsCeiling(total);
    s := Score(correct, total, required, correct >= required);
  }

  /** The indices of the first `n` items answered with exactly the key's letters. */
  ghost function CorrectSet(items: seq<Item>, answers: seq<Answer>, n: nat): set<nat>
    requires n <= |items|
  {
    set i: nat | i < n && SameLetters(items[i], AnswerAt(answers, i))
  }

  /** One more item adds its index exactly when it is answered with the key's letters. */
  lemma CorrectSetStep(items: seq<Item>, answers: seq<Answer>, n: nat)
    requires 0 < n <= |items|
    ensures n - 1 !in CorrectSet(items, answers, n - 1)
    ensures CorrectSet(items, answers, n) ==
            CorrectSet(items, answers, n - 1) +
            (if SameLetters(items[n - 1], AnswerAt(answers, n - 1)) then {n - 1} else {})
  {
  }

  /** The count is the number of items whose answer holds exactly the key's letters. */
  lemma {:induction false} CountIsSameLetterItems(items: seq<Item>, answers: seq<Answer>, n: nat)
    requires n <= |items|
    ensures CountCorrect(items, answers, n) == |CorrectSet(items, answers, n)|
  {
    if n > 0 {
      CountIsSameLetterItems(items, answers, n - 1);
      SortedComparisonIsSameLetters(items[n - 1], AnswerAt(answers, n - 1));
      CorrectSetStep(items, answers, n);
    }
  }

  /** Rearranging any recorded answer leaves the score unchanged. */
  lemma {:induction false} ScoreIgnoresLetterOrder(items: seq<Item>, a: seq<Answer>, b: seq<Answer>, n: nat)
    requires n <= |items|
    requires forall i :: 0 <= i < n ==> multiset(AnswerAt(a, i)) == multiset(AnswerAt(b, i))
    ensures CountCorrect(items, a, n) == CountCorrect(items, b, n)
  {
    if n > 0 {
      ScoreIgnoresLetterOrder(items, a, b, n - 1);
      SortedComparisonIsSameLetters(items[n - 1], AnswerAt(a, n - 1));
      SortedComparisonIsSameLetters(items[n - 1], AnswerAt(b, n - 1));
    }
  }

  /** Answering every item with its key's letters scores every item. */
  lemma {:induction false} AllCorrectCount(items: seq<Item>, answers: seq<Answer>, n: nat)
    requires n <= |items|
    requires forall i :: 0 <= i < n ==> SameLetters(items[i], AnswerAt(answers, i))
    ensures CountCorrect(items, answers, n) == n
  {
    if n > 0 {
      AllCorrectCount(items, answers, n - 1);
      SortedComparisonIsSameLetters(items[n - 1], AnswerAt(answers, n - 1));
    }
  }

  /** A fully correct attempt gets every item and passes. */
  lemma AllCorrectPasses(items: seq<Item>, answers: seq<Answer>)
    requires forall i :: 0 <= i < |items| ==> SameLetters(items[i], AnswerAt(answers, i))
    ensures ScoreOf(items, answers).correct == |items|
    ensures ScoreOf(items, answers).passed
  {
    AllCorrectCount(items, answers, |items|);
    RequiredIsCeiling(|items|);
  }

  /** The worked values of the pass rule: 7 of 10 passes, 6 of 10 fails, 42 items need 30. */
  lemma PassThresholdExamples()
    ensures Required(10) == 7 && 7 >= Required(10) && !(6 >= Required(10))
    ensures Required(42) == 30
  {
  }
}
