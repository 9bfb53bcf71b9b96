/**
 * The exam session: the global EXAM record (app.js:41-44) and the way the
 * Start, Next and Finish handlers, the timer tick and finalize change it
 * (app.js:87-120, 158-216).
 *
 * The source has no explicit phase: which buttons a candidate can press
 * follows from which panel is shown.  The field `phase` records that
 * panel (welcome, exam, results), and each handler requires the phase in
 * which its button is on screen.  `timerArmed` stands for a non-null,
 * not yet cleared `EXAM.timerId`; `score` is what finalize writes into
 * the score and pass-status elements, `report` the text of
 * `EXAM.reportBlob`.
 */
module Session {
  import opened Wrappers
  import opened Text
  import opened Bank
  import opened Questions
  import opened Scoring
  import opened Report
  import opened Timer

  /** Questions drawn per attempt (`pickN(flat, 42)`). */
  const QuestionCount: nat := 42

  /** The argument of finalize; finalize itself does not look at it. */
  datatype Reason = Manual | Time

  datatype Phase = NotStarted | InProgress | Finished(reason: Reason)

  /** `BANK || []`: a missing bank flattens to nothing. */
  function BankOrEmpty(bank: Option<Tree<Item>>): Tree<Item>
  {
    match bank
    case Some(t) => t
    case None => Nest([])
  }

  /**
   * The candidate answers the questions in order: every slot before the
   * current one `i` holds a non-empty sorted selection, the slots after it
   * are unset, and while the exam runs the current one is unset too.
   */
  ghost predicate AnsweredInOrder(answers: seq<Answer>, i: nat, running: bool)
  {
    && (forall k :: 0 <= k < |answers| && answers[k].Some? ==>
          answers[k].value != [] && Sorted(answers[k].value))
    && (forall k :: 0 <= k < i && k < |answers| ==> answers[k].Some?)
    && (forall k :: i < k < |answers| ==> answers[k] == None)
    && (running && i < |answers| ==> answers[i] == None)
  }

  /** A fresh attempt: every slot unset, the first question current. */
  lemma FreshAnswersInOrder(n: nat)
    ensures AnsweredInOrder(seq(n, _ => None), 0, true)
  {
  }

  /** A finished exam carries the score and the CSV of its final answers; an unfinished one neither. */
  ghost predicate Outcome(items: seq<Item>, answers: seq<Answer>, phase: Phase, score: Option<Score>, report: Option<string>)
  {
    && (phase.Finished? ==>
          score == Some(ScoreOf(items, answers)) && report == Some(SimpleCsvText(items, answers)))
    && (!phase.Finished? ==> score == None && report == None)
  }

  class Exam {
    var items: seq<Item>
    var i: nat
    var answers: seq<Answer>
    var deadline: int
    var timerArmed: bool
    var phase: Phase
    var score: Option<Score>
    var report: Option<string>

    /**
     * The record as the handlers keep it: one answer slot per question, a
     * tick scheduled exactly while the exam runs, no questions before the
     * start, answers given in order and the outcome set once finished.
     */
    ghost predicate Valid()
      reads this
    {
      && |answers| == |items|
      && (timerArmed <==> phase == InProgress)
      && (phase == NotStarted ==> items == [] && i == 0 && deadline == 0)
      && (phase != NotStarted ==> 0 < |items| <= QuestionCount && i < |items|)
      && AnsweredInOrder(answers, i, phase == InProgress)
      && Outcome(items, answers, phase, score, report)
    }

    /** The initial EXAM record, on the welcome panel. */
    constructor ()
      ensures Valid() && phase == NotStarted
      ensures items == [] && answers == [] && i == 0 && deadline == 0 && !timerArmed
      ensures score == None && report == None
    {
      items := [];
      i := 0;
      answers := [];
      deadline := 0;
      timerArmed := false;
      phase := NotStarted;
      score := None;
      report := None;
    }

    /**
     * finalize: clear the timer, count the correct answers, build the
     * simple CSV and switch to the results panel.
     */
    method Finalize(reason: Reason)
      requires |answers| == |items|
      modifies this
      ensures phase == Finished(reason) && !timerArmed
      ensures score == Some(ScoreOf(items, answers))
      ensures report == Some(SimpleCsvText(items, answers))
      ensures items == old(items) && i == old(i) && answers == old(answers) && deadline == old(deadline)
    {
      timerArmed := false;
      var s := ScoreAttempt(items, answers);
      score := Some(s);
      var csv := BuildSimpleCsv(items, answers);
      report := Some(csv);
      phase := Finished(reason);
    }

    /**
     * The Start button at time `now`, with the bank, the `mins` override
     * and the draws standing in for Math.random.  An empty bank changes
     * nothing; otherwise up to 42 questions are drawn, every answer slot
     * is unset, the deadline is set and the timer started, which finishes
     * the exam at once when the deadline is not in the future.
     */
    method Start(bank: Option<Tree<Item>>, overrideMinutes: Option<int>, now: int, draws: seq<nat>)
      returns (started: bool)
      requires Valid() && phase == NotStarted
      requires DrawsFit(draws, |Leaves(BankOrEmpty(bank))|)
      modifies this
      ensures Valid()
      ensures started <==> Leaves(BankOrEmpty(bank)) != []
      ensures !started ==> unchanged(this)
      ensures started ==>
        && items == PickN(Leaves(BankOrEmpty(bank)), QuestionCount, draws)
        && i == 0 && answers == seq(|items|, _ => None)
        && deadline == now + Duration(overrideMinutes)
        && timerArmed == StartTimer(deadline, now).armed
        && phase == (if now >= deadline then Finished(Time) else InProgress)
    {
      var flat := FlattenBank(BankOrEmpty(bank));
      if |flat| == 0 {
        return false;
      }
      var picked := PickN(flat, QuestionCount, draws);
      var unset: seq<Answer> := seq(|picked|, _ => None);
      FreshAnswersInOrder(|picked|);
      items := picked;
      i := 0;
      answers := unset;
      deadline := now + Duration(overrideMinutes);
      // startTimer, with the periodic tick scheduled before the first one runs
      phase := InProgress;
      timerArmed := true;
      var _ := Tick(now);
      return true;
    }

    /**
     * The Next button with the checked option labels.  An empty selection
     * changes nothing; otherwise the sorted selection is recorded for the
     * current question and the candidate moves on, or, on the last
     * question, the exam finishes.
     */
    method Next(selected: seq<string>) returns (accepted: bool)
      requires Valid() && phase == InProgress
      modifies this
      ensures Valid()
      ensures accepted <==> selected != []
      ensures !accepted ==> unchanged(this)
      ensures accepted ==>
        && items == old(items) && deadline == old(deadline)
        && answers == old(answers)[old(i) := Some(Sort(selected))]
      ensures accepted && old(i) == |items| - 1 ==> i == old(i) && phase == Finished(Manual)
      ensures accepted && old(i) < |items| - 1 ==> i == old(i) + 1 && phase == InProgress
    {
      if |selected| == 0 {
        return false;
      }
      var sorted := Sort(selected);
      SortFacts(selected);
      answers := answers[i := Some(sorted)];
      if i == |items| - 1 {
        Finalize(Manual);
      } else {
        i := i + 1;
      }
      return true;
    }

    /**
     * The Finish button: when the candidate confirms, the exam finishes
     * with the answers given so far; otherwise nothing changes.
     */
    method Finish(confirmed: bool)
      requires Valid() && phase == InProgress
      modifies this
      ensures Valid()
      ensures !confirmed ==> unchanged(this)
      ensures confirmed ==>
        && phase == Finished(Manual)
        && items == old(items) && i == old(i) && answers == old(answers) && deadline == old(deadline)
    {
      if confirmed {
        Finalize(Manual);
      }
    }

    /** One tick of the scheduled timer at time `now`: the display, and the end of the exam once time is up. */
    method Tick(now: int) returns (view: TimerView)
      requires Valid() && timerArmed
      modifies this
      ensures Valid()
      ensures view == TickView(deadline, now)
      ensures items == old(items) && i == old(i) && answers == old(answers) && deadline == old(deadline)
      ensures phase == (if now >= deadline then Finished(Time) else InProgress)
      ensures timerArmed <==> now < deadline
      ensures now < deadline ==> unchanged(this)
    {
      view := TickView(deadline, now);
      if view.left <= 0 {
        Finalize(Time);
      }
    }
  }
}
