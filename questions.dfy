/**
 * Question records and the per-question rules app.js applies to them: the
 * recorded answer of a slot (`answers[i] || []`), the displayed number
 * (`it.numero || (i+1)`) and the letter-to-text lookup mapLettersToTexts
 * (app.js:224-227).
 */
module Questions {
  import opened Wrappers
  import opened Text

  /** One entry of `options`: `{label, text}` (`label` is a keyword of Dafny, so the field is `id`); a missing text is "". */
  datatype Choice = Choice(id: string, text: string)

  /**
   * A question record.  A missing `question`, `justificacion`, `options` or
   * `answer_letters` is the empty string or sequence, as the `|| ''` and
   * `|| []` defaults of app.js read them.
   */
  datatype Item = Item(
    numero: Option<int>,
    question: string,
    options: seq<Choice>,
    answerLetters: seq<string>,
    justificacion: string)

  /** One slot of `EXAM.answers`: unset (null) or the sorted letters chosen. */
  type Answer = Option<seq<string>>

  /** `answers[i] || []`: an unset or missing slot reads as no letters. */
  function AnswerAt(answers: seq<Answer>, i: nat): seq<string>
  {
    if i < |answers| && answers[i].Some? then answers[i].value else []
  }

  /** `it.numero || (i+1)`: the record's own number unless it is absent or 0. */
  function RowNumber(item: Item, i: nat): int
  {
    if item.numero.Some? && item.numero.value != 0 then item.numero.value else i + 1
  }

  /**
   * A correct answer: the recorded letters are the key's letters, each
   * as often, in any order.
   */
  predicate SameLetters(item: Item, got: seq<string>)
  {
    multiset(item.answerLetters) == multiset(got)
  }

  /**
   * Comparing the sorted key with the sorted answer, as the three copies of
   * the test in app.js do, is exactly the multiset comparison.
   */
  lemma SortedComparisonIsSameLetters(item: Item, got: seq<string>)
    ensures Sort(item.answerLetters) == Sort(got) <==> SameLetters(item, got)
  {
    SortEqualIffSameMultiset(item.answerLetters, got);
  }

  /** An unanswered slot never matches a non-empty key. */
  lemma UnsetNeverMatches(item: Item, answers: seq<Answer>, i: nat)
    requires item.answerLetters != []
    requires i >= |answers| || answers[i].None?
    ensures Sort(item.answerLetters) != Sort(AnswerAt(answers, i))
  {
    SortedComparisonIsSameLetters(item, AnswerAt(answers, i));
    assert item.answerLetters[0] in multiset(item.answerLetters);
  }

  // ---------------------------------------------------------------------
  // mapLettersToTexts
  // ---------------------------------------------------------------------

  /**
   * `new Map(options.map(o => [String(o.label).toLowerCase(), o.text || '']))`:
   * a later option overwrites an earlier one with the same key.
   */
  function LabelDict(options: seq<Choice>): map<string, string>
  {
    if options == [] then map[]
    else
      var last := options[|options| - 1];
      LabelDict(options[..|options| - 1])[Lower(last.id) := last.text]
  }

  /** `dict.get(String(l).toLowerCase()) || ''`. */
  function LookupText(options: seq<Choice>, letter: string): string
  {
    var d := LabelDict(options);
    var key := Lower(letter);
    if key in d then d[key] else ""
  }

  /** mapLettersToTexts: the texts of the letters, in the letters' order, empty ones dropped. */
  function MapLettersToTexts(item: Item, letters: seq<string>): (r: seq<string>)
    ensures |r| <= |letters|
    ensures forall k :: 0 <= k < |r| ==> r[k] != ""
  {
    if letters == [] then []
    else
      var t := LookupText(item.options, letters[0]);
      (if t == "" then [] else [t]) + MapLettersToTexts(item, letters[1..])
  }

  predicate LabelMatches(c: Choice, letter: string)
  {
    Lower(c.id) == Lower(letter)
  }

  /** With no option whose label matches, the lookup finds nothing. */
  lemma {:induction false} LookupTextNoMatch(options: seq<Choice>, letter: string)
    requires forall j :: 0 <= j < |options| ==> !LabelMatches(options[j], letter)
    ensures LookupText(options, letter) == ""
    decreases |options|
  {
    if options != [] {
      var init := options[..|options| - 1];
      assert forall j :: 0 <= j < |init| ==> init[j] == options[j];
      LookupTextNoMatch(init, letter);
    }
  }

  /**
   * The lookup is case-insensitive and finds the text of the last option
   * whose label matches.
   */
  lemma {:induction false} LookupTextLastMatch(options: seq<Choice>, letter: string, j: nat)
    requires j < |options| && LabelMatches(options[j], letter)
    requires forall j' :: j < j' < |options| ==> !LabelMatches(options[j'], letter)
    ensures LookupText(options, letter) == options[j].text
    decreases |options|
  {
    var n := |options|;
    if j < n - 1 {
      var init := options[..n - 1];
      assert !LabelMatches(options[n - 1], letter);
      assert forall j' :: j < j' < n - 1 ==> init[j'] == options[j'];
      LookupTextLastMatch(init, letter, j);
    }
  }

  /** Letters may be given in either case. */
  lemma {:induction false} MapLettersIgnoresCase(item: Item, letters: seq<string>)
    ensures MapLettersToTexts(item, letters) ==
            MapLettersToTexts(item, seq(|letters|, k requires 0 <= k < |letters| => Lower(letters[k])))
  {
    var lowered := seq(|letters|, k requires 0 <= k < |letters| => Lower(letters[k]));
    if letters != [] {
      MapLettersIgnoresCase(item, letters[1..]);
      LowerIdempotent(letters[0]);
      assert lowered[1..] == seq(|letters| - 1, k requires 0 <= k < |letters| - 1 => Lower(letters[1..][k]));
    }
  }

  /** When every letter has a non-empty text, no letter is dropped and the order is kept. */
  lemma {:induction false} MapLettersKeepsOrder(item: Item, letters: seq<string>)
    requires forall k :: 0 <= k < |letters| ==> LookupText(item.options, letters[k]) != ""
    ensures MapLettersToTexts(item, letters) ==
            seq(|letters|, k requires 0 <= k < |letters| => LookupText(item.options, letters[k]))
  {
    if letters != [] {
      MapLettersKeepsOrder(item, letters[1..]);
    }
  }

  /** The texts of concatenated letter lists are the concatenated texts. */
  lemma {:induction false} MapLettersAppend(item: Item, a: seq<string>, b: seq<string>)
    ensures MapLettersToTexts(item, a + b) == MapLettersToTexts(item, a) + MapLettersToTexts(item, b)
  {
    if a != [] {
      assert (a + b)[1..] == a[1..] + b;
      MapLettersAppend(item, a[1..], b);
    } else {
      assert a + b == b;
    }
  }

  /** A single letter gives its text, or nothing when it has none. */
  lemma MapOneLetter(item: Item, x: string)
    ensures var t := LookupText(item.options, x);
      MapLettersToTexts(item, [x]) == if t == "" then [] else [t]
  {
    assert [x][1..] == [];
  }

  /**
   * Letter `k` contributes its text, if it has one, at its place among the
   * texts of the letters before and after it.
   */
  lemma MapLettersAt(item: Item, letters: seq<string>, k: nat)
    requires k < |letters|
    ensures var t := LookupText(item.options, letters[k]);
      MapLettersToTexts(item, letters) ==
        MapLettersToTexts(item, letters[..k]) + (if t == "" then [] else [t]) + MapLettersToTexts(item, letters[k + 1..])
  {
    var pre, x, post := letters[..k], letters[k], letters[k + 1..];
    assert letters == pre + ([x] + post);
    MapLettersAppend(item, pre, [x] + post);
    MapLettersAppend(item, [x], post);
    MapOneLetter(item, x);
    Assoc(MapLettersToTexts(item, pre), MapLettersToTexts(item, [x]), MapLettersToTexts(item, post));
  }

  /** A letter that no label matches contributes nothing; the other texts keep their order. */
  lemma MapLettersDropsUnmatched(item: Item, letters: seq<string>, k: nat)
    requires k < |letters|
    requires forall j :: 0 <= j < |item.options| ==> !LabelMatches(item.options[j], letters[k])
    ensures MapLettersToTexts(item, letters) ==
            MapLettersToTexts(item, letters[..k]) + MapLettersToTexts(item, letters[k + 1..])
  {
    LookupTextNoMatch(item.options, letters[k]);
    MapLettersAt(item, letters, k);
  }
}
