/**
 * The report builders: buildFriendlyRows (app.js:229-247), the five-column
 * buildSimpleCsv (app.js:250-258), the nine-column buildCsvReport
 * (app.js:18-38) and the cells of the printable page (app.js:289-295).
 */
module Report {
  import opened Wrappers
  import opened Text
  import opened Csv
  import opened Html
  import opened Questions
  import opened Scoring

  /** One row of the user-facing report. */
  datatype FriendlyRow = FriendlyRow(num: int, pregunta: string, usuario: string, correcta: string, estado: string)

  /** Row `i` as buildFriendlyRows derives it. */
  function FriendlyRowAt(items: seq<Item>, answers: seq<Answer>, i: nat): FriendlyRow
    requires i < |items|
  {
    var it := items[i];
    var correctLetters := Sort(it.answerLetters);
    var userLetters := Sort(AnswerAt(answers, i));
    FriendlyRow(
      RowNumber(it, i),
      it.question,
      Join(MapLettersToTexts(it, userLetters), " | "),
      Join(MapLettersToTexts(it, correctLetters), " | "),
      if correctLetters == userLetters then "Correcta" else "Incorrecta")
  }

  /** buildFriendlyRows: one row per item, in item order. */
  method BuildFriendlyRows(items: seq<Item>, answers: seq<Answer>) returns (rows: seq<FriendlyRow>)
    ensures |rows| == |items|
    ensures forall i :: 0 <= i < |items| ==> rows[i] == FriendlyRowAt(items, answers, i)
  {
    rows := [];
    for i := 0 to |items|
      invariant |rows| == i
      invariant forall k :: 0 <= k < i ==> rows[k] == FriendlyRowAt(items, answers, k)
    {
      rows := rows + [FriendlyRowAt(items, answers, i)];
    }
  }

  /**
   * A row says "Correcta" exactly when the answer holds the key's letters;
   * its number is the record's own or the position; an unanswered question
   * shows no user text and, with a non-empty key, "Incorrecta".
   */
  lemma FriendlyRowFacts(items: seq<Item>, answers: seq<Answer>, i: nat)
    requires i < |items|
    ensures var r := FriendlyRowAt(items, answers, i);
      && (r.estado == "Correcta" || r.estado == "Incorrecta")
      && (r.estado == "Correcta" <==> SameLetters(items[i], AnswerAt(answers, i)))
      && r.num != 0
      && (items[i].numero.Some? && items[i].numero.value != 0 ==> r.num == items[i].numero.value)
      && (items[i].numero.None? || items[i].numero.value == 0 ==> r.num == i + 1)
      && (AnswerAt(answers, i) == [] ==> r.usuario == "")
      && (AnswerAt(answers, i) == [] && items[i].answerLetters != [] ==> r.estado == "Incorrecta")
  {
    SortedComparisonIsSameLetters(items[i], AnswerAt(answers, i));
    if AnswerAt(answers, i) == [] && items[i].answerLetters != [] {
      assert items[i].answerLetters[0] in multiset(items[i].answerLetters);
    }
  }

  // ---------------------------------------------------------------------
  // buildSimpleCsv
  // ---------------------------------------------------------------------

  /** The simple report's column titles. */
  const SimpleHeader: seq<string> :=
    ["N°", "Pregunta", "Respuesta del usuario", "Respuesta correcta", "Estado"]

  function SimpleCells(r: FriendlyRow): seq<Cell>
  {
    [Num(r.num), Str(r.pregunta), Str(r.usuario), Str(r.correcta), Str(r.estado)]
  }

  /** The five fields of record `i` of the simple report, as text. */
  function SimpleRecord(items: seq<Item>, answers: seq<Answer>, i: nat): seq<string>
    requires i < |items|
  {
    Texts(SimpleCells(FriendlyRowAt(items, answers, i)))
  }

  /** Line `i + 1` of the simple report: row `i`, escaped. */
  function SimpleLine(items: seq<Item>, answers: seq<Answer>, i: nat): string
    requires i < |items|
  {
    EscapedLine(SimpleCells(FriendlyRowAt(items, answers, i)))
  }

  /** The `lines` of buildSimpleCsv: the escaped header, then one line per row. */
  function SimpleLines(items: seq<Item>, answers: seq<Answer>): seq<string>
  {
    [EscapedLine(StrCells(SimpleHeader))] +
    seq(|items|, i requires 0 <= i < |items| => SimpleLine(items, answers, i))
  }

  /** Line `i + 1` of the simple report is record `i`. */
  lemma SimpleLinesAt(items: seq<Item>, answers: seq<Answer>, i: nat)
    requires i < |items|
    ensures |SimpleLines(items, answers)| == |items| + 1
    ensures SimpleLines(items, answers)[i + 1] == SimpleLine(items, answers, i)
  {
  }

  /** The text buildSimpleCsv returns. */
  function SimpleCsvText(items: seq<Item>, answers: seq<Answer>): string
  {
    Document(SimpleLines(items, answers))
  }

  /** Each record line of the simple report is its escaped record. */
  lemma SimpleLineEncodes(items: seq<Item>, answers: seq<Answer>, i: nat)
    requires i < |items|
    ensures Encodes(SimpleLine(items, answers, i), SimpleRecord(items, answers, i))
  {
    EscapedLineOfTexts(SimpleCells(FriendlyRowAt(items, answers, i)));
  }

  /** The simple report reads back as its header followed by one record per item, in order. */
  lemma SimpleCsvReads(items: seq<Item>, answers: seq<Answer>)
    ensures ReadCsv(SimpleCsvText(items, answers)) ==
            Some([SimpleHeader] + seq(|items|, i requires 0 <= i < |items| => SimpleRecord(items, answers, i)))
  {
    var body := seq(|items|, i requires 0 <= i < |items| => SimpleLine(items, answers, i));
    var recs := seq(|items|, i requires 0 <= i < |items| => SimpleRecord(items, answers, i));
    forall k | 0 <= k < |body| ensures Encodes(body[k], recs[k]) {
      SimpleLineEncodes(items, answers, k);
    }
    ReadHeaderAndRecords(EscapedLine(StrCells(SimpleHeader)), SimpleHeader, body, recs);
  }

  /** buildSimpleCsv: the escaped header, then one escaped record per row, joined by CRLF. */
  method BuildSimpleCsv(items: seq<Item>, answers: seq<Answer>) returns (csv: string)
    ensures csv == SimpleCsvText(items, answers)
    ensures ReadCsv(csv) ==
            Some([SimpleHeader] + seq(|items|, i requires 0 <= i < |items| => SimpleRecord(items, answers, i)))
  {
    ghost var all := SimpleLines(items, answers);
    var rows := BuildFriendlyRows(items, answers);
    var lines := [EscapedLine(StrCells(SimpleHeader))];
    for k := 0 to |rows|
      invariant |all| == |items| + 1
      invariant lines == all[..k + 1]
    {
      var line := EscapedLine(SimpleCells(rows[k]));
      SimpleLinesAt(items, answers, k);
      PrefixStep(all, k);
      lines := lines + [line];
    }
    assert all[..|all|] == all;
    assert lines == all;
    csv := Document(lines);
    SimpleCsvReads(items, answers);
  }

  // ---------------------------------------------------------------------
  // buildCsvReport
  // ---------------------------------------------------------------------

  /** The detailed report's column titles, written without quoting. */
  const DetailedHeader: seq<string> := [
    "Nro", "Pregunta", "Tipo", "Opciones (label:text)",
    "Correctas (letras)", "Marcadas (letras)", "Estado",
    "Respuesta correcta (expandida)", "Justificacion"]

  /** `options.map(o => LABEL + ': ' + text).join(' | ')`. */
  function OptionsText(options: seq<Choice>): string
  {
    Join(seq(|options|, k requires 0 <= k < |options| => Upper(options[k].id) + ": " + options[k].text), " | ")
  }

  /** `options.filter(o => letters.includes(o.label))`: the options named by a key letter, in option order. */
  function KeyChoices(options: seq<Choice>, letters: seq<string>): seq<Choice>
  {
    if options == [] then []
    else (if options[0].id in letters then [options[0]] else []) + KeyChoices(options[1..], letters)
  }

  /** The filter keeps exactly the options whose label is one of the letters, compared as written. */
  lemma {:induction false} KeyChoicesFacts(options: seq<Choice>, letters: seq<string>)
    ensures forall c :: c in KeyChoices(options, letters) <==> c in options && c.id in letters
  {
    if options != [] {
      KeyChoicesFacts(options[1..], letters);
      assert options == [options[0]] + options[1..];
    }
  }

  function ExpandedText(options: seq<Choice>, letters: seq<string>): string
  {
    var kc := KeyChoices(options, letters);
    Join(seq(|kc|, k requires 0 <= k < |kc| => Upper(kc[k].id) + ". " + kc[k].text), " | ")
  }

  /** The nine fields record `i` of the detailed report is made from. */
  function DetailedCells(items: seq<Item>, answers: seq<Answer>, i: nat): seq<Cell>
    requires i < |items|
  {
    var it := items[i];
    var correctas := Sort(it.answerLetters);
    var marcadas := Sort(AnswerAt(answers, i));
    [ Num(RowNumber(it, i)),
      Str(it.question),
      Str(if |it.answerLetters| > 1 then "Multiple" else "Unica"),
      Str(OptionsText(it.options)),
      Str(Join(correctas, ",")),
      Str(Join(marcadas, ",")),
      Str(if correctas == marcadas then "Correcta" else "Incorrecta"),
      Str(ExpandedText(it.options, correctas)),
      Str(it.justificacion) ]
  }

  /** The nine fields of record `i` of the detailed report, as text. */
  function DetailedRecord(items: seq<Item>, answers: seq<Answer>, i: nat): seq<string>
    requires i < |items|
  {
    Texts(DetailedCells(items, answers, i))
  }

  /** `row.map(csvEscape).join(',')` for record `i`. */
  function DetailedLine(items: seq<Item>, answers: seq<Answer>, i: nat): string
    requires i < |items|
  {
    EscapedLine(DetailedCells(items, answers, i))
  }

  /** `rows.map(r => r.join(','))`: the bare header, then one escaped line per item. */
  function DetailedLines(items: seq<Item>, answers: seq<Answer>): seq<string>
  {
    [Join(DetailedHeader, ",")] +
    seq(|items|, i requires 0 <= i < |items| => DetailedLine(items, answers, i))
  }

  /** Line `i + 1` of the detailed report is record `i`. */
  lemma DetailedLinesAt(items: seq<Item>, answers: seq<Answer>, i: nat)
    requires i < |items|
    ensures |DetailedLines(items, answers)| == |items| + 1
    ensures DetailedLines(items, answers)[i + 1] == DetailedLine(items, answers, i)
  {
  }

  /** The text buildCsvReport returns; its header line is not quoted. */
  function DetailedCsvText(items: seq<Item>, answers: seq<Answer>): string
  {
    Document(DetailedLines(items, answers))
  }

  /** The short header titles need no quoting. */
  lemma ShortTitlesBare()
    ensures Bare("Nro") && Bare("Pregunta") && Bare("Tipo") && Bare("Estado") && Bare("Justificacion")
  {
  }

  /** Nor do the long ones. */
  lemma LongTitlesBare()
    ensures Bare("Opciones (label:text)") && Bare("Correctas (letras)") && Bare("Marcadas (letras)")
    ensures Bare("Respuesta correcta (expandida)")
  {
  }

  /** Every title of the detailed header is written without quotes. */
  lemma DetailedHeaderBare()
    ensures forall k :: 0 <= k < |DetailedHeader| ==> Bare(DetailedHeader[k])
  {
    ShortTitlesBare();
    LongTitlesBare();
    forall k | 0 <= k < |DetailedHeader| ensures Bare(DetailedHeader[k]) {
      if k == 0 { assert DetailedHeader[k] == "Nro"; }
      else if k == 1 { assert DetailedHeader[k] == "Pregunta"; }
      else if k == 2 { assert DetailedHeader[k] == "Tipo"; }
      else if k == 3 { assert DetailedHeader[k] == "Opciones (label:text)"; }
      else if k == 4 { assert DetailedHeader[k] == "Correctas (letras)"; }
      else if k == 5 { assert DetailedHeader[k] == "Marcadas (letras)"; }
      else if k == 6 { assert DetailedHeader[k] == "Estado"; }
      else if k == 7 { assert DetailedHeader[k] == "Respuesta correcta (expandida)"; }
      else { assert DetailedHeader[k] == "Justificacion"; }
    }
  }

  /** The detailed header line is its fields joined bare. */
  lemma DetailedHeaderEncodes()
    ensures Encodes(Join(DetailedHeader, ","), DetailedHeader)
  {
    DetailedHeaderBare();
  }

  /** Each record line of the detailed report is its escaped record. */
  lemma DetailedLineEncodes(items: seq<Item>, answers: seq<Answer>, i: nat)
    requires i < |items|
    ensures Encodes(DetailedLine(items, answers, i), DetailedRecord(items, answers, i))
  {
    EscapedLineOfTexts(DetailedCells(items, answers, i));
  }

  /** The detailed report reads back as its header followed by one nine-field record per item. */
  lemma DetailedCsvReads(items: seq<Item>, answers: seq<Answer>)
    ensures ReadCsv(DetailedCsvText(items, answers)) ==
            Some([DetailedHeader] + seq(|items|, i requires 0 <= i < |items| => DetailedRecord(items, answers, i)))
  {
    var body := seq(|items|, i requires 0 <= i < |items| => DetailedLine(items, answers, i));
    var recs := seq(|items|, i requires 0 <= i < |items| => DetailedRecord(items, answers, i));
    forall k | 0 <= k < |body| ensures Encodes(body[k], recs[k]) {
      DetailedLineEncodes(items, answers, k);
    }
    var header := Join(DetailedHeader, ",");
    DetailedHeaderEncodes();
    ReadHeaderAndRecords(header, DetailedHeader, body, recs);
  }

  /** buildCsvReport: the header, then one escaped nine-field record per item, joined by CRLF. */
  method BuildCsvReport(items: seq<Item>, answers: seq<Answer>) returns (csv: string)
    ensures csv == DetailedCsvText(items, answers)
    ensures ReadCsv(csv) ==
            Some([DetailedHeader] + seq(|items|, i requires 0 <= i < |items| => DetailedRecord(items, answers, i)))
  {
    ghost var all := DetailedLines(items, answers);
    var header := Join(DetailedHeader, ",");
    assert header == all[0];
    var rows := [header];
    for i := 0 to |items|
      invariant |all| == |items| + 1
      invariant rows == all[..i + 1]
    {
      var line := DetailedLine(items, answers, i);
      DetailedLinesAt(items, answers, i);
      PrefixStep(all, i);
      rows := rows + [line];
    }
    assert all[..|all|] == all;
    assert rows == all;
    csv := Document(rows);
    DetailedCsvReads(items, answers);
  }

  /**
   * What the detailed record of an item says: "Multiple" exactly for a key
   * of more than one letter, "Correcta" exactly when the answer holds the
   * key's letters, and the same number, question and verdict as the simple
   * report.
   */
  lemma DetailedRecordFacts(items: seq<Item>, answers: seq<Answer>, i: nat)
    requires i < |items|
    ensures var d := DetailedRecord(items, answers, i);
      && |d| == 9
      && (d[2] == "Multiple" <==> |items[i].answerLetters| > 1)
      && (d[6] == "Correcta" <==> SameLetters(items[i], AnswerAt(answers, i)))
      && d[0] == SimpleRecord(items, answers, i)[0]
      && d[1] == SimpleRecord(items, answers, i)[1]
      && d[6] == SimpleRecord(items, answers, i)[4]
  {
    var cells := DetailedCells(items, answers, i);
    var d := DetailedRecord(items, answers, i);
    var r := FriendlyRowAt(items, answers, i);
    var sr := SimpleRecord(items, answers, i);
    var same := Sort(items[i].answerLetters) == Sort(AnswerAt(answers, i));
    assert d == Texts(cells);
    assert sr == Texts(SimpleCells(r));
    assert d[2] == (if |items[i].answerLetters| > 1 then "Multiple" else "Unica");
    assert d[6] == (if same then "Correcta" else "Incorrecta");
    assert sr[4] == r.estado == (if same then "Correcta" else "Incorrecta");
    assert d[0] == IntToDecimal(RowNumber(items[i], i)) == sr[0];
    assert d[1] == items[i].question == sr[1];
    SortedComparisonIsSameLetters(items[i], AnswerAt(answers, i));
  }

  /** The expanded answer names exactly the options whose label is a letter of the key. */
  lemma ExpandedAnswerNamesKey(options: seq<Choice>, key: seq<string>)
    ensures forall c :: c in KeyChoices(options, Sort(key)) <==> c in options && c.id in key
  {
    KeyChoicesFacts(options, Sort(key));
    SortFacts(key);
    forall x ensures x in Sort(key) <==> x in key {
      assert x in Sort(key) <==> x in multiset(Sort(key));
      assert x in key <==> x in multiset(key);
    }
  }

  // ---------------------------------------------------------------------
  // The three sites of the correctness test agree
  // ---------------------------------------------------------------------

  /** The items whose simple-report row says "Correcta". */
  ghost function MarkedCorrect(items: seq<Item>, answers: seq<Answer>): set<nat>
  {
    set i: nat | i < |items| && FriendlyRowAt(items, answers, i).estado == "Correcta"
  }

  /**
   * The score of finalize counts exactly the rows both reports mark
   * "Correcta": the copies of the test at app.js:32, :194 and :237 agree.
   */
  lemma ScoreAgreesWithReports(items: seq<Item>, answers: seq<Answer>)
    ensures ScoreOf(items, answers).correct == |MarkedCorrect(items, answers)|
    ensures forall i :: 0 <= i < |items| ==>
              DetailedRecord(items, answers, i)[6] == FriendlyRowAt(items, answers, i).estado
  {
    CountIsSameLetterItems(items, answers, |items|);
    forall i | 0 <= i < |items|
      ensures FriendlyRowAt(items, answers, i).estado == "Correcta" <==> SameLetters(items[i], AnswerAt(answers, i))
      ensures DetailedRecord(items, answers, i)[6] == FriendlyRowAt(items, answers, i).estado
    {
      FriendlyRowFacts(items, answers, i);
      DetailedRecordFacts(items, answers, i);
    }
    assert MarkedCorrect(items, answers) == CorrectSet(items, answers, |items|);
  }

  // ---------------------------------------------------------------------
  // The printable page
  // ---------------------------------------------------------------------

  /**
   * The escaped question, user answer and correct answer cells of the
   * printable page decode to the same texts as the simple CSV's record.
   */
  lemma PrintableRowMatchesCsv(items: seq<Item>, answers: seq<Answer>, i: nat)
    requires i < |items|
    ensures var r := FriendlyRowAt(items, answers, i);
      && UnescapeHtml(PdfCell(r.pregunta)) == SimpleRecord(items, answers, i)[1]
      && UnescapeHtml(PdfCell(r.usuario)) == SimpleRecord(items, answers, i)[2]
      && UnescapeHtml(PdfCell(r.correcta)) == SimpleRecord(items, answers, i)[3]
  {
    var r := FriendlyRowAt(items, answers, i);
    PdfCellSafe(r.pregunta);
    PdfCellSafe(r.usuario);
    PdfCellSafe(r.correcta);
  }

  /** An example: one item answered correctly gives a header and the record "1","Q1","X","X","Correcta". */
  lemma SimpleCsvExample()
    ensures var items := [Item(Some(1), "Q1", [Choice("a", "X"), Choice("b", "Y")], ["a"], "")];
      var answers := [Some(["a"])];
      && SimpleRecord(items, answers, 0) == ["1", "Q1", "X", "X", "Correcta"]
      && ReadCsv(SimpleCsvText(items, answers)) == Some([SimpleHeader, ["1", "Q1", "X", "X", "Correcta"]])
  {
    var opts := [Choice("a", "X"), Choice("b", "Y")];
    var item := Item(Some(1), "Q1", opts, ["a"], "");
    var items := [item];
    var answers := [Some(["a"])];
    assert Lower("a") == "a" && Lower("b") == "b";
    assert !LabelMatches(opts[1], "a") by { assert "b" != "a"; }
    LookupTextLastMatch(opts, "a", 0);
    assert MapLettersToTexts(item, ["a"]) == ["X"];
    assert Sort(["a"]) == ["a"];
    assert AnswerAt(answers, 0) == ["a"];
    assert Join(["X"], " | ") == "X";
    var row := FriendlyRowAt(items, answers, 0);
    assert row == FriendlyRow(1, "Q1", "X", "X", "Correcta");
    assert IntToDecimal(1) == "1";
    assert SimpleRecord(items, answers, 0) == ["1", "Q1", "X", "X", "Correcta"];
    SimpleCsvReads(items, answers);
    assert [SimpleHeader] + seq(1, i requires 0 <= i < 1 => SimpleRecord(items, answers, i))
        == [SimpleHeader, ["1", "Q1", "X", "X", "Correcta"]];
  }
}
