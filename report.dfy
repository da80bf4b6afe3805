/**
 * The results workbook (`export_to_excel`, corretor.py) without openpyxl:
 * the header row, one row per variant of the key with its correct letters,
 * and one row per graded sheet with its answers and total, plus the colour
 * of each answer cell. Weights and totals are exact reals.
 */
module Report {
  import opened Wrappers
  import opened Text
  import opened Sorting
  import opened Dicts
  import opened Decimals
  import opened AnswerKey
  import opened Sheet

  /** A worksheet cell: text, a whole number (the student number) or an amount (the total). */
  datatype Cell = Text(s: string) | Number(n: int) | Amount(r: real)

  /** The three fills of the answer cells. */
  datatype Fill = Green | Yellow | Red

  /** A student's row and the fills of its answer cells, left to right. */
  datatype StudentRow = StudentRow(cells: seq<Cell>, fills: seq<Fill>)

  datatype Workbook = Workbook(header: seq<Cell>, keyRows: seq<seq<Cell>>, students: seq<StudentRow>)

  /**
   * How the export fails: `next(iter(...))` on an empty key raises
   * StopIteration, and a variant without one of the first variant's
   * questions raises KeyError.
   */
  datatype ExportError = EmptyKey | MissingQuestion(variant: string, question: string)

  // ---------- header and key rows ----------

  function TextCells(ss: seq<string>): (cs: seq<Cell>)
    ensures |cs| == |ss| && forall i :: 0 <= i < |ss| ==> cs[i] == Text(ss[i])
  {
    seq(|ss|, i requires 0 <= i < |ss| => Text(ss[i]))
  }

  /** The column questions: those of the first variant, in its order. */
  function ColumnQuestions(key: Key): seq<string>
    requires key.keys != [] && ValidKey(key)
  {
    key.entries[key.keys[0]].keys
  }

  /**
   * For a key read from a file, the question columns are the questions of the
   * variant the file names first, in the order in which the file first names them.
   */
  lemma ColumnsFromFile(text: string)
    requires LoadKey(text).Success? && LineVariants(Lines(text)) != []
    ensures LoadKey(text).value.keys != [] && ValidKey(LoadKey(text).value)
    ensures ColumnQuestions(LoadKey(text).value) == Firsts([], LineQuestions(Lines(text), LineVariants(Lines(text))[0]))
  {
    LoadKeyMeaning(text);
    FirstColumns(LoadKey(text).value, LineVariants(Lines(text)));
  }

  lemma FirstColumns(key: Key, names: seq<string>)
    requires ValidKey(key) && names != [] && key.keys == Firsts([], names)
    ensures key.keys != [] && ColumnQuestions(key) == Questions(key, names[0]).keys
  {
    var empty: seq<string> := [];
    assert empty + [names[0]] == [names[0]];
    assert key.keys == Firsts([names[0]], names[1..]);
    FirstsMeaning([names[0]], names[1..]);
    assert key.keys[0] == names[0];
  }

  function Header(questions: seq<string>): seq<Cell> {
    [Text("Aluno"), Text("Prova")] + TextCells(questions) + [Text("Total")]
  }

  /** `sorted(gabarito.keys())`. */
  function SortedVariants(key: Key): seq<string> {
    Sort(key.keys, LessEq)
  }

  /** The correct letters of the first n questions of variant v, or the first missing question. */
  function KeyCells(v: string, d: Dict<string, Entry>, questions: seq<string>, n: nat): Result<seq<Cell>, ExportError>
    requires n <= |questions|
  {
    if n == 0 then Success([])
    else match KeyCells(v, d, questions, n - 1)
      case Failure(e) => Failure(e)
      case Success(cs) =>
        if questions[n - 1] in d.entries then Success(cs + [Text(d.entries[questions[n - 1]].correct)])
        else Failure(MissingQuestion(v, questions[n - 1]))
  }

  function KeyRow(v: string, d: Dict<string, Entry>, questions: seq<string>): Result<seq<Cell>, ExportError> {
    match KeyCells(v, d, questions, |questions|)
    case Failure(e) => Failure(e)
    case Success(cs) => Success([Text("GABARITO_P" + v), Text("")] + cs + [Text("")])
  }

  /** The key rows of the first n variants of vs. */
  function KeyRows(key: Key, vs: seq<string>, questions: seq<string>, n: nat): Result<seq<seq<Cell>>, ExportError>
    requires n <= |vs| && forall i :: 0 <= i < |vs| ==> vs[i] in key.entries
  {
    if n == 0 then Success([])
    else match KeyRows(key, vs, questions, n - 1)
      case Failure(e) => Failure(e)
      case Success(rows) =>
        match KeyRow(vs[n - 1], key.entries[vs[n - 1]], questions)
        case Failure(e) => Failure(e)
        case Success(row) => Success(rows + [row])
  }

  // ---------- student rows ----------

  /** `respostas[i] if i < len(respostas) else "-"`. */
  function AnswerAt(answers: seq<string>, i: nat): string {
    if i < |answers| then answers[i] else "-"
  }

  /** `pesos_alternativas.get(resposta, 0.0)`. */
  function Partial(e: Entry, answer: string): real
    requires ValidEntry(e)
  {
    match e.partials.Get(answer)
    case Some(p) => Value(p)
    case None => 0.0
  }

  /** The points one answer earns: weight times partial credit, nothing without an entry. */
  function Points(e: Option<Entry>, answer: string): real
    requires e.Some? ==> ValidEntry(e.value)
  {
    match e
    case None => 0.0
    case Some(x) => Value(x.weight) * Partial(x, answer)
  }

  /** The entry of question q for variant v, as `gabarito.get(prova_id, {}).get(questao)`. */
  function EntryOf(key: Key, v: string, q: string): (r: Option<Entry>)
    requires ValidKey(key)
    ensures r.Some? ==> ValidEntry(r.value)
  {
    Lookup(key, v, q)
  }

  /** The running total after the first n questions. */
  function Total(key: Key, v: string, questions: seq<string>, answers: seq<string>, n: nat): real
    requires ValidKey(key) && n <= |questions|
  {
    if n == 0 then 0.0
    else Total(key, v, questions, answers, n - 1) + Points(EntryOf(key, v, questions[n - 1]), AnswerAt(answers, n - 1))
  }

  /** The answer cell: the answer when the variant has the question, "-" otherwise. */
  function AnswerCell(key: Key, v: string, q: string, answer: string): Cell
    requires ValidKey(key)
  {
    if EntryOf(key, v, q).Some? then Text(answer) else Text("-")
  }

  /** The colour of an answer cell. */
  function FillOf(e: Option<Entry>, answer: string): Fill
    requires e.Some? ==> ValidEntry(e.value)
  {
    if e.None? || e.value.correct == "" then Red
    else
      var p := Partial(e.value, answer);
      if answer == e.value.correct then
        if -0.000001 < p - 1.0 < 0.000001 then Green
        else if 0.1 < p < 1.0 then Yellow
        else Red
      else if p > 0.0 then Yellow
      else Red
  }

  function AnswerCells(key: Key, v: string, questions: seq<string>, answers: seq<string>): (cs: seq<Cell>)
    requires ValidKey(key)
    ensures |cs| == |questions|
  {
    seq(|questions|, i requires 0 <= i < |questions| => AnswerCell(key, v, questions[i], AnswerAt(answers, i)))
  }

  function Fills(key: Key, v: string, questions: seq<string>, answers: seq<string>): (fs: seq<Fill>)
    requires ValidKey(key)
    ensures |fs| == |questions|
  {
    seq(|questions|, i requires 0 <= i < |questions| => FillOf(EntryOf(key, v, questions[i]), AnswerAt(answers, i)))
  }

  /** The row of one graded sheet; its variant is looked up by `str(Prova_ID)`. */
  function StudentRowOf(key: Key, questions: seq<string>, r: SheetResult): StudentRow
    requires ValidKey(key)
  {
    var v := NatToString(r.variantId);
    StudentRow([Number(r.studentId), Text(v)] + AnswerCells(key, v, questions, r.answers) + [Amount(Total(key, v, questions, r.answers, |questions|))],
               Fills(key, v, questions, r.answers))
  }

  function StudentRows(key: Key, questions: seq<string>, results: seq<SheetResult>): (rows: seq<StudentRow>)
    requires ValidKey(key)
    ensures |rows| == |results|
  {
    seq(|results|, j requires 0 <= j < |results| => StudentRowOf(key, questions, results[j]))
  }

  lemma VariantsInKey(key: Key)
    requires ValidKey(key)
    ensures forall i :: 0 <= i < |SortedVariants(key)| ==> SortedVariants(key)[i] in key.entries
  {
    SortPermutes(key.keys, LessEq);
    forall i | 0 <= i < |SortedVariants(key)| ensures SortedVariants(key)[i] in key.entries {
      assert SortedVariants(key)[i] in multiset(key.keys);
    }
  }

  /** The whole workbook, or the error the export stops with. */
  function WorkbookOf(results: seq<SheetResult>, key: Key): Result<Workbook, ExportError>
    requires ValidKey(key)
  {
    if key.keys == [] then Failure(EmptyKey)
    else
      var questions := ColumnQuestions(key);
      VariantsInKey(key);
      match KeyRows(key, SortedVariants(key), questions, |key.keys|)
      case Failure(e) => Failure(e)
      case Success(rows) => Success(Workbook(Header(questions), rows, StudentRows(key, questions, results)))
  }

  // ---------- what the workbook says ----------

  lemma StringOrder()
    ensures TotalPreorder(LessEq)
  {
    forall a, b ensures LessEq(a, b) || LessEq(b, a) {
      LessEqTotal(a, b);
    }
    forall a, b, c | LessEq(a, b) && LessEq(b, c) ensures LessEq(a, c) {
      LessEqTransitive(a, b, c);
    }
  }

  /** The variants are listed in string order, each exactly once. */
  lemma SortedVariantsMeaning(key: Key)
    requires ValidKey(key)
    ensures multiset(SortedVariants(key)) == multiset(key.keys)
    ensures forall i, j :: 0 <= i < j < |SortedVariants(key)| ==> LessEq(SortedVariants(key)[i], SortedVariants(key)[j]) && SortedVariants(key)[i] != SortedVariants(key)[j]
  {
    StringOrder();
    SortPermutes(key.keys, LessEq);
    SortSorted(key.keys, LessEq);
    var vs := SortedVariants(key);
    forall i, j | 0 <= i < j < |vs| ensures LessEq(vs[i], vs[j]) && vs[i] != vs[j] {
      assert LessEq(vs[i], vs[j]);
      if vs[i] == vs[j] {
        DistinctStaysDistinct(key.keys, vs, i, j);
      }
    }
  }

  /** A permutation of a sequence without repetitions has none either. */
  lemma DistinctStaysDistinct(s: seq<string>, r: seq<string>, i: nat, j: nat)
    requires forall a, b :: 0 <= a < b < |s| ==> s[a] != s[b]
    requires multiset(r) == multiset(s) && i < j < |r|
    ensures r[i] != r[j]
  {
    if r[i] == r[j] {
      var x := r[i];
      DistinctOnce(s, x);
      TwoCopies(r, i, j);
    }
  }

  lemma TwoCopies(r: seq<string>, i: nat, j: nat)
    requires i < j < |r|
    ensures r[i] == r[j] ==> multiset(r)[r[i]] >= 2
  {
    assert r == r[..i] + [r[i]] + r[i + 1..j] + [r[j]] + r[j + 1..];
  }

  lemma {:induction false} DistinctOnce(s: seq<string>, x: string)
    requires forall a, b :: 0 <= a < b < |s| ==> s[a] != s[b]
    ensures multiset(s)[x] <= 1
  {
    if s != [] {
      assert s == [s[0]] + s[1..];
      DistinctTail(s);
      DistinctOnce(s[1..], x);
    }
  }

  lemma DistinctTail(s: seq<string>)
    requires s != [] && forall a, b :: 0 <= a < b < |s| ==> s[a] != s[b]
    ensures (forall a, b :: 0 <= a < b < |s[1..]| ==> s[1..][a] != s[1..][b]) && s[0] !in s[1..]
  {
    assert forall a :: 0 <= a < |s[1..]| ==> s[1..][a] == s[a + 1];
  }

  lemma {:induction false} KeyCellsMeaning(v: string, d: Dict<string, Entry>, questions: seq<string>, n: nat)
    requires n <= |questions|
    ensures KeyCells(v, d, questions, n).Success? <==> forall k :: 0 <= k < n ==> questions[k] in d.entries
    ensures KeyCells(v, d, questions, n).Success? ==>
      KeyCells(v, d, questions, n).value == seq(n, k requires 0 <= k < n => Text(d.entries[questions[k]].correct))
    ensures KeyCells(v, d, questions, n).Failure? ==> exists k :: (0 <= k < n && questions[k] !in d.entries
      && KeyCells(v, d, questions, n).error == MissingQuestion(v, questions[k]))
  {
    if n > 0 {
      KeyCellsMeaning(v, d, questions, n - 1);
    }
  }

  lemma {:induction false} KeyRowsMeaning(key: Key, vs: seq<string>, questions: seq<string>, n: nat)
    requires n <= |vs| && forall i :: 0 <= i < |vs| ==> vs[i] in key.entries
    ensures KeyRows(key, vs, questions, n).Success? <==>
      forall i, k :: 0 <= i < n && 0 <= k < |questions| ==> questions[k] in key.entries[vs[i]].entries
    ensures KeyRows(key, vs, questions, n).Success? ==>
      var rows := KeyRows(key, vs, questions, n).value;
      |rows| == n && forall i :: 0 <= i < n ==>
        rows[i] == [Text("GABARITO_P" + vs[i]), Text("")]
          + seq(|questions|, k requires 0 <= k < |questions| => Text(key.entries[vs[i]].entries[questions[k]].correct))
          + [Text("")]
  {
    if n > 0 {
      KeyRowsMeaning(key, vs, questions, n - 1);
      KeyCellsMeaning(vs[n - 1], key.entries[vs[n - 1]], questions, |questions|);
    }
  }

  /** Some variant lacks one of the column questions. */
  predicate Incomplete(key: Key)
    requires key.keys != [] && ValidKey(key)
  {
    exists v, q :: v in key.keys && q in ColumnQuestions(key) && q !in key.entries[v].entries
  }

  /**
   * The export fails with EmptyKey exactly on an empty key, and otherwise
   * fails exactly when some variant lacks one of the column questions
   * (with MissingQuestion).
   */
  lemma WorkbookFailure(results: seq<SheetResult>, key: Key)
    requires ValidKey(key)
    ensures WorkbookOf(results, key) == Failure(EmptyKey) <==> key.keys == []
    ensures key.keys != [] ==> (WorkbookOf(results, key).Failure? <==> Incomplete(key))
    ensures key.keys != [] && WorkbookOf(results, key).Failure? ==> WorkbookOf(results, key).error.MissingQuestion?
  {
    if key.keys != [] {
      var vs := SortedVariants(key);
      var qs := ColumnQuestions(key);
      VariantsInKey(key);
      SortPermutes(key.keys, LessEq);
      KeyRowsMeaning(key, vs, qs, |key.keys|);
      if KeyRows(key, vs, qs, |key.keys|).Failure? {
        MissingQuestionError(key, vs, qs, |key.keys|);
        IncompleteFromRows(key, vs, qs);
      } else {
        CompleteFromRows(key, vs, qs);
      }
    }
  }

  lemma IncompleteFromRows(key: Key, vs: seq<string>, qs: seq<string>)
    requires ValidKey(key) && key.keys != [] && qs == ColumnQuestions(key)
    requires multiset(vs) == multiset(key.keys) && forall i :: 0 <= i < |vs| ==> vs[i] in key.entries
    requires exists i, k :: 0 <= i < |vs| && 0 <= k < |qs| && qs[k] !in key.entries[vs[i]].entries
    ensures Incomplete(key)
  {
    var i, k :| 0 <= i < |vs| && 0 <= k < |qs| && qs[k] !in key.entries[vs[i]].entries;
    assert vs[i] in multiset(key.keys);
    assert vs[i] in key.keys && qs[k] in qs;
  }

  lemma CompleteFromRows(key: Key, vs: seq<string>, qs: seq<string>)
    requires ValidKey(key) && key.keys != [] && qs == ColumnQuestions(key)
    requires multiset(vs) == multiset(key.keys) && forall i :: 0 <= i < |vs| ==> vs[i] in key.entries
    requires forall i, k :: 0 <= i < |vs| && 0 <= k < |qs| ==> qs[k] in key.entries[vs[i]].entries
    ensures !Incomplete(key)
  {
    forall v, q | v in key.keys && q in qs ensures q in key.entries[v].entries {
      assert v in multiset(vs);
      var i :| 0 <= i < |vs| && vs[i] == v;
      var k :| 0 <= k < |qs| && qs[k] == q;
    }
  }

  lemma {:induction false} MissingQuestionError(key: Key, vs: seq<string>, questions: seq<string>, n: nat)
    requires n <= |vs| && forall i :: 0 <= i < |vs| ==> vs[i] in key.entries
    requires KeyRows(key, vs, questions, n).Failure?
    ensures KeyRows(key, vs, questions, n).error.MissingQuestion?
  {
    if KeyRows(key, vs, questions, n - 1).Failure? {
      MissingQuestionError(key, vs, questions, n - 1);
    } else {
      KeyCellsMeaning(vs[n - 1], key.entries[vs[n - 1]], questions, |questions|);
    }
  }

  /**
   * A successful export has the header Aluno, Prova, the first variant's
   * questions, Total; one key row per variant, in string order, holding the
   * variant's correct letters for those questions; and one row per result,
   * in the order of the results.
   */
  lemma WorkbookLayout(results: seq<SheetResult>, key: Key)
    requires ValidKey(key) && WorkbookOf(results, key).Success?
    ensures WorkbookOf(results, key).value.header == [Text("Aluno"), Text("Prova")] + TextCells(ColumnQuestions(key)) + [Text("Total")]
    ensures |WorkbookOf(results, key).value.keyRows| == |SortedVariants(key)| == |key.keys|
    ensures forall i, k :: 0 <= i < |SortedVariants(key)| && 0 <= k < |ColumnQuestions(key)| ==>
      SortedVariants(key)[i] in key.entries && ColumnQuestions(key)[k] in key.entries[SortedVariants(key)[i]].entries
    ensures forall i :: 0 <= i < |SortedVariants(key)| ==>
      WorkbookOf(results, key).value.keyRows[i] ==
        [Text("GABARITO_P" + SortedVariants(key)[i]), Text("")]
        + seq(|ColumnQuestions(key)|, k requires 0 <= k < |ColumnQuestions(key)| =>
                Text(key.entries[SortedVariants(key)[i]].entries[ColumnQuestions(key)[k]].correct))
        + [Text("")]
    ensures |WorkbookOf(results, key).value.students| == |results|
    ensures forall j :: 0 <= j < |results| ==> WorkbookOf(results, key).value.students[j] == StudentRowOf(key, ColumnQuestions(key), results[j])
  {
    WorkbookParts(results, key);
    WorkbookKeyRows(results, key);
  }

  /** The key rows of a successful export, one per variant in string order. */
  lemma WorkbookKeyRows(results: seq<SheetResult>, key: Key)
    requires ValidKey(key) && WorkbookOf(results, key).Success?
    ensures |SortedVariants(key)| == |key.keys| && forall i :: 0 <= i < |SortedVariants(key)| ==> SortedVariants(key)[i] in key.entries
    ensures |WorkbookOf(results, key).value.keyRows| == |key.keys|
    ensures forall i, k :: 0 <= i < |SortedVariants(key)| && 0 <= k < |ColumnQuestions(key)| ==>
      SortedVariants(key)[i] in key.entries && ColumnQuestions(key)[k] in key.entries[SortedVariants(key)[i]].entries
    ensures forall i :: 0 <= i < |SortedVariants(key)| ==>
      WorkbookOf(results, key).value.keyRows[i] ==
        [Text("GABARITO_P" + SortedVariants(key)[i]), Text("")]
        + seq(|ColumnQuestions(key)|, k requires 0 <= k < |ColumnQuestions(key)| =>
                Text(key.entries[SortedVariants(key)[i]].entries[ColumnQuestions(key)[k]].correct))
        + [Text("")]
  {
    WorkbookParts(results, key);
    KeyRowsMeaning(key, SortedVariants(key), ColumnQuestions(key), |key.keys|);
  }

  /** A successful export is the header, the key rows and the student rows. */
  lemma WorkbookParts(results: seq<SheetResult>, key: Key)
    requires ValidKey(key) && WorkbookOf(results, key).Success?
    ensures key.keys != [] && |SortedVariants(key)| == |key.keys|
    ensures forall i :: 0 <= i < |SortedVariants(key)| ==> SortedVariants(key)[i] in key.entries
    ensures KeyRows(key, SortedVariants(key), ColumnQuestions(key), |key.keys|).Success?
    ensures WorkbookOf(results, key).value == Workbook(Header(ColumnQuestions(key)),
      KeyRows(key, SortedVariants(key), ColumnQuestions(key), |key.keys|).value, StudentRows(key, ColumnQuestions(key), results))
  {
    VariantsInKey(key);
  }

  /**
   * A student row holds the student number, `str` of the variant number, an
   * answer cell per question ("-" where the variant has no such question)
   * and the total; it has one fill per question.
   */
  lemma StudentRowMeaning(key: Key, questions: seq<string>, r: SheetResult)
    requires ValidKey(key)
    ensures var row := StudentRowOf(key, questions, r);
      var v := NatToString(r.variantId);
      && |row.cells| == |questions| + 3 && |row.fills| == |questions|
      && row.cells[0] == Number(r.studentId) && row.cells[1] == Text(v)
      && row.cells[|questions| + 2] == Amount(Total(key, v, questions, r.answers, |questions|))
      && forall i :: 0 <= i < |questions| ==>
           row.cells[i + 2] == (if Lookup(key, v, questions[i]).Some? && i < |r.answers| then Text(r.answers[i]) else Text("-"))
  {
  }

  /** The entry's weight is non-negative and its partial credits lie between 0 and 1. */
  ghost predicate SensibleEntry(e: Option<Entry>)
    requires e.Some? ==> ValidEntry(e.value)
  {
    e.Some? ==> Value(e.value.weight) >= 0.0 && forall l :: l in e.value.partials.entries ==> 0.0 <= Value(e.value.partials.entries[l]) <= 1.0
  }

  /** Every entry of a variant for the given questions is sensible. */
  ghost predicate Sensible(key: Key, v: string, questions: seq<string>)
    requires ValidKey(key)
  {
    forall i :: 0 <= i < |questions| ==> SensibleEntry(EntryOf(key, v, questions[i]))
  }

  /** What a question can be worth: its weight, nothing without an entry. */
  function Weight(e: Option<Entry>): real
    requires e.Some? ==> ValidEntry(e.value)
  {
    match e
    case None => 0.0
    case Some(x) => Value(x.weight)
  }

  /** The most a student of variant v can score on the first n questions: the sum of their weights. */
  function MaxTotal(key: Key, v: string, questions: seq<string>, n: nat): real
    requires ValidKey(key) && n <= |questions|
  {
    if n == 0 then 0.0
    else MaxTotal(key, v, questions, n - 1) + Weight(EntryOf(key, v, questions[n - 1]))
  }

  lemma PointsBounds(e: Option<Entry>, answer: string)
    requires e.Some? ==> ValidEntry(e.value)
    requires SensibleEntry(e)
    ensures 0.0 <= Points(e, answer) <= Weight(e)
  {
    if e.Some? {
      var x := e.value;
      var w := Value(x.weight);
      var p := Partial(x, answer);
      assert Points(e, answer) == w * p;
      assert Weight(e) == w;
      PartialBounds(x, answer);
      ScaledBounds(w, p);
    }
  }

  lemma PartialBounds(e: Entry, answer: string)
    requires ValidEntry(e) && forall l :: l in e.partials.entries ==> 0.0 <= Value(e.partials.entries[l]) <= 1.0
    ensures 0.0 <= Partial(e, answer) <= 1.0
  {
  }

  lemma ScaledBounds(w: real, p: real)
    requires w >= 0.0 && 0.0 <= p <= 1.0
    ensures 0.0 <= w * p <= w
  {
    assert w * p + w * (1.0 - p) == w;
    assert w * (1.0 - p) >= 0.0;
  }

  /** With sensible weights the total lies between 0 and the sum of the weights. */
  lemma {:induction false} TotalBounds(key: Key, v: string, questions: seq<string>, answers: seq<string>, n: nat)
    requires ValidKey(key) && n <= |questions| && Sensible(key, v, questions)
    ensures 0.0 <= Total(key, v, questions, answers, n) <= MaxTotal(key, v, questions, n)
  {
    if n > 0 {
      TotalBounds(key, v, questions, answers, n - 1);
      PointsBounds(EntryOf(key, v, questions[n - 1]), AnswerAt(answers, n - 1));
    }
  }

  /** Full credit on every answer gives the sum of the weights. */
  lemma {:induction false} FullMarks(key: Key, v: string, questions: seq<string>, answers: seq<string>, n: nat)
    requires ValidKey(key) && n <= |questions|
    requires forall i :: 0 <= i < n && EntryOf(key, v, questions[i]).Some? ==>
      Partial(EntryOf(key, v, questions[i]).value, AnswerAt(answers, i)) == 1.0
    ensures Total(key, v, questions, answers, n) == MaxTotal(key, v, questions, n)
  {
    if n > 0 {
      FullMarks(key, v, questions, answers, n - 1);
    }
  }

  /**
   * The fill of an answer cell with a key entry whose correct letter is not
   * empty, p being the answer's partial credit (0 when it has none):
   * green exactly when the answer is the correct letter and p is within
   * 1e-6 of 1; yellow exactly when it is the correct letter and
   * 0.1 < p <= 1 - 1e-6, or another letter with p > 0; red otherwise. Without
   * an entry, or with an empty correct letter, the cell is red.
   */
  lemma FillMeaning(e: Option<Entry>, answer: string)
    requires e.Some? ==> ValidEntry(e.value)
    ensures e.None? || e.value.correct == "" ==> FillOf(e, answer) == Red
    ensures e.Some? && e.value.correct != "" ==>
      var p := Partial(e.value, answer);
      var right := answer == e.value.correct;
      && (FillOf(e, answer) == Green <==> right && 0.999999 < p < 1.000001)
      && (FillOf(e, answer) == Yellow <==> (right && 0.1 < p <= 0.999999) || (!right && p > 0.0))
      && (FillOf(e, answer) == Red <==> (right && (p <= 0.1 || p >= 1.000001)) || (!right && p <= 0.0))
  {
  }

  // ---------- the export loop ----------

  /** The key rows' loop of `export_to_excel`, with its inner loop over the questions. */
  method WriteKeyRows(key: Key, variants: seq<string>, questions: seq<string>) returns (r: Result<seq<seq<Cell>>, ExportError>)
    requires forall i :: 0 <= i < |variants| ==> variants[i] in key.entries
    ensures r == KeyRows(key, variants, questions, |variants|)
  {
    var keyRows: seq<seq<Cell>> := [];
    for n := 0 to |variants|
      invariant KeyRows(key, variants, questions, n) == Success(keyRows)
    {
      var v := variants[n];
      var d := key.entries[v];
      var cells: seq<Cell> := [];
      for m := 0 to |questions|
        invariant KeyCells(v, d, questions, m) == Success(cells)
      {
        if questions[m] !in d.entries {
          KeyCellsFrom(v, d, questions, m + 1, |questions|);
          assert KeyRows(key, variants, questions, n + 1) == Failure(MissingQuestion(v, questions[m]));
          KeyRowsFrom(key, variants, questions, n + 1, |variants|);
          return Failure(MissingQuestion(v, questions[m]));
        }
        cells := cells + [Text(d.entries[questions[m]].correct)];
      }
      keyRows := keyRows + [[Text("GABARITO_P" + v), Text("")] + cells + [Text("")]];
    }
    r := Success(keyRows);
  }

  /** One pass of the students' loop: the running total, the answer cells, then the fills. */
  method WriteStudentRow(key: Key, questions: seq<string>, result: SheetResult) returns (row: StudentRow)
    requires ValidKey(key)
    ensures row == StudentRowOf(key, questions, result)
  {
    var v := NatToString(result.variantId);
    var total := 0.0;
    var cells: seq<Cell> := [];
    for i := 0 to |questions|
      invariant ValidKey(key)
      invariant total == Total(key, v, questions, result.answers, i)
      invariant cells == AnswerCells(key, v, questions, result.answers)[..i]
    {
      var answer := if i < |result.answers| then result.answers[i] else "-";
      var info := EntryOf(key, v, questions[i]);
      CellsStep(key, v, questions, result.answers, i);
      if info.Some? {
        var points := Points(info, answer);
        total := total + points;
        cells := cells + [Text(answer)];
      } else {
        cells := cells + [Text("-")];
      }
    }
    var fills: seq<Fill> := [];
    for i := 0 to |questions|
      invariant ValidKey(key)
      invariant fills == Fills(key, v, questions, result.answers)[..i]
    {
      var answer := if i < |result.answers| then result.answers[i] else "-";
      FillsStep(key, v, questions, result.answers, i);
      fills := fills + [FillOf(EntryOf(key, v, questions[i]), answer)];
    }
    assert cells == AnswerCells(key, v, questions, result.answers);
    assert fills == Fills(key, v, questions, result.answers);
    row := StudentRow([Number(result.studentId), Text(v)] + cells + [Amount(total)], fills);
  }

  lemma CellsStep(key: Key, v: string, questions: seq<string>, answers: seq<string>, i: nat)
    requires ValidKey(key) && i < |questions|
    ensures AnswerCells(key, v, questions, answers)[..i + 1]
      == AnswerCells(key, v, questions, answers)[..i] + [AnswerCell(key, v, questions[i], AnswerAt(answers, i))]
  {
    var cs := AnswerCells(key, v, questions, answers);
    assert cs[..i + 1] == cs[..i] + [cs[i]];
  }

  lemma FillsStep(key: Key, v: string, questions: seq<string>, answers: seq<string>, i: nat)
    requires ValidKey(key) && i < |questions|
    ensures Fills(key, v, questions, answers)[..i + 1]
      == Fills(key, v, questions, answers)[..i] + [FillOf(EntryOf(key, v, questions[i]), AnswerAt(answers, i))]
  {
    var fs := Fills(key, v, questions, answers);
    assert fs[..i + 1] == fs[..i] + [fs[i]];
  }

  /**
   * `export_to_excel` up to the point where the workbook is saved: header,
   * key rows, then one row per result in order.
   */
  method ExportToExcel(results: seq<SheetResult>, key: Key) returns (r: Result<Workbook, ExportError>)
    requires ValidKey(key)
    ensures r == WorkbookOf(results, key)
  {
    if key.keys == [] {
      return Failure(EmptyKey);
    }
    var questions := key.entries[key.keys[0]].keys;
    var header := Header(questions);
    VariantsInKey(key);
    var keyRows := WriteKeyRows(key, SortedVariants(key), questions);
    if keyRows.Failure? {
      return Failure(keyRows.error);
    }
    var students: seq<StudentRow> := [];
    for j := 0 to |results|
      invariant ValidKey(key)
      invariant students == StudentRows(key, questions, results)[..j]
    {
      var row := WriteStudentRow(key, questions, results[j]);
      RowsStep(key, questions, results, j);
      students := students + [row];
    }
    assert students == StudentRows(key, questions, results);
    assert |SortedVariants(key)| == |key.keys|;
    r := Success(Workbook(header, keyRows.value, students));
  }

  lemma RowsStep(key: Key, questions: seq<string>, results: seq<SheetResult>, j: nat)
    requires ValidKey(key) && j < |results|
    ensures StudentRows(key, questions, results)[..j + 1]
      == StudentRows(key, questions, results)[..j] + [StudentRowOf(key, questions, results[j])]
  {
    var rows := StudentRows(key, questions, results);
    assert rows[..j + 1] == rows[..j] + [rows[j]];
  }

  /** Once the first n questions fail, so do all longer prefixes. */
  lemma {:induction false} KeyCellsFrom(v: string, d: Dict<string, Entry>, questions: seq<string>, n: nat, m: nat)
    requires n <= m <= |questions| && KeyCells(v, d, questions, n).Failure?
    ensures KeyCells(v, d, questions, m) == KeyCells(v, d, questions, n)
    decreases m - n
  {
    if n < m {
      KeyCellsFrom(v, d, questions, n, m - 1);
    }
  }

  lemma {:induction false} KeyRowsFrom(key: Key, vs: seq<string>, questions: seq<string>, n: nat, m: nat)
    requires n <= m <= |vs| && forall i :: 0 <= i < |vs| ==> vs[i] in key.entries
    requires KeyRows(key, vs, questions, n).Failure?
    ensures KeyRows(key, vs, questions, m) == KeyRows(key, vs, questions, n)
    decreases m - n
  {
    if n < m {
      KeyRowsFrom(key, vs, questions, n, m - 1);
    }
  }
}
