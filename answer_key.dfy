/**
 * The answer key and its loader (`load_gabarito`, corretor.py). The key file
 * has one line per (variant, question):
 *   variant|question|weight|L1:w1,L2:w2,...|correct
 * and the loader builds the nested dictionary variant -> question -> entry.
 * A malformed line makes Python raise `ValueError`; the model returns the
 * kind of failure instead.
 */
module AnswerKey {
  import opened Wrappers
  import opened Text
  import opened Dicts
  import opened Decimals

  /** One question of one variant: its weight, the partial credit of each letter, and the correct letter. */
  datatype Entry = Entry(weight: Decimal, partials: Dict<string, Decimal>, correct: string)

  /** variant -> question -> entry, both levels in insertion order. */
  type Key = Dict<string, Dict<string, Entry>>

  /** Why a line was refused: not five '|' fields, a number `float` refuses, or a pair without exactly one ':'. */
  datatype LoadError = WrongFieldCount | BadNumber | WrongPairShape

  /** A parsed line. */
  datatype KeyLine = KeyLine(variant: string, question: string, entry: Entry)

  /** An entry as the loader builds it: a proper dictionary of partial credits and numerals `float` accepted. */
  ghost predicate ValidEntry(e: Entry) {
    e.partials.Valid() && WellFormed(e.weight) && forall l :: l in e.partials.entries ==> WellFormed(e.partials.entries[l])
  }

  /** Both levels are proper dictionaries and every entry is valid. */
  ghost predicate ValidKey(k: Key) {
    k.Valid() && forall v :: v in k.entries ==> k.entries[v].Valid() && forall q :: q in k.entries[v].entries ==> ValidEntry(k.entries[v].entries[q])
  }

  /** The entry for (v, q), if any. */
  function Lookup(k: Key, v: string, q: string): Option<Entry> {
    match k.Get(v)
    case None => None
    case Some(d) => d.Get(q)
  }

  /**
   * The lines a text file yields when read in text mode: universal newlines
   * end a line at "\n", at "\r" and at "\r\n". Splitting at every "\r" and
   * "\n" gives an extra empty line for each "\r\n", which the loader skips.
   */
  function Lines(text: string): seq<string> {
    Split(ReplaceChar(text, '\r', '\n'), '\n')
  }

  // ---------- one line ----------

  /** A pair the loader accepts: exactly two ':' parts, the second a number. */
  predicate PairOk(pair: string) {
    var parts := Split(pair, ':');
    |parts| == 2 && ParseFloat(parts[1]).Some?
  }

  predicate PairsOk(pairs: seq<string>) {
    forall i :: 0 <= i < |pairs| ==> PairOk(pairs[i])
  }

  /** The inner loop: each pair `letter:value` is stored into d, a later letter replacing an earlier one. */
  function ParsePairs(d: Dict<string, Decimal>, pairs: seq<string>): (r: Result<Dict<string, Decimal>, LoadError>)
    ensures d.Valid() && r.Success? ==> r.value.Valid()
    ensures (forall l :: l in d.entries ==> WellFormed(d.entries[l])) && r.Success? ==>
      forall l :: l in r.value.entries ==> WellFormed(r.value.entries[l])
    decreases |pairs|
  {
    if pairs == [] then Success(d)
    else
      var parts := Split(pairs[0], ':');
      if |parts| != 2 then Failure(WrongPairShape)
      else match ParseFloat(parts[1])
        case None => Failure(BadNumber)
        case Some(w) => ParsePairs(d.Put(parts[0], w), pairs[1..])
  }

  /** The value of the last pair for `letter`, if any. */
  function LastPair(pairs: seq<string>, letter: string): Option<Decimal>
    decreases |pairs|
  {
    if pairs == [] then None
    else
      var last := pairs[|pairs| - 1];
      var parts := Split(last, ':');
      if |parts| == 2 && parts[0] == letter && ParseFloat(parts[1]).Some? then ParseFloat(parts[1])
      else LastPair(pairs[..|pairs| - 1], letter)
  }

  /**
   * The pairs load exactly when every pair is well formed, and then each
   * letter's value is that of its last pair, or what d held before.
   */
  lemma PairsOkSplit(pairs: seq<string>)
    requires pairs != []
    ensures PairsOk(pairs) <==> PairOk(pairs[0]) && PairsOk(pairs[1..])
  {
    assert forall i :: 0 <= i < |pairs| - 1 ==> pairs[1..][i] == pairs[i + 1];
  }

  lemma {:induction false} ParsePairsMeaning(d: Dict<string, Decimal>, pairs: seq<string>)
    ensures ParsePairs(d, pairs).Success? <==> PairsOk(pairs)
    ensures ParsePairs(d, pairs).Success? ==> forall l ::
      ParsePairs(d, pairs).value.Get(l) == if LastPair(pairs, l).Some? then LastPair(pairs, l) else d.Get(l)
    decreases |pairs|
  {
    if pairs != [] {
      var parts := Split(pairs[0], ':');
      if |parts| == 2 && ParseFloat(parts[1]).Some? {
        var w := ParseFloat(parts[1]).value;
        ParsePairsMeaning(d.Put(parts[0], w), pairs[1..]);
        PairsOkSplit(pairs);
        if ParsePairs(d, pairs).Success? {
          forall l ensures ParsePairs(d, pairs).value.Get(l) == if LastPair(pairs, l).Some? then LastPair(pairs, l) else d.Get(l) {
            LastPairCons(pairs, l);
          }
        }
      } else {
        assert !PairOk(pairs[0]);
      }
    }
  }

  /** LastPair read from the front: the rest decides, unless it says nothing about the letter. */
  lemma {:induction false} LastPairCons(pairs: seq<string>, letter: string)
    requires pairs != []
    ensures var parts := Split(pairs[0], ':');
      LastPair(pairs, letter) ==
        if LastPair(pairs[1..], letter).Some? then LastPair(pairs[1..], letter)
        else if |parts| == 2 && parts[0] == letter && ParseFloat(parts[1]).Some? then ParseFloat(parts[1])
        else None
    decreases |pairs|
  {
    if |pairs| == 1 {
      assert pairs[1..] == [];
      assert pairs[..0] == [];
    } else {
      var init := pairs[..|pairs| - 1];
      LastPairCons(init, letter);
      assert init[0] == pairs[0];
      assert init[1..] == pairs[1..][..|pairs[1..]| - 1];
      assert pairs[1..][|pairs[1..]| - 1] == pairs[|pairs| - 1];
    }
  }

  /** The body of the outer loop on a stripped, non-empty line. */
  function ParseLine(line: string): Result<KeyLine, LoadError> {
    var fields := Split(line, '|');
    if |fields| != 5 then Failure(WrongFieldCount)
    else match ParseFloat(fields[2])
      case None => Failure(BadNumber)
      case Some(weight) =>
        match ParsePairs(Empty(), Split(fields[3], ','))
        case Failure(e) => Failure(e)
        case Success(partials) => Success(KeyLine(fields[0], fields[1], Entry(weight, partials, fields[4])))
  }

  /**
   * A line parses exactly when it has five fields, a numeric weight and
   * well-formed pairs, and then the fields are kept as they stand.
   */
  lemma ParseLineMeaning(line: string)
    ensures var fields := Split(line, '|');
      ParseLine(line).Success? <==> |fields| == 5 && ParseFloat(fields[2]).Some? && PairsOk(Split(fields[3], ','))
    ensures ParseLine(line).Success? ==>
      var fields := Split(line, '|');
      var l := ParseLine(line).value;
      && l.variant == fields[0] && l.question == fields[1] && l.entry.correct == fields[4]
      && Some(l.entry.weight) == ParseFloat(fields[2])
      && ValidEntry(l.entry)
      && forall c :: l.entry.partials.Get(c) == LastPair(Split(fields[3], ','), c)
  {
    var fields := Split(line, '|');
    if |fields| == 5 {
      ParsePairsMeaning(Empty(), Split(fields[3], ','));
    }
  }

  // ---------- the whole file ----------

  /** The entries of variant v so far (`gabarito[prova]`, created empty when missing). */
  function Questions(k: Key, v: string): Dict<string, Entry> {
    match k.Get(v)
    case Some(d) => d
    case None => Empty()
  }

  /** `gabarito[prova][questao] = ...`. */
  function Store(k: Key, l: KeyLine): (r: Key)
    ensures ValidKey(k) && ValidEntry(l.entry) ==> ValidKey(r)
    ensures forall v, q :: Lookup(r, v, q) == if v == l.variant && q == l.question then Some(l.entry) else Lookup(k, v, q)
  {
    StoreValid(k, l);
    k.Put(l.variant, Questions(k, l.variant).Put(l.question, l.entry))
  }

  lemma StoreValid(k: Key, l: KeyLine)
    ensures ValidKey(k) && ValidEntry(l.entry) ==> ValidKey(k.Put(l.variant, Questions(k, l.variant).Put(l.question, l.entry)))
  {
    if ValidKey(k) && ValidEntry(l.entry) {
      var d := Questions(k, l.variant);
      QuestionsValid(k, l.variant);
      ValidQuestionsPut(d, l.question, l.entry);
      ValidKeyPut(k, l.variant, d.Put(l.question, l.entry));
    }
  }

  /** A proper dictionary of valid entries. */
  ghost predicate ValidQuestions(d: Dict<string, Entry>) {
    d.Valid() && forall q :: q in d.entries ==> ValidEntry(d.entries[q])
  }

  lemma QuestionsValid(k: Key, v: string)
    requires ValidKey(k)
    ensures ValidQuestions(Questions(k, v))
  {
  }

  lemma ValidQuestionsPut(d: Dict<string, Entry>, q: string, e: Entry)
    requires ValidQuestions(d) && ValidEntry(e)
    ensures ValidQuestions(d.Put(q, e))
  {
  }

  lemma ValidKeyPut(k: Key, v: string, d: Dict<string, Entry>)
    requires ValidKey(k) && ValidQuestions(d)
    ensures ValidKey(k.Put(v, d))
  {
  }

  /** One line of the file: skipped when blank, otherwise parsed and stored. */
  function Step(k: Key, line: string): Result<Key, LoadError> {
    var t := Strip(line);
    if t == [] then Success(k)
    else match ParseLine(t)
      case Failure(e) => Failure(e)
      case Success(l) => Success(Store(k, l))
  }

  /** The lines in order from key k; the first failing line stops the load. */
  function LoadFrom(k: Key, lines: seq<string>): Result<Key, LoadError>
    decreases |lines|
  {
    if lines == [] then Success(k)
    else match Step(k, lines[0])
      case Failure(e) => Failure(e)
      case Success(k') => LoadFrom(k', lines[1..])
  }

  /** `load_gabarito` on the file's text. */
  function LoadKey(text: string): Result<Key, LoadError> {
    LoadFrom(Empty(), Lines(text))
  }

  /** A line the loader accepts: blank, or parsing. */
  predicate LineOk(line: string) {
    IsBlank(line) || ParseLine(Strip(line)).Success?
  }

  /** The entry of the last accepted line for (v, q), if any. */
  function LastEntry(lines: seq<string>, v: string, q: string): Option<Entry>
    decreases |lines|
  {
    if lines == [] then None
    else
      var last := lines[|lines| - 1];
      if !IsBlank(last) && ParseLine(Strip(last)).Success?
         && ParseLine(Strip(last)).value.variant == v && ParseLine(Strip(last)).value.question == q
      then Some(ParseLine(Strip(last)).value.entry)
      else LastEntry(lines[..|lines| - 1], v, q)
  }

  lemma {:induction false} LastEntryCons(lines: seq<string>, v: string, q: string)
    requires lines != []
    ensures var first := lines[0];
      LastEntry(lines, v, q) ==
        if LastEntry(lines[1..], v, q).Some? then LastEntry(lines[1..], v, q)
        else if !IsBlank(first) && ParseLine(Strip(first)).Success?
          && ParseLine(Strip(first)).value.variant == v && ParseLine(Strip(first)).value.question == q
        then Some(ParseLine(Strip(first)).value.entry)
        else None
    decreases |lines|
  {
    if |lines| == 1 {
      assert lines[1..] == [];
      assert lines[..0] == [];
    } else {
      var init := lines[..|lines| - 1];
      LastEntryCons(init, v, q);
      assert init[0] == lines[0];
      assert init[1..] == lines[1..][..|lines[1..]| - 1];
      assert lines[1..][|lines[1..]| - 1] == lines[|lines| - 1];
    }
  }

  predicate LinesOk(lines: seq<string>) {
    forall i :: 0 <= i < |lines| ==> LineOk(lines[i])
  }

  /** Loading succeeds exactly when every line is blank or parses. */
  lemma {:induction false} LoadFromSucceeds(k: Key, lines: seq<string>)
    ensures LoadFrom(k, lines).Success? <==> LinesOk(lines)
    decreases |lines|
  {
    if lines != [] {
      LoadFromCons(k, lines);
      StepMeaning(k, lines[0]);
      if Step(k, lines[0]).Success? {
        LoadFromSucceeds(Step(k, lines[0]).value, lines[1..]);
      }
      LinesOkSplit(lines);
    }
  }

  lemma LinesOkSplit(lines: seq<string>)
    requires lines != []
    ensures LinesOk(lines) <==> LineOk(lines[0]) && LinesOk(lines[1..])
  {
    assert forall i :: 0 <= i < |lines| - 1 ==> lines[1..][i] == lines[i + 1];
  }

  /** A failed load carries the error of the first line that neither is blank nor parses. */
  lemma {:induction false} LoadFromFailure(k: Key, lines: seq<string>)
    requires LoadFrom(k, lines).Failure?
    ensures exists i :: (0 <= i < |lines| && LinesOk(lines[..i]) && !IsBlank(lines[i])
      && ParseLine(Strip(lines[i])) == Failure(LoadFrom(k, lines).error))
    decreases |lines|
  {
    var st := Step(k, lines[0]);
    StepMeaning(k, lines[0]);
    LoadFromCons(k, lines);
    if st.Failure? {
      assert LinesOk(lines[..0]);
    } else {
      var rest := lines[1..];
      LoadFromFailure(st.value, rest);
      var i :| 0 <= i < |rest| && LinesOk(rest[..i]) && !IsBlank(rest[i])
        && ParseLine(Strip(rest[i])) == Failure(LoadFrom(st.value, rest).error);
      LinesOkCons(lines, i);
    }
  }

  /** Loading a non-empty sequence of lines: the first line, then the rest. */
  lemma LoadFromCons(k: Key, lines: seq<string>)
    requires lines != []
    ensures Step(k, lines[0]).Failure? ==> LoadFrom(k, lines) == Failure(Step(k, lines[0]).error)
    ensures Step(k, lines[0]).Success? ==> LoadFrom(k, lines) == LoadFrom(Step(k, lines[0]).value, lines[1..])
  {
  }

  /** An accepted first line followed by i accepted lines is i + 1 accepted lines. */
  lemma LinesOkCons(lines: seq<string>, i: nat)
    requires i < |lines| - 1 && LineOk(lines[0]) && LinesOk(lines[1..][..i])
    ensures LinesOk(lines[..i + 1]) && lines[i + 1] == lines[1..][i]
  {
    assert forall j :: 0 <= j < i ==> lines[1..][..i][j] == lines[j + 1];
  }

  /** One line succeeds exactly when it is accepted, and otherwise fails with its parse error. */
  lemma StepMeaning(k: Key, line: string)
    ensures Step(k, line).Success? <==> LineOk(line)
    ensures Step(k, line).Failure? ==> !IsBlank(line) && ParseLine(Strip(line)) == Failure(Step(k, line).error)
  {
  }

  /**
   * After a successful load the key is a proper nested dictionary, and the
   * entry for (v, q) is that of the last line for (v, q), or the one k held
   * when no line names (v, q).
   */
  lemma {:induction false} LoadFromLookup(k: Key, lines: seq<string>)
    requires ValidKey(k) && LoadFrom(k, lines).Success?
    ensures ValidKey(LoadFrom(k, lines).value)
    ensures forall v, q :: (Lookup(LoadFrom(k, lines).value, v, q) ==
      if LastEntry(lines, v, q).Some? then LastEntry(lines, v, q) else Lookup(k, v, q))
    decreases |lines|
  {
    if lines != [] {
      var line := lines[0];
      var k' := Step(k, line).value;
      if !IsBlank(line) {
        ParseLineMeaning(Strip(line));
      }
      assert ValidKey(k');
      LoadFromLookup(k', lines[1..]);
      forall v, q ensures Lookup(LoadFrom(k, lines).value, v, q) ==
          if LastEntry(lines, v, q).Some? then LastEntry(lines, v, q) else Lookup(k, v, q)
      {
        LastEntryCons(lines, v, q);
      }
    }
  }

  /** What the loader promises of a whole file. */
  lemma LoadKeyMeaning(text: string)
    ensures LoadKey(text).Success? <==> LinesOk(Lines(text))
    ensures LoadKey(text).Success? ==> ValidKey(LoadKey(text).value)
    ensures LoadKey(text).Success? ==> forall v, q :: Lookup(LoadKey(text).value, v, q) == LastEntry(Lines(text), v, q)
    ensures LoadKey(text).Success? ==> LoadKey(text).value.keys == Firsts([], LineVariants(Lines(text)))
    ensures LoadKey(text).Success? ==>
      forall v :: Questions(LoadKey(text).value, v).keys == Firsts([], LineQuestions(Lines(text), v))
  {
    LoadFromSucceeds(Empty(), Lines(text));
    if LoadKey(text).Success? {
      LoadFromLookup(Empty(), Lines(text));
      LoadFromOrder(Empty(), Lines(text));
    }
  }

  // ---------- insertion order ----------

  /** The parsed line, for a line that is neither blank nor malformed. */
  function Accepted(line: string): Option<KeyLine> {
    if !IsBlank(line) && ParseLine(Strip(line)).Success? then Some(ParseLine(Strip(line)).value) else None
  }

  /** The variant of each accepted line, in file order. */
  function LineVariants(lines: seq<string>): seq<string>
    decreases |lines|
  {
    if lines == [] then []
    else
      var first := match Accepted(lines[0]) case Some(l) => [l.variant] case None => [];
      first + LineVariants(lines[1..])
  }

  /** The question of each accepted line of variant v, in file order. */
  function LineQuestions(lines: seq<string>, v: string): seq<string>
    decreases |lines|
  {
    if lines == [] then []
    else
      var first := match Accepted(lines[0]) case Some(l) => (if l.variant == v then [l.question] else []) case None => [];
      first + LineQuestions(lines[1..], v)
  }

  /**
   * Storing a line appends its variant to the variants when it is new, and its
   * question to that variant's questions when it is new; nothing else moves.
   */
  lemma StoreOrder(k: Key, l: KeyLine)
    requires ValidKey(k)
    ensures Store(k, l).keys == if l.variant in k.keys then k.keys else k.keys + [l.variant]
    ensures forall v :: (Questions(Store(k, l), v).keys ==
      if v != l.variant then Questions(k, v).keys
      else if l.question in Questions(k, v).keys then Questions(k, v).keys
      else Questions(k, v).keys + [l.question])
  {
    QuestionsValid(k, l.variant);
  }

  /** One accepted line, in the terms of Firsts. */
  lemma StepOrder(k: Key, line: string)
    requires ValidKey(k) && Step(k, line).Success?
    ensures ValidKey(Step(k, line).value)
    ensures Step(k, line).value.keys == Firsts(k.keys, LineVariants([line]))
    ensures forall v :: Questions(Step(k, line).value, v).keys == Firsts(Questions(k, v).keys, LineQuestions([line], v))
  {
    OneLine(line);
    match Accepted(line)
    case None =>
      assert Step(k, line).value == k;
    case Some(l) =>
      AcceptedValid(line);
      assert Step(k, line).value == Store(k, l);
      StoreFirsts(k, l);
  }

  lemma OneLine(line: string)
    ensures LineVariants([line]) == match Accepted(line) case Some(l) => [l.variant] case None => []
    ensures forall v :: (LineQuestions([line], v) ==
      match Accepted(line) case Some(l) => (if l.variant == v then [l.question] else []) case None => [])
  {
    assert [line][1..] == [];
  }

  lemma AcceptedValid(line: string)
    ensures Accepted(line).Some? ==> ValidEntry(Accepted(line).value.entry)
  {
    ParseLineMeaning(Strip(line));
  }

  /** Storing a line, in the terms of Firsts. */
  lemma StoreFirsts(k: Key, l: KeyLine)
    requires ValidKey(k)
    ensures Store(k, l).keys == Firsts(k.keys, [l.variant])
    ensures forall v :: (Questions(Store(k, l), v).keys ==
      Firsts(Questions(k, v).keys, if l.variant == v then [l.question] else []))
  {
    StoreOrder(k, l);
    OneName(k.keys, l.variant);
    forall v ensures Questions(Store(k, l), v).keys == Firsts(Questions(k, v).keys, if l.variant == v then [l.question] else []) {
      OneName(Questions(k, v).keys, l.question);
    }
  }

  lemma OneName(keys: seq<string>, n: string)
    ensures Firsts(keys, [n]) == if n in keys then keys else keys + [n]
  {
    assert [n][1..] == [];
  }

  /** Inserting a and then b is inserting a + b. */
  lemma {:induction false} FirstsAppend(keys: seq<string>, a: seq<string>, b: seq<string>)
    ensures Firsts(keys, a + b) == Firsts(Firsts(keys, a), b)
    decreases |a|
  {
    if a != [] {
      assert (a + b)[0] == a[0];
      assert (a + b)[1..] == a[1..] + b;
      FirstsAppend(if a[0] in keys then keys else keys + [a[0]], a[1..], b);
    } else {
      assert a + b == b;
    }
  }

  /**
   * After a successful load the variants are listed in the order in which
   * lines first name them, and each variant's questions likewise.
   */
  lemma {:induction false} LoadFromOrder(k: Key, lines: seq<string>)
    requires ValidKey(k) && LoadFrom(k, lines).Success?
    ensures LoadFrom(k, lines).value.keys == Firsts(k.keys, LineVariants(lines))
    ensures forall v :: Questions(LoadFrom(k, lines).value, v).keys == Firsts(Questions(k, v).keys, LineQuestions(lines, v))
    decreases |lines|
  {
    if lines != [] {
      LoadFromCons(k, lines);
      var k' := Step(k, lines[0]).value;
      StepOrder(k, lines[0]);
      LoadFromOrder(k', lines[1..]);
      OrderCombine(k, k', LoadFrom(k, lines).value, lines);
    }
  }

  /** The first line's order changes followed by the rest's are those of all lines. */
  lemma OrderCombine(k: Key, k': Key, final: Key, lines: seq<string>)
    requires lines != []
    requires k'.keys == Firsts(k.keys, LineVariants([lines[0]]))
    requires forall v :: Questions(k', v).keys == Firsts(Questions(k, v).keys, LineQuestions([lines[0]], v))
    requires final.keys == Firsts(k'.keys, LineVariants(lines[1..]))
    requires forall v :: Questions(final, v).keys == Firsts(Questions(k', v).keys, LineQuestions(lines[1..], v))
    ensures final.keys == Firsts(k.keys, LineVariants(lines))
    ensures forall v :: Questions(final, v).keys == Firsts(Questions(k, v).keys, LineQuestions(lines, v))
  {
    VariantsCons(lines);
    FirstsAppend(k.keys, LineVariants([lines[0]]), LineVariants(lines[1..]));
    forall v ensures Questions(final, v).keys == Firsts(Questions(k, v).keys, LineQuestions(lines, v)) {
      QuestionsCons(lines, v);
      FirstsAppend(Questions(k, v).keys, LineQuestions([lines[0]], v), LineQuestions(lines[1..], v));
    }
  }

  lemma VariantsCons(lines: seq<string>)
    requires lines != []
    ensures LineVariants(lines) == LineVariants([lines[0]]) + LineVariants(lines[1..])
  {
    assert [lines[0]][1..] == [];
  }

  lemma QuestionsCons(lines: seq<string>, v: string)
    requires lines != []
    ensures LineQuestions(lines, v) == LineQuestions([lines[0]], v) + LineQuestions(lines[1..], v)
  {
    assert [lines[0]][1..] == [];
  }

  /** Blank lines anywhere change nothing. */
  lemma {:induction false} BlankLinesIgnored(k: Key, a: seq<string>, blank: string, b: seq<string>)
    requires IsBlank(blank)
    ensures LoadFrom(k, a + [blank] + b) == LoadFrom(k, a + b)
    decreases |a|
  {
    if a == [] {
      assert (a + [blank] + b)[1..] == b;
      assert a + b == b;
    } else {
      assert (a + [blank] + b)[0] == a[0] && (a + b)[0] == a[0];
      assert (a + [blank] + b)[1..] == a[1..] + [blank] + b;
      assert (a + b)[1..] == a[1..] + b;
      match Step(k, a[0])
      case Failure(_) =>
      case Success(k') => BlankLinesIgnored(k', a[1..], blank, b);
    }
  }

  lemma LoadFromAt(k: Key, lines: seq<string>, i: nat)
    requires i < |lines|
    ensures LoadFrom(k, lines[i..]) ==
      match Step(k, lines[i])
      case Failure(e) => Failure(e)
      case Success(k') => LoadFrom(k', lines[i + 1..])
  {
    assert lines[i..][0] == lines[i];
    assert lines[i..][1..] == lines[i + 1..];
  }

  lemma ParsePairsAt(d: Dict<string, Decimal>, pairs: seq<string>, p: nat)
    requires p < |pairs|
    ensures ParsePairs(d, pairs[p..]) ==
      var parts := Split(pairs[p], ':');
      if |parts| != 2 then Failure(WrongPairShape)
      else match ParseFloat(parts[1])
        case None => Failure(BadNumber)
        case Some(w) => ParsePairs(d.Put(parts[0], w), pairs[p + 1..])
  {
    assert pairs[p..][0] == pairs[p];
    assert pairs[p..][1..] == pairs[p + 1..];
  }

  /** The source's update: create `gabarito[prova]` when missing, then assign the question. */
  lemma StoreInTwoSteps(k: Key, l: KeyLine)
    ensures var k1 := if l.variant in k.entries then k else k.Put(l.variant, Empty());
      k1.Put(l.variant, k1.entries[l.variant].Put(l.question, l.entry)) == Store(k, l)
  {
  }

  /**
   * `load_gabarito`: the loop over the file's lines, with the inner loop over
   * the pairs and the nested dictionary update.
   */
  method LoadAnswerKey(text: string) returns (r: Result<Key, LoadError>)
    ensures r == LoadKey(text)
  {
    var lines := Lines(text);
    var key: Key := Empty();
    for i := 0 to |lines|
      invariant LoadKey(text) == LoadFrom(key, lines[i..])
    {
      LoadFromAt(key, lines, i);
      var line := Strip(lines[i]);
      if line == [] {
        continue;
      }
      var fields := Split(line, '|');
      if |fields| != 5 {
        return Failure(WrongFieldCount);
      }
      var weight := ParseFloat(fields[2]);
      if weight.None? {
        return Failure(BadNumber);
      }
      var pairs := Split(fields[3], ',');
      var partials: Dict<string, Decimal> := Empty();
      for p := 0 to |pairs|
        invariant ParsePairs(Empty(), pairs) == ParsePairs(partials, pairs[p..])
      {
        ParsePairsAt(partials, pairs, p);
        var parts := Split(pairs[p], ':');
        if |parts| != 2 {
          return Failure(WrongPairShape);
        }
        var value := ParseFloat(parts[1]);
        if value.None? {
          return Failure(BadNumber);
        }
        partials := partials.Put(parts[0], value.value);
      }
      assert pairs[|pairs|..] == [];
      var l := KeyLine(fields[0], fields[1], Entry(weight.value, partials, fields[4]));
      assert ParseLine(line) == Success(l);
      StoreInTwoSteps(key, l);
      if fields[0] !in key.entries {
        key := key.Put(fields[0], Empty());
      }
      key := key.Put(fields[0], key.entries[fields[0]].Put(fields[1], l.entry));
    }
    assert lines[|lines|..] == [];
    r := Success(key);
  }
}
