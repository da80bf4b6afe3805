/**
 * The key file read back: the text the upload handler writes for a key
 * (app.py) loads, with `load_gabarito` (corretor.py), into that same key,
 * provided the key's texts stay clear of the file's separators. Without
 * those conditions a field would be cut apart or a pair refused.
 */
module RoundTrip {
  import opened Wrappers
  import opened Text
  import opened Dicts
  import opened Decimals
  import opened AnswerKey
  import opened Upload

  // ---------- keys whose file reads back ----------

  /** A text that can stand in a '|' field: no separator and no line break. */
  predicate PlainField(s: string) {
    '|' !in s && '\n' !in s && '\r' !in s
  }

  /** A letter that can stand in a `letter:value` pair of the ','-separated list. */
  predicate PlainLetter(s: string) {
    PlainField(s) && ',' !in s && ':' !in s
  }

  /** The characters a written numeral never holds. */
  predicate Foreign(c: char) {
    !IsDigitChar(c) && c != '.' && c != '-'
  }

  /**
   * An entry whose line reads back: a loaded entry with at least one
   * alternative, plain letters, and a plain correct letter that does not end
   * the line with whitespace (the loader strips each line).
   */
  ghost predicate SafeEntry(e: Entry) {
    && ValidEntry(e)
    && PlainField(e.correct) && (e.correct == [] || !IsSpace(e.correct[|e.correct| - 1]))
    && |e.partials.keys| > 0
    && forall i :: 0 <= i < |e.partials.keys| ==> PlainLetter(e.partials.keys[i])
  }

  /**
   * A variant whose lines read back: a plain name that does not start the
   * line with whitespace, at least one question (a variant without one
   * writes no line), and plain question names with safe entries.
   */
  ghost predicate SafeQuestions(v: string, d: Dict<string, Entry>) {
    && PlainField(v) && (v == [] || !IsSpace(v[0]))
    && d.Valid() && |d.keys| > 0
    && forall j :: 0 <= j < |d.keys| ==> d.keys[j] in d.entries && PlainField(d.keys[j]) && SafeEntry(d.entries[d.keys[j]])
  }

  /** A key whose file reads back as the same key. */
  ghost predicate RoundTripSafe(data: Key) {
    && data.Valid()
    && forall i :: 0 <= i < |data.keys| ==> data.keys[i] in data.entries && SafeQuestions(data.keys[i], data.entries[data.keys[i]])
  }

  /** Such a key is one the loader can build, and one the writer can write. */
  lemma SafeKeyValid(data: Key)
    requires RoundTripSafe(data)
    ensures ValidKey(data) && Writable(data)
  {
    forall v | v in data.entries
      ensures data.entries[v].Valid() && forall q :: q in data.entries[v].entries ==> ValidEntry(data.entries[v].entries[q])
    {
      var i :| 0 <= i < |data.keys| && data.keys[i] == v;
      assert SafeQuestions(v, data.entries[v]);
    }
  }

  // ---------- the characters of a line ----------

  /** A character outside every field, every letter and every numeral is not in the pairs field. */
  lemma NotInPairs(p: Dict<string, Decimal>, c: char)
    requires p.Listed() && Foreign(c) && c != ',' && c != ':'
    requires forall i :: 0 <= i < |p.keys| ==> c !in p.keys[i] && WellFormed(p.entries[p.keys[i]])
    ensures c !in Join(PairTexts(p), ',')
  {
    var ps := PairTexts(p);
    forall i | 0 <= i < |ps| ensures c !in ps[i] {
      NotInFormat(p.entries[p.keys[i]], c);
    }
    NotInJoin(ps, ',', c);
  }

  /** '\n' and '\r' are not in a line of a safe entry. */
  lemma NoBreakInLine(v: string, q: string, e: Entry)
    requires PlainField(v) && PlainField(q) && SafeEntry(e)
    ensures '\n' !in LineText(v, q, e) && '\r' !in LineText(v, q, e)
  {
    NotInFormat(e.weight, '\n');
    NotInFormat(e.weight, '\r');
    NotInPairs(e.partials, '\n');
    NotInPairs(e.partials, '\r');
  }

  // ---------- one line ----------

  /** The pair text of each alternative splits at ':' into its letter and its value. */
  lemma PairSplits(letter: string, w: Decimal)
    requires PlainLetter(letter) && WellFormed(w)
    ensures Split(PairText(letter, w), ':') == [letter, Format(w)]
    ensures ParseFloat(Format(w)) == Some(w)
  {
    NotInFormat(w, ':');
    assert PairText(letter, w) == Join([letter, Format(w)], ':');
    SplitJoin([letter, Format(w)], ':');
    ParseFormat(w);
  }

  /** Storing the written pairs from the i-th on into the first i alternatives rebuilds all of them. */
  lemma {:induction false} ParseWrittenPairs(p: Dict<string, Decimal>, i: nat)
    requires p.Valid() && i <= |p.keys|
    requires forall j :: 0 <= j < |p.keys| ==> PlainLetter(p.keys[j]) && WellFormed(p.entries[p.keys[j]])
    ensures ParsePairs(p.Take(i), PairTexts(p)[i..]) == Success(p)
    decreases |p.keys| - i
  {
    var ps := PairTexts(p);
    if i == |p.keys| {
      assert ps[i..] == [];
      TakeAll(p);
    } else {
      var letter := p.keys[i];
      var w := p.entries[letter];
      ParsePairsAt(p.Take(i), ps, i);
      PairSplits(letter, w);
      TakeNext(p, i);
      ParseWrittenPairs(p, i + 1);
    }
  }

  /** The pairs field of a safe entry splits at ',' into the pair texts, which load into the same alternatives. */
  lemma PairsFieldReadsBack(p: Dict<string, Decimal>)
    requires p.Valid() && |p.keys| > 0
    requires forall j :: 0 <= j < |p.keys| ==> PlainLetter(p.keys[j]) && WellFormed(p.entries[p.keys[j]])
    ensures ParsePairs(Empty(), Split(Join(PairTexts(p), ','), ',')) == Success(p)
  {
    var ps := PairTexts(p);
    forall i | 0 <= i < |ps| ensures ',' !in ps[i] {
      NotInFormat(p.entries[p.keys[i]], ',');
    }
    SplitJoin(ps, ',');
    ParseWrittenPairs(p, 0);
    TakeZero(p);
    assert ps[0..] == ps;
  }

  /** The five fields of a written line, joined with '|'. */
  lemma LineFields(v: string, q: string, e: Entry)
    requires e.partials.Listed()
    ensures LineText(v, q, e) == Join([v, q, Format(e.weight), Join(PairTexts(e.partials), ','), e.correct], '|')
  {
    var w := Format(e.weight);
    var ps := Join(PairTexts(e.partials), ',');
    var c := e.correct;
    JoinCons(ps, [c], '|');
    assert [ps] + [c] == [ps, c];
    JoinCons(w, [ps, c], '|');
    assert [w] + [ps, c] == [w, ps, c];
    JoinCons(q, [w, ps, c], '|');
    assert [q] + [w, ps, c] == [q, w, ps, c];
    JoinCons(v, [q, w, ps, c], '|');
    assert [v] + [q, w, ps, c] == [v, q, w, ps, c];
  }

  /** A written line splits at '|' into its five fields. */
  lemma LineSplits(v: string, q: string, e: Entry)
    requires PlainField(v) && PlainField(q) && SafeEntry(e)
    ensures Split(LineText(v, q, e), '|') == [v, q, Format(e.weight), Join(PairTexts(e.partials), ','), e.correct]
  {
    var fields := [v, q, Format(e.weight), Join(PairTexts(e.partials), ','), e.correct];
    NotInFormat(e.weight, '|');
    NotInPairs(e.partials, '|');
    LineFields(v, q, e);
    SplitJoin(fields, '|');
  }

  /** A written line of a safe entry is left alone by `strip` and parses into the variant, the question and the entry. */
  lemma ParseWrittenLine(v: string, q: string, e: Entry)
    requires PlainField(v) && (v == [] || !IsSpace(v[0])) && PlainField(q) && SafeEntry(e)
    ensures var line := LineText(v, q, e);
      Strip(line) == line && !IsBlank(line) && ParseLine(line) == Success(KeyLine(v, q, e))
  {
    var line := LineText(v, q, e);
    LineEnds(v, q, e);
    StripUnchanged(line);
    LineSplits(v, q, e);
    ParseFormat(e.weight);
    PairsFieldReadsBack(e.partials);
    ParseFields(line, v, q, e, Join(PairTexts(e.partials), ','));
  }

  /** A line with five fields, a numeric weight and loading pairs parses into those fields. */
  lemma ParseFields(line: string, v: string, q: string, e: Entry, pairs: string)
    requires Split(line, '|') == [v, q, Format(e.weight), pairs, e.correct]
    requires ParseFloat(Format(e.weight)) == Some(e.weight)
    requires ParsePairs(Empty(), Split(pairs, ',')) == Success(e.partials)
    ensures ParseLine(line) == Success(KeyLine(v, q, e))
  {
  }

  /** A written line neither starts nor ends with whitespace. */
  lemma LineEnds(v: string, q: string, e: Entry)
    requires (v == [] || !IsSpace(v[0])) && (e.correct == [] || !IsSpace(e.correct[|e.correct| - 1]))
    requires e.partials.Listed()
    ensures var line := LineText(v, q, e);
      line != [] && !IsSpace(line[0]) && !IsSpace(line[|line| - 1])
  {
    var line := LineText(v, q, e);
    var c := e.correct;
    var rest := line[..|line| - |c|];
    assert line == rest + c;
    assert rest[|rest| - 1] == '|';
    if v != [] {
      assert line[0] == v[0];
    }
  }

  /** A line whose pairs field is empty, as the writer puts it for an entry without alternatives, is refused. */
  lemma NoAlternativesRefused(v: string, q: string, e: Entry)
    requires PlainField(v) && PlainField(q) && PlainField(e.correct) && WellFormed(e.weight)
    requires e.partials.keys == []
    ensures ParseLine(LineText(v, q, e)) == Failure(WrongPairShape)
  {
    var fields := [v, q, Format(e.weight), Join(PairTexts(e.partials), ','), e.correct];
    assert Join(PairTexts(e.partials), ',') == [];
    NotInFormat(e.weight, '|');
    LineFields(v, q, e);
    SplitJoin(fields, '|');
    ParseFormat(e.weight);
    assert Split([], ',') == [[]];
    assert Split([], ':') == [[]];
  }

  // ---------- the loader's states ----------

  /**
   * What the loader holds after the first n variants and the first m
   * questions of variant n: the first n variants, and variant n with its
   * first m questions once it has one.
   */
  ghost function Partway(data: Key, n: nat, m: nat): Key
    requires RoundTripSafe(data) && n < |data.keys| && m <= |data.entries[data.keys[n]].keys|
  {
    var v := data.keys[n];
    if m == 0 then data.Take(n) else data.Take(n).Put(v, data.entries[v].Take(m))
  }

  /** Variant n's questions, as the loader finds them partway, are its first m questions. */
  lemma QuestionsPartway(data: Key, n: nat, m: nat)
    requires RoundTripSafe(data) && n < |data.keys| && m <= |data.entries[data.keys[n]].keys|
    ensures Questions(Partway(data, n, m), data.keys[n]) == data.entries[data.keys[n]].Take(m)
  {
    var v := data.keys[n];
    var d := data.entries[v];
    assert SafeQuestions(v, d);
    if m == 0 {
      assert v !in data.keys[..n];
      TakeZero(d);
    }
  }

  /** Storing the line of question m moves the loader on by one question. */
  lemma StorePartway(data: Key, n: nat, m: nat)
    requires RoundTripSafe(data) && n < |data.keys| && m < |data.entries[data.keys[n]].keys|
    ensures var v := data.keys[n];
      var d := data.entries[v];
      Store(Partway(data, n, m), KeyLine(v, d.keys[m], d.entries[d.keys[m]])) == Partway(data, n, m + 1)
  {
    var v := data.keys[n];
    var d := data.entries[v];
    assert SafeQuestions(v, d);
    QuestionsPartway(data, n, m);
    TakeNext(d, m);
    if m > 0 {
      PutPut(data.Take(n), v, d.Take(m), d.Take(m + 1));
    }
  }

  /** Once every question of variant n is in, the loader holds the first n + 1 variants. */
  lemma PartwayEnd(data: Key, n: nat)
    requires RoundTripSafe(data) && n < |data.keys|
    ensures Partway(data, n, |data.entries[data.keys[n]].keys|) == data.Take(n + 1)
  {
    var v := data.keys[n];
    var d := data.entries[v];
    assert SafeQuestions(v, d);
    TakeAll(d);
    TakeNext(data, n);
  }

  // ---------- the lines of the file ----------

  /** Loading two runs of lines: the first, then the second from where the first left off. */
  lemma {:induction false} LoadFromAppend(k: Key, a: seq<string>, b: seq<string>)
    ensures LoadFrom(k, a + b) == match LoadFrom(k, a)
      case Failure(e) => Failure(e)
      case Success(k') => LoadFrom(k', b)
    decreases |a|
  {
    if a == [] {
      assert a + b == b;
    } else {
      assert (a + b)[0] == a[0];
      assert (a + b)[1..] == a[1..] + b;
      match Step(k, a[0])
      case Failure(_) =>
      case Success(k') => LoadFromAppend(k', a[1..], b);
    }
  }

  /** Two runs that load one after the other load together. */
  lemma LoadThen(k: Key, a: seq<string>, b: seq<string>, k1: Key, k2: Key)
    requires LoadFrom(k, a) == Success(k1) && LoadFrom(k1, b) == Success(k2)
    ensures LoadFrom(k, a + b) == Success(k2)
  {
    LoadFromAppend(k, a, b);
  }

  /** A run of lines that loads, followed by one line that loads. */
  lemma LoadSnoc(k: Key, a: seq<string>, x: string, k1: Key, k2: Key)
    requires LoadFrom(k, a) == Success(k1) && Step(k1, x) == Success(k2)
    ensures LoadFrom(k, a + [x]) == Success(k2)
  {
    assert [x][1..] == [];
    LoadFromAppend(k, a, [x]);
  }

  /** From any key, a written line of a safe entry is stored as the entry of its variant and question. */
  lemma StepWrittenLine(k: Key, v: string, q: string, e: Entry)
    requires PlainField(v) && (v == [] || !IsSpace(v[0])) && PlainField(q) && SafeEntry(e)
    ensures Step(k, LineText(v, q, e)) == Success(Store(k, KeyLine(v, q, e)))
  {
    ParseWrittenLine(v, q, e);
  }

  /** Loading line m after the first m lines. */
  lemma LoadPrefixStep(k: Key, ls: seq<string>, m: nat, before: Key, after: Key)
    requires m < |ls|
    requires LoadFrom(k, ls[..m]) == Success(before) && Step(before, ls[m]) == Success(after)
    ensures LoadFrom(k, ls[..m + 1]) == Success(after)
  {
    SliceSnoc(ls, m);
    LoadSnoc(k, ls[..m], ls[m], before, after);
  }

  /** All the lines are the lines. */
  lemma SliceAll(ls: seq<string>)
    ensures ls[..|ls|] == ls
  {
  }

  /** The first m + 1 lines are the first m and line m. */
  lemma SliceSnoc(ls: seq<string>, m: nat)
    requires m < |ls|
    ensures ls[..m + 1] == ls[..m] + [ls[m]]
  {
  }

  /** Line m of variant n moves the loader on by one question. */
  lemma StepPartway(data: Key, n: nat, m: nat)
    requires RoundTripSafe(data) && Writable(data) && n < |data.keys| && m < |data.entries[data.keys[n]].keys|
    ensures Step(Partway(data, n, m), VariantLines(data.keys[n], data.entries[data.keys[n]])[m]) == Success(Partway(data, n, m + 1))
  {
    var v := data.keys[n];
    var d := data.entries[v];
    assert SafeQuestions(v, d);
    var q := d.keys[m];
    StorePartway(data, n, m);
    StepWrittenLine(Partway(data, n, m), v, q, d.entries[q]);
    assert VariantLines(v, d)[m] == LineText(v, q, d.entries[q]);
  }

  /** Loading the first m lines of variant n after the first n variants. */
  lemma {:induction false} LoadVariantPrefix(data: Key, n: nat, m: nat)
    requires RoundTripSafe(data) && Writable(data) && n < |data.keys| && m <= |data.entries[data.keys[n]].keys|
    ensures LoadFrom(data.Take(n), VariantLines(data.keys[n], data.entries[data.keys[n]])[..m]) == Success(Partway(data, n, m))
    decreases m
  {
    var v := data.keys[n];
    var d := data.entries[v];
    if m == 0 {
      assert VariantLines(v, d)[..0] == [];
    } else {
      LoadVariantPrefix(data, n, m - 1);
      StepPartway(data, n, m - 1);
      LoadPrefixStep(data.Take(n), VariantLines(v, d), m - 1, Partway(data, n, m - 1), Partway(data, n, m));
    }
  }

  /** All the lines of variant n load after the first n variants into the first n + 1 variants. */
  lemma LoadVariant(data: Key, n: nat)
    requires RoundTripSafe(data) && Writable(data) && n < |data.keys|
    ensures LoadFrom(data.Take(n), VariantLines(data.keys[n], data.entries[data.keys[n]])) == Success(data.Take(n + 1))
  {
    var v := data.keys[n];
    var ls := VariantLines(v, data.entries[v]);
    LoadVariantPrefix(data, n, |data.entries[v].keys|);
    SliceAll(ls);
    PartwayEnd(data, n);
  }

  /** Chunks of lines, one after the other. */
  ghost function Flatten(chunks: seq<seq<string>>): seq<string> {
    if chunks == [] then [] else Flatten(chunks[..|chunks| - 1]) + chunks[|chunks| - 1]
  }

  /** Chunks that each load from one state into the next load together from the first state. */
  lemma {:induction false} LoadChunks(chunks: seq<seq<string>>, states: seq<Key>, n: nat)
    requires |states| == |chunks| + 1 && n <= |chunks|
    requires forall i :: 0 <= i < |chunks| ==> LoadFrom(states[i], chunks[i]) == Success(states[i + 1])
    ensures LoadFrom(states[0], Flatten(chunks[..n])) == Success(states[n])
    decreases n
  {
    if n == 0 {
      assert chunks[..0] == [];
    } else {
      LoadChunks(chunks, states, n - 1);
      assert chunks[..n][..n - 1] == chunks[..n - 1];
      LoadThen(states[0], Flatten(chunks[..n - 1]), chunks[n - 1], states[n - 1], states[n]);
    }
  }

  /** The lines of each variant. */
  ghost function FileChunks(data: Key): (cs: seq<seq<string>>)
    requires Writable(data)
    ensures |cs| == |data.keys|
  {
    seq(|data.keys|, i requires 0 <= i < |data.keys| => VariantLines(data.keys[i], data.entries[data.keys[i]]))
  }

  /** The key after each number of variants. */
  ghost function Prefixes(data: Key): (ks: seq<Key>)
    requires data.Valid()
    ensures |ks| == |data.keys| + 1
  {
    seq(|data.keys| + 1, i requires 0 <= i <= |data.keys| => data.Take(i))
  }

  /** Every variant of a safe key loads from the key of the variants before it. */
  lemma AllChunksLoad(data: Key)
    requires RoundTripSafe(data) && Writable(data)
    ensures var cs := FileChunks(data);
      var ks := Prefixes(data);
      forall i :: 0 <= i < |cs| ==> LoadFrom(ks[i], cs[i]) == Success(ks[i + 1])
  {
    var cs := FileChunks(data);
    var ks := Prefixes(data);
    forall i | 0 <= i < |cs| ensures LoadFrom(ks[i], cs[i]) == Success(ks[i + 1]) {
      LoadVariant(data, i);
    }
  }

  /** The lines of all variants, one variant after the other, load into the whole key. */
  lemma LoadAllChunks(data: Key)
    requires RoundTripSafe(data) && Writable(data)
    ensures LoadFrom(Empty(), Flatten(FileChunks(data))) == Success(data)
  {
    var cs := FileChunks(data);
    var ks := Prefixes(data);
    AllChunksLoad(data);
    TakeZero(data);
    TakeAll(data);
    LoadAllFrom(cs, ks, Empty(), data);
  }

  /** All the chunks, loaded from the first state, end in the last one. */
  lemma LoadAllFrom(chunks: seq<seq<string>>, states: seq<Key>, first: Key, last: Key)
    requires |states| == |chunks| + 1 && states[0] == first && states[|chunks|] == last
    requires forall i :: 0 <= i < |chunks| ==> LoadFrom(states[i], chunks[i]) == Success(states[i + 1])
    ensures LoadFrom(first, Flatten(chunks)) == Success(last)
  {
    LoadChunks(chunks, states, |chunks|);
    assert chunks[..|chunks|] == chunks;
  }

  // ---------- the text of the file ----------

  /** Text made of lines without '\n', each followed by one, splits back into those lines. */
  lemma {:induction false} SplitTerminated(ls: seq<string>, s: string)
    requires forall i :: 0 <= i < |ls| ==> '\n' !in ls[i]
    ensures Split(Terminated(ls) + s, '\n') == ls + Split(s, '\n')
    decreases |ls|
  {
    if ls == [] {
      assert Terminated(ls) + s == s;
    } else {
      var init := ls[..|ls| - 1];
      var last := ls[|ls| - 1];
      var t := last + ("\n" + s);
      assert Terminated(ls) + s == Terminated(init) + t;
      SplitTerminated(init, t);
      SplitLine(last, s);
      assert ls == init + [last];
    }
  }

  /** One line without '\n', its '\n', then s: the line, then the pieces of s. */
  lemma SplitLine(line: string, s: string)
    requires '\n' !in line
    ensures Split(line + ("\n" + s), '\n') == [line] + Split(s, '\n')
  {
    SplitNoSep(line, "\n" + s, '\n');
    SplitAtSep(s, '\n');
    assert line + [] == line;
  }

  /** A character in no line is not in the lines' text. */
  lemma {:induction false} NotInTerminated(ls: seq<string>, c: char)
    requires c != '\n' && forall i :: 0 <= i < |ls| ==> c !in ls[i]
    ensures c !in Terminated(ls)
    decreases |ls|
  {
    if ls != [] {
      NotInTerminated(ls[..|ls| - 1], c);
      assert c !in ls[|ls| - 1];
    }
  }

  /** Chunks of lines, each line followed by '\n'. */
  ghost function TerminatedChunks(cs: seq<seq<string>>): string {
    if cs == [] then [] else TerminatedChunks(cs[..|cs| - 1]) + Terminated(cs[|cs| - 1])
  }

  /** No line of any chunk holds a line break. */
  ghost predicate NoBreaks(cs: seq<seq<string>>) {
    forall i, j :: 0 <= i < |cs| && 0 <= j < |cs[i]| ==> '\n' !in cs[i][j] && '\r' !in cs[i][j]
  }

  /** One more block of lines in front of a text that splits. */
  lemma SplitChunk(a: string, t: string, s: string, la: seq<string>, lt: seq<string>)
    requires Split(a + (t + s), '\n') == la + Split(t + s, '\n')
    requires Split(t + s, '\n') == lt + Split(s, '\n')
    ensures Split(a + t + s, '\n') == la + lt + Split(s, '\n')
  {
    assert a + t + s == a + (t + s);
    var rest := Split(s, '\n');
    assert la + (lt + rest) == la + lt + rest;
  }

  /** The chunks' text, followed by s, splits at '\n' into the chunks' lines and the pieces of s. */
  lemma {:induction false} SplitChunks(cs: seq<seq<string>>, s: string)
    requires NoBreaks(cs)
    ensures Split(TerminatedChunks(cs) + s, '\n') == Flatten(cs) + Split(s, '\n')
    decreases |cs|
  {
    if cs == [] {
      assert TerminatedChunks(cs) + s == s;
    } else {
      var init := cs[..|cs| - 1];
      var last := cs[|cs| - 1];
      assert forall j :: 0 <= j < |last| ==> '\n' !in last[j];
      assert NoBreaks(init) by {
        assert forall i :: 0 <= i < |init| ==> init[i] == cs[i];
      }
      SplitTerminated(last, s);
      SplitChunks(init, Terminated(last) + s);
      SplitChunk(TerminatedChunks(init), Terminated(last), s, Flatten(init), last);
    }
  }

  /** The chunks' text holds no '\r'. */
  lemma {:induction false} NoReturnInChunks(cs: seq<seq<string>>)
    requires NoBreaks(cs)
    ensures '\r' !in TerminatedChunks(cs)
    decreases |cs|
  {
    if cs != [] {
      var init := cs[..|cs| - 1];
      var last := cs[|cs| - 1];
      assert forall j :: 0 <= j < |last| ==> '\r' !in last[j];
      assert NoBreaks(init) by {
        assert forall i :: 0 <= i < |init| ==> init[i] == cs[i];
      }
      NotInTerminated(last, '\r');
      NoReturnInChunks(init);
    }
  }

  /** The text of the first n variants is their chunks, each line followed by '\n'. */
  lemma {:induction false} FileTextChunks(data: Key, n: nat)
    requires Writable(data) && n <= |data.keys|
    ensures FileText(data, n) == TerminatedChunks(FileChunks(data)[..n])
    decreases n
  {
    var cs := FileChunks(data);
    if n == 0 {
      assert cs[..0] == [];
    } else {
      FileTextChunks(data, n - 1);
      assert cs[..n][..n - 1] == cs[..n - 1];
    }
  }

  /** The lines of variant n hold no line break. */
  lemma NoBreakInVariant(data: Key, n: nat)
    requires RoundTripSafe(data) && Writable(data) && n < |data.keys|
    ensures var ls := VariantLines(data.keys[n], data.entries[data.keys[n]]);
      forall j :: 0 <= j < |ls| ==> '\n' !in ls[j] && '\r' !in ls[j]
  {
    var v := data.keys[n];
    var d := data.entries[v];
    assert SafeQuestions(v, d);
    forall j | 0 <= j < |d.keys| ensures '\n' !in LineText(v, d.keys[j], d.entries[d.keys[j]]) && '\r' !in LineText(v, d.keys[j], d.entries[d.keys[j]]) {
      NoBreakInLine(v, d.keys[j], d.entries[d.keys[j]]);
    }
  }

  /** No line a safe key writes holds a line break. */
  lemma ChunksBreakFree(data: Key)
    requires RoundTripSafe(data) && Writable(data)
    ensures NoBreaks(FileChunks(data))
  {
    var cs := FileChunks(data);
    forall i | 0 <= i < |cs| ensures forall j :: 0 <= j < |cs[i]| ==> '\n' !in cs[i][j] && '\r' !in cs[i][j] {
      NoBreakInVariant(data, i);
    }
  }

  /** The lines `load_gabarito` reads from the key file of a safe key: every written line, then one empty line. */
  lemma KeyFileLines(data: Key)
    requires RoundTripSafe(data) && Writable(data)
    ensures Lines(KeyFileText(data)) == Flatten(FileChunks(data)) + [[]]
  {
    var cs := FileChunks(data);
    var text := KeyFileText(data);
    FileTextChunks(data, |cs|);
    assert cs[..|cs|] == cs;
    ChunksBreakFree(data);
    SplitChunks(cs, []);
    assert text + [] == text;
    NoReturnInChunks(cs);
    ReplaceCharAbsent(text, '\r', '\n');
  }

  /**
   * The key file of a safe key loads into that very key: the same variants
   * in the same order, each with the same questions in the same order, and
   * each entry with the same weight, alternatives and correct letter.
   */
  lemma KeyFileRoundTrip(data: Key)
    requires RoundTripSafe(data)
    ensures Writable(data) && LoadKey(KeyFileText(data)) == Success(data)
  {
    SafeKeyValid(data);
    KeyFileLines(data);
    LoadAllChunks(data);
    LoadFromAppend(Empty(), Flatten(FileChunks(data)), [[]]);
  }
}
