/**
 * The helpers of the upload handler (app.py): the image-extension filter,
 * the folder name built from the form, the writer of the key file that the
 * answer-key loader reads back, and the check of the uploaded files.
 */
module Upload {
  import opened Wrappers
  import opened Text
  import opened Dicts
  import opened Decimals
  import opened AnswerKey

  // ---------- allowed_file ----------

  const AllowedExtensions: set<string> := {"png", "jpg", "jpeg"}

  /** The position of the last '.' in f, if any. */
  function LastDot(f: string): (r: Option<nat>)
    ensures r.Some? ==> r.value < |f| && f[r.value] == '.' && '.' !in f[r.value + 1..]
    ensures r.None? <==> '.' !in f
    decreases |f|
  {
    if f == [] then None
    else if f[|f| - 1] == '.' then Some(|f| - 1)
    else
      var r := LastDot(f[..|f| - 1]);
      assert f == f[..|f| - 1] + [f[|f| - 1]];
      assert r.Some? ==> f[r.value + 1..] == f[..|f| - 1][r.value + 1..] + [f[|f| - 1]];
      r
  }

  /** `filename.rsplit('.', 1)[1]`: the text after the last '.'. */
  function Extension(f: string): string
    requires '.' in f
  {
    f[LastDot(f).value + 1..]
  }

  /** `allowed_file`. */
  predicate AllowedFile(f: string) {
    '.' in f && Lower(Extension(f)) in AllowedExtensions
  }

  /**
   * A name is allowed exactly when it has a '.' and the text after the last
   * '.', lower-cased, is png, jpg or jpeg.
   */
  lemma AllowedFileMeaning(f: string)
    ensures AllowedFile(f) <==>
      exists i :: 0 <= i < |f| && f[i] == '.' && '.' !in f[i + 1..] && Lower(f[i + 1..]) in AllowedExtensions
  {
    if AllowedFile(f) {
      var k := LastDot(f).value;
      assert Extension(f) == f[k + 1..];
    }
    forall i | 0 <= i < |f| && f[i] == '.' && '.' !in f[i + 1..] && Lower(f[i + 1..]) in AllowedExtensions
      ensures AllowedFile(f)
    {
      LastDotUnique(f, i);
    }
  }

  /** A '.' with no '.' after it is the last one. */
  lemma LastDotUnique(f: string, i: nat)
    requires i < |f| && f[i] == '.' && '.' !in f[i + 1..]
    ensures '.' in f && LastDot(f) == Some(i) && Extension(f) == f[i + 1..]
  {
    assert f[i] in f;
  }

  // ---------- the folder name ----------

  /** Line 46: `f"{professor}_{date}_{turma}"` with ' ' made '_' and then '/' made '-'. */
  function FolderName(professor: string, date: string, turma: string): string {
    ReplaceChar(ReplaceChar(professor + "_" + date + "_" + turma, ' ', '_'), '/', '-')
  }

  /**
   * The folder name has no ' ' and no '/'; it is as long as the joined form
   * fields and keeps every other character in place.
   */
  lemma FolderNameMeaning(professor: string, date: string, turma: string)
    ensures var raw := professor + "_" + date + "_" + turma;
      var name := FolderName(professor, date, turma);
      && ' ' !in name && '/' !in name && |name| == |raw|
      && forall i :: 0 <= i < |raw| ==> name[i] == if raw[i] == ' ' then '_' else if raw[i] == '/' then '-' else raw[i]
  {
    var raw := professor + "_" + date + "_" + turma;
    ReplaceCharAt(raw, ' ', '_');
    ReplaceCharAt(ReplaceChar(raw, ' ', '_'), '/', '-');
  }

  // ---------- the key file ----------

  /** `f"{k}:{v}"` for one alternative. */
  function PairText(letter: string, w: Decimal): string {
    letter + ":" + Format(w)
  }

  /** The pair strings of an entry's partial credits, in insertion order. */
  function PairTexts(partials: Dict<string, Decimal>): (ps: seq<string>)
    requires partials.Listed()
    ensures |ps| == |partials.keys|
  {
    seq(|partials.keys|, i requires 0 <= i < |partials.keys| => PairText(partials.keys[i], partials.entries[partials.keys[i]]))
  }

  /** A key-file line without its newline: `variant|question|weight|pairs|correct`. */
  function LineText(v: string, q: string, e: Entry): string
    requires e.partials.Listed()
  {
    v + "|" + q + "|" + Format(e.weight) + "|" + Join(PairTexts(e.partials), ',') + "|" + e.correct
  }

  /** What the writer needs of one variant's questions: each listed question has an entry whose letters have entries. */
  ghost predicate QuestionsListed(d: Dict<string, Entry>) {
    d.Listed() && forall j :: 0 <= j < |d.keys| ==> d.entries[d.keys[j]].partials.Listed()
  }

  /** What the writer needs of the whole key: each listed variant has questions fit for writing. */
  ghost predicate Writable(data: Key) {
    data.Listed() && forall i :: 0 <= i < |data.keys| ==> QuestionsListed(data.entries[data.keys[i]])
  }

  /** A key the loader can build is fit for writing. */
  lemma ValidWritable(data: Key)
    requires ValidKey(data)
    ensures Writable(data)
  {
  }

  /** The lines of one variant, question by question. */
  function VariantLines(v: string, d: Dict<string, Entry>): (ls: seq<string>)
    requires QuestionsListed(d)
    ensures |ls| == |d.keys|
  {
    seq(|d.keys|, j requires 0 <= j < |d.keys| => LineText(v, d.keys[j], d.entries[d.keys[j]]))
  }

  /** Lines written one after the other, each followed by a newline. */
  function Terminated(ls: seq<string>): string {
    if ls == [] then [] else Terminated(ls[..|ls| - 1]) + ls[|ls| - 1] + "\n"
  }

  /** The text of the first n variants. */
  function FileText(data: Key, n: nat): string
    requires Writable(data) && n <= |data.keys|
  {
    if n == 0 then []
    else FileText(data, n - 1) + Terminated(VariantLines(data.keys[n - 1], data.entries[data.keys[n - 1]]))
  }

  /** The whole file `gabarito_dinamico.txt`. */
  function KeyFileText(data: Key): string
    requires Writable(data)
  {
    FileText(data, |data.keys|)
  }

  lemma {:induction false} TerminatedAppend(a: seq<string>, b: seq<string>)
    ensures Terminated(a + b) == Terminated(a) + Terminated(b)
    decreases |b|
  {
    if b == [] {
      assert a + b == a;
    } else {
      var init := b[..|b| - 1];
      assert (a + b)[..|a + b| - 1] == a + init;
      assert (a + b)[|a + b| - 1] == b[|b| - 1];
      TerminatedAppend(a, init);
    }
  }

  /**
   * Lines 53-58: for each variant, for each of its questions, write the
   * line's first three fields, then the pairs and the correct letter and
   * the newline.
   */
  method WriteKeyFile(data: Key) returns (text: string)
    requires Writable(data)
    ensures text == KeyFileText(data)
  {
    text := "";
    for n := 0 to |data.keys|
      invariant text == FileText(data, n)
    {
      var variant := data.keys[n];
      var written := WriteVariant(variant, data.entries[variant]);
      FileTextSnoc(data, n, text, written);
      text := text + written;
    }
  }

  /** Appending the text of variant n to that of the first n variants. */
  lemma FileTextSnoc(data: Key, n: nat, text: string, written: string)
    requires Writable(data) && n < |data.keys|
    requires text == FileText(data, n)
    requires written == Terminated(VariantLines(data.keys[n], data.entries[data.keys[n]]))
    ensures text + written == FileText(data, n + 1)
  {
  }

  /** The inner loop of lines 55-58, for one variant: its lines, in question order. */
  method WriteVariant(variant: string, questions: Dict<string, Entry>) returns (text: string)
    requires QuestionsListed(questions)
    ensures text == Terminated(VariantLines(variant, questions))
  {
    text := "";
    for m := 0 to |questions.keys|
      invariant text == Terminated(VariantLines(variant, questions)[..m])
      invariant QuestionsListed(questions)
    {
      var q := questions.keys[m];
      var info := questions.entries[q];
      ghost var previous := text;
      var weight := Format(info.weight);
      text := text + variant + "|" + q + "|" + weight + "|";
      var pairs := Join(PairTexts(info.partials), ',');
      LineStep(variant, questions, m, previous, text, pairs);
      text := text + pairs + "|" + info.correct + "\n";
    }
    assert VariantLines(variant, questions)[..|questions.keys|] == VariantLines(variant, questions);
  }

  /** Writing line m of a variant after its first m lines, in the two writes of lines 56-58. */
  lemma LineStep(v: string, d: Dict<string, Entry>, m: nat, previous: string, text: string, pairs: string)
    requires QuestionsListed(d)
    requires m < |d.keys|
    requires previous == Terminated(VariantLines(v, d)[..m])
    requires text == previous + v + "|" + d.keys[m] + "|" + Format(d.entries[d.keys[m]].weight) + "|"
    requires pairs == Join(PairTexts(d.entries[d.keys[m]].partials), ',')
    ensures text + pairs + "|" + d.entries[d.keys[m]].correct + "\n" == Terminated(VariantLines(v, d)[..m + 1])
  {
    var q := d.keys[m];
    var info := d.entries[q];
    WrittenInTwoParts(previous, v, q, Format(info.weight), pairs, info.correct);
    TerminatedPrefix(VariantLines(v, d), m);
  }

  /** The first m + 1 lines, terminated, are the first m followed by line m. */
  lemma TerminatedPrefix(ls: seq<string>, m: nat)
    requires m < |ls|
    ensures Terminated(ls[..m + 1]) == Terminated(ls[..m]) + ls[m] + "\n"
  {
    TerminatedSnoc(ls[..m], ls[m]);
    assert ls[..m + 1] == ls[..m] + [ls[m]];
  }

  lemma WrittenInTwoParts(t: string, v: string, q: string, w: string, p: string, c: string)
    ensures t + v + "|" + q + "|" + w + "|" + p + "|" + c + "\n" == t + (v + "|" + q + "|" + w + "|" + p + "|" + c) + "\n"
  {
  }

  lemma TerminatedSnoc(ls: seq<string>, x: string)
    ensures Terminated(ls + [x]) == Terminated(ls) + x + "\n"
  {
    assert (ls + [x])[..|ls|] == ls;
  }

  // ---------- the uploaded files ----------

  /** A file the handler saves: present (a non-empty name) and allowed. */
  predicate Acceptable(name: string) {
    name != "" && AllowedFile(name)
  }

  /** What the upload check ends with: a refusal naming the first bad file (the earlier ones already saved), no images, or the saved files in order. */
  datatype UploadOutcome = Rejected(name: string, saved: seq<string>) | NoImages | Accepted(saved: seq<string>)

  /** The index of the first file that is not acceptable, |files| when there is none. */
  function FirstBad(files: seq<string>): (i: nat)
    ensures i <= |files| && (forall k :: 0 <= k < i ==> Acceptable(files[k])) && (i < |files| ==> !Acceptable(files[i]))
    decreases |files|
  {
    if files == [] then 0
    else if !Acceptable(files[0]) then 0
    else 1 + FirstBad(files[1..])
  }

  function UploadsOf(files: seq<string>): UploadOutcome {
    var i := FirstBad(files);
    if i < |files| then Rejected(files[i], files[..i])
    else if files == [] then NoImages
    else Accepted(files)
  }

  /**
   * The files are accepted exactly when there is at least one and every one
   * is acceptable, and then all are kept in upload order; NoImages comes
   * exactly with an empty upload; a refusal names the first bad file.
   */
  lemma UploadsMeaning(files: seq<string>)
    ensures UploadsOf(files).Accepted? <==> files != [] && forall k :: 0 <= k < |files| ==> Acceptable(files[k])
    ensures UploadsOf(files).Accepted? ==> UploadsOf(files).saved == files
    ensures UploadsOf(files) == NoImages <==> files == []
    ensures UploadsOf(files).Rejected? ==> exists i :: (0 <= i < |files| && !Acceptable(files[i])
      && UploadsOf(files) == Rejected(files[i], files[..i]) && forall k :: 0 <= k < i ==> Acceptable(files[k]))
  {
  }

  /** Lines 60-72: save each acceptable file, stop at the first other one. */
  method ValidateUploads(files: seq<string>) returns (outcome: UploadOutcome)
    ensures outcome == UploadsOf(files)
  {
    var saved: seq<string> := [];
    for i := 0 to |files|
      invariant saved == files[..i] && forall k :: 0 <= k < i ==> Acceptable(files[k])
    {
      var file := files[i];
      if file != "" && AllowedFile(file) {
        saved := saved + [file];
      } else {
        FirstBadIs(files, i);
        return Rejected(file, saved);
      }
    }
    FirstBadIs(files, |files|);
    assert files[..|files|] == files;
    if saved == [] {
      return NoImages;
    }
    outcome := Accepted(saved);
  }

  lemma {:induction false} FirstBadIs(files: seq<string>, i: nat)
    requires i <= |files| && (forall k :: 0 <= k < i ==> Acceptable(files[k])) && (i < |files| ==> !Acceptable(files[i]))
    ensures FirstBad(files) == i
    decreases |files|
  {
    if files != [] && i > 0 {
      FirstBadIs(files[1..], i - 1);
    }
  }
}
