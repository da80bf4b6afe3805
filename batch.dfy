/**
 * The batch (`run_correction`, corretor.py): grade every picture, keep the
 * sheets that could be read, in order, and export them with the key.
 */
module Batch {
  import opened Wrappers
  import opened AnswerKey
  import opened Sheet
  import opened Report

  predicate AllLoaded(pictures: seq<Picture>) {
    forall i :: 0 <= i < |pictures| ==> WellLoaded(pictures[i])
  }

  /** The present values, in order (`if resultado: resultados.append(resultado)`). */
  function Kept<T>(os: seq<Option<T>>): seq<T>
    decreases |os|
  {
    if os == [] then []
    else Kept(os[..|os| - 1]) + match os[|os| - 1] case None => [] case Some(x) => [x]
  }

  /** Filtering two runs one after the other is filtering them together. */
  lemma {:induction false} KeptAppend<T>(a: seq<Option<T>>, b: seq<Option<T>>)
    ensures Kept(a + b) == Kept(a) + Kept(b)
    decreases |b|
  {
    if b != [] {
      var init := b[..|b| - 1];
      assert (a + b)[..|a + b| - 1] == a + init;
      assert (a + b)[|a + b| - 1] == b[|b| - 1];
      KeptAppend(a, init);
    } else {
      assert a + b == a;
    }
  }

  /** Filtering one more value. */
  lemma KeptStep<T>(os: seq<Option<T>>, i: nat)
    requires i < |os|
    ensures Kept(os[..i + 1]) == Kept(os[..i]) + if os[i].Some? then [os[i].value] else []
  {
    assert os[..i + 1][..i] == os[..i];
  }

  /**
   * Every kept value was present in the input, every present value is kept,
   * and nothing is added.
   */
  lemma {:induction false} KeptMeaning<T>(os: seq<Option<T>>)
    ensures |Kept(os)| <= |os|
    ensures forall x :: x in Kept(os) <==> Some(x) in os
    ensures (forall i :: 0 <= i < |os| ==> os[i].None?) <==> Kept(os) == []
    decreases |os|
  {
    if os != [] {
      var init := os[..|os| - 1];
      KeptMeaning(init);
      assert os == init + [os[|os| - 1]];
      if Kept(os) == [] {
        assert Kept(init) == [];
        forall i | 0 <= i < |os| ensures os[i].None? {
          if i < |os| - 1 {
            assert os[i] == init[i];
          }
        }
      }
    }
  }

  /** The reading of every picture. */
  function Readings(pictures: seq<Picture>): (rs: seq<Option<SheetResult>>)
    requires AllLoaded(pictures)
    ensures |rs| == |pictures|
  {
    seq(|pictures|, i requires 0 <= i < |pictures| => SheetOf(pictures[i]))
  }

  /** The results of the readable sheets, in the order of the pictures. */
  function Graded(pictures: seq<Picture>): seq<SheetResult>
    requires AllLoaded(pictures)
  {
    Kept(Readings(pictures))
  }

  /**
   * `run_correction`: the results' loop, then the export.
   */
  method RunCorrection(pictures: seq<Picture>, key: Key) returns (r: Result<Workbook, ExportError>)
    requires AllLoaded(pictures) && ValidKey(key)
    ensures r == WorkbookOf(Graded(pictures), key)
  {
    var results: seq<SheetResult> := [];
    ghost var readings := Readings(pictures);
    for i := 0 to |pictures|
      invariant results == Kept(readings[..i])
    {
      var result := ProcessSheet(pictures[i]);
      KeptStep(readings, i);
      if result.Some? {
        results := results + [result.value];
      }
    }
    assert readings[..|pictures|] == readings;
    r := ExportToExcel(results, key);
  }

  /**
   * A batch in which no sheet could be read still exports the header and
   * the key rows, with no student rows.
   */
  lemma NothingReadStillExports(pictures: seq<Picture>, key: Key)
    requires AllLoaded(pictures) && ValidKey(key)
    requires forall i :: 0 <= i < |pictures| ==> SheetOf(pictures[i]).None?
    ensures Graded(pictures) == []
    ensures WorkbookOf(Graded(pictures), key).Success? ==> WorkbookOf(Graded(pictures), key).value.students == []
  {
    KeptMeaning(Readings(pictures));
  }
}
