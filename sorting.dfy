/**
 * Python's `sorted(xs, key=...)`: a stable sort. The model is an insertion
 * sort over a comparison `le` ("not after"), which must be a total preorder.
 * Any stable sort gives the same answer (StableSortIsUnique), so the choice
 * of algorithm does not matter.
 */
module Sorting {

  /** le compares any two elements and chains. */
  ghost predicate TotalPreorder<T(!new)>(le: (T, T) -> bool) {
    (forall a, b :: le(a, b) || le(b, a))
    && (forall a, b, c :: le(a, b) && le(b, c) ==> le(a, c))
  }

  /** a and b have equal sort keys. */
  predicate Equiv<T>(le: (T, T) -> bool, a: T, b: T) {
    le(a, b) && le(b, a)
  }

  ghost predicate Sorted<T>(s: seq<T>, le: (T, T) -> bool) {
    forall i, j :: 0 <= i < j < |s| ==> le(s[i], s[j])
  }

  /** Insert x in front of the first element that is not before it. */
  function Insert<T>(x: T, s: seq<T>, le: (T, T) -> bool): (r: seq<T>)
    ensures |r| == |s| + 1
    decreases |s|
  {
    if s == [] || le(x, s[0]) then [x] + s else [s[0]] + Insert(x, s[1..], le)
  }

  /** `sorted(s)` with the order le. */
  function Sort<T>(s: seq<T>, le: (T, T) -> bool): (r: seq<T>)
    ensures |r| == |s|
    decreases |s|
  {
    if s == [] then [] else Insert(s[0], Sort(s[1..], le), le)
  }

  /** The elements of s with the same key as c, in the order s has them. */
  function Class<T>(s: seq<T>, c: T, le: (T, T) -> bool): seq<T>
    decreases |s|
  {
    if s == [] then [] else (if Equiv(le, s[0], c) then [s[0]] else []) + Class(s[1..], c, le)
  }

  lemma {:induction false} InsertPermutes<T>(x: T, s: seq<T>, le: (T, T) -> bool)
    ensures multiset(Insert(x, s, le)) == multiset{x} + multiset(s)
    decreases |s|
  {
    if s != [] && !le(x, s[0]) {
      InsertPermutes(x, s[1..], le);
      assert s == [s[0]] + s[1..];
    }
  }

  /** Sorting permutes its input. */
  lemma {:induction false} SortPermutes<T>(s: seq<T>, le: (T, T) -> bool)
    ensures multiset(Sort(s, le)) == multiset(s)
    decreases |s|
  {
    if s != [] {
      SortPermutes(s[1..], le);
      InsertPermutes(s[0], Sort(s[1..], le), le);
      assert s == [s[0]] + s[1..];
    }
  }

  lemma {:induction false} InsertSorted<T(!new)>(x: T, s: seq<T>, le: (T, T) -> bool)
    requires TotalPreorder(le) && Sorted(s, le)
    ensures Sorted(Insert(x, s, le), le)
    decreases |s|
  {
    if s != [] && !le(x, s[0]) {
      InsertSorted(x, s[1..], le);
      InsertPermutes(x, s[1..], le);
      var r := Insert(x, s[1..], le);
      forall k | 0 <= k < |r| ensures le(s[0], r[k]) {
        assert r[k] in multiset(r);
        assert r[k] == x || r[k] in multiset(s[1..]);
        if r[k] != x {
          var m :| 0 <= m < |s[1..]| && s[1..][m] == r[k];
          assert s[1 + m] == r[k];
        }
      }
    }
  }

  /** Sorting yields a sequence in order. */
  lemma {:induction false} SortSorted<T(!new)>(s: seq<T>, le: (T, T) -> bool)
    requires TotalPreorder(le)
    ensures Sorted(Sort(s, le), le)
    decreases |s|
  {
    if s != [] {
      SortSorted(s[1..], le);
      InsertSorted(s[0], Sort(s[1..], le), le);
    }
  }

  lemma BeforeNotEquiv<T(!new)>(x: T, y: T, c: T, le: (T, T) -> bool)
    requires TotalPreorder(le) && !le(x, y) && Equiv(le, x, c)
    ensures !Equiv(le, y, c)
  {
  }

  lemma {:induction false} InsertClass<T(!new)>(x: T, s: seq<T>, c: T, le: (T, T) -> bool)
    requires TotalPreorder(le)
    ensures Class(Insert(x, s, le), c, le) == (if Equiv(le, x, c) then [x] else []) + Class(s, c, le)
    decreases |s|
  {
    var hx := if Equiv(le, x, c) then [x] else [];
    if s == [] || le(x, s[0]) {
      assert Insert(x, s, le) == [x] + s;
      assert ([x] + s)[1..] == s;
    } else {
      var h0 := if Equiv(le, s[0], c) then [s[0]] else [];
      var rest := Insert(x, s[1..], le);
      assert Insert(x, s, le) == [s[0]] + rest;
      assert ([s[0]] + rest)[1..] == rest;
      assert Class([s[0]] + rest, c, le) == h0 + Class(rest, c, le);
      InsertClass(x, s[1..], c, le);
      assert Class(s, c, le) == h0 + Class(s[1..], c, le);
      if Equiv(le, x, c) {
        // s[0] is strictly before x, so it cannot share x's key
        BeforeNotEquiv(x, s[0], c, le);
        assert h0 == [];
      } else {
        assert hx == [];
      }
    }
  }

  /** Sorting is stable: the elements of each key keep their relative order. */
  lemma {:induction false} SortStable<T(!new)>(s: seq<T>, c: T, le: (T, T) -> bool)
    requires TotalPreorder(le)
    ensures Class(Sort(s, le), c, le) == Class(s, c, le)
    decreases |s|
  {
    if s != [] {
      SortStable(s[1..], c, le);
      InsertClass(s[0], Sort(s[1..], le), c, le);
    }
  }

  lemma {:induction false} ClassHeadBefore<T(!new)>(s: seq<T>, c: T, le: (T, T) -> bool)
    requires TotalPreorder(le) && Sorted(s, le) && Class(s, c, le) != []
    ensures s != [] && le(s[0], c)
    decreases |s|
  {
    if !Equiv(le, s[0], c) {
      ClassHeadBefore(s[1..], c, le);
      assert le(s[0], s[1]);
    }
  }

  lemma ClassOfHead<T(!new)>(s: seq<T>, le: (T, T) -> bool)
    requires TotalPreorder(le) && s != []
    ensures Class(s, s[0], le) != []
  {
    assert Equiv(le, s[0], s[0]);
  }

  lemma {:induction false} SortedSameClassesEqual<T(!new)>(r1: seq<T>, r2: seq<T>, le: (T, T) -> bool)
    requires TotalPreorder(le) && Sorted(r1, le) && Sorted(r2, le)
    requires forall c :: Class(r1, c, le) == Class(r2, c, le)
    ensures r1 == r2
    decreases |r1|
  {
    if r1 == [] || r2 == [] {
      var s := if r1 == [] then r2 else r1;
      if s != [] {
        ClassOfHead(s, le);
        assert false;
      }
    } else {
      var a, b := r1[0], r2[0];
      assert Equiv(le, a, a) && Equiv(le, b, b);
      assert Class(r1, a, le) != [] && Class(r2, b, le) != [];
      ClassHeadBefore(r2, a, le);
      ClassHeadBefore(r1, b, le);
      assert Equiv(le, b, a);
      assert Class(r2, a, le)[0] == b && Class(r1, a, le)[0] == a;
      assert a == b;
      forall c ensures Class(r1[1..], c, le) == Class(r2[1..], c, le) {
        var head := if Equiv(le, a, c) then [a] else [];
        assert Class(r1, c, le) == head + Class(r1[1..], c, le);
        assert Class(r2, c, le) == head + Class(r2[1..], c, le);
        assert Class(r1[1..], c, le) == Class(r1, c, le)[|head|..];
        assert Class(r2[1..], c, le) == Class(r2, c, le)[|head|..];
      }
      SortedSameClassesEqual(r1[1..], r2[1..], le);
      assert r1 == [a] + r1[1..] && r2 == [b] + r2[1..];
    }
  }

  /** Every stable sort of s agrees with Sort: a sorted sequence that keeps the order within each key is Sort(s). */
  lemma StableSortIsUnique<T(!new)>(s: seq<T>, r: seq<T>, le: (T, T) -> bool)
    requires TotalPreorder(le) && Sorted(r, le)
    requires forall c :: Class(r, c, le) == Class(s, c, le)
    ensures r == Sort(s, le)
  {
    SortSorted(s, le);
    forall c ensures Class(r, c, le) == Class(Sort(s, le), c, le) {
      SortStable(s, c, le);
    }
    SortedSameClassesEqual(r, Sort(s, le), le);
  }
}
