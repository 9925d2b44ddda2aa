/** Sequence helpers shared by the grade model: order-preserving
    de-duplication, which is what `[...new Set(xs)]` computes. */
module Seqs {

  predicate NoDuplicates<T(==)>(s: seq<T>)
  {
    forall i, j :: 0 <= i < j < |s| ==> s[i] != s[j]
  }

  /** Position of the first occurrence of `x` in `s`. */
  function FirstIndex<T(==)>(s: seq<T>, x: T): (k: nat)
    requires x in s
    ensures k < |s| && s[k] == x
    ensures forall j :: 0 <= j < k ==> s[j] != x
  {
    if s[0] == x then 0 else 1 + FirstIndex(s[1..], x)
  }

  /** The distinct elements of `s`, kept in the order of their first occurrence,
      the way a JavaScript `Set` built from `s` enumerates them. */
  function Distinct<T(==,!new)>(s: seq<T>): (r: seq<T>)
    ensures NoDuplicates(r)
    ensures forall x :: x in r <==> x in s
  {
    if |s| == 0 then []
    else
      var r' := Distinct(s[..|s|-1]);
      var y := s[|s|-1];
      assert forall x :: x in s <==> x in s[..|s|-1] || x == y by {
        assert s == s[..|s|-1] + [y];
      }
      if y in r' then r' else r' + [y]
  }

  lemma DistinctSnoc<T(!new)>(s: seq<T>, y: T)
    ensures Distinct(s + [y]) == if y in s then Distinct(s) else Distinct(s) + [y]
  {
    assert (s + [y])[..|s|] == s;
  }

  lemma {:induction false} FirstIndexOfPrefix<T>(s: seq<T>, y: T, x: T)
    requires x in s
    ensures x in s + [y] && FirstIndex(s + [y], x) == FirstIndex(s, x)
  {
    var k := FirstIndex(s, x);
    var k' := FirstIndex(s + [y], x);
    assert (s + [y])[k] == x;
    assert k' <= k;
    assert s[k'] == (s + [y])[k'];
  }

  /** `Distinct` lists the elements in strictly increasing order of first occurrence. */
  lemma {:induction false} DistinctFirstOccurrenceOrder<T(!new)>(s: seq<T>)
    ensures forall i, j :: 0 <= i < j < |Distinct(s)| ==>
      FirstIndex(s, Distinct(s)[i]) < FirstIndex(s, Distinct(s)[j])
  {
    if |s| > 0 {
      var init := s[..|s|-1];
      var y := s[|s|-1];
      assert s == init + [y];
      DistinctFirstOccurrenceOrder(init);
      var r' := Distinct(init);
      var r := Distinct(s);
      forall x | x in init
        ensures FirstIndex(s, x) == FirstIndex(init, x)
      {
        FirstIndexOfPrefix(init, y, x);
      }
      forall i, j | 0 <= i < j < |r|
        ensures FirstIndex(s, r[i]) < FirstIndex(s, r[j])
      {
        if y !in r' && j == |r| - 1 {
          assert r[i] == r'[i] && r[i] in init;
          assert FirstIndex(s, r[i]) < |init|;
          assert y !in init;
          assert FirstIndex(s, y) == |init|;
        } else {
          assert r[i] == r'[i] && r[j] == r'[j];
        }
      }
    }
  }
}
