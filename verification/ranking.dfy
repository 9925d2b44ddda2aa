/** The ranking of `displayedAverages` (ecole-directe-moyenne.mjs, lines 149-151):
    `Array.prototype.sort` with the comparator `(a, b) => parseFloat(b[1]) - parseFloat(a[1])`.
    When every key is a number the comparator is consistent and the sort is
    stable, which fixes the order; the stable insertion sort below computes it.
    With a NaN key the order is left to the engine, and this insertion from the
    right is one admissible choice among several. */
module Ranking {
  import opened Numbers

  /** One entry of `displayedAverages`: a label and the rendered average. */
  datatype Row = Row(name: string, shown: string)

  /** The sort key of a row: its rendered average parsed back. */
  function Key(parse: string -> Number, r: Row): Number
  {
    parse(r.shown)
  }

  /** True when the comparator puts `a` after `b`: `Key(b) - Key(a)` is
      positive. A difference that is NaN counts as 0, as in `Array.prototype.sort`. */
  predicate Outranks(parse: string -> Number, b: Row, a: Row)
  {
    Key(parse, b).Finite? && Key(parse, a).Finite? && Key(parse, b).val > Key(parse, a).val
  }

  /** The comparator is a strict weak order on rows whose keys are numbers:
      no row outranks itself, outranking is one-way and transitive, and two
      rows neither of which outranks the other share their key. */
  lemma OutranksIsStrictWeakOrder(parse: string -> Number, a: Row, b: Row, c: Row)
    ensures !Outranks(parse, a, a)
    ensures Outranks(parse, a, b) ==> !Outranks(parse, b, a)
    ensures Outranks(parse, a, b) && Outranks(parse, b, c) ==> Outranks(parse, a, c)
    ensures Key(parse, a).Finite? && Key(parse, b).Finite? && !Outranks(parse, a, b) && !Outranks(parse, b, a)
      ==> Key(parse, a) == Key(parse, b)
  {
  }

  predicate AllKeysFinite(parse: string -> Number, s: seq<Row>)
  {
    forall i :: 0 <= i < |s| ==> Key(parse, s[i]).Finite?
  }

  /** No row is outranked by a row placed after it. */
  predicate NonIncreasing(parse: string -> Number, s: seq<Row>)
  {
    forall i, j :: 0 <= i < j < |s| ==> !Outranks(parse, s[j], s[i])
  }

  /** Inserts `x` into a ranked prefix, scanning from its end and stopping at the
      first row that `x` does not outrank, so that equal keys keep their order. */
  function Insert(parse: string -> Number, sorted: seq<Row>, x: Row): (r: seq<Row>)
    ensures multiset(r) == multiset(sorted) + multiset{x}
  {
    if |sorted| == 0 then [x]
    else
      var last := sorted[|sorted|-1];
      assert sorted == sorted[..|sorted|-1] + [last];
      if Outranks(parse, x, last) then Insert(parse, sorted[..|sorted|-1], x) + [last]
      else sorted + [x]
  }

  /** The ranked rows. */
  function Rank(parse: string -> Number, rows: seq<Row>): (r: seq<Row>)
    ensures multiset(r) == multiset(rows)
  {
    if |rows| == 0 then []
    else
      assert rows == rows[..|rows|-1] + [rows[|rows|-1]];
      Insert(parse, Rank(parse, rows[..|rows|-1]), rows[|rows|-1])
  }

  lemma {:induction false} InsertKeepsOrder(parse: string -> Number, sorted: seq<Row>, x: Row)
    requires AllKeysFinite(parse, sorted) && Key(parse, x).Finite?
    requires NonIncreasing(parse, sorted)
    ensures NonIncreasing(parse, Insert(parse, sorted, x))
  {
    if |sorted| > 0 {
      var init := sorted[..|sorted|-1];
      var last := sorted[|sorted|-1];
      var r := Insert(parse, sorted, x);
      if Outranks(parse, x, last) {
        InsertKeepsOrder(parse, init, x);
        var r' := Insert(parse, init, x);
        forall i | 0 <= i < |r'|
          ensures !Outranks(parse, last, r'[i])
        {
          assert r'[i] in multiset(init) + multiset{x};
          if r'[i] != x {
            var k :| 0 <= k < |init| && init[k] == r'[i];
            assert sorted[k] == r'[i];
          }
        }
        assert forall i :: 0 <= i < |r'| ==> r[i] == r'[i];
      } else {
        forall i | 0 <= i < |sorted|
          ensures !Outranks(parse, x, sorted[i])
        {
          if i < |sorted| - 1 {
            assert !Outranks(parse, sorted[|sorted|-1], sorted[i]);
          }
        }
      }
    }
  }

  /** With every key a number, the ranking is non-increasing. */
  lemma {:induction false} RankIsOrdered(parse: string -> Number, rows: seq<Row>)
    requires AllKeysFinite(parse, rows)
    ensures NonIncreasing(parse, Rank(parse, rows))
  {
    if |rows| > 0 {
      var init := rows[..|rows|-1];
      RankIsOrdered(parse, init);
      var r' := Rank(parse, init);
      forall i | 0 <= i < |r'|
        ensures Key(parse, r'[i]).Finite?
      {
        assert r'[i] in multiset(init);
      }
      InsertKeepsOrder(parse, r', rows[|rows|-1]);
    }
  }

  /** The rows whose key is `k`, in order. */
  function WithKey(parse: string -> Number, s: seq<Row>, k: Number): seq<Row>
  {
    if |s| == 0 then []
    else WithKey(parse, s[..|s|-1], k) + (if Key(parse, s[|s|-1]) == k then [s[|s|-1]] else [])
  }

  lemma WithKeyLast(parse: string -> Number, s: seq<Row>, x: Row, k: Number)
    ensures WithKey(parse, s + [x], k) == WithKey(parse, s, k) + (if Key(parse, x) == k then [x] else [])
  {
    assert (s + [x])[..|s|] == s;
  }

  /** The step of `InsertIsStable` where `x` moves past the last row. */
  lemma InsertPastLastIsStable(parse: string -> Number, init: seq<Row>, last: Row, x: Row, k: Number)
    requires Outranks(parse, x, last)
    requires WithKey(parse, Insert(parse, init, x), k)
      == WithKey(parse, init, k) + (if Key(parse, x) == k then [x] else [])
    ensures WithKey(parse, Insert(parse, init + [last], x), k)
      == WithKey(parse, init + [last], k) + (if Key(parse, x) == k then [x] else [])
  {
    var ins := Insert(parse, init, x);
    assert (init + [last])[..|init|] == init;
    assert Insert(parse, init + [last], x) == ins + [last];
    WithKeyLast(parse, init, last, k);
    WithKeyLast(parse, ins, last, k);
    var w := WithKey(parse, init, k);
    if Key(parse, x) == k {
      assert Key(parse, last) != k;
      assert WithKey(parse, ins + [last], k) == w + [x];
      assert WithKey(parse, init + [last], k) == w;
    } else if Key(parse, last) == k {
      assert WithKey(parse, ins + [last], k) == w + [last];
      assert WithKey(parse, init + [last], k) == w + [last];
    } else {
      assert WithKey(parse, ins + [last], k) == w;
      assert WithKey(parse, init + [last], k) == w;
    }
  }

  lemma {:induction false} InsertIsStable(parse: string -> Number, sorted: seq<Row>, x: Row, k: Number)
    ensures WithKey(parse, Insert(parse, sorted, x), k)
      == WithKey(parse, sorted, k) + (if Key(parse, x) == k then [x] else [])
  {
    if |sorted| == 0 {
      WithKeyLast(parse, [], x, k);
      assert [] + [x] == [x];
    } else {
      var init := sorted[..|sorted|-1];
      var last := sorted[|sorted|-1];
      assert sorted == init + [last];
      if Outranks(parse, x, last) {
        InsertIsStable(parse, init, x, k);
        InsertPastLastIsStable(parse, init, last, x, k);
      } else {
        assert Insert(parse, sorted, x) == sorted + [x];
        WithKeyLast(parse, sorted, x, k);
      }
    }
  }

  /** This insertion sort is stable: the rows sharing any one key appear in the
      ranking in the same relative order as in the input. The program shares
      the property when every key is a number. */
  lemma {:induction false} RankIsStable(parse: string -> Number, rows: seq<Row>, k: Number)
    ensures WithKey(parse, Rank(parse, rows), k) == WithKey(parse, rows, k)
  {
    if |rows| > 0 {
      RankIsStable(parse, rows[..|rows|-1], k);
      InsertIsStable(parse, Rank(parse, rows[..|rows|-1]), rows[|rows|-1], k);
    }
  }
}
