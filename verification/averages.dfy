/** The per-subject weighted average and the overall mean
    (ecole-directe-moyenne.mjs, lines 116-146 and 153-154). */
module Averages {
  import opened Numbers
  import opened Grades

  /** `note.value * note.coef`, one term of `sumOfNotes`. */
  function Weighted(e: Entry): Number
  {
    Mul(e.value, e.coef)
  }

  /** `note.coef`, one term of `sumOfCoefs`. */
  function CoefOf(e: Entry): Number
  {
    e.coef
  }

  function Identity(n: Number): Number
  {
    n
  }

  predicate AllFinite(es: seq<Entry>)
  {
    forall i :: 0 <= i < |es| ==> es[i].value.Finite? && es[i].coef.Finite?
  }

  /** `sumOfNotes / sumOfCoefs * over`. It is defined exactly when `over` and
      every entry are, and the coefficients do not sum to zero; in particular a
      subject without numeric entries has an undefined average (0 / 0). */
  function SubjectAverage(es: seq<Entry>, over: Number): (avg: Number)
    ensures avg.Finite? <==> over.Finite? && AllFinite(es) && RealSum(es, CoefOf) != 0.0
    ensures avg.Finite? ==> avg.val == RealSum(es, Weighted) / RealSum(es, CoefOf) * over.val
    ensures |es| == 0 ==> avg == Undefined
  {
    SumOfFinite(es, Weighted);
    SumOfFinite(es, CoefOf);
    Mul(Div(SumOf(es, Weighted), SumOf(es, CoefOf)), over)
  }

  /** The order of a subject's entries does not matter. */
  lemma SubjectAverageOrderIndependent(es: seq<Entry>, es': seq<Entry>, over: Number)
    requires multiset(es) == multiset(es')
    ensures SubjectAverage(es, over) == SubjectAverage(es', over)
  {
    SumOfPermutation(es, es', Weighted);
    SumOfPermutation(es, es', CoefOf);
  }

  lemma MulLeft(a: real, b: real, c: real)
    requires a <= b && c >= 0.0
    ensures a * c <= b * c
  {
    assert b * c - a * c == (b - a) * c;
  }

  lemma QuotientBounds(w: real, c: real, lo: real, hi: real)
    requires c > 0.0 && lo * c <= w <= hi * c
    ensures lo <= w / c <= hi
  {
    assert w / c * c == w;
    if w / c < lo {
      MulLeft(w / c, lo, c);
    }
    if w / c > hi {
      MulLeft(hi, w / c, c);
    }
  }

  /** With every grade between 0 and its maximum and positive coefficients,
      the weighted sum lies between 0 and the coefficient sum. */
  lemma {:induction false} WeightedSumWithinCoefSum(es: seq<Entry>)
    requires AllFinite(es)
    requires forall i :: 0 <= i < |es| ==> es[i].coef.val > 0.0 && 0.0 <= es[i].value.val <= 1.0
    ensures 0.0 <= RealSum(es, Weighted) <= RealSum(es, CoefOf)
  {
    if |es| > 0 {
      var init := es[..|es|-1];
      var e := es[|es|-1];
      assert forall i :: 0 <= i < |init| ==> init[i] == es[i];
      WeightedSumWithinCoefSum(init);
      MulLeft(0.0, e.value.val, e.coef.val);
      MulLeft(e.value.val, 1.0, e.coef.val);
    }
  }

  lemma {:induction false} CoefSumPositive(es: seq<Entry>)
    requires AllFinite(es)
    requires forall i :: 0 <= i < |es| ==> es[i].coef.val > 0.0
    ensures |es| > 0 ==> RealSum(es, CoefOf) > 0.0
    ensures RealSum(es, CoefOf) >= 0.0
  {
    if |es| > 0 {
      CoefSumPositive(es[..|es|-1]);
    }
  }

  /** When every grade lies between 0 and its maximum and the coefficients are
      positive, the subject average lies between 0 and `over`. */
  lemma SubjectAverageWithinScale(es: seq<Entry>, over: Number)
    requires |es| > 0 && AllFinite(es)
    requires forall i :: 0 <= i < |es| ==> es[i].coef.val > 0.0 && 0.0 <= es[i].value.val <= 1.0
    requires over.Finite? && over.val >= 0.0
    ensures SubjectAverage(es, over).Finite?
    ensures 0.0 <= SubjectAverage(es, over).val <= over.val
  {
    CoefSumPositive(es);
    WeightedSumWithinCoefSum(es);
    var c := RealSum(es, CoefOf);
    var w := RealSum(es, Weighted);
    QuotientBounds(w, c, 0.0, 1.0);
    MulLeft(0.0, w / c, over.val);
    MulLeft(w / c, 1.0, over.val);
  }

  /** `overallAverage / i`: the plain mean of the subject averages, every subject
      counting once. Undefined when there is no subject or any subject average is. */
  function OverallAverage(avgs: seq<Number>): (m: Number)
    ensures m.Finite? <==> |avgs| > 0 && forall i :: 0 <= i < |avgs| ==> avgs[i].Finite?
    ensures m.Finite? ==> m.val * (|avgs| as real) == RealSum(avgs, Identity)
  {
    SumOfFinite(avgs, Identity);
    Div(SumOf(avgs, Identity), Finite(|avgs| as real))
  }

  lemma {:induction false} RealSumBounds(avgs: seq<Number>, lo: real, hi: real)
    requires forall i :: 0 <= i < |avgs| ==> avgs[i].Finite? && lo <= avgs[i].val <= hi
    ensures lo * (|avgs| as real) <= RealSum(avgs, Identity) <= hi * (|avgs| as real)
  {
    if |avgs| > 0 {
      RealSumBounds(avgs[..|avgs|-1], lo, hi);
    }
  }

  /** The overall average lies between the lowest and the highest subject average. */
  lemma OverallAverageBounds(avgs: seq<Number>, lo: real, hi: real)
    requires |avgs| > 0
    requires forall i :: 0 <= i < |avgs| ==> avgs[i].Finite? && lo <= avgs[i].val <= hi
    ensures OverallAverage(avgs).Finite?
    ensures lo <= OverallAverage(avgs).val <= hi
  {
    RealSumBounds(avgs, lo, hi);
    var n := |avgs| as real;
    var m := OverallAverage(avgs).val;
    assert m * n == RealSum(avgs, Identity);
    assert m == RealSum(avgs, Identity) / n;
    QuotientBounds(RealSum(avgs, Identity), n, lo, hi);
  }

  /** The order of the subjects does not matter to the overall average. */
  lemma OverallAverageOrderIndependent(avgs: seq<Number>, avgs': seq<Number>)
    requires multiset(avgs) == multiset(avgs')
    ensures OverallAverage(avgs) == OverallAverage(avgs')
  {
    SumOfPermutation(avgs, avgs', Identity);
    assert |avgs| == |multiset(avgs)| == |avgs'|;
  }
}
