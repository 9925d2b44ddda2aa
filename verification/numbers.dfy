/** The numbers the averaging script computes with.

    The script works on JavaScript numbers. This model keeps their finite
    values as mathematical reals and folds every non-finite value (NaN and
    the two infinities) into one absorbing value, `Undefined`. Dividing by
    zero yields `Undefined`, exactly as `x / 0` yields NaN or an infinity in
    the script.
 */
module Numbers {

  datatype Number = Finite(val: real) | Undefined

  function Add(a: Number, b: Number): Number
  {
    if a.Finite? && b.Finite? then Finite(a.val + b.val) else Undefined
  }

  function Mul(a: Number, b: Number): Number
  {
    if a.Finite? && b.Finite? then Finite(a.val * b.val) else Undefined
  }

  /** Division; a zero divisor gives `Undefined` (NaN or an infinity in the script). */
  function Div(a: Number, b: Number): (r: Number)
    ensures r.Finite? <==> a.Finite? && b.Finite? && b.val != 0.0
    ensures r.Finite? ==> r.val * b.val == a.val
  {
    if a.Finite? && b.Finite? && b.val != 0.0 then Finite(a.val / b.val) else Undefined
  }

  /** Left fold `acc += f(x)` over `s`, starting from 0, as the script's loops do. */
  function SumOf<T>(s: seq<T>, f: T -> Number): Number
  {
    if |s| == 0 then Finite(0.0) else Add(SumOf(s[..|s|-1], f), f(s[|s|-1]))
  }

  /** The real value of a number, 0 for `Undefined`. */
  function Real(n: Number): real
  {
    if n.Finite? then n.val else 0.0
  }

  /** The plain real sum of `f` over `s`: the reference for `SumOf` on finite terms. */
  function RealSum<T>(s: seq<T>, f: T -> Number): real
  {
    if |s| == 0 then 0.0 else RealSum(s[..|s|-1], f) + Real(f(s[|s|-1]))
  }

  /** The sum is defined exactly when every term is, and then it is the real sum. */
  lemma {:induction false} SumOfFinite<T>(s: seq<T>, f: T -> Number)
    ensures SumOf(s, f).Finite? <==> forall i :: 0 <= i < |s| ==> f(s[i]).Finite?
    ensures SumOf(s, f).Finite? ==> SumOf(s, f).val == RealSum(s, f)
  {
    if |s| > 0 {
      var init := s[..|s|-1];
      SumOfFinite(init, f);
      assert forall i :: 0 <= i < |init| ==> init[i] == s[i];
    }
  }

  lemma {:induction false} SumOfAppend<T>(a: seq<T>, b: seq<T>, f: T -> Number)
    ensures SumOf(a + b, f) == Add(SumOf(a, f), SumOf(b, f))
    decreases |b|
  {
    if |b| == 0 {
      assert a + b == a;
    } else {
      var b' := b[..|b|-1];
      assert (a + b)[..|a + b| - 1] == a + b';
      SumOfAppend(a, b', f);
    }
  }

  lemma AddRotate(a: Number, b: Number, c: Number)
    ensures Add(Add(a, c), b) == Add(Add(a, b), c)
  {
  }

  lemma AddZero(a: Number)
    ensures Add(a, Finite(0.0)) == a
  {
  }

  /** The sum of `b` is the sum of its first `i` terms plus the sum of the rest. */
  lemma {:induction false} SumOfSplit<T>(b: seq<T>, i: nat, f: T -> Number)
    requires i <= |b|
    ensures SumOf(b, f) == Add(SumOf(b[..i], f), SumOf(b[i..], f))
    decreases |b|
  {
    if i == |b| {
      assert b[..i] == b;
      assert |b[i..]| == 0;
      AddZero(SumOf(b, f));
    } else {
      var b' := b[..|b|-1];
      var last := b[|b|-1];
      SumOfSplit(b', i, f);
      assert b'[..i] == b[..i];
      var tail := b[i..];
      assert tail[..|tail|-1] == b'[i..];
      assert tail[|tail|-1] == last;
      assert SumOf(tail, f) == Add(SumOf(b'[i..], f), f(last));
      assert SumOf(b, f) == Add(SumOf(b', f), f(last));
    }
  }

  /** Taking one term out of the fold and adding it last gives the same sum. */
  lemma SumOfMoveLast<T>(b: seq<T>, k: nat, f: T -> Number)
    requires k < |b|
    ensures SumOf(b, f) == Add(SumOf(b[..k] + b[k+1..], f), f(b[k]))
  {
    var pre, post := b[..k], b[k+1..];
    SumOfSplit(b, k + 1, f);
    var front := b[..k+1];
    assert front[..|front|-1] == pre;
    assert front[|front|-1] == b[k];
    assert SumOf(front, f) == Add(SumOf(pre, f), f(b[k]));
    SumOfAppend(pre, post, f);
    AddRotate(SumOf(pre, f), SumOf(post, f), f(b[k]));
  }

  lemma MultisetWithout<T>(b: seq<T>, k: nat)
    requires k < |b|
    ensures multiset(b[..k] + b[k+1..]) == multiset(b) - multiset{b[k]}
  {
    assert b == b[..k] + [b[k]] + b[k+1..];
  }

  /** Reordering the terms never changes the sum: the fold is order-independent. */
  lemma {:induction false} SumOfPermutation<T>(a: seq<T>, b: seq<T>, f: T -> Number)
    requires multiset(a) == multiset(b)
    ensures SumOf(a, f) == SumOf(b, f)
    decreases |a|
  {
    if |a| == 0 {
      assert |b| == |multiset(b)| == 0;
    } else {
      var x := a[|a|-1];
      var a' := a[..|a|-1];
      assert a == a' + [x];
      assert x in multiset(b);
      var k :| 0 <= k < |b| && b[k] == x;
      var b' := b[..k] + b[k+1..];
      MultisetWithout(b, k);
      assert multiset(a') == multiset(a) - multiset{x};
      SumOfPermutation(a', b', f);
      SumOfMoveLast(b, k, f);
    }
  }
}
