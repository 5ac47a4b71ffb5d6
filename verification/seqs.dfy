/** Sequence helpers standing in for `Array.prototype.filter` and `indexOf`/`find`. */
module Seqs {
  import opened Wrappers

  /** `xs.filter(keep)`: the elements satisfying `keep`, in their original order. */
  function Filter<T(!new)>(xs: seq<T>, keep: T -> bool): (r: seq<T>)
    ensures |r| <= |xs|
    ensures forall x :: x in r <==> x in xs && keep(x)
  {
    if |xs| == 0 then []
    else if keep(xs[0]) then [xs[0]] + Filter(xs[1..], keep)
    else Filter(xs[1..], keep)
  }

  lemma {:induction false} FilterAppend<T(!new)>(a: seq<T>, b: seq<T>, keep: T -> bool)
    ensures Filter(a + b, keep) == Filter(a, keep) + Filter(b, keep)
  {
    if |a| == 0 {
      assert a + b == b;
    } else {
      assert (a + b)[1..] == a[1..] + b;
      FilterAppend(a[1..], b, keep);
    }
  }

  lemma {:induction false} FilterKeepsAll<T(!new)>(xs: seq<T>, keep: T -> bool)
    requires forall i :: 0 <= i < |xs| ==> keep(xs[i])
    ensures Filter(xs, keep) == xs
  {
    if |xs| > 0 {
      FilterKeepsAll(xs[1..], keep);
    }
  }

  lemma {:induction false} FilterNone<T(!new)>(xs: seq<T>, keep: T -> bool)
    requires forall i :: 0 <= i < |xs| ==> !keep(xs[i])
    ensures Filter(xs, keep) == []
  {
    if |xs| > 0 {
      FilterNone(xs[1..], keep);
    }
  }

  /** A filter that drops only the element at position `j` removes exactly it. */
  lemma {:induction false} FilterDropsOne<T(!new)>(xs: seq<T>, j: nat, keep: T -> bool)
    requires j < |xs| && !keep(xs[j])
    requires forall i :: 0 <= i < |xs| && i != j ==> keep(xs[i])
    ensures Filter(xs, keep) == xs[..j] + xs[j + 1..]
  {
    var tail := xs[1..];
    assert forall i :: 0 <= i < |tail| ==> tail[i] == xs[i + 1];
    if j == 0 {
      FilterKeepsAll(tail, keep);
      assert xs[..0] + xs[1..] == tail;
    } else {
      FilterDropsOne(tail, j - 1, keep);
      ConsWithout(xs, j);
    }
  }

  /** Removing position `j > 0` commutes with taking the head off. */
  lemma ConsWithout<T>(xs: seq<T>, j: nat)
    requires 0 < j < |xs|
    ensures [xs[0]] + (xs[1..][..j - 1] + xs[1..][j..]) == xs[..j] + xs[j + 1..]
  {
    assert xs[1..][..j - 1] == xs[1..j] && xs[1..][j..] == xs[j + 1..];
    assert [xs[0]] + xs[1..j] == xs[..j];
  }

  /** `xs.map(f)`. */
  function Map<A, B>(xs: seq<A>, f: A -> B): (r: seq<B>)
    ensures |r| == |xs|
    ensures forall k :: 0 <= k < |xs| ==> r[k] == f(xs[k])
  {
    seq(|xs|, k requires 0 <= k < |xs| => f(xs[k]))
  }

  /** A kept value occurs as often in the filtered sequence as in the input. */
  lemma {:induction false} FilterCounts<T(!new)>(xs: seq<T>, keep: T -> bool)
    ensures forall x :: keep(x) ==> multiset(Filter(xs, keep))[x] == multiset(xs)[x]
  {
    if |xs| > 0 {
      FilterCounts(xs[1..], keep);
      assert xs == [xs[0]] + xs[1..];
    }
  }

  /** `xs.indexOf(x)`, with `None` in place of -1: the first position holding `x`. */
  function IndexOf<T(==)>(xs: seq<T>, x: T): (r: Option<nat>)
    ensures r.None? <==> x !in xs
    ensures r.Some? ==> r.value < |xs| && xs[r.value] == x
    ensures r.Some? ==> forall k :: 0 <= k < r.value ==> xs[k] != x
  {
    if |xs| == 0 then None
    else if xs[0] == x then Some(0)
    else match IndexOf(xs[1..], x)
      case None => None
      case Some(k) => Some(k + 1)
  }

  /** Left fold: the loop `for (const x of xs) acc = f(acc, x)`. */
  function FoldLeft<A, B>(acc: A, xs: seq<B>, f: (A, B) -> A): A
    decreases |xs|
  {
    if |xs| == 0 then acc else FoldLeft(f(acc, xs[0]), xs[1..], f)
  }

  lemma {:induction false} FoldLeftAppend<A, B>(acc: A, xs: seq<B>, ys: seq<B>, f: (A, B) -> A)
    ensures FoldLeft(acc, xs + ys, f) == FoldLeft(FoldLeft(acc, xs, f), ys, f)
    decreases |xs|
  {
    if |xs| == 0 {
      assert xs + ys == ys;
    } else {
      assert (xs + ys)[0] == xs[0];
      assert (xs + ys)[1..] == xs[1..] + ys;
      FoldLeftAppend(f(acc, xs[0]), xs[1..], ys, f);
    }
  }

  /** Extending a prefix by the next element. */
  lemma TakeNext<T>(xs: seq<T>, k: nat)
    requires k < |xs|
    ensures xs[..k] + [xs[k]] == xs[..k + 1]
  {
  }

  /** `accs` lists the values a fold of `f` over `xs` passes through. */
  ghost predicate StepsHold<A, B>(accs: seq<A>, xs: seq<B>, f: (A, B) -> A) {
    && |accs| == |xs| + 1
    && forall k :: 0 <= k < |xs| ==> f(accs[k], xs[k]) == accs[k + 1]
  }

  /** A fold whose every step is known ends in the last known value. */
  lemma {:induction false} FoldLeftSteps<A, B>(accs: seq<A>, xs: seq<B>, f: (A, B) -> A)
    requires StepsHold(accs, xs, f)
    ensures FoldLeft(accs[0], xs, f) == accs[|xs|]
    decreases |xs|
  {
    if |xs| > 0 {
      assert forall k :: 0 <= k < |xs| - 1 ==> accs[1..][k] == accs[k + 1] && xs[1..][k] == xs[k + 1];
      FoldLeftSteps(accs[1..], xs[1..], f);
    }
  }
}
