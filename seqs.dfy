/**
 * Sequence helpers shared by the store queries and the batch loops:
 * filtering, counting, SQL `LIMIT`, and `GROUP BY ... COUNT(*)` tallies.
 */
module Seqs {
  import opened Wrappers

  /** The elements of `xs` that satisfy `p`, in their original order. */
  function Filter<T(!new)>(xs: seq<T>, p: T -> bool): (r: seq<T>)
    ensures |r| <= |xs|
    ensures forall x :: x in r <==> x in xs && p(x)
  {
    if xs == [] then []
    else if p(xs[0]) then [xs[0]] + Filter(xs[1..], p)
    else Filter(xs[1..], p)
  }

  /** How many elements of `xs` satisfy `p`. */
  function Count<T>(xs: seq<T>, p: T -> bool): nat
  {
    if xs == [] then 0 else (if p(xs[0]) then 1 else 0) + Count(xs[1..], p)
  }

  lemma {:induction false} FilterCount<T(!new)>(xs: seq<T>, p: T -> bool)
    ensures |Filter(xs, p)| == Count(xs, p)
  {
    if xs != [] {
      FilterCount(xs[1..], p);
    }
  }

  lemma {:induction false} CountAppend<T>(xs: seq<T>, ys: seq<T>, p: T -> bool)
    ensures Count(xs + ys, p) == Count(xs, p) + Count(ys, p)
  {
    if xs == [] {
      assert xs + ys == ys;
    } else {
      CountAppend(xs[1..], ys, p);
      assert (xs + ys)[1..] == xs[1..] + ys;
    }
  }

  /** Filtering a concatenation filters each part. */
  lemma {:induction false} FilterAppend<T(!new)>(xs: seq<T>, ys: seq<T>, p: T -> bool)
    ensures Filter(xs + ys, p) == Filter(xs, p) + Filter(ys, p)
  {
    if xs == [] {
      assert xs + ys == ys;
    } else {
      FilterAppend(xs[1..], ys, p);
      assert (xs + ys)[1..] == xs[1..] + ys;
    }
  }

  /**
   * SQL `LIMIT n` as the code appends it: only when `limit` is truthy, and a
   * negative `n` means no limit at all.
   */
  function Limit<T>(xs: seq<T>, limit: int): (r: seq<T>)
    ensures r <= xs
    ensures limit <= 0 ==> r == xs
    ensures limit > 0 ==> |r| == if limit < |xs| then limit else |xs|
  {
    if limit > 0 && limit < |xs| then xs[..limit] else xs
  }

  /** The number of times `k` occurs in `xs`. */
  function Occurrences<K(==)>(xs: seq<K>, k: K): nat
  {
    if xs == [] then 0 else Occurrences(xs[..|xs| - 1], k) + (if xs[|xs| - 1] == k then 1 else 0)
  }

  /** Adds one to the count of `k`, or starts a count of one for a new key. */
  function Bump<K(==)>(t: seq<(K, nat)>, k: K): (r: seq<(K, nat)>)
    ensures |r| == |t| || r == t + [(k, 1)]
  {
    if t == [] then [(k, 1)]
    else if t[0].0 == k then [(k, t[0].1 + 1)] + t[1..]
    else [t[0]] + Bump(t[1..], k)
  }

  /** `SELECT k, COUNT(*) ... GROUP BY k` over the keys `xs`, in order of first appearance. */
  function Tally<K(==)>(xs: seq<K>): seq<(K, nat)>
  {
    if xs == [] then [] else Bump(Tally(xs[..|xs| - 1]), xs[|xs| - 1])
  }

  function SumCounts<K>(t: seq<(K, nat)>): nat
  {
    if t == [] then 0 else t[0].1 + SumCounts(t[1..])
  }

  /** The count stored for `k`, or 0 when `k` has no entry. */
  function CountOf<K(==)>(t: seq<(K, nat)>, k: K): nat
  {
    if t == [] then 0 else if t[0].0 == k then t[0].1 else CountOf(t[1..], k)
  }

  predicate DistinctKeys<K(==)>(t: seq<(K, nat)>)
  {
    forall i, j :: 0 <= i < j < |t| ==> t[i].0 != t[j].0
  }

  predicate AllPositive<K>(t: seq<(K, nat)>)
  {
    forall i :: 0 <= i < |t| ==> t[i].1 > 0
  }

  lemma {:induction false} BumpFacts<K>(t: seq<(K, nat)>, k: K)
    requires DistinctKeys(t) && AllPositive(t)
    ensures DistinctKeys(Bump(t, k)) && AllPositive(Bump(t, k))
    ensures SumCounts(Bump(t, k)) == SumCounts(t) + 1
    ensures CountOf(Bump(t, k), k) == CountOf(t, k) + 1
    ensures forall j :: j != k ==> CountOf(Bump(t, k), j) == CountOf(t, j)
    ensures forall i :: 0 <= i < |Bump(t, k)| ==> Bump(t, k)[i].0 == k || exists q :: 0 <= q < |t| && t[q].0 == Bump(t, k)[i].0
  {
    if t == [] {
    } else if t[0].0 == k {
      assert Bump(t, k)[1..] == t[1..];
      forall j | j != k
        ensures CountOf(Bump(t, k), j) == CountOf(t, j)
      {
      }
    } else {
      var rest := Bump(t[1..], k);
      BumpFacts(t[1..], k);
      assert Bump(t, k) == [t[0]] + rest;
      forall i | 0 < i < |[t[0]] + rest|
        ensures ([t[0]] + rest)[i].0 != t[0].0
      {
        var m := rest[i - 1].0;
        if m != k {
          var q :| 0 <= q < |t[1..]| && t[1..][q].0 == m;
          assert t[q + 1].0 == m;
        }
      }
      forall i | 0 <= i < |Bump(t, k)|
        ensures Bump(t, k)[i].0 == k || exists q :: 0 <= q < |t| && t[q].0 == Bump(t, k)[i].0
      {
        if i > 0 && rest[i - 1].0 != k {
          var q :| 0 <= q < |t[1..]| && t[1..][q].0 == rest[i - 1].0;
          assert t[q + 1].0 == Bump(t, k)[i].0;
        }
      }
    }
  }

  /**
   * A tally lists each key once with a positive count, the count of every
   * key is its number of occurrences, and the counts add up to the number
   * of rows.
   */
  lemma {:induction false} TallyFacts<K>(xs: seq<K>)
    ensures DistinctKeys(Tally(xs)) && AllPositive(Tally(xs))
    ensures SumCounts(Tally(xs)) == |xs|
    ensures forall k :: CountOf(Tally(xs), k) == Occurrences(xs, k)
  {
    if xs != [] {
      TallyFacts(xs[..|xs| - 1]);
      BumpFacts(Tally(xs[..|xs| - 1]), xs[|xs| - 1]);
    }
  }

  /** The values `f` keeps, in order: a loop that appends only when `f` gives something. */
  function FilterMap<T, U>(xs: seq<T>, f: T -> Option<U>): (r: seq<U>)
    ensures |r| <= |xs|
    decreases |xs|
  {
    if xs == [] then []
    else
      var front := FilterMap(xs[..|xs| - 1], f);
      match f(xs[|xs| - 1])
      case Some(y) => front + [y]
      case None => front
  }

  /** Every kept value comes from some element, and every element `f` keeps is kept. */
  lemma {:induction false} FilterMapMembers<T, U>(xs: seq<T>, f: T -> Option<U>)
    ensures forall y :: y in FilterMap(xs, f) <==> exists i :: 0 <= i < |xs| && f(xs[i]) == Some(y)
    decreases |xs|
  {
    if xs != [] {
      var init := xs[..|xs| - 1];
      FilterMapMembers(init, f);
      assert forall i :: 0 <= i < |init| ==> init[i] == xs[i];
      forall y | exists i :: 0 <= i < |xs| && f(xs[i]) == Some(y)
        ensures y in FilterMap(xs, f)
      {
        var i :| 0 <= i < |xs| && f(xs[i]) == Some(y);
        if i < |init| {
          assert f(init[i]) == Some(y);
        }
      }
    }
  }

  /**
   * A loop that extends its output with `f(x)` for each `x` in turn and
   * stops at the first exception: the concatenation of the results, or
   * the first error.
   */
  function Concat<T, U>(xs: seq<T>, f: T -> Result<seq<U>>): Result<seq<U>>
    decreases |xs|
  {
    if xs == [] then Ok([])
    else
      match Concat(xs[..|xs| - 1], f)
      case Raised(e) => Raised(e)
      case Ok(front) =>
        match f(xs[|xs| - 1])
        case Raised(e) => Raised(e)
        case Ok(more) => Ok(front + more)
  }

  /** One more element extends an accumulated result. */
  lemma ConcatStep<T, U>(xs: seq<T>, i: nat, f: T -> Result<seq<U>>)
    requires i < |xs|
    ensures Concat(xs[..i + 1], f) ==
      match Concat(xs[..i], f)
      case Raised(e) => Raised(e)
      case Ok(front) =>
        match f(xs[i])
        case Raised(e) => Raised(e)
        case Ok(more) => Ok(front + more)
  {
    assert xs[..i + 1][..i] == xs[..i];
  }

  /** Once a prefix has raised, the whole loop raises the same error. */
  lemma {:induction false} ConcatRaisedPrefix<T, U>(xs: seq<T>, i: nat, f: T -> Result<seq<U>>)
    requires i <= |xs| && Concat(xs[..i], f).Raised?
    ensures Concat(xs, f) == Concat(xs[..i], f)
    decreases |xs| - i
  {
    if i < |xs| {
      ConcatStep(xs, i, f);
      ConcatRaisedPrefix(xs, i + 1, f);
    } else {
      assert xs[..i] == xs;
    }
  }

  /** When no element raises, the output holds at most `bound` values per element. */
  lemma {:induction false} ConcatBound<T, U>(xs: seq<T>, f: T -> Result<seq<U>>, bound: nat)
    requires forall x :: x in xs && f(x).Ok? ==> |f(x).value| <= bound
    ensures Concat(xs, f).Ok? ==> |Concat(xs, f).value| <= bound * |xs|
    decreases |xs|
  {
    if xs != [] {
      var init := xs[..|xs| - 1];
      assert forall x :: x in init ==> x in xs;
      ConcatBound(init, f, bound);
      assert xs[|xs| - 1] in xs;
    }
  }

  /** Every output value comes from the result of some element. */
  lemma {:induction false} ConcatMembers<T, U>(xs: seq<T>, f: T -> Result<seq<U>>)
    ensures Concat(xs, f).Ok? ==>
      forall y :: y in Concat(xs, f).value ==> exists x :: x in xs && f(x).Ok? && y in f(x).value
    decreases |xs|
  {
    if xs != [] {
      var init := xs[..|xs| - 1];
      assert forall x :: x in init ==> x in xs;
      ConcatMembers(init, f);
      assert xs[|xs| - 1] in xs;
    }
  }

  /** A property every element's output has, the whole output has. */
  lemma ConcatAll<T, U>(xs: seq<T>, f: T -> Result<seq<U>>, P: U -> bool)
    requires forall x :: x in xs && f(x).Ok? ==> forall y :: y in f(x).value ==> P(y)
    ensures Concat(xs, f).Ok? ==> forall y :: y in Concat(xs, f).value ==> P(y)
  {
    ConcatMembers(xs, f);
  }

  /**
   * `[f(x) for x in xs]` where `f` may raise: every result in order, or the
   * error of the first element that raises.
   */
  function MapAll<T, U>(xs: seq<T>, f: T -> Result<U>): (r: Result<seq<U>>)
    ensures r.Ok? <==> forall i :: 0 <= i < |xs| ==> f(xs[i]).Ok?
    ensures r.Ok? ==> |r.value| == |xs| && forall i :: 0 <= i < |xs| ==> f(xs[i]) == Ok(r.value[i])
    ensures r.Raised? ==>
      exists k :: 0 <= k < |xs| && f(xs[k]) == Raised(r.error) && forall j :: 0 <= j < k ==> f(xs[j]).Ok?
    decreases |xs|
  {
    if xs == [] then Ok([])
    else
      match f(xs[0])
      case Raised(e) => Raised(e)
      case Ok(y) =>
        var rest := MapAll(xs[1..], f);
        assert forall i :: 0 < i < |xs| ==> xs[1..][i - 1] == xs[i];
        match rest
        case Raised(e) =>
          assert exists k :: 0 <= k < |xs| - 1 && f(xs[1..][k]) == Raised(e) && forall j :: 0 <= j < k ==> f(xs[1..][j]).Ok?;
          var k :| 0 <= k < |xs| - 1 && f(xs[1..][k]) == Raised(e) && forall j :: 0 <= j < k ==> f(xs[1..][j]).Ok?;
          assert f(xs[k + 1]) == Raised(e) && forall j :: 0 <= j < k + 1 ==> f(xs[j]).Ok?;
          Raised(e)
        case Ok(ys) => Ok([y] + ys)
  }

  /** The error of `MapAll` is that of the first element that raises. */
  lemma MapAllFirstError<T, U>(xs: seq<T>, f: T -> Result<U>, i: nat)
    requires i < |xs| && f(xs[i]).Raised? && forall j :: 0 <= j < i ==> f(xs[j]).Ok?
    ensures MapAll(xs, f) == Raised(f(xs[i]).error)
  {
    var r := MapAll(xs, f);
    var k :| 0 <= k < |xs| && f(xs[k]) == Raised(r.error) && forall j :: 0 <= j < k ==> f(xs[j]).Ok?;
    assert k == i;
  }

  /** When every element succeeds, `MapAll` gives their results. */
  lemma MapAllResults<T, U>(xs: seq<T>, f: T -> Result<U>, ys: seq<U>)
    requires |ys| == |xs| && forall j :: 0 <= j < |xs| ==> f(xs[j]) == Ok(ys[j])
    ensures MapAll(xs, f) == Ok(ys)
  {
    var r := MapAll(xs, f);
    assert r.Ok?;
    assert r.value == ys;
  }

  /** The loop form of `MapAll`: results appended one by one, the first exception returned at once. */
  method MapEach<T, U>(xs: seq<T>, f: T -> Result<U>) returns (r: Result<seq<U>>)
    ensures r == MapAll(xs, f)
  {
    var ys: seq<U> := [];
    var i := 0;
    while i < |xs|
      invariant 0 <= i <= |xs| && |ys| == i
      invariant forall j :: 0 <= j < i ==> f(xs[j]) == Ok(ys[j])
    {
      var y := f(xs[i]);
      if y.Raised? {
        MapAllFirstError(xs, f, i);
        return Raised(y.error);
      }
      ys := ys + [y.value];
      i := i + 1;
    }
    MapAllResults(xs, f, ys);
    return Ok(ys);
  }

  /**
   * A loop that threads a state through the elements of `xs` in order and
   * stops at the first exception: the final state, or the first error.
   */
  function Fold<T, S>(xs: seq<T>, init: S, step: (S, T) -> Result<S>): Result<S>
    decreases |xs|
  {
    if xs == [] then Ok(init)
    else
      match Fold(xs[..|xs| - 1], init, step)
      case Raised(e) => Raised(e)
      case Ok(acc) => step(acc, xs[|xs| - 1])
  }

  /** One more element takes one more step. */
  lemma FoldStep<T, S>(xs: seq<T>, i: nat, init: S, step: (S, T) -> Result<S>)
    requires i < |xs|
    ensures Fold(xs[..i + 1], init, step) ==
      match Fold(xs[..i], init, step)
      case Raised(e) => Raised(e)
      case Ok(acc) => step(acc, xs[i])
  {
    assert xs[..i + 1][..i] == xs[..i];
  }

  /** Once a prefix has raised, the whole loop raises the same error. */
  lemma {:induction false} FoldRaisedPrefix<T, S>(xs: seq<T>, i: nat, init: S, step: (S, T) -> Result<S>)
    requires i <= |xs| && Fold(xs[..i], init, step).Raised?
    ensures Fold(xs, init, step) == Fold(xs[..i], init, step)
    decreases |xs| - i
  {
    if i < |xs| {
      FoldStep(xs, i, init, step);
      FoldRaisedPrefix(xs, i + 1, init, step);
    } else {
      assert xs[..i] == xs;
    }
  }
}
