/** "Last write wins": the behaviour of assigning into a Go map, or into a
    plain variable, once per input item while scanning the items in order.
    The scans are the left-to-right folds below; LastFor and LastSome read
    the same outcome from the right end, and the lemmas show the two agree. */
module Assoc {
  import opened Results

  /** One map assignment; None leaves the map as it is. */
  function Put<K(==), V>(m: map<K, V>, e: Option<(K, V)>): map<K, V> {
    match e
    case Some(kv) => m[kv.0 := kv.1]
    case None => m
  }

  /** The assignments applied left to right. */
  function PutAll<K(==), V>(m: map<K, V>, es: seq<Option<(K, V)>>): map<K, V>
    decreases |es|
  {
    if es == [] then m else PutAll(Put(m, es[0]), es[1..])
  }

  /** The value of the last assignment to k, if there is one. */
  function LastFor<K(==), V>(es: seq<Option<(K, V)>>, k: K): Option<V>
    decreases |es|
  {
    if es == [] then None
    else
      var e := es[|es| - 1];
      if e.Some? && e.value.0 == k then Some(e.value.1) else LastFor(es[..|es| - 1], k)
  }

  lemma {:induction false} PutAllSnoc<K, V>(m: map<K, V>, es: seq<Option<(K, V)>>, e: Option<(K, V)>)
    ensures PutAll(m, es + [e]) == Put(PutAll(m, es), e)
    decreases |es|
  {
    if es == [] {
      assert es + [e] == [e];
    } else {
      assert (es + [e])[1..] == es[1..] + [e];
      PutAllSnoc(Put(m, es[0]), es[1..], e);
    }
  }

  /** After the scan, k holds the value of its last assignment; a key never
      assigned keeps whatever the map held before (or stays absent). */
  lemma {:induction false} PutAllLastWins<K, V>(m: map<K, V>, es: seq<Option<(K, V)>>, k: K)
    ensures LastFor(es, k).Some? ==> k in PutAll(m, es) && PutAll(m, es)[k] == LastFor(es, k).value
    ensures LastFor(es, k).None? ==> (k in PutAll(m, es) <==> k in m)
    ensures LastFor(es, k).None? && k in m ==> PutAll(m, es)[k] == m[k]
    decreases |es|
  {
    if es != [] {
      var front := es[..|es| - 1];
      var e := es[|es| - 1];
      assert es == front + [e];
      PutAllSnoc(m, front, e);
      PutAllLastWins(m, front, k);
    }
  }

  /** The last Some in xs, if any. */
  function LastSome<T>(xs: seq<Option<T>>): Option<T>
    decreases |xs|
  {
    if xs == [] then None
    else if xs[|xs| - 1].Some? then xs[|xs| - 1]
    else LastSome(xs[..|xs| - 1])
  }

  /** A variable overwritten by every Some while scanning xs from the left. */
  function Latest<T>(current: T, xs: seq<Option<T>>): T
    decreases |xs|
  {
    if xs == [] then current else Latest(xs[0].GetOr(current), xs[1..])
  }

  lemma {:induction false} LatestSnoc<T>(current: T, xs: seq<Option<T>>, x: Option<T>)
    ensures Latest(current, xs + [x]) == x.GetOr(Latest(current, xs))
    decreases |xs|
  {
    if xs == [] {
      assert xs + [x] == [x];
    } else {
      assert (xs + [x])[1..] == xs[1..] + [x];
      LatestSnoc(xs[0].GetOr(current), xs[1..], x);
    }
  }

  /** The variable ends up holding the last Some, or its initial value when
      there is none. */
  lemma {:induction false} LatestIsLastSome<T>(current: T, xs: seq<Option<T>>)
    ensures Latest(current, xs) == LastSome(xs).GetOr(current)
    decreases |xs|
  {
    if xs != [] {
      var front := xs[..|xs| - 1];
      assert xs == front + [xs[|xs| - 1]];
      LatestSnoc(current, front, xs[|xs| - 1]);
      LatestIsLastSome(current, front);
    }
  }

  /** Every item as an assignment. */
  function Somes<T>(xs: seq<T>): (r: seq<Option<T>>)
    ensures |r| == |xs|
    decreases |xs|
  {
    if xs == [] then [] else [Some(xs[0])] + Somes(xs[1..])
  }

  lemma {:induction false} SomesSnoc<T>(xs: seq<T>, x: T)
    ensures Somes(xs + [x]) == Somes(xs) + [Some(x)]
    decreases |xs|
  {
    if xs == [] {
      assert xs + [x] == [x];
    } else {
      assert (xs + [x])[0] == xs[0] && (xs + [x])[1..] == xs[1..] + [x];
      SomesSnoc(xs[1..], x);
    }
  }
}
