/** Following the tail list of metadata pairs on a disk that may hold anything: Brent's
    cycle detection as the traversal, the searches for a predecessor or parent, and the
    mount scan run it. */
module TailWalk {

  type Pair = (nat, nat)

  const NULL := 0xffff_ffff

  predicate IsNull(p: Pair) { p.0 == NULL || p.1 == NULL }

  /** The same two blocks, in either order. */
  predicate InSync(p: Pair, q: Pair) {
    (p.0 == q.0 && p.1 == q.1) || (p.0 == q.1 && p.1 == q.0)
  }

  /** Reading a pair yields the tail it names, or fails. */
  datatype Fetched = Tail(pair: Pair) | Failed

  datatype Outcome = End | Cycle | FetchError

  // ---- Chains of tails ----

  ghost predicate IsChain(fetch: Pair -> Fetched, xs: seq<Pair>) {
    && (forall i :: 0 <= i < |xs| ==> !IsNull(xs[i]))
    && forall i :: 0 <= i < |xs| - 1 ==> fetch(xs[i]) == Tail(xs[i + 1])
  }

  ghost predicate Closed(fetch: Pair -> Fetched, pairs: set<Pair>) {
    forall p :: p in pairs && fetch(p).Tail? && !IsNull(fetch(p).pair) ==> fetch(p).pair in pairs
  }

  lemma {:induction false} ChainStays(fetch: Pair -> Fetched, xs: seq<Pair>, pairs: set<Pair>)
    requires IsChain(fetch, xs) && Closed(fetch, pairs) && (xs != [] ==> xs[0] in pairs)
    ensures forall p :: p in xs ==> p in pairs
  {
    if |xs| > 1 {
      var init := xs[..|xs| - 1];
      ChainStays(fetch, init, pairs);
      assert init[|init| - 1] in init;
      assert fetch(xs[|xs| - 2]) == Tail(xs[|xs| - 1]);
      assert forall p :: p in xs ==> p in init || p == xs[|xs| - 1];
    }
  }

  /** What follows a pair does not depend on when it is met. */
  lemma {:induction false} Periodic(fetch: Pair -> Fetched, xs: seq<Pair>, a: nat, b: nat, d: nat)
    requires IsChain(fetch, xs) && a <= b && b + d < |xs| && xs[a] == xs[b]
    ensures xs[a + d] == xs[b + d]
  {
    if d == 0 {
    } else {
      Periodic(fetch, xs, a, b, d - 1);
      assert fetch(xs[a + d - 1]) == Tail(xs[a + d]);
      assert fetch(xs[b + d - 1]) == Tail(xs[b + d]);
    }
  }

  ghost predicate Repeats(xs: seq<Pair>, a: nat, b: nat) { a < b < |xs| && xs[a] == xs[b] }

  lemma {:induction false} DistinctCount(xs: seq<Pair>, pairs: set<Pair>)
    requires forall p :: p in xs ==> p in pairs
    requires forall a, b :: !Repeats(xs, a, b)
    ensures |xs| <= |pairs|
  {
    if xs == [] {
    } else {
      var init, last := xs[..|xs| - 1], xs[|xs| - 1];
      forall a, b ensures !Repeats(init, a, b) { assert !Repeats(xs, a, b); }
      forall p | p in init ensures p in pairs - {last} {
        var a :| 0 <= a < |init| && init[a] == p;
        assert !Repeats(xs, a, |xs| - 1);
      }
      DistinctCount(init, pairs - {last});
    }
  }

  /** Among more pairs than there are, two are the same. */
  lemma Pigeonhole(xs: seq<Pair>, pairs: set<Pair>) returns (a: nat, b: nat)
    requires |xs| > |pairs| && forall p :: p in xs ==> p in pairs
    ensures Repeats(xs, a, b)
  {
    if forall a, b :: !Repeats(xs, a, b) { DistinctCount(xs, pairs); }
    a, b :| Repeats(xs, a, b);
  }

  /** A pair met after as many others as there are is met again within that many steps. */
  lemma MetAgain(fetch: Pair -> Fetched, xs: seq<Pair>, pairs: set<Pair>, t: nat) returns (step: nat)
    requires IsChain(fetch, xs) && xs != [] && xs[0] in pairs && Closed(fetch, pairs)
    requires |pairs| <= t && t + |pairs| < |xs|
    ensures 0 < step <= |pairs| && xs[t + step] == xs[t]
  {
    ChainStays(fetch, xs, pairs);
    var first := xs[..|pairs| + 1];
    var a, b := Pigeonhole(first, pairs);
    assert xs[a] == xs[b];
    step := b - a;
    Periodic(fetch, xs, a, b, t - a);
  }

  /** A list that ends has no pair twice. */
  lemma EndsWithoutRepeat(fetch: Pair -> Fetched, xs: seq<Pair>, a: nat, b: nat)
    requires IsChain(fetch, xs) && xs != []
    requires fetch(xs[|xs| - 1]).Tail? && IsNull(fetch(xs[|xs| - 1]).pair)
    ensures !Repeats(xs, a, b)
  {
    if Repeats(xs, a, b) {
      var d := |xs| - 1 - b;
      assert fetch(xs[a + d]) == Tail(xs[a + d + 1]);
      Periodic(fetch, xs, a, b, d);
    }
  }

  // ---- The walk ----

  /** The tortoise waits at position t for t+2 steps, after it has been caught up with there. */
  ghost predicate Tracks(xs: seq<Pair>, tortoise: Pair, i: nat, period: nat, t: nat, n: nat) {
    && t < |xs| && tortoise == xs[t]
    && i == |xs| - t && period == t + 2 && i <= period && t <= 2 * n
    && forall m :: t < m < |xs| ==> !InSync(xs[m], tortoise)
  }

  /** As long as the tortoise is not met, the number of fetches is bounded. */
  lemma StillBounded(fetch: Pair -> Fetched, xs: seq<Pair>, tortoise: Pair, i: nat, period: nat,
                     t: nat, pairs: set<Pair>)
    requires xs != [] && IsChain(fetch, xs) && xs[0] in pairs && Closed(fetch, pairs)
    requires Tracks(xs, tortoise, i, period, t, |pairs|)
    ensures t >= |pairs| ==> i <= |pairs|
    ensures |xs| <= 3 * |pairs|
  {
    if t >= |pairs| && i > |pairs| {
      var step := MetAgain(fetch, xs, pairs, t);
      assert InSync(xs[t + step], xs[t]);
    }
  }

  /** The pairs of the list in order, up to where and why the walk stopped. */
  ghost predicate Walked(fetch: Pair -> Fetched, start: Pair, r: Outcome, visited: seq<Pair>, tail: Pair) {
    && IsChain(fetch, visited)
    && (visited == [] <==> IsNull(start))
    && (visited != [] ==> visited[0] == start)
    && (visited == [] ==> r == End)
    && (visited != [] && r != FetchError ==> fetch(visited[|visited| - 1]) == Tail(tail))
    && (r == End && visited != [] ==> IsNull(tail))
    && (r == Cycle ==> !IsNull(tail) && exists i :: 0 <= i < |visited| && InSync(tail, visited[i]))
    && (r == FetchError ==> fetch(visited[|visited| - 1]) == Failed)
  }

  /** The whole of a list that ends and names no pair of blocks twice. */
  ghost predicate IsAcyclicList(fetch: Pair -> Fetched, start: Pair, list: seq<Pair>) {
    && IsChain(fetch, list)
    && (if list == [] then IsNull(start)
        else list[0] == start && fetch(list[|list| - 1]).Tail? && IsNull(fetch(list[|list| - 1]).pair))
    && forall i, j :: 0 <= i < j < |list| ==> !InSync(list[i], list[j])
  }

  lemma {:induction false} SameFromStart(fetch: Pair -> Fetched, list: seq<Pair>, visited: seq<Pair>, k: nat)
    requires IsChain(fetch, list) && IsChain(fetch, visited)
    requires list != [] && visited != [] && list[0] == visited[0]
    requires fetch(list[|list| - 1]).Tail? && IsNull(fetch(list[|list| - 1]).pair)
    requires k < |visited|
    ensures k < |list| && visited[k] == list[k]
  {
    if k == 0 {
    } else {
      SameFromStart(fetch, list, visited, k - 1);
      assert fetch(visited[k - 1]) == Tail(visited[k]);
      if k < |list| { assert fetch(list[k - 1]) == Tail(list[k]); }
    }
  }

  /** A walk over such a list reports no corruption and visits each pair once, in order. */
  lemma AcyclicListIsVisitedOnce(fetch: Pair -> Fetched, start: Pair, list: seq<Pair>,
                                 r: Outcome, visited: seq<Pair>, tail: Pair)
    requires IsAcyclicList(fetch, start, list) && Walked(fetch, start, r, visited, tail)
    ensures r == End && visited == list
  {
    if visited != [] {
      forall k: nat | k < |visited| ensures k < |list| && visited[k] == list[k] {
        SameFromStart(fetch, list, visited, k);
      }
      var n := |visited|;
      assert visited[n - 1] == list[n - 1];
      if n < |list| {
        assert fetch(list[n - 1]) == Tail(list[n]);
        if r == Cycle {
          var i :| 0 <= i < n && InSync(tail, visited[i]);
          assert InSync(list[i], list[n]);
        }
      }
    }
  }

  /** Visits the pairs of the list in order. It stops at the end of the list, at a pair that
      cannot be read, or when a pair comes up that was visited before; on a disk with
      n pairs it reads at most 3n of them, whatever the disk holds. */
  method Walk(fetch: Pair -> Fetched, start: Pair, ghost pairs: set<Pair>)
    returns (r: Outcome, visited: seq<Pair>, tail: Pair)
    requires Closed(fetch, pairs) && (!IsNull(start) ==> start in pairs)
    ensures Walked(fetch, start, r, visited, tail) && |visited| <= 3 * |pairs|
    ensures r == End ==> forall a, b :: !Repeats(visited, a, b)
  {
    visited, tail := [], start;
    var tortoise: Pair := (NULL, NULL);
    var i: nat, period: nat := 1, 1;
    ghost var t: nat := 0;
    while !IsNull(tail)
      invariant IsChain(fetch, visited) && |visited| <= 3 * |pairs|
      invariant if visited == [] then tail == start && i == 1 && period == 1 && tortoise == (NULL, NULL)
                else visited[0] == start && fetch(visited[|visited| - 1]) == Tail(tail)
      invariant visited != [] ==> Tracks(visited, tortoise, i, period, t, |pairs|)
      decreases 3 * |pairs| - |visited|
    {
      // the pair that the tortoise waits at comes up again
      if InSync(tail, tortoise) {
        r := Cycle;
        return;
      }
      if visited != [] { StillBounded(fetch, visited, tortoise, i, period, t, pairs); }
      if i == period {
        tortoise := tail;
        i := 0;
        period := period * 2;
        t := |visited|;
      }
      i := i + 1;
      var f := fetch(tail);
      visited := visited + [tail];
      assert start in pairs;
      StillBounded(fetch, visited, tortoise, i, period, t, pairs);
      if f == Failed {
        r := FetchError;
        return;
      }
      tail := f.pair;
    }
    r := End;
    if visited != [] {
      forall a, b ensures !Repeats(visited, a, b) { EndsWithoutRepeat(fetch, visited, a, b); }
    }
  }
}
