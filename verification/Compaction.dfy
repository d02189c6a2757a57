/** Stable compaction of a sequence by flags, and writing through an index list.
    `Rank` is the number a prefix scan computes and `Select` the order a stable
    filter produces; the lemmas connect the two without reference to any loop. */
module Compaction {

  /** How many of the first n flags are set. */
  function Rank(flags: seq<bool>, n: nat): (r: nat)
    requires n <= |flags|
    ensures r <= n
  {
    if n == 0 then 0 else Rank(flags, n - 1) + if flags[n - 1] then 1 else 0
  }

  /** The elements among the first n whose flag is set, in order. */
  function Select<T>(xs: seq<T>, flags: seq<bool>, n: nat): (out: seq<T>)
    requires n <= |xs| == |flags|
    ensures |out| == Rank(flags, n)
  {
    if n == 0 then []
    else Select(xs, flags, n - 1) + if flags[n - 1] then [xs[n - 1]] else []
  }

  /** base after writing vals[0] to idx[0], then vals[1] to idx[1], and so on. */
  function Scatter(base: seq<int>, idx: seq<int>, vals: seq<int>, n: nat): (out: seq<int>)
    requires n <= |idx| && n <= |vals|
    requires forall j :: 0 <= j < n ==> 0 <= idx[j] < |base|
    ensures |out| == |base|
  {
    if n == 0 then base else Scatter(base, idx, vals, n - 1)[idx[n - 1] := vals[n - 1]]
  }

  function Iota(n: nat): (s: seq<int>)
    ensures |s| == n && forall i :: 0 <= i < n ==> s[i] == i
  {
    seq(n, i => i)
  }

  ghost predicate Distinct<T(!new)>(xs: seq<T>) {
    forall i, j :: 0 <= i < j < |xs| ==> xs[i] != xs[j]
  }

  lemma Multiples(d: nat, a: nat, b: nat)
    requires a <= b
    ensures a * d <= b * d
  {
    assert (b - a) * d >= 0;
  }

  lemma RankStep(flags: seq<bool>, i: nat)
    requires i < |flags|
    ensures Rank(flags, i + 1) == Rank(flags, i) + if flags[i] then 1 else 0
  {
  }

  lemma SelectStep<T>(xs: seq<T>, flags: seq<bool>, i: nat)
    requires i < |xs| == |flags|
    ensures Select(xs, flags, i + 1) == Select(xs, flags, i) + if flags[i] then [xs[i]] else []
    ensures Rank(flags, i + 1) == Rank(flags, i) + if flags[i] then 1 else 0
  {
  }

  lemma SelectNone<T>(xs: seq<T>, flags: seq<bool>)
    requires |xs| == |flags|
    ensures Select(xs, flags, 0) == [] && Rank(flags, 0) == 0
  {
  }

  /** Ranks never go down, and move by at most one per position. */
  lemma {:induction false} RankMonotone(flags: seq<bool>, i: nat, j: nat)
    requires i <= j <= |flags|
    ensures Rank(flags, i) <= Rank(flags, j) <= Rank(flags, i) + (j - i)
    ensures i < j && flags[i] ==> Rank(flags, i) < Rank(flags, j)
    decreases j - i
  {
    if i == j {
    } else {
      RankMonotone(flags, i + 1, j);
    }
  }

  /** A flagged element lands at its exclusive rank. */
  lemma {:induction false} SelectAt<T>(xs: seq<T>, flags: seq<bool>, n: nat, i: nat)
    requires i < n <= |xs| == |flags| && flags[i]
    ensures Rank(flags, i) < Rank(flags, n)
    ensures Select(xs, flags, n)[Rank(flags, i)] == xs[i]
  {
    RankMonotone(flags, i, n);
    if i == n - 1 {
    } else {
      SelectAt(xs, flags, n - 1, i);
    }
  }

  /** Every selected element has a flagged source with that rank. */
  lemma {:induction false} SelectSource<T>(xs: seq<T>, flags: seq<bool>, n: nat, k: nat) returns (i: nat)
    requires n <= |xs| == |flags| && k < Rank(flags, n)
    ensures i < n && flags[i] && Rank(flags, i) == k && Select(xs, flags, n)[k] == xs[i]
  {
    if flags[n - 1] && k == Rank(flags, n - 1) {
      i := n - 1;
    } else {
      i := SelectSource(xs, flags, n - 1, k);
    }
  }

  /** A buffer that holds each flagged element at its rank is the stable filter. */
  lemma {:induction false} SelectUnique<T>(xs: seq<T>, flags: seq<bool>, out: seq<T>)
    requires |xs| == |flags| && |out| == Rank(flags, |flags|)
    requires forall i :: 0 <= i < |xs| && flags[i] ==> Rank(flags, i) < |out| && out[Rank(flags, i)] == xs[i]
    ensures out == Select(xs, flags, |xs|)
  {
    forall k | 0 <= k < |out| ensures out[k] == Select(xs, flags, |xs|)[k] {
      var i := SelectSource(xs, flags, |xs|, k);
    }
  }

  /** Membership: the filter keeps exactly the flagged elements. */
  lemma SelectMembers<T(!new)>(xs: seq<T>, flags: seq<bool>, x: T)
    requires |xs| == |flags|
    ensures x in Select(xs, flags, |xs|) <==> exists i :: 0 <= i < |xs| && flags[i] && xs[i] == x
  {
    var out := Select(xs, flags, |xs|);
    if x in out {
      var k :| 0 <= k < |out| && out[k] == x;
      var i := SelectSource(xs, flags, |xs|, k);
    }
    if i :| 0 <= i < |xs| && flags[i] && xs[i] == x {
      SelectAt(xs, flags, |xs|, i);
    }
  }

  /** Order: two kept elements keep their order. */
  lemma SelectOrder<T>(xs: seq<T>, flags: seq<bool>, a: nat, b: nat) returns (i: nat, j: nat)
    requires |xs| == |flags| && a < b < Rank(flags, |flags|)
    ensures i < j < |xs| && flags[i] && flags[j]
    ensures Select(xs, flags, |xs|)[a] == xs[i] && Select(xs, flags, |xs|)[b] == xs[j]
    ensures Rank(flags, i) == a && Rank(flags, j) == b
  {
    i := SelectSource(xs, flags, |xs|, a);
    j := SelectSource(xs, flags, |xs|, b);
    if j <= i {
      RankMonotone(flags, j, i);
      assert false;
    }
  }

  lemma SelectDistinct<T(!new)>(xs: seq<T>, flags: seq<bool>)
    requires |xs| == |flags|
    requires forall i, j :: 0 <= i < j < |xs| && flags[i] && flags[j] ==> xs[i] != xs[j]
    ensures Distinct(Select(xs, flags, |xs|))
  {
    var out := Select(xs, flags, |xs|);
    forall a, b | 0 <= a < b < |out| ensures out[a] != out[b] {
      var i, j := SelectOrder(xs, flags, a, b);
    }
  }

  /** Ranks of two exclusive flag families share the positions between them. */
  lemma {:induction false} RankDisjoint(f: seq<bool>, g: seq<bool>, n: nat)
    requires n <= |f| == |g|
    requires forall i :: 0 <= i < n ==> !(f[i] && g[i])
    ensures Rank(f, n) + Rank(g, n) <= n
    ensures (forall i :: 0 <= i < n ==> f[i] || g[i]) ==> Rank(f, n) + Rank(g, n) == n
  {
    if n == 0 {
    } else {
      RankDisjoint(f, g, n - 1);
    }
  }

  lemma {:induction false} RankZero(f: seq<bool>, n: nat)
    requires n <= |f| && forall i :: 0 <= i < n ==> !f[i]
    ensures Rank(f, n) == 0
  {
    if n == 0 {
    } else {
      RankZero(f, n - 1);
    }
  }

  /** With distinct targets the writes do not depend on their order. */
  lemma {:induction false} ScatterAt(base: seq<int>, idx: seq<int>, vals: seq<int>, n: nat)
    requires n <= |idx| && n <= |vals|
    requires forall j :: 0 <= j < n ==> 0 <= idx[j] < |base|
    requires forall i, j :: 0 <= i < j < n ==> idx[i] != idx[j]
    ensures forall j :: 0 <= j < n ==> Scatter(base, idx, vals, n)[idx[j]] == vals[j]
    ensures forall c :: 0 <= c < |base| && c !in idx[..n] ==> Scatter(base, idx, vals, n)[c] == base[c]
  {
    if n == 0 {
    } else {
      ScatterAt(base, idx, vals, n - 1);
      assert forall c :: c !in idx[..n] ==> c !in idx[..n - 1] && c != idx[n - 1] by {
        assert idx[..n] == idx[..n - 1] + [idx[n - 1]];
      }
    }
  }

  /** Some of the writes of a scatter have been done, in whatever order: those whose
      index is no longer in todo. */
  ghost predicate Scattering(base: seq<int>, idx: seq<int>, vals: seq<int>, n: nat, todo: set<int>, out: seq<int>) {
    && n <= |idx| && n <= |vals| && |out| == |base|
    && (forall j :: 0 <= j < n ==> 0 <= idx[j] < |base|)
    && (forall j :: 0 <= j < n && j !in todo ==> out[idx[j]] == vals[j])
    && (forall c :: 0 <= c < |base| && c !in idx[..n] ==> out[c] == base[c])
  }

  lemma ScatteringStart(base: seq<int>, idx: seq<int>, vals: seq<int>, n: nat, todo: set<int>)
    requires n <= |idx| && n <= |vals|
    requires forall j :: 0 <= j < n ==> 0 <= idx[j] < |base| && j in todo
    ensures Scattering(base, idx, vals, n, todo, base)
  {
  }

  lemma ScatteringStep(base: seq<int>, idx: seq<int>, vals: seq<int>, n: nat, todo: set<int>, out: seq<int>, j: int)
    requires Scattering(base, idx, vals, n, todo, out) && 0 <= j < n
    requires forall i, k :: 0 <= i < k < n ==> idx[i] != idx[k]
    ensures Scattering(base, idx, vals, n, todo - {j}, out[idx[j] := vals[j]])
  {
    assert idx[..n][j] == idx[j];
  }

  lemma ScatteringDone(base: seq<int>, idx: seq<int>, vals: seq<int>, n: nat, out: seq<int>)
    requires Scattering(base, idx, vals, n, {}, out)
    requires forall i, k :: 0 <= i < k < n ==> idx[i] != idx[k]
    ensures out == Scatter(base, idx, vals, n)
  {
    ScatterAt(base, idx, vals, n);
    forall c | 0 <= c < |base| ensures out[c] == Scatter(base, idx, vals, n)[c] {
      if c in idx[..n] {
        var j :| 0 <= j < n && idx[..n][j] == c;
        assert idx[j] == c;
      }
    }
  }

  lemma CountLast<T>(xs: seq<T>, x: T)
    requires xs != []
    ensures var n := |xs| - 1; multiset(xs)[x] == multiset(xs[..n])[x] + if xs[n] == x then 1 else 0
  {
    var n := |xs| - 1;
    assert xs == xs[..n] + [xs[n]];
  }

  /** The work of a parallel phase: a loop takes the indices out in any order. */
  function Indices(n: nat): (s: set<int>)
    ensures forall i :: i in s <==> 0 <= i < n
  {
    if n == 0 then {} else Indices(n - 1) + {n - 1}
  }

  // ---- groups

  /** Where group k starts, with groups of n: a warp of lanes, a tile, the places of k calls. */
  function Base(k: nat, n: nat): nat { if k == 0 then 0 else Base(k - 1, n) + n }

  lemma {:induction false} BaseMonotone(j: nat, k: nat, n: nat)
    requires j <= k
    ensures Base(j, n) <= Base(k, n)
  {
    if j == k {
    } else {
      BaseMonotone(j, k - 1, n);
    }
  }

  lemma {:induction false} BaseIsProduct(k: nat, n: nat)
    ensures Base(k, n) == k * n
  {
    if k == 0 {
    } else {
      BaseIsProduct(k - 1, n);
      assert k * n == (k - 1) * n + n;
    }
  }
}
