/** When the legacy kernel takes the abstract legacy step, and when it keeps the LRU row a
    permutation. */
module LruLegacyExact {
  import opened Compaction
  import opened LruSpec
  import opened LruFacts
  import opened LruLegacy
  import opened LruLegacyKernel

  // ---- the row on a permutation

  /** Splitting the flagged elements by rank splits the selection at that rank. */
  lemma {:induction false} SplitSelect(xs: seq<int>, e: seq<bool>, low: seq<bool>, high: seq<bool>, n: nat, m: nat)
    requires m <= |xs| == |e| == |low| == |high|
    requires forall i :: 0 <= i < |xs| ==> low[i] == (e[i] && Rank(e, i) < n) && high[i] == (e[i] && Rank(e, i) >= n)
    ensures var k := if Rank(e, m) < n then Rank(e, m) else n;
      Select(xs, low, m) == Select(xs, e, m)[..k] && Select(xs, high, m) == Select(xs, e, m)[k..]
  {
    hide Select, Rank;
    if m == 0 {
      SelectNone(xs, e);
      SelectNone(xs, low);
      SelectNone(xs, high);
    } else {
      SplitSelect(xs, e, low, high, n, m - 1);
      SelectStep(xs, e, m - 1);
      SelectStep(xs, low, m - 1);
      SelectStep(xs, high, m - 1);
    }
  }

  /** What propagation adds is already named by the first positions. */
  lemma PropagatedNames(topk: seq<int>, current: seq<int>, maxToken: int, s: int)
    requires Consistent(topk, current, maxToken) && s >= 0
    ensures s in Propagated(topk, current, maxToken) <==> s in current
  {
    hide First;
    var c := Propagated(topk, current, maxToken);
    if s in c {
      var p :| 0 <= p < |c| && c[p] == s;
      assert c[p] == Propagate(topk, current, maxToken, p);
    }
    if s in current {
      var p :| 0 <= p < |current| && current[p] == s;
      assert c[p] == Propagate(topk, current, maxToken, p);
    }
  }

  /** The categories are exactly assigned, named, and the rest. */
  lemma CategoryMeaning(lru: seq<int>, table: seq<int>, topk: seq<int>, maxToken: int, i: nat)
    requires IsPermutation(lru, |table|) && i < |lru|
    requires PlanOk(SearchPlan(lru, table, topk, maxToken), |topk|, |table|)
    ensures var p := SearchPlan(lru, table, topk, maxToken);
      var e := FreeFlags(lru, |table|, p.current);
      var current := Propagated(topk, Scatter(p.current, p.misses, p.evictable, AssignCount(p)), maxToken);
      Category(Assigned(p), current, lru[i]) == if !e[i] then 2 else if Rank(e, i) < AssignCount(p) then 1 else 0
  {
    hide Scatter, Select, Rank, Holder, First, Propagated;
    var p := SearchPlan(lru, table, topk, maxToken);
    var e, h := FreeFlags(lru, |table|, p.current), NamedFlags(lru, |table|, p.current);
    var n := AssignCount(p);
    AssignedConsistent(lru, table, topk, maxToken, p, n);
    PropagatedNames(topk, Scatter(p.current, p.misses, p.evictable, n), maxToken, lru[i]);
    ProtectedIff(lru, table, topk, maxToken, n, lru[i]);
    SearchDistinct(lru, table, topk, maxToken);
    FirstOnly(lru, |table|, i);
    if e[i] {
      SelectAt(lru, e, |lru|, i);
      assert Rank(e, i) < n ==> p.evictable[..n][Rank(e, i)] == lru[i];
      assert p.evictable[Rank(e, i)] == lru[i];
    } else {
      SelectMembers(lru, e, lru[i]);
      assert lru[i] !in p.evictable;
    }
  }

  lemma FirstOnly(lru: seq<int>, capacity: nat, i: nat)
    requires IsPermutation(lru, capacity) && i < |lru|
    ensures lru[i] !in lru[..i]
  {
  }

  /** The insertion sort leaves survivors, assigned slots and named slots, each in old order. */
  lemma SortedIsRebuilt(lru: seq<int>, table: seq<int>, topk: seq<int>, maxToken: int)
    requires IsPermutation(lru, |table|)
    requires PlanOk(SearchPlan(lru, table, topk, maxToken), |topk|, |table|)
    ensures var p := SearchPlan(lru, table, topk, maxToken);
      var current := Propagated(topk, Scatter(p.current, p.misses, p.evictable, AssignCount(p)), maxToken);
      Grouped(Assigned(p), current, lru, |lru|) == Rebuilt(p, |table|)
  {
    hide Scatter, Select, Rank, Propagated, Category;
    var p := SearchPlan(lru, table, topk, maxToken);
    var e, h := FreeFlags(lru, |table|, p.current), NamedFlags(lru, |table|, p.current);
    var n := AssignCount(p);
    var current := Propagated(topk, Scatter(p.current, p.misses, p.evictable, n), maxToken);
    forall i | 0 <= i < |lru|
      ensures Category(Assigned(p), current, lru[i]) == if !e[i] then 2 else if Rank(e, i) < n then 1 else 0
    {
      CategoryMeaning(lru, table, topk, maxToken, i);
    }
    SplitSelect(lru, e, OfCategory(Assigned(p), current, lru, 1), OfCategory(Assigned(p), current, lru, 0), n, |lru|);
    forall i | 0 <= i < |lru| ensures h[i] == !e[i] { FirstOnly(lru, |table|, i); }
    assert OfCategory(Assigned(p), current, lru, 2) == h;
    RankDisjoint(e, h, |lru|);
    assert n <= |p.evictable|;
  }

  /** On a permutation the rows are those of the plans: with scratch the last asked slots in
      place of the hits, without scratch survivors, assigned and named slots. */
  lemma RowOfPermutation(lru: seq<int>, table: seq<int>, topk: seq<int>, maxToken: int)
    requires IsPermutation(lru, |table|)
    ensures var p, asked := KernelPlan(lru, table, topk, maxToken), Select(lru, AskedFlags(lru, table, topk), |lru|);
      && PlanOk(p, |topk|, |table|)
      && KernelRow(lru, table, topk, maxToken) ==
         if |table| <= maxToken then p.evictable[AssignCount(p)..] + Assigned(p) + Last(asked, |p.hits|)
         else Rebuilt(p, |table|)
  {
    hide Select, Rank, LegacyPlan, Propagated, Grouped, Scatter;
    KernelPlanIsOk(lru, table, topk, maxToken);
    if |table| <= maxToken {
      HitsAreAsked(lru, table, topk, maxToken);
      var p, asked := LegacyPlan(lru, table, topk, maxToken), Select(lru, AskedFlags(lru, table, topk), |lru|);
      assert Moved(lru, table, topk)[|p.evictable|..] == Last(asked, |p.hits|);
    } else {
      SortedIsRebuilt(lru, table, topk, maxToken);
    }
  }

  /** The last n elements. */
  function Last(xs: seq<int>, n: nat): seq<int> { if n <= |xs| then xs[|xs| - n..] else xs }

  /** A hit slot is among those asked for, and hit and evictable slots make up the row. */
  lemma HitsAreAsked(lru: seq<int>, table: seq<int>, topk: seq<int>, maxToken: int)
    requires IsPermutation(lru, |table|)
    ensures var p := LegacyPlan(lru, table, topk, maxToken);
      && |p.evictable| + |p.hits| == |table|
      && |p.hits| <= |Select(lru, AskedFlags(lru, table, topk), |lru|)| <= |table|
  {
    hide Select;
    var h, asked := HitFlags(lru, table, topk, maxToken), AskedFlags(lru, table, topk);
    PermutationSplits(lru, table, topk, maxToken);
    FewerFlags(h, asked, |lru|);
    RankMonotone(asked, 0, |lru|);
  }

  // ---- when the kernel takes the abstract legacy step

  /** A slot that holds a requested token at or past maxToken. */
  predicate IsStray(table: seq<int>, topk: seq<int>, maxToken: int, slot: int) {
    IsSlot(slot, |table|) && table[slot] >= maxToken && table[slot] >= 0 && table[slot] in topk
  }

  /** No stray slot is younger than a hit slot. */
  ghost predicate StraysFirst(lru: seq<int>, table: seq<int>, topk: seq<int>, maxToken: int) {
    forall i, j :: 0 <= i < j < |lru| && HitFlags(lru, table, topk, maxToken)[i] ==>
      !IsStray(table, topk, maxToken, lru[j])
  }

  lemma {:induction false} SameSuffix(lru: seq<int>, asked: seq<bool>, h: seq<bool>, m: nat, n: nat)
    requires m <= n <= |lru| == |asked| == |h|
    requires (forall i :: 0 <= i < m ==> !h[i]) && forall i :: m <= i < |lru| ==> asked[i] == h[i]
    ensures Select(lru, asked, n) == Select(lru, asked, m) + Select(lru, h, n)
  {
    if n == m {
      RankZero(h, m);
      assert Select(lru, h, m) == [];
    } else {
      SameSuffix(lru, asked, h, m, n - 1);
    }
  }

  /** The last hits of the asked slots are the hits exactly when no stray slot is younger than
      a hit slot. */
  lemma LastAreHits(lru: seq<int>, table: seq<int>, topk: seq<int>, maxToken: int)
    requires IsPermutation(lru, |table|)
    ensures var hits := Select(lru, HitFlags(lru, table, topk, maxToken), |lru|);
      Last(Select(lru, AskedFlags(lru, table, topk), |lru|), |hits|) == hits <==>
        StraysFirst(lru, table, topk, maxToken)
  {
    hide Select, Rank;
    var h, a := HitFlags(lru, table, topk, maxToken), AskedFlags(lru, table, topk);
    var hits, asked := Select(lru, h, |lru|), Select(lru, a, |lru|);
    HitsAreAsked(lru, table, topk, maxToken);
    if StraysFirst(lru, table, topk, maxToken) {
      var m := FirstFlag(h);
      assert m < |lru| ==> h[m];
      SameSuffix(lru, a, h, m, |lru|);
    } else {
      var i, j :| 0 <= i < j < |lru| && h[i] && IsStray(table, topk, maxToken, lru[j]);
      if Last(asked, |hits|) == hits {
        StrayInTail(lru, a, h, i, j);
      }
    }
  }

  lemma FirstFlag(h: seq<bool>) returns (m: nat)
    ensures m <= |h| && (forall i :: 0 <= i < m ==> !h[i]) && (m < |h| ==> h[m])
  {
    m := 0;
    while m < |h| && !h[m]
      invariant m <= |h| && forall i :: 0 <= i < m ==> !h[i]
    {
      m := m + 1;
    }
  }

  /** If the last asked slots are the hits, an asked slot younger than a hit is a hit. */
  lemma StrayInTail(lru: seq<int>, a: seq<bool>, h: seq<bool>, i: nat, j: nat)
    requires Distinct(lru) && |a| == |h| == |lru| && i < j < |lru| && h[i] && a[i] && a[j]
    requires Last(Select(lru, a, |lru|), Rank(h, |lru|)) == Select(lru, h, |lru|)
    ensures h[j]
  {
    hide Select, Rank;
    var asked, hits := Select(lru, a, |lru|), Select(lru, h, |lru|);
    SelectAt(lru, a, |lru|, i);
    SelectAt(lru, a, |lru|, j);
    RankMonotone(a, i, j);
    SelectDistinct(lru, a);
    SelectMembers(lru, h, lru[i]);
    SelectMembers(lru, h, lru[j]);
    var k :| 0 <= k < |hits| && hits[k] == lru[i];
    var cut := |asked| - |hits|;
    assert hits == asked[cut..];
    hide Distinct, Last;
    assert asked[cut + k] == lru[i];
    SameIndex(asked, cut + k, Rank(a, i));
    assert hits[Rank(a, j) - cut] == lru[j];
  }

  lemma SameIndex(xs: seq<int>, i: nat, j: nat)
    requires Distinct(xs) && i < |xs| && j < |xs| && xs[i] == xs[j]
    ensures i == j
  {
  }

  /** With scratch, the kernel takes the abstract legacy step exactly when no stray slot is
      younger than a hit slot. */
  lemma ScratchStepIff(call: Call, row: Row, maxToken: int)
    requires |row.lru| == |row.table| <= maxToken && (row.lastReq == call.reqId ==> IsPermutation(row.lru, |row.table|))
    ensures var r := Prepared(call, row, maxToken);
      KernelStep(call, row, maxToken) == LegacyStep(call, row, maxToken) <==>
        StraysFirst(r.lru, r.table, call.topk, maxToken)
  {
    hide LegacyPlan, Select, StraysFirst, KernelRow;
    var r := Prepared(call, row, maxToken);
    ResetIsPermutation(|row.table|, call.reqId);
    LastAreHits(r.lru, r.table, call.topk, maxToken);
    HitsAreAsked(r.lru, r.table, call.topk, maxToken);
    PlanFlags(r.lru, r.table, call.topk, maxToken);
    ScratchRow(r.lru, r.table, call.topk, maxToken);
    var o := LegacyStep(call, row, maxToken);
    assert KernelStep(call, row, maxToken) == o.(row := o.row.(lru := KernelRow(r.lru, r.table, call.topk, maxToken)));
  }

  lemma ScratchRow(lru: seq<int>, table: seq<int>, topk: seq<int>, maxToken: int)
    requires IsPermutation(lru, |table|) && |table| <= maxToken
    ensures var p := LegacyPlan(lru, table, topk, maxToken);
      && |p.evictable| + |p.hits| == |table|
      && (KernelRow(lru, table, topk, maxToken) == Rebuilt(p, |table|) <==>
          Last(Select(lru, AskedFlags(lru, table, topk), |lru|), |p.hits|) == p.hits)
  {
    hide LegacyPlan, Select, KernelRow;
    HitsAreAsked(lru, table, topk, maxToken);
    RowOfPermutation(lru, table, topk, maxToken);
    var p := LegacyPlan(lru, table, topk, maxToken);
    var front, tail := p.evictable[AssignCount(p)..] + Assigned(p),
      Last(Select(lru, AskedFlags(lru, table, topk), |lru|), |p.hits|);
    assert Rebuilt(p, |table|) == front + p.hits;
    assert (front + tail)[|front|..] == tail && (front + p.hits)[|front|..] == p.hits;
  }

  /** From m on there are as many asked as hit places, and more if one is stray. */
  lemma {:induction false} CountStrays(a: seq<bool>, h: seq<bool>, m: nat, n: nat)
    requires m <= n <= |a| == |h| && forall i :: 0 <= i < |a| && h[i] ==> a[i]
    ensures Rank(a, n) - Rank(a, m) >= Rank(h, n) - Rank(h, m)
    ensures (exists j :: m <= j < n && a[j] && !h[j]) ==> Rank(a, n) - Rank(a, m) > Rank(h, n) - Rank(h, m)
  {
    if n == m {
    } else {
      CountStrays(a, h, m, n - 1);
    }
  }

  /** With scratch, the rebuilt row is a permutation exactly when no stray slot is younger than
      a hit slot; otherwise a hit slot is lost. */
  lemma ScratchRowIsPermutationIff(lru: seq<int>, table: seq<int>, topk: seq<int>, maxToken: int)
    requires IsPermutation(lru, |table|) && |table| <= maxToken
    ensures IsPermutation(KernelRow(lru, table, topk, maxToken), |table|) <==> StraysFirst(lru, table, topk, maxToken)
  {
    hide LegacyPlan, Select, Rank, KernelRow;
    var h, a := HitFlags(lru, table, topk, maxToken), AskedFlags(lru, table, topk);
    LastAreHits(lru, table, topk, maxToken);
    PlanFlags(lru, table, topk, maxToken);
    ScratchRow(lru, table, topk, maxToken);
    if StraysFirst(lru, table, topk, maxToken) {
      LegacyPlanIsOk(lru, table, topk, maxToken);
      LegacyStaysPermutation(lru, table, topk, maxToken);
    } else {
      var i, j :| 0 <= i < j < |lru| && h[i] && IsStray(table, topk, maxToken, lru[j]);
      var m := FirstFlag(h);
      assert m <= i && a[j] && !h[j];
      CountStrays(a, h, m, |lru|);
      RankZero(h, m);
      OldestHitLost(lru, table, topk, maxToken, m);
      if IsPermutation(KernelRow(lru, table, topk, maxToken), |table|) {
        PermutationCovers(KernelRow(lru, table, topk, maxToken), |table|, lru[m]);
      }
    }
  }

  /** The oldest hit is not in the rebuilt row if more slots are asked from it on than hit. */
  lemma OldestHitLost(lru: seq<int>, table: seq<int>, topk: seq<int>, maxToken: int, m: nat)
    requires IsPermutation(lru, |table|) && |table| <= maxToken && m < |lru|
    requires var h, a := HitFlags(lru, table, topk, maxToken), AskedFlags(lru, table, topk);
      h[m] && a[m] && Rank(a, |lru|) - Rank(a, m) > Rank(h, |lru|)
    ensures lru[m] !in KernelRow(lru, table, topk, maxToken)
  {
    hide Select, Rank, KernelRow;
    RowOfPermutation(lru, table, topk, maxToken);
    var h, a := HitFlags(lru, table, topk, maxToken), AskedFlags(lru, table, topk);
    var p, asked := LegacyPlan(lru, table, topk, maxToken), Select(lru, a, |lru|);
    var cut := |asked| - |p.hits|;
    SelectAt(lru, a, |lru|, m);
    SelectDistinct(lru, a);
    SelectMembers(lru, EvictFlags(lru, table, topk, maxToken), lru[m]);
    assert lru[m] !in p.evictable;
    assert forall k :: cut <= k < |asked| ==> k > Rank(a, m) && asked[k] != asked[Rank(a, m)];
  }

  /** Without scratch, the rebuilt row is always a permutation. */
  lemma SearchRowIsPermutation(lru: seq<int>, table: seq<int>, topk: seq<int>, maxToken: int)
    requires IsPermutation(lru, |table|) && |table| > maxToken
    ensures IsPermutation(KernelRow(lru, table, topk, maxToken), |table|)
  {
    hide Select, Rank, LegacyPlan, KernelRow;
    RowOfPermutation(lru, table, topk, maxToken);
    var p := SearchPlan(lru, table, topk, maxToken);
    var e, h := FreeFlags(lru, |table|, p.current), NamedFlags(lru, |table|, p.current);
    forall i | 0 <= i < |lru| ensures e[i] == !h[i] { FirstOnly(lru, |table|, i); }
    FlagsSplit(e, h, |lru|);
    SearchDistinct(lru, table, topk, maxToken);
    SelectDistinct(lru, h);
    RebuiltPermutation(p, |table|);
  }

  lemma {:induction false} FlagsSplit(e: seq<bool>, h: seq<bool>, n: nat)
    requires n <= |e| == |h| && forall i :: 0 <= i < n ==> e[i] == !h[i]
    ensures Rank(e, n) + Rank(h, n) == n
  {
    if n == 0 {
    } else {
      FlagsSplit(e, h, n - 1);
    }
  }

  /** A row on which the branch with scratch loses a slot. */
  lemma StrayExample()
    ensures IsPermutation([0, 1], 2) && !IsPermutation(KernelRow([0, 1], [1, 9], [1, 9], 5), 2)
  {
    var lru, table, topk := [0, 1], [1, 9], [1, 9];
    assert HitFlags(lru, table, topk, 5)[0] && IsStray(table, topk, 5, lru[1]);
    ScratchRowIsPermutationIff(lru, table, topk, 5);
  }

  /** No requested token is resident in two slots. */
  ghost predicate SingleHolders(table: seq<int>, topk: seq<int>, maxToken: int) {
    forall a, b :: 0 <= a < b < |table| && IsToken(table[a], maxToken) && table[a] in topk ==> table[a] != table[b]
  }

  lemma HitIsNamed(lru: seq<int>, table: seq<int>, topk: seq<int>, maxToken: int, s: int)
    requires IsPermutation(lru, |table|) && IsSlot(s, |table|) && SingleHolders(table, topk, maxToken)
    ensures IsHit(table, topk, maxToken, s) <==> s in LegacyPlan(lru, table, topk, maxToken).current
  {
    hide Select;
    var p := LegacyPlan(lru, table, topk, maxToken);
    PermutationCovers(lru, |table|, s);
    if s in p.current {
      var q :| 0 <= q < |topk| && p.current[q] == s;
      assert s == LegacyHit(lru, table, topk, maxToken, |lru|, q);
    }
    if IsHit(table, topk, maxToken, s) {
      var q :| 0 <= q < |topk| && topk[q] == table[s];
      var i :| 0 <= i < |lru| && lru[i] == s;
      var h := Holder(lru, table, topk[q], |lru|);
      assert h != INVALID && table[h] == table[s];
      assert h == s;
      assert p.current[q] == LegacyHit(lru, table, topk, maxToken, |lru|, q);
    }
  }

  /** The search protects exactly the hit slots, and so follows the same plan, exactly when no
      requested token is resident in two slots. */
  lemma SearchPlanIff(lru: seq<int>, table: seq<int>, topk: seq<int>, maxToken: int)
    requires IsPermutation(lru, |table|)
    ensures SearchPlan(lru, table, topk, maxToken) == LegacyPlan(lru, table, topk, maxToken) <==>
      SingleHolders(table, topk, maxToken)
  {
    hide Select, LegacyPlan;
    var p := LegacyPlan(lru, table, topk, maxToken);
    if SingleHolders(table, topk, maxToken) {
      forall i | 0 <= i < |lru|
        ensures HitFlags(lru, table, topk, maxToken)[i] == NamedFlags(lru, |table|, p.current)[i]
        ensures EvictFlags(lru, table, topk, maxToken)[i] == FreeFlags(lru, |table|, p.current)[i]
      {
        HitIsNamed(lru, table, topk, maxToken, lru[i]);
        FirstOnly(lru, |table|, i);
      }
      PlanFlags(lru, table, topk, maxToken);
      assert HitFlags(lru, table, topk, maxToken) == NamedFlags(lru, |table|, p.current);
      assert EvictFlags(lru, table, topk, maxToken) == FreeFlags(lru, |table|, p.current);
    } else {
      var a, b :| 0 <= a < b < |table| && IsToken(table[a], maxToken) && table[a] in topk && table[a] == table[b];
      var s := UnnamedHit(lru, table, topk, maxToken, a, b);
      PlanFlags(lru, table, topk, maxToken);
      PermutationCovers(lru, |table|, s);
      SelectMembers(lru, HitFlags(lru, table, topk, maxToken), s);
      SelectMembers(lru, NamedFlags(lru, |table|, p.current), s);
    }
  }

  lemma PlanFlags(lru: seq<int>, table: seq<int>, topk: seq<int>, maxToken: int)
    ensures var p := LegacyPlan(lru, table, topk, maxToken);
      && p.evictable == Select(lru, EvictFlags(lru, table, topk, maxToken), |lru|)
      && p.hits == Select(lru, HitFlags(lru, table, topk, maxToken), |lru|)
  {
  }

  /** Of two slots with the same requested token, one is not named by the answers. */
  lemma UnnamedHit(lru: seq<int>, table: seq<int>, topk: seq<int>, maxToken: int, a: nat, b: nat) returns (s: nat)
    requires a < b < |table| && IsToken(table[a], maxToken) && table[a] in topk && table[a] == table[b]
    ensures (s == a || s == b) && IsHit(table, topk, maxToken, s)
    ensures s !in LegacyPlan(lru, table, topk, maxToken).current
  {
    hide Select;
    var c := LegacyPlan(lru, table, topk, maxToken).current;
    s := if Holder(lru, table, table[a], |lru|) == a then b else a;
    forall q | 0 <= q < |topk| ensures c[q] != s {
      assert c[q] == LegacyHit(lru, table, topk, maxToken, |lru|, q);
    }
  }

  /** What makes every legacy call on a row take the abstract legacy step. */
  ghost predicate LegacyUsable(call: Call, row: Row, maxToken: int) {
    && |row.lru| == |row.table|
    && (row.lastReq == call.reqId ==>
          Sound(row, maxToken) && (|row.table| <= maxToken ==> NoStrayHit(row.table, call.topk, maxToken)))
  }

  /** No resident token past maxToken is requested. */
  ghost predicate NoStrayHit(table: seq<int>, topk: seq<int>, maxToken: int) {
    forall s :: 0 <= s < |table| && table[s] in topk ==> table[s] < maxToken
  }

  lemma KernelIsLegacy(call: Call, row: Row, maxToken: int)
    requires LegacyUsable(call, row, maxToken) && maxToken >= 0
    ensures KernelStep(call, row, maxToken) == LegacyStep(call, row, maxToken)
  {
    hide LegacyPlan, SearchPlan, LegacyExecute, LegacyStep, KernelStep;
    var r := Prepared(call, row, maxToken);
    assert Sound(r, maxToken) && (|row.table| <= maxToken ==> NoStrayHit(r.table, call.topk, maxToken)) by {
      ResetIsPermutation(|row.table|, call.reqId);
      PreparedUsable(call, row, maxToken);
    }
    if |row.table| <= maxToken {
      ScratchStepIff(call, row, maxToken);
    } else {
      SearchPlanIff(r.lru, r.table, call.topk, maxToken);
      SamePlanSameStep(call, row, maxToken);
    }
  }

  lemma PreparedUsable(call: Call, row: Row, maxToken: int)
    requires LegacyUsable(call, row, maxToken) && maxToken >= 0
    ensures Sound(Prepared(call, row, maxToken), maxToken)
    ensures |row.table| <= maxToken ==> NoStrayHit(Prepared(call, row, maxToken).table, call.topk, maxToken)
  {
  }

  lemma SamePlanSameStep(call: Call, row: Row, maxToken: int)
    requires |row.lru| == |row.table| > maxToken
    requires IsPermutation(Prepared(call, row, maxToken).lru, |row.table|)
    requires var r := Prepared(call, row, maxToken);
      SearchPlan(r.lru, r.table, call.topk, maxToken) == LegacyPlan(r.lru, r.table, call.topk, maxToken)
    ensures KernelStep(call, row, maxToken) == LegacyStep(call, row, maxToken)
  {
    hide LegacyPlan, SearchPlan, KernelRow;
    var r := Prepared(call, row, maxToken);
    RowOfPermutation(r.lru, r.table, call.topk, maxToken);
  }

  // ---- runs of legacy calls

  /** The row as legacy call i finds it. */
  function LegacyRowAt(row: Row, calls: seq<Call>, maxToken: int, i: nat): (r: Row)
    requires |row.lru| == |row.table| && i <= |calls|
    ensures |r.lru| == |r.table|
  {
    if i == 0 then row else LegacyStep(calls[i - 1], LegacyRowAt(row, calls, maxToken, i - 1), maxToken).row
  }

  ghost predicate Clean(row: Row, maxToken: int) {
    Sound(row, maxToken) && forall s :: 0 <= s < |row.table| ==> row.table[s] < maxToken
  }

  lemma LegacyStaysClean(call: Call, row: Row, maxToken: int)
    requires |row.lru| == |row.table| && maxToken > 0 && (row.lastReq == call.reqId ==> Clean(row, maxToken))
    ensures Clean(LegacyStep(call, row, maxToken).row, maxToken) && LegacyUsable(call, row, maxToken)
  {
    hide LegacyStep, Sound;
    var base := if row.lastReq == call.reqId then row else ResetRow(|row.table|, call.reqId);
    assert LegacyStep(call, row, maxToken) == LegacyStep(call, base, maxToken) && Clean(base, maxToken) by {
      LegacyReset(call, row, maxToken);
    }
    LegacyStaysSound(call, base, maxToken);
    forall s | 0 <= s < |base.table| ensures LegacyStep(call, base, maxToken).row.table[s] < maxToken {
      LegacyStaysBounded(call, base, maxToken, s);
    }
  }

  lemma LegacyReset(call: Call, row: Row, maxToken: int)
    requires |row.lru| == |row.table| && maxToken >= 0
    ensures var base := if row.lastReq == call.reqId then row else ResetRow(|row.table|, call.reqId);
      LegacyStep(call, row, maxToken) == LegacyStep(call, base, maxToken) &&
        (row.lastReq == call.reqId || Clean(base, maxToken))
  {
  }

  /** Whatever the first call finds, if it resets the row then every call of the run, with
      any Top-K, finds a row that meets what the legacy kernel needs. */
  lemma {:induction false} LegacyAlwaysUsable(row: Row, calls: seq<Call>, maxToken: int, i: nat)
    requires |row.lru| == |row.table| && maxToken > 0 && i < |calls| && row.lastReq != calls[0].reqId
    ensures LegacyUsable(calls[i], LegacyRowAt(row, calls, maxToken, i), maxToken)
    ensures Clean(LegacyRowAt(row, calls, maxToken, i + 1), maxToken)
  {
    hide LegacyStep, LegacyUsable, Clean;
    if i == 0 {
    } else {
      LegacyAlwaysUsable(row, calls, maxToken, i - 1);
    }
    LegacyStaysClean(calls[i], LegacyRowAt(row, calls, maxToken, i), maxToken);
  }
}
