/** What one resident LRU step guarantees, stated without reference to its code. */
module LruFacts {
  import opened Compaction
  import opened LruSpec

  /** The LRU row lists every slot exactly once. */
  ghost predicate IsPermutation(lru: seq<int>, capacity: nat) {
    |lru| == capacity && Distinct(lru) && forall i :: 0 <= i < |lru| ==> IsSlot(lru[i], capacity)
  }

  /** No token is resident in two slots. */
  ghost predicate Injective(table: seq<int>, maxToken: int) {
    forall a, b :: 0 <= a < b < |table| && IsToken(table[a], maxToken) ==> table[a] != table[b]
  }

  /** No valid token is requested twice. */
  ghost predicate DuplicateFree(topk: seq<int>, maxToken: int) {
    forall p, q :: 0 <= p < q < |topk| && IsToken(topk[p], maxToken) ==> topk[p] != topk[q]
  }

  // ---- the plan

  lemma EvictableSource(lru: seq<int>, table: seq<int>, topk: seq<int>, maxToken: int, j: nat) returns (i: nat)
    requires j < |MakePlan(lru, table, topk, maxToken).evictable|
    ensures i < |lru| && lru[i] == MakePlan(lru, table, topk, maxToken).evictable[j]
    ensures IsSlot(lru[i], |table|) && !IsHit(table, topk, maxToken, lru[i])
    ensures Rank(EvictFlags(lru, table, topk, maxToken), i) == j
  {
    i := SelectSource(lru, EvictFlags(lru, table, topk, maxToken), |lru|, j);
  }

  lemma HitSource(lru: seq<int>, table: seq<int>, topk: seq<int>, maxToken: int, j: nat) returns (i: nat)
    requires j < |MakePlan(lru, table, topk, maxToken).hits|
    ensures i < |lru| && lru[i] == MakePlan(lru, table, topk, maxToken).hits[j]
    ensures IsSlot(lru[i], |table|) && IsHit(table, topk, maxToken, lru[i])
    ensures Rank(HitFlags(lru, table, topk, maxToken), i) == j
  {
    i := SelectSource(lru, HitFlags(lru, table, topk, maxToken), |lru|, j);
  }

  lemma MissSource(lru: seq<int>, table: seq<int>, topk: seq<int>, maxToken: int, j: nat)
    requires j < |MakePlan(lru, table, topk, maxToken).misses|
    ensures var p := MakePlan(lru, table, topk, maxToken);
      0 <= p.misses[j] < |topk| && IsToken(topk[p.misses[j]], maxToken) && p.current[p.misses[j]] < 0
  {
    var p := MakePlan(lru, table, topk, maxToken);
    var i := SelectSource(Iota(|topk|), MissFlags(topk, p.current, maxToken), |topk|, j);
  }

  /** Every unresolved valid position appears among the misses. */
  lemma MissIndex(lru: seq<int>, table: seq<int>, topk: seq<int>, maxToken: int, pos: nat) returns (j: nat)
    requires pos < |topk| && IsToken(topk[pos], maxToken)
    requires MakePlan(lru, table, topk, maxToken).current[pos] < 0
    ensures j < |MakePlan(lru, table, topk, maxToken).misses|
    ensures MakePlan(lru, table, topk, maxToken).misses[j] == pos
  {
    var flags := MissFlags(topk, HitCurrent(lru, table, topk, maxToken), maxToken);
    SelectAt(Iota(|topk|), flags, |topk|, pos);
    j := Rank(flags, pos);
  }

  /** Evictable and hit slots are distinct, and no slot is both. */
  lemma PlanDistinct(lru: seq<int>, table: seq<int>, topk: seq<int>, maxToken: int)
    requires DistinctSlots(lru, |table|)
    ensures var p := MakePlan(lru, table, topk, maxToken);
      Distinct(p.evictable) && Distinct(p.hits) && Distinct(p.misses) && forall s :: s in p.evictable ==> s !in p.hits
  {
    var p := MakePlan(lru, table, topk, maxToken);
    SelectDistinct(lru, EvictFlags(lru, table, topk, maxToken));
    SelectDistinct(lru, HitFlags(lru, table, topk, maxToken));
    SelectDistinct(Iota(|topk|), MissFlags(topk, p.current, maxToken));
    forall s | s in p.evictable ensures s !in p.hits {
      var j :| 0 <= j < |p.evictable| && p.evictable[j] == s;
      var i := EvictableSource(lru, table, topk, maxToken, j);
      if s in p.hits {
        var k :| 0 <= k < |p.hits| && p.hits[k] == s;
        var i' := HitSource(lru, table, topk, maxToken, k);
      }
    }
  }

  /** A hit answer names a hit slot that already holds the token. */
  lemma HitAnswer(lru: seq<int>, table: seq<int>, topk: seq<int>, maxToken: int, pos: nat)
    requires pos < |topk| && MakePlan(lru, table, topk, maxToken).current[pos] >= 0
    ensures IsToken(topk[pos], maxToken) && forall q :: 0 <= q < pos ==> topk[q] != topk[pos]
    ensures var s := MakePlan(lru, table, topk, maxToken).current[pos];
      IsSlot(s, |table|) && table[s] == topk[pos] && s in MakePlan(lru, table, topk, maxToken).hits
  {
    HitAtMeaning(lru, table, topk, maxToken, pos);
  }

  lemma HitAtMeaning(lru: seq<int>, table: seq<int>, topk: seq<int>, maxToken: int, pos: nat)
    requires pos < |topk| && HitAt(lru, table, topk, maxToken, pos) >= 0
    ensures IsToken(topk[pos], maxToken) && forall q :: 0 <= q < pos ==> topk[q] != topk[pos]
    ensures var s := HitAt(lru, table, topk, maxToken, pos);
      IsSlot(s, |table|) && table[s] == topk[pos] && s in Select(lru, HitFlags(lru, table, topk, maxToken), |lru|)
  {
    HolderIsHit(lru, table, topk, maxToken, topk[pos]);
  }

  lemma HolderIsHit(lru: seq<int>, table: seq<int>, topk: seq<int>, maxToken: int, token: int)
    requires token in topk && IsToken(token, maxToken) && Holder(lru, table, token, |lru|) != INVALID
    ensures Holder(lru, table, token, |lru|) in Select(lru, HitFlags(lru, table, topk, maxToken), |lru|)
  {
    var s := Holder(lru, table, token, |lru|);
    assert s in lru by { assert lru[..|lru|] == lru; }
    var i :| 0 <= i < |lru| && lru[i] == s;
    SelectAt(lru, HitFlags(lru, table, topk, maxToken), |lru|, i);
  }

  // ---- the outcome, position by position

  /** Which slot a position ends up with. */
  lemma AnswerOf(lru: seq<int>, table: seq<int>, topk: seq<int>, maxToken: int, reqId: int, pos: nat)
    requires |lru| == |table| && DistinctSlots(lru, |table|) && pos < |topk|
    requires PlanOk(MakePlan(lru, table, topk, maxToken), |topk|, |table|)
    ensures var p := MakePlan(lru, table, topk, maxToken);
      var o := Execute(p, table, topk, reqId);
      if p.current[pos] >= 0 then o.current[pos] == p.current[pos]
      else if exists j :: 0 <= j < AssignCount(p) && p.misses[j] == pos
      then exists j :: 0 <= j < AssignCount(p) && p.misses[j] == pos && o.current[pos] == p.evictable[j]
      else o.current[pos] == INVALID
  {
    var p := MakePlan(lru, table, topk, maxToken);
    PlanDistinct(lru, table, topk, maxToken);
    ScatterAt(p.current, p.misses, p.evictable, AssignCount(p));
    if p.current[pos] >= 0 {
      if pos in p.misses[..AssignCount(p)] {
        var j :| 0 <= j < AssignCount(p) && p.misses[j] == pos;
        MissSource(lru, table, topk, maxToken, j);
        assert false;
      }
    }
  }

  /** The table after the step: assigned slots take their token, all others keep theirs. */
  lemma TableAfter(lru: seq<int>, table: seq<int>, topk: seq<int>, maxToken: int, reqId: int)
    requires |lru| == |table| && DistinctSlots(lru, |table|)
    requires PlanOk(MakePlan(lru, table, topk, maxToken), |topk|, |table|)
    ensures var p := MakePlan(lru, table, topk, maxToken);
      var t := Execute(p, table, topk, reqId).row.table;
      && (forall j :: 0 <= j < AssignCount(p) ==> t[p.evictable[j]] == topk[p.misses[j]])
      && (forall s :: 0 <= s < |table| && s !in Assigned(p) ==> t[s] == table[s])
  {
    var p := MakePlan(lru, table, topk, maxToken);
    PlanDistinct(lru, table, topk, maxToken);
    ScatterAt(table, p.evictable, TokensAt(topk, p.misses), AssignCount(p));
  }

  /** What a call demands of the row it finds: nothing if it resets the row. */
  ghost predicate Usable(call: Call, row: Row) {
    |row.lru| == |row.table| && (row.lastReq == call.reqId ==> RowOk(row))
  }

  lemma PreparedOk(call: Call, row: Row, maxToken: int)
    requires Usable(call, row)
    ensures RowOk(Prepared(call, row, maxToken))
    ensures var r := Prepared(call, row, maxToken);
      PlanOk(MakePlan(r.lru, r.table, call.topk, maxToken), |call.topk|, |r.table|)
    ensures Step(call, row, maxToken) == Execute(PlanOf(call, row, maxToken), Prepared(call, row, maxToken).table,
      call.topk, call.reqId)
  {
    var r := Prepared(call, row, maxToken);
    PlanIsOk(r.lru, r.table, call.topk, maxToken);
  }

  lemma StepRemembers(call: Call, row: Row, maxToken: int)
    requires |row.lru| == |row.table|
    ensures Step(call, row, maxToken).row.lastReq == call.reqId
  {
  }

  /** Every answer is right: a resolved position names a slot holding the requested
      token after the step, whether it was hit or newly assigned. */
  lemma AnswersAreRight(call: Call, row: Row, maxToken: int, pos: nat)
    requires Usable(call, row) && pos < |call.topk|
    ensures var o := Step(call, row, maxToken);
      o.current[pos] == INVALID ||
      (IsToken(call.topk[pos], maxToken) && IsSlot(o.current[pos], |row.table|) &&
        o.row.table[o.current[pos]] == call.topk[pos])
  {
    PreparedOk(call, row, maxToken);
    var r, p := Prepared(call, row, maxToken), PlanOf(call, row, maxToken);
    AnswerOf(r.lru, r.table, call.topk, maxToken, call.reqId, pos);
    TableAfter(r.lru, r.table, call.topk, maxToken, call.reqId);
    if p.current[pos] >= 0 {
      HitAnswer(r.lru, r.table, call.topk, maxToken, pos);
      PlanDistinct(r.lru, r.table, call.topk, maxToken);
    } else if j :| 0 <= j < AssignCount(p) && p.misses[j] == pos {
      MissSource(r.lru, r.table, call.topk, maxToken, j);
    }
  }

  /** The miss lists tell a copier exactly what to load: entry j names a slot that now holds
      the listed token and answers a position asking for it, and every slot not listed
      keeps the token it was prepared with. */
  lemma MissListsAreRight(call: Call, row: Row, maxToken: int, j: nat, s: nat)
    requires Usable(call, row) && s < |row.table|
    ensures var o := Step(call, row, maxToken);
      && o.missCount <= |o.missSlots| == |o.missTokens| == |call.topk|
      && (j < o.missCount ==> IsSlot(o.missSlots[j], |row.table|) && o.row.table[o.missSlots[j]] == o.missTokens[j])
      && (j < o.missCount ==>
            exists q :: 0 <= q < |call.topk| && call.topk[q] == o.missTokens[j] && o.current[q] == o.missSlots[j])
      && (s !in o.missSlots[..o.missCount] ==> o.row.table[s] == Prepared(call, row, maxToken).table[s])
  {
    hide MakePlan, Prepared, Step, Scatter, RowOk;
    PreparedOk(call, row, maxToken);
    var r, p, o := Prepared(call, row, maxToken), PlanOf(call, row, maxToken), Step(call, row, maxToken);
    TableAfter(r.lru, r.table, call.topk, maxToken, call.reqId);
    assert o.missSlots[..o.missCount] == Assigned(p);
    if j < o.missCount {
      var q := p.misses[j];
      MissSource(r.lru, r.table, call.topk, maxToken, j);
      AnswerOf(r.lru, r.table, call.topk, maxToken, call.reqId, q);
      PlanDistinct(r.lru, r.table, call.topk, maxToken);
      assert o.current[q] == p.evictable[j];
    }
  }

  /** Two positions never share a slot, not even when they ask for the same token. */
  lemma AnswersAreDistinct(call: Call, row: Row, maxToken: int, a: nat, b: nat)
    requires Usable(call, row) && a < b < |call.topk|
    ensures var c := Step(call, row, maxToken).current; c[a] == INVALID || c[a] != c[b]
  {
    PreparedOk(call, row, maxToken);
    var r, p := Prepared(call, row, maxToken), PlanOf(call, row, maxToken);
    var c := Step(call, row, maxToken).current;
    PlanDistinct(r.lru, r.table, call.topk, maxToken);
    AnswerOf(r.lru, r.table, call.topk, maxToken, call.reqId, a);
    AnswerOf(r.lru, r.table, call.topk, maxToken, call.reqId, b);
    if c[a] == c[b] && c[a] != INVALID {
      if p.current[a] >= 0 { HitAnswer(r.lru, r.table, call.topk, maxToken, a); }
      if p.current[b] >= 0 { HitAnswer(r.lru, r.table, call.topk, maxToken, b); }
      AnswersAreRight(call, row, maxToken, a);
    }
  }

  /** No hit is served for a token at or past the stable prefix, and a slot that served a
      hit is not reassigned. */
  lemma HitsAreStable(call: Call, row: Row, maxToken: int, pos: nat)
    requires Usable(call, row) && pos < |call.topk| && PlanOf(call, row, maxToken).current[pos] >= 0
    ensures 0 <= call.topk[pos] < maxToken && call.topk[pos] < call.prefix
    ensures PlanOf(call, row, maxToken).current[pos] !in Assigned(PlanOf(call, row, maxToken))
    ensures row.lastReq == call.reqId && row.table[PlanOf(call, row, maxToken).current[pos]] == call.topk[pos]
  {
    var r := Prepared(call, row, maxToken);
    HitAnswer(r.lru, r.table, call.topk, maxToken, pos);
    PlanDistinct(r.lru, r.table, call.topk, maxToken);
  }

  // ---- counting

  /** An injection from flagged to flagged places bounds their number. */
  lemma {:induction false} InjectionBound(h: seq<bool>, f: seq<bool>, at: seq<int>)
    requires |h| == |at|
    requires forall i :: 0 <= i < |h| && h[i] ==> 0 <= at[i] < |f| && f[at[i]]
    requires forall i, j :: 0 <= i < j < |h| && h[i] && h[j] ==> at[i] != at[j]
    ensures Rank(h, |h|) <= Rank(f, |f|)
  {
    var marked := Below(f, |f|);
    var used := set i | 0 <= i < |h| && h[i] :: at[i];
    RankIsCardinality(f, |f|);
    UsedCardinality(h, at, |h|);
    assert used == Images(h, at, |h|);
    assert used <= marked;
    SubsetSize(used, marked);
  }

  ghost function Below(f: seq<bool>, n: nat): set<int>
    requires n <= |f|
  {
    set i | 0 <= i < n && f[i]
  }

  ghost function Images(h: seq<bool>, at: seq<int>, n: nat): set<int>
    requires n <= |h| == |at|
  {
    set i | 0 <= i < n && h[i] :: at[i]
  }

  lemma {:induction false} RankIsCardinality(f: seq<bool>, n: nat)
    requires n <= |f|
    ensures |Below(f, n)| == Rank(f, n)
  {
    if n == 0 {
    } else {
      RankIsCardinality(f, n - 1);
      assert Below(f, n) == Below(f, n - 1) + if f[n - 1] then {n - 1} else {};
    }
  }

  lemma {:induction false} UsedCardinality(h: seq<bool>, at: seq<int>, n: nat)
    requires n <= |h| == |at|
    requires forall i, j :: 0 <= i < j < n && h[i] && h[j] ==> at[i] != at[j]
    ensures |Images(h, at, n)| == Rank(h, n)
  {
    if n == 0 {
    } else {
      UsedCardinality(h, at, n - 1);
      if h[n - 1] {
        assert at[n - 1] !in Images(h, at, n - 1);
        assert Images(h, at, n) == Images(h, at, n - 1) + {at[n - 1]};
      } else {
        assert Images(h, at, n) == Images(h, at, n - 1);
      }
    }
  }

  lemma SubsetSize(a: set<int>, b: set<int>)
    requires a <= b
    ensures |a| <= |b|
  {
    assert b == a + (b - a);
  }

  /** With injective residency, hit slots and misses together fit in the Top-K:
      each hit slot accounts for one resolved position. */
  lemma UsedFitsTopk(lru: seq<int>, table: seq<int>, topk: seq<int>, maxToken: int)
    requires DistinctSlots(lru, |table|) && Injective(table, maxToken)
    ensures var p := MakePlan(lru, table, topk, maxToken); |p.hits| + |p.misses| <= |topk|
  {
    var p := MakePlan(lru, table, topk, maxToken);
    var h, m := HitFlags(lru, table, topk, maxToken), MissFlags(topk, p.current, maxToken);
    var f := seq(|topk|, q requires 0 <= q < |topk| => p.current[q] >= 0);
    var at := seq(|lru|, i requires 0 <= i < |lru| =>
      if IsSlot(lru[i], |table|) then First(topk, table[lru[i]], |topk|) else 0);
    forall i | 0 <= i < |lru| && h[i] ensures 0 <= at[i] < |f| && f[at[i]] {
      HitIsServed(lru, table, topk, maxToken, i);
    }
    forall i, j | 0 <= i < j < |h| && h[i] && h[j] ensures at[i] != at[j] {
      var ti, tj := table[lru[i]], table[lru[j]];
      assert lru[i] != lru[j];
      assert ti != tj by { if lru[i] < lru[j] { assert ti != tj; } else { assert tj != ti; } }
      HitIsServed(lru, table, topk, maxToken, i);
      HitIsServed(lru, table, topk, maxToken, j);
    }
    InjectionBound(h, f, at);
    RankDisjoint(m, f, |topk|);
  }

  /** A hit slot's token is served at its first requesting position. */
  lemma HitIsServed(lru: seq<int>, table: seq<int>, topk: seq<int>, maxToken: int, i: nat)
    requires i < |lru| && IsSlot(lru[i], |table|) && IsHit(table, topk, maxToken, lru[i])
    ensures var q := First(topk, table[lru[i]], |topk|);
      q < |topk| && topk[q] == table[lru[i]] && MakePlan(lru, table, topk, maxToken).current[q] >= 0
  {
    var token := table[lru[i]];
    var q := First(topk, token, |topk|);
    var k :| 0 <= k < |topk| && topk[k] == token;
    assert Holder(lru, table, token, |lru|) != INVALID;
  }

  /** On a permutation every slot is either evictable or hit. */
  lemma PermutationSplits(lru: seq<int>, table: seq<int>, topk: seq<int>, maxToken: int)
    requires IsPermutation(lru, |table|)
    ensures var p := MakePlan(lru, table, topk, maxToken); |p.evictable| + |p.hits| == |table|
  {
    RankDisjoint(EvictFlags(lru, table, topk, maxToken), HitFlags(lru, table, topk, maxToken), |lru|);
  }

  /** A list of capacity distinct slots misses none. */
  lemma PermutationCovers(lru: seq<int>, capacity: nat, s: int)
    requires IsPermutation(lru, capacity) && IsSlot(s, capacity)
    ensures s in lru
  {
    if s !in lru {
      var h := seq(capacity, _ => true);
      AllTrue(h, capacity);
      RankIsCardinality(h, capacity);
      UsedCardinality(h, lru, capacity);
      var all := Below(h, capacity);
      assert Images(h, lru, capacity) <= all - {s};
      SubsetSize(Images(h, lru, capacity), all - {s});
    }
  }

  lemma {:induction false} AllTrue(h: seq<bool>, n: nat)
    requires n <= |h| && forall i :: 0 <= i < n ==> h[i]
    ensures Rank(h, n) == n
  {
    if n == 0 {
    } else {
      AllTrue(h, n - 1);
    }
  }

  lemma ResetIsPermutation(capacity: nat, reqId: int)
    ensures var r := ResetRow(capacity, reqId); RowOk(r) && IsPermutation(r.lru, capacity)
  {
  }

  /** What a caller relies on: a permutation and an injective table, with room for the Top-K. */
  ghost predicate Sound(row: Row, maxToken: int) {
    IsPermutation(row.lru, |row.table|) && Injective(row.table, maxToken)
  }

  lemma PreparedSound(call: Call, row: Row, maxToken: int)
    requires Sound(row, maxToken)
    ensures Sound(Prepared(call, row, maxToken), maxToken)
  {
  }

  /** From a sound row with room for the Top-K, every miss gets a slot, so every
      valid requested position is resolved (duplicates included). */
  lemma EverythingResolved(call: Call, row: Row, maxToken: int)
    requires Sound(row, maxToken) && |call.topk| <= |row.table|
    ensures var p := PlanOf(call, row, maxToken); AssignCount(p) == |p.misses|
    ensures forall pos :: 0 <= pos < |call.topk| ==>
      (Step(call, row, maxToken).current[pos] >= 0 <==> IsToken(call.topk[pos], maxToken))
  {
    var r, p := Prepared(call, row, maxToken), PlanOf(call, row, maxToken);
    PreparedSound(call, row, maxToken);
    PreparedOk(call, row, maxToken);
    UsedFitsTopk(r.lru, r.table, call.topk, maxToken);
    PermutationSplits(r.lru, r.table, call.topk, maxToken);
    forall pos | 0 <= pos < |call.topk|
      ensures Step(call, row, maxToken).current[pos] >= 0 <==> IsToken(call.topk[pos], maxToken)
    {
      AnswerOf(r.lru, r.table, call.topk, maxToken, call.reqId, pos);
      AnswersAreRight(call, row, maxToken, pos);
      if IsToken(call.topk[pos], maxToken) && p.current[pos] < 0 {
        var j := MissIndex(r.lru, r.table, call.topk, maxToken, pos);
      }
    }
  }

  /** No double residency after the step exactly when no valid token was requested
      twice: a duplicate position is an independent miss and gets its own slot. */
  lemma ResidencyStaysInjective(call: Call, row: Row, maxToken: int)
    requires Sound(row, maxToken) && |call.topk| <= |row.table|
    ensures Injective(Step(call, row, maxToken).row.table, maxToken) <==> DuplicateFree(call.topk, maxToken)
  {
    var t := Step(call, row, maxToken).row.table;
    if DuplicateFree(call.topk, maxToken) {
      forall a, b | 0 <= a < b < |t| && IsToken(t[a], maxToken) ensures t[a] != t[b] {
        if t[a] == t[b] { NoSharedToken(call, row, maxToken, a, b); }
      }
    }
    if Injective(t, maxToken) {
      forall p, q | 0 <= p < q < |call.topk| && IsToken(call.topk[p], maxToken) ensures call.topk[p] != call.topk[q] {
        if call.topk[p] == call.topk[q] { DuplicateTakesTwoSlots(call, row, maxToken, p, q); }
      }
    }
  }

  lemma DuplicateTakesTwoSlots(call: Call, row: Row, maxToken: int, p: nat, q: nat)
    requires Sound(row, maxToken) && |call.topk| <= |row.table|
    requires p < q < |call.topk| && IsToken(call.topk[p], maxToken) && call.topk[p] == call.topk[q]
    ensures !Injective(Step(call, row, maxToken).row.table, maxToken)
  {
    EverythingResolved(call, row, maxToken);
    AnswersAreRight(call, row, maxToken, p);
    AnswersAreRight(call, row, maxToken, q);
    AnswersAreDistinct(call, row, maxToken, p, q);
    var o := Step(call, row, maxToken);
    var a, b := o.current[p], o.current[q];
    assert o.row.table[a] == o.row.table[b];
    if a < b { assert o.row.table[a] == o.row.table[b]; } else { assert o.row.table[b] == o.row.table[a]; }
  }

  lemma NoSharedToken(call: Call, row: Row, maxToken: int, a: nat, b: nat)
    requires Sound(row, maxToken) && |call.topk| <= |row.table| && DuplicateFree(call.topk, maxToken)
    requires a != b && a < |row.table| && b < |row.table|
    requires IsToken(Step(call, row, maxToken).row.table[a], maxToken)
    ensures Step(call, row, maxToken).row.table[a] != Step(call, row, maxToken).row.table[b]
  {
    hide MakePlan, Step, Execute, Prepared, PlanOk;
    var r, p := Prepared(call, row, maxToken), PlanOf(call, row, maxToken);
    var t := Step(call, row, maxToken).row.table;
    PreparedSound(call, row, maxToken);
    PreparedOk(call, row, maxToken);
    TableAfter(r.lru, r.table, call.topk, maxToken, call.reqId);
    PlanDistinct(r.lru, r.table, call.topk, maxToken);
    if a in Assigned(p) {
      var j :| 0 <= j < AssignCount(p) && p.evictable[j] == a;
      MissSource(r.lru, r.table, call.topk, maxToken, j);
      if b in Assigned(p) {
        var k :| 0 <= k < AssignCount(p) && p.evictable[k] == b;
        MissSource(r.lru, r.table, call.topk, maxToken, k);
        assert p.misses[j] != p.misses[k];
      } else {
        MissedTokenNotResident(r.lru, r.table, call.topk, maxToken, j, b);
      }
    } else if b in Assigned(p) {
      var k :| 0 <= k < AssignCount(p) && p.evictable[k] == b;
      MissedTokenNotResident(r.lru, r.table, call.topk, maxToken, k, a);
    }
  }

  lemma MissedTokenNotResident(lru: seq<int>, table: seq<int>, topk: seq<int>, maxToken: int, j: nat, s: nat)
    requires IsPermutation(lru, |table|) && DuplicateFree(topk, maxToken) && s < |table|
    requires j < |MakePlan(lru, table, topk, maxToken).misses|
    requires PlanOk(MakePlan(lru, table, topk, maxToken), |topk|, |table|)
    ensures table[s] != topk[MakePlan(lru, table, topk, maxToken).misses[j]]
  {
    MissSource(lru, table, topk, maxToken, j);
    var pos := MakePlan(lru, table, topk, maxToken).misses[j];
    PermutationCovers(lru, |table|, s);
    var i :| 0 <= i < |lru| && lru[i] == s;
    assert First(topk, topk[pos], |topk|) == pos;
  }

  /** The rebuilt LRU row is again a permutation. */
  lemma StaysPermutation(call: Call, row: Row, maxToken: int)
    requires IsPermutation(row.lru, |row.table|)
    ensures IsPermutation(Step(call, row, maxToken).row.lru, |row.table|)
  {
    var r, p := Prepared(call, row, maxToken), PlanOf(call, row, maxToken);
    PreparedOk(call, row, maxToken);
    PermutationSplits(r.lru, r.table, call.topk, maxToken);
    PlanDistinct(r.lru, r.table, call.topk, maxToken);
    RebuiltPermutation(p, |row.table|);
  }

  /** Survivors, assigned and hit slots that split the slots make up a permutation. */
  lemma RebuiltPermutation(p: Plan, capacity: nat)
    requires |p.evictable| + |p.hits| == capacity && Distinct(p.evictable) && Distinct(p.hits)
    requires forall s :: s in p.evictable ==> s !in p.hits && IsSlot(s, capacity)
    requires forall s :: s in p.hits ==> IsSlot(s, capacity)
    ensures IsPermutation(Rebuilt(p, capacity), capacity)
  {
    var n := AssignCount(p);
    var x := p.evictable[n..] + p.evictable[..n];
    assert Rebuilt(p, capacity) == x + p.hits;
    forall i | 0 <= i < |x| ensures x[i] !in p.hits {
      assert x[i] == p.evictable[if i < |p.evictable| - n then i + n else i - (|p.evictable| - n)];
    }
    RotationDistinct(p.evictable, n);
    ConcatDistinct(x, p.hits);
  }

  lemma RotationDistinct(s: seq<int>, n: nat)
    requires n <= |s| && Distinct(s)
    ensures Distinct(s[n..] + s[..n])
  {
    var x, m := s[n..] + s[..n], |s| - n;
    forall i, j | 0 <= i < j < |x| ensures x[i] != x[j] {
      assert x[i] == s[if i < m then i + n else i - m];
      assert x[j] == s[if j < m then j + n else j - m];
    }
  }

  lemma ConcatDistinct(a: seq<int>, b: seq<int>)
    requires Distinct(a) && Distinct(b) && forall i :: 0 <= i < |a| ==> a[i] !in b
    ensures Distinct(a + b)
  {
  }

  /** Soundness is kept by duplicate-free calls. */
  lemma StaysSound(call: Call, row: Row, maxToken: int)
    requires Sound(row, maxToken) && |call.topk| <= |row.table| && DuplicateFree(call.topk, maxToken)
    ensures Sound(Step(call, row, maxToken).row, maxToken)
    ensures |Step(call, row, maxToken).row.table| == |row.table|
  {
    StaysPermutation(call, row, maxToken);
    ResidencyStaysInjective(call, row, maxToken);
  }
}
