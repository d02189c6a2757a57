/** Whole runs of the resident LRU step: what holds after any sequence of calls. */
module LruRuns {
  import opened Compaction
  import opened LruSpec
  import opened LruFacts

  /** The row as call i finds it. */
  function RowAt(row: Row, calls: seq<Call>, maxToken: int, i: nat): (r: Row)
    requires |row.lru| == |row.table| && i <= |calls|
    ensures |r.lru| == |r.table| == |row.table|
  {
    if i == 0 then row else Step(calls[i - 1], RowAt(row, calls, maxToken, i - 1), maxToken).row
  }

  function PlanAt(row: Row, calls: seq<Call>, maxToken: int, i: nat): Plan
    requires |row.lru| == |row.table| && i < |calls|
  {
    PlanOf(calls[i], RowAt(row, calls, maxToken, i), maxToken)
  }

  /** A slot is used by a call that hits it or assigns it. */
  predicate Used(p: Plan, s: int) { s in Assigned(p) || s in p.hits }

  predicate Resets(row: Row, calls: seq<Call>, maxToken: int, i: nat)
    requires |row.lru| == |row.table| && i < |calls|
  {
    RowAt(row, calls, maxToken, i).lastReq != calls[i].reqId
  }

  /** The last call before i that used the slot, -1 if none did since the last reset. */
  function LastUse(row: Row, calls: seq<Call>, maxToken: int, i: nat, s: int): (t: int)
    requires |row.lru| == |row.table| && i <= |calls|
    ensures -1 <= t < i
    decreases i, 0
  {
    if i == 0 then -1
    else if Used(PlanAt(row, calls, maxToken, i - 1), s) then i - 1
    else LastUseSeen(row, calls, maxToken, i - 1, s)
  }

  /** The last use as call i plans on it: a reset forgets all uses. */
  function LastUseSeen(row: Row, calls: seq<Call>, maxToken: int, i: nat, s: int): (t: int)
    requires |row.lru| == |row.table| && i < |calls|
    ensures -1 <= t < i
    decreases i, 1
  {
    if Resets(row, calls, maxToken, i) then -1 else LastUse(row, calls, maxToken, i, s)
  }

  ghost predicate SortedByUse(row: Row, calls: seq<Call>, maxToken: int, i: nat)
    requires |row.lru| == |row.table| && i <= |calls|
  {
    var lru := RowAt(row, calls, maxToken, i).lru;
    forall a, b :: 0 <= a < b < |lru| ==>
      LastUse(row, calls, maxToken, i, lru[a]) <= LastUse(row, calls, maxToken, i, lru[b])
  }

  // ---- a reset starts a clean history

  /** A call for another request behaves as on a freshly reset row, whatever the
      row held before, even an LRU row that is no permutation. */
  lemma ResetErasesHistory(call: Call, row: Row, maxToken: int)
    requires |row.lru| == |row.table| && row.lastReq != call.reqId
    ensures Step(call, row, maxToken) == Step(call, ResetRow(|row.table|, call.reqId), maxToken)
    ensures Sound(ResetRow(|row.table|, call.reqId), maxToken)
  {
  }

  // ---- permutation and soundness in every run

  /** The row call i works on: the one it finds, or a reset one. */
  function Basis(row: Row, calls: seq<Call>, maxToken: int, i: nat): (r: Row)
    requires |row.lru| == |row.table| && i < |calls|
    ensures |r.lru| == |r.table| == |row.table|
  {
    if Resets(row, calls, maxToken, i) then ResetRow(|row.table|, calls[i].reqId) else RowAt(row, calls, maxToken, i)
  }

  lemma BasisIsEnough(row: Row, calls: seq<Call>, maxToken: int, i: nat)
    requires |row.lru| == |row.table| && i < |calls|
    ensures PlanAt(row, calls, maxToken, i) == PlanOf(calls[i], Basis(row, calls, maxToken, i), maxToken)
    ensures RowAt(row, calls, maxToken, i + 1) == Step(calls[i], Basis(row, calls, maxToken, i), maxToken).row
    ensures Step(calls[i], RowAt(row, calls, maxToken, i), maxToken) == Step(calls[i], Basis(row, calls, maxToken, i),
      maxToken)
  {
    hide MakePlan, Execute;
    var found := RowAt(row, calls, maxToken, i);
    if Resets(row, calls, maxToken, i) { ResetErasesHistory(calls[i], found, maxToken); }
  }

  /** A run may start on any row that its first call resets, and on any permutation. */
  ghost predicate Begins(row: Row, calls: seq<Call>) {
    |row.lru| == |row.table| && (IsPermutation(row.lru, |row.table|) || (calls != [] && row.lastReq != calls[0].reqId))
  }

  /** In every run the LRU row stays a permutation, and every call works on one. */
  lemma {:induction false} AlwaysPermutation(row: Row, calls: seq<Call>, maxToken: int, i: nat)
    requires Begins(row, calls) && i <= |calls|
    ensures i > 0 || IsPermutation(row.lru, |row.table|) ==>
      IsPermutation(RowAt(row, calls, maxToken, i).lru, |row.table|)
    ensures i < |calls| ==> IsPermutation(Basis(row, calls, maxToken, i).lru, |row.table|)
  {
    hide Step;
    if i < |calls| { ResetIsPermutation(|row.table|, calls[i].reqId); }
    if i == 0 {
    } else {
      AlwaysPermutation(row, calls, maxToken, i - 1);
      BasisIsEnough(row, calls, maxToken, i - 1);
      StaysPermutation(calls[i - 1], Basis(row, calls, maxToken, i - 1), maxToken);
    }
  }

  /** From the first call that resets the row on, the LRU row is a permutation, whatever the
      row held before. */
  lemma {:induction false} PermutationSinceReset(row: Row, calls: seq<Call>, maxToken: int, i: nat, j: nat)
    requires |row.lru| == |row.table| && i < j <= |calls| && Resets(row, calls, maxToken, i)
    ensures IsPermutation(RowAt(row, calls, maxToken, j).lru, |row.table|)
  {
    hide Step, IsPermutation;
    var found := RowAt(row, calls, maxToken, j - 1);
    if j == i + 1 {
      ResetErasesHistory(calls[i], found, maxToken);
      StaysPermutation(calls[i], ResetRow(|row.table|, calls[i].reqId), maxToken);
    } else {
      PermutationSinceReset(row, calls, maxToken, i, j - 1);
      StaysPermutation(calls[j - 1], found, maxToken);
    }
  }

  /** The calls a caller may make on a row of this capacity without double residency. */
  ghost predicate GoodCalls(calls: seq<Call>, topk: nat, maxToken: int) {
    forall i :: 0 <= i < |calls| ==> |calls[i].topk| == topk && DuplicateFree(calls[i].topk, maxToken)
  }

  /** Such a run may start on any row that its first call resets, and on any sound row. */
  ghost predicate BeginsSound(row: Row, calls: seq<Call>, maxToken: int) {
    |row.lru| == |row.table| && (Sound(row, maxToken) || (calls != [] && row.lastReq != calls[0].reqId))
  }

  lemma {:induction false} AlwaysSound(row: Row, calls: seq<Call>, maxToken: int, topk: nat, i: nat)
    requires BeginsSound(row, calls, maxToken) && GoodCalls(calls, topk, maxToken) && topk <= |row.table|
    requires i <= |calls|
    ensures i > 0 || Sound(row, maxToken) ==> Sound(RowAt(row, calls, maxToken, i), maxToken)
    ensures i < |calls| ==> Sound(Basis(row, calls, maxToken, i), maxToken)
  {
    hide Step;
    if i < |calls| { ResetIsSound(|row.table|, calls[i].reqId, maxToken); }
    if i == 0 {
    } else {
      AlwaysSound(row, calls, maxToken, topk, i - 1);
      BasisIsEnough(row, calls, maxToken, i - 1);
      StaysSound(calls[i - 1], Basis(row, calls, maxToken, i - 1), maxToken);
    }
  }

  lemma ResetIsSound(capacity: nat, reqId: int, maxToken: int)
    ensures Sound(ResetRow(capacity, reqId), maxToken)
  {
    ResetIsPermutation(capacity, reqId);
  }

  /** In every call of every duplicate-free run, every valid requested token is
      resident in exactly the slot the call answers with. */
  lemma AlwaysAnswered(row: Row, calls: seq<Call>, maxToken: int, topk: nat, i: nat, pos: nat, s: nat)
    requires BeginsSound(row, calls, maxToken) && GoodCalls(calls, topk, maxToken) && topk <= |row.table|
    requires i < |calls| && pos < topk && IsToken(calls[i].topk[pos], maxToken) && s < |row.table|
    ensures var o := Step(calls[i], RowAt(row, calls, maxToken, i), maxToken);
      o.current[pos] == s <==> o.row.table[s] == calls[i].topk[pos]
  {
    hide Step;
    var r := Basis(row, calls, maxToken, i);
    BasisIsEnough(row, calls, maxToken, i);
    AlwaysSound(row, calls, maxToken, topk, i);
    StaysSound(calls[i], r, maxToken);
    EverythingResolved(calls[i], r, maxToken);
    AnswersAreRight(calls[i], r, maxToken, pos);
  }

  // ---- the LRU row is sorted by last use

  /** On a permutation the rebuilt row is survivors, assigned, hits with no padding. */
  lemma RebuiltLayout(call: Call, row: Row, maxToken: int)
    requires IsPermutation(row.lru, |row.table|)
    ensures var p := PlanOf(call, row, maxToken);
      Step(call, row, maxToken).row.lru == p.evictable[AssignCount(p)..] + Assigned(p) + p.hits
    ensures var p := PlanOf(call, row, maxToken); |p.evictable| + |p.hits| == |row.table|
  {
    var r := Prepared(call, row, maxToken);
    ResetIsPermutation(|row.table|, call.reqId);
    PreparedOk(call, row, maxToken);
    PermutationSplits(r.lru, r.table, call.topk, maxToken);
  }

  /** In every run the LRU row is ordered by the last call that used each slot. */
  lemma {:induction false} AlwaysSortedByUse(row: Row, calls: seq<Call>, maxToken: int, i: nat)
    requires Begins(row, calls) && i <= |calls|
    ensures SortedByUse(row, calls, maxToken, i)
  {
    hide PlanAt, Step;
    if i == 0 {
    } else {
      AlwaysSortedByUse(row, calls, maxToken, i - 1);
      var lru := RowAt(row, calls, maxToken, i).lru;
      forall a, b | 0 <= a < b < |lru|
        ensures LastUse(row, calls, maxToken, i, lru[a]) <= LastUse(row, calls, maxToken, i, lru[b])
      {
        PairSorted(row, calls, maxToken, i - 1, a, b);
      }
    }
  }

  lemma PairSorted(row: Row, calls: seq<Call>, maxToken: int, i: nat, a: nat, b: nat)
    requires Begins(row, calls) && i < |calls| && SortedByUse(row, calls, maxToken, i)
    requires a < b < |row.table|
    ensures var lru := RowAt(row, calls, maxToken, i + 1).lru;
      LastUse(row, calls, maxToken, i + 1, lru[a]) <= LastUse(row, calls, maxToken, i + 1, lru[b])
  {
    hide MakePlan, Execute, Prepared, PlanOf, Step;
    var p := PlanAt(row, calls, maxToken, i);
    AlwaysPermutation(row, calls, maxToken, i);
    BasisIsEnough(row, calls, maxToken, i);
    RebuiltLayout(calls[i], Basis(row, calls, maxToken, i), maxToken);
    var survivors, lru := p.evictable[AssignCount(p)..], RowAt(row, calls, maxToken, i + 1).lru;
    if b < |survivors| {
      assert lru[a] == survivors[a] && lru[b] == survivors[b];
      SurvivorsOrdered(row, calls, maxToken, i, a + AssignCount(p), b + AssignCount(p));
    } else {
      InTail(survivors, Assigned(p), p.hits, b);
    }
  }

  lemma InTail(x: seq<int>, y: seq<int>, z: seq<int>, b: nat)
    requires |x| <= b < |x| + |y| + |z|
    ensures (x + y + z)[b] in y || (x + y + z)[b] in z
  {
    if b < |x| + |y| { assert (x + y + z)[b] == y[b - |x|]; } else { assert (x + y + z)[b] == z[b - |x| - |y|]; }
  }

  lemma TailIndex(x: seq<int>, y: seq<int>, z: seq<int>, s: int) returns (b: nat)
    requires s in y || s in z
    ensures |x| <= b < |x| + |y| + |z| && (x + y + z)[b] == s
  {
    if s in y {
      var k :| 0 <= k < |y| && y[k] == s;
      b := |x| + k;
    } else {
      var k :| 0 <= k < |z| && z[k] == s;
      b := |x| + |y| + k;
    }
  }

  /** Survivors are unused in the call and were ordered by last use before it. */
  lemma SurvivorsOrdered(row: Row, calls: seq<Call>, maxToken: int, i: nat, a: nat, b: nat)
    requires Begins(row, calls) && i < |calls| && SortedByUse(row, calls, maxToken, i)
    requires a < b < |PlanAt(row, calls, maxToken, i).evictable|
    ensures var p := PlanAt(row, calls, maxToken, i);
      LastUseSeen(row, calls, maxToken, i, p.evictable[a]) <= LastUseSeen(row, calls, maxToken, i, p.evictable[b])
    ensures var p := PlanAt(row, calls, maxToken, i);
      (a >= AssignCount(p) ==> !Used(p, p.evictable[a])) && (b >= AssignCount(p) ==> !Used(p, p.evictable[b]))
  {
    hide Execute, Step, LastUse, Rebuilt, HitFlags;
    AlwaysPermutation(row, calls, maxToken, i);
    BasisIsEnough(row, calls, maxToken, i);
    var found, p := Basis(row, calls, maxToken, i), PlanAt(row, calls, maxToken, i);
    var r := Prepared(calls[i], found, maxToken);
    PreparedOk(calls[i], found, maxToken);
    PlanDistinct(r.lru, r.table, calls[i].topk, maxToken);
    var x, y := SelectOrder(r.lru, EvictFlags(r.lru, r.table, calls[i].topk, maxToken), a, b);
  }

  /** Eviction is least recently used: an assigned slot was last used no later than
      any slot that was neither hit nor assigned. */
  lemma EvictsLeastRecentlyUsed(row: Row, calls: seq<Call>, maxToken: int, i: nat, victim: int, spared: int)
    requires Begins(row, calls) && i < |calls|
    requires victim in Assigned(PlanAt(row, calls, maxToken, i))
    requires IsSlot(spared, |row.table|) && !Used(PlanAt(row, calls, maxToken, i), spared)
    ensures LastUseSeen(row, calls, maxToken, i, victim) <= LastUseSeen(row, calls, maxToken, i, spared)
  {
    AlwaysSortedByUse(row, calls, maxToken, i);
    AlwaysPermutation(row, calls, maxToken, i);
    BasisIsEnough(row, calls, maxToken, i);
    var r, p := Prepared(calls[i], Basis(row, calls, maxToken, i), maxToken), PlanAt(row, calls, maxToken, i);
    var a :| 0 <= a < AssignCount(p) && p.evictable[a] == victim;
    var b := EvictableIndex(r.lru, r.table, calls[i].topk, maxToken, spared);
    SurvivorsOrdered(row, calls, maxToken, i, a, b);
  }

  /** On a permutation a slot that is not hit is evictable. */
  lemma EvictableIndex(lru: seq<int>, table: seq<int>, topk: seq<int>, maxToken: int, s: int) returns (j: nat)
    requires IsPermutation(lru, |table|) && IsSlot(s, |table|) && s !in MakePlan(lru, table, topk, maxToken).hits
    ensures j < |MakePlan(lru, table, topk, maxToken).evictable|
    ensures MakePlan(lru, table, topk, maxToken).evictable[j] == s
    ensures exists i :: 0 <= i < |lru| && lru[i] == s && j + Rank(HitFlags(lru, table, topk, maxToken), i) == i
  {
    var e, h := EvictFlags(lru, table, topk, maxToken), HitFlags(lru, table, topk, maxToken);
    PermutationCovers(lru, |table|, s);
    var i :| 0 <= i < |lru| && lru[i] == s;
    SelectMembers(lru, h, s);
    SelectAt(lru, e, |lru|, i);
    RankDisjoint(e, h, i);
    j := Rank(e, i);
  }

  // ---- residency window

  ghost predicate AtOrAfter(lru: seq<int>, s: int, x: int) {
    exists i :: x <= i < |lru| && 0 <= i && lru[i] == s
  }

  /** One call moves an unused slot down by at most topk places, puts a used slot
      in the last topk places, and takes its victims from the first topk places. */
  lemma StepMovesSlot(call: Call, row: Row, maxToken: int, s: int, x: int)
    requires Sound(row, maxToken) && |call.topk| <= |row.table| && row.lastReq == call.reqId
    requires AtOrAfter(row.lru, s, x)
    ensures x >= |call.topk| ==> s !in Assigned(PlanOf(call, row, maxToken))
    ensures !Used(PlanOf(call, row, maxToken), s) ==> AtOrAfter(Step(call, row, maxToken).row.lru, s, x - |call.topk|)
  {
    var r, p := Prepared(call, row, maxToken), PlanOf(call, row, maxToken);
    PreparedSound(call, row, maxToken);
    assert r.lru == row.lru;
    UsedFitsTopk(r.lru, r.table, call.topk, maxToken);
    PlanDistinct(r.lru, r.table, call.topk, maxToken);
    if s !in p.hits {
      var j := EvictablePlace(r.lru, r.table, call.topk, maxToken, s, x);
      if j >= AssignCount(p) {
        RebuiltLayout(call, row, maxToken);
        var survivors := p.evictable[AssignCount(p)..];
        assert survivors[j - AssignCount(p)] == s;
        assert (survivors + Assigned(p) + p.hits)[j - AssignCount(p)] == s;
      }
    }
  }

  /** At place x or later of the row, at place x - |hits| or later of the evictable slots. */
  lemma EvictablePlace(lru: seq<int>, table: seq<int>, topk: seq<int>, maxToken: int, s: int, x: int) returns (j: nat)
    requires IsPermutation(lru, |table|) && AtOrAfter(lru, s, x) && s !in MakePlan(lru, table, topk, maxToken).hits
    ensures var p := MakePlan(lru, table, topk, maxToken);
      j < |p.evictable| && p.evictable[j] == s && j >= x - |p.hits| && (s in Assigned(p) <==> j < AssignCount(p))
  {
    var h := HitFlags(lru, table, topk, maxToken);
    j := EvictableIndex(lru, table, topk, maxToken, s);
    var i :| 0 <= i < |lru| && lru[i] == s && j + Rank(h, i) == i;
    RankMonotone(h, i, |lru|);
    SelectDistinct(lru, EvictFlags(lru, table, topk, maxToken));
  }

  lemma UsedIsYoung(call: Call, row: Row, maxToken: int, s: int)
    requires Sound(row, maxToken) && |call.topk| <= |row.table|
    requires Used(PlanOf(call, row, maxToken), s)
    ensures AtOrAfter(Step(call, row, maxToken).row.lru, s, |row.table| - |call.topk|)
  {
    var r, p := Prepared(call, row, maxToken), PlanOf(call, row, maxToken);
    PreparedSound(call, row, maxToken);
    UsedFitsTopk(r.lru, r.table, call.topk, maxToken);
    RebuiltLayout(call, row, maxToken);
    var b := TailIndex(p.evictable[AssignCount(p)..], Assigned(p), p.hits, s);
  }

  /** How young a slot used in call t still is before call t + j. */
  lemma {:induction false} StaysYoung(row: Row, calls: seq<Call>, maxToken: int, topk: nat, t: nat, j: nat, s: int)
    requires BeginsSound(row, calls, maxToken) && GoodCalls(calls, topk, maxToken) && topk <= |row.table|
    requires 1 <= j && t + j <= |calls| && Used(PlanAt(row, calls, maxToken, t), s)
    requires forall i :: t < i < t + j ==> calls[i].reqId == calls[t].reqId
    ensures AtOrAfter(RowAt(row, calls, maxToken, t + j).lru, s, |row.table| - Base(j, topk))
  {
    hide Step, MakePlan;
    var last := t + j - 1;
    var r := Basis(row, calls, maxToken, last);
    AlwaysSound(row, calls, maxToken, topk, last);
    BasisIsEnough(row, calls, maxToken, last);
    BaseMonotone(1, j, topk);
    if Used(PlanAt(row, calls, maxToken, last), s) {
      UsedIsYoung(calls[last], r, maxToken, s);
      Later(RowAt(row, calls, maxToken, t + j).lru, s, |row.table| - topk, |row.table| - Base(j, topk));
    } else {
      StaysYoung(row, calls, maxToken, topk, t, j - 1, s);
      RemembersRequest(row, calls, maxToken, last - 1);
      StepMovesSlot(calls[last], r, maxToken, s, |row.table| - Base(j - 1, topk));
    }
  }

  lemma RemembersRequest(row: Row, calls: seq<Call>, maxToken: int, i: nat)
    requires |row.lru| == |row.table| && i < |calls|
    ensures RowAt(row, calls, maxToken, i + 1).lastReq == calls[i].reqId
  {
    StepRemembers(calls[i], RowAt(row, calls, maxToken, i), maxToken);
  }

  lemma Later(lru: seq<int>, s: int, x: int, y: int)
    requires AtOrAfter(lru, s, x) && y <= x
    ensures AtOrAfter(lru, s, y)
  {
  }

  /** Residency window: with (k + 1) * topk <= capacity, a slot used in a call is not
      reassigned by the next k calls of the same request. */
  lemma ResidencyWindow(row: Row, calls: seq<Call>, maxToken: int, topk: nat, t: nat, j: nat, k: nat, s: int)
    requires BeginsSound(row, calls, maxToken) && GoodCalls(calls, topk, maxToken) && (k + 1) * topk <= |row.table|
    requires 1 <= j <= k && t + j < |calls| && Used(PlanAt(row, calls, maxToken, t), s)
    requires forall i :: t < i <= t + j ==> calls[i].reqId == calls[t].reqId
    ensures s !in Assigned(PlanAt(row, calls, maxToken, t + j))
  {
    hide Step, MakePlan;
    BaseIsProduct(k + 1, topk);
    BaseMonotone(j + 1, k + 1, topk);
    StaysYoung(row, calls, maxToken, topk, t, j, s);
    AlwaysSound(row, calls, maxToken, topk, t + j);
    RemembersRequest(row, calls, maxToken, t + j - 1);
    StepMovesSlot(calls[t + j], RowAt(row, calls, maxToken, t + j), maxToken, s, |row.table| - Base(j, topk));
  }

  /** The production shape keeps what a call used through the next call. */
  lemma ProductionWindow(row: Row, calls: seq<Call>, maxToken: int, t: nat, s: int)
    requires BeginsSound(row, calls, maxToken) && |row.table| == 4096 && GoodCalls(calls, 2048, maxToken)
    requires t + 1 < |calls| && Used(PlanAt(row, calls, maxToken, t), s)
    requires calls[t + 1].reqId == calls[t].reqId
    ensures s !in Assigned(PlanAt(row, calls, maxToken, t + 1))
  {
    ResidencyWindow(row, calls, maxToken, 2048, t, 1, 1, s);
  }
}
