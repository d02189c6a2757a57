/** The resident LRU step told by its inputs alone: tokens, prefix, request ids and counts of
    positions and places. Nothing here refers to the plan or to the preparation of the row,
    and together the statements determine every cell that a call leaves behind. */
module LruMeaning {
  import opened Compaction
  import opened LruSpec
  import opened LruFacts

  /** Slot s keeps its token: same request, a valid token, below the stable prefix. */
  predicate Kept(call: Call, row: Row, maxToken: int, s: int) {
    && 0 <= s < |row.table| && row.lastReq == call.reqId
    && 0 <= row.table[s] < maxToken && row.table[s] < call.prefix
  }

  predicate Served(call: Call, row: Row, maxToken: int, s: int) {
    Kept(call, row, maxToken, s) && row.table[s] in call.topk
  }

  /** The slots from the oldest to the youngest; a change of request starts over. */
  function Place(call: Call, row: Row, i: nat): int
    requires i < |row.lru|
  {
    if row.lastReq == call.reqId then row.lru[i] else i
  }

  predicate Free(call: Call, row: Row, maxToken: int, i: nat)
    requires i < |row.lru|
  {
    0 <= Place(call, row, i) < |row.table| && !Served(call, row, maxToken, Place(call, row, i))
  }

  predicate Holds(call: Call, row: Row, maxToken: int, i: nat, token: int)
    requires i < |row.lru|
  {
    Kept(call, row, maxToken, Place(call, row, i)) && row.table[Place(call, row, i)] == token
  }

  /** Position p is the first to ask for its token, and some slot keeps that token. */
  ghost predicate Hit(call: Call, row: Row, maxToken: int, p: nat)
    requires p < |call.topk|
  {
    && (forall q :: 0 <= q < p ==> call.topk[q] != call.topk[p])
    && exists i: nat :: i < |row.lru| && Holds(call, row, maxToken, i, call.topk[p])
  }

  ghost predicate Missed(call: Call, row: Row, maxToken: int, p: nat)
    requires p < |call.topk|
  {
    0 <= call.topk[p] < maxToken && !Hit(call, row, maxToken, p)
  }

  // ---- counting

  ghost function FreeBefore(call: Call, row: Row, maxToken: int, n: nat): nat
    requires n <= |row.lru|
  {
    |set i: nat | i < n && Free(call, row, maxToken, i)|
  }

  ghost function ServedBefore(call: Call, row: Row, maxToken: int, n: nat): nat
    requires n <= |row.lru|
  {
    |set i: nat | i < n && Served(call, row, maxToken, Place(call, row, i))|
  }

  ghost function MissedBefore(call: Call, row: Row, maxToken: int, n: nat): nat
    requires n <= |call.topk|
  {
    |set p: nat | p < n && Missed(call, row, maxToken, p)|
  }

  lemma {:induction false} RankCounts(flags: seq<bool>, n: nat, counted: set<nat>)
    requires n <= |flags| && forall i: nat :: i in counted <==> i < n && flags[i]
    ensures Rank(flags, n) == |counted|
  {
    if n == 0 {
      assert counted == {};
    } else if flags[n - 1] {
      RankCounts(flags, n - 1, counted - {n - 1});
    } else {
      RankCounts(flags, n - 1, counted);
    }
  }

  // ---- the plan in these terms

  lemma PreparedIs(call: Call, row: Row, maxToken: int)
    requires |row.lru| == |row.table|
    ensures var r := Prepared(call, row, maxToken);
      && (forall i: nat :: i < |row.lru| ==> r.lru[i] == Place(call, row, i))
      && forall s: nat :: s < |row.table| ==> r.table[s] == TokenKept(call, row, maxToken, s)
  {
  }

  /** What the table says of slot s before anything is assigned. */
  function TokenKept(call: Call, row: Row, maxToken: int, s: nat): int
    requires s < |row.table|
  {
    if row.lastReq != call.reqId then -1
    else if 0 <= row.table[s] < maxToken && row.table[s] >= call.prefix then -1 else row.table[s]
  }

  lemma SlotFlags(call: Call, row: Row, maxToken: int, i: nat)
    requires |row.lru| == |row.table| && i < |row.lru|
    ensures var r := Prepared(call, row, maxToken);
      && EvictFlags(r.lru, r.table, call.topk, maxToken)[i] == Free(call, row, maxToken, i)
      && HitFlags(r.lru, r.table, call.topk, maxToken)[i] == Served(call, row, maxToken, Place(call, row, i))
  {
    hide Prepared;
    PreparedIs(call, row, maxToken);
  }

  lemma HitIs(call: Call, row: Row, maxToken: int, p: nat)
    requires |row.lru| == |row.table| && p < |call.topk|
    ensures var r := Prepared(call, row, maxToken);
      (HitAt(r.lru, r.table, call.topk, maxToken, p) >= 0 <==> Hit(call, row, maxToken, p)) &&
      (!Hit(call, row, maxToken, p) ==> HitAt(r.lru, r.table, call.topk, maxToken, p) == -1)
  {
    hide Prepared;
    PreparedIs(call, row, maxToken);
    var r, t := Prepared(call, row, maxToken), call.topk[p];
    if IsToken(t, maxToken) && First(call.topk, t, |call.topk|) == p {
      var s := Holder(r.lru, r.table, t, |r.lru|);
      if s != INVALID {
        assert s in r.lru by { assert r.lru[..|r.lru|] == r.lru; }
        var i: nat :| i < |r.lru| && r.lru[i] == s;
        assert Holds(call, row, maxToken, i, t);
      } else {
        forall i: nat | i < |row.lru| ensures !Holds(call, row, maxToken, i, t) {
          assert r.lru[i] == Place(call, row, i);
        }
      }
    }
  }

  lemma MissFlagIs(call: Call, row: Row, maxToken: int, p: nat)
    requires |row.lru| == |row.table| && p < |call.topk|
    ensures MissFlags(call.topk, PlanOf(call, row, maxToken).current, maxToken)[p] == Missed(call, row, maxToken, p)
  {
    hide Prepared, Hit;
    HitIs(call, row, maxToken, p);
  }

  lemma Counts(call: Call, row: Row, maxToken: int, i: nat, p: nat)
    requires |row.lru| == |row.table| && i <= |row.lru| && p <= |call.topk|
    ensures var r := Prepared(call, row, maxToken);
      && Rank(EvictFlags(r.lru, r.table, call.topk, maxToken), i) == FreeBefore(call, row, maxToken, i)
      && Rank(HitFlags(r.lru, r.table, call.topk, maxToken), i) == ServedBefore(call, row, maxToken, i)
      && Rank(MissFlags(call.topk, PlanOf(call, row, maxToken).current, maxToken), p) ==
         MissedBefore(call, row, maxToken, p)
  {
    hide Prepared, Rank, Free, Served, Missed, MissFlags, EvictFlags, HitFlags, HitCurrent;
    var r := Prepared(call, row, maxToken);
    forall k: nat | k < |row.lru| { SlotFlags(call, row, maxToken, k); }
    forall q: nat | q < |call.topk| { MissFlagIs(call, row, maxToken, q); }
    RankCounts(EvictFlags(r.lru, r.table, call.topk, maxToken), i,
               set k: nat | k < i && Free(call, row, maxToken, k));
    RankCounts(HitFlags(r.lru, r.table, call.topk, maxToken), i,
               set k: nat | k < i && Served(call, row, maxToken, Place(call, row, k)));
    RankCounts(MissFlags(call.topk, PlanOf(call, row, maxToken).current, maxToken), p,
               set q: nat | q < p && Missed(call, row, maxToken, q));
  }

  // ---- what a call leaves behind

  /** Of all slots that keep the token, place i is the youngest. */
  ghost predicate Youngest(call: Call, row: Row, maxToken: int, i: nat, token: int) {
    && i < |row.lru| && Holds(call, row, maxToken, i, token)
    && forall k: nat :: i < k < |row.lru| ==> !Holds(call, row, maxToken, k, token)
  }

  /** Misses take the free slots in order: as many misses before p as free slots before i. */
  ghost predicate GoesTo(call: Call, row: Row, maxToken: int, p: nat, i: nat) {
    && p < |call.topk| && i < |row.lru| && Missed(call, row, maxToken, p) && Free(call, row, maxToken, i)
    && FreeBefore(call, row, maxToken, i) == MissedBefore(call, row, maxToken, p)
  }

  ghost function FreeCount(call: Call, row: Row, maxToken: int): nat {
    FreeBefore(call, row, maxToken, |row.lru|)
  }

  ghost function MissedCount(call: Call, row: Row, maxToken: int): nat {
    MissedBefore(call, row, maxToken, |call.topk|)
  }

  ghost predicate ShapeIs(call: Call, row: Row, maxToken: int, o: Outcome) {
    && |o.row.table| == |o.row.lru| == |row.table| && |o.current| == |o.missTokens| == |o.missSlots| == |call.topk|
    && o.row.lastReq == call.reqId
    && (o.missCount == MissedCount(call, row, maxToken) <= FreeCount(call, row, maxToken) ||
        o.missCount == FreeCount(call, row, maxToken) <= MissedCount(call, row, maxToken))
  }

  ghost predicate AnswerIs(call: Call, row: Row, maxToken: int, o: Outcome, p: nat)
    requires p < |call.topk| == |o.current|
  {
    if Hit(call, row, maxToken, p)
    then exists i :: Youngest(call, row, maxToken, i, call.topk[p]) && o.current[p] == Place(call, row, i)
    else if Missed(call, row, maxToken, p) && MissedBefore(call, row, maxToken, p) < FreeCount(call, row, maxToken)
    then exists i :: GoesTo(call, row, maxToken, p, i) && o.current[p] == Place(call, row, i)
    else o.current[p] == -1
  }

  /** Entry number j of the miss lists, for the j-th missed position. */
  ghost predicate ListedIs(call: Call, row: Row, maxToken: int, o: Outcome, p: nat)
    requires p < |call.topk| == |o.current| == |o.missTokens| == |o.missSlots|
  {
    Missed(call, row, maxToken, p) ==>
      var j := MissedBefore(call, row, maxToken, p);
      && j < |call.topk| && o.missTokens[j] == call.topk[p] && o.missSlots[j] == o.current[p]
  }

  ghost predicate BlankIs(call: Call, row: Row, maxToken: int, o: Outcome)
    requires |call.topk| == |o.missTokens| == |o.missSlots|
  {
    forall j :: MissedCount(call, row, maxToken) <= j < |call.topk| ==> o.missTokens[j] == o.missSlots[j] == -1
  }

  /** Slot s is given to position p. */
  ghost predicate Given(call: Call, row: Row, maxToken: int, s: int, p: nat) {
    exists i: nat :: GoesTo(call, row, maxToken, p, i) && Place(call, row, i) == s
  }

  ghost predicate TableIs(call: Call, row: Row, maxToken: int, o: Outcome, s: nat)
    requires s < |row.table| == |o.row.table|
  {
    && (forall p: nat :: Given(call, row, maxToken, s, p) && p < |call.topk| ==> o.row.table[s] == call.topk[p])
    && ((forall p: nat :: !Given(call, row, maxToken, s, p)) ==>
          o.row.table[s] == TokenKept(call, row, maxToken, s))
  }

  /** Where the slot at place i goes: unused free slots keep their order at the old end, then
      come the slots given to misses, then the served ones. */
  ghost function NewPlace(call: Call, row: Row, maxToken: int, missCount: nat, i: nat): int
    requires i < |row.lru|
  {
    var free, r := FreeCount(call, row, maxToken), FreeBefore(call, row, maxToken, i);
    if !Free(call, row, maxToken, i) then free + ServedBefore(call, row, maxToken, i)
    else if r < missCount then free - missCount + r else r - missCount
  }

  ghost predicate OrderIs(call: Call, row: Row, maxToken: int, o: Outcome, i: nat)
    requires i < |row.lru| == |o.row.lru|
  {
    Free(call, row, maxToken, i) || Served(call, row, maxToken, Place(call, row, i)) ==>
      var k := NewPlace(call, row, maxToken, o.missCount, i);
      0 <= k < |o.row.lru| && o.row.lru[k] == Place(call, row, i)
  }

  ghost predicate RestIs(call: Call, row: Row, maxToken: int, o: Outcome)
    requires |row.lru| == |o.row.lru|
  {
    var used := FreeCount(call, row, maxToken) + ServedBefore(call, row, maxToken, |row.lru|);
    forall k :: used <= k < |row.lru| ==> o.row.lru[k] == -1
  }

  /** Everything a call leaves behind. */
  ghost predicate Means(call: Call, row: Row, maxToken: int, o: Outcome) {
    && |row.lru| == |row.table| && ShapeIs(call, row, maxToken, o)
    && (forall p: nat :: p < |call.topk| ==> AnswerIs(call, row, maxToken, o, p))
    && (forall p: nat :: p < |call.topk| ==> ListedIs(call, row, maxToken, o, p))
    && BlankIs(call, row, maxToken, o)
    && (forall s: nat :: s < |row.table| ==> TableIs(call, row, maxToken, o, s))
    && (forall i: nat :: i < |row.lru| ==> OrderIs(call, row, maxToken, o, i))
    && RestIs(call, row, maxToken, o)
  }

  // ---- the step has this meaning

  lemma {:induction false} HolderYoungest(lru: seq<int>, table: seq<int>, token: int, n: nat) returns (i: nat)
    requires n <= |lru| && Holder(lru, table, token, n) != INVALID
    ensures i < n && lru[i] == Holder(lru, table, token, n)
    ensures forall k :: i < k < n && IsSlot(lru[k], |table|) ==> table[lru[k]] != token
  {
    if IsSlot(lru[n - 1], |table|) && table[lru[n - 1]] == token {
      i := n - 1;
    } else {
      i := HolderYoungest(lru, table, token, n - 1);
    }
  }

  lemma HitIsYoungest(call: Call, row: Row, maxToken: int, p: nat) returns (i: nat)
    requires |row.lru| == |row.table| && p < |call.topk| && Hit(call, row, maxToken, p)
    ensures Youngest(call, row, maxToken, i, call.topk[p])
    ensures PlanOf(call, row, maxToken).current[p] == Place(call, row, i)
  {
    hide Prepared, Hit;
    PreparedIs(call, row, maxToken);
    HitIs(call, row, maxToken, p);
    var r := Prepared(call, row, maxToken);
    i := HolderYoungest(r.lru, r.table, call.topk[p], |r.lru|);
    forall k: nat | i < k < |row.lru| ensures !Holds(call, row, maxToken, k, call.topk[p]) {
      assert r.lru[k] == Place(call, row, k);
    }
  }

  /** The misses of the plan are the missed positions in order. */
  lemma MissIs(call: Call, row: Row, maxToken: int, p: nat)
    requires |row.lru| == |row.table| && p < |call.topk| && Missed(call, row, maxToken, p)
    ensures var plan, j := PlanOf(call, row, maxToken), MissedBefore(call, row, maxToken, p);
      j < |plan.misses| && plan.misses[j] == p
  {
    hide Prepared, Missed, MissFlags, HitCurrent, MissedBefore, FreeBefore, ServedBefore;
    MissFlagIs(call, row, maxToken, p);
    Counts(call, row, maxToken, 0, p);
    SelectAt(Iota(|call.topk|), MissFlags(call.topk, PlanOf(call, row, maxToken).current, maxToken), |call.topk|, p);
  }

  lemma FreeIs(call: Call, row: Row, maxToken: int, i: nat)
    requires |row.lru| == |row.table| && i < |row.lru| && Free(call, row, maxToken, i)
    ensures var plan, j := PlanOf(call, row, maxToken), FreeBefore(call, row, maxToken, i);
      j < |plan.evictable| && plan.evictable[j] == Place(call, row, i)
  {
    hide Prepared, Free, EvictFlags, MissedBefore, FreeBefore, ServedBefore;
    SlotFlags(call, row, maxToken, i);
    Counts(call, row, maxToken, i, 0);
    PreparedIs(call, row, maxToken);
    var r := Prepared(call, row, maxToken);
    SelectAt(r.lru, EvictFlags(r.lru, r.table, call.topk, maxToken), |r.lru|, i);
  }

  lemma ServedIs(call: Call, row: Row, maxToken: int, i: nat)
    requires |row.lru| == |row.table| && i < |row.lru| && Served(call, row, maxToken, Place(call, row, i))
    ensures var plan, j := PlanOf(call, row, maxToken), ServedBefore(call, row, maxToken, i);
      j < |plan.hits| && plan.hits[j] == Place(call, row, i)
  {
    hide Prepared, Served, HitFlags, MissedBefore, FreeBefore, ServedBefore;
    SlotFlags(call, row, maxToken, i);
    Counts(call, row, maxToken, i, 0);
    PreparedIs(call, row, maxToken);
    var r := Prepared(call, row, maxToken);
    SelectAt(r.lru, HitFlags(r.lru, r.table, call.topk, maxToken), |r.lru|, i);
  }

  lemma Sizes(call: Call, row: Row, maxToken: int)
    requires |row.lru| == |row.table|
    ensures var plan := PlanOf(call, row, maxToken);
      && |plan.misses| == MissedCount(call, row, maxToken) && |plan.evictable| == FreeCount(call, row, maxToken)
      && |plan.hits| == ServedBefore(call, row, maxToken, |row.lru|)
  {
    hide Prepared, MissedBefore, FreeBefore, ServedBefore;
    Counts(call, row, maxToken, |row.lru|, |call.topk|);
  }

  /** The place of the j-th free slot and the position of the j-th miss. */
  lemma FreeAt(call: Call, row: Row, maxToken: int, j: nat) returns (i: nat)
    requires |row.lru| == |row.table| && j < FreeCount(call, row, maxToken)
    ensures i < |row.lru| && Free(call, row, maxToken, i) && FreeBefore(call, row, maxToken, i) == j
  {
    hide Prepared, Free, EvictFlags, MissedBefore, FreeBefore, ServedBefore;
    var r := Prepared(call, row, maxToken);
    Counts(call, row, maxToken, |row.lru|, 0);
    i := SelectSource(r.lru, EvictFlags(r.lru, r.table, call.topk, maxToken), |r.lru|, j);
    SlotFlags(call, row, maxToken, i);
    Counts(call, row, maxToken, i, 0);
  }

  lemma ServedAt(call: Call, row: Row, maxToken: int, j: nat) returns (i: nat)
    requires |row.lru| == |row.table| && j < ServedBefore(call, row, maxToken, |row.lru|)
    ensures i < |row.lru| && Served(call, row, maxToken, Place(call, row, i))
    ensures ServedBefore(call, row, maxToken, i) == j
  {
    hide Prepared, Served, HitFlags, MissedBefore, FreeBefore, ServedBefore;
    var r := Prepared(call, row, maxToken);
    Counts(call, row, maxToken, |row.lru|, 0);
    i := SelectSource(r.lru, HitFlags(r.lru, r.table, call.topk, maxToken), |r.lru|, j);
    SlotFlags(call, row, maxToken, i);
    Counts(call, row, maxToken, i, 0);
  }

  lemma MissedAt(call: Call, row: Row, maxToken: int, j: nat) returns (p: nat)
    requires |row.lru| == |row.table| && j < MissedCount(call, row, maxToken)
    ensures p < |call.topk| && Missed(call, row, maxToken, p) && MissedBefore(call, row, maxToken, p) == j
  {
    hide Prepared, Missed, MissFlags, HitCurrent, MissedBefore, FreeBefore, ServedBefore;
    Counts(call, row, maxToken, 0, |call.topk|);
    var flags := MissFlags(call.topk, PlanOf(call, row, maxToken).current, maxToken);
    p := SelectSource(Iota(|call.topk|), flags, |call.topk|, j);
    MissFlagIs(call, row, maxToken, p);
    Counts(call, row, maxToken, 0, p);
  }

  /** The step in terms of its plan. */
  lemma StepIs(call: Call, row: Row, maxToken: int)
    requires Usable(call, row)
    ensures var plan := PlanOf(call, row, maxToken);
      && |row.lru| == |row.table| && PlanOk(plan, |call.topk|, |row.table|)
      && |Prepared(call, row, maxToken).table| == |row.table|
      && Step(call, row, maxToken) == Execute(plan, Prepared(call, row, maxToken).table, call.topk, call.reqId)
  {
    hide MakePlan, Prepared;
    PreparedOk(call, row, maxToken);
  }

  lemma CurrentIs(call: Call, row: Row, maxToken: int)
    requires Usable(call, row) && PlanOk(PlanOf(call, row, maxToken), |call.topk|, |row.table|)
    ensures var c, plan := Step(call, row, maxToken).current, PlanOf(call, row, maxToken);
      var n := AssignCount(plan);
      && |c| == |call.topk| && (forall j :: 0 <= j < n ==> c[plan.misses[j]] == plan.evictable[j])
      && (forall p :: 0 <= p < |call.topk| && p !in plan.misses[..n] ==> c[p] == plan.current[p])
  {
    hide MakePlan, Prepared, Scatter, DistinctSlots;
    StepIs(call, row, maxToken);
    DistinctMisses(call, row, maxToken);
    var plan := PlanOf(call, row, maxToken);
    ScatterAt(plan.current, plan.misses, plan.evictable, AssignCount(plan));
  }

  lemma TableCells(call: Call, row: Row, maxToken: int)
    requires Usable(call, row) && PlanOk(PlanOf(call, row, maxToken), |call.topk|, |row.table|)
    ensures var t, plan := Step(call, row, maxToken).row.table, PlanOf(call, row, maxToken);
      var n := AssignCount(plan);
      && |t| == |row.table| == |Prepared(call, row, maxToken).table|
      && (forall j :: 0 <= j < n ==> t[plan.evictable[j]] == call.topk[plan.misses[j]])
      && (forall s :: 0 <= s < |row.table| && s !in plan.evictable[..n] ==>
            t[s] == Prepared(call, row, maxToken).table[s])
  {
    hide MakePlan, Prepared, Scatter, DistinctSlots;
    StepIs(call, row, maxToken);
    DistinctMisses(call, row, maxToken);
    var r, plan := Prepared(call, row, maxToken), PlanOf(call, row, maxToken);
    ScatterAt(r.table, plan.evictable, TokensAt(call.topk, plan.misses), AssignCount(plan));
  }

  /** The parts of the rebuilt row. */
  lemma RebuiltAt(plan: Plan, capacity: nat, j: nat)
    requires |plan.evictable| + |plan.hits| <= capacity
    ensures var r, n, f := Rebuilt(plan, capacity), AssignCount(plan), |plan.evictable|;
      && (j < f ==> r[if j < n then f - n + j else j - n] == plan.evictable[j])
      && (j < |plan.hits| ==> r[f + j] == plan.hits[j])
      && (f + |plan.hits| <= j < capacity ==> r[j] == -1)
  {
  }

  lemma DistinctMisses(call: Call, row: Row, maxToken: int)
    requires Usable(call, row)
    ensures var plan := PlanOf(call, row, maxToken); Distinct(plan.misses) && Distinct(plan.evictable)
  {
    PreparedOk(call, row, maxToken);
    var r := Prepared(call, row, maxToken);
    PlanDistinct(r.lru, r.table, call.topk, maxToken);
  }

  lemma StepAnswers(call: Call, row: Row, maxToken: int, p: nat)
    requires Usable(call, row) && p < |call.topk| == |Step(call, row, maxToken).current|
    ensures AnswerIs(call, row, maxToken, Step(call, row, maxToken), p)
  {
    hide MakePlan, Prepared, Step, Hit, FreeBefore, MissedBefore, ServedBefore, Usable, Free;
    StepIs(call, row, maxToken);
    Sizes(call, row, maxToken);
    CurrentIs(call, row, maxToken);
    PlanCurrent(call, row, maxToken, p);
    if Hit(call, row, maxToken, p) {
      var i := HitIsYoungest(call, row, maxToken, p);
    } else if Missed(call, row, maxToken, p) {
      MissAnswer(call, row, maxToken, p);
    }
  }

  /** The answer to a missed position, and its entry in the lists. */
  lemma MissAnswer(call: Call, row: Row, maxToken: int, p: nat)
    requires Usable(call, row) && p < |call.topk| && Missed(call, row, maxToken, p)
    ensures var o, j := Step(call, row, maxToken), MissedBefore(call, row, maxToken, p);
      && |o.current| == |o.missTokens| == |o.missSlots| == |call.topk|
      && (if j < FreeCount(call, row, maxToken)
          then exists i :: GoesTo(call, row, maxToken, p, i) && o.current[p] == Place(call, row, i)
          else o.current[p] == -1)
      && j < |call.topk| && o.missTokens[j] == call.topk[p] && o.missSlots[j] == o.current[p]
  {
    hide MakePlan, Prepared, Hit, FreeBefore, MissedBefore, ServedBefore, Usable, Free, Scatter, Rebuilt;
    StepIs(call, row, maxToken);
    Sizes(call, row, maxToken);
    CurrentIs(call, row, maxToken);
    MissIs(call, row, maxToken, p);
    PlanCurrent(call, row, maxToken, p);
    DistinctMisses(call, row, maxToken);
    var j, plan := MissedBefore(call, row, maxToken, p), PlanOf(call, row, maxToken);
    if j < FreeCount(call, row, maxToken) {
      var i := FreeAt(call, row, maxToken, j);
      FreeIs(call, row, maxToken, i);
      assert GoesTo(call, row, maxToken, p, i);
    } else {
      assert p !in plan.misses[..AssignCount(plan)];
    }
  }

  /** Only missed positions are among the misses, and only hits are answered by the plan. */
  lemma PlanCurrent(call: Call, row: Row, maxToken: int, p: nat)
    requires |row.lru| == |row.table| && p < |call.topk|
    ensures var plan := PlanOf(call, row, maxToken);
      && (!Missed(call, row, maxToken, p) ==> p !in plan.misses)
      && |plan.current| == |call.topk| && (!Hit(call, row, maxToken, p) ==> plan.current[p] == -1)
  {
    hide Prepared, Hit;
    HitIs(call, row, maxToken, p);
    MissFlagIs(call, row, maxToken, p);
    var plan := PlanOf(call, row, maxToken);
    SelectMembers(Iota(|call.topk|), MissFlags(call.topk, plan.current, maxToken), p);
  }

  lemma StepTable(call: Call, row: Row, maxToken: int, s: nat)
    requires Usable(call, row) && s < |row.table| == |Step(call, row, maxToken).row.table|
    ensures TableIs(call, row, maxToken, Step(call, row, maxToken), s)
  {
    hide MakePlan, Prepared, Step, Hit, Missed, FreeBefore, MissedBefore, ServedBefore, Usable, Free, TokenKept;
    StepIs(call, row, maxToken);
    TableCells(call, row, maxToken);
    PreparedIs(call, row, maxToken);
    var plan := PlanOf(call, row, maxToken);
    forall p: nat | Given(call, row, maxToken, s, p) && p < |call.topk|
      ensures Step(call, row, maxToken).row.table[s] == call.topk[p]
    {
      var i: nat :| GoesTo(call, row, maxToken, p, i) && Place(call, row, i) == s;
      MissIs(call, row, maxToken, p);
      FreeIs(call, row, maxToken, i);
    }
    if s in plan.evictable[..AssignCount(plan)] {
      var j: nat :| j < AssignCount(plan) && plan.evictable[j] == s;
      AssignedIsGiven(call, row, maxToken, j);
    }
  }

  lemma AssignedIsGiven(call: Call, row: Row, maxToken: int, j: nat)
    requires |row.lru| == |row.table| && j < AssignCount(PlanOf(call, row, maxToken))
    ensures exists p: nat :: Given(call, row, maxToken, PlanOf(call, row, maxToken).evictable[j], p)
  {
    hide MakePlan, Prepared, Hit, FreeBefore, MissedBefore, ServedBefore, Free, Missed;
    Sizes(call, row, maxToken);
    var i := FreeAt(call, row, maxToken, j);
    var p := MissedAt(call, row, maxToken, j);
    FreeIs(call, row, maxToken, i);
    assert GoesTo(call, row, maxToken, p, i);
    assert Given(call, row, maxToken, PlanOf(call, row, maxToken).evictable[j], p);
  }

  lemma StepOrder(call: Call, row: Row, maxToken: int, i: nat)
    requires Usable(call, row) && i < |row.lru| == |Step(call, row, maxToken).row.lru|
    ensures OrderIs(call, row, maxToken, Step(call, row, maxToken), i)
  {
    hide MakePlan, Prepared, FreeBefore, MissedBefore, ServedBefore, Free, Served, Rebuilt, Scatter, Usable, TokensAt;
    StepIs(call, row, maxToken);
    Sizes(call, row, maxToken);
    var plan := PlanOf(call, row, maxToken);
    if Free(call, row, maxToken, i) {
      FreeIs(call, row, maxToken, i);
      RebuiltAt(plan, |row.table|, FreeBefore(call, row, maxToken, i));
    } else if Served(call, row, maxToken, Place(call, row, i)) {
      ServedIs(call, row, maxToken, i);
      RebuiltAt(plan, |row.table|, ServedBefore(call, row, maxToken, i));
    }
  }

  lemma StepShape(call: Call, row: Row, maxToken: int)
    requires Usable(call, row)
    ensures var o := Step(call, row, maxToken);
      |row.lru| == |row.table| && ShapeIs(call, row, maxToken, o) && BlankIs(call, row, maxToken, o) &&
      RestIs(call, row, maxToken, o)
  {
    hide MakePlan, Prepared, Step, FreeBefore, MissedBefore, ServedBefore;
    StepIs(call, row, maxToken);
    Sizes(call, row, maxToken);
  }

  /** Whatever the row, the step leaves behind exactly what this module says. */
  lemma StepMeans(call: Call, row: Row, maxToken: int)
    requires Usable(call, row)
    ensures Means(call, row, maxToken, Step(call, row, maxToken))
  {
    hide Step, AnswerIs, TableIs, OrderIs, RestIs, BlankIs, Missed;
    StepShape(call, row, maxToken);
    var o := Step(call, row, maxToken);
    forall p: nat | p < |call.topk|
      ensures AnswerIs(call, row, maxToken, o, p) && ListedIs(call, row, maxToken, o, p)
    {
      StepAnswers(call, row, maxToken, p);
      if Missed(call, row, maxToken, p) { MissAnswer(call, row, maxToken, p); }
    }
    forall s: nat | s < |row.table| ensures TableIs(call, row, maxToken, o, s) { StepTable(call, row, maxToken, s); }
    forall i: nat | i < |row.lru| ensures OrderIs(call, row, maxToken, o, i) { StepOrder(call, row, maxToken, i); }
  }

  // ---- and nothing else has it

  lemma SamePlace(call: Call, row: Row, maxToken: int, p: nat, i: nat, k: nat)
    requires |row.lru| == |row.table| && GoesTo(call, row, maxToken, p, i) && GoesTo(call, row, maxToken, p, k)
    ensures Place(call, row, i) == Place(call, row, k)
  {
    hide FreeBefore, MissedBefore;
    FreeIs(call, row, maxToken, i);
    FreeIs(call, row, maxToken, k);
  }

  lemma SameAnswers(call: Call, row: Row, maxToken: int, a: Outcome, b: Outcome)
    requires Means(call, row, maxToken, a) && Means(call, row, maxToken, b)
    ensures a.current == b.current && a.missCount == b.missCount
  {
    hide FreeBefore, MissedBefore, Free, Missed, Hit, TableIs, OrderIs, BlankIs, RestIs;
    forall p: nat | p < |call.topk| ensures a.current[p] == b.current[p] {
      assert AnswerIs(call, row, maxToken, a, p) && AnswerIs(call, row, maxToken, b, p);
      if Hit(call, row, maxToken, p) {
        var i :| Youngest(call, row, maxToken, i, call.topk[p]) && a.current[p] == Place(call, row, i);
        var k :| Youngest(call, row, maxToken, k, call.topk[p]) && b.current[p] == Place(call, row, k);
        assert i == k;
      } else if && Missed(call, row, maxToken, p)
                && MissedBefore(call, row, maxToken, p) < FreeCount(call, row, maxToken) {
        var i :| GoesTo(call, row, maxToken, p, i) && a.current[p] == Place(call, row, i);
        var k :| GoesTo(call, row, maxToken, p, k) && b.current[p] == Place(call, row, k);
        SamePlace(call, row, maxToken, p, i, k);
      }
    }
  }

  lemma SameLists(call: Call, row: Row, maxToken: int, a: Outcome, b: Outcome)
    requires Means(call, row, maxToken, a) && Means(call, row, maxToken, b) && a.current == b.current
    ensures a.missTokens == b.missTokens && a.missSlots == b.missSlots
  {
    hide FreeBefore, MissedBefore, GoesTo, Missed, AnswerIs, TableIs, OrderIs, RestIs;
    forall j: nat | j < |call.topk| ensures a.missTokens[j] == b.missTokens[j] && a.missSlots[j] == b.missSlots[j] {
      if j < MissedCount(call, row, maxToken) {
        var p := MissedAt(call, row, maxToken, j);
        assert ListedIs(call, row, maxToken, a, p) && ListedIs(call, row, maxToken, b, p);
      }
    }
  }

  lemma SameTable(call: Call, row: Row, maxToken: int, a: Outcome, b: Outcome)
    requires Means(call, row, maxToken, a) && Means(call, row, maxToken, b)
    ensures a.row.table == b.row.table
  {
    hide FreeBefore, MissedBefore, GoesTo, Missed, AnswerIs, ListedIs, OrderIs, RestIs, BlankIs, TokenKept;
    forall s: nat | s < |row.table| ensures a.row.table[s] == b.row.table[s] {
      assert TableIs(call, row, maxToken, a, s) && TableIs(call, row, maxToken, b, s);
      if p: nat :| Given(call, row, maxToken, s, p) { GivenInRange(call, row, maxToken, s, p); }
    }
  }

  lemma GivenInRange(call: Call, row: Row, maxToken: int, s: int, p: nat)
    requires Given(call, row, maxToken, s, p)
    ensures p < |call.topk|
  {
  }

  lemma SameOrder(call: Call, row: Row, maxToken: int, a: Outcome, b: Outcome)
    requires Means(call, row, maxToken, a) && Means(call, row, maxToken, b) && a.missCount == b.missCount
    ensures a.row.lru == b.row.lru
  {
    hide FreeBefore, MissedBefore, ServedBefore, Free, Served, AnswerIs, ListedIs, TableIs, BlankIs;
    var f, n := FreeCount(call, row, maxToken), a.missCount;
    forall k: nat | k < |row.lru| ensures a.row.lru[k] == b.row.lru[k] {
      if k < f {
        var i := FreeAt(call, row, maxToken, if k < f - n then k + n else k - (f - n));
        assert OrderIs(call, row, maxToken, a, i) && OrderIs(call, row, maxToken, b, i);
      } else if k < f + ServedBefore(call, row, maxToken, |row.lru|) {
        var i := ServedAt(call, row, maxToken, k - f);
        ServedIsNotFree(call, row, maxToken, i);
        assert OrderIs(call, row, maxToken, a, i) && OrderIs(call, row, maxToken, b, i);
      }
    }
  }

  lemma ServedIsNotFree(call: Call, row: Row, maxToken: int, i: nat)
    requires i < |row.lru| && Served(call, row, maxToken, Place(call, row, i))
    ensures !Free(call, row, maxToken, i)
  {
  }

  /** The meaning determines the step: an outcome has it if and only if it is the step's. */
  lemma StepIff(call: Call, row: Row, maxToken: int, o: Outcome)
    requires Usable(call, row)
    ensures o == Step(call, row, maxToken) <==> Means(call, row, maxToken, o)
  {
    hide Step, Means;
    StepMeans(call, row, maxToken);
    if Means(call, row, maxToken, o) {
      var t := Step(call, row, maxToken);
      SameAnswers(call, row, maxToken, o, t);
      SameLists(call, row, maxToken, o, t);
      SameTable(call, row, maxToken, o, t);
      SameOrder(call, row, maxToken, o, t);
      SameRequest(call, row, maxToken, o, t);
    }
  }

  lemma SameRequest(call: Call, row: Row, maxToken: int, a: Outcome, b: Outcome)
    requires Means(call, row, maxToken, a) && Means(call, row, maxToken, b)
    ensures a.row.lastReq == b.row.lastReq
  {
  }

  // ---- hits

  /** A position is answered by a slot that is not loaded anew if and only if it is the first
      to ask for a token that some slot keeps. */
  lemma HitIff(call: Call, row: Row, maxToken: int, p: nat)
    requires Usable(call, row) && p < |call.topk|
    ensures var o := Step(call, row, maxToken);
      Hit(call, row, maxToken, p) <==> o.current[p] != -1 && o.current[p] !in o.missSlots[..o.missCount]
  {
    hide Step, Hit, FreeBefore, MissedBefore, ServedBefore, TableIs, OrderIs, RestIs, BlankIs;
    StepMeans(call, row, maxToken);
    var o := Step(call, row, maxToken);
    assert AnswerIs(call, row, maxToken, o, p) && ListedIs(call, row, maxToken, o, p);
    if Hit(call, row, maxToken, p) {
      var i :| Youngest(call, row, maxToken, i, call.topk[p]) && o.current[p] == Place(call, row, i);
      forall j: nat | j < o.missCount ensures j < |o.missSlots| && o.missSlots[j] != o.current[p] {
        ListedIsFree(call, row, maxToken, o, j);
      }
    } else if o.current[p] != -1 {
      var j := MissedBefore(call, row, maxToken, p);
      MissIs(call, row, maxToken, p);
      Sizes(call, row, maxToken);
      assert o.missSlots[j] == o.missSlots[..o.missCount][j];
    }
  }

  lemma ListedIsFree(call: Call, row: Row, maxToken: int, o: Outcome, j: nat)
    requires Means(call, row, maxToken, o) && j < o.missCount
    ensures j < |o.missSlots| && !Served(call, row, maxToken, o.missSlots[j])
  {
    hide FreeBefore, MissedBefore, ServedBefore, TableIs, OrderIs, RestIs, BlankIs, Served, Hit;
    var p := MissedAt(call, row, maxToken, j);
    assert AnswerIs(call, row, maxToken, o, p) && ListedIs(call, row, maxToken, o, p);
    var i :| GoesTo(call, row, maxToken, p, i) && o.current[p] == Place(call, row, i);
  }

  /** A resident token of the same request, valid and below the prefix, is a hit: the first
      position to ask for it gets a slot that held it before and is not loaded anew. */
  lemma StableTokenIsHit(call: Call, row: Row, maxToken: int, s: nat, p: nat)
    requires Usable(call, row) && row.lastReq == call.reqId && s in row.lru && s < |row.table|
    requires p < |call.topk| && call.topk[p] == row.table[s] && call.topk[p] !in call.topk[..p]
    requires 0 <= row.table[s] < maxToken && row.table[s] < call.prefix
    ensures var o := Step(call, row, maxToken);
      && 0 <= o.current[p] < |row.table| && row.table[o.current[p]] == row.table[s]
      && o.current[p] !in o.missSlots[..o.missCount]
  {
    hide Step, TableIs, OrderIs, RestIs, BlankIs, ListedIs;
    var i: nat :| i < |row.lru| && row.lru[i] == s;
    assert Holds(call, row, maxToken, i, call.topk[p]);
    assert forall q :: 0 <= q < p ==> call.topk[q] == call.topk[..p][q];
    HitIff(call, row, maxToken, p);
    StepMeans(call, row, maxToken);
    assert AnswerIs(call, row, maxToken, Step(call, row, maxToken), p);
  }

  /** On a sound row a duplicate-free call loads exactly the tokens that no slot keeps. */
  lemma LoadedIff(call: Call, row: Row, maxToken: int, p: nat)
    requires Sound(row, maxToken) && DuplicateFree(call.topk, maxToken) && |call.topk| <= |row.table|
    requires p < |call.topk| && 0 <= call.topk[p] < maxToken
    ensures var o := Step(call, row, maxToken);
      && 0 <= o.current[p] < |row.table| && o.row.table[o.current[p]] == call.topk[p]
      && (o.current[p] !in o.missSlots[..o.missCount] <==>
            row.lastReq == call.reqId && call.topk[p] < call.prefix && call.topk[p] in row.table)
  {
    hide Step;
    EverythingResolved(call, row, maxToken);
    AnswersAreRight(call, row, maxToken, p);
    HitIff(call, row, maxToken, p);
    if row.lastReq == call.reqId && call.topk[p] < call.prefix && call.topk[p] in row.table {
      var s: nat :| s < |row.table| && row.table[s] == call.topk[p];
      PermutationCovers(row.lru, |row.table|, s);
      var i: nat :| i < |row.lru| && row.lru[i] == s;
      assert Holds(call, row, maxToken, i, call.topk[p]);
    }
  }
}
