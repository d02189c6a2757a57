/** The resident LRU step of one request row, as a function on values.

    Every implementation (phased SIMT kernels, fused kernel, legacy kernel) is
    proved against this step; LruFacts and LruRuns say what the step means. */
module LruSpec {
  import opened Compaction

  const INVALID: int := -1

  /** What one row keeps between calls. */
  datatype Row = Row(table: seq<int>, lru: seq<int>, lastReq: int)

  /** The per-call inputs of one row. */
  datatype Call = Call(topk: seq<int>, reqId: int, prefix: int)

  /** Everything a call writes for its row. */
  datatype Outcome = Outcome(row: Row, current: seq<int>, missCount: nat, missTokens: seq<int>, missSlots: seq<int>)

  /** The decisions of a call: who may be evicted, who was hit, what is missing. */
  datatype Plan = Plan(evictable: seq<int>, hits: seq<int>, current: seq<int>, misses: seq<int>)

  predicate IsToken(t: int, maxToken: int) { 0 <= t < maxToken }

  predicate IsSlot(s: int, capacity: int) { 0 <= s < capacity }

  /** A row is usable when its valid LRU entries name distinct slots. Entries that
      are not slots are tolerated, as in the kernels. */
  ghost predicate RowOk(row: Row) {
    |row.lru| == |row.table| && DistinctSlots(row.lru, |row.table|)
  }

  ghost predicate DistinctSlots(lru: seq<int>, capacity: nat) {
    forall i, j :: 0 <= i < j < |lru| && IsSlot(lru[i], capacity) ==> lru[i] != lru[j]
  }

  /** First of the first n Top-K positions that asks for the token, n if none does. */
  function First(topk: seq<int>, token: int, n: nat): (f: nat)
    requires n <= |topk|
    ensures f <= n
    ensures f < n ==> topk[f] == token
    ensures forall p :: 0 <= p < f ==> topk[p] != token
  {
    if n == 0 then 0
    else
      var f := First(topk, token, n - 1);
      if f < n - 1 then f else if topk[n - 1] == token then n - 1 else n
  }

  /** The slot of the youngest of the first n LRU entries that holds the token. */
  function Holder(lru: seq<int>, table: seq<int>, token: int, n: nat): (s: int)
    requires n <= |lru|
    ensures s == INVALID || (IsSlot(s, |table|) && table[s] == token && s in lru[..n])
    ensures s == INVALID <==> forall i :: 0 <= i < n && IsSlot(lru[i], |table|) ==> table[lru[i]] != token
  {
    if n == 0 then INVALID
    else if IsSlot(lru[n - 1], |table|) && table[lru[n - 1]] == token then lru[n - 1]
    else Holder(lru, table, token, n - 1)
  }

  predicate IsHit(table: seq<int>, topk: seq<int>, maxToken: int, slot: int)
    requires IsSlot(slot, |table|)
  {
    IsToken(table[slot], maxToken) && table[slot] in topk
  }

  function HitFlags(lru: seq<int>, table: seq<int>, topk: seq<int>, maxToken: int): (f: seq<bool>)
    ensures |f| == |lru|
  {
    seq(|lru|, i requires 0 <= i < |lru| => IsSlot(lru[i], |table|) && IsHit(table, topk, maxToken, lru[i]))
  }

  function EvictFlags(lru: seq<int>, table: seq<int>, topk: seq<int>, maxToken: int): (f: seq<bool>)
    ensures |f| == |lru|
  {
    seq(|lru|, i requires 0 <= i < |lru| => IsSlot(lru[i], |table|) && !IsHit(table, topk, maxToken, lru[i]))
  }

  /** Hits are served to the first position asking for a token, from its youngest holder. */
  function HitCurrent(lru: seq<int>, table: seq<int>, topk: seq<int>, maxToken: int): (c: seq<int>)
    ensures |c| == |topk|
  {
    seq(|topk|, p requires 0 <= p < |topk| => HitAt(lru, table, topk, maxToken, p))
  }

  function HitAt(lru: seq<int>, table: seq<int>, topk: seq<int>, maxToken: int, p: nat): (s: int)
    requires p < |topk|
  {
    if IsToken(topk[p], maxToken) && First(topk, topk[p], |topk|) == p
    then Holder(lru, table, topk[p], |lru|) else INVALID
  }

  function MissFlags(topk: seq<int>, current: seq<int>, maxToken: int): (f: seq<bool>)
    requires |topk| == |current|
    ensures |f| == |topk|
  {
    seq(|topk|, p requires 0 <= p < |topk| => IsToken(topk[p], maxToken) && current[p] < 0)
  }

  function MakePlan(lru: seq<int>, table: seq<int>, topk: seq<int>, maxToken: int): (p: Plan) {
    var current := HitCurrent(lru, table, topk, maxToken);
    Plan(Select(lru, EvictFlags(lru, table, topk, maxToken), |lru|),
         Select(lru, HitFlags(lru, table, topk, maxToken), |lru|),
         current,
         Select(Iota(|topk|), MissFlags(topk, current, maxToken), |topk|))
  }

  function Min(a: int, b: int): int { if a < b then a else b }

  function AssignCount(p: Plan): nat { Min(|p.misses|, |p.evictable|) }

  /** The oldest evictable slots go to the misses in Top-K order. */
  function Assigned(p: Plan): (s: seq<int>)
    ensures |s| == AssignCount(p)
  {
    p.evictable[..AssignCount(p)]
  }

  function TokensAt(topk: seq<int>, positions: seq<int>): (t: seq<int>)
    requires forall j :: 0 <= j < |positions| ==> 0 <= positions[j] < |topk|
    ensures |t| == |positions|
  {
    seq(|positions|, j requires 0 <= j < |positions| => topk[positions[j]])
  }

  function Pad(s: seq<int>, n: nat): (r: seq<int>)
    requires |s| <= n
    ensures |r| == n
  {
    s + seq(n - |s|, _ => INVALID)
  }

  lemma PadIs(s: seq<int>, a: seq<int>)
    requires |s| <= |a| && forall j :: 0 <= j < |a| ==> a[j] == if j < |s| then s[j] else INVALID
    ensures a == Pad(s, |a|)
  {
  }

  /** Survivors in old order, then the newly assigned slots, then the hit slots. */
  function Rebuilt(p: Plan, capacity: nat): (r: seq<int>)
    requires |p.evictable| + |p.hits| <= capacity
    ensures |r| == capacity
  {
    Pad(p.evictable[AssignCount(p)..] + Assigned(p) + p.hits, capacity)
  }

  /** The shape facts that make a plan executable. */
  predicate PlanOk(p: Plan, topk: nat, capacity: nat) {
    && |p.evictable| + |p.hits| <= capacity
    && |p.current| == topk && |p.misses| <= topk
    && (forall j :: 0 <= j < |p.misses| ==> 0 <= p.misses[j] < topk)
    && (forall j :: 0 <= j < |p.evictable| ==> IsSlot(p.evictable[j], capacity))
    && (forall j :: 0 <= j < |p.hits| ==> IsSlot(p.hits[j], capacity))
  }

  lemma PlanIsOk(lru: seq<int>, table: seq<int>, topk: seq<int>, maxToken: int)
    requires |lru| == |table|
    ensures PlanOk(MakePlan(lru, table, topk, maxToken), |topk|, |table|)
  {
    var e, h := EvictFlags(lru, table, topk, maxToken), HitFlags(lru, table, topk, maxToken);
    var p := MakePlan(lru, table, topk, maxToken);
    RankDisjoint(e, h, |lru|);
    forall j | 0 <= j < |p.evictable| ensures IsSlot(p.evictable[j], |table|) {
      var i := SelectSource(lru, e, |lru|, j);
    }
    forall j | 0 <= j < |p.hits| ensures IsSlot(p.hits[j], |table|) {
      var i := SelectSource(lru, h, |lru|, j);
    }
    forall j | 0 <= j < |p.misses| ensures 0 <= p.misses[j] < |topk| {
      var i := SelectSource(Iota(|topk|), MissFlags(topk, p.current, maxToken), |topk|, j);
    }
  }

  /** Carry out a plan on the prepared table. */
  function Execute(p: Plan, table: seq<int>, topk: seq<int>, reqId: int): (o: Outcome)
    requires PlanOk(p, |topk|, |table|)
  {
    var n := AssignCount(p);
    var tokens := TokensAt(topk, p.misses);
    Outcome(Row(Scatter(table, p.evictable, tokens, n), Rebuilt(p, |table|), reqId),
            Scatter(p.current, p.misses, p.evictable, n),
            n, Pad(tokens, |topk|), Pad(Assigned(p), |topk|))
  }

  function ClampPrefix(prefix: int, maxToken: int): int {
    if prefix < 0 then 0 else if prefix > maxToken then maxToken else prefix
  }

  /** Tokens at or past the stable prefix are speculative and forgotten. */
  function Invalidated(table: seq<int>, prefix: int, maxToken: int): (t: seq<int>)
    ensures |t| == |table|
  {
    seq(|table|, s requires 0 <= s < |table| =>
      if IsToken(table[s], maxToken) && table[s] >= ClampPrefix(prefix, maxToken) then INVALID else table[s])
  }

  function ResetRow(capacity: nat, reqId: int): Row {
    Row(seq(capacity, _ => INVALID), Iota(capacity), reqId)
  }

  /** The row a call plans on: reset if the request changed, then invalidated. */
  function Prepared(call: Call, row: Row, maxToken: int): (r: Row)
    ensures |r.table| == |row.table|
    ensures |row.lru| == |row.table| ==> |r.lru| == |r.table|
  {
    var base := if row.lastReq != call.reqId then ResetRow(|row.table|, call.reqId) else row;
    base.(table := Invalidated(base.table, call.prefix, maxToken))
  }

  function PlanOf(call: Call, row: Row, maxToken: int): Plan {
    var r := Prepared(call, row, maxToken);
    MakePlan(r.lru, r.table, call.topk, maxToken)
  }

  function Step(call: Call, row: Row, maxToken: int): (o: Outcome)
    requires |row.lru| == |row.table|
  {
    var r := Prepared(call, row, maxToken);
    PlanIsOk(r.lru, r.table, call.topk, maxToken);
    Execute(MakePlan(r.lru, r.table, call.topk, maxToken), r.table, call.topk, call.reqId)
  }
}
