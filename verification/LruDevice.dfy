/** The device memory of one request row, and the two phases that the phased and the
    fused kernels share. A parallel loop is executed in an arbitrary order of its
    iterations: every iteration reads cells no other iteration of the phase writes,
    so any interleaving of the lanes is one of these orders. */
module LruDevice {
  import opened Compaction
  import opened LruSpec

  /** One row in device memory. */
  class RowMemory {
    const capacity: nat
    const width: nat
    const table: array<int>
    const lru: array<int>
    const current: array<int>
    const missTokens: array<int>
    const missSlots: array<int>
    var missCount: int
    var lastReq: int

    predicate Shaped() {
      && table.Length == lru.Length == capacity
      && current.Length == missTokens.Length == missSlots.Length == width
      && table != lru && table != current && table != missTokens && table != missSlots
      && lru != current && lru != missTokens && lru != missSlots
      && current != missTokens && current != missSlots && missTokens != missSlots
    }

    /** The row arrays as a value. */
    ghost function Value(): Row
      reads this, table, lru
    {
      Row(table[..], lru[..], lastReq)
    }

    /** Everything a call leaves behind for this row. */
    ghost predicate Holds(o: Outcome)
      reads this, table, lru, current, missTokens, missSlots
    {
      && Value() == o.row && current[..] == o.current && missCount == o.missCount
      && missTokens[..] == o.missTokens && missSlots[..] == o.missSlots
    }
  }

  /** One workspace slice: a mark and a position per token, and the epoch. */
  class Workspace {
    const maxToken: nat
    const mark: array<int>
    const pos: array<int>
    var epoch: int

    predicate Shaped() { mark.Length == pos.Length == maxToken && mark != pos }
  }

  predicate Separate(row: RowMemory, ws: Workspace) {
    && row.Shaped() && ws.Shaped()
    && ws.mark != row.table && ws.mark != row.lru && ws.mark != row.current && ws.mark != row.missTokens
    && ws.mark != row.missSlots
    && ws.pos != row.table && ws.pos != row.lru && ws.pos != row.current && ws.pos != row.missTokens
    && ws.pos != row.missSlots
  }

  /** How the planning phase leaves a plan in the reused scratch: evictable slots from
      the front of mark, hit slots from its back, miss positions at the front of pos,
      and the two counts in the last two cells of pos. */
  ghost predicate PlanStored(p: Plan, mark: seq<int>, pos: seq<int>, maxToken: nat) {
    && |mark| == |pos| == maxToken >= 2
    && |p.evictable| + |p.hits| <= maxToken && |p.misses| <= maxToken - 2
    && mark[..|p.evictable|] == p.evictable
    && (forall k :: 0 <= k < |p.hits| ==> mark[maxToken - 1 - k] == p.hits[k])
    && pos[..|p.misses|] == p.misses
    && pos[maxToken - 2] == |p.evictable| && pos[maxToken - 1] == |p.hits|
  }

  /** Assign phase: miss j takes the j-th oldest evictable slot. The guards on slot and
      position always hold, so exactly the assigned count is written. */
  method AssignMisses(ghost p: Plan, topk: seq<int>, mark: array<int>, pos: array<int>, assignCount: int,
                      table: array<int>, current: array<int>, missTokens: array<int>, missSlots: array<int>)
    requires table != current && table != missSlots && current != missSlots
    requires mark != table && mark != current && mark != missSlots && pos != table && pos != current && pos != missSlots
    requires missTokens != table && missTokens != current && missTokens != missSlots
    requires current.Length == missTokens.Length == missSlots.Length == |topk|
    requires PlanOk(p, |topk|, table.Length) && PlanStored(p, mark[..], pos[..], mark.Length)
    requires Distinct(p.evictable) && Distinct(p.misses)
    requires assignCount == AssignCount(p) && current[..] == p.current
    requires missTokens[..] == Pad(TokensAt(topk, p.misses), |topk|) && missSlots[..] == Pad([], |topk|)
    modifies table, current, missSlots
    ensures table[..] == Scatter(old(table[..]), p.evictable, TokensAt(topk, p.misses), AssignCount(p))
    ensures current[..] == Scatter(p.current, p.misses, p.evictable, AssignCount(p))
    ensures missSlots[..] == Pad(Assigned(p), |topk|)
  {
    hide Scattering, Scatter, Indices;
    ghost var table0, tokens := table[..], TokensAt(topk, p.misses);
    var todo := Indices(assignCount);
    ScatteringStart(table0, p.evictable, tokens, assignCount, todo);
    ScatteringStart(p.current, p.misses, p.evictable, assignCount, todo);
    while todo != {}
      invariant todo <= Indices(assignCount)
      invariant Scattering(table0, p.evictable, tokens, assignCount, todo, table[..])
      invariant Scattering(p.current, p.misses, p.evictable, assignCount, todo, current[..])
      invariant forall j :: 0 <= j < |topk| ==>
        missSlots[j] == if j < assignCount && j !in todo then p.evictable[j] else INVALID
      decreases todo
    {
      var j :| j in todo;
      var slot, token, at := mark[j], missTokens[j], pos[j];
      assert slot == mark[..|p.evictable|][j] && at == pos[..|p.misses|][j] && token == missTokens[..][j];
      ghost var t, c := table[..], current[..];
      if 0 <= slot < table.Length && 0 <= at < |topk| {
        table[slot] := token;
        current[at] := slot;
        missSlots[j] := slot;
      }
      assert table[..] == t[slot := token] && current[..] == c[at := slot];
      ScatteringStep(table0, p.evictable, tokens, assignCount, todo, t, j);
      ScatteringStep(p.current, p.misses, p.evictable, assignCount, todo, c, j);
      todo := todo - {j};
    }
    ScatteringDone(table0, p.evictable, tokens, assignCount, table[..]);
    ScatteringDone(p.current, p.misses, p.evictable, assignCount, current[..]);
  }

  /** Rebuild phase: each output place of the LRU row is computed on its own. */
  method RebuildLru(ghost p: Plan, topk: seq<int>, mark: array<int>, pos: array<int>, assignCount: int,
                    lru: array<int>, missSlots: array<int>)
    requires lru != mark && lru != pos && lru != missSlots && missSlots.Length == |topk|
    requires PlanOk(p, |topk|, lru.Length) && PlanStored(p, mark[..], pos[..], mark.Length)
    requires assignCount == AssignCount(p) && missSlots[..] == Pad(Assigned(p), |topk|)
    modifies lru
    ensures lru[..] == Rebuilt(p, lru.Length)
  {
    var maxToken := mark.Length;
    var evictableCount, hitCount := pos[maxToken - 2], pos[maxToken - 1];
    var unassigned, valid := evictableCount - assignCount, evictableCount + hitCount;
    var todo := Indices(lru.Length);
    while todo != {}
      invariant todo <= Indices(lru.Length)
      invariant forall i :: 0 <= i < lru.Length && i !in todo ==> lru[i] == Rebuilt(p, lru.Length)[i]
      decreases todo
    {
      var i :| i in todo;
      var slot := INVALID;
      if i < unassigned {
        slot := mark[assignCount + i];
        assert slot == mark[..|p.evictable|][assignCount + i];
      } else if i < evictableCount {
        slot := missSlots[i - unassigned];
        assert slot == missSlots[..][i - unassigned];
      } else if i < valid {
        slot := mark[maxToken - 1 - (i - evictableCount)];
      }
      lru[i] := slot;
      todo := todo - {i};
    }
  }
}
