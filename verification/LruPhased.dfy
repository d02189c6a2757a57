/** The phased SIMT kernels of one row: reset, prepare, sequential plan, assign, rebuild,
    sharing one workspace slice whose stale contents are told apart by an epoch. */
module LruPhased {
  import opened Compaction
  import opened LruSpec
  import opened LruDevice
  import opened LruFacts

  const EPOCH_RESET_THRESHOLD: int := 0x4000_0000
  const INT32_MAX: int := 0x7fff_ffff
  const INT64_MAX: int := 0x7fff_ffff_ffff_ffff
  const WORKSPACE_THREADS: int := 8

  /** The host-side condition for using these kernels. */
  predicate CanUsePhased(numReqs: int, topk: int, capacity: int, maxToken: int) {
    && numReqs > 0 && topk > 0 && capacity > 0 && maxToken >= 3
    && capacity <= maxToken && topk <= maxToken - 2
    && topk < INT32_MAX && capacity < INT32_MAX && maxToken <= INT32_MAX
    && numReqs <= INT64_MAX / topk && numReqs <= INT64_MAX / capacity
    && maxToken <= INT64_MAX / WORKSPACE_THREADS
  }

  lemma AtMostQuotient(n: nat, d: nat, limit: nat)
    requires d > 0
    ensures n <= limit / d <==> n * d <= limit
  {
    var q := limit / d;
    assert limit == q * d + limit % d;
    if n <= q {
      Multiples(d, n, q);
    } else {
      Multiples(d, q + 1, n);
    }
  }

  /** The shapes that get these kernels, with all bounds written out. */
  lemma PhasedShapeIff(numReqs: int, topk: int, capacity: int, maxToken: int)
    ensures CanUsePhased(numReqs, topk, capacity, maxToken) <==>
      && 1 <= numReqs && 1 <= topk <= maxToken - 2 && 1 <= capacity <= maxToken <= 2147483647
      && capacity <= 2147483646
      && numReqs * topk <= 9223372036854775807 && numReqs * capacity <= 9223372036854775807
  {
    if numReqs > 0 && topk > 0 && capacity > 0 {
      AtMostQuotient(numReqs, topk, INT64_MAX);
      AtMostQuotient(numReqs, capacity, INT64_MAX);
    }
  }

  // ---- the epoch

  /** Epochs count down from -2 and start over, on a cleared slice, after 1 - 2^30. */
  lemma EpochRule(epoch: int)
    ensures NextEpoch(epoch) == if -1073741823 < epoch < -1 then epoch - 1 else -2
    ensures Exhausted(epoch) <==> !(-1073741823 < epoch < -1)
  {
  }

  /** An epoch that forces the workspace to be cleared. */
  predicate Exhausted(epoch: int) { epoch >= -1 || epoch <= 1 - EPOCH_RESET_THRESHOLD }

  function NextEpoch(epoch: int): int { if Exhausted(epoch) then -2 else epoch - 1 }

  /** No mark of the slice can be mistaken for a mark of the coming call. */
  ghost predicate Distinguishable(mark: seq<int>, epoch: int) {
    Exhausted(epoch) || forall t :: 0 <= t < |mark| ==> mark[t] != NextEpoch(epoch)
  }

  /** What phased calls keep, and what makes whole runs of them right: unless the next call
      clears it, a slice holds no mark older than its epoch. Stale epochs are larger and slot
      ids are non-negative. */
  ghost predicate FreshNext(mark: seq<int>, epoch: int) {
    Exhausted(epoch) || forall t :: 0 <= t < |mark| ==> mark[t] >= epoch
  }

  lemma FreshIsDistinguishable(mark: seq<int>, epoch: int)
    requires FreshNext(mark, epoch)
    ensures Distinguishable(mark, epoch)
  {
  }

  /** The epoch after any number of phased calls. */
  function EpochAfter(start: int, calls: nat): int {
    if calls == 0 then start else NextEpoch(EpochAfter(start, calls - 1))
  }

  /** From the first call on the epoch stays in [1 - 2^30, -2], so it never wraps and
      never equals a slot id or the cleared value. */
  lemma {:induction false} EpochStaysInRange(start: int, calls: nat)
    requires calls >= 1
    ensures -1073741823 <= EpochAfter(start, calls) <= -2
  {
    if calls == 1 {
    } else {
      EpochStaysInRange(start, calls - 1);
    }
  }

  // ---- reset and prepare

  method Reset(row: RowMemory, reqId: int)
    requires row.Shaped()
    modifies row.table, row.lru, row`lastReq
    ensures row.Value() == if old(row.lastReq) != reqId then ResetRow(row.capacity, reqId) else old(row.Value())
  {
    if row.lastReq == reqId {
      return;
    }
    for slot := 0 to row.capacity
      invariant forall s :: 0 <= s < slot ==> row.table[s] == INVALID && row.lru[s] == s
    {
      row.table[slot] := INVALID;
      row.lru[slot] := slot;
    }
    row.lastReq := reqId;
  }

  /** Both strided loops of the prepare kernel, interleaved in any order. */
  method Prepare(row: RowMemory, prefix: int, maxToken: int)
    requires row.Shaped()
    modifies row.table, row.current, row.missTokens, row.missSlots, row`missCount
    ensures row.table[..] == Invalidated(old(row.table[..]), prefix, maxToken)
    ensures forall s :: 0 <= s < row.capacity ==>
      var t := old(row.table[s]); row.table[s] == if 0 <= t < maxToken && t >= prefix then -1 else t
    ensures forall q :: 0 <= q < row.width ==> row.current[q] == row.missTokens[q] == row.missSlots[q] == -1
    ensures row.current[..] == row.missTokens[..] == row.missSlots[..] == Pad([], row.width)
    ensures row.missCount == 0
  {
    hide Indices;
    row.missCount := 0;
    var stable := prefix;
    if stable < 0 {
      stable := 0;
    } else if stable > maxToken {
      stable := maxToken;
    }
    var positions, slots := Indices(row.width), Indices(row.capacity);
    while positions != {} || slots != {}
      invariant positions <= Indices(row.width) && slots <= Indices(row.capacity) && row.missCount == 0
      invariant forall q :: 0 <= q < row.width && q !in positions ==>
        row.current[q] == row.missTokens[q] == row.missSlots[q] == INVALID
      invariant forall s :: 0 <= s < row.capacity ==>
        row.table[s] == if s in slots then old(row.table[s]) else Invalidated(old(row.table[..]), prefix, maxToken)[s]
      decreases positions, slots
    {
      if {
        case positions != {} =>
          var q :| q in positions;
          row.current[q], row.missTokens[q], row.missSlots[q] := INVALID, INVALID, INVALID;
          positions := positions - {q};
        case slots != {} =>
          var s :| s in slots;
          var token := row.table[s];
          if 0 <= token < maxToken && token >= stable {
            row.table[s] := INVALID;
          }
          slots := slots - {s};
      }
    }
    assert row.current[..] == Pad([], row.width);
    assert row.missTokens[..] == Pad([], row.width);
    assert row.missSlots[..] == Pad([], row.width);
  }

  // ---- the sequential plan

  /** The marks of the current epoch are exactly the requested tokens, each with its
      first requesting position. */
  ghost predicate Marked(topk: seq<int>, n: nat, mark: seq<int>, pos: seq<int>, epoch: int)
    requires n <= |topk|
  {
    |mark| == |pos| &&
    forall t :: 0 <= t < |mark| ==>
      (mark[t] == epoch <==> First(topk, t, n) < n) && (mark[t] == epoch ==> pos[t] == First(topk, t, n))
  }

  /** The marks and positions a call starts from: cleared ones if the epoch is exhausted. */
  function Begun(cells: seq<int>, epoch: int, cleared: int): (b: seq<int>)
    ensures |b| == |cells|
  {
    if Exhausted(epoch) then seq(|cells|, _ => cleared) else cells
  }

  method BeginEpoch(ws: Workspace) returns (epoch: int)
    requires ws.Shaped()
    modifies ws.mark, ws.pos, ws`epoch
    ensures epoch == ws.epoch == NextEpoch(old(ws.epoch))
    ensures ws.mark[..] == Begun(old(ws.mark[..]), old(ws.epoch), 0)
    ensures ws.pos[..] == Begun(old(ws.pos[..]), old(ws.epoch), INVALID)
  {
    epoch := -2;
    if ws.epoch >= -1 || ws.epoch <= 1 - EPOCH_RESET_THRESHOLD {
      for token := 0 to ws.maxToken
        invariant forall t :: 0 <= t < token ==> ws.mark[t] == 0 && ws.pos[t] == INVALID
      {
        ws.mark[token] := 0;
        ws.pos[token] := INVALID;
      }
    } else {
      epoch := ws.epoch - 1;
    }
    ws.epoch := epoch;
  }

  /** The marks after n positions, whatever they were before. */
  function MarkAfter(topk: seq<int>, n: nat, mark: seq<int>, epoch: int): (m: seq<int>)
    requires n <= |topk|
    ensures |m| == |mark|
  {
    seq(|mark|, t requires 0 <= t < |mark| => if First(topk, t, n) < n then epoch else mark[t])
  }

  /** A cell that carries the epoch from the start keeps its old position. */
  function PosAfter(topk: seq<int>, n: nat, mark: seq<int>, pos: seq<int>, epoch: int): (q: seq<int>)
    requires n <= |topk| && |mark| == |pos|
    ensures |q| == |pos|
  {
    seq(|pos|, t requires 0 <= t < |pos| =>
      if First(topk, t, n) < n && mark[t] != epoch then First(topk, t, n) else pos[t])
  }

  /** The marking loop, on any slice. */
  method MarkTopk(topk: seq<int>, mark: array<int>, pos: array<int>, epoch: int)
    requires mark != pos && mark.Length == pos.Length
    modifies mark, pos
    ensures mark[..] == MarkAfter(topk, |topk|, old(mark[..]), epoch)
    ensures pos[..] == PosAfter(topk, |topk|, old(mark[..]), old(pos[..]), epoch)
  {
    ghost var mark0, pos0 := mark[..], pos[..];
    for p := 0 to |topk|
      invariant forall t :: 0 <= t < mark.Length ==> mark[t] == if First(topk, t, p) < p then epoch else mark0[t]
      invariant forall t :: 0 <= t < mark.Length ==>
        pos[t] == if First(topk, t, p) < p && mark0[t] != epoch then First(topk, t, p) else pos0[t]
    {
      var token := topk[p];
      if 0 <= token < mark.Length && mark[token] != epoch {
        mark[token] := epoch;
        pos[token] := p;
      }
    }
  }

  /** Without a stale mark the marks are exactly the requested tokens. */
  lemma MarkingIsRight(topk: seq<int>, mark: seq<int>, pos: seq<int>, epoch: int)
    requires |mark| == |pos| && forall t :: 0 <= t < |mark| ==> mark[t] != epoch
    ensures Marked(topk, |topk|, MarkAfter(topk, |topk|, mark, epoch), PosAfter(topk, |topk|, mark, pos, epoch), epoch)
  {
  }

  function Encode(slot: int, table: seq<int>, topk: seq<int>, maxToken: int): int {
    if !IsSlot(slot, |table|) then INVALID
    else if IsHit(table, topk, maxToken, slot) then -slot - 2 else slot
  }

  function Encoded(lru: seq<int>, table: seq<int>, topk: seq<int>, maxToken: int): (e: seq<int>)
    ensures |e| == |lru|
  {
    seq(|lru|, i requires 0 <= i < |lru| => Encode(lru[i], table, topk, maxToken))
  }

  /** What the hit scan has served after n entries. */
  function ServedAt(lru: seq<int>, table: seq<int>, topk: seq<int>, maxToken: int, n: nat, p: nat): int
    requires n <= |lru| && p < |topk|
  {
    if IsToken(topk[p], maxToken) && First(topk, topk[p], |topk|) == p then Holder(lru, table, topk[p], n) else INVALID
  }

  /** Serving the n-th entry changes only the first position asking for its token. */
  lemma ServeEntry(lru: seq<int>, table: seq<int>, topk: seq<int>, maxToken: int, n: nat, p: nat)
    requires n < |lru| && p < |topk|
    ensures ServedAt(lru, table, topk, maxToken, n + 1, p) ==
      if IsSlot(lru[n], |table|) && IsHit(table, topk, maxToken, lru[n]) && First(topk, table[lru[n]], |topk|) == p
      then lru[n] else ServedAt(lru, table, topk, maxToken, n, p)
  {
  }

  lemma RequestedIffFirst(topk: seq<int>, token: int)
    ensures First(topk, token, |topk|) < |topk| <==> token in topk
  {
  }

  /** What the hit test of the kernel sees in the marks. */
  predicate LooksHit(slot: int, table: seq<int>, mark: seq<int>, epoch: int) {
    IsSlot(slot, |table|) && 0 <= table[slot] < |mark| && mark[table[slot]] == epoch
  }

  function EncodedBy(lru: seq<int>, table: seq<int>, mark: seq<int>, epoch: int): (e: seq<int>)
    ensures |e| == |lru|
  {
    seq(|lru|, i requires 0 <= i < |lru| =>
      if !IsSlot(lru[i], |table|) then INVALID
      else if LooksHit(lru[i], table, mark, epoch) then -lru[i] - 2 else lru[i])
  }

  /** The answers after n entries of the hit scan, by what the marks and positions say. */
  function ServedBy(lru: seq<int>, table: seq<int>, mark: seq<int>, pos: seq<int>, epoch: int, width: nat,
                    n: nat): (c: seq<int>)
    requires n <= |lru| && |mark| == |pos|
    ensures |c| == width
  {
    if n == 0 then Pad([], width)
    else
      var c, slot := ServedBy(lru, table, mark, pos, epoch, width, n - 1), lru[n - 1];
      if LooksHit(slot, table, mark, epoch) && 0 <= pos[table[slot]] < width then c[pos[table[slot]] := slot] else c
  }

  /** The hit scan, on any marks whose positions lie in the row. */
  method EncodeHits(table: seq<int>, mark: seq<int>, pos: seq<int>, epoch: int, lru: array<int>, current: array<int>)
    requires lru != current && lru.Length == |table| && |mark| == |pos| && current[..] == Pad([], current.Length)
    requires forall t :: 0 <= t < |mark| && mark[t] == epoch ==> 0 <= pos[t] < current.Length
    modifies lru, current
    ensures lru[..] == EncodedBy(old(lru[..]), table, mark, epoch)
    ensures current[..] == ServedBy(old(lru[..]), table, mark, pos, epoch, current.Length, lru.Length)
  {
    ghost var lru0 := lru[..];
    for order := 0 to lru.Length
      invariant forall i :: 0 <= i < lru.Length ==>
        lru[i] == if i < order then EncodedBy(lru0, table, mark, epoch)[i] else lru0[i]
      invariant current[..] == ServedBy(lru0, table, mark, pos, epoch, current.Length, order)
    {
      var slot := lru[order];
      if slot < 0 || slot >= lru.Length {
        lru[order] := INVALID;
      } else {
        var token := table[slot];
        if 0 <= token < |mark| && mark[token] == epoch {
          current[pos[token]] := slot;
          lru[order] := -slot - 2;
        } else {
          lru[order] := slot;
        }
      }
    }
  }

  /** On right marks the scan serves exactly the hits. */
  lemma {:induction false} ServedIsRight(lru: seq<int>, table: seq<int>, topk: seq<int>, mark: seq<int>,
                                         pos: seq<int>, epoch: int, n: nat)
    requires n <= |lru| && Marked(topk, |topk|, mark, pos, epoch)
    ensures forall p :: 0 <= p < |topk| ==>
      ServedBy(lru, table, mark, pos, epoch, |topk|, n)[p] == ServedAt(lru, table, topk, |mark|, n, p)
  {
    if n == 0 {
    } else {
      ServedIsRight(lru, table, topk, mark, pos, epoch, n - 1);
      var slot := lru[n - 1];
      if IsSlot(slot, |table|) { RequestedIffFirst(topk, table[slot]); }
      forall p | 0 <= p < |topk|
        ensures ServedBy(lru, table, mark, pos, epoch, |topk|, n)[p] == ServedAt(lru, table, topk, |mark|, n, p)
      {
        ServeEntry(lru, table, topk, |mark|, n - 1, p);
      }
    }
  }

  /** The hits found and the answers given by the kernel are those of the abstract step. */
  ghost predicate HitsRight(lru: seq<int>, table: seq<int>, topk: seq<int>, mark: seq<int>, pos: seq<int>, epoch: int)
    requires |mark| == |pos|
  {
    var m, q := MarkAfter(topk, |topk|, mark, epoch), PosAfter(topk, |topk|, mark, pos, epoch);
    && EncodedBy(lru, table, m, epoch) == Encoded(lru, table, topk, |mark|)
    && ServedBy(lru, table, m, q, epoch, |topk|, |lru|) == HitCurrent(lru, table, topk, |mark|)
  }

  lemma NoStaleMarkIsRight(lru: seq<int>, table: seq<int>, topk: seq<int>, mark: seq<int>, pos: seq<int>, epoch: int)
    requires |mark| == |pos| && forall t :: 0 <= t < |mark| ==> mark[t] != epoch
    ensures HitsRight(lru, table, topk, mark, pos, epoch)
  {
    var m, q := MarkAfter(topk, |topk|, mark, epoch), PosAfter(topk, |topk|, mark, pos, epoch);
    MarkingIsRight(topk, mark, pos, epoch);
    MarkedHits(lru, table, topk, m, q, epoch);
  }

  lemma MarkedHits(lru: seq<int>, table: seq<int>, topk: seq<int>, mark: seq<int>, pos: seq<int>, epoch: int)
    requires Marked(topk, |topk|, mark, pos, epoch)
    ensures EncodedBy(lru, table, mark, epoch) == Encoded(lru, table, topk, |mark|)
    ensures ServedBy(lru, table, mark, pos, epoch, |topk|, |lru|) == HitCurrent(lru, table, topk, |mark|)
  {
    hide ServedBy, Holder;
    forall i | 0 <= i < |lru|
      ensures EncodedBy(lru, table, mark, epoch)[i] == Encoded(lru, table, topk, |mark|)[i]
    {
      if IsSlot(lru[i], |table|) { RequestedIffFirst(topk, table[lru[i]]); }
    }
    ServedIsRight(lru, table, topk, mark, pos, epoch, |lru|);
  }

  /** A resident token with a stale mark is taken for a hit although nobody asked for it. */
  lemma StaleMarkIsWrong(mark: seq<int>, pos: seq<int>, epoch: int, width: nat, capacity: nat, t: nat)
    requires |mark| == |pos| && t < |mark| && mark[t] == epoch && capacity > 0
    ensures !HitsRight(Iota(capacity), seq(capacity, _ => t), seq(width, _ => INVALID), mark, pos, epoch)
  {
    var lru, table, topk := Iota(capacity), seq(capacity, _ => t), seq(width, _ => INVALID);
    assert EncodedBy(lru, table, MarkAfter(topk, width, mark, epoch), epoch)[0] == -2;
    assert Encoded(lru, table, topk, |mark|)[0] == 0;
  }

  /** One phased call on a slice finds the right hits for every row and every Top-K exactly
      when no mark equals the coming epoch or the call clears the slice. */
  lemma CallIsRightIff(mark: seq<int>, pos: seq<int>, epoch: int, width: nat, capacity: nat)
    requires |mark| == |pos| && capacity > 0
    ensures (forall lru, table, topk :: |lru| == |table| == capacity && |topk| == width ==>
               HitsRight(lru, table, topk, Begun(mark, epoch, 0), Begun(pos, epoch, INVALID), NextEpoch(epoch)))
            <==> Distinguishable(mark, epoch)
  {
    hide HitsRight;
    var m, q, next := Begun(mark, epoch, 0), Begun(pos, epoch, INVALID), NextEpoch(epoch);
    if Distinguishable(mark, epoch) {
      forall lru, table, topk ensures HitsRight(lru, table, topk, m, q, next) {
        NoStaleMarkIsRight(lru, table, topk, m, q, next);
      }
    } else {
      var t :| 0 <= t < |mark| && mark[t] == next;
      StaleMarkIsWrong(m, q, next, width, capacity, t);
    }
  }

  /** The fused kernel stores epoch -2 and leaves the marks alone. With a mark -3 left by an
      earlier phased call, the next phased call answers a request for token 0 with a slot
      that holds token 3, and does not count it as a miss. */
  lemma StaleMarkAfterFusedCall()
    ensures var lru, table, topk, mark, pos := [0, 1], [3, INVALID], [0, 1], [5, 5, 5, -3], [1, 1, 1, 0];
            var m, q, next := MarkAfter(topk, 2, mark, -3), PosAfter(topk, 2, mark, pos, -3), NextEpoch(-2);
            var answers := ServedBy(lru, table, m, q, next, 2, 2);
            next == -3 && answers[0] == 0 && table[0] != topk[0] && !MissFlags(topk, answers, 4)[0]
  {
    var lru, table, topk, mark, pos := [0, 1], [3, INVALID], [0, 1], [5, 5, 5, -3], [1, 1, 1, 0];
    var m, q := MarkAfter(topk, 2, mark, -3), PosAfter(topk, 2, mark, pos, -3);
    assert m[3] == -3 && q[3] == 0;
    assert LooksHit(0, table, m, -3) && !LooksHit(1, table, m, -3);
    assert ServedBy(lru, table, m, q, -3, 2, 1) == Pad([], 2)[0 := 0];
  }

  /** Split the encoded row: evictable slots to the front of mark, hit slots to its back. */
  method PartitionSlots(ghost lru0: seq<int>, ghost table: seq<int>, ghost topk: seq<int>, lru: array<int>,
                        mark: array<int>)
    returns (evictableCount: nat, hitCount: nat)
    requires lru != mark && lru.Length == |table| == |lru0| <= mark.Length
    requires lru[..] == Encoded(lru0, table, topk, mark.Length)
    modifies mark
    ensures var p := MakePlan(lru0, table, topk, mark.Length);
      && evictableCount == |p.evictable| && hitCount == |p.hits| && evictableCount + hitCount <= |table|
      && mark[..evictableCount] == p.evictable
      && forall k :: 0 <= k < hitCount ==> mark[mark.Length - 1 - k] == p.hits[k]
    ensures forall t :: 0 <= t < mark.Length ==> mark[t] == old(mark[t]) || mark[t] >= 0
  {
    hide Rank, Select;
    var capacity, maxToken := lru.Length, mark.Length;
    ghost var e, h := EvictFlags(lru0, table, topk, maxToken), HitFlags(lru0, table, topk, maxToken);
    evictableCount, hitCount := 0, 0;
    SelectNone(lru0, e);
    SelectNone(lru0, h);
    for order := 0 to capacity
      invariant evictableCount == Rank(e, order) && hitCount == Rank(h, order) && evictableCount + hitCount <= order
      invariant mark[..evictableCount] == Select(lru0, e, order)
      invariant forall k :: 0 <= k < hitCount ==> mark[maxToken - 1 - k] == Select(lru0, h, order)[k]
      invariant forall t :: 0 <= t < maxToken ==> mark[t] == old(mark[t]) || mark[t] >= 0
    {
      var encoded := lru[order];
      assert encoded == lru[..][order];
      SelectStep(lru0, e, order);
      SelectStep(lru0, h, order);
      if encoded <= -2 {
        var slot := -encoded - 2;
        mark[maxToken - 1 - hitCount] := slot;
        hitCount := hitCount + 1;
      } else if 0 <= encoded < capacity {
        mark[evictableCount] := encoded;
        evictableCount := evictableCount + 1;
      }
    }
  }

  /** Collect the unresolved valid positions in Top-K order. */
  method CollectMisses(topk: seq<int>, current: seq<int>, missTokens: array<int>, pos: array<int>)
    returns (missCount: nat)
    requires missTokens != pos && |topk| == |current| == missTokens.Length && |topk| <= pos.Length
    requires missTokens[..] == Pad([], |topk|)
    modifies missTokens, pos
    ensures var misses := Select(Iota(|topk|), MissFlags(topk, current, pos.Length), |topk|);
      && missCount == |misses| && pos[..missCount] == misses
      && (forall j :: 0 <= j < missCount ==> 0 <= misses[j] < |topk|)
      && missTokens[..] == Pad(TokensAt(topk, misses), |topk|)
  {
    hide Rank, Select;
    ghost var f := MissFlags(topk, current, pos.Length);
    missCount := 0;
    SelectNone(Iota(|topk|), f);
    for p := 0 to |topk|
      invariant missCount == Rank(f, p) <= p
      invariant pos[..missCount] == Select(Iota(|topk|), f, p)
      invariant forall j :: 0 <= j < missCount ==> 0 <= pos[j] < |topk|
      invariant forall j :: 0 <= j < |topk| ==> missTokens[j] == if j < missCount then topk[pos[j]] else INVALID
    {
      var token := topk[p];
      SelectStep(Iota(|topk|), f, p);
      if 0 <= token < pos.Length && current[p] < 0 {
        missTokens[missCount] := token;
        pos[missCount] := p;
        missCount := missCount + 1;
      }
    }
    ghost var misses := Select(Iota(|topk|), f, |topk|);
    assert forall j :: 0 <= j < missCount ==> pos[j] == misses[j];
  }

  lemma BegunIsDistinct(mark: seq<int>, epoch: int)
    requires Distinguishable(mark, epoch)
    ensures forall t :: 0 <= t < |mark| ==> Begun(mark, epoch, 0)[t] != NextEpoch(epoch)
  {
  }

  lemma PositionsInRow(topk: seq<int>, mark: seq<int>, pos: seq<int>, epoch: int)
    requires Marked(topk, |topk|, mark, pos, epoch)
    ensures forall t :: 0 <= t < |mark| && mark[t] == epoch ==> 0 <= pos[t] < |topk|
  {
  }

  lemma MarksStayFresh(topk: seq<int>, mark: seq<int>, epoch: int)
    ensures var m := MarkAfter(topk, |topk|, Begun(mark, epoch, 0), NextEpoch(epoch));
      FreshNext(mark, epoch) ==> forall t :: 0 <= t < |mark| ==> m[t] >= NextEpoch(epoch)
  {
  }

  /** The first three loops of the plan kernel: begin the epoch, mark, find the hits. */
  method FindHits(row: RowMemory, ws: Workspace, topk: seq<int>)
    requires Separate(row, ws) && |topk| == row.width && Distinguishable(ws.mark[..], ws.epoch)
    requires row.current[..] == Pad([], row.width)
    modifies row.lru, row.current, ws.mark, ws.pos, ws`epoch
    ensures row.lru[..] == Encoded(old(row.lru[..]), row.table[..], topk, ws.maxToken)
    ensures row.current[..] == HitCurrent(old(row.lru[..]), row.table[..], topk, ws.maxToken)
    ensures ws.epoch == NextEpoch(old(ws.epoch))
    ensures old(FreshNext(ws.mark[..], ws.epoch)) ==> forall t :: 0 <= t < ws.maxToken ==> ws.mark[t] >= ws.epoch
  {
    hide Encoded, Marked, MarkAfter, PosAfter, EncodedBy, ServedBy, Begun, HitCurrent;
    ghost var mark0, epoch0 := ws.mark[..], ws.epoch;
    var epoch := BeginEpoch(ws);
    ghost var begun := ws.mark[..];
    assert forall t :: 0 <= t < |begun| ==> begun[t] != epoch by { BegunIsDistinct(mark0, epoch0); }
    MarkingIsRight(topk, begun, ws.pos[..], epoch);
    MarkTopk(topk, ws.mark, ws.pos, epoch);
    MarkedHits(row.lru[..], row.table[..], topk, ws.mark[..], ws.pos[..], epoch);
    PositionsInRow(topk, ws.mark[..], ws.pos[..], epoch);
    MarksStayFresh(topk, mark0, epoch0);
    assert forall t :: 0 <= t < ws.maxToken ==> ws.mark[t] == ws.mark[..][t];
    EncodeHits(row.table[..], ws.mark[..], ws.pos[..], epoch, row.lru, row.current);
  }

  /** The single-thread plan kernel. It needs only that no mark equals the coming epoch, and
      hands a slice fit for runs on as such. */
  method MakePlanKernel(row: RowMemory, ws: Workspace, topk: seq<int>)
    requires Separate(row, ws) && |topk| == row.width <= ws.maxToken - 2 && row.capacity <= ws.maxToken
    requires Distinguishable(ws.mark[..], ws.epoch)
    requires row.current[..] == row.missTokens[..] == Pad([], row.width)
    modifies row.lru, row.current, row.missTokens, row`missCount, ws.mark, ws.pos, ws`epoch
    ensures var p := MakePlan(old(row.lru[..]), row.table[..], topk, ws.maxToken);
      && PlanStored(p, ws.mark[..], ws.pos[..], ws.maxToken)
      && row.current[..] == p.current && row.missCount == AssignCount(p)
      && PlanOk(p, |topk|, row.capacity)
      && row.missTokens[..] == Pad(TokensAt(topk, p.misses), |topk|)
    ensures ws.epoch == NextEpoch(old(ws.epoch))
    ensures old(FreshNext(ws.mark[..], ws.epoch)) ==> FreshNext(ws.mark[..], ws.epoch)
  {
    hide Select, Rank, Encoded, First, Holder;
    ghost var lru0 := row.lru[..];
    FindHits(row, ws, topk);
    var evictableCount, hitCount := PartitionSlots(lru0, row.table[..], topk, row.lru, ws.mark);
    var missCount := CollectMisses(topk, row.current[..], row.missTokens, ws.pos);
    PlanIsOk(lru0, row.table[..], topk, ws.maxToken);
    row.missCount := if missCount < evictableCount then missCount else evictableCount;
    ws.pos[ws.maxToken - 2] := evictableCount;
    ws.pos[ws.maxToken - 1] := hitCount;
  }

  /** One row through all five kernels: the abstract step, for any workspace contents
      without a mark of the coming epoch, such as earlier phased calls leave behind. */
  method CompactPhased(row: RowMemory, ws: Workspace, call: Call)
    requires Separate(row, ws) && |call.topk| == row.width <= ws.maxToken - 2 && row.capacity <= ws.maxToken
    requires Usable(call, row.Value()) && Distinguishable(ws.mark[..], ws.epoch)
    modifies row, row.table, row.lru, row.current, row.missTokens, row.missSlots, ws.mark, ws.pos, ws`epoch
    ensures row.Holds(Step(call, old(row.Value()), ws.maxToken))
    ensures ws.epoch == NextEpoch(old(ws.epoch))
    ensures old(FreshNext(ws.mark[..], ws.epoch)) ==> FreshNext(ws.mark[..], ws.epoch)
  {
    ghost var before := row.Value();
    Reset(row, call.reqId);
    Prepare(row, call.prefix, ws.maxToken);
    ghost var r := row.Value();
    assert r == Prepared(call, before, ws.maxToken);
    MakePlanKernel(row, ws, call.topk);
    ghost var p := MakePlan(r.lru, r.table, call.topk, ws.maxToken);
    PreparedOk(call, before, ws.maxToken);
    PlanDistinct(r.lru, r.table, call.topk, ws.maxToken);
    AssignMisses(p, call.topk, ws.mark, ws.pos, row.missCount, row.table, row.current, row.missTokens, row.missSlots);
    RebuildLru(p, call.topk, ws.mark, ws.pos, row.missCount, row.lru, row.missSlots);
  }
}
