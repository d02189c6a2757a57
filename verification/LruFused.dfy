/** The fused kernel of one row: one block of lanes, atomics instead of ordered scans,
    block prefix scans instead of sequential compaction, and a fast path for resets.
    Phases end at barriers; inside a phase the lanes' accesses to shared memory come in any
    order. Where a lane writes several arrays in one phase, the model does so array by array:
    the arrays are different and no lane reads then what another lane writes, so no other
    interleaving of these writes differs. Register-only work is written as sequences. */
module LruFused {
  import opened Compaction
  import opened LruSpec
  import opened LruDevice
  import opened LruFacts
  import opened WarpScan
  import LruPhased

  const FUSED_EPOCH: int := -2

  // ---- phase 1: reset or invalidate

  method ResetPrepare(row: RowMemory, reqId: int, prefix: int, maxToken: int) returns (reset: bool)
    requires row.Shaped()
    modifies row.table, row.lru, row.current, row.missTokens, row.missSlots
    ensures reset == (row.lastReq != reqId)
    ensures row.table[..] == Prepared(Call([], reqId, prefix), old(row.Value()), maxToken).table
    ensures row.lru[..] == Prepared(Call([], reqId, prefix), old(row.Value()), maxToken).lru
    ensures forall s :: 0 <= s < row.capacity ==>
      var t := old(row.table[s]); row.table[s] == if reset || (0 <= t < maxToken && t >= prefix) then -1 else t
    ensures forall s :: 0 <= s < row.capacity ==> row.lru[s] == if reset then s else old(row.lru[s])
    ensures row.current[..] == Pad([], row.width) && row.missTokens[..] == Pad([], row.width)
    ensures row.missSlots[..] == Pad([], row.width)
  {
    hide Indices;
    reset := row.lastReq != reqId;
    var stable := if prefix < 0 then 0 else if prefix > maxToken then maxToken else prefix;
    ghost var before := row.Value();
    ghost var want := Prepared(Call([], reqId, prefix), before, maxToken);
    var positions := Indices(row.width);
    while positions != {}
      invariant positions <= Indices(row.width) && row.table[..] == before.table && row.lru[..] == before.lru
      invariant forall q :: 0 <= q < row.width && q !in positions ==>
        row.current[q] == row.missTokens[q] == row.missSlots[q] == INVALID
      decreases positions
    {
      var q :| q in positions;
      row.current[q], row.missTokens[q], row.missSlots[q] := INVALID, INVALID, INVALID;
      positions := positions - {q};
    }
    var slots := Indices(row.capacity);
    while slots != {}
      invariant slots <= Indices(row.capacity)
      invariant forall q :: 0 <= q < row.width ==> row.current[q] == row.missTokens[q] == row.missSlots[q] == INVALID
      invariant forall s :: 0 <= s < row.capacity ==>
        if s in slots then row.table[s] == before.table[s] && row.lru[s] == before.lru[s]
        else row.table[s] == want.table[s] && row.lru[s] == want.lru[s]
      decreases slots
    {
      var s :| s in slots;
      if reset {
        row.table[s] := INVALID;
        row.lru[s] := s;
      } else {
        var token := row.table[s];
        if 0 <= token < maxToken && token >= stable {
          row.table[s] := INVALID;
        }
      }
      slots := slots - {s};
    }
  }

  // ---- phase 2: first occurrence by atomic minimum

  /** pos holds, for every token, the least finished position that asks for it. */
  ghost predicate LeastOf(topk: seq<int>, todo: set<int>, pos: seq<int>) {
    forall t :: 0 <= t < |pos| ==>
      && 0 <= pos[t] <= |topk|
      && (pos[t] < |topk| ==> pos[t] !in todo && topk[pos[t]] == t)
      && forall p :: 0 <= p < |topk| && p !in todo && topk[p] == t ==> pos[t] <= p
  }

  method ElectFirst(topk: seq<int>, mark: array<int>, pos: array<int>)
    requires mark != pos && mark.Length == pos.Length
    modifies mark, pos
    ensures forall t :: 0 <= t < pos.Length ==> mark[t] == INVALID && pos[t] == First(topk, t, |topk|)
  {
    hide Indices, First;
    var cells := Indices(pos.Length);
    while cells != {}
      invariant cells <= Indices(pos.Length)
      invariant forall t :: 0 <= t < pos.Length && t !in cells ==> mark[t] == INVALID && pos[t] == |topk|
      decreases cells
    {
      var t :| t in cells;
      mark[t] := INVALID;
      pos[t] := |topk|;
      cells := cells - {t};
    }
    // barrier
    var todo := Indices(|topk|);
    while todo != {}
      invariant todo <= Indices(|topk|) && LeastOf(topk, todo, pos[..])
      invariant forall t :: 0 <= t < mark.Length ==> mark[t] == INVALID
      decreases todo
    {
      var p :| p in todo;
      var token := topk[p];
      if 0 <= token < pos.Length {
        pos[token] := if p < pos[token] then p else pos[token];
      }
      todo := todo - {p};
    }
    forall t | 0 <= t < pos.Length ensures pos[t] == First(topk, t, |topk|) {
      LeastIsFirst(topk, pos[..], t);
    }
  }

  lemma LeastIsFirst(topk: seq<int>, pos: seq<int>, t: nat)
    requires LeastOf(topk, {}, pos) && t < |pos|
    ensures pos[t] == First(topk, t, |topk|)
  {
    var f := First(topk, t, |topk|);
    if f < |topk| { assert pos[t] <= f; }
  }

  // ---- phase 3: encode, and youngest holder by atomic maximum

  /** LRU entry o is a hit on token t. */
  predicate HitsToken(lru: seq<int>, table: seq<int>, topk: seq<int>, maxToken: int, o: int, t: int) {
    0 <= o < |lru| && IsSlot(lru[o], |table|) && IsHit(table, topk, maxToken, lru[o]) && table[lru[o]] == t
  }

  /** mark holds, for every token, the greatest finished LRU place that hits it. */
  ghost predicate GreatestOf(lru: seq<int>, table: seq<int>, topk: seq<int>, todo: set<int>, mark: seq<int>) {
    forall t :: 0 <= t < |mark| ==>
      && mark[t] >= INVALID
      && (mark[t] >= 0 ==> mark[t] !in todo && HitsToken(lru, table, topk, |mark|, mark[t], t))
      && forall o :: HitsToken(lru, table, topk, |mark|, o, t) && o !in todo ==> o <= mark[t]
  }

  method ElectYoungest(topk: seq<int>, table: seq<int>, pos: seq<int>, lru: array<int>, mark: array<int>)
    requires lru != mark && |pos| == mark.Length && lru.Length == |table|
    requires forall t :: 0 <= t < mark.Length ==> mark[t] == INVALID && pos[t] == First(topk, t, |topk|)
    modifies lru, mark
    ensures lru[..] == LruPhased.Encoded(old(lru[..]), table, topk, mark.Length)
    ensures GreatestOf(old(lru[..]), table, topk, {}, mark[..])
  {
    hide Indices, First;
    ghost var lru0 := lru[..];
    var maxToken, capacity := mark.Length, lru.Length;
    var todo := Indices(capacity);
    while todo != {}
      invariant todo <= Indices(capacity) && GreatestOf(lru0, table, topk, todo, mark[..])
      invariant forall i :: 0 <= i < capacity ==>
        lru[i] == if i in todo then lru0[i] else LruPhased.Encode(lru0[i], table, topk, maxToken)
      decreases todo
    {
      var order :| order in todo;
      var slot, encoded := lru[order], INVALID;
      if 0 <= slot < capacity {
        var token := table[slot];
        LruPhased.RequestedIffFirst(topk, token);
        if 0 <= token < maxToken && pos[token] < |topk| {
          encoded := -slot - 2;
          mark[token] := if order > mark[token] then order else mark[token];
        } else {
          encoded := slot;
        }
      }
      lru[order] := encoded;
      todo := todo - {order};
    }
  }

  // ---- phase 4: the elected holder serves the first position

  /** The LRU place whose slot serves position p, if any. */
  function WinnerOf(topk: seq<int>, mark: seq<int>, p: nat): int
    requires p < |topk|
  {
    if IsToken(topk[p], |mark|) && First(topk, topk[p], |topk|) == p then mark[topk[p]] else INVALID
  }

  method ServeHits(ghost lru0: seq<int>, topk: seq<int>, table: seq<int>, lru: seq<int>, mark: seq<int>,
                   pos: seq<int>, current: array<int>)
    requires |lru| == |lru0| == |table| && current.Length == |topk| && |pos| == |mark|
    requires lru == LruPhased.Encoded(lru0, table, topk, |mark|) && GreatestOf(lru0, table, topk, {}, mark)
    requires forall t :: 0 <= t < |mark| ==> pos[t] == First(topk, t, |topk|)
    requires current[..] == Pad([], |topk|)
    modifies current
    ensures current[..] == HitCurrent(lru0, table, topk, |mark|)
  {
    hide Indices, First;
    forall p | 0 <= p < |topk| ensures WinnerOf(topk, mark, p) >= 0 ==> 0 <= WinnerOf(topk, mark, p) < |lru0| {
      if WinnerOf(topk, mark, p) >= 0 { assert HitsToken(lru0, table, topk, |mark|, mark[topk[p]], topk[p]); }
    }
    var todo := Indices(|lru|);
    while todo != {}
      invariant todo <= Indices(|lru|)
      invariant forall p :: 0 <= p < |topk| ==>
        var w := WinnerOf(topk, mark, p);
        current[p] == if w >= 0 && w !in todo then lru0[w] else INVALID
      decreases todo
    {
      var order :| order in todo;
      var encoded := lru[order];
      if encoded <= -2 {
        var slot := -encoded - 2;
        var token := table[slot];
        assert HitsToken(lru0, table, topk, |mark|, order, token);
        LruPhased.RequestedIffFirst(topk, token);
        if mark[token] == order {
          current[pos[token]] := slot;
        }
      }
      forall p | 0 <= p < |topk| && WinnerOf(topk, mark, p) == order
        ensures HitsToken(lru0, table, topk, |mark|, order, topk[p])
      {
        assert mark[topk[p]] == order;
      }
      todo := todo - {order};
    }
    forall p | 0 <= p < |topk| ensures current[p] == HitAt(lru0, table, topk, |mark|, p) {
      WinnerIsHolder(lru0, table, topk, mark, p);
    }
  }

  /** The greatest hitting place is the youngest holder that the ordered scan ends with. */
  lemma WinnerIsHolder(lru: seq<int>, table: seq<int>, topk: seq<int>, mark: seq<int>, p: nat)
    requires |lru| == |table| && GreatestOf(lru, table, topk, {}, mark) && p < |topk|
    ensures var w := WinnerOf(topk, mark, p);
      HitAt(lru, table, topk, |mark|, p) == if 0 <= w < |lru| then lru[w] else INVALID
  {
    if IsToken(topk[p], |mark|) && First(topk, topk[p], |topk|) == p {
      var t, w := topk[p], mark[topk[p]];
      if w >= 0 {
        assert HitsToken(lru, table, topk, |mark|, w, t);
        forall o | w < o < |lru| && IsSlot(lru[o], |table|) ensures table[lru[o]] != t {
          if table[lru[o]] == t { assert HitsToken(lru, table, topk, |mark|, o, t); }
        }
        LastHolder(lru, table, t, w, |lru|);
      } else {
        forall i | 0 <= i < |lru| && IsSlot(lru[i], |table|) ensures table[lru[i]] != t {
          if table[lru[i]] == t { assert HitsToken(lru, table, topk, |mark|, i, t); }
        }
      }
    }
  }

  lemma {:induction false} LastHolder(lru: seq<int>, table: seq<int>, t: int, w: nat, n: nat)
    requires w < n <= |lru| && IsSlot(lru[w], |table|) && table[lru[w]] == t
    requires forall o :: w < o < n && IsSlot(lru[o], |table|) ==> table[lru[o]] != t
    ensures Holder(lru, table, t, n) == lru[w]
  {
    if w == n - 1 {
    } else {
      LastHolder(lru, table, t, w, n - 1);
    }
  }

  // ---- phase 5: tiled scan and scatter of the slots

  function Bit(b: bool): int { if b then 1 else 0 }

  /** A scan of one tile's flags counts from the tile's start. */
  lemma {:induction false} TileRank(f: seq<bool>, start: nat, flags: seq<int>, k: nat)
    requires k <= |flags| && start + |flags| <= |f|
    requires forall t :: 0 <= t < |flags| ==> flags[t] == Bit(f[start + t])
    ensures PrefixSum(flags, k) == Rank(f, start + k) - Rank(f, start)
  {
    if k == 0 {
    } else {
      TileRank(f, start, flags, k - 1);
    }
  }

  /** One channel of the stable block scan, on scratch of its own. */
  method StableScan(ghost f: seq<bool>, start: nat, flags: seq<int>, width: nat) returns (scan: seq<int>)
    requires width >= 1 && |flags| == Base(width, width) && start + |flags| <= |f|
    requires forall t :: 0 <= t < |flags| ==> flags[t] == Bit(f[start + t])
    ensures |scan| == |flags| && forall t :: 0 <= t < |flags| ==> scan[t] == Rank(f, start + t + 1) - Rank(f, start)
  {
    var a, b := new int[|flags|], new int[|flags|];
    BlockScan(flags, width, width, a, b);
    scan := a[..];
    forall t | 0 <= t < |flags| ensures scan[t] == Rank(f, start + t + 1) - Rank(f, start) {
      TileRank(f, start, flags, t + 1);
    }
  }

  /** The finished items stand at their rank: evictable from the front, hit from the back. */
  ghost predicate Placed(e: seq<bool>, h: seq<bool>, xs: seq<int>, done: set<int>, mark: seq<int>) {
    && |e| == |h| == |xs| <= |mark|
    && (forall i :: 0 <= i < |xs| ==> !(e[i] && h[i]))
    && (forall i :: 0 <= i < |xs| && i in done && e[i] ==> mark[Rank(e, i)] == xs[i])
    && (forall i :: 0 <= i < |xs| && i in done && h[i] ==> mark[|mark| - 1 - Rank(h, i)] == xs[i])
  }

  /** Two flagged items never share a cell, whichever end they go to. */
  lemma CellsDiffer(e: seq<bool>, h: seq<bool>, i: nat, k: nat, size: nat)
    requires |e| == |h| <= size && i < |e| && k < |e| && forall j :: 0 <= j < |e| ==> !(e[j] && h[j])
    ensures i != k && e[i] && e[k] ==> Rank(e, i) != Rank(e, k)
    ensures i != k && h[i] && h[k] ==> Rank(h, i) != Rank(h, k)
    ensures e[i] && h[k] ==> Rank(e, i) < size - 1 - Rank(h, k)
  {
    RankDisjoint(e, h, |e|);
    RankMonotone(e, i, |e|);
    RankMonotone(h, k, |e|);
    if i < k {
      RankMonotone(e, i, k);
      RankMonotone(h, i, k);
    } else {
      RankMonotone(e, k, i);
      RankMonotone(h, k, i);
    }
  }

  lemma PlaceFront(e: seq<bool>, h: seq<bool>, xs: seq<int>, done: set<int>, mark: seq<int>, i: nat)
    requires Placed(e, h, xs, done, mark) && i < |xs| && e[i]
    ensures Placed(e, h, xs, done + {i}, mark[Rank(e, i) := xs[i]])
  {
    forall k | 0 <= k < |xs|
      ensures (i != k && e[k] ==> Rank(e, i) != Rank(e, k)) && (h[k] ==> Rank(e, i) != |mark| - 1 - Rank(h, k))
    {
      CellsDiffer(e, h, i, k, |mark|);
    }
  }

  lemma PlaceBack(e: seq<bool>, h: seq<bool>, xs: seq<int>, done: set<int>, mark: seq<int>, i: nat)
    requires Placed(e, h, xs, done, mark) && i < |xs| && h[i]
    ensures Placed(e, h, xs, done + {i}, mark[|mark| - 1 - Rank(h, i) := xs[i]])
  {
    forall k | 0 <= k < |xs|
      ensures (i != k && h[k] ==> Rank(h, i) != Rank(h, k)) && (e[k] ==> Rank(e, k) != |mark| - 1 - Rank(h, i))
    {
      CellsDiffer(e, h, k, i, |mark|);
    }
  }

  lemma PlaceOne(e: seq<bool>, h: seq<bool>, xs: seq<int>, done: set<int>, mark: seq<int>, i: nat)
    requires Placed(e, h, xs, done, mark) && i < |xs|
    ensures e[i] ==> Placed(e, h, xs, done + {i}, mark[Rank(e, i) := xs[i]])
    ensures h[i] ==> Placed(e, h, xs, done + {i}, mark[|mark| - 1 - Rank(h, i) := xs[i]])
    ensures !e[i] && !h[i] ==> Placed(e, h, xs, done + {i}, mark)
  {
    if e[i] { PlaceFront(e, h, xs, done, mark, i); } else if h[i] { PlaceBack(e, h, xs, done, mark, i); }
  }

  lemma PlacedStart(e: seq<bool>, h: seq<bool>, xs: seq<int>, mark: seq<int>)
    requires |e| == |h| == |xs| <= |mark| && forall i :: 0 <= i < |xs| ==> !(e[i] && h[i])
    ensures Placed(e, h, xs, Indices(0), mark)
  {
  }

  lemma PlacedFewer(e: seq<bool>, h: seq<bool>, xs: seq<int>, done: set<int>, fewer: set<int>, mark: seq<int>)
    requires Placed(e, h, xs, done, mark) && fewer <= done
    ensures Placed(e, h, xs, fewer, mark)
  {
  }

  /** One tile: the lanes scatter their slots in any order. */
  method ScatterTile(ghost e: seq<bool>, ghost h: seq<bool>, ghost xs: seq<int>, start: nat, enc: seq<int>,
                     scanE: seq<int>, scanH: seq<int>, evictBase: nat, hitBase: nat, capacity: nat, mark: array<int>)
    requires |scanE| == |scanH| == |enc| && start + |enc| <= |xs| == |e| == |h| && evictBase == Rank(e, start)
    requires hitBase == Rank(h, start)
    requires Placed(e, h, xs, Indices(start), mark[..])
    requires forall t :: 0 <= t < |enc| ==>
      && e[start + t] == (0 <= enc[t] < capacity) && h[start + t] == (enc[t] <= -2)
      && (e[start + t] ==> enc[t] == xs[start + t]) && (h[start + t] ==> -enc[t] - 2 == xs[start + t])
      && scanE[t] == Rank(e, start + t + 1) - Rank(e, start) && scanH[t] == Rank(h, start + t + 1) - Rank(h, start)
    modifies mark
    ensures Placed(e, h, xs, Indices(start + |enc|), mark[..])
  {
    hide Placed, Indices;
    ghost var done := Indices(start);
    var todo := Indices(|enc|);
    PlacedBounds(e, h, xs, done, mark[..]);
    while todo != {}
      invariant todo <= Indices(|enc|) && Placed(e, h, xs, done, mark[..])
      invariant Indices(start) <= done && forall t :: 0 <= t < |enc| && t !in todo ==> start + t in done
      decreases todo
    {
      var t :| t in todo;
      ghost var m := mark[..];
      PlaceOne(e, h, xs, done, m, start + t);
      PlacedBounds(e, h, xs, done, m);
      var evictFlag, hitFlag := if 0 <= enc[t] < capacity then 1 else 0, if enc[t] <= -2 then 1 else 0;
      if evictFlag != 0 {
        mark[evictBase + scanE[t] - evictFlag] := enc[t];
      }
      if hitFlag != 0 {
        mark[mark.Length - 1 - hitBase - (scanH[t] - hitFlag)] := -enc[t] - 2;
      }
      assert mark[..] == if e[start + t] then m[Rank(e, start + t) := xs[start + t]]
                         else if h[start + t] then m[|m| - 1 - Rank(h, start + t) := xs[start + t]] else m;
      done := done + {start + t};
      todo := todo - {t};
    }
    forall i | i in Indices(start + |enc|) ensures i in done {
      if i >= start { assert i - start !in todo; }
    }
    PlacedFewer(e, h, xs, done, Indices(start + |enc|), mark[..]);
  }

  lemma PlacedBounds(e: seq<bool>, h: seq<bool>, xs: seq<int>, done: set<int>, mark: seq<int>)
    requires Placed(e, h, xs, done, mark)
    ensures |e| == |h| == |xs| <= |mark| && forall i :: 0 <= i < |xs| ==> !(e[i] && h[i])
    ensures forall i :: 0 <= i < |xs| ==> Rank(e, i) < |mark| && Rank(h, i) < |mark|
  {
  }

  /** The tiled scan-and-scatter equals the stable sequential filter. */
  method PartitionTiles(ghost lru0: seq<int>, ghost table: seq<int>, ghost topk: seq<int>, lru: seq<int>,
                        mark: array<int>, width: nat, tiles: nat)
    returns (evictBase: nat, hitBase: nat)
    requires width >= 1 && |lru| == |lru0| == |table| == Base(tiles, Base(width, width)) && |lru| <= mark.Length
    requires lru == LruPhased.Encoded(lru0, table, topk, mark.Length)
    modifies mark
    ensures var p := MakePlan(lru0, table, topk, mark.Length);
      && evictBase == |p.evictable| && hitBase == |p.hits| && evictBase + hitBase <= |table|
      && mark[..evictBase] == p.evictable
      && forall k :: 0 <= k < hitBase ==> mark[mark.Length - 1 - k] == p.hits[k]
  {
    hide Base, Placed, Indices, LruPhased.Encoded, Select, Rank;
    var lanes := Base(width, width);
    ghost var e, h := EvictFlags(lru0, table, topk, mark.Length), HitFlags(lru0, table, topk, mark.Length);
    evictBase, hitBase := 0, 0;
    BaseZero(lanes);
    SelectNone(lru0, e);
    SelectNone(lru0, h);
    PlacedStart(e, h, lru0, mark[..]);
    for tile := 0 to tiles
      invariant Base(tile, lanes) <= |lru| && evictBase == Rank(e, Base(tile, lanes))
      invariant hitBase == Rank(h, Base(tile, lanes))
      invariant Placed(e, h, lru0, Indices(Base(tile, lanes)), mark[..])
    {
      var start := Base(tile, lanes);
      BaseNext(tile, tiles, lanes);
      evictBase, hitBase := OneTile(lru0, table, topk, lru[start..start + lanes], start, mark, width, |lru|, e, h,
        evictBase, hitBase);
    }
    RankDisjoint(e, h, |lru|);
    PlacedIsSelected(e, h, lru0, mark[..]);
    assert mark[..evictBase] == mark[..][..evictBase];
  }

  method OneTile(ghost lru0: seq<int>, ghost table: seq<int>, ghost topk: seq<int>, enc: seq<int>, start: nat,
                 mark: array<int>, width: nat, capacity: nat, ghost e: seq<bool>, ghost h: seq<bool>,
                 evictBase: nat, hitBase: nat)
    returns (evictNext: nat, hitNext: nat)
    requires width >= 1 && |enc| == Base(width, width) && start + |enc| <= |lru0| == |table| == capacity
    requires e == EvictFlags(lru0, table, topk, mark.Length) && h == HitFlags(lru0, table, topk, mark.Length)
    requires enc == LruPhased.Encoded(lru0, table, topk, mark.Length)[start..start + |enc|]
    requires evictBase == Rank(e, start) && hitBase == Rank(h, start) && Placed(e, h, lru0, Indices(start), mark[..])
    modifies mark
    ensures evictNext == Rank(e, start + |enc|) && hitNext == Rank(h, start + |enc|)
    ensures Placed(e, h, lru0, Indices(start + |enc|), mark[..])
  {
    hide Placed, Indices, Base;
    var evictFlags := seq(|enc|, t requires 0 <= t < |enc| => if 0 <= enc[t] < capacity then 1 else 0);
    var hitFlags := seq(|enc|, t requires 0 <= t < |enc| => if enc[t] <= -2 then 1 else 0);
    forall t | 0 <= t < |enc| ensures enc[t] == LruPhased.Encode(lru0[start + t], table, topk, mark.Length) {
    }
    AtLeastOneWarp(width, width);
    var scanE := StableScan(e, start, evictFlags, width);
    var scanH := StableScan(h, start, hitFlags, width);
    ScatterTile(e, h, lru0, start, enc, scanE, scanH, evictBase, hitBase, capacity, mark);
    evictNext, hitNext := evictBase + scanE[|enc| - 1], hitBase + scanH[|enc| - 1];
  }

  lemma BaseZero(lanes: nat)
    ensures Base(0, lanes) == 0
  {
  }

  lemma BaseNext(tile: nat, tiles: nat, lanes: nat)
    requires tile < tiles
    ensures Base(tile + 1, lanes) == Base(tile, lanes) + lanes <= Base(tiles, lanes)
  {
    BaseMonotone(tile + 1, tiles, lanes);
  }

  lemma PlacedIsSelected(e: seq<bool>, h: seq<bool>, xs: seq<int>, mark: seq<int>)
    requires Placed(e, h, xs, Indices(|xs|), mark) && Rank(e, |xs|) <= |mark| && Rank(h, |xs|) <= |mark|
    ensures mark[..Rank(e, |xs|)] == Select(xs, e, |xs|)
    ensures forall k :: 0 <= k < Rank(h, |xs|) ==> mark[|mark| - 1 - k] == Select(xs, h, |xs|)[k]
  {
    forall i | 0 <= i < |xs| && e[i] ensures Rank(e, i) < Rank(e, |xs|) { RankMonotone(e, i, |xs|); }
    SelectUnique(xs, e, mark[..Rank(e, |xs|)]);
    forall k | 0 <= k < Rank(h, |xs|) ensures mark[|mark| - 1 - k] == Select(xs, h, |xs|)[k] {
      var i := SelectSource(xs, h, |xs|, k);
    }
  }

  // ---- tiled compaction into the front of an array

  /** Finished flagged items stand at their rank; cells from the bound on are untouched. */
  ghost predicate Filled(f: seq<bool>, xs: seq<int>, done: set<int>, bound: nat, was: seq<int>, out: seq<int>) {
    && |f| == |xs| <= |out| == |was|
    && (forall i :: 0 <= i < |xs| && i in done && f[i] ==> out[Rank(f, i)] == xs[i])
    && (forall j :: bound <= j < |out| ==> out[j] == was[j])
  }

  lemma FillOne(f: seq<bool>, xs: seq<int>, done: set<int>, bound: nat, was: seq<int>, out: seq<int>, i: nat)
    requires Filled(f, xs, done, bound, was, out) && i < |xs|
    ensures f[i] && Rank(f, i) < bound ==> Filled(f, xs, done + {i}, bound, was, out[Rank(f, i) := xs[i]])
    ensures !f[i] ==> Filled(f, xs, done + {i}, bound, was, out)
  {
    forall k | 0 <= k < |xs| ensures i != k && f[i] && f[k] ==> Rank(f, i) != Rank(f, k) {
      if i < k { RankMonotone(f, i, k); } else { RankMonotone(f, k, i); }
    }
  }

  lemma FilledFewer(f: seq<bool>, xs: seq<int>, done: set<int>, fewer: set<int>, bound: nat, more: nat, was: seq<int>,
                    out: seq<int>)
    requires Filled(f, xs, done, bound, was, out) && fewer <= done && bound <= more
    ensures Filled(f, xs, fewer, more, was, out)
  {
  }

  lemma FilledStart(f: seq<bool>, xs: seq<int>, was: seq<int>)
    requires |f| == |xs| <= |was|
    ensures Filled(f, xs, Indices(0), 0, was, was)
  {
  }

  lemma FilledDone(f: seq<bool>, xs: seq<int>, was: seq<int>, out: seq<int>)
    requires |f| == |xs| && Filled(f, xs, Indices(|xs|), Rank(f, |xs|), was, out)
    ensures out == Select(xs, f, |xs|) + was[Rank(f, |xs|)..]
  {
    hide Rank, Select, Indices;
    var n := Rank(f, |xs|);
    assert out[..n] == Select(xs, f, |xs|) by {
      forall i | 0 <= i < |xs| && f[i] ensures Rank(f, i) < n { RankMonotone(f, i, |xs|); }
      SelectUnique(xs, f, out[..n]);
    }
    assert out[n..] == was[n..];
  }

  /** One tile of lanes writes its flagged values behind the earlier tiles, in any order. */
  method FillTile(ghost f: seq<bool>, ghost xs: seq<int>, start: nat, flags: seq<int>, scan: seq<int>, base: nat,
                  vals: seq<int>, ghost was: seq<int>, out: array<int>)
    requires |flags| == |scan| == |vals| && start + |vals| <= |xs| == |f| && base == Rank(f, start)
    requires Filled(f, xs, Indices(start), Rank(f, start), was, out[..])
    requires forall t :: 0 <= t < |vals| ==>
      flags[t] == Bit(f[start + t]) && (f[start + t] ==> vals[t] == xs[start + t]) &&
                                             scan[t] == Rank(f, start + t + 1) - Rank(f, start)
    modifies out
    ensures Filled(f, xs, Indices(start + |vals|), Rank(f, start + |vals|), was, out[..])
  {
    hide Filled, Indices;
    ghost var done, bound := Indices(start), Rank(f, start + |vals|);
    RankMonotone(f, start, start + |vals|);
    FilledFewer(f, xs, done, done, Rank(f, start), bound, was, out[..]);
    FilledSize(f, xs, done, bound, was, out[..]);
    var todo := Indices(|vals|);
    while todo != {}
      invariant todo <= Indices(|vals|) && Filled(f, xs, done, bound, was, out[..])
      invariant Indices(start) <= done && forall t :: 0 <= t < |vals| && t !in todo ==> start + t in done
      decreases todo
    {
      var t :| t in todo;
      ghost var o := out[..];
      FillOne(f, xs, done, bound, was, o, start + t);
      RankMonotone(f, start + t, start + |vals|);
      if flags[t] != 0 {
        out[base + scan[t] - flags[t]] := vals[t];
        assert out[..] == o[Rank(f, start + t) := xs[start + t]];
      }
      done := done + {start + t};
      todo := todo - {t};
    }
    forall i | i in Indices(start + |vals|) ensures i in done {
      if i >= start { assert i - start !in todo; }
    }
    FilledFewer(f, xs, done, Indices(start + |vals|), bound, bound, was, out[..]);
  }

  lemma FilledSize(f: seq<bool>, xs: seq<int>, done: set<int>, bound: nat, was: seq<int>, out: seq<int>)
    requires Filled(f, xs, done, bound, was, out)
    ensures |f| == |xs| <= |out|
  {
  }

  /** Reading Top-K at the selected positions is selecting from Top-K. */
  lemma TokensOfSelected(topk: seq<int>, f: seq<bool>)
    requires |f| == |topk|
    ensures forall j :: 0 <= j < Rank(f, |f|) ==> 0 <= Select(Iota(|f|), f, |f|)[j] < |topk|
    ensures TokensAt(topk, Select(Iota(|f|), f, |f|)) == Select(topk, f, |f|)
  {
    forall j | 0 <= j < Rank(f, |f|)
      ensures 0 <= Select(Iota(|f|), f, |f|)[j] < |topk|
      ensures topk[Select(Iota(|f|), f, |f|)[j]] == Select(topk, f, |f|)[j]
    {
      var i := SelectSource(Iota(|f|), f, |f|, j);
      SelectAt(topk, f, |f|, i);
    }
  }

  // ---- phase 6: any miss at all?

  /** Every lane looks at its strided positions, keeping the answer in a register; the block
      combines the answers. */
  method HasMiss(topk: seq<int>, current: seq<int>, maxToken: int, width: nat, tiles: nat) returns (any: int)
    requires width >= 1 && |topk| == |current| == Base(tiles, Base(width, width))
    ensures any != 0 <==> exists p :: 0 <= p < |topk| && MissFlags(topk, current, maxToken)[p]
  {
    hide Base, LaneOf;
    var lanes := Base(width, width);
    ghost var f := MissFlags(topk, current, maxToken);
    var local := seq(lanes, _ => 0);
    BaseZero(lanes);
    AtLeastOneWarp(width, width);
    for tile := 0 to tiles
      invariant Base(tile, lanes) <= |topk| && |local| == lanes
      invariant forall t :: 0 <= t < lanes && local[t] != 0 ==> exists p :: 0 <= p < |topk| && f[p]
      invariant forall p :: 0 <= p < Base(tile, lanes) && f[p] ==> local[LaneOf(p, lanes)] != 0
    {
      var start := Base(tile, lanes);
      BaseNext(tile, tiles, lanes);
      ghost var before := local;
      local := seq(lanes, t requires 0 <= t < lanes =>
        if 0 <= topk[start + t] < maxToken && current[start + t] < 0 then 1 else local[t]);
      forall t | 0 <= t < lanes && local[t] != 0 ensures exists p :: 0 <= p < |topk| && f[p] {
        if before[t] == 0 { assert f[start + t]; }
      }
      forall p | 0 <= p < start + lanes && f[p] ensures local[LaneOf(p, lanes)] != 0 {
        if p >= start { ThreadOf(tile, p - start, lanes); } else { assert before[LaneOf(p, lanes)] != 0; }
      }
    }
    var scratch := new int[lanes];
    any := BlockAny(local, width, scratch);
  }

  // ---- phase 7: tiled collection of the misses

  method CollectTiles(topk: seq<int>, current: seq<int>, missTokens: array<int>, pos: array<int>, width: nat,
                      tiles: nat)
    returns (missBase: nat)
    requires width >= 1 && |topk| == |current| == missTokens.Length == Base(tiles, Base(width, width))
    requires |topk| <= pos.Length
    requires missTokens != pos && missTokens[..] == Pad([], |topk|)
    modifies missTokens, pos
    ensures var misses := Select(Iota(|topk|), MissFlags(topk, current, pos.Length), |topk|);
      && missBase == |misses| && pos[..missBase] == misses
      && (forall j :: 0 <= j < missBase ==> 0 <= misses[j] < |topk|)
      && missTokens[..] == Pad(TokensAt(topk, misses), |topk|)
  {
    hide Base, Filled, Indices;
    var lanes := Base(width, width);
    ghost var f := MissFlags(topk, current, pos.Length);
    ghost var tokens0, pos0 := missTokens[..], pos[..];
    missBase := 0;
    BaseZero(lanes);
    FilledStart(f, topk, tokens0);
    FilledStart(f, Iota(|topk|), pos0);
    for tile := 0 to tiles
      invariant Base(tile, lanes) <= |topk| && missBase == Rank(f, Base(tile, lanes))
      invariant Filled(f, topk, Indices(Base(tile, lanes)), missBase, tokens0, missTokens[..])
      invariant Filled(f, Iota(|topk|), Indices(Base(tile, lanes)), missBase, pos0, pos[..])
    {
      var start := Base(tile, lanes);
      BaseNext(tile, tiles, lanes);
      missBase := MissTile(topk, current, start, width, missBase, f, tokens0, pos0, missTokens, pos);
    }
    FilledDone(f, topk, tokens0, missTokens[..]);
    FilledDone(f, Iota(|topk|), pos0, pos[..]);
    TokensOfSelected(topk, f);
  }

  method MissTile(topk: seq<int>, current: seq<int>, start: nat, width: nat, missBase: nat,
                  ghost f: seq<bool>, ghost tokens0: seq<int>, ghost pos0: seq<int>,
                  missTokens: array<int>, pos: array<int>)
    returns (missNext: nat)
    requires width >= 1 && |topk| == |current| && start + Base(width, width) <= |topk| && missTokens != pos
    requires f == MissFlags(topk, current, pos.Length) && missBase == Rank(f, start)
    requires Filled(f, topk, Indices(start), missBase, tokens0, missTokens[..])
    requires Filled(f, Iota(|topk|), Indices(start), missBase, pos0, pos[..])
    modifies missTokens, pos
    ensures missNext == Rank(f, start + Base(width, width))
    ensures Filled(f, topk, Indices(start + Base(width, width)), missNext, tokens0, missTokens[..])
    ensures Filled(f, Iota(|topk|), Indices(start + Base(width, width)), missNext, pos0, pos[..])
  {
    hide Base, Filled, Indices;
    var lanes, maxToken := Base(width, width), pos.Length;
    AtLeastOneWarp(width, width);
    var flags := seq(lanes, t requires 0 <= t < lanes =>
      if 0 <= topk[start + t] < maxToken && current[start + t] < 0 then 1 else 0);
    var scan := StableScan(f, start, flags, width);
    FillTile(f, topk, start, flags, scan, missBase, topk[start..start + lanes], tokens0, missTokens);
    FillTile(f, Iota(|topk|), start, flags, scan, missBase, Iota(|topk|)[start..start + lanes], pos0, pos);
    missNext := missBase + scan[lanes - 1];
  }

  /** Phases 2 to 5: hits served, evictable and hit slots split. */
  method PlanSlots(row: RowMemory, ws: Workspace, topk: seq<int>, width: nat, slotTiles: nat)
    returns (evictBase: nat, hitBase: nat)
    requires Separate(row, ws) && |topk| == row.width && row.capacity <= ws.maxToken
    requires width >= 1 && row.capacity == Base(slotTiles, Base(width, width)) && row.current[..] == Pad([], row.width)
    modifies row.lru, row.current, ws.mark, ws.pos
    ensures var p := MakePlan(old(row.lru[..]), row.table[..], topk, ws.maxToken);
      && row.current[..] == p.current
      && evictBase == |p.evictable| && hitBase == |p.hits| && evictBase + hitBase <= row.capacity
      && ws.mark[..evictBase] == p.evictable
      && forall k :: 0 <= k < hitBase ==> ws.mark[ws.maxToken - 1 - k] == p.hits[k]
  {
    hide Base, Select, Rank, LruPhased.Encoded, First, GreatestOf;
    ghost var lru0 := row.lru[..];
    ElectFirst(topk, ws.mark, ws.pos);
    ElectYoungest(topk, row.table[..], ws.pos[..], row.lru, ws.mark);
    ServeHits(lru0, topk, row.table[..], row.lru[..], ws.mark[..], ws.pos[..], row.current);
    evictBase, hitBase := PartitionTiles(lru0, row.table[..], topk, row.lru[..], ws.mark, width, slotTiles);
  }

  /** Phases 6 and 7: the misses, skipped altogether when there are none. */
  method PlanMisses(row: RowMemory, ws: Workspace, topk: seq<int>, width: nat, topTiles: nat) returns (missBase: nat)
    requires Separate(row, ws) && |topk| == row.width <= ws.maxToken
    requires width >= 1 && row.width == Base(topTiles, Base(width, width)) && row.missTokens[..] == Pad([], row.width)
    modifies row.missTokens, ws.pos
    ensures var misses := Select(Iota(|topk|), MissFlags(topk, row.current[..], ws.maxToken), |topk|);
      && missBase == |misses| && ws.pos[..missBase] == misses
      && (forall j :: 0 <= j < missBase ==> 0 <= misses[j] < |topk|)
      && row.missTokens[..] == Pad(TokensAt(topk, misses), |topk|)
  {
    hide Base;
    var hasMiss := HasMiss(topk, row.current[..], ws.maxToken, width, topTiles);
    missBase := 0;
    if hasMiss != 0 {
      missBase := CollectTiles(topk, row.current[..], row.missTokens, ws.pos, width, topTiles);
    } else {
      NoMisses(topk, row.current[..], ws.maxToken);
    }
  }

  /** The normal path: the same plan as the ordered kernel, found by atomics and scans. */
  method NormalPlan(row: RowMemory, ws: Workspace, topk: seq<int>, width: nat, topTiles: nat, slotTiles: nat)
    requires Separate(row, ws) && |topk| == row.width <= ws.maxToken - 2 && row.capacity <= ws.maxToken
    requires width >= 1 && row.width == Base(topTiles, Base(width, width))
    requires row.capacity == Base(slotTiles, Base(width, width))
    requires row.current[..] == row.missTokens[..] == Pad([], row.width)
    modifies row.lru, row.current, row.missTokens, row`missCount, ws.mark, ws.pos
    ensures var p := MakePlan(old(row.lru[..]), row.table[..], topk, ws.maxToken);
      && PlanStored(p, ws.mark[..], ws.pos[..], ws.maxToken)
      && row.current[..] == p.current && row.missCount == AssignCount(p)
      && PlanOk(p, |topk|, row.capacity)
      && row.missTokens[..] == Pad(TokensAt(topk, p.misses), |topk|)
  {
    hide Base, Select, Rank;
    var evictBase, hitBase := PlanSlots(row, ws, topk, width, slotTiles);
    var missBase := PlanMisses(row, ws, topk, width, topTiles);
    PlanIsOk(old(row.lru[..]), row.table[..], topk, ws.maxToken);
    row.missCount := if missBase < evictBase then missBase else evictBase;
    ws.pos[ws.maxToken - 2] := evictBase;
    ws.pos[ws.maxToken - 1] := hitBase;
  }

  lemma NoMisses(topk: seq<int>, current: seq<int>, maxToken: int)
    requires |topk| == |current| && !exists p :: 0 <= p < |topk| && MissFlags(topk, current, maxToken)[p]
    ensures Select(Iota(|topk|), MissFlags(topk, current, maxToken), |topk|) == []
  {
    RankZero(MissFlags(topk, current, maxToken), |topk|);
  }

  // ---- the reset fast path

  function ValidFlags(topk: seq<int>, maxToken: int): (f: seq<bool>)
    ensures |f| == |topk|
  {
    seq(|topk|, p requires 0 <= p < |topk| => IsToken(topk[p], maxToken))
  }

  function Ranks(f: seq<bool>): (r: seq<int>)
    ensures |r| == |f|
  {
    seq(|f|, i requires 0 <= i < |f| => Rank(f, i))
  }

  function ResetPlanOf(topk: seq<int>, capacity: nat, maxToken: int): Plan {
    Plan(Iota(capacity), [], Pad([], |topk|), Select(Iota(|topk|), ValidFlags(topk, maxToken), |topk|))
  }

  /** On a reset row nothing is resident: every slot is evictable in slot order and every
      valid position is a miss. */
  lemma ResetPlan(topk: seq<int>, capacity: nat, maxToken: int)
    ensures MakePlan(Iota(capacity), seq(capacity, _ => INVALID), topk, maxToken) == ResetPlanOf(topk, capacity,
      maxToken)
  {
    var lru, table := Iota(capacity), seq(capacity, _ => INVALID);
    ResetSlots(lru, table, topk, maxToken);
    ResetCurrent(lru, table, topk, maxToken);
    assert MissFlags(topk, Pad([], |topk|), maxToken) == ValidFlags(topk, maxToken);
  }

  lemma ResetSlots(lru: seq<int>, table: seq<int>, topk: seq<int>, maxToken: int)
    requires lru == Iota(|table|) && forall s :: 0 <= s < |table| ==> table[s] == INVALID
    ensures Select(lru, EvictFlags(lru, table, topk, maxToken), |lru|) == lru
    ensures Select(lru, HitFlags(lru, table, topk, maxToken), |lru|) == []
  {
    hide Rank, Select;
    var e, h := EvictFlags(lru, table, topk, maxToken), HitFlags(lru, table, topk, maxToken);
    RankZero(h, |lru|);
    AllTrue(e, |lru|);
    forall i | 0 <= i < |lru| ensures Rank(e, i) == i { AllTrue(e, i); }
    SelectUnique(lru, e, lru);
  }

  lemma ResetCurrent(lru: seq<int>, table: seq<int>, topk: seq<int>, maxToken: int)
    requires forall s :: 0 <= s < |table| ==> table[s] == INVALID
    ensures HitCurrent(lru, table, topk, maxToken) == Pad([], |topk|)
  {
    hide First, Holder;
    forall p | 0 <= p < |topk| ensures HitAt(lru, table, topk, maxToken, p) == INVALID {
    }
  }

  /** What the fast path writes is what carrying out that plan gives. */
  lemma FastPathOutcome(topk: seq<int>, capacity: nat, maxToken: int, reqId: int, n: nat, current: seq<int>)
    requires |topk| <= capacity && |current| == |topk| && n == Rank(ValidFlags(topk, maxToken), |topk|)
    requires forall i :: 0 <= i < |topk| ==>
      current[i] == if ValidFlags(topk, maxToken)[i] then Rank(ValidFlags(topk, maxToken), i) else INVALID
    ensures var f, o := ValidFlags(topk, maxToken), Step(Call(topk, reqId, 0), ResetRow(capacity, reqId), maxToken);
      && o.row.table == Pad(Select(topk, f, |topk|), capacity)
      && o.row.lru == Iota(capacity)[n..] + Iota(capacity)[..n]
      && o.current == current && o.missCount == n
      && o.missTokens == Pad(Select(topk, f, |topk|), |topk|) && o.missSlots == Pad(Iota(capacity)[..n], |topk|)
  {
    hide Step, Execute, Select, Rank, PlanOk;
    var table := seq(capacity, _ => INVALID);
    var p := ResetPlanOf(topk, capacity, maxToken);
    ResetStep(topk, capacity, maxToken, reqId);
    ExecuteResetTokens(p, table, topk, maxToken, reqId);
    ExecuteResetSlots(p, table, topk, maxToken, reqId, n);
    ExecuteResetCurrent(p, table, topk, maxToken, reqId, n, current);
  }

  lemma ResetStep(topk: seq<int>, capacity: nat, maxToken: int, reqId: int)
    requires |topk| <= capacity
    ensures PlanOk(ResetPlanOf(topk, capacity, maxToken), |topk|, capacity)
    ensures Step(Call(topk, reqId, 0), ResetRow(capacity, reqId), maxToken) ==
      Execute(ResetPlanOf(topk, capacity, maxToken), seq(capacity, _ => INVALID), topk, reqId)
  {
    hide MakePlan, Select, Rank;
    var call, row, table := Call(topk, reqId, 0), ResetRow(capacity, reqId), seq(capacity, _ => INVALID);
    assert Invalidated(table, 0, maxToken) == table;
    assert Prepared(call, row, maxToken) == row;
    ResetPlan(topk, capacity, maxToken);
    PlanIsOk(row.lru, table, topk, maxToken);
  }

  lemma ExecuteParts(p: Plan, table: seq<int>, topk: seq<int>, reqId: int)
    requires PlanOk(p, |topk|, |table|)
    ensures var o, n, tokens := Execute(p, table, topk, reqId), AssignCount(p), TokensAt(topk, p.misses);
      && o.row.table == Scatter(table, p.evictable, tokens, n) && o.row.lru == Rebuilt(p, |table|)
      && o.current == Scatter(p.current, p.misses, p.evictable, n) && o.missCount == n
      && o.missTokens == Pad(tokens, |topk|) && o.missSlots == Pad(Assigned(p), |topk|)
  {
    hide Scatter;
  }

  lemma ExecuteResetTokens(p: Plan, table: seq<int>, topk: seq<int>, maxToken: int, reqId: int)
    requires |topk| <= |table| && forall s :: 0 <= s < |table| ==> table[s] == INVALID
    requires p == ResetPlanOf(topk, |table|, maxToken) && PlanOk(p, |topk|, |table|)
    ensures Execute(p, table, topk, reqId).row.table == Pad(Select(topk, ValidFlags(topk, maxToken), |topk|), |table|)
    ensures Execute(p, table, topk, reqId).missTokens == Pad(Select(topk, ValidFlags(topk, maxToken), |topk|), |topk|)
  {
    hide Select, Rank, Scatter, Execute, Pad, Rebuilt, Iota, TokensAt, ValidFlags, PlanOk;
    var tokens := Select(topk, ValidFlags(topk, maxToken), |topk|);
    TokensOfSelected(topk, ValidFlags(topk, maxToken));
    FastPathTable(table, p.evictable, tokens, AssignCount(p));
    ExecuteTokens(p, table, topk, reqId, tokens);
  }

  lemma ExecuteTokens(p: Plan, table: seq<int>, topk: seq<int>, reqId: int, tokens: seq<int>)
    requires PlanOk(p, |topk|, |table|) && TokensAt(topk, p.misses) == tokens
    ensures |tokens| <= |topk| && AssignCount(p) <= |tokens|
    ensures Execute(p, table, topk, reqId).row.table == Scatter(table, p.evictable, tokens, AssignCount(p))
    ensures Execute(p, table, topk, reqId).missTokens == Pad(tokens, |topk|)
  {
    hide Scatter;
  }

  lemma ExecuteResetSlots(p: Plan, table: seq<int>, topk: seq<int>, maxToken: int, reqId: int, n: nat)
    requires |topk| <= |table| && n == Rank(ValidFlags(topk, maxToken), |topk|)
    requires p == ResetPlanOf(topk, |table|, maxToken) && PlanOk(p, |topk|, |table|)
    ensures var o := Execute(p, table, topk, reqId);
      && o.missCount == n && o.row.lru == Iota(|table|)[n..] + Iota(|table|)[..n]
      && o.missSlots == Pad(Iota(|table|)[..n], |topk|)
  {
    hide Select, Rank, Scatter, Execute, Pad, Rebuilt, Iota, TokensAt, ValidFlags;
    ExecuteParts(p, table, topk, reqId);
    RebuiltReset(p, |table|, n);
  }

  lemma RebuiltReset(p: Plan, capacity: nat, n: nat)
    requires |p.evictable| == capacity && p.hits == [] && n == AssignCount(p)
    ensures Rebuilt(p, capacity) == p.evictable[n..] + p.evictable[..n]
  {
  }

  lemma ExecuteResetCurrent(p: Plan, table: seq<int>, topk: seq<int>, maxToken: int, reqId: int, n: nat,
                            current: seq<int>)
    requires |topk| <= |table| && |current| == |topk| && n == Rank(ValidFlags(topk, maxToken), |topk|)
    requires forall i :: 0 <= i < |topk| ==>
      current[i] == if ValidFlags(topk, maxToken)[i] then Rank(ValidFlags(topk, maxToken), i) else INVALID
    requires p == ResetPlanOf(topk, |table|, maxToken) && PlanOk(p, |topk|, |table|)
    ensures Execute(p, table, topk, reqId).current == current
  {
    hide Select, Rank, Scatter, Execute, Pad, Rebuilt, Iota, TokensAt, ValidFlags;
    ExecuteParts(p, table, topk, reqId);
    FastPathCurrent(ValidFlags(topk, maxToken), Iota(|table|), n, current);
  }

  lemma FastPathTable(table: seq<int>, slots: seq<int>, tokens: seq<int>, n: nat)
    requires n == |tokens| <= |table| && slots == Iota(|table|) && forall s :: 0 <= s < |table| ==> table[s] == INVALID
    ensures Scatter(table, slots, tokens, n) == Pad(tokens, |table|)
  {
    ScatterAt(table, slots, tokens, n);
    forall s | 0 <= s < |table| ensures Scatter(table, slots, tokens, n)[s] == Pad(tokens, |table|)[s] {
      if s < n { assert slots[s] == s; } else { assert s !in slots[..n]; }
    }
  }

  lemma FastPathCurrent(f: seq<bool>, slots: seq<int>, n: nat, current: seq<int>)
    requires |f| == |current| && |f| <= |slots| && slots == Iota(|slots|) && n == Rank(f, |f|)
    requires forall i :: 0 <= i < |f| ==> current[i] == if f[i] then Rank(f, i) else INVALID
    requires forall j :: 0 <= j < n ==> 0 <= Select(Iota(|f|), f, |f|)[j] < |f|
    ensures Scatter(Pad([], |f|), Select(Iota(|f|), f, |f|), slots, n) == current
  {
    var misses := Select(Iota(|f|), f, |f|);
    SelectDistinct(Iota(|f|), f);
    ScatterAt(Pad([], |f|), misses, slots, n);
    forall i | 0 <= i < |f| ensures Scatter(Pad([], |f|), misses, slots, n)[i] == current[i] {
      if f[i] {
        SelectAt(Iota(|f|), f, |f|, i);
      } else {
        SelectMembers(Iota(|f|), f, i);
        assert misses[..n] == misses;
      }
    }
  }

  /** Valid positions take consecutive slots in Top-K order; no plan is built. */
  method ResetFastPath(row: RowMemory, topk: seq<int>, reqId: int, maxToken: int, width: nat, topTiles: nat)
    requires row.Shaped() && |topk| == row.width <= row.capacity
    requires width >= 1 && row.width == Base(topTiles, Base(width, width))
    requires row.table[..] == seq(row.capacity, _ => INVALID)
    requires row.current[..] == Pad([], row.width) && row.missTokens[..] == Pad([], row.width)
    requires row.missSlots[..] == Pad([], row.width)
    modifies row.table, row.lru, row.current, row.missTokens, row.missSlots, row`missCount
    ensures var o := Step(Call(topk, reqId, 0), ResetRow(row.capacity, reqId), maxToken);
      && row.table[..] == o.row.table && row.lru[..] == o.row.lru && row.current[..] == o.current
      && row.missCount == o.missCount && row.missTokens[..] == o.missTokens && row.missSlots[..] == o.missSlots
  {
    hide Base, Filled, Indices, Rank, Select, Step;
    var lanes := Base(width, width);
    ghost var f := ValidFlags(topk, maxToken);
    ghost var blank, table0 := Pad([], row.width), row.table[..];
    var missBase := 0;
    BaseZero(lanes);
    FastPathStart(f, topk, blank, table0);
    for tile := 0 to topTiles
      invariant Base(tile, lanes) <= |topk| && missBase == Rank(f, Base(tile, lanes))
      invariant Filled(f, topk, Indices(Base(tile, lanes)), missBase, blank, row.missTokens[..])
      invariant Filled(f, Ranks(f), Indices(Base(tile, lanes)), missBase, blank, row.missSlots[..])
      invariant Filled(f, topk, Indices(Base(tile, lanes)), missBase, table0, row.table[..])
      invariant forall i :: 0 <= i < |topk| ==>
        row.current[i] == if i < Base(tile, lanes) && f[i] then Rank(f, i) else INVALID
    {
      var start := Base(tile, lanes);
      BaseNext(tile, topTiles, lanes);
      missBase := ResetTile(row, topk, maxToken, start, width, missBase, f, blank, table0);
    }
    FilledDone(f, topk, blank, row.missTokens[..]);
    FilledDone(f, Ranks(f), blank, row.missSlots[..]);
    FilledDone(f, topk, table0, row.table[..]);
    RanksSelected(f);
    FastPathOutcome(topk, row.capacity, maxToken, reqId, missBase, row.current[..]);
    row.missCount := Min(missBase, row.capacity);
    RotateLru(row.lru, missBase);
    assert row.table[..] == Pad(Select(topk, f, |topk|), row.capacity);
    assert row.missTokens[..] == Pad(Select(topk, f, |topk|), |topk|);
    assert row.missSlots[..] == Pad(Iota(row.capacity)[..missBase], |topk|);
  }

  lemma FastPathStart(f: seq<bool>, topk: seq<int>, blank: seq<int>, table0: seq<int>)
    requires |f| == |topk| == |blank| <= |table0|
    ensures Filled(f, topk, Indices(0), 0, blank, blank) && Filled(f, Ranks(f), Indices(0), 0, blank, blank)
    ensures Filled(f, topk, Indices(0), 0, table0, table0) && Rank(f, 0) == 0
  {
  }

  lemma RanksSelected(f: seq<bool>)
    ensures Select(Ranks(f), f, |f|) == Iota(Rank(f, |f|))
  {
    forall k | 0 <= k < Rank(f, |f|) ensures Select(Ranks(f), f, |f|)[k] == k {
      var i := SelectSource(Ranks(f), f, |f|, k);
    }
  }

  /** The places of the assigned slots move behind the unassigned ones. */
  method RotateLru(lru: array<int>, taken: nat)
    requires taken <= lru.Length
    modifies lru
    ensures lru[..] == Iota(lru.Length)[taken..] + Iota(lru.Length)[..taken]
  {
    var remaining := lru.Length - taken;
    var todo := Indices(lru.Length);
    while todo != {}
      invariant todo <= Indices(lru.Length)
      invariant forall i :: 0 <= i < lru.Length && i !in todo ==>
        lru[i] == if i < remaining then taken + i else i - remaining
      decreases todo
    {
      var i :| i in todo;
      lru[i] := if i < remaining then taken + i else i - remaining;
      todo := todo - {i};
    }
  }

  method ResetTile(row: RowMemory, topk: seq<int>, maxToken: int, start: nat, width: nat, missBase: nat,
                   ghost f: seq<bool>, ghost blank: seq<int>, ghost table0: seq<int>) returns (missNext: nat)
    requires row.Shaped() && |topk| == row.width <= row.capacity && width >= 1 && start + Base(width, width) <= |topk|
    requires f == ValidFlags(topk, maxToken) && missBase == Rank(f, start)
    requires Filled(f, topk, Indices(start), missBase, blank, row.missTokens[..])
    requires Filled(f, Ranks(f), Indices(start), missBase, blank, row.missSlots[..])
    requires Filled(f, topk, Indices(start), missBase, table0, row.table[..])
    requires forall i :: 0 <= i < |topk| ==> row.current[i] == if i < start && f[i] then Rank(f, i) else INVALID
    modifies row.table, row.current, row.missTokens, row.missSlots
    ensures var next := start + Base(width, width);
      && missNext == Rank(f, next)
      && Filled(f, topk, Indices(next), missNext, blank, row.missTokens[..])
      && Filled(f, Ranks(f), Indices(next), missNext, blank, row.missSlots[..])
      && Filled(f, topk, Indices(next), missNext, table0, row.table[..])
      && forall i :: 0 <= i < |topk| ==> row.current[i] == if i < next && f[i] then Rank(f, i) else INVALID
  {
    hide Base, Filled, Indices, Rank;
    var lanes := Base(width, width);
    var flags, scan, ranks := ResetRanks(topk, maxToken, start, width, missBase, f);
    FillTile(f, Ranks(f), start, flags, scan, missBase, ranks, blank, row.missSlots);
    FillTile(f, topk, start, flags, scan, missBase, topk[start..start + lanes], blank, row.missTokens);
    FillTile(f, topk, start, flags, scan, missBase, topk[start..start + lanes], table0, row.table);
    ServeTile(f, start, flags, ranks, row.current);
    missNext := missBase + scan[lanes - 1];
  }

  /** The ranks of one tile. The guard rank < capacity never fails: at most |topk| <= capacity
      positions are valid. */
  method ResetRanks(topk: seq<int>, maxToken: int, start: nat, width: nat, missBase: nat, ghost f: seq<bool>)
    returns (flags: seq<int>, scan: seq<int>, ranks: seq<int>)
    requires width >= 1 && start + Base(width, width) <= |topk| && f == ValidFlags(topk, maxToken)
    requires missBase == Rank(f, start)
    ensures |flags| == |scan| == |ranks| == Base(width, width) >= 1
    ensures forall t :: 0 <= t < |flags| ==>
      flags[t] == Bit(f[start + t]) && scan[t] == Rank(f, start + t + 1) - Rank(f, start)
    ensures forall t :: 0 <= t < |flags| && f[start + t] ==> ranks[t] == Ranks(f)[start + t] && 0 <= ranks[t] < |topk|
  {
    hide Base;
    AtLeastOneWarp(width, width);
    var lanes := Base(width, width);
    flags := seq(lanes, t requires 0 <= t < lanes => if 0 <= topk[start + t] < maxToken then 1 else 0);
    scan := StableScan(f, start, flags, width);
    ranks := seq(lanes, t requires 0 <= t < lanes => missBase + scan[t] - flags[t]);
  }

  method ServeTile(ghost f: seq<bool>, start: nat, flags: seq<int>, ranks: seq<int>, current: array<int>)
    requires |flags| == |ranks| && start + |flags| <= |f| == current.Length
    requires forall t :: 0 <= t < |flags| ==>
      flags[t] == Bit(f[start + t]) && (f[start + t] ==> ranks[t] == Ranks(f)[start + t])
    requires forall i :: 0 <= i < |f| ==> current[i] == if i < start && f[i] then Rank(f, i) else INVALID
    modifies current
    ensures forall i :: 0 <= i < |f| ==> current[i] == if i < start + |flags| && f[i] then Rank(f, i) else INVALID
  {
    hide Rank, Indices;
    var todo := Indices(|flags|);
    while todo != {}
      invariant todo <= Indices(|flags|)
      invariant forall i :: 0 <= i < |f| ==>
        current[i] == if i < start + |flags| && i - start !in todo && f[i] then Rank(f, i) else INVALID
      decreases todo
    {
      var t :| t in todo;
      if flags[t] != 0 {
        current[start + t] := ranks[t];
      }
      todo := todo - {t};
    }
  }

  // ---- the whole kernel

  /** A call that resets the row does what the fast path's call on a reset row does. */
  lemma ResetIgnoresPrefix(call: Call, row: Row, maxToken: int)
    requires |row.lru| == |row.table| && row.lastReq != call.reqId
    ensures Step(call, row, maxToken) == Step(Call(call.topk, call.reqId, 0), ResetRow(|row.table|, call.reqId),
      maxToken)
    ensures Prepared(call, row, maxToken).table == seq(|row.table|, _ => INVALID)
  {
    hide MakePlan, Execute;
    var fresh0 := ResetRow(|row.table|, call.reqId);
    assert Prepared(call, row, maxToken).table == fresh0.table;
    assert Prepared(Call(call.topk, call.reqId, 0), fresh0, maxToken).table == fresh0.table;
    assert Prepared(call, row, maxToken) == Prepared(Call(call.topk, call.reqId, 0), fresh0, maxToken);
  }

  /** The fused kernel refines the abstract step on the fast path and on the normal path, for
      every order in which the lanes access an array within a phase. */
  method CompactFused(row: RowMemory, ws: Workspace, call: Call, width: nat, topTiles: nat, slotTiles: nat)
    requires Separate(row, ws) && |call.topk| == row.width <= row.capacity <= ws.maxToken
    requires row.width <= ws.maxToken - 2
    requires width >= 1 && row.width == Base(topTiles, Base(width, width))
    requires row.capacity == Base(slotTiles, Base(width, width))
    requires Usable(call, row.Value())
    modifies row, row.table, row.lru, row.current, row.missTokens, row.missSlots, ws.mark, ws.pos, ws`epoch
    ensures row.Holds(Step(call, old(row.Value()), ws.maxToken))
    ensures ws.epoch == -2
  {
    hide Base, Step, MakePlan;
    ghost var before := row.Value();
    ghost var r := Prepared(call, before, ws.maxToken);
    var reset := ResetPrepare(row, call.reqId, call.prefix, ws.maxToken);
    assert row.table[..] == r.table && row.lru[..] == r.lru;
    if reset {
      ResetIgnoresPrefix(call, before, ws.maxToken);
      ResetFastPath(row, call.topk, call.reqId, ws.maxToken, width, topTiles);
      StepRemembers(Call(call.topk, call.reqId, 0), ResetRow(row.capacity, call.reqId), ws.maxToken);
    } else {
      NormalPath(row, ws, call, before, width, topTiles, slotTiles);
      StepRemembers(call, before, ws.maxToken);
    }
    row.lastReq := call.reqId;
    ws.epoch := FUSED_EPOCH;
  }

  method NormalPath(row: RowMemory, ws: Workspace, call: Call, ghost before: Row, width: nat, topTiles: nat,
                    slotTiles: nat)
    requires Separate(row, ws) && |call.topk| == row.width <= row.capacity <= ws.maxToken
    requires row.width <= ws.maxToken - 2
    requires width >= 1 && row.width == Base(topTiles, Base(width, width))
    requires row.capacity == Base(slotTiles, Base(width, width))
    requires Usable(call, before) && |before.table| == row.capacity
    requires row.table[..] == Prepared(call, before, ws.maxToken).table
    requires row.lru[..] == Prepared(call, before, ws.maxToken).lru
    requires row.current[..] == Pad([], row.width) && row.missTokens[..] == Pad([], row.width)
    requires row.missSlots[..] == Pad([], row.width)
    modifies row.table, row.lru, row.current, row.missTokens, row.missSlots, row`missCount, ws.mark, ws.pos
    ensures var o := Step(call, before, ws.maxToken);
      && row.table[..] == o.row.table && row.lru[..] == o.row.lru && row.current[..] == o.current
      && row.missCount == o.missCount && row.missTokens[..] == o.missTokens && row.missSlots[..] == o.missSlots
  {
    hide Base, MakePlan;
    ghost var r := Prepared(call, before, ws.maxToken);
    NormalPlan(row, ws, call.topk, width, topTiles, slotTiles);
    ghost var p := MakePlan(r.lru, r.table, call.topk, ws.maxToken);
    PreparedOk(call, before, ws.maxToken);
    PlanDistinct(r.lru, r.table, call.topk, ws.maxToken);
    AssignMisses(p, call.topk, ws.mark, ws.pos, row.missCount, row.table, row.current, row.missTokens, row.missSlots);
    RebuildLru(p, call.topk, ws.mark, ws.pos, row.missCount, row.lru, row.missSlots);
  }

  /** Fused and phased kernels agree: from equal rows they take the same step and leave equal
      rows and answers, duplicates in Top-K included. */
  method FusedAgreesWithPhased(a: RowMemory, wsA: Workspace, b: RowMemory, wsB: Workspace, call: Call, width: nat,
                               topTiles: nat, slotTiles: nat)
    requires Separate(a, wsA) && Separate(b, wsB)
    requires {a, a.table, a.lru, a.current, a.missTokens, a.missSlots, wsA, wsA.mark, wsA.pos} !!
      {b, b.table, b.lru, b.current, b.missTokens, b.missSlots, wsB, wsB.mark, wsB.pos}
    requires a.Value() == b.Value() && wsA.maxToken == wsB.maxToken && a.width == b.width && a.capacity == b.capacity
    requires |call.topk| == a.width <= a.capacity <= wsA.maxToken && a.width <= wsA.maxToken - 2
    requires Usable(call, a.Value())
    requires width >= 1 && a.width == Base(topTiles, Base(width, width))
    requires a.capacity == Base(slotTiles, Base(width, width))
    requires LruPhased.Distinguishable(wsB.mark[..], wsB.epoch)
    modifies a, a.table, a.lru, a.current, a.missTokens, a.missSlots, wsA.mark, wsA.pos, wsA`epoch
    modifies b, b.table, b.lru, b.current, b.missTokens, b.missSlots, wsB.mark, wsB.pos, wsB`epoch
    ensures a.Holds(Step(call, old(a.Value()), wsA.maxToken))
    ensures a.Value() == b.Value() && a.current[..] == b.current[..] && a.missCount == b.missCount
    ensures a.missTokens[..] == b.missTokens[..] && a.missSlots[..] == b.missSlots[..]
  {
    hide Step, Base;
    CompactFused(a, wsA, call, width, topTiles, slotTiles);
    LruPhased.CompactPhased(b, wsB, call);
  }
}
