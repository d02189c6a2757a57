/** The host launchers: rows are submitted one at a time and share eight workspace
    slices, and the shape of the call decides which kernel runs. */
module LruLaunch {
  import opened Compaction
  import opened LruSpec
  import opened LruDevice
  import opened LruFacts
  import opened LruPhased
  import opened LruLegacy
  import opened LruLegacyKernel
  import opened LruLegacyExact
  import opened LruFused
  import LruRuns

  function Cells(row: RowMemory): set<object> {
    {row, row.table, row.lru, row.current, row.missTokens, row.missSlots}
  }

  /** Everything a row holds, as a value. */
  datatype Content = Content(row: Row, current: seq<int>, missCount: int, missTokens: seq<int>, missSlots: seq<int>)

  ghost function Seen(row: RowMemory): Content
    reads Cells(row)
  {
    Content(row.Value(), row.current[..], row.missCount, row.missTokens[..], row.missSlots[..])
  }

  /** The row holds what a step leaves behind. */
  ghost predicate Shows(c: Content, o: Outcome) {
    c == Content(o.row, o.current, o.missCount, o.missTokens, o.missSlots)
  }

  /** What a step leaves in a row that held `was`. */
  ghost predicate StepDone(c: Content, call: Call, was: Row, maxToken: int) {
    |was.lru| == |was.table| && Shows(c, Step(call, was, maxToken))
  }

  function Slices(ws: Workspace): set<object> { {ws, ws.mark, ws.pos} }

  /** All rows and slices are shaped alike and share no memory. */
  ghost predicate Laid(rows: seq<RowMemory>, slices: seq<Workspace>, width: nat, capacity: nat, maxToken: int) {
    && |slices| == 8
    && (forall i :: 0 <= i < |rows| ==> rows[i].Shaped() && rows[i].width == width && rows[i].capacity == capacity)
    && (forall w :: 0 <= w < |slices| ==> slices[w].Shaped() && slices[w].maxToken >= maxToken)
    && (forall w :: 0 <= w < |slices| && maxToken >= 0 ==> slices[w].maxToken == maxToken)
    && (forall i, j :: 0 <= i < j < |rows| ==> Cells(rows[i]) !! Cells(rows[j]))
    && (forall v, w :: 0 <= v < w < |slices| ==> Slices(slices[v]) !! Slices(slices[w]))
    && (forall i, w :: 0 <= i < |rows| && 0 <= w < |slices| ==> Cells(rows[i]) !! Slices(slices[w]))
  }

  // ---- phased

  /** How many of the first n rows work on slice w. */
  function RowsOn(n: nat, w: nat): nat {
    if n == 0 then 0 else RowsOn(n - 1, w) + if (n - 1) % 8 == w then 1 else 0
  }

  ghost function Epochs(slices: seq<Workspace>): (e: seq<int>)
    reads slices
    ensures |e| == |slices| && forall w :: 0 <= w < |slices| ==> e[w] == slices[w].epoch
  {
    seq(|slices|, w requires 0 <= w < |slices| reads slices => slices[w].epoch)
  }

  /** The epochs after n rows. */
  function Advanced(e: seq<int>, n: nat): (r: seq<int>)
    requires |e| == 8
    ensures |r| == 8
  {
    if n == 0 then e else var r := Advanced(e, n - 1); r[(n - 1) % 8 := NextEpoch(r[(n - 1) % 8])]
  }

  lemma AdvancedNone(e: seq<int>)
    requires |e| == 8
    ensures Advanced(e, 0) == e
  {
  }

  lemma AdvancedNext(e: seq<int>, n: nat)
    requires |e| == 8
    ensures Advanced(e, n + 1) == Advanced(e, n)[n % 8 := NextEpoch(Advanced(e, n)[n % 8])]
  {
  }

  lemma {:induction false} AdvancedIs(e: seq<int>, n: nat, w: nat)
    requires |e| == 8 && w < 8
    ensures Advanced(e, n)[w] == EpochAfter(e[w], RowsOn(n, w))
  {
    if n == 0 {
    } else {
      AdvancedIs(e, n - 1, w);
    }
  }

  /** Every slice is fit for a phased call. */
  ghost predicate AllFresh(slices: seq<Workspace>)
    reads slices, set w | w in slices :: w.mark
  {
    forall w :: 0 <= w < |slices| ==> FreshNext(slices[w].mark[..], slices[w].epoch)
  }

  /** Every row takes the abstract step, although rows eight apart reuse a slice with
      whatever the earlier row left in it; the slices stay fit for the next launch, and the
      epoch of each moves on by one for every row that used it. */
  method LaunchPhased(rows: seq<RowMemory>, slices: seq<Workspace>, calls: seq<Call>, width: nat, capacity: nat,
                      maxToken: nat)
    requires CanUsePhased(|rows|, width, capacity, maxToken) && Laid(rows, slices, width, capacity, maxToken)
    requires |calls| == |rows| && forall i :: 0 <= i < |rows| ==>
      |calls[i].topk| == width && Usable(calls[i], rows[i].Value())
    requires AllFresh(slices)
    modifies set r, o | r in rows && o in Cells(r) :: o
    modifies set w, o | w in slices && o in Slices(w) :: o
    ensures forall i :: 0 <= i < |rows| ==> StepDone(Seen(rows[i]), calls[i], old(rows[i].Value()), maxToken)
    ensures AllFresh(slices)
    ensures forall w :: 0 <= w < |slices| ==> slices[w].epoch == EpochAfter(old(slices[w].epoch), RowsOn(|rows|, w))
  {
    hide CanUsePhased, StepDone, Laid, Usable, EpochAfter, RowsOn, NextEpoch, Epochs, Seen, Advanced, AllFresh;
    SlicesLaid(rows, slices, width, capacity, maxToken);
    AdvancedNone(Epochs(slices));
    forall i | 0 <= i < |rows| { SeenRow(rows[i]); }
    for row := 0 to |rows|
      invariant forall i :: 0 <= i < row ==> StepDone(Seen(rows[i]), calls[i], old(rows[i].Value()), maxToken)
      invariant forall i :: row <= i < |rows| ==> Seen(rows[i]).row == old(rows[i].Value())
      invariant AllFresh(slices)
      invariant Epochs(slices) == Advanced(old(Epochs(slices)), row)
    {
      SeenRow(rows[row]);
      AdvancedNext(old(Epochs(slices)), row);
      LaunchRow(rows, slices, calls[row], row, width, capacity, maxToken);
    }
    forall w | 0 <= w < |slices|
      ensures slices[w].epoch == EpochAfter(old(slices[w].epoch), RowsOn(|rows|, w))
    {
      AdvancedIs(old(Epochs(slices)), |rows|, w);
    }
  }

  method LaunchRow(rows: seq<RowMemory>, slices: seq<Workspace>, call: Call, row: nat, width: nat,
                   capacity: nat, maxToken: nat)
    requires CanUsePhased(|rows|, width, capacity, maxToken) && Laid(rows, slices, width, capacity, maxToken)
    requires row < |rows| && |call.topk| == width && Usable(call, rows[row].Value())
    requires AllFresh(slices)
    modifies Cells(rows[row])
    modifies set w, o | w in slices && o in Slices(w) :: o
    ensures StepDone(Seen(rows[row]), call, old(rows[row].Value()), maxToken)
    ensures forall i :: 0 <= i < |rows| && i != row ==> Seen(rows[i]) == old(Seen(rows[i]))
    ensures AllFresh(slices)
    ensures |slices| == 8 && Epochs(slices) == old(Epochs(slices))[row % 8 := NextEpoch(old(slices[row % 8].epoch))]
  {
    hide Step, FreshNext, RowOk, NextEpoch;
    var index := row % WORKSPACE_THREADS;
    assert Cells(rows[row]) !! Slices(slices[index]);
    assert rows[row].table in Cells(rows[row]) && slices[index].mark in Slices(slices[index]);
    FreshIsDistinguishable(slices[index].mark[..], slices[index].epoch);
    CompactPhased(rows[row], slices[index], call);
    forall i | 0 <= i < |rows| && i != row ensures Seen(rows[i]) == old(Seen(rows[i])) {
      assert Cells(rows[i]) !! Cells(rows[row]) && Cells(rows[i]) !! Slices(slices[index]);
    }
    forall w | 0 <= w < |slices| && w != index
      ensures FreshNext(slices[w].mark[..], slices[w].epoch) && slices[w].epoch == old(slices[w].epoch)
    {
      assert slices[w] in Slices(slices[w]) && slices[w].mark in Slices(slices[w]);
      assert Cells(rows[row]) !! Slices(slices[w]) && Slices(slices[w]) !! Slices(slices[index]);
    }
  }

  /** Any number of phased calls on one row and one slice: the row goes through exactly the
      abstract run, whatever marks earlier calls left, as long as none is older than the
      stored epoch. After a fused call this means no mark below -2. */
  method PhasedRun(row: RowMemory, ws: Workspace, calls: seq<Call>)
    requires Separate(row, ws) && row.width <= ws.maxToken - 2 && row.capacity <= ws.maxToken
    requires forall i :: 0 <= i < |calls| ==> |calls[i].topk| == row.width
    requires LruRuns.Begins(row.Value(), calls) && FreshNext(ws.mark[..], ws.epoch)
    modifies row, row.table, row.lru, row.current, row.missTokens, row.missSlots, ws.mark, ws.pos, ws`epoch
    ensures row.Value() == LruRuns.RowAt(old(row.Value()), calls, ws.maxToken, |calls|)
    ensures ws.epoch == EpochAfter(old(ws.epoch), |calls|) && FreshNext(ws.mark[..], ws.epoch)
  {
    hide Step, FreshNext, LruRuns.Begins;
    ghost var start := row.Value();
    for i := 0 to |calls|
      invariant row.Value() == LruRuns.RowAt(start, calls, ws.maxToken, i)
      invariant ws.epoch == EpochAfter(old(ws.epoch), i) && FreshNext(ws.mark[..], ws.epoch)
    {
      FreshIsDistinguishable(ws.mark[..], ws.epoch);
      UsableInRun(start, calls, ws.maxToken, i);
      CompactPhased(row, ws, calls[i]);
    }
  }

  lemma UsableInRun(row: Row, calls: seq<Call>, maxToken: int, i: nat)
    requires LruRuns.Begins(row, calls) && i < |calls|
    ensures Usable(calls[i], LruRuns.RowAt(row, calls, maxToken, i))
  {
    LruRuns.AlwaysPermutation(row, calls, maxToken, i);
  }

  // ---- fused

  predicate IsFusedShape(numReqs: int, topk: int, capacity: int, maxToken: int) {
    numReqs > 0 && topk == 2048 && capacity == 4096 && maxToken == 4096
  }

  /** The production shape is two tiles of positions and four tiles of slots for a block of
      32 warps of 32 lanes. */
  lemma ProductionTiles()
    ensures Base(32, 32) == 1024 && Base(2, Base(32, 32)) == 2048 && Base(4, Base(32, 32)) == 4096
  {
    BaseIsProduct(32, 32);
    BaseIsProduct(2, 1024);
    BaseIsProduct(4, 1024);
  }

  /** The block's local memory is apart from rows and slices. */
  ghost predicate Local(rows: seq<RowMemory>, slices: seq<Workspace>, ub: Workspace, maxToken: int) {
    && ub.Shaped() && (maxToken >= 0 ==> ub.maxToken == maxToken)
    && (forall i :: 0 <= i < |rows| ==> Cells(rows[i]) !! Slices(ub))
    && (forall w :: 0 <= w < |slices| ==> Slices(slices[w]) !! Slices(ub))
  }

  method LaunchFusedRow(row: RowMemory, slice: Workspace, ub: Workspace, call: Call)
    requires row.Shaped() && row.width == 2048 && row.capacity == 4096 && ub.Shaped() && ub.maxToken == 4096
    requires Cells(row) !! Slices(ub) && |call.topk| == 2048 && Usable(call, row.Value())
    requires slice !in Cells(row) && slice != ub
    modifies Cells(row), Slices(ub), slice`epoch
    ensures row.Holds(Step(call, old(row.Value()), 4096)) && slice.epoch == -2
  {
    hide Step, Base;
    ProductionTiles();
    assert row.table in Cells(row) && ub.mark in Slices(ub);
    CompactFused(row, ub, call, 32, 2, 4);
    slice.epoch := FUSED_EPOCH;
  }

  /** Every row takes the abstract step. The slices keep their marks, but the epoch of every
      slice used becomes -2. */
  method LaunchFused(rows: seq<RowMemory>, slices: seq<Workspace>, ub: Workspace, calls: seq<Call>)
    requires Laid(rows, slices, 2048, 4096, 4096) && Local(rows, slices, ub, 4096) && |calls| == |rows|
    requires forall i :: 0 <= i < |rows| ==> |calls[i].topk| == 2048 && Usable(calls[i], rows[i].Value())
    modifies set r, o | r in rows && o in Cells(r) :: o
    modifies Slices(ub), slices
    ensures forall i :: 0 <= i < |rows| ==> StepDone(Seen(rows[i]), calls[i], old(rows[i].Value()), 4096)
    ensures forall w :: 0 <= w < |slices| ==> slices[w].mark[..] == old(slices[w].mark[..])
    ensures forall i :: 0 <= i < |rows| ==> slices[i % 8].epoch == -2
  {
    hide Usable, Laid, Local, StepDone, Seen;
    SlicesLaid(rows, slices, 2048, 4096, 4096);
    forall i | 0 <= i < |rows| { SeenRow(rows[i]); }
    for row := 0 to |rows|
      invariant forall i :: 0 <= i < row ==> StepDone(Seen(rows[i]), calls[i], old(rows[i].Value()), 4096)
      invariant forall i :: row <= i < |rows| ==> Seen(rows[i]).row == old(rows[i].Value())
      invariant forall w :: 0 <= w < |slices| ==> slices[w].mark[..] == old(slices[w].mark[..])
      invariant forall i :: 0 <= i < row ==> slices[i % 8].epoch == -2
    {
      SeenRow(rows[row]);
      FusedStep(rows, slices, ub, calls[row], row);
    }
  }

  lemma SlicesLaid(rows: seq<RowMemory>, slices: seq<Workspace>, width: nat, capacity: nat, maxToken: nat)
    requires Laid(rows, slices, width, capacity, maxToken)
    ensures |slices| == 8
  {
  }

  method FusedStep(rows: seq<RowMemory>, slices: seq<Workspace>, ub: Workspace, call: Call, row: nat)
    requires Laid(rows, slices, 2048, 4096, 4096) && Local(rows, slices, ub, 4096) && row < |rows|
    requires |call.topk| == 2048 && Usable(call, rows[row].Value())
    modifies Cells(rows[row]), Slices(ub), slices
    ensures StepDone(Seen(rows[row]), call, old(rows[row].Value()), 4096)
    ensures forall i :: 0 <= i < |rows| && i != row ==> Seen(rows[i]) == old(Seen(rows[i]))
    ensures |slices| == 8 && slices[row % 8].epoch == -2
    ensures forall w :: 0 <= w < |slices| ==> slices[w].mark[..] == old(slices[w].mark[..])
    ensures forall w :: 0 <= w < |slices| ==> slices[w].epoch == -2 || slices[w].epoch == old(slices[w].epoch)
  {
    hide Step, IsPermutation;
    var slice := slices[row % WORKSPACE_THREADS];
    assert slice in Slices(slice) && Cells(rows[row]) !! Slices(slice) && Slices(slice) !! Slices(ub);
    LaunchFusedRow(rows[row], slice, ub, call);
    forall w | 0 <= w < |slices|
      ensures slices[w].mark[..] == old(slices[w].mark[..])
      ensures slices[w].epoch == -2 || slices[w].epoch == old(slices[w].epoch)
    {
      assert slices[w] in Slices(slices[w]) && slices[w].mark in Slices(slices[w]);
      assert Cells(rows[row]) !! Slices(slices[w]) && Slices(slices[w]) !! Slices(ub);
    }
    forall i | 0 <= i < |rows| && i != row ensures Seen(rows[i]) == old(Seen(rows[i])) {
      assert Cells(rows[i]) !! Cells(rows[row]) && Cells(rows[i]) !! Slices(ub) && Cells(rows[i]) !! Slices(slice);
    }
  }

  // ---- legacy

  const MAX_GRID_DIM := 8
  const MAX_THREADS_PER_BLOCK := 128

  function GridDim(numReqs: nat): (g: nat)
    ensures 1 <= g <= MAX_GRID_DIM
  {
    if numReqs > MAX_GRID_DIM then MAX_GRID_DIM else if numReqs > 0 then numReqs else 1
  }

  /** As many threads as the slice of a block has room for. */
  function ThreadsPerBlock(capacity: nat, maxToken: int): (t: nat)
    ensures t >= 1
  {
    if capacity == 0 || maxToken < capacity then 1
    else
      DivPositive(maxToken, capacity);
      if maxToken / capacity > MAX_THREADS_PER_BLOCK then MAX_THREADS_PER_BLOCK else maxToken / capacity
  }

  lemma DivPositive(n: nat, d: nat)
    requires 0 < d <= n
    ensures n / d >= 1
  {
  }

  /** One block per row up to eight, and as many threads as fit in a slice up to 128. */
  lemma LaunchDims(numReqs: nat, capacity: nat, maxToken: int)
    ensures GridDim(numReqs) <= 8 && (GridDim(numReqs) == numReqs || numReqs > 8 == GridDim(numReqs) || numReqs == 0)
    ensures var t := ThreadsPerBlock(capacity, maxToken);
      if 1 <= capacity <= maxToken
      then 1 <= t <= 128 && t * capacity <= maxToken && (t == 128 || maxToken < (t + 1) * capacity)
      else t == 1
  {
    if 1 <= capacity <= maxToken {
      var q, t := maxToken / capacity, ThreadsPerBlock(capacity, maxToken);
      assert maxToken == q * capacity + maxToken % capacity;
      Multiples(capacity, t, q);
    }
  }

  function BlockOf(row: nat, grid: nat): nat
    requires grid > 0
  {
    row % grid
  }

  function ThreadOf(row: nat, grid: nat, threads: nat): nat
    requires grid > 0 && threads > 0
  {
    (row / grid) % threads
  }

  /** Where the scratch of a thread starts in the marks of its block's slice. */
  function RegionStart(thread: nat, capacity: nat): nat { thread * capacity }

  lemma DivUnique(n: nat, d: nat, q: nat, m: nat)
    requires m < d && n == q * d + m
    ensures n / d == q && n % d == m
  {
    var k := n / d;
    assert n == k * d + n % d;
    if k < q {
      Multiples(d, k + 1, q);
    } else if k > q {
      Multiples(d, q + 1, k);
    }
  }

  lemma Distribute(block: nat, thread: nat, grid: nat, threads: nat, k: nat)
    ensures StrideRow(block, thread, grid, threads, k) == (k * threads + thread) * grid + block
  {
    assert (k * threads + thread) * grid == k * threads * grid + thread * grid;
    assert k * threads * grid == k * (grid * threads);
  }

  /** A thread that starts at its own row and strides over the grid visits exactly the rows
      that belong to it; so every row is visited by exactly one thread. */
  lemma ThreadRows(row: nat, grid: nat, threads: nat, block: nat, thread: nat)
    requires block < grid && thread < threads
    ensures BlockOf(row, grid) == block && ThreadOf(row, grid, threads) == thread <==>
            exists k: nat :: row == StrideRow(block, thread, grid, threads, k)
  {
    hide StrideRow;
    if BlockOf(row, grid) == block && ThreadOf(row, grid, threads) == thread {
      Distribute(block, thread, grid, threads, row / grid / threads);
    }
    if k: nat :| row == StrideRow(block, thread, grid, threads, k) {
      Distribute(block, thread, grid, threads, k);
      NotNegative(k, threads);
      DivUnique(row, grid, k * threads + thread, block);
      DivUnique(k * threads + thread, threads, k, thread);
    }
  }

  lemma NotNegative(a: nat, b: nat)
    ensures a * b >= 0
  {
  }

  /** Row number k of a thread. */
  function StrideRow(block: nat, thread: nat, grid: nat, threads: nat, k: nat): int {
    block + thread * grid + k * (grid * threads)
  }

  /** The scratch of every thread lies in the slice of its block, and no two threads of a
      block share a cell. */
  lemma RegionsApart(capacity: nat, maxToken: int, a: nat, b: nat)
    requires capacity <= maxToken && a < b < ThreadsPerBlock(capacity, maxToken)
    ensures RegionStart(a, capacity) + capacity <= RegionStart(b, capacity)
    ensures RegionStart(b, capacity) + capacity <= maxToken
  {
    RegionFits(capacity, maxToken, b);
    Multiples(capacity, a + 1, b);
  }

  lemma RegionFits(capacity: nat, maxToken: int, thread: nat)
    requires capacity <= maxToken && thread < ThreadsPerBlock(capacity, maxToken)
    ensures RegionStart(thread, capacity) + capacity <= maxToken
  {
    if capacity > 0 {
      var q := maxToken / capacity;
      assert q * capacity <= maxToken;
      Multiples(capacity, thread + 1, q);
    }
  }

  /** The marks of the slices serve as scratch. */
  ghost predicate Scratched(rows: seq<RowMemory>, slices: seq<Workspace>, maxToken: int) {
    && |slices| == 8
    && (forall w :: 0 <= w < |slices| ==> slices[w].mark.Length >= maxToken)
    && (forall i, w :: 0 <= i < |rows| && 0 <= w < |slices| ==> slices[w].mark !in Cells(rows[i]))
    && (forall v, w :: 0 <= v < w < |slices| ==> slices[v].mark != slices[w].mark)
  }

  /** What the legacy kernel leaves in a row: its step, or with an empty shape just no miss. */
  ghost predicate LegacyDone(c: Content, call: Call, was: Row, maxToken: int) {
    |was.lru| == |was.table| &&
    if |call.topk| > 0 && |was.table| > 0 && maxToken > 0 then Shows(c, KernelStep(call, was, maxToken))
    else c.missCount == 0 && c.row == was
  }

  /** Rows of one shape that share no memory. */
  ghost predicate Rows(rows: seq<RowMemory>, width: nat, capacity: nat) {
    && (forall i :: 0 <= i < |rows| ==> rows[i].Shaped() && rows[i].width == width && rows[i].capacity == capacity)
    && (forall i, j :: 0 <= i < j < |rows| ==> Cells(rows[i]) !! Cells(rows[j]))
  }

  /** The threads of the legacy kernel work on different rows, in any order, each in its own
      part of the marks; the marks only receive slot ids. */
  method LaunchLegacy(rows: seq<RowMemory>, slices: seq<Workspace>, calls: seq<Call>, width: nat, capacity: nat,
                      maxToken: int)
    requires Rows(rows, width, capacity) && Scratched(rows, slices, maxToken) && |calls| == |rows|
    requires forall i :: 0 <= i < |rows| ==> |calls[i].topk| == width
    modifies set r, o | r in rows && o in Cells(r) :: o
    modifies set w | w in slices :: w.mark
    ensures forall i :: 0 <= i < |rows| ==> LegacyDone(Seen(rows[i]), calls[i], old(rows[i].Value()), maxToken)
    ensures forall w :: 0 <= w < |slices| ==>
      OnlyWithin(old(slices[w].mark[..]), slices[w].mark[..], 0, slices[w].mark.Length)
  {
    hide LegacyDone, Indices, Rows, Scratched, OnlyWithin, Seen;
    var todo := Indices(|rows|);
    forall i | 0 <= i < |rows| { SeenRow(rows[i]); }
    forall w | 0 <= w < |slices| { Untouched(slices[w].mark[..], 0, slices[w].mark.Length); }
    while todo != {}
      invariant todo <= Indices(|rows|)
      invariant forall i :: 0 <= i < |rows| && i in todo ==> Seen(rows[i]).row == old(rows[i].Value())
      invariant forall i :: 0 <= i < |rows| && i !in todo ==>
        LegacyDone(Seen(rows[i]), calls[i], old(rows[i].Value()), maxToken)
      invariant forall w :: 0 <= w < |slices| ==>
        OnlyWithin(old(slices[w].mark[..]), slices[w].mark[..], 0, slices[w].mark.Length)
      decreases todo
    {
      var row :| row in todo;
      SeenRow(rows[row]);
      label Before:
      LaunchLegacyRow(rows, slices, calls[row], row, width, capacity, maxToken);
      forall w | 0 <= w < |slices|
        ensures OnlyWithin(old(slices[w].mark[..]), slices[w].mark[..], 0, slices[w].mark.Length)
      {
        StillWithin(old(slices[w].mark[..]), old@Before(slices[w].mark[..]), slices[w].mark[..]);
      }
      todo := todo - {row};
    }
  }

  lemma StillWithin(a: seq<int>, b: seq<int>, c: seq<int>)
    requires OnlyWithin(a, b, 0, |b|) && OnlyWithin(b, c, 0, |c|)
    ensures OnlyWithin(a, c, 0, |c|)
  {
  }

  /** One row: its thread writes no mark outside its own part, and no other slice. */
  method LaunchLegacyRow(rows: seq<RowMemory>, slices: seq<Workspace>, call: Call, row: nat, width: nat,
                         capacity: nat, maxToken: int)
    requires row < |rows| && Rows(rows, width, capacity) && Scratched(rows, slices, maxToken)
    requires |call.topk| == width
    modifies Cells(rows[row])
    modifies set w | w in slices :: w.mark
    ensures LegacyDone(Seen(rows[row]), call, old(rows[row].Value()), maxToken)
    ensures forall i :: 0 <= i < |rows| && i != row ==> Seen(rows[i]) == old(Seen(rows[i]))
    ensures |slices| == 8
    ensures forall w :: 0 <= w < |slices| && w != BlockOf(row, GridDim(|rows|)) ==>
      slices[w].mark[..] == old(slices[w].mark[..])
    ensures var grid, threads := GridDim(|rows|), ThreadsPerBlock(capacity, maxToken);
      OnlyWithin(old(slices[BlockOf(row, grid)].mark[..]), slices[BlockOf(row, grid)].mark[..],
        RegionStart(ThreadOf(row, grid, threads), capacity), if capacity <= maxToken then capacity else 0)
    ensures forall w :: 0 <= w < |slices| ==>
      OnlyWithin(old(slices[w].mark[..]), slices[w].mark[..], 0, slices[w].mark.Length)
  {
    hide KernelStep;
    var grid, threads := GridDim(|rows|), ThreadsPerBlock(capacity, maxToken);
    var block, thread := BlockOf(row, grid), ThreadOf(row, grid, threads);
    var scratch := slices[block].mark;
    assert scratch !in Cells(rows[row]);
    if capacity <= maxToken { RegionFits(capacity, maxToken, thread); }
    CompactLegacy(rows[row], scratch, RegionStart(thread, capacity), call, maxToken);
    forall i | 0 <= i < |rows| && i != row ensures Seen(rows[i]) == old(Seen(rows[i])) {
      assert Cells(rows[i]) !! Cells(rows[row]) && scratch !in Cells(rows[i]);
    }
  }

  // ---- the operator

  /** The shapes whose kernels take the abstract step. */
  predicate TakesStep(numReqs: int, topk: int, capacity: int, maxToken: int) {
    IsFusedShape(numReqs, topk, capacity, maxToken) || CanUsePhased(numReqs, topk, capacity, maxToken)
  }

  predicate IsPhasedShape(numReqs: int, topk: int, capacity: int, maxToken: int) {
    !IsFusedShape(numReqs, topk, capacity, maxToken) && CanUsePhased(numReqs, topk, capacity, maxToken)
  }

  ghost predicate Done(abstractly: bool, c: Content, call: Call, was: Row, maxToken: int) {
    if abstractly then StepDone(c, call, was, maxToken) else LegacyDone(c, call, was, maxToken)
  }

  /** The same with all bounds written out. */
  lemma TakesStepIff(numReqs: int, topk: int, capacity: int, maxToken: int)
    ensures TakesStep(numReqs, topk, capacity, maxToken) <==>
      || (&& 1 <= numReqs && 1 <= topk <= maxToken - 2 && 1 <= capacity <= maxToken <= 2147483647
          && capacity <= 2147483646
          && numReqs * topk <= 9223372036854775807 && numReqs * capacity <= 9223372036854775807)
      || (1 <= numReqs && topk == 2048 && capacity == 4096 && maxToken == 4096)
  {
    hide CanUsePhased;
    PhasedShapeIff(numReqs, topk, capacity, maxToken);
  }

  /** No slot answers two positions. */
  ghost predicate Unshared(current: seq<int>) {
    forall a, b :: 0 <= a < b < |current| ==> current[a] == -1 || current[a] != current[b]
  }

  /** Positions that ask for the same get the same. */
  ghost predicate Shared(topk: seq<int>, current: seq<int>) {
    |topk| == |current| && forall a, b :: 0 <= a < b < |topk| && topk[a] == topk[b] ==> current[a] == current[b]
  }

  lemma StepDoneUnshared(c: Content, call: Call, was: Row, maxToken: int)
    requires StepDone(c, call, was, maxToken) && Usable(call, was)
    ensures Unshared(c.current)
  {
    hide Step, Usable;
    StepLength(call, was, maxToken);
    forall a, b | 0 <= a < b < |c.current| ensures c.current[a] == -1 || c.current[a] != c.current[b] {
      AnswersAreDistinct(call, was, maxToken, a, b);
    }
  }

  lemma StepLength(call: Call, row: Row, maxToken: int)
    requires |row.lru| == |row.table|
    ensures |Step(call, row, maxToken).current| == |call.topk|
  {
  }

  lemma LegacyDoneShared(c: Content, call: Call, was: Row, maxToken: int)
    requires LegacyDone(c, call, was, maxToken) && |call.topk| > 0 && |was.table| > 0 && maxToken > 0
    ensures Shared(call.topk, c.current)
  {
    hide KernelStep;
    KernelEqualTokens(call, was, maxToken, 0, 0);
    forall a, b | 0 <= a < b < |call.topk| && call.topk[a] == call.topk[b] ensures c.current[a] == c.current[b] {
      KernelEqualTokens(call, was, maxToken, a, b);
    }
  }

  /** The host's choice of kernel, for all rows of a call. Only the phased kernel needs
      anything of the marks, and only the legacy kernel works on any LRU row. */
  method LaunchShape(rows: seq<RowMemory>, slices: seq<Workspace>, ub: Workspace, calls: seq<Call>,
                     width: nat, capacity: nat, maxToken: int)
    requires Laid(rows, slices, width, capacity, maxToken) && Local(rows, slices, ub, maxToken)
    requires |calls| == |rows| && forall i :: 0 <= i < |rows| ==> |calls[i].topk| == width
    requires TakesStep(|rows|, width, capacity, maxToken) ==>
      forall i :: 0 <= i < |rows| ==> Usable(calls[i], rows[i].Value())
    requires IsPhasedShape(|rows|, width, capacity, maxToken) ==> AllFresh(slices)
    modifies set r, o | r in rows && o in Cells(r) :: o
    modifies set w, o | w in slices && o in Slices(w) :: o
    modifies Slices(ub)
    ensures forall i :: 0 <= i < |rows| ==>
      Done(TakesStep(|rows|, width, capacity, maxToken), Seen(rows[i]), calls[i], old(rows[i].Value()), maxToken)
    ensures !IsFusedShape(|rows|, width, capacity, maxToken) && old(AllFresh(slices)) ==> AllFresh(slices)
    ensures IsFusedShape(|rows|, width, capacity, maxToken) ==>
      forall w :: 0 <= w < |slices| ==> slices[w].mark[..] == old(slices[w].mark[..])
    ensures IsFusedShape(|rows|, width, capacity, maxToken) ==>
      forall i :: 0 <= i < |rows| ==> slices[i % 8].epoch == -2
  {
    hide Step, KernelStep, FreshNext, OnlyWithin;
    if IsFusedShape(|rows|, width, capacity, maxToken) {
      LaunchFused(rows, slices, ub, calls);
    } else if CanUsePhased(|rows|, width, capacity, maxToken) {
      LaunchPhased(rows, slices, calls, width, capacity, maxToken);
    } else {
      LaunchLegacy(rows, slices, calls, width, capacity, maxToken);
      forall w | 0 <= w < |slices| && old(AllFresh(slices)) ensures FreshNext(slices[w].mark[..], slices[w].epoch) {
        SlotIdsStayFresh(old(slices[w].mark[..]), slices[w].mark[..], slices[w].epoch);
      }
    }
  }

  /** The operator, with the bounds of its choice written out: within them every row takes the
      abstract step and no slot answers two positions; outside them equal tokens get equal
      slots. */
  method Compact(rows: seq<RowMemory>, slices: seq<Workspace>, ub: Workspace, calls: seq<Call>,
                 width: nat, capacity: nat, maxToken: int)
    requires Laid(rows, slices, width, capacity, maxToken) && Local(rows, slices, ub, maxToken)
    requires |calls| == |rows| && forall i :: 0 <= i < |rows| ==> |calls[i].topk| == width
    requires TakesStep(|rows|, width, capacity, maxToken) ==>
      forall i :: 0 <= i < |rows| ==> Usable(calls[i], rows[i].Value())
    requires IsPhasedShape(|rows|, width, capacity, maxToken) ==> AllFresh(slices)
    modifies set r, o | r in rows && o in Cells(r) :: o
    modifies set w, o | w in slices && o in Slices(w) :: o
    modifies Slices(ub)
    ensures && 1 <= |rows| && 1 <= width <= maxToken - 2 && 1 <= capacity <= maxToken <= 2147483647
            && capacity <= 2147483646
            && |rows| * width <= 9223372036854775807 && |rows| * capacity <= 9223372036854775807 ==>
      forall i :: 0 <= i < |rows| ==>
        StepDone(Seen(rows[i]), calls[i], old(rows[i].Value()), maxToken) && Unshared(Seen(rows[i]).current)
    ensures 1 <= |rows| && width == 2048 && capacity == 4096 && maxToken == 4096 ==>
      forall i :: 0 <= i < |rows| ==>
        StepDone(Seen(rows[i]), calls[i], old(rows[i].Value()), maxToken) && Unshared(Seen(rows[i]).current)
    ensures
      || (&& 1 <= |rows| && 1 <= width <= maxToken - 2 && 1 <= capacity <= maxToken <= 2147483647
          && capacity <= 2147483646
          && |rows| * width <= 9223372036854775807 && |rows| * capacity <= 9223372036854775807)
      || (width == 2048 && capacity == 4096 && maxToken == 4096)
      || forall i :: 0 <= i < |rows| ==>
          LegacyDone(Seen(rows[i]), calls[i], old(rows[i].Value()), maxToken) &&
          (width == 0 || capacity == 0 || maxToken <= 0 || Shared(calls[i].topk, Seen(rows[i]).current))
    ensures !(1 <= |rows| && width == 2048 && capacity == 4096 && maxToken == 4096) && old(AllFresh(slices)) ==>
      AllFresh(slices)
    ensures 1 <= |rows| && width == 2048 && capacity == 4096 && maxToken == 4096 ==>
      forall w :: 0 <= w < |slices| ==> slices[w].mark[..] == old(slices[w].mark[..])
    ensures 1 <= |rows| && width == 2048 && capacity == 4096 && maxToken == 4096 ==>
      forall i :: 0 <= i < |rows| ==> slices[i % 8].epoch == -2
  {
    hide Step, KernelStep, AllFresh, Unshared, Shared;
    TakesStepIff(|rows|, width, capacity, maxToken);
    LaunchShape(rows, slices, ub, calls, width, capacity, maxToken);
    forall i | 0 <= i < |rows|
      ensures TakesStep(|rows|, width, capacity, maxToken) ==> Unshared(Seen(rows[i]).current)
      ensures TakesStep(|rows|, width, capacity, maxToken) || width == 0 || capacity == 0 || maxToken <= 0
              || Shared(calls[i].topk, Seen(rows[i]).current)
    {
      if TakesStep(|rows|, width, capacity, maxToken) {
        StepDoneUnshared(Seen(rows[i]), calls[i], old(rows[i].Value()), maxToken);
      } else if width > 0 && capacity > 0 && maxToken > 0 {
        LegacyDoneShared(Seen(rows[i]), calls[i], old(rows[i].Value()), maxToken);
      }
    }
  }

  /** Slot ids are never older than an epoch. */
  lemma SlotIdsStayFresh(before: seq<int>, after: seq<int>, epoch: int)
    requires OnlyWithin(before, after, 0, |after|) && FreshNext(before, epoch)
    ensures FreshNext(after, epoch)
  {
  }

  // ---- runs of launches

  /** The calls of one row. */
  function Column(launches: seq<seq<Call>>, i: nat): (c: seq<Call>)
    requires forall k :: 0 <= k < |launches| ==> i < |launches[k]|
    ensures |c| == |launches| && forall k :: 0 <= k < |launches| ==> c[k] == launches[k][i]
  {
    seq(|launches|, k requires 0 <= k < |launches| => launches[k][i])
  }

  /** The row as call k of a run of legacy launches finds it. */
  function KernelRowAt(row: Row, calls: seq<Call>, maxToken: int, k: nat): (r: Row)
    requires |row.lru| == |row.table| && k <= |calls|
    ensures |r.lru| == |r.table| == |row.table|
  {
    if k == 0 then row
    else
      var was := KernelRowAt(row, calls, maxToken, k - 1);
      if |calls[k - 1].topk| > 0 && |row.table| > 0 && maxToken > 0
      then KernelStepShape(calls[k - 1], was, maxToken); KernelStep(calls[k - 1], was, maxToken).row
      else was
  }

  function RunRow(abstractly: bool, row: Row, calls: seq<Call>, maxToken: int, k: nat): (r: Row)
    requires |row.lru| == |row.table| && k <= |calls|
  {
    if abstractly then LruRuns.RowAt(row, calls, maxToken, k) else KernelRowAt(row, calls, maxToken, k)
  }

  /** The row went through k calls, and shows the answers of the last of them. */
  ghost predicate RunDone(abstractly: bool, c: Content, start: Row, calls: seq<Call>, maxToken: int, k: nat) {
    && |start.lru| == |start.table| && k <= |calls| && c.row == RunRow(abstractly, start, calls, maxToken, k)
    && (k > 0 ==> Done(abstractly, c, calls[k - 1], RunRow(abstractly, start, calls, maxToken, k - 1), maxToken))
  }

  lemma RunDoneNext(abstractly: bool, c: Content, d: Content, start: Row, calls: seq<Call>, maxToken: int, k: nat)
    requires RunDone(abstractly, c, start, calls, maxToken, k) && k < |calls|
    requires Done(abstractly, d, calls[k], c.row, maxToken)
    ensures RunDone(abstractly, d, start, calls, maxToken, k + 1)
  {
    hide Step, KernelStep;
  }

  lemma UsableNow(c: Content, start: Row, calls: seq<Call>, maxToken: int, k: nat)
    requires RunDone(true, c, start, calls, maxToken, k) && k < |calls| && LruRuns.Begins(start, calls)
    ensures Usable(calls[k], c.row)
  {
    hide Step, LruRuns.Begins;
    UsableInRun(start, calls, maxToken, k);
  }

  /** Any number of launches of one shape on the same rows and the same slices: every row
      goes through exactly its own run of calls. */
  method Launches(rows: seq<RowMemory>, slices: seq<Workspace>, ub: Workspace, launches: seq<seq<Call>>,
                  width: nat, capacity: nat, maxToken: int)
    requires Laid(rows, slices, width, capacity, maxToken) && Local(rows, slices, ub, maxToken)
    requires forall k :: 0 <= k < |launches| ==> |launches[k]| == |rows|
    requires forall k, i :: 0 <= k < |launches| && 0 <= i < |rows| ==> |launches[k][i].topk| == width
    requires launches != [] && TakesStep(|rows|, width, capacity, maxToken) ==>
      forall i :: 0 <= i < |rows| ==> LruRuns.Begins(rows[i].Value(), Column(launches, i))
    requires IsPhasedShape(|rows|, width, capacity, maxToken) ==> AllFresh(slices)
    modifies set r, o | r in rows && o in Cells(r) :: o
    modifies set w, o | w in slices && o in Slices(w) :: o
    modifies Slices(ub)
    ensures forall i :: 0 <= i < |rows| ==>
      RunDone(TakesStep(|rows|, width, capacity, maxToken), Seen(rows[i]), old(rows[i].Value()), Column(launches, i),
        maxToken, |launches|)
    ensures IsPhasedShape(|rows|, width, capacity, maxToken) ==> AllFresh(slices)
  {
    hide TakesStep, CanUsePhased, AllFresh, Laid, Local, RunDone, Done, Usable, LruRuns.Begins, Seen;
    ghost var abstractly := TakesStep(|rows|, width, capacity, maxToken);
    forall i | 0 <= i < |rows|
      ensures RunDone(abstractly, Seen(rows[i]), old(rows[i].Value()), Column(launches, i), maxToken, 0)
    {
      StartOfRun(rows, slices, width, capacity, maxToken, abstractly, launches, i);
    }
    for k := 0 to |launches|
      invariant forall i :: 0 <= i < |rows| ==>
        RunDone(abstractly, Seen(rows[i]), old(rows[i].Value()), Column(launches, i), maxToken, k)
      invariant IsPhasedShape(|rows|, width, capacity, maxToken) ==> AllFresh(slices)
    {
      forall i | 0 <= i < |rows|
        ensures abstractly ==> Usable(launches[k][i], rows[i].Value())
        ensures Seen(rows[i]).row == rows[i].Value()
      {
        SeenRow(rows[i]);
        if abstractly { UsableNow(Seen(rows[i]), old(rows[i].Value()), Column(launches, i), maxToken, k); }
      }
      label Before:
      LaunchShape(rows, slices, ub, launches[k], width, capacity, maxToken);
      forall i | 0 <= i < |rows|
        ensures RunDone(abstractly, Seen(rows[i]), old(rows[i].Value()), Column(launches, i), maxToken, k + 1)
      {
        RunDoneNext(abstractly, old@Before(Seen(rows[i])), Seen(rows[i]), old(rows[i].Value()), Column(launches, i),
                    maxToken, k);
      }
    }
  }

  lemma SeenRow(row: RowMemory)
    ensures Seen(row).row == row.Value()
  {
  }

  lemma StartOfRun(rows: seq<RowMemory>, slices: seq<Workspace>, width: nat, capacity: nat, maxToken: int,
                   abstractly: bool, launches: seq<seq<Call>>, i: nat)
    requires Laid(rows, slices, width, capacity, maxToken) && i < |rows|
    requires forall k :: 0 <= k < |launches| ==> |launches[k]| == |rows|
    ensures RunDone(abstractly, Seen(rows[i]), rows[i].Value(), Column(launches, i), maxToken, 0)
  {
  }

  /** A duplicate-free call that fits, on a row the legacy kernel can use, has the same
      outcome whichever kernel the shape selects. */
  lemma SameWhicheverKernel(call: Call, row: Row, maxToken: int)
    requires LegacyUsable(call, row, maxToken) && maxToken >= 0
    requires DuplicateFree(call.topk, maxToken) && |call.topk| <= |row.table|
    ensures KernelStep(call, row, maxToken) == Step(call, row, maxToken) == LegacyStep(call, row, maxToken)
  {
    hide KernelStep, LegacyStep, Step, LruFacts.Sound;
    KernelIsLegacy(call, row, maxToken);
    if row.lastReq == call.reqId {
      LegacyAgrees(call, row, maxToken);
    } else {
      var base := ResetRow(|row.table|, call.reqId);
      LegacyReset(call, row, maxToken);
      LruRuns.ResetErasesHistory(call, row, maxToken);
      LegacyAgrees(call, base, maxToken);
    }
  }

  /** Duplicate-free calls that fit: from a reset on, the run through the legacy kernel is
      the run through the other kernels. */
  lemma {:induction false} SameRunWhicheverKernel(row: Row, calls: seq<Call>, maxToken: int, k: nat)
    requires |row.lru| == |row.table| && |row.table| > 0 && maxToken > 0 && k <= |calls|
    requires calls != [] ==> row.lastReq != calls[0].reqId
    requires forall i :: 0 <= i < |calls| ==>
      0 < |calls[i].topk| <= |row.table| && DuplicateFree(calls[i].topk, maxToken)
    ensures KernelRowAt(row, calls, maxToken, k) == LruRuns.RowAt(row, calls, maxToken, k)
    ensures KernelRowAt(row, calls, maxToken, k) == LegacyRowAt(row, calls, maxToken, k)
  {
    hide KernelStep, LegacyStep, Step, LegacyUsable, Clean, DuplicateFree;
    if k == 0 {
    } else {
      SameRunWhicheverKernel(row, calls, maxToken, k - 1);
      LegacyAlwaysUsable(row, calls, maxToken, k - 1);
      SameWhicheverKernel(calls[k - 1], KernelRowAt(row, calls, maxToken, k - 1), maxToken);
    }
  }
}
