/** The block-wide prefix scan and block-wide "any" of the fused kernel: register
    shuffles inside a warp, one published value per warp, and a second shuffle pass over
    the warps. Lanes per warp and warps per block are symbolic. */
module WarpScan {
  import opened Compaction

  // ---- lane numbering

  /** thread / width, counted warp by warp. */
  function WarpOf(t: nat, width: nat): nat
    requires width > 0
  {
    if t < width then 0 else 1 + WarpOf(t - width, width)
  }

  /** thread % width. */
  function LaneOf(t: nat, width: nat): (l: nat)
    requires width > 0
    ensures l < width && l <= t
  {
    if t < width then t else LaneOf(t - width, width)
  }

  lemma {:induction false} ThreadOf(w: nat, l: nat, width: nat)
    requires l < width
    ensures WarpOf(Base(w, width) + l, width) == w && LaneOf(Base(w, width) + l, width) == l
  {
    if w == 0 {
    } else {
      ThreadOf(w - 1, l, width);
      assert Base(w, width) + l - width == Base(w - 1, width) + l;
    }
  }

  lemma {:induction false} Decompose(t: nat, width: nat)
    requires width > 0
    ensures t == Base(WarpOf(t, width), width) + LaneOf(t, width)
  {
    if t < width {
    } else {
      Decompose(t - width, width);
    }
  }

  lemma AtLeastOneWarp(warps: nat, width: nat)
    requires warps >= 1
    ensures width <= Base(warps, width)
  {
    BaseMonotone(1, warps, width);
    assert Base(1, width) == width;
  }

  /** The first thread of the warp of t. */
  function WarpStart(t: nat, width: nat): nat
    requires width > 0
  {
    t - LaneOf(t, width)
  }

  /** A lane that many places back is in the same warp. */
  lemma SameWarp(t: nat, width: nat, offset: nat)
    requires width > 0 && offset <= LaneOf(t, width)
    ensures WarpStart(t - offset, width) == WarpStart(t, width)
    ensures LaneOf(t - offset, width) == LaneOf(t, width) - offset
  {
    Decompose(t, width);
    ThreadOf(WarpOf(t, width), LaneOf(t, width) - offset, width);
  }

  // ---- sums

  function PrefixSum(s: seq<int>, n: nat): int
    requires n <= |s|
  {
    if n == 0 then 0 else PrefixSum(s, n - 1) + s[n - 1]
  }

  /** Where the window summed by lane t begins before the stage with this offset. */
  function WindowStart(t: nat, width: nat, offset: nat): (s: nat)
    requires width > 0 && offset > 0
    ensures s <= t
  {
    if t + 1 - offset > WarpStart(t, width) then t + 1 - offset else WarpStart(t, width)
  }

  /** One lock-step shuffle stage: every lane adds the register `offset` lanes back. */
  function ShuffleAdd(regs: seq<int>, width: nat, offset: nat): (r: seq<int>)
    requires width > 0
    ensures |r| == |regs|
  {
    seq(|regs|, t requires 0 <= t < |regs| =>
      if LaneOf(t, width) >= offset then regs[t] + regs[t - offset] else regs[t])
  }

  ghost predicate Windowed(flags: seq<int>, regs: seq<int>, width: nat, offset: nat)
    requires width > 0 && offset > 0
  {
    |regs| == |flags| &&
    forall t :: 0 <= t < |flags| ==> regs[t] == PrefixSum(flags, t + 1) - PrefixSum(flags,
      WindowStart(t, width, offset))
  }

  /** A stage doubles the window that every lane's register sums over. */
  lemma ShuffleDoubles(flags: seq<int>, regs: seq<int>, width: nat, offset: nat)
    requires width > 0 && offset > 0 && Windowed(flags, regs, width, offset)
    ensures Windowed(flags, ShuffleAdd(regs, width, offset), width, 2 * offset)
  {
    forall t | 0 <= t < |flags|
      ensures ShuffleAdd(regs, width, offset)[t] == PrefixSum(flags, t + 1) - PrefixSum(flags,
        WindowStart(t, width, 2 * offset))
    {
      if LaneOf(t, width) >= offset { SameWarp(t, width, offset); }
    }
  }

  /** Doubling shuffle scan: each lane below the limit ends with the inclusive sum of its warp. */
  method ShuffleScan(flags: seq<int>, width: nat, limit: nat) returns (regs: seq<int>)
    requires 1 <= limit <= width
    ensures |regs| == |flags|
    ensures forall t :: 0 <= t < |flags| && LaneOf(t, width) < limit ==>
      regs[t] == PrefixSum(flags, t + 1) - PrefixSum(flags, WarpStart(t, width))
  {
    regs := flags;
    var offset := 1;
    while offset < limit
      invariant offset >= 1 && Windowed(flags, regs, width, offset)
    {
      ShuffleDoubles(flags, regs, width, offset);
      regs := ShuffleAdd(regs, width, offset);
      offset := 2 * offset;
    }
  }

  /** The sum of the flags of warp v. */
  function WarpTotal(flags: seq<int>, width: nat, v: nat): int {
    if Base(v, width) + width <= |flags|
      then PrefixSum(flags, Base(v, width) + width) - PrefixSum(flags, Base(v, width)) else 0
  }

  /** Summing the warp totals telescopes to the sum of all lanes before a warp. */
  lemma {:induction false} TotalsTelescope(flags: seq<int>, totals: seq<int>, width: nat, w: nat)
    requires w <= |totals| && Base(w, width) <= |flags|
    requires forall v :: 0 <= v < w ==> totals[v] == WarpTotal(flags, width, v)
    ensures PrefixSum(totals, w) == PrefixSum(flags, Base(w, width))
  {
    if w == 0 {
    } else {
      TotalsTelescope(flags, totals, width, w - 1);
    }
  }

  /** After the shuffle scan the last lane of a warp holds the warp's total. */
  lemma LastLane(flags: seq<int>, regs: seq<int>, width: nat, warps: nat, w: nat)
    requires width > 0 && |flags| == |regs| == Base(warps, width) && w < warps
    requires forall t :: 0 <= t < |flags| ==> regs[t] == PrefixSum(flags, t + 1) - PrefixSum(flags, WarpStart(t, width))
    ensures Base(w, width) + width <= |flags| && regs[Base(w, width) + width - 1] == WarpTotal(flags, width, w)
  {
    hide PrefixSum, LaneOf, WarpOf;
    BaseMonotone(w + 1, warps, width);
    ThreadOf(w, width - 1, width);
  }

  /** Lane width - 1 of every warp publishes its register. */
  method PublishTotals(flags: seq<int>, regs: seq<int>, width: nat, warps: nat, a: array<int>)
    requires 1 <= warps <= width && |flags| == |regs| == Base(warps, width) == a.Length
    requires forall t :: 0 <= t < |flags| ==> regs[t] == PrefixSum(flags, t + 1) - PrefixSum(flags, WarpStart(t, width))
    modifies a
    ensures width <= a.Length && forall v :: 0 <= v < warps ==> a[v] == WarpTotal(flags, width, v)
  {
    hide Base, WarpTotal, Indices;
    AtLeastOneWarp(warps, width);
    var todo := Indices(warps);
    while todo != {}
      invariant todo <= Indices(warps)
      invariant forall v :: 0 <= v < warps && v !in todo ==> a[v] == WarpTotal(flags, width, v)
      decreases todo
    {
      var w :| w in todo;
      LastLane(flags, regs, width, warps, w);
      a[w] := regs[Base(w, width) + width - 1];
      todo := todo - {w};
    }
  }

  /** One channel of the block scan: every lane ends with the inclusive prefix sum over
      the whole block. `a` holds the published warp totals, then the result. */
  method BlockScan(flags: seq<int>, width: nat, warps: nat, a: array<int>, b: array<int>)
    requires 1 <= warps <= width && |flags| == Base(warps, width) == a.Length == b.Length && a != b
    modifies a, b
    ensures forall t :: 0 <= t < |flags| ==> a[t] == PrefixSum(flags, t + 1)
  {
    hide Indices;
    var regs := ShuffleScan(flags, width, width);
    PublishTotals(flags, regs, width, warps, a);
    // barrier: warp 0 scans the totals; its lanes past the last warp read unused values
    var totals := a[..width];
    var sums := ShuffleScan(totals, width, warps);
    forall l | 0 <= l < width { b[l] := sums[l] - totals[l]; }
    // barrier: every lane adds the sum of the warps before its own
    var todo := Indices(|flags|);
    while todo != {}
      invariant todo <= Indices(|flags|)
      invariant forall l :: 0 <= l < width ==> b[l] == sums[l] - totals[l]
      invariant forall u :: 0 <= u < |flags| && u !in todo ==> a[u] == PrefixSum(flags, u + 1)
      decreases todo
    {
      var t :| t in todo;
      BeforeWarp(flags, totals, sums, width, warps, t);
      a[t] := b[WarpOf(t, width)] + regs[t];
      todo := todo - {t};
    }
  }

  /** Warp totals scanned by warp 0: what lane WarpOf(t) offers is the sum before t's warp. */
  lemma BeforeWarp(flags: seq<int>, totals: seq<int>, sums: seq<int>, width: nat, warps: nat, t: nat)
    requires 1 <= warps <= width == |totals| == |sums| && |flags| == Base(warps, width) && t < |flags|
    requires forall v :: 0 <= v < warps ==> totals[v] == WarpTotal(flags, width, v)
    requires forall u :: 0 <= u < |totals| && LaneOf(u, width) < warps ==>
      sums[u] == PrefixSum(totals, u + 1) - PrefixSum(totals, WarpStart(u, width))
    ensures WarpOf(t, width) < warps
    ensures sums[WarpOf(t, width)] - totals[WarpOf(t, width)] == PrefixSum(flags, WarpStart(t, width))
  {
    hide Base, WarpTotal;
    var w := WarpOf(t, width);
    Decompose(t, width);
    WarpBelow(t, width, warps);
    BaseMonotone(w, warps, width);
    TotalsTelescope(flags, totals, width, w);
    assert LaneOf(w, width) == w;
  }

  lemma WarpBelow(t: nat, width: nat, warps: nat)
    requires width > 0 && t < Base(warps, width)
    ensures WarpOf(t, width) < warps
  {
    Decompose(t, width);
    if WarpOf(t, width) >= warps { BaseMonotone(warps, WarpOf(t, width), width); }
  }

  // ---- block-wide any

  /** One stage of the "any" shuffle: a lane becomes 1 if the lane `offset` back is non-zero. */
  function ShuffleAny(regs: seq<int>, width: nat, offset: nat): (r: seq<int>)
    requires width > 0
    ensures |r| == |regs|
  {
    seq(|regs|, t requires 0 <= t < |regs| =>
      if LaneOf(t, width) >= offset && regs[t - offset] != 0 then 1 else regs[t])
  }

  ghost predicate AnyWindowed(flags: seq<int>, regs: seq<int>, width: nat, offset: nat)
    requires width > 0 && offset > 0
  {
    |regs| == |flags| &&
    forall t :: 0 <= t < |flags| ==> (regs[t] != 0 <==>
      exists u :: WindowStart(t, width, offset) <= u <= t && flags[u] != 0)
  }

  lemma AnyDoubles(flags: seq<int>, regs: seq<int>, width: nat, offset: nat)
    requires width > 0 && offset > 0 && AnyWindowed(flags, regs, width, offset)
    ensures AnyWindowed(flags, ShuffleAny(regs, width, offset), width, 2 * offset)
  {
    forall t | 0 <= t < |flags|
      ensures ShuffleAny(regs, width, offset)[t] != 0 <==>
        exists u :: WindowStart(t, width, 2 * offset) <= u <= t && flags[u] != 0
    {
      if LaneOf(t, width) >= offset {
        SameWarp(t, width, offset);
        assert regs[t - offset] != 0 <==>
          exists u :: WindowStart(t - offset, width, offset) <= u <= t - offset && flags[u] != 0;
      }
    }
  }

  ghost predicate AnyIn(flags: seq<int>, lo: int, hi: int) {
    exists u :: 0 <= lo <= u < hi <= |flags| && flags[u] != 0
  }

  method WarpAny(flags: seq<int>, width: nat, limit: nat) returns (regs: seq<int>)
    requires 1 <= limit <= width
    ensures |regs| == |flags|
    ensures forall t :: 0 <= t < |flags| && LaneOf(t, width) < limit ==>
      (regs[t] != 0 <==> AnyIn(flags, WarpStart(t, width), t + 1))
  {
    regs := flags;
    var offset := 1;
    while offset < limit
      invariant offset >= 1 && AnyWindowed(flags, regs, width, offset)
    {
      AnyDoubles(flags, regs, width, offset);
      regs := ShuffleAny(regs, width, offset);
      offset := 2 * offset;
    }
  }

  /** Whether any lane of the block raised its predicate. Warp and block are both read at
      their last lane, so here the block has as many warps as a warp has lanes. */
  method BlockAny(flags: seq<int>, width: nat, a: array<int>) returns (any: int)
    requires 1 <= width && |flags| == Base(width, width) <= a.Length
    modifies a
    ensures any != 0 <==> exists u :: 0 <= u < |flags| && flags[u] != 0
  {
    var regs := WarpAny(flags, width, width);
    PublishAny(flags, regs, width, a);
    var published := a[..width];
    var block := WarpAny(published, width, width);
    any := block[width - 1];
    AnyOfWarps(flags, published, width);
    assert LaneOf(width - 1, width) == width - 1;
    assert any != 0 <==> AnyIn(published, WarpStart(width - 1, width), width);
  }

  method PublishAny(flags: seq<int>, regs: seq<int>, width: nat, a: array<int>)
    requires 1 <= width && |flags| == |regs| == Base(width, width) <= a.Length
    requires forall t :: 0 <= t < |flags| ==> (regs[t] != 0 <==> AnyIn(flags, WarpStart(t, width), t + 1))
    modifies a
    ensures width <= a.Length
    ensures forall v :: 0 <= v < width ==> (a[v] != 0 <==> AnyIn(flags, Base(v, width), Base(v, width) + width))
  {
    hide Base, AnyIn, Indices;
    AtLeastOneWarp(width, width);
    var todo := Indices(width);
    while todo != {}
      invariant todo <= Indices(width)
      invariant forall v :: 0 <= v < width && v !in todo ==>
        (a[v] != 0 <==> AnyIn(flags, Base(v, width), Base(v, width) + width))
      decreases todo
    {
      var w :| w in todo;
      LastLaneAny(flags, regs, width, w);
      a[w] := regs[Base(w, width) + width - 1];
      todo := todo - {w};
    }
  }

  lemma LastLaneAny(flags: seq<int>, regs: seq<int>, width: nat, w: nat)
    requires 1 <= width && |flags| == |regs| == Base(width, width) && w < width
    requires forall t :: 0 <= t < |flags| ==> (regs[t] != 0 <==> AnyIn(flags, WarpStart(t, width), t + 1))
    ensures Base(w, width) + width <= |flags|
    ensures regs[Base(w, width) + width - 1] != 0 <==> AnyIn(flags, Base(w, width), Base(w, width) + width)
  {
    BaseMonotone(w + 1, width, width);
    ThreadOf(w, width - 1, width);
  }

  lemma AnyOfWarps(flags: seq<int>, published: seq<int>, width: nat)
    requires 1 <= width == |published| && |flags| == Base(width, width)
    requires forall v :: 0 <= v < width ==>
      (published[v] != 0 <==> AnyIn(flags, Base(v, width), Base(v, width) + width))
    ensures AnyIn(published, 0, width) <==> exists u :: 0 <= u < |flags| && flags[u] != 0
  {
    if u :| 0 <= u < |flags| && flags[u] != 0 {
      var w := WarpOf(u, width);
      Decompose(u, width);
      WarpBelow(u, width, width);
      BaseMonotone(w + 1, width, width);
      assert AnyIn(flags, Base(w, width), Base(w, width) + width);
    }
  }
}
