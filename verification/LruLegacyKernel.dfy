/** The legacy kernel as code: nested scans over the row arrays of one request. */
module LruLegacyKernel {
  import opened Compaction
  import opened LruSpec
  import opened LruFacts
  import opened LruDevice
  import opened LruLegacy
  import LruPhased

  // ---- what the kernel does

  /** The branch without scratch protects the slots named by the answers, not the hit slots. */
  function NamedFlags(lru: seq<int>, capacity: nat, current: seq<int>): (f: seq<bool>)
    ensures |f| == |lru|
  {
    seq(|lru|, i requires 0 <= i < |lru| => IsSlot(lru[i], capacity) && lru[i] in current)
  }

  /** Slots it may give out, each where it first occurs. */
  function FreeFlags(lru: seq<int>, capacity: nat, current: seq<int>): (f: seq<bool>)
    ensures |f| == |lru|
  {
    seq(|lru|, i requires 0 <= i < |lru| => IsSlot(lru[i], capacity) && lru[i] !in current && lru[i] !in lru[..i])
  }

  function SearchPlan(lru: seq<int>, table: seq<int>, topk: seq<int>, maxToken: int): Plan {
    var p := LegacyPlan(lru, table, topk, maxToken);
    p.(evictable := Select(lru, FreeFlags(lru, |table|, p.current), |lru|),
       hits := Select(lru, NamedFlags(lru, |table|, p.current), |lru|))
  }

  /** The scratch fits only if the row is not longer than the workspace. */
  function KernelPlan(lru: seq<int>, table: seq<int>, topk: seq<int>, maxToken: int): Plan {
    if |table| <= maxToken then LegacyPlan(lru, table, topk, maxToken) else SearchPlan(lru, table, topk, maxToken)
  }

  /** The rebuild of the branch with scratch looks for requested tokens without testing that
      they are below maxToken. */
  function AskedFlags(lru: seq<int>, table: seq<int>, topk: seq<int>): (f: seq<bool>)
    ensures |f| == |lru|
  {
    seq(|lru|, i requires 0 <= i < |lru| => IsSlot(lru[i], |table|) && table[lru[i]] >= 0 && table[lru[i]] in topk)
  }

  /** The answers after assignment and propagation. */
  function KernelAnswers(lru: seq<int>, table: seq<int>, topk: seq<int>, maxToken: int): (c: seq<int>)
    requires |lru| == |table|
    ensures |c| == |topk|
  {
    var p := KernelPlan(lru, table, topk, maxToken);
    KernelPlanIsOk(lru, table, topk, maxToken);
    Propagated(topk, Scatter(p.current, p.misses, p.evictable, AssignCount(p)), maxToken)
  }

  /** The row with its asked slots copied to the end. */
  function Moved(lru: seq<int>, table: seq<int>, topk: seq<int>): (m: seq<int>)
    ensures |m| == |lru|
  {
    var a := AskedFlags(lru, table, topk);
    RankMonotone(a, 0, |lru|);
    lru[..|lru| - Rank(a, |lru|)] + Select(lru, a, |lru|)
  }

  /** The rebuilt row. With scratch, survivors and assigned slots overwrite the front of the
      moved row; without, the row is sorted by category. */
  function KernelRow(lru: seq<int>, table: seq<int>, topk: seq<int>, maxToken: int): seq<int>
    requires |lru| == |table|
  {
    var p := KernelPlan(lru, table, topk, maxToken);
    KernelPlanIsOk(lru, table, topk, maxToken);
    if |table| <= maxToken
    then p.evictable[AssignCount(p)..] + Assigned(p) + Moved(lru, table, topk)[|p.evictable|..]
    else Grouped(Assigned(p), KernelAnswers(lru, table, topk, maxToken), lru, |lru|)
  }

  /** The outcome of the kernel, row for row. */
  function KernelStep(call: Call, row: Row, maxToken: int): Outcome
    requires |row.lru| == |row.table|
  {
    var r := Prepared(call, row, maxToken);
    KernelPlanIsOk(r.lru, r.table, call.topk, maxToken);
    var o := LegacyExecute(KernelPlan(r.lru, r.table, call.topk, maxToken), r.table, call.topk, maxToken, call.reqId);
    o.(row := o.row.(lru := KernelRow(r.lru, r.table, call.topk, maxToken)))
  }

  lemma KernelStepShape(call: Call, row: Row, maxToken: int)
    requires |row.lru| == |row.table|
    ensures var r := KernelStep(call, row, maxToken).row; |r.lru| == |r.table| == |row.table|
  {
    hide KernelPlan, Grouped, Moved;
    var r := Prepared(call, row, maxToken);
    var p := KernelPlan(r.lru, r.table, call.topk, maxToken);
    KernelPlanIsOk(r.lru, r.table, call.topk, maxToken);
    GroupedLength(Assigned(p), KernelAnswers(r.lru, r.table, call.topk, maxToken), r.lru, |r.lru|);
  }

  /** Equal requested tokens get equal slots, on any row. */
  lemma KernelEqualTokens(call: Call, row: Row, maxToken: int, a: nat, b: nat)
    requires |row.lru| == |row.table| && a < |call.topk| && b < |call.topk| && call.topk[a] == call.topk[b]
    ensures var c := KernelStep(call, row, maxToken).current; |c| == |call.topk| && c[a] == c[b]
  {
    hide KernelPlan, KernelRow, Scatter;
    var r := Prepared(call, row, maxToken);
    KernelPlanIsOk(r.lru, r.table, call.topk, maxToken);
  }

  lemma KernelPlanIsOk(lru: seq<int>, table: seq<int>, topk: seq<int>, maxToken: int)
    requires |lru| == |table|
    ensures PlanOk(KernelPlan(lru, table, topk, maxToken), |topk|, |table|)
  {
    hide Select, Rank;
    LegacyPlanIsOk(lru, table, topk, maxToken);
    var p := SearchPlan(lru, table, topk, maxToken);
    var e, h := FreeFlags(lru, |table|, p.current), NamedFlags(lru, |table|, p.current);
    RankDisjoint(e, h, |lru|);
    forall j | 0 <= j < |p.evictable| ensures IsSlot(p.evictable[j], |table|) {
      var i := SelectSource(lru, e, |lru|, j);
    }
    forall j | 0 <= j < |p.hits| ensures IsSlot(p.hits[j], |table|) {
      var i := SelectSource(lru, h, |lru|, j);
    }
  }

  lemma SearchDistinct(lru: seq<int>, table: seq<int>, topk: seq<int>, maxToken: int)
    ensures var p := SearchPlan(lru, table, topk, maxToken);
      Distinct(p.evictable) && Distinct(p.misses) && forall s :: s in p.evictable ==> s !in p.hits
  {
    hide Select, LegacyPlan;
    MissesDistinct(lru, table, topk, maxToken);
    var p := SearchPlan(lru, table, topk, maxToken);
    var e := FreeFlags(lru, |table|, p.current);
    forall i, j | 0 <= i < j < |lru| && e[i] && e[j] ensures lru[i] != lru[j] {
      assert lru[..j][i] == lru[i];
    }
    SelectDistinct(lru, e);
    forall s | s in p.evictable ensures s !in p.hits {
      SelectMembers(lru, FreeFlags(lru, |table|, p.current), s);
      SelectMembers(lru, NamedFlags(lru, |table|, p.current), s);
    }
  }

  // ---- hits

  /** Serve every position that asks for the token resident in the slot. */
  method ServeSlot(topk: seq<int>, token: int, slot: int, current: array<int>) returns (hit: bool)
    requires current.Length == |topk|
    modifies current
    ensures hit == (token in topk)
    ensures forall p :: 0 <= p < |topk| ==> current[p] == if topk[p] == token then slot else old(current[p])
  {
    hit := false;
    for p := 0 to |topk|
      invariant hit == (token in topk[..p])
      invariant forall q :: 0 <= q < |topk| ==>
        current[q] == if q < p && topk[q] == token then slot else old(current[q])
    {
      if topk[p] == token {
        hit := true;
        current[p] := slot;
      }
    }
    assert topk[..|topk|] == topk;
  }

  /** Only the part of the scratch at base changed, and it only received slot ids. */
  ghost predicate OnlyWithin(before: seq<int>, after: seq<int>, base: nat, length: nat) {
    && |before| == |after|
    && forall t :: 0 <= t < |after| ==> after[t] == before[t] || (base <= t < base + length && after[t] >= 0)
  }

  lemma Untouched(scratch: seq<int>, base: nat, length: nat)
    ensures OnlyWithin(scratch, scratch, base, length)
  {
  }

  method KeepSlot(scratch: array<int>, base: nat, count: nat, ghost length: nat, slot: int, ghost before: seq<int>)
    requires count < length && base + length <= scratch.Length && slot >= 0
    requires OnlyWithin(before, scratch[..], base, length)
    modifies scratch
    ensures scratch[base..base + count + 1] == old(scratch[base..base + count]) + [slot]
    ensures OnlyWithin(before, scratch[..], base, length)
  {
    scratch[base + count] := slot;
  }

  method ScanHits(topk: seq<int>, table: seq<int>, lru: seq<int>, maxToken: int, current: array<int>,
                  hasScratch: bool, scratch: array<int>, base: nat)
    returns (evictableCount: nat)
    requires |lru| == |table| && current.Length == |topk| && current != scratch
    requires (hasScratch ==> base + |lru| <= scratch.Length)
    requires current[..] == Pad([], |topk|)
    modifies current, scratch
    ensures current[..] == LegacyCurrent(lru, table, topk, maxToken)
    ensures evictableCount == |LegacyPlan(lru, table, topk, maxToken).evictable|
    ensures hasScratch ==> base + evictableCount <= scratch.Length
    ensures hasScratch ==> scratch[base..base + evictableCount] == LegacyPlan(lru, table, topk, maxToken).evictable
    ensures OnlyWithin(old(scratch[..]), scratch[..], base, if hasScratch then |lru| else 0)
  {
    hide Holder, Select, Rank, OnlyWithin;
    ghost var e := EvictFlags(lru, table, topk, maxToken);
    evictableCount := 0;
    HolderNone(lru, table, topk, maxToken);
    SelectNone(lru, e);
    Untouched(scratch[..], base, if hasScratch then |lru| else 0);
    for order := 0 to |lru|
      invariant forall p :: 0 <= p < |topk| ==> current[p] == LegacyHit(lru, table, topk, maxToken, order, p)
      invariant evictableCount == Rank(e, order)
      invariant evictableCount <= order
      invariant hasScratch ==> scratch[base..base + evictableCount] == Select(lru, e, order)
      invariant OnlyWithin(old(scratch[..]), scratch[..], base, if hasScratch then |lru| else 0)
    {
      var slot := lru[order];
      RankStep(e, order);
      SelectStep(lru, e, order);
      forall p | 0 <= p < |topk| { HolderNext(lru, table, topk, maxToken, order, p); }
      if 0 <= slot < |lru| {
        var token := table[slot];
        var hit := false;
        if 0 <= token < maxToken {
          hit := ServeSlot(topk, token, slot, current);
        }
        if !hit {
          if hasScratch {
            KeepSlot(scratch, base, evictableCount, |lru|, slot, old(scratch[..]));
          }
          evictableCount := evictableCount + 1;
        }
      }
    }
  }

  lemma HolderNone(lru: seq<int>, table: seq<int>, topk: seq<int>, maxToken: int)
    ensures forall p :: 0 <= p < |topk| ==> LegacyHit(lru, table, topk, maxToken, 0, p) == INVALID
  {
  }

  lemma HolderNext(lru: seq<int>, table: seq<int>, topk: seq<int>, maxToken: int, n: nat, p: nat)
    requires n < |lru| && p < |topk|
    ensures LegacyHit(lru, table, topk, maxToken, n + 1, p) ==
      if IsSlot(lru[n], |table|) && IsToken(table[lru[n]], maxToken) && topk[p] == table[lru[n]] then lru[n]
      else LegacyHit(lru, table, topk, maxToken, n, p)
  {
  }

  // ---- unique misses

  method IsDuplicate(topk: seq<int>, p: nat) returns (duplicate: bool)
    requires p < |topk|
    ensures duplicate <==> First(topk, topk[p], |topk|) != p
  {
    duplicate := false;
    for prior := 0 to p
      invariant !duplicate && forall q :: 0 <= q < prior ==> topk[q] != topk[p]
    {
      if topk[prior] == topk[p] {
        duplicate := true;
        break;
      }
    }
  }

  lemma BlankCells(a: seq<int>)
    requires a == Pad([], |a|)
    ensures forall j :: 0 <= j < |a| ==> a[j] == INVALID
  {
  }

  /** missSlots temporarily holds the Top-K position of each miss. */
  method CollectUnique(topk: seq<int>, current: seq<int>, maxToken: int, missTokens: array<int>,
                       missSlots: array<int>) returns (missCount: nat)
    requires |topk| == |current| == missTokens.Length == missSlots.Length && missTokens != missSlots
    requires missTokens[..] == Pad([], |topk|) && missSlots[..] == Pad([], |topk|)
    modifies missTokens, missSlots
    ensures var misses := Select(Iota(|topk|), UniqueMissFlags(topk, current, maxToken), |topk|);
      && missCount == |misses| && (forall j :: 0 <= j < missCount ==> 0 <= misses[j] < |topk|)
      && missSlots[..] == Pad(misses, |topk|) && missTokens[..] == Pad(TokensAt(topk, misses), |topk|)
  {
    hide First, Rank, Select, Pad;
    ghost var f := UniqueMissFlags(topk, current, maxToken);
    missCount := 0;
    SelectNone(Iota(|topk|), f);
    BlankCells(missTokens[..]);
    BlankCells(missSlots[..]);
    for p := 0 to |topk|
      invariant missCount == Rank(f, p) <= p
      invariant missSlots[..missCount] == Select(Iota(|topk|), f, p)
      invariant forall j :: 0 <= j < missCount ==> 0 <= missSlots[j] < |topk|
      invariant forall j :: 0 <= j < |topk| ==> missTokens[j] == if j < missCount then topk[missSlots[j]] else INVALID
      invariant forall j :: missCount <= j < |topk| ==> missSlots[j] == INVALID
    {
      var token := topk[p];
      SelectStep(Iota(|topk|), f, p);
      if 0 <= token < maxToken && current[p] < 0 {
        var duplicate := IsDuplicate(topk, p);
        if !duplicate {
          missTokens[missCount] := token;
          missSlots[missCount] := p;
          missCount := missCount + 1;
        }
      }
    }
    ghost var misses := Select(Iota(|topk|), f, |topk|);
    assert forall j :: 0 <= j < missCount ==> missSlots[j] == missSlots[..missCount][j];
    PadIs(misses, missSlots[..]);
    PadIs(TokensAt(topk, misses), missTokens[..]);
  }

  // ---- assignment

  /** Slots given to the first k misses; the rest of missSlots still holds positions. */
  ghost predicate GivenOut(p: Plan, k: nat, width: nat, missSlots: seq<int>) {
    && k <= |p.misses| && k <= |p.evictable| && |p.misses| <= width == |missSlots|
    && forall j :: 0 <= j < width ==>
      missSlots[j] == if j < k then p.evictable[j] else if j < |p.misses| then p.misses[j] else INVALID
  }

  method AssignFromScratch(ghost p: Plan, missCount: nat, evictableCount: nat, scratch: array<int>, base: nat,
                           ghost capacity: nat, current: array<int>, missSlots: array<int>)
    returns (assignCount: nat)
    requires current != missSlots && scratch != current && scratch != missSlots
    requires PlanOk(p, current.Length, capacity) && base + evictableCount <= scratch.Length
    requires current.Length == missSlots.Length && missCount == |p.misses| && evictableCount == |p.evictable|
    requires scratch[base..base + evictableCount] == p.evictable && current[..] == p.current
    requires missSlots[..] == Pad(p.misses, current.Length)
    modifies current, missSlots
    ensures assignCount == AssignCount(p) && GivenOut(p, assignCount, current.Length, missSlots[..])
    ensures current[..] == Scatter(p.current, p.misses, p.evictable, assignCount)
  {
    assignCount := 0;
    while assignCount < missCount
      invariant GivenOut(p, assignCount, current.Length, missSlots[..])
      invariant current[..] == Scatter(p.current, p.misses, p.evictable, assignCount)
    {
      var chosen := INVALID;
      if assignCount < evictableCount {
        chosen := scratch[base + assignCount];
        assert chosen == scratch[base..base + evictableCount][assignCount];
      }
      if chosen < 0 {
        break;
      }
      var pos := missSlots[assignCount];
      assert pos == missSlots[..][assignCount];
      current[pos] := chosen;
      missSlots[assignCount] := chosen;
      assignCount := assignCount + 1;
    }
  }

  // ---- the search used without scratch

  method IsProtected(current: array<int>, slot: int) returns (yes: bool)
    ensures yes == (slot in current[..])
  {
    yes := false;
    for p := 0 to current.Length
      invariant !yes && slot !in current[..p]
    {
      if current[p] == slot {
        yes := true;
        assert current[..][p] == slot;
        return;
      }
    }
    assert current[..current.Length] == current[..];
  }

  /** Place o holds the first valid slot that the answers do not name. */
  ghost predicate IsOldest(lru: seq<int>, current: seq<int>, o: int) {
    && 0 <= o < |lru| && IsSlot(lru[o], |lru|) && lru[o] !in current
    && forall b :: 0 <= b < o && IsSlot(lru[b], |lru|) ==> lru[b] in current
  }

  /** The oldest slot that neither serves a hit nor was assigned already. */
  method FindOldest(lru: seq<int>, current: array<int>) returns (chosen: int)
    ensures chosen == INVALID ==> forall o :: 0 <= o < |lru| && IsSlot(lru[o], |lru|) ==> lru[o] in current[..]
    ensures chosen != INVALID ==> exists o :: IsOldest(lru, current[..], o) && lru[o] == chosen
  {
    chosen := INVALID;
    for order := 0 to |lru|
      invariant forall o :: 0 <= o < order && IsSlot(lru[o], |lru|) ==> lru[o] in current[..]
    {
      var candidate := lru[order];
      if candidate < 0 || candidate >= |lru| {
        continue;
      }
      var protectedSlot := IsProtected(current, candidate);
      if !protectedSlot {
        assert IsOldest(lru, current[..], order);
        return candidate;
      }
    }
  }

  /** After k assignments the answers name exactly the slots named before and the k oldest
      free slots. */
  lemma ProtectedIff(lru: seq<int>, table: seq<int>, topk: seq<int>, maxToken: int, k: nat, s: int)
    requires IsSlot(s, |table|)
    requires var p := SearchPlan(lru, table, topk, maxToken);
      PlanOk(p, |topk|, |table|) && k <= |p.misses| && k <= |p.evictable|
    ensures var p := SearchPlan(lru, table, topk, maxToken);
      s in Scatter(p.current, p.misses, p.evictable, k) <==> s in p.current || s in p.evictable[..k]
  {
    hide LegacyPlan, Scatter, Select;
    var p := SearchPlan(lru, table, topk, maxToken);
    var c := Scatter(p.current, p.misses, p.evictable, k);
    SearchDistinct(lru, table, topk, maxToken);
    ScatterAt(p.current, p.misses, p.evictable, k);
    if s in c {
      var q :| 0 <= q < |c| && c[q] == s;
      if q in p.misses[..k] {
        var j :| 0 <= j < k && p.misses[j] == q;
        assert p.evictable[..k][j] == s;
      }
    }
    if s in p.current {
      var q :| 0 <= q < |p.current| && p.current[q] == s;
      if q in p.misses[..k] {
        var j :| 0 <= j < k && p.misses[j] == q;
        MissIsUnanswered(lru, table, topk, maxToken, j);
      }
      assert c[q] == s;
    } else if s in p.evictable[..k] {
      var j :| 0 <= j < k && p.evictable[j] == s;
      assert c[p.misses[j]] == s;
    }
  }

  lemma MissesDistinct(lru: seq<int>, table: seq<int>, topk: seq<int>, maxToken: int)
    ensures Distinct(LegacyPlan(lru, table, topk, maxToken).misses)
  {
    hide First, Holder, Select;
    SelectDistinct(Iota(|topk|), UniqueMissFlags(topk, LegacyCurrent(lru, table, topk, maxToken), maxToken));
  }

  lemma MissIsUnanswered(lru: seq<int>, table: seq<int>, topk: seq<int>, maxToken: int, j: nat)
    requires j < |LegacyPlan(lru, table, topk, maxToken).misses|
    ensures var p := LegacyPlan(lru, table, topk, maxToken);
      0 <= p.misses[j] < |topk| && p.current[p.misses[j]] == INVALID
  {
    hide First, Holder, Select;
    LegacyMissSource(lru, table, topk, maxToken, j);
    var p := LegacyPlan(lru, table, topk, maxToken);
    assert p.current[p.misses[j]] == LegacyHit(lru, table, topk, maxToken, |lru|, p.misses[j]);
  }

  /** The oldest unprotected slot is the next free one. */
  lemma OldestIsNext(lru: seq<int>, table: seq<int>, topk: seq<int>, maxToken: int, k: nat, o: nat)
    requires |lru| == |table|
    requires var p := SearchPlan(lru, table, topk, maxToken);
      && PlanOk(p, |topk|, |table|) && k <= |p.misses| && k <= |p.evictable|
      && IsOldest(lru, Scatter(p.current, p.misses, p.evictable, k), o)
    ensures var p := SearchPlan(lru, table, topk, maxToken); k < |p.evictable| && p.evictable[k] == lru[o]
  {
    hide Scatter, Select, Rank, LegacyPlan;
    var p := SearchPlan(lru, table, topk, maxToken);
    var e := FreeFlags(lru, |table|, p.current);
    ProtectedIff(lru, table, topk, maxToken, k, lru[o]);
    assert e[o];
    SelectAt(lru, e, |lru|, o);
    var j := Rank(e, o);
    if j > k {
      var i, o' := SelectOrder(lru, e, k, j);
      SearchDistinct(lru, table, topk, maxToken);
      assert o' == o by { SameFree(lru, |table|, p.current, o, o'); }
      ProtectedIff(lru, table, topk, maxToken, k, lru[i]);
    }
  }

  lemma SameFree(lru: seq<int>, capacity: nat, current: seq<int>, i: nat, j: nat)
    requires i < |lru| && j < |lru| && FreeFlags(lru, capacity, current)[i] && FreeFlags(lru, capacity, current)[j]
    requires lru[i] == lru[j]
    ensures i == j
  {
  }

  /** If all slots are protected, no free slot is left. */
  lemma NoneLeft(lru: seq<int>, table: seq<int>, topk: seq<int>, maxToken: int, k: nat)
    requires |lru| == |table|
    requires var p := SearchPlan(lru, table, topk, maxToken);
      && PlanOk(p, |topk|, |table|) && k <= |p.misses| && k <= |p.evictable|
      && forall b :: 0 <= b < |lru| && IsSlot(lru[b], |lru|) ==> lru[b] in Scatter(p.current, p.misses, p.evictable, k)
    ensures k == |SearchPlan(lru, table, topk, maxToken).evictable|
  {
    hide Scatter;
    var p := SearchPlan(lru, table, topk, maxToken);
    if k < |p.evictable| {
      var i := SelectSource(lru, FreeFlags(lru, |table|, p.current), |lru|, k);
      ProtectedIff(lru, table, topk, maxToken, k, lru[i]);
      SearchDistinct(lru, table, topk, maxToken);
    }
  }

  method AssignBySearch(lru: seq<int>, ghost table: seq<int>, ghost topk: seq<int>, ghost maxToken: int, missCount: nat,
                        current: array<int>, missSlots: array<int>) returns (assignCount: nat)
    requires current != missSlots && current.Length == missSlots.Length == |topk| && |lru| == |table|
    requires var p := SearchPlan(lru, table, topk, maxToken);
      && PlanOk(p, |topk|, |table|) && missCount == |p.misses|
      && current[..] == p.current && missSlots[..] == Pad(p.misses, |topk|)
    modifies current, missSlots
    ensures var p := SearchPlan(lru, table, topk, maxToken);
      && assignCount == AssignCount(p) && GivenOut(p, assignCount, |topk|, missSlots[..])
      && current[..] == Scatter(p.current, p.misses, p.evictable, assignCount)
  {
    hide SearchPlan, LegacyPlan;
    ghost var p := SearchPlan(lru, table, topk, maxToken);
    assignCount := 0;
    while assignCount < missCount
      invariant GivenOut(p, assignCount, |topk|, missSlots[..])
      invariant current[..] == Scatter(p.current, p.misses, p.evictable, assignCount)
    {
      var chosen := FindOldest(lru, current);
      if chosen == INVALID {
        NoneLeft(lru, table, topk, maxToken, assignCount);
        break;
      }
      ghost var o :| IsOldest(lru, current[..], o) && lru[o] == chosen;
      OldestIsNext(lru, table, topk, maxToken, assignCount, o);
      var pos := missSlots[assignCount];
      assert pos == missSlots[..][assignCount];
      current[pos] := chosen;
      missSlots[assignCount] := chosen;
      assignCount := assignCount + 1;
    }
  }

  // ---- duplicates

  /** Positions that ask for the same token agree whenever they are resolved. */
  ghost predicate Consistent(topk: seq<int>, current: seq<int>, maxToken: int) {
    |topk| == |current| && forall p :: 0 <= p < |topk| ==>
      && current[p] >= INVALID
      && (current[p] >= 0 ==> IsToken(topk[p], maxToken) && current[First(topk, topk[p], |topk|)] == current[p])
  }

  lemma AssignedConsistent(lru: seq<int>, table: seq<int>, topk: seq<int>, maxToken: int, p: Plan, n: nat)
    requires PlanOk(p, |topk|, |table|) && n <= |p.misses| && n <= |p.evictable|
    requires var l := LegacyPlan(lru, table, topk, maxToken); p.current == l.current && p.misses == l.misses
    ensures Consistent(topk, Scatter(p.current, p.misses, p.evictable, n), maxToken)
  {
    hide Scatter, First, Holder, Select;
    var c := Scatter(p.current, p.misses, p.evictable, n);
    MissesDistinct(lru, table, topk, maxToken);
    ScatterAt(p.current, p.misses, p.evictable, n);
    forall q | 0 <= q < |topk|
      ensures c[q] >= INVALID && (c[q] >= 0 ==> IsToken(topk[q], maxToken) && c[First(topk, topk[q], |topk|)] == c[q])
    {
      var f := First(topk, topk[q], |topk|);
      assert p.current[q] == LegacyHit(lru, table, topk, maxToken, |lru|, q);
      assert p.current[f] == LegacyHit(lru, table, topk, maxToken, |lru|, f);
      if q in p.misses[..n] {
        var j :| 0 <= j < n && p.misses[j] == q;
        LegacyMissSource(lru, table, topk, maxToken, j);
      } else if c[q] >= 0 && f in p.misses[..n] {
        var j :| 0 <= j < n && p.misses[j] == f;
        LegacyMissSource(lru, table, topk, maxToken, j);
      }
    }
  }

  /** q is the first earlier position asking for p's token that is resolved. */
  ghost predicate FirstResolved(topk: seq<int>, current: seq<int>, p: nat, q: int)
    requires p < |topk| == |current|
  {
    && 0 <= q < p && topk[q] == topk[p] && current[q] >= 0
    && forall b :: 0 <= b < q && topk[b] == topk[p] ==> current[b] < 0
  }

  method FindPrior(topk: seq<int>, current: array<int>, p: nat) returns (slot: int)
    requires current.Length == |topk| && p < |topk| && current[p] < 0
    ensures slot == current[p] || exists q :: FirstResolved(topk, current[..], p, q) && slot == current[q]
    ensures slot < 0 ==> forall q :: 0 <= q < p && topk[q] == topk[p] ==> current[q] < 0
  {
    slot := current[p];
    for prior := 0 to p
      invariant slot == current[p] && forall b :: 0 <= b < prior && topk[b] == topk[p] ==> current[b] < 0
    {
      if topk[prior] == topk[p] && current[prior] >= 0 {
        slot := current[prior];
        assert FirstResolved(topk, current[..], p, prior);
        break;
      }
    }
  }

  method PropagateDuplicates(topk: seq<int>, ghost maxToken: int, current: array<int>)
    requires current.Length == |topk| && Consistent(topk, current[..], maxToken)
    modifies current
    ensures current[..] == Propagated(topk, old(current[..]), maxToken)
  {
    hide First;
    ghost var mid := current[..];
    for p := 0 to |topk|
      invariant forall q :: 0 <= q < |topk| ==>
        current[q] == if q < p then Propagate(topk, mid, maxToken, q) else mid[q]
    {
      ghost var f := First(topk, topk[p], |topk|);
      assert mid[f] >= INVALID && (mid[f] >= 0 ==> IsToken(topk[f], maxToken));
      assert current[p] == mid[p];
      if current[p] < 0 {
        var slot := FindPrior(topk, current, p);
        assert f < p ==> current[f] == Propagate(topk, mid, maxToken, f);
        current[p] := slot;
      }
    }
  }

  /** Entries past the assigned count are cleared. */
  method ClearTail(ghost p: Plan, ghost topk: seq<int>, assignCount: nat, missTokens: array<int>, missSlots: array<int>)
    requires missTokens != missSlots && missTokens.Length == missSlots.Length == |topk|
    requires assignCount == AssignCount(p) && GivenOut(p, assignCount, |topk|, missSlots[..])
    requires forall j :: 0 <= j < |p.misses| ==> 0 <= p.misses[j] < |topk|
    requires missTokens[..] == Pad(TokensAt(topk, p.misses), |topk|)
    modifies missTokens, missSlots
    ensures missTokens[..] == Pad(TokensAt(topk, p.misses)[..assignCount], |topk|)
    ensures missSlots[..] == Pad(Assigned(p), |topk|)
  {
    for i := assignCount to missTokens.Length
      invariant forall j :: 0 <= j < i ==> missSlots[j] == if j < assignCount then p.evictable[j] else INVALID
      invariant forall j :: 0 <= j < |topk| ==>
        missTokens[j] == if j < assignCount || (j >= i && j < |p.misses|) then topk[p.misses[j]] else INVALID
    {
      missTokens[i] := INVALID;
      missSlots[i] := INVALID;
    }
  }

  // ---- rebuilding with scratch

  method IsRequested(topk: seq<int>, token: int) returns (hit: bool)
    ensures hit == (token >= 0 && token in topk)
  {
    hit := false;
    for p := 0 to |topk|
      invariant !hit && !(token >= 0 && token in topk[..p])
    {
      if token >= 0 && token == topk[p] {
        hit := true;
        return;
      }
    }
    assert topk[..|topk|] == topk;
  }

  function Max(a: int, b: int): int { if a < b then b else a }

  /** Slots with a requested token move to the tail while the row is scanned backwards. The
      destination is never before the place still to be read. */
  method MoveHitsToTail(topk: seq<int>, table: seq<int>, lru: array<int>)
    requires lru.Length == |table|
    modifies lru
    ensures lru[..] == Moved(old(lru[..]), table, topk)
  {
    hide Rank, Select;
    ghost var lru0 := lru[..];
    ghost var h := AskedFlags(lru0, table, topk);
    ghost var hits := Select(lru0, h, |table|);
    RankZero(h, 0);
    var writePos, order := lru.Length - 1, lru.Length - 1;
    while order >= 0
      invariant -1 <= order < lru.Length
      invariant writePos == lru.Length - 1 - (|hits| - Rank(h, order + 1)) && order <= writePos
      invariant forall i :: 0 <= i < lru.Length && i <= Max(order, lru.Length - 1 - |hits|) ==> lru[i] == lru0[i]
      invariant forall k :: Rank(h, order + 1) <= k < |hits| ==> lru[lru.Length - |hits| + k] == hits[k]
    {
      var slot := lru[order];
      assert slot == lru0[order];
      RankMonotone(h, order + 1, lru.Length);
      RankStep(h, order);
      if 0 <= slot < lru.Length {
        var hit := IsRequested(topk, table[slot]);
        if hit {
          SelectAt(lru0, h, |table|, order);
          lru[writePos] := slot;
          writePos := writePos - 1;
        }
      }
      RankMonotone(h, order, lru.Length);
      order := order - 1;
    }
    RankMonotone(h, 0, lru.Length);
    assert lru[..] == lru0[..lru.Length - |hits|] + hits;
  }

  method RebuildFromScratch(ghost p: Plan, ghost tail: seq<int>, scratch: array<int>, base: nat,
                            evictableCount: nat, assignCount: nat, missSlots: array<int>, lru: array<int>)
    requires lru != scratch && lru != missSlots && |p.evictable| + |tail| == lru.Length && lru[|p.evictable|..] == tail
    requires evictableCount == |p.evictable| && base + evictableCount <= scratch.Length
    requires scratch[base..base + evictableCount] == p.evictable
    requires assignCount == AssignCount(p) <= missSlots.Length && missSlots[..assignCount] == Assigned(p)
    modifies lru
    ensures lru[..] == p.evictable[assignCount..] + Assigned(p) + tail
  {
    var output := 0;
    for i := assignCount to evictableCount
      invariant output == i - assignCount
      invariant lru[..output] == p.evictable[assignCount..i] && lru[|p.evictable|..] == tail
    {
      assert scratch[base + i] == scratch[base..base + evictableCount][i];
      lru[output] := scratch[base + i];
      output := output + 1;
    }
    assert p.evictable[assignCount..evictableCount] == p.evictable[assignCount..];
    for i := 0 to assignCount
      invariant output == evictableCount - assignCount + i
      invariant lru[..output] == p.evictable[assignCount..] + Assigned(p)[..i] && lru[|p.evictable|..] == tail
    {
      assert missSlots[i] == missSlots[..assignCount][i];
      lru[output] := missSlots[i];
      output := output + 1;
    }
    assert lru[..] == lru[..|p.evictable|] + lru[|p.evictable|..];
  }

  // ---- rebuilding without scratch: a stable insertion sort

  /** 0 for survivors, 1 for newly assigned slots, 2 for hit slots. */
  function Category(assigned0: seq<int>, current: seq<int>, slot: int): int {
    if slot in assigned0 then 1 else if slot in current then 2 else 0
  }

  method CategoryOf(missSlots: array<int>, assignCount: nat, current: array<int>, slot: int) returns (c: int)
    requires assignCount <= missSlots.Length
    ensures c == Category(missSlots[..assignCount], current[..], slot)
  {
    c := 0;
    for m := 0 to assignCount
      invariant c == 0 && slot !in missSlots[..m]
    {
      if missSlots[m] == slot {
        assert missSlots[..assignCount][m] == slot;
        return 1;
      }
    }
    var yes := IsProtected(current, slot);
    c := if yes then 2 else 0;
  }

  /** Elements of category c among the first n. */
  function OfCategory(assigned0: seq<int>, current: seq<int>, xs: seq<int>, c: int): (f: seq<bool>)
    ensures |f| == |xs|
  {
    seq(|xs|, i requires 0 <= i < |xs| => Category(assigned0, current, xs[i]) == c)
  }

  function Grouped(assigned0: seq<int>, current: seq<int>, xs: seq<int>, n: nat): (r: seq<int>)
    requires n <= |xs|
  {
    Select(xs, OfCategory(assigned0, current, xs, 0), n) + Select(xs, OfCategory(assigned0, current, xs, 1), n) +
    Select(xs, OfCategory(assigned0, current, xs, 2), n)
  }

  lemma {:induction false} GroupCategory(a: seq<int>, current: seq<int>, xs: seq<int>, n: nat, c: int)
    requires n <= |xs|
    ensures forall i :: 0 <= i < Rank(OfCategory(a, current, xs, c), n) ==>
      Category(a, current, Select(xs, OfCategory(a, current, xs, c), n)[i]) == c
  {
    if n == 0 {
    } else {
      GroupCategory(a, current, xs, n - 1, c);
    }
  }

  lemma {:induction false} GroupedLength(a: seq<int>, current: seq<int>, xs: seq<int>, n: nat)
    requires n <= |xs|
    ensures |Grouped(a, current, xs, n)| == n
  {
    if n == 0 {
    } else {
      GroupedLength(a, current, xs, n - 1);
    }
  }

  /** Where the insertion stops: nothing of a larger category before, only such after. */
  ghost predicate InsertionPoint(a: seq<int>, current: seq<int>, s: seq<int>, c: int, m: int) {
    && 0 <= m <= |s| && (m > 0 ==> Category(a, current, s[m - 1]) <= c)
    && forall i :: m <= i < |s| ==> Category(a, current, s[i]) > c
  }

  /** Inserting the next slot there extends every group at its end: the sort is stable. */
  lemma InsertExtends(a: seq<int>, current: seq<int>, xs: seq<int>, n: nat, m: int)
    requires n < |xs| && InsertionPoint(a, current, Grouped(a, current, xs, n), Category(a, current, xs[n]), m)
    ensures var s := Grouped(a, current, xs, n); Grouped(a, current, xs, n + 1) == s[..m] + [xs[n]] + s[m..]
  {
    var c := Category(a, current, xs[n]);
    var g0, g1, g2 := Select(xs, OfCategory(a, current, xs, 0), n), Select(xs, OfCategory(a, current, xs, 1), n),
      Select(xs, OfCategory(a, current, xs, 2), n);
    GroupCategory(a, current, xs, n, 0);
    GroupCategory(a, current, xs, n, 1);
    GroupCategory(a, current, xs, n, 2);
    InsertPlace(a, current, g0, g1, g2, c, m);
    InsertInGroup(g0, g1, g2, xs[n], c, m);
  }

  lemma InsertInGroup(g0: seq<int>, g1: seq<int>, g2: seq<int>, x: int, c: int, m: int)
    requires 0 <= c <= 2 && m == if c == 0 then |g0| else if c == 1 then |g0| + |g1| else |g0| + |g1| + |g2|
    ensures var s := g0 + g1 + g2;
      s[..m] + [x] + s[m..] ==
        (g0 + if c == 0 then [x] else []) + (g1 + if c == 1 then [x] else []) + (g2 + if c == 2 then [x] else [])
  {
  }

  lemma InsertPlace(a: seq<int>, current: seq<int>, g0: seq<int>, g1: seq<int>, g2: seq<int>, c: int, m: int)
    requires 0 <= c <= 2 && InsertionPoint(a, current, g0 + g1 + g2, c, m)
    requires forall i :: 0 <= i < |g0| ==> Category(a, current, g0[i]) == 0
    requires forall i :: 0 <= i < |g1| ==> Category(a, current, g1[i]) == 1
    requires forall i :: 0 <= i < |g2| ==> Category(a, current, g2[i]) == 2
    ensures m == if c == 0 then |g0| else if c == 1 then |g0| + |g1| else |g0| + |g1| + |g2|
  {
    var s := g0 + g1 + g2;
    forall i | 0 <= i < |s|
      ensures Category(a, current, s[i]) == if i < |g0| then 0 else if i < |g0| + |g1| then 1 else 2
    {
      if i < |g0| {
        assert s[i] == g0[i];
      } else if i < |g0| + |g1| {
        assert s[i] == g1[i - |g0|];
      } else {
        assert s[i] == g2[i - |g0| - |g1|];
      }
    }
    assert m > 0 ==> Category(a, current, s[m - 1]) <= c;
    assert m < |s| ==> Category(a, current, s[m]) > c;
  }

  lemma Shifted(s: seq<int>, out: seq<int>, key: int, m: nat)
    requires m <= |s| && |out| == |s| + 1 && out[m] == key
    requires (forall k :: 0 <= k < m ==> out[k] == s[k]) && forall k :: m <= k < |s| ==> out[k + 1] == s[k]
    ensures out == s[..m] + [key] + s[m..]
  {
    forall k | m < k < |out| ensures out[k] == s[k - 1] { assert out[(k - 1) + 1] == s[k - 1]; }
  }

  /** Shift the larger categories up by one; the hole is at m. */
  method ShiftLarger(lru: array<int>, i: nat, missSlots: array<int>, assignCount: nat, current: array<int>,
                     keyCategory: int)
    returns (m: nat)
    requires 0 < i < lru.Length && lru != missSlots && lru != current && assignCount <= missSlots.Length
    modifies lru
    ensures m <= i && forall k :: 0 <= k < m || i < k < lru.Length ==> lru[k] == old(lru[k])
    ensures forall k :: m <= k < i ==> lru[k + 1] == old(lru[k])
    ensures forall k :: m <= k < i ==> Category(missSlots[..assignCount], current[..], old(lru[k])) > keyCategory
    ensures m > 0 ==> Category(missSlots[..assignCount], current[..], old(lru[m - 1])) <= keyCategory
  {
    hide Category;
    ghost var a, cur := missSlots[..assignCount], current[..];
    m := i;
    while m > 0
      invariant m <= i && missSlots[..assignCount] == a && current[..] == cur
      invariant forall k :: 0 <= k < m || i < k < lru.Length ==> lru[k] == old(lru[k])
      invariant forall k :: m <= k < i ==> lru[k + 1] == old(lru[k]) && Category(a, cur, old(lru[k])) > keyCategory
    {
      var prior := lru[m - 1];
      var priorCategory := CategoryOf(missSlots, assignCount, current, prior);
      if priorCategory <= keyCategory {
        break;
      }
      lru[m] := prior;
      m := m - 1;
    }
  }

  /** Shift the larger categories up by one and drop the key into the hole. */
  method InsertKey(lru: array<int>, i: nat, missSlots: array<int>, assignCount: nat, current: array<int>)
    returns (ghost m: int)
    requires 0 < i < lru.Length && lru != missSlots && lru != current && assignCount <= missSlots.Length
    modifies lru
    ensures 0 <= m <= i
    ensures InsertionPoint(missSlots[..assignCount], current[..], old(lru[..i]),
      Category(missSlots[..assignCount], current[..], old(lru[i])), m)
    ensures lru[..i + 1] == old(lru[..i])[..m] + [old(lru[i])] + old(lru[..i])[m..]
    ensures forall k :: i < k < lru.Length ==> lru[k] == old(lru[k])
  {
    hide Category;
    ghost var s := lru[..i];
    var key := lru[i];
    var keyCategory := CategoryOf(missSlots, assignCount, current, key);
    var hole := ShiftLarger(lru, i, missSlots, assignCount, current, keyCategory);
    lru[hole] := key;
    m := hole;
    Shifted(s, lru[..i + 1], key, m);
  }

  method SortByCategory(lru: array<int>, missSlots: array<int>, assignCount: nat, current: array<int>)
    requires lru != missSlots && lru != current && assignCount <= missSlots.Length
    modifies lru
    ensures lru[..] == Grouped(missSlots[..assignCount], current[..], old(lru[..]), lru.Length)
  {
    hide Category, Grouped, InsertionPoint;
    ghost var lru0, a, cur := lru[..], missSlots[..assignCount], current[..];
    if lru.Length == 0 {
      GroupedLength(a, cur, lru0, 0);
      return;
    }
    GroupOne(a, cur, lru0);
    for i := 1 to lru.Length
      invariant missSlots[..assignCount] == a && current[..] == cur
      invariant lru[..i] == Grouped(a, cur, lru0, i) && lru[i..] == lru0[i..]
    {
      assert lru[i] == lru0[i..][0] && lru[i + 1..] == lru0[i + 1..];
      ghost var s := lru[..i];
      ghost var m := InsertKey(lru, i, missSlots, assignCount, current);
      InsertExtends(a, cur, lru0, i, m);
    }
    assert lru[..lru.Length] == lru[..];
  }

  lemma GroupOne(a: seq<int>, current: seq<int>, xs: seq<int>)
    requires |xs| >= 1
    ensures Grouped(a, current, xs, 1) == xs[..1]
  {
    GroupedLength(a, current, xs, 1);
    assert Grouped(a, current, xs, 0) == [];
    var m := 0;
    assert InsertionPoint(a, current, Grouped(a, current, xs, 0), Category(a, current, xs[0]), m);
    InsertExtends(a, current, xs, 0, m);
  }

  // ---- the whole kernel

  /** The table takes the assigned tokens one after the other. */
  method WriteTable(ghost p: Plan, ghost topk: seq<int>, assignCount: nat, missTokens: array<int>,
                    missSlots: array<int>, table: array<int>)
    requires table != missTokens && table != missSlots && missTokens.Length == missSlots.Length == |topk|
    requires PlanOk(p, |topk|, table.Length) && assignCount == AssignCount(p)
    requires missTokens[..] == Pad(TokensAt(topk, p.misses)[..assignCount], |topk|)
    requires missSlots[..] == Pad(Assigned(p), |topk|)
    modifies table
    ensures table[..] == Scatter(old(table[..]), p.evictable, TokensAt(topk, p.misses), assignCount)
  {
    ghost var tokens := TokensAt(topk, p.misses);
    for i := 0 to assignCount
      invariant table[..] == Scatter(old(table[..]), p.evictable, tokens, i)
    {
      assert missSlots[i] == missSlots[..][i] == p.evictable[i] && missTokens[i] == missTokens[..][i] == tokens[i];
      table[missSlots[i]] := missTokens[i];
    }
  }

  /** The scratch of a thread is apart from the row, and the branch that uses it has room. */
  ghost predicate ScratchFor(row: RowMemory, scratch: array<int>, base: nat, maxToken: int) {
    && scratch != row.table && scratch != row.lru && scratch != row.current
    && scratch != row.missTokens && scratch != row.missSlots
    && (row.capacity <= maxToken ==> base + row.capacity <= scratch.Length)
  }

  /** Hits, unique misses, assignment and propagation, with or without scratch. */
  method PlanAndAssign(row: RowMemory, scratch: array<int>, base: nat, topk: seq<int>, maxToken: int)
    returns (evictableCount: nat, assignCount: nat)
    requires row.Shaped() && |topk| == row.width && ScratchFor(row, scratch, base, maxToken)
    requires row.current[..] == row.missTokens[..] == row.missSlots[..] == Pad([], row.width)
    modifies row.current, row.missTokens, row.missSlots, scratch
    ensures var p := KernelPlan(row.lru[..], row.table[..], topk, maxToken);
      && PlanOk(p, |topk|, row.capacity) && assignCount == AssignCount(p)
      && (row.capacity <= maxToken ==> evictableCount == |p.evictable| <= row.capacity)
      && (row.capacity <= maxToken ==> scratch[base..base + evictableCount] == p.evictable)
      && row.current[..] == Propagated(topk, Scatter(p.current, p.misses, p.evictable, assignCount), maxToken)
      && row.missTokens[..] == Pad(TokensAt(topk, p.misses)[..assignCount], |topk|)
      && row.missSlots[..] == Pad(Assigned(p), |topk|)
    ensures OnlyWithin(old(scratch[..]), scratch[..], base, if row.capacity <= maxToken then row.capacity else 0)
  {
    hide Select, Scatter, Rank, First, Holder, Propagated, OnlyWithin;
    var hasScratch := row.capacity <= maxToken;
    ghost var lru, table := row.lru[..], row.table[..];
    ghost var p := KernelPlan(lru, table, topk, maxToken);
    KernelPlanIsOk(lru, table, topk, maxToken);
    evictableCount := ScanHits(topk, row.table[..], row.lru[..], maxToken, row.current, hasScratch, scratch, base);
    var missCount := CollectUnique(topk, row.current[..], maxToken, row.missTokens, row.missSlots);
    if hasScratch {
      assignCount := AssignFromScratch(p, missCount, evictableCount, scratch, base, row.capacity, row.current,
                                       row.missSlots);
    } else {
      assignCount := AssignBySearch(row.lru[..], table, topk, maxToken, missCount, row.current, row.missSlots);
    }
    AssignedConsistent(lru, table, topk, maxToken, p, assignCount);
    PropagateDuplicates(topk, maxToken, row.current);
    ClearTail(p, topk, assignCount, row.missTokens, row.missSlots);
  }

  /** One row of the legacy kernel on both branches, whatever the row holds. Of the scratch
      only the thread's own part is written, and only with slot ids. */
  method CompactLegacy(row: RowMemory, scratch: array<int>, base: nat, call: Call, maxToken: int)
    requires row.Shaped() && |call.topk| == row.width && ScratchFor(row, scratch, base, maxToken)
    modifies row, row.table, row.lru, row.current, row.missTokens, row.missSlots, scratch
    ensures row.width > 0 && row.capacity > 0 && maxToken > 0 ==>
      row.Holds(KernelStep(call, old(row.Value()), maxToken))
    ensures !(row.width > 0 && row.capacity > 0 && maxToken > 0) ==>
      row.missCount == 0 && row.Value() == old(row.Value())
    ensures OnlyWithin(old(scratch[..]), scratch[..], base, if row.capacity <= maxToken then row.capacity else 0)
  {
    hide LegacyPlan, LegacyExecute, KernelPlan, KernelRow, OnlyWithin;
    if row.width <= 0 || row.capacity <= 0 || maxToken <= 0 {
      row.missCount := 0;
      Untouched(scratch[..], base, if row.capacity <= maxToken then row.capacity else 0);
      return;
    }
    ghost var before := row.Value();
    LruPhased.Reset(row, call.reqId);
    LruPhased.Prepare(row, call.prefix, maxToken);
    ghost var r := row.Value();
    assert r == Prepared(call, before, maxToken);
    ghost var p := KernelPlan(r.lru, r.table, call.topk, maxToken);
    var evictableCount, assignCount := PlanAndAssign(row, scratch, base, call.topk, maxToken);
    RebuildRow(row, scratch, base, call.topk, maxToken, evictableCount, assignCount);
    WriteTable(p, call.topk, assignCount, row.missTokens, row.missSlots, row.table);
    row.missCount := assignCount;
    LegacyParts(p, r.table, call.topk, maxToken, call.reqId);
  }

  lemma LegacyParts(p: Plan, table: seq<int>, topk: seq<int>, maxToken: int, reqId: int)
    requires PlanOk(p, |topk|, |table|)
    ensures var o, n, tokens := LegacyExecute(p, table, topk, maxToken, reqId), AssignCount(p),
      TokensAt(topk, p.misses);
      && o.row == Row(Scatter(table, p.evictable, tokens, n), Rebuilt(p, |table|), reqId)
      && o.current == Propagated(topk, Scatter(p.current, p.misses, p.evictable, n), maxToken) && o.missCount == n
      && o.missTokens == Pad(tokens[..n], |topk|) && o.missSlots == Pad(Assigned(p), |topk|)
  {
  }

  method RebuildRow(row: RowMemory, scratch: array<int>, base: nat, topk: seq<int>, maxToken: int,
                    evictableCount: nat, assignCount: nat)
    requires row.Shaped() && |topk| == row.width && ScratchFor(row, scratch, base, maxToken)
    requires var p := KernelPlan(row.lru[..], row.table[..], topk, maxToken);
      && PlanOk(p, |topk|, row.capacity) && assignCount == AssignCount(p)
      && (row.capacity <= maxToken ==> evictableCount == |p.evictable| <= row.capacity)
      && (row.capacity <= maxToken ==> scratch[base..base + evictableCount] == p.evictable)
      && row.current[..] == Propagated(topk, Scatter(p.current, p.misses, p.evictable, assignCount), maxToken)
      && row.missSlots[..] == Pad(Assigned(p), |topk|)
    modifies row.lru
    ensures row.lru[..] == KernelRow(old(row.lru[..]), row.table[..], topk, maxToken)
  {
    hide Select, Scatter, Rank, Propagated, Grouped, Holder, First, Moved;
    ghost var lru, table := row.lru[..], row.table[..];
    ghost var p := KernelPlan(lru, table, topk, maxToken);
    assert row.missSlots[..assignCount] == Assigned(p) by { assert row.missSlots[..][..assignCount] == Assigned(p); }
    if row.capacity <= maxToken {
      MoveHitsToTail(topk, row.table[..], row.lru);
      ghost var tail := Moved(lru, table, topk)[|p.evictable|..];
      assert row.lru[|p.evictable|..] == row.lru[..][|p.evictable|..] == tail;
      RebuildFromScratch(p, tail, scratch, base, evictableCount, assignCount, row.missSlots, row.lru);
    } else {
      SortByCategory(row.lru, row.missSlots, assignCount, row.current);
    }
  }
}
