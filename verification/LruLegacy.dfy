/** The legacy kernel of one row: quadratic scans, unique misses, and two ways to
    rebuild the LRU row (scratch with a reverse tail write, or an insertion sort). */
module LruLegacy {
  import opened Compaction
  import opened LruSpec
  import opened LruFacts

  // ---- the abstract legacy step

  /** Unlike the phased kernels, every position asking for a resident token is served. */
  function LegacyHit(lru: seq<int>, table: seq<int>, topk: seq<int>, maxToken: int, n: nat, p: nat): (s: int)
    requires n <= |lru| && p < |topk|
  {
    if IsToken(topk[p], maxToken) then Holder(lru, table, topk[p], n) else INVALID
  }

  function LegacyCurrent(lru: seq<int>, table: seq<int>, topk: seq<int>, maxToken: int): (c: seq<int>)
    ensures |c| == |topk|
  {
    seq(|topk|, p requires 0 <= p < |topk| => LegacyHit(lru, table, topk, maxToken, |lru|, p))
  }

  /** Only the first position of a missing token is a miss. */
  function UniqueMissFlags(topk: seq<int>, current: seq<int>, maxToken: int): (f: seq<bool>)
    requires |topk| == |current|
    ensures |f| == |topk|
  {
    seq(|topk|, p requires 0 <= p < |topk| =>
      IsToken(topk[p], maxToken) && current[p] < 0 && First(topk, topk[p], |topk|) == p)
  }

  function LegacyPlan(lru: seq<int>, table: seq<int>, topk: seq<int>, maxToken: int): (p: Plan) {
    var current := LegacyCurrent(lru, table, topk, maxToken);
    Plan(Select(lru, EvictFlags(lru, table, topk, maxToken), |lru|),
         Select(lru, HitFlags(lru, table, topk, maxToken), |lru|),
         current,
         Select(Iota(|topk|), UniqueMissFlags(topk, current, maxToken), |topk|))
  }

  /** Duplicates take the slot their first position ended up with. */
  function Propagated(topk: seq<int>, current: seq<int>, maxToken: int): (c: seq<int>)
    requires |topk| == |current|
    ensures |c| == |topk|
  {
    seq(|topk|, p requires 0 <= p < |topk| => Propagate(topk, current, maxToken, p))
  }

  function Propagate(topk: seq<int>, current: seq<int>, maxToken: int, p: nat): int
    requires |topk| == |current| && p < |topk|
  {
    var f := First(topk, topk[p], |topk|);
    if IsToken(topk[p], maxToken) && f < |topk| then current[f] else INVALID
  }

  function LegacyExecute(p: Plan, table: seq<int>, topk: seq<int>, maxToken: int, reqId: int): (o: Outcome)
    requires PlanOk(p, |topk|, |table|)
  {
    var n := AssignCount(p);
    var tokens := TokensAt(topk, p.misses);
    Outcome(Row(Scatter(table, p.evictable, tokens, n), Rebuilt(p, |table|), reqId),
            Propagated(topk, Scatter(p.current, p.misses, p.evictable, n), maxToken),
            n, Pad(tokens[..n], |topk|), Pad(Assigned(p), |topk|))
  }

  lemma LegacyPlanIsOk(lru: seq<int>, table: seq<int>, topk: seq<int>, maxToken: int)
    requires |lru| == |table|
    ensures PlanOk(LegacyPlan(lru, table, topk, maxToken), |topk|, |table|)
  {
    hide Select, Rank;
    PlanIsOk(lru, table, topk, maxToken);
    var p := LegacyPlan(lru, table, topk, maxToken);
    forall j | 0 <= j < |p.misses| ensures 0 <= p.misses[j] < |topk| {
      var i := SelectSource(Iota(|topk|), UniqueMissFlags(topk, p.current, maxToken), |topk|, j);
    }
  }

  function LegacyStep(call: Call, row: Row, maxToken: int): (o: Outcome)
    requires |row.lru| == |row.table|
  {
    var r := Prepared(call, row, maxToken);
    LegacyPlanIsOk(r.lru, r.table, call.topk, maxToken);
    LegacyExecute(LegacyPlan(r.lru, r.table, call.topk, maxToken), r.table, call.topk, maxToken, call.reqId)
  }

  // ---- agreement with the phased step

  lemma DuplicateFreeFirst(topk: seq<int>, maxToken: int, p: nat)
    requires DuplicateFree(topk, maxToken) && p < |topk| && IsToken(topk[p], maxToken)
    ensures First(topk, topk[p], |topk|) == p
  {
  }

  lemma PlansAgree(lru: seq<int>, table: seq<int>, topk: seq<int>, maxToken: int)
    requires DuplicateFree(topk, maxToken)
    ensures LegacyPlan(lru, table, topk, maxToken) == MakePlan(lru, table, topk, maxToken)
  {
    hide First, Holder, Select;
    forall p | 0 <= p < |topk|
      ensures HitAt(lru, table, topk, maxToken, p) == LegacyHit(lru, table, topk, maxToken, |lru|, p)
    {
      if IsToken(topk[p], maxToken) { DuplicateFreeFirst(topk, maxToken, p); }
    }
    var c := LegacyCurrent(lru, table, topk, maxToken);
    assert c == HitCurrent(lru, table, topk, maxToken);
    forall p | 0 <= p < |topk| ensures UniqueMissFlags(topk, c, maxToken)[p] == MissFlags(topk, c, maxToken)[p] {
      if IsToken(topk[p], maxToken) { DuplicateFreeFirst(topk, maxToken, p); }
    }
    assert UniqueMissFlags(topk, c, maxToken) == MissFlags(topk, c, maxToken);
  }

  lemma LegacyFollows(call: Call, row: Row, maxToken: int)
    requires Sound(row, maxToken) && DuplicateFree(call.topk, maxToken) && |call.topk| <= |row.table|
    ensures LegacyStep(call, row, maxToken) == Step(call, row, maxToken)
  {
    hide MakePlan, LegacyPlan, Scatter;
    var r := Prepared(call, row, maxToken);
    var p := MakePlan(r.lru, r.table, call.topk, maxToken);
    PlansAgree(r.lru, r.table, call.topk, maxToken);
    PreparedOk(call, row, maxToken);
    EverythingResolved(call, row, maxToken);
    var tokens, current := TokensAt(call.topk, p.misses), Step(call, row, maxToken).current;
    assert tokens[..|p.misses|] == tokens;
    assert Propagated(call.topk, current, maxToken) == current by {
      forall q | 0 <= q < |call.topk| ensures Propagate(call.topk, current, maxToken, q) == current[q] {
        AnswersAreRight(call, row, maxToken, q);
        if IsToken(call.topk[q], maxToken) { DuplicateFreeFirst(call.topk, maxToken, q); }
      }
    }
  }

  /** On a sound row with room for the Top-K, the legacy kernel takes the same step as the
      phased kernels exactly when no valid token is requested twice. */
  lemma LegacyAgrees(call: Call, row: Row, maxToken: int)
    requires Sound(row, maxToken) && |call.topk| <= |row.table|
    ensures LegacyStep(call, row, maxToken) == Step(call, row, maxToken) <==> DuplicateFree(call.topk, maxToken)
  {
    hide LegacyStep, Step;
    if DuplicateFree(call.topk, maxToken) {
      LegacyFollows(call, row, maxToken);
    } else {
      LegacyStaysSound(call, row, maxToken);
      ResidencyStaysInjective(call, row, maxToken);
    }
  }

  // ---- the legacy step by the phased one, for any Top-K

  /** The Top-K with every repeated entry blanked. */
  function Once(topk: seq<int>): (t: seq<int>)
    ensures |t| == |topk|
  {
    seq(|topk|, p requires 0 <= p < |topk| => if topk[p] in topk[..p] then -1 else topk[p])
  }

  /** Position f is the first to ask for what p asks for. */
  predicate IsFirst(topk: seq<int>, p: int, f: int) {
    0 <= f <= p < |topk| && topk[f] == topk[p] && topk[f] !in topk[..f]
  }

  lemma FirstInOnce(topk: seq<int>, maxToken: int, p: nat)
    requires p < |topk|
    ensures IsToken(Once(topk)[p], maxToken) <==> IsToken(topk[p], maxToken) && First(topk, topk[p], |topk|) == p
    ensures IsToken(Once(topk)[p], maxToken) ==> Once(topk)[p] == topk[p] && First(Once(topk), topk[p], |topk|) == p
  {
    var f := First(topk, topk[p], |topk|);
    assert f < p ==> topk[..p][f] == topk[p];
    if topk[p] in topk[..p] {
      var q :| 0 <= q < p && topk[..p][q] == topk[p];
      assert topk[q] == topk[p];
    }
  }

  lemma SameTokens(topk: seq<int>, maxToken: int, token: int)
    requires IsToken(token, maxToken)
    ensures token in topk <==> token in Once(topk)
  {
    if token in topk {
      var f := First(topk, token, |topk|);
      assert f < |topk| && topk[f] == token;
      FirstInOnce(topk, maxToken, f);
    }
  }

  /** Same plan, except that repeated positions are answered in one and not in the other. */
  lemma OncePlan(lru: seq<int>, table: seq<int>, topk: seq<int>, maxToken: int)
    ensures var l, p := LegacyPlan(lru, table, topk, maxToken), MakePlan(lru, table, Once(topk), maxToken);
      && l.evictable == p.evictable && l.hits == p.hits && l.misses == p.misses
      && forall f :: 0 <= f < |topk| && IsToken(Once(topk)[f], maxToken) ==> l.current[f] == p.current[f]
  {
    hide Select, First, Holder;
    var t := Once(topk);
    forall i | 0 <= i < |lru|
      ensures EvictFlags(lru, table, topk, maxToken)[i] == EvictFlags(lru, table, t, maxToken)[i]
      ensures HitFlags(lru, table, topk, maxToken)[i] == HitFlags(lru, table, t, maxToken)[i]
    {
      if IsSlot(lru[i], |table|) && IsToken(table[lru[i]], maxToken) { SameTokens(topk, maxToken, table[lru[i]]); }
    }
    assert EvictFlags(lru, table, topk, maxToken) == EvictFlags(lru, table, t, maxToken);
    assert HitFlags(lru, table, topk, maxToken) == HitFlags(lru, table, t, maxToken);
    var l, c := LegacyCurrent(lru, table, topk, maxToken), HitCurrent(lru, table, t, maxToken);
    forall p: nat | p < |topk|
      ensures UniqueMissFlags(topk, l, maxToken)[p] == MissFlags(t, c, maxToken)[p]
      ensures IsToken(t[p], maxToken) ==> l[p] == c[p]
    {
      FirstInOnce(topk, maxToken, p);
    }
    assert UniqueMissFlags(topk, l, maxToken) == MissFlags(t, c, maxToken);
  }

  lemma {:induction false} ScatterCell(a: seq<int>, b: seq<int>, idx: seq<int>, vals: seq<int>, n: nat, c: nat)
    requires n <= |idx| && n <= |vals| && c < |a| == |b| && a[c] == b[c]
    requires forall j :: 0 <= j < n ==> 0 <= idx[j] < |a|
    ensures Scatter(a, idx, vals, n)[c] == Scatter(b, idx, vals, n)[c]
  {
    if n == 0 {
    } else {
      ScatterCell(a, b, idx, vals, n - 1, c);
    }
  }

  /** For every row and every Top-K, the legacy step is the phased step on the Top-K without
      repetitions, with its answers repeated: same table, LRU row, count and miss slots, and
      the miss tokens listed only as far as they were given a slot. */
  lemma LegacyIsStepOnce(call: Call, row: Row, maxToken: int)
    requires |row.lru| == |row.table|
    ensures var o, d := LegacyStep(call, row, maxToken), Step(call.(topk := Once(call.topk)), row, maxToken);
      && o.row == d.row && o.missCount == d.missCount && o.missSlots == d.missSlots
      && |o.missTokens| == |d.missTokens| == |o.current| == |d.current| == |call.topk|
      && (forall j :: 0 <= j < |call.topk| ==> o.missTokens[j] == if j < o.missCount then d.missTokens[j] else -1)
      && (forall p :: 0 <= p < |call.topk| && !(0 <= call.topk[p] < maxToken) ==> o.current[p] == -1)
      && (forall p, f :: 0 <= p < |call.topk| && 0 <= call.topk[p] < maxToken && IsFirst(call.topk, p, f) ==>
            o.current[p] == d.current[f])
  {
    hide LegacyPlan, MakePlan, Scatter, Prepared, Once;
    var r, once := Prepared(call, row, maxToken), call.(topk := Once(call.topk));
    assert Prepared(once, row, maxToken) == r by { SamePrepared(call, once, row, maxToken); }
    OncePlan(r.lru, r.table, call.topk, maxToken);
    LegacyPlanIsOk(r.lru, r.table, call.topk, maxToken);
    PlanIsOk(r.lru, r.table, once.topk, maxToken);
    var l, p := LegacyPlan(r.lru, r.table, call.topk, maxToken), MakePlan(r.lru, r.table, once.topk, maxToken);
    forall j | 0 <= j < |l.misses| ensures call.topk[l.misses[j]] == once.topk[l.misses[j]] {
      MissSource(r.lru, r.table, once.topk, maxToken, j);
      FirstInOnce(call.topk, maxToken, l.misses[j]);
    }
    assert TokensAt(call.topk, l.misses) == TokensAt(once.topk, p.misses);
    forall q: nat, f: nat | q < |call.topk| && 0 <= call.topk[q] < maxToken && IsFirst(call.topk, q, f)
      ensures LegacyStep(call, row, maxToken).current[q] == Step(once, row, maxToken).current[f]
    {
      OnlyFirst(call.topk, f);
      FirstInOnce(call.topk, maxToken, f);
      ScatterCell(l.current, p.current, l.misses, l.evictable, AssignCount(l), f);
    }
  }

  lemma OnlyFirst(topk: seq<int>, f: nat)
    requires f < |topk| && topk[f] !in topk[..f]
    ensures First(topk, topk[f], |topk|) == f
  {
  }

  lemma SamePrepared(a: Call, b: Call, row: Row, maxToken: int)
    requires a.reqId == b.reqId && a.prefix == b.prefix
    ensures Prepared(a, row, maxToken) == Prepared(b, row, maxToken)
  {
  }

  // ---- what the legacy step guarantees for any Top-K

  lemma LegacyMissSource(lru: seq<int>, table: seq<int>, topk: seq<int>, maxToken: int, j: nat)
    requires j < |LegacyPlan(lru, table, topk, maxToken).misses|
    ensures var p := LegacyPlan(lru, table, topk, maxToken);
      var q := p.misses[j];
      0 <= q < |topk| && IsToken(topk[q], maxToken) && First(topk, topk[q], |topk|) == q &&
        Holder(lru, table, topk[q], |lru|) == INVALID
  {
    hide First, Holder;
    var p := LegacyPlan(lru, table, topk, maxToken);
    var i := SelectSource(Iota(|topk|), UniqueMissFlags(topk, p.current, maxToken), |topk|, j);
    assert p.current[i] == LegacyHit(lru, table, topk, maxToken, |lru|, i);
  }

  /** Equal requested tokens get equal slots. */
  lemma LegacyEqualTokens(call: Call, row: Row, maxToken: int, a: nat, b: nat)
    requires |row.lru| == |row.table| && a < |call.topk| && b < |call.topk| && call.topk[a] == call.topk[b]
    ensures LegacyStep(call, row, maxToken).current[a] == LegacyStep(call, row, maxToken).current[b]
  {
  }

  lemma AnsweredIsHit(lru: seq<int>, table: seq<int>, topk: seq<int>, maxToken: int, q: nat)
    requires q < |topk| && LegacyPlan(lru, table, topk, maxToken).current[q] >= 0
    ensures var p := LegacyPlan(lru, table, topk, maxToken); p.current[q] in p.hits
  {
    hide Holder;
    assert LegacyPlan(lru, table, topk, maxToken).current[q] == LegacyHit(lru, table, topk, maxToken, |lru|, q);
    HolderIsHit(lru, table, topk, maxToken, topk[q]);
  }

  lemma LegacyDistinct(lru: seq<int>, table: seq<int>, topk: seq<int>, maxToken: int)
    requires DistinctSlots(lru, |table|)
    ensures var p := LegacyPlan(lru, table, topk, maxToken);
      Distinct(p.evictable) && Distinct(p.misses) && forall s :: s in p.evictable ==> s !in p.hits
  {
    hide First, Holder, Select;
    PlanDistinct(lru, table, topk, maxToken);
    SelectDistinct(Iota(|topk|), UniqueMissFlags(topk, LegacyCurrent(lru, table, topk, maxToken), maxToken));
  }

  /** The legacy kernel keeps the row sound, even for Top-K with duplicates or longer than
      the row: a permutation, and no token resident twice. */
  lemma LegacyStaysSound(call: Call, row: Row, maxToken: int)
    requires Sound(row, maxToken)
    ensures |LegacyStep(call, row, maxToken).row.table| == |row.table|
    ensures Sound(LegacyStep(call, row, maxToken).row, maxToken)
  {
    hide LegacyPlan;
    var r := Prepared(call, row, maxToken);
    PreparedSound(call, row, maxToken);
    LegacyPlanIsOk(r.lru, r.table, call.topk, maxToken);
    var t := LegacyStep(call, row, maxToken).row;
    LegacyStaysPermutation(r.lru, r.table, call.topk, maxToken);
    forall a, b | 0 <= a < b < |t.table| && IsToken(t.table[a], maxToken) ensures t.table[a] != t.table[b] {
      LegacyNoSharedToken(r.lru, r.table, call.topk, maxToken, a, b);
    }
  }

  lemma LegacyStaysPermutation(lru: seq<int>, table: seq<int>, topk: seq<int>, maxToken: int)
    requires IsPermutation(lru, |table|) && PlanOk(LegacyPlan(lru, table, topk, maxToken), |topk|, |table|)
    ensures IsPermutation(Rebuilt(LegacyPlan(lru, table, topk, maxToken), |table|), |table|)
  {
    hide First, Holder, Select, Rebuilt;
    PermutationSplits(lru, table, topk, maxToken);
    PlanDistinct(lru, table, topk, maxToken);
    RebuiltPermutation(LegacyPlan(lru, table, topk, maxToken), |table|);
  }

  /** Resident tokens stay below maxToken. */
  lemma LegacyStaysBounded(call: Call, row: Row, maxToken: int, s: nat)
    requires Sound(row, maxToken) && s < |row.table| && row.table[s] < maxToken && maxToken >= 0
    ensures |LegacyStep(call, row, maxToken).row.table| == |row.table|
    ensures LegacyStep(call, row, maxToken).row.table[s] < maxToken
  {
    hide LegacyPlan, Scatter;
    var r := Prepared(call, row, maxToken);
    var p := LegacyPlan(r.lru, r.table, call.topk, maxToken);
    LegacyPlanIsOk(r.lru, r.table, call.topk, maxToken);
    PreparedSound(call, row, maxToken);
    LegacyDistinct(r.lru, r.table, call.topk, maxToken);
    ScatterAt(r.table, p.evictable, TokensAt(call.topk, p.misses), AssignCount(p));
    if s in Assigned(p) {
      var j :| 0 <= j < AssignCount(p) && p.evictable[j] == s;
      LegacyMissSource(r.lru, r.table, call.topk, maxToken, j);
    }
  }

  lemma LegacyNoSharedToken(lru: seq<int>, table: seq<int>, topk: seq<int>, maxToken: int, a: nat, b: nat)
    requires IsPermutation(lru, |table|) && Injective(table, maxToken) && a < b < |table|
    requires PlanOk(LegacyPlan(lru, table, topk, maxToken), |topk|, |table|)
    ensures var p := LegacyPlan(lru, table, topk, maxToken);
      var t := Scatter(table, p.evictable, TokensAt(topk, p.misses), AssignCount(p));
      IsToken(t[a], maxToken) ==> t[a] != t[b]
  {
    hide LegacyPlan, Scatter;
    var p := LegacyPlan(lru, table, topk, maxToken);
    LegacyDistinct(lru, table, topk, maxToken);
    ScatterAt(table, p.evictable, TokensAt(topk, p.misses), AssignCount(p));
    if a in Assigned(p) {
      var j :| 0 <= j < AssignCount(p) && p.evictable[j] == a;
      LegacyMissSource(lru, table, topk, maxToken, j);
      if b in Assigned(p) {
        var k :| 0 <= k < AssignCount(p) && p.evictable[k] == b;
        LegacyMissSource(lru, table, topk, maxToken, k);
        assert p.misses[j] != p.misses[k];
      } else {
        NotHeld(lru, table, topk[p.misses[j]], b);
      }
    } else if b in Assigned(p) {
      var k :| 0 <= k < AssignCount(p) && p.evictable[k] == b;
      LegacyMissSource(lru, table, topk, maxToken, k);
      NotHeld(lru, table, topk[p.misses[k]], a);
    }
  }

  lemma NotHeld(lru: seq<int>, table: seq<int>, token: int, s: nat)
    requires IsPermutation(lru, |table|) && Holder(lru, table, token, |lru|) == INVALID && s < |table|
    ensures table[s] != token
  {
    PermutationCovers(lru, |table|, s);
    var i :| 0 <= i < |lru| && lru[i] == s;
  }

  // ---- the legacy answers

  /** What the first position of a token ends up with names a slot holding that token. */
  lemma FirstAnswer(lru: seq<int>, table: seq<int>, topk: seq<int>, maxToken: int, f: nat)
    requires DistinctSlots(lru, |table|) && f < |topk| && IsToken(topk[f], maxToken)
    requires PlanOk(LegacyPlan(lru, table, topk, maxToken), |topk|, |table|)
    ensures var p := LegacyPlan(lru, table, topk, maxToken);
      var t, s := Scatter(table, p.evictable, TokensAt(topk, p.misses), AssignCount(p)),
        Scatter(p.current, p.misses, p.evictable, AssignCount(p))[f];
      s == INVALID || (IsSlot(s, |table|) && t[s] == topk[f])
    ensures var p := LegacyPlan(lru, table, topk, maxToken);
      AssignCount(p) == |p.misses| && First(topk, topk[f], |topk|) == f ==>
        Scatter(p.current, p.misses, p.evictable, AssignCount(p))[f] != INVALID
  {
    hide Scatter, First, Holder, Select;
    var p := LegacyPlan(lru, table, topk, maxToken);
    LegacyDistinct(lru, table, topk, maxToken);
    ScatterAt(table, p.evictable, TokensAt(topk, p.misses), AssignCount(p));
    ScatterAt(p.current, p.misses, p.evictable, AssignCount(p));
    assert p.current[f] == LegacyHit(lru, table, topk, maxToken, |lru|, f);
    if p.current[f] >= 0 { AnsweredIsHit(lru, table, topk, maxToken, f); }
    if p.current[f] < 0 && First(topk, topk[f], |topk|) == f { LegacyMissIndex(lru, table, topk, maxToken, f); }
  }

  lemma LegacyMissIndex(lru: seq<int>, table: seq<int>, topk: seq<int>, maxToken: int, f: nat)
    requires f < |topk| && IsToken(topk[f], maxToken) && First(topk, topk[f], |topk|) == f
    requires LegacyPlan(lru, table, topk, maxToken).current[f] < 0
    ensures f in LegacyPlan(lru, table, topk, maxToken).misses
  {
    var flags := UniqueMissFlags(topk, LegacyCurrent(lru, table, topk, maxToken), maxToken);
    SelectAt(Iota(|topk|), flags, |topk|, f);
  }

  /** Every legacy answer is right, for any Top-K: a resolved position names a slot that
      holds the requested token after the step. */
  lemma LegacyAnswersAreRight(call: Call, row: Row, maxToken: int, pos: nat)
    requires Usable(call, row) && pos < |call.topk|
    ensures var o := LegacyStep(call, row, maxToken);
      o.current[pos] == INVALID ||
      (IsToken(call.topk[pos], maxToken) && IsSlot(o.current[pos], |row.table|) &&
        o.row.table[o.current[pos]] == call.topk[pos])
  {
    hide LegacyPlan, Scatter, Holder;
    var r := Prepared(call, row, maxToken);
    PreparedOk(call, row, maxToken);
    LegacyPlanIsOk(r.lru, r.table, call.topk, maxToken);
    var f := First(call.topk, call.topk[pos], |call.topk|);
    if IsToken(call.topk[pos], maxToken) { FirstAnswer(r.lru, r.table, call.topk, maxToken, f); }
  }

  /** On a sound row with room for the Top-K, every valid position is answered. */
  lemma LegacyEverythingResolved(call: Call, row: Row, maxToken: int, pos: nat)
    requires Sound(row, maxToken) && |call.topk| <= |row.table| && pos < |call.topk|
    ensures LegacyStep(call, row, maxToken).current[pos] >= 0 <==> IsToken(call.topk[pos], maxToken)
  {
    hide LegacyPlan, Scatter, Holder;
    var r := Prepared(call, row, maxToken);
    PreparedSound(call, row, maxToken);
    PreparedOk(call, row, maxToken);
    LegacyPlanIsOk(r.lru, r.table, call.topk, maxToken);
    LegacyFits(r.lru, r.table, call.topk, maxToken);
    var f := First(call.topk, call.topk[pos], |call.topk|);
    if IsToken(call.topk[pos], maxToken) { FirstAnswer(r.lru, r.table, call.topk, maxToken, f); }
  }

  /** There are no more unique misses than misses, so all of them get a slot. */
  lemma LegacyFits(lru: seq<int>, table: seq<int>, topk: seq<int>, maxToken: int)
    requires IsPermutation(lru, |table|) && Injective(table, maxToken) && |topk| <= |table|
    ensures var p := LegacyPlan(lru, table, topk, maxToken); AssignCount(p) == |p.misses|
  {
    hide First, Holder, Select;
    UsedFitsTopk(lru, table, topk, maxToken);
    PermutationSplits(lru, table, topk, maxToken);
    var p, u := MakePlan(lru, table, topk, maxToken),
      UniqueMissFlags(topk, LegacyCurrent(lru, table, topk, maxToken), maxToken);
    FewerFlags(u, MissFlags(topk, p.current, maxToken), |topk|);
  }

  lemma {:induction false} FewerFlags(u: seq<bool>, f: seq<bool>, n: nat)
    requires n <= |u| == |f| && forall i :: 0 <= i < n && u[i] ==> f[i]
    ensures Rank(u, n) <= Rank(f, n)
  {
    if n == 0 {
    } else {
      FewerFlags(u, f, n - 1);
    }
  }
}
