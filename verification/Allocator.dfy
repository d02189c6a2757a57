/** The host pool allocator: best fit over two idle indexes, splitting on allocation and
    two-sided coalescing on release. */
module Allocator {

  const ALIGN: nat := 16
  const WORD: nat := 0x1_0000_0000_0000_0000

  datatype Range = Range(offset: nat, size: nat)

  /** The order of the size index: by size, then by offset. */
  predicate Less(a: Range, b: Range) {
    if a.size != b.size then a.size < b.size else a.offset < b.offset
  }

  /** Rounding up to a multiple of 16 in 64-bit arithmetic. */
  function AlignUp(size: nat): nat
    requires size < WORD
  {
    var sum := (size + ALIGN - 1) % WORD;
    sum - sum % ALIGN
  }

  /** The rounding is the least multiple of 16 that holds the request, exactly for requests
      the addition does not wrap; past that bound it yields 0. */
  lemma AlignUpExact(size: nat)
    requires 0 < size < 18446744073709551616
    ensures (size <= AlignUp(size) < size + 16) <==> size <= 18446744073709551600
    ensures AlignUp(size) % 16 == 0 && (size > 18446744073709551600 ==> AlignUp(size) == 0)
  {
  }

  // ---- the canonical form

  predicate Covers(m: map<nat, nat>, o: nat, a: int) { o in m && o <= a < o + m[o] }

  ghost predicate IsUsed(used: map<nat, nat>, a: int) { exists o: nat :: Covers(used, o, a) }

  ghost predicate Inside(m: map<nat, nat>, size: nat) {
    forall o :: o in m ==> m[o] > 0 && o + m[o] <= size
  }

  ghost predicate Apart(m: map<nat, nat>, k: map<nat, nat>) {
    forall o, q :: o in m && q in k ==> o + m[o] <= q || q + k[q] <= o
  }

  ghost predicate ApartWithin(m: map<nat, nat>) {
    forall o, q :: o in m && q in m && o < q ==> o + m[o] <= q
  }

  /** Idle and used ranges tile the pool. */
  ghost predicate Tiled(idle: map<nat, nat>, used: map<nat, nat>, size: nat) {
    && Inside(idle, size) && Inside(used, size)
    && ApartWithin(idle) && ApartWithin(used) && Apart(idle, used)
    && forall a :: 0 <= a < size ==> IsUsed(idle, a) || IsUsed(used, a)
  }

  /** The tiling is canonical when no two idle ranges touch. */
  ghost predicate Canonical(idle: map<nat, nat>, used: map<nat, nat>, size: nat) {
    Tiled(idle, used, size) && NoTouch(idle)
  }

  ghost predicate NoTouch(idle: map<nat, nat>) { forall o :: o in idle ==> o + idle[o] !in idle }

  /** The size index holds exactly the idle ranges. */
  ghost predicate Mirrors(index: set<Range>, idle: map<nat, nat>) {
    forall r :: r in index <==> r.offset in idle && idle[r.offset] == r.size
  }

  /** A longest run of addresses that no block uses. */
  ghost predicate MaximalFree(used: map<nat, nat>, size: nat, o: nat, s: nat) {
    && s > 0 && o + s <= size
    && (forall a :: o <= a < o + s ==> !IsUsed(used, a))
    && (o == 0 || IsUsed(used, o - 1)) && (o + s == size || IsUsed(used, o + s))
  }

  lemma IdleIsMaximal(idle: map<nat, nat>, used: map<nat, nat>, size: nat, o: nat)
    requires Canonical(idle, used, size) && o in idle
    ensures MaximalFree(used, size, o, idle[o])
  {
    var s := idle[o];
    forall a, q: nat | o <= a < o + s && q in used ensures !Covers(used, q, a) {
      assert o + idle[o] <= q || q + used[q] <= o;
    }
    if o > 0 {
      assert !IsUsed(idle, o - 1) by { forall q: nat | q in idle ensures !Covers(idle, q, o - 1) {} }
    }
    if o + s < size {
      assert !IsUsed(idle, o + s) by { forall q: nat | q in idle ensures !Covers(idle, q, o + s) {} }
    }
  }

  lemma MaximalIsIdle(idle: map<nat, nat>, used: map<nat, nat>, size: nat, o: nat, s: nat)
    requires Canonical(idle, used, size) && MaximalFree(used, size, o, s)
    ensures o in idle && idle[o] == s
  {
    assert !IsUsed(used, o);
    assert IsUsed(idle, o);
    var q: nat :| Covers(idle, q, o);
    IdleIsMaximal(idle, used, size, q);
    assert q < o ==> !IsUsed(used, o - 1);
    var end := o + idle[o];
    assert end < o + s ==> !IsUsed(used, end);
    assert end > o + s ==> !IsUsed(used, o + s);
  }

  /** Canonical form: the idle map is a function of the used map. */
  lemma IdleDetermined(idle: map<nat, nat>, other: map<nat, nat>, used: map<nat, nat>, size: nat)
    requires Canonical(idle, used, size) && Canonical(other, used, size)
    ensures idle == other
  {
    forall o | o in idle ensures o in other && other[o] == idle[o] {
      IdleIsMaximal(idle, used, size, o);
      MaximalIsIdle(other, used, size, o, idle[o]);
    }
    forall o | o in other ensures o in idle {
      IdleIsMaximal(other, used, size, o);
      MaximalIsIdle(idle, used, size, o, other[o]);
    }
  }

  /** With nothing allocated the pool is one idle range. */
  lemma EmptyPoolIsOneRange(idle: map<nat, nat>, size: nat)
    requires Canonical(idle, map[], size) && size > 0
    ensures idle == map[0 := size]
  {
    assert Canonical(map[0 := size], map[], size) by {
      forall a | 0 <= a < size ensures IsUsed(map[0 := size], a) { assert Covers(map[0 := size], 0, a); }
    }
    IdleDetermined(idle, map[0 := size], map[], size);
  }

  // ---- elementary moves that keep the tiling

  /** Disjointness and bounds of a tiling, without the covering part. */
  ghost predicate Separated(idle: map<nat, nat>, used: map<nat, nat>, size: nat) {
    Inside(idle, size) && Inside(used, size) && ApartWithin(idle) && ApartWithin(used) && Apart(idle, used)
  }

  ghost predicate Covering(idle: map<nat, nat>, used: map<nat, nat>, size: nat) {
    forall a :: 0 <= a < size ==> IsUsed(idle, a) || IsUsed(used, a)
  }

  lemma CoverAgain(m: map<nat, nat>, k: map<nat, nat>, m': map<nat, nat>, k': map<nat, nat>, size: nat)
    requires Covering(m, k, size)
    requires forall a, q: nat :: Covers(m, q, a) || Covers(k, q, a) ==> IsUsed(m', a) || IsUsed(k', a)
    ensures Covering(m', k', size)
  {
    forall a | 0 <= a < size ensures IsUsed(m', a) || IsUsed(k', a) {
      if IsUsed(m, a) {
        var q: nat :| Covers(m, q, a);
      } else {
        var q: nat :| Covers(k, q, a);
      }
    }
  }

  /** An idle range becomes a block. */
  lemma TakeTiled(idle: map<nat, nat>, used: map<nat, nat>, size: nat, o: nat)
    requires Tiled(idle, used, size) && o in idle
    ensures o !in used && Tiled(idle - {o}, used[o := idle[o]], size)
  {
    var idle', used' := idle - {o}, used[o := idle[o]];
    assert Separated(idle', used', size);
    assert Covering(idle', used', size) by {
      forall a, q: nat | Covers(idle, q, a) || Covers(used, q, a) ensures IsUsed(idle', a) || IsUsed(used', a) {
        assert Covers(idle', q, a) || Covers(used', q, a);
      }
      CoverAgain(idle, used, idle', used', size);
    }
  }

  lemma TiledSymmetric(idle: map<nat, nat>, used: map<nat, nat>, size: nat)
    requires Tiled(idle, used, size)
    ensures Tiled(used, idle, size)
  {
  }

  /** One idle range becomes two. */
  lemma SplitTiled(idle: map<nat, nat>, used: map<nat, nat>, size: nat, o: nat, n: nat)
    requires Tiled(idle, used, size) && o in idle && 0 < n < idle[o]
    ensures Tiled(idle[o := n][o + n := idle[o] - n], used, size)
  {
    var idle' := idle[o := n][o + n := idle[o] - n];
    SplitSeparated(idle, used, size, o, n);
    assert Covering(idle', used, size) by {
      forall a, q: nat | Covers(idle, q, a) || Covers(used, q, a) ensures IsUsed(idle', a) || IsUsed(used, a) {
        assert Covers(idle', q, a) || Covers(idle', o + n, a) || Covers(used, q, a);
      }
      CoverAgain(idle, used, idle', used, size);
    }
  }

  lemma SplitSeparated(idle: map<nat, nat>, used: map<nat, nat>, size: nat, o: nat, n: nat)
    requires Separated(idle, used, size) && o in idle && 0 < n < idle[o]
    ensures Separated(idle[o := n][o + n := idle[o] - n], used, size)
  {
    var idle' := idle[o := n][o + n := idle[o] - n];
    assert o + n !in idle;
    forall p, q | p in idle' && q in idle' && p < q ensures p + idle'[p] <= q {
      if p == o + n { assert o + idle[o] <= q; }
    }
    forall p, q | p in idle' && q in used ensures p + idle'[p] <= q || q + used[q] <= p {
      if p == o || p == o + n { assert o + idle[o] <= q || q + used[q] <= o; }
    }
  }

  /** Two touching idle ranges become one. */
  lemma JoinTiled(idle: map<nat, nat>, used: map<nat, nat>, size: nat, o: nat)
    requires Tiled(idle, used, size) && o in idle && o + idle[o] in idle
    ensures var r := o + idle[o]; Tiled((idle - {r})[o := idle[o] + idle[r]], used, size)
  {
    var r := o + idle[o];
    var idle' := (idle - {r})[o := idle[o] + idle[r]];
    JoinSeparated(idle, used, size, o);
    assert Covering(idle', used, size) by {
      forall a, q: nat | Covers(idle, q, a) || Covers(used, q, a) ensures IsUsed(idle', a) || IsUsed(used, a) {
        assert Covers(idle', q, a) || Covers(idle', o, a) || Covers(used, q, a);
      }
      CoverAgain(idle, used, idle', used, size);
    }
  }

  lemma JoinSeparated(idle: map<nat, nat>, used: map<nat, nat>, size: nat, o: nat)
    requires Separated(idle, used, size) && o in idle && o + idle[o] in idle
    ensures var r := o + idle[o]; Separated((idle - {r})[o := idle[o] + idle[r]], used, size)
  {
    var r := o + idle[o];
    var idle' := (idle - {r})[o := idle[o] + idle[r]];
    forall p, q | p in idle' && q in idle' && p < q ensures p + idle'[p] <= q {
      if p == o { assert r < q; }
    }
    forall p, q | p in idle' && q in used ensures p + idle'[p] <= q || q + used[q] <= p {
      if p == o { assert (o + idle[o] <= q || q + used[q] <= o) && (r + idle[r] <= q || q + used[q] <= r); }
    }
  }

  // ---- the two transformations

  /** Carving a block out of an idle range keeps the canonical form. */
  lemma CarveCanonical(idle: map<nat, nat>, used: map<nat, nat>, size: nat, o: nat, n: nat, idle': map<nat, nat>)
    requires Canonical(idle, used, size) && o in idle && 0 < n <= idle[o]
    requires idle' == if n < idle[o] then (idle - {o})[o + n := idle[o] - n] else idle - {o}
    ensures o !in used && Canonical(idle', used[o := n], size)
  {
    hide Tiled;
    if n < idle[o] {
      SplitTiled(idle, used, size, o, n);
      var two := idle[o := n][o + n := idle[o] - n];
      TakeTiled(two, used, size, o);
      assert two - {o} == idle';
    } else {
      TakeTiled(idle, used, size, o);
    }
    CarveNoTouch(idle, used, size, o, n, idle');
  }

  lemma CarveNoTouch(idle: map<nat, nat>, used: map<nat, nat>, size: nat, o: nat, n: nat, idle': map<nat, nat>)
    requires Canonical(idle, used, size) && o in idle && 0 < n <= idle[o]
    requires idle' == if n < idle[o] then (idle - {o})[o + n := idle[o] - n] else idle - {o}
    ensures NoTouch(idle')
  {
  }

  /** What a release leaves idle: the block together with the idle neighbours it touches. */
  ghost function Merged(idle: map<nat, nat>, o: nat, s: nat, left: bool, prev: nat): (idle': map<nat, nat>)
    requires left ==> prev in idle && prev + idle[prev] == o
  {
    var start := if left then prev else o;
    var end := o + s + if o + s in idle then idle[o + s] else 0;
    (idle - {start} - {o + s})[start := end - start]
  }

  /** Coalescing on both sides keeps the canonical form. */
  lemma MergeCanonical(idle: map<nat, nat>, used: map<nat, nat>, size: nat, o: nat, left: bool, prev: nat)
    requires Canonical(idle, used, size) && o in used && (left ==> prev in idle && prev + idle[prev] == o)
    requires !left ==> forall q :: q in idle ==> q + idle[q] != o
    ensures Canonical(Merged(idle, o, used[o], left, prev), used - {o}, size)
  {
    hide Tiled, NoTouch;
    var s, used' := used[o], used - {o};
    TiledSymmetric(idle, used, size);
    TakeTiled(used, idle, size, o);
    TiledSymmetric(used', idle[o := s], size);
    var one := idle[o := s];
    var two := if o + s in idle then (one - {o + s})[o := s + idle[o + s]] else one;
    if o + s in idle { JoinTiled(one, used', size, o); }
    if left {
      JoinTiled(two, used', size, prev);
      assert (two - {o})[prev := two[prev] + two[o]] == Merged(idle, o, s, left, prev);
    } else {
      assert two == Merged(idle, o, s, left, prev);
    }
    MergeNoTouch(idle, used, size, o, left, prev);
  }

  lemma MergeNoTouch(idle: map<nat, nat>, used: map<nat, nat>, size: nat, o: nat, left: bool, prev: nat)
    requires Canonical(idle, used, size) && o in used && (left ==> prev in idle && prev + idle[prev] == o)
    requires !left ==> forall q :: q in idle ==> q + idle[q] != o
    ensures NoTouch(Merged(idle, o, used[o], left, prev))
  {
  }

  lemma CarveFree(idle: map<nat, nat>, used: map<nat, nat>, size: nat, o: nat, n: nat)
    requires Canonical(idle, used, size) && o in idle && 0 < n <= idle[o]
    ensures o + n !in idle
  {
  }

  // ---- the manager

  /** The smallest range of the index that is not below the anchor. */
  method LowerBound(index: set<Range>, anchor: Range) returns (found: bool, best: Range)
    ensures found <==> exists r :: r in index && !Less(r, anchor)
    ensures found ==>
      best in index && !Less(best, anchor) && forall r :: r in index && !Less(r, anchor) ==> !Less(r, best)
  {
    found, best := false, anchor;
    var todo := index;
    while todo != {}
      invariant todo <= index
      invariant found ==>
        best in index && !Less(best, anchor) && forall r :: r in index - todo && !Less(r, anchor) ==> !Less(r, best)
      invariant !found ==> forall r :: r in index - todo ==> Less(r, anchor)
      decreases todo
    {
      var r :| r in todo;
      if !Less(r, anchor) && (!found || Less(r, best)) {
        found, best := true, r;
      }
      todo := todo - {r};
    }
  }

  /** The greatest idle offset below the given one. */
  method PrevKey(idle: map<nat, nat>, offset: nat) returns (found: bool, prev: nat)
    ensures found <==> exists q :: q in idle && q < offset
    ensures found ==> prev in idle && prev < offset && forall q :: q in idle && q < offset ==> q <= prev
  {
    found, prev := false, 0;
    var todo := idle.Keys;
    while todo != {}
      invariant todo <= idle.Keys
      invariant found ==>
        prev in idle && prev < offset && forall q :: q in idle && q !in todo && q < offset ==> q <= prev
      invariant !found ==> forall q :: q in idle && q !in todo ==> q >= offset
      decreases todo
    {
      var q :| q in todo;
      if q < offset && (!found || prev < q) {
        found, prev := true, q;
      }
      todo := todo - {q};
    }
  }

  /** A map insertion that keeps an entry that is there already. */
  function Emplaced(m: map<nat, nat>, key: nat, value: nat): map<nat, nat> {
    if key in m then m else m[key := value]
  }

  /** Addresses are numbers and 0 is the null pointer. */
  class MemManager {
    const base: nat
    const size: nat
    var idle: map<nat, nat>
    var used: map<nat, nat>
    var bySize: set<Range>

    /** A pool of size zero keeps the empty idle range it was built with. */
    ghost predicate Valid()
      reads this
    {
      && size < WORD && Mirrors(bySize, idle)
      && if size == 0 then idle == map[0 := 0] && used == map[] else Canonical(idle, used, size)
    }

    ghost predicate Indexed()
      reads this
    {
      size < WORD && Mirrors(bySize, idle) && forall o :: o in idle && size > 0 ==> idle[o] > 0
    }

    /** Canonical but for an empty block at the start of an idle range. */
    ghost predicate EmptyAt(address: nat)
      reads this
    {
      && size > 0 && Indexed() && address >= base && address - base in used && used[address - base] == 0
      && address - base in idle && Canonical(idle, used - {address - base}, size)
    }

    constructor (base: nat, size: nat)
      requires size < WORD
      ensures Valid() && this.base == base && this.size == size && used == map[]
    {
      this.base, this.size := base, size;
      idle := map[0 := size];
      used := map[];
      bySize := {Range(0, size)};
      new;
      if size > 0 {
        forall a | 0 <= a < size ensures IsUsed(idle, a) { assert Covers(idle, 0, a); }
      }
    }

    /** An idle range that holds the rounded request. */
    ghost predicate Fits(o: nat, request: nat)
      requires request < WORD
      reads this
    {
      o in idle && idle[o] >= AlignUp(request)
    }

    ghost predicate BestFit(o: nat, request: nat)
      requires request < WORD
      reads this
    {
      Fits(o, request) && forall q :: Fits(q, request) ==> idle[o] < idle[q] || (idle[o] == idle[q] && o <= q)
    }

    /** Best fit: the smallest sufficient range, the lowest one on ties. It fails exactly on
        a zero or oversized request, a null pool, or when nothing fits; the address lookup
        of the chosen range never fails. The state stays canonical unless the rounding wraps
        to 0: then an empty block shares its address with the idle range it was taken from. */
    method Allocate(request: nat) returns (address: nat)
      requires Indexed() && request < WORD
      modifies this
      ensures old(Valid()) ==> (Valid() <==> address == 0 || request <= WORD - ALIGN)
      ensures address == 0 <==>
        request == 0 || request > size || base == 0 || forall o :: o in old(idle) ==> !old(Fits(o, request))
      ensures address == 0 ==> idle == old(idle) && used == old(used)
      ensures address != 0 ==> address >= base && old(BestFit(address - base, request))
      ensures address != 0 && old(Valid()) ==> address - base !in old(used)
      ensures address != 0 ==> used == Emplaced(old(used), address - base, AlignUp(request))
      ensures address != 0 && old(Valid()) && request <= 18446744073709551600 ==>
        var n := used[address - base]; n % 16 == 0 && request <= n < request + 16
      ensures address != 0 && request > WORD - ALIGN ==> idle == old(idle) && bySize == old(bySize)
    {
      if request == 0 || request > size || base == 0 {
        return 0;
      }
      hide Canonical, AlignUp;
      AlignUpExact(request);
      var aligned := AlignUp(request);
      var found, target := Choose(aligned);
      if !found {
        return 0;
      }
      Carve(target.offset, target.size, aligned);
      address := base + target.offset;
    }

    /** Look the best range up in the size index. */
    method Choose(aligned: nat) returns (found: bool, target: Range)
      requires Mirrors(bySize, idle)
      ensures found <==> exists o :: o in idle && idle[o] >= aligned
      ensures found ==> target.offset in idle && idle[target.offset] == target.size >= aligned
      ensures found ==>
        forall q :: q in idle && idle[q] >= aligned ==>
          target.size < idle[q] || (target.size == idle[q] && target.offset <= q)
    {
      found, target := LowerBound(bySize, Range(0, aligned));
      forall q | q in idle && idle[q] >= aligned
        ensures found && (target.size < idle[q] || (target.size == idle[q] && target.offset <= q))
      {
        assert Range(q, idle[q]) in bySize;
      }
    }

    /** Move the front of the range to the used map and put the rest back. */
    method Carve(o: nat, length: nat, aligned: nat)
      requires Indexed() && size > 0 && o in idle && idle[o] == length && aligned <= length
      modifies this
      ensures used == Emplaced(old(used), o, aligned) && (old(Valid()) ==> o !in old(used))
      ensures old(Valid()) ==> (Valid() <==> aligned > 0)
      ensures aligned == 0 < length ==> idle == old(idle) && bySize == old(bySize)
    {
      hide Canonical;
      ghost var idle0 := idle;
      if Valid() { IdleIsFree(idle, used, size, o); }
      bySize := bySize - {Range(o, length)};
      idle := idle - {o};
      used := Emplaced(used, o, aligned);
      if length > aligned {
        var left := Range(o + aligned, length - aligned);
        idle := idle[left.offset := left.size];
        bySize := bySize + {left};
      }
      if old(Valid()) {
        if aligned > 0 {
          CarveFree(idle0, old(used), size, o, aligned);
          CarveCanonical(idle0, old(used), size, o, aligned, idle);
        } else {
          EmptyBlock(idle, used, size, o);
        }
      }
    }

    /** Success exactly on the address of a live block; the pool then forgets the block and
        is canonical again. This holds also of the empty block of a wrapped request. */
    method Release(address: nat) returns (status: int)
      requires Valid() || EmptyAt(address)
      modifies this
      ensures Valid()
      ensures status == 0 <==> address >= base && address - base in old(used)
      ensures status != 0 ==> status == -1 && idle == old(idle) && used == old(used)
      ensures status == 0 ==> used == old(used) - {address - base}
    {
      hide Canonical, Merged;
      if address >= base && address - base in used { LiveOffset(this, address); }
      if address < base || address >= base + size {
        return -1;
      }
      var offset := address - base;
      if offset !in used {
        return -1;
      }
      var length := used[offset];
      ghost var idle0, used0, valid := idle, used, Valid();
      used := used - {offset};
      var found, prev := PrevKey(idle, offset);
      ghost var left := found && prev + idle[prev] == offset;
      if valid {
        PrevIsOnlyNeighbour(idle0, used0, size, offset, found, prev);
        MergeCanonical(idle0, used0, size, offset, left, prev);
      } else {
        EmptyBlockMerges(idle0, used, size, offset, found, prev);
      }
      var start, total := Coalesce(offset, length, found, prev);
      idle := idle[start := total];
      bySize := bySize + {Range(start, total)};
      status := 0;
    }

    /** Take the touching idle neighbours out of both indexes and add up their sizes. */
    method Coalesce(offset: nat, length: nat, found: bool, prev: nat) returns (start: nat, total: nat)
      requires Mirrors(bySize, idle) && (found ==> prev in idle && prev < offset)
      requires offset in idle <==> length == 0
      requires offset in idle ==> !(found && prev + idle[prev] == offset)
      modifies this`idle, this`bySize
      ensures Mirrors(bySize, idle) && start !in idle
      ensures var left := found && prev + old(idle)[prev] == offset;
        idle[start := total] == Merged(old(idle), offset, length, left, prev)
    {
      start, total := offset, length;
      if found && prev + idle[prev] == offset {
        start := prev;
        total := total + idle[prev];
        bySize := bySize - {Range(prev, idle[prev])};
        idle := idle - {prev};
      }
      if offset + length in idle {
        var next := idle[offset + length];
        total := total + next;
        idle := idle - {offset + length};
        bySize := bySize - {Range(offset + length, next)};
      }
    }
  }

  lemma ValidIsIndexed(m: MemManager)
    requires m.Valid()
    ensures m.Indexed()
  {
  }

  lemma LiveOffset(m: MemManager, address: nat)
    requires (m.Valid() || m.EmptyAt(address)) && address >= m.base && address - m.base in m.used
    ensures address < m.base + m.size
  {
  }

  /** An empty block merges with the idle range it is at the start of, and with no other. */
  lemma EmptyBlockMerges(idle: map<nat, nat>, used: map<nat, nat>, size: nat, o: nat, found: bool, prev: nat)
    requires Canonical(idle, used, size) && o in idle && (found ==> prev in idle)
    ensures !(found && prev + idle[prev] == o) && Merged(idle, o, 0, false, prev) == idle
  {
  }

  lemma IdleIsFree(idle: map<nat, nat>, used: map<nat, nat>, size: nat, o: nat)
    requires Canonical(idle, used, size) && o in idle
    ensures o !in used
  {
  }

  /** An empty block is never part of a canonical state. */
  lemma EmptyBlock(idle: map<nat, nat>, used: map<nat, nat>, size: nat, o: nat)
    requires o in used && used[o] == 0
    ensures !Canonical(idle, used, size)
  {
  }

  /** If an idle range ends at the block, it is the predecessor found by the lookup. */
  lemma PrevIsOnlyNeighbour(idle: map<nat, nat>, used: map<nat, nat>, size: nat, o: nat, found: bool, prev: nat)
    requires Canonical(idle, used, size) && o in used
    requires found <==> exists q :: q in idle && q < o
    requires found ==> prev in idle && prev < o && forall q :: q in idle && q < o ==> q <= prev
    ensures o !in idle && used[o] > 0
    ensures forall q :: q in idle && q + idle[q] == o ==> found && q == prev
  {
    forall q | q in idle && q + idle[q] == o ensures found && q == prev {
      assert idle[q] > 0 && q < o;
    }
  }

  // ---- confluence

  /** The whole state is a function of the live blocks. */
  lemma StateDetermined(a: MemManager, idle: map<nat, nat>, bySize: set<Range>)
    requires a.Valid() && a.size > 0 && Canonical(idle, a.used, a.size) && Mirrors(bySize, idle)
    ensures a.idle == idle && a.bySize == bySize
  {
    IdleDetermined(a.idle, idle, a.used, a.size);
    forall r ensures r in a.bySize <==> r in bySize {
    }
  }

  /** Releasing what was just allocated restores the previous state exactly. In between the
      block is live, if something fitted. */
  method AllocateThenRelease(m: MemManager, request: nat) returns (address: nat, ghost between: map<nat, nat>)
    requires m.Valid() && request < WORD
    modifies m
    ensures m.idle == old(m.idle) && m.used == old(m.used) && m.bySize == old(m.bySize)
    ensures address == 0 <==>
      request == 0 || request > m.size || m.base == 0 || forall o :: o in old(m.idle) ==> !old(m.Fits(o, request))
    ensures address == 0 ==> between == old(m.used)
    ensures address != 0 ==> address >= m.base && old(m.BestFit(address - m.base, request))
    ensures address != 0 ==>
      address - m.base !in old(m.used) && between == old(m.used)[address - m.base := AlignUp(request)]
  {
    hide Canonical, AlignUp;
    ghost var idle, used, bySize := m.idle, m.used, m.bySize;
    if request > 0 { AlignUpExact(request); }
    ValidIsIndexed(m);
    address := m.Allocate(request);
    between := m.used;
    if address != 0 {
      assert m.used - {address - m.base} == used;
      var status := m.Release(address);
      StateDetermined(m, idle, bySize);
    } else {
      assert forall r :: r in m.bySize <==> r in bySize;
    }
  }

  /** The offsets named by the first n addresses. */
  ghost function Offsets(base: nat, addresses: seq<nat>, n: nat): set<nat>
    requires n <= |addresses|
  {
    if n == 0 then {}
    else Offsets(base, addresses, n - 1) + if addresses[n - 1] >= base then {addresses[n - 1] - base} else {}
  }

  lemma NoOffsets(base: nat, addresses: seq<nat>)
    ensures Offsets(base, addresses, 0) == {}
  {
  }

  lemma {:induction false} OffsetsMember(base: nat, addresses: seq<nat>, n: nat, o: nat)
    requires n <= |addresses|
    ensures o in Offsets(base, addresses, n) <==> o + base in addresses[..n]
  {
    if n == 0 {
    } else {
      OffsetsMember(base, addresses, n - 1, o);
      assert addresses[..n] == addresses[..n - 1] + [addresses[n - 1]];
    }
  }

  /** Release a list of addresses, live or not, one after the other. */
  method ReleaseAll(m: MemManager, addresses: seq<nat>)
    requires m.Valid()
    modifies m
    ensures m.Valid() && m.used == old(m.used) - Offsets(m.base, addresses, |addresses|)
  {
    hide Canonical, Mirrors, Offsets;
    assert m.used == m.used - Offsets(m.base, addresses, 0) by { NoOffsets(m.base, addresses); }
    for i := 0 to |addresses|
      invariant m.Valid() && m.used == old(m.used) - Offsets(m.base, addresses, i)
    {
      ghost var before := m.used;
      var status := m.Release(addresses[i]);
      ForgetNext(old(m.used), before, m.used, m.base, addresses, i);
    }
  }

  lemma ForgetNext(start: map<nat, nat>, before: map<nat, nat>, after: map<nat, nat>, base: nat, addresses: seq<nat>,
                   i: nat)
    requires i < |addresses| && before == start - Offsets(base, addresses, i)
    requires var live := addresses[i] >= base && addresses[i] - base in before;
      after == if live then before - {addresses[i] - base} else before
    ensures after == start - Offsets(base, addresses, i + 1)
  {
  }

  /** Releasing the same blocks in any two orders reaches the same state. */
  method ReleaseInAnyOrder(a: MemManager, b: MemManager, xs: seq<nat>, ys: seq<nat>)
    requires a != b && a.Valid() && b.Valid() && a.base == b.base && a.size == b.size > 0 && a.used == b.used
    requires forall x :: x in xs <==> x in ys
    modifies a, b
    ensures a.idle == b.idle && a.used == b.used && a.bySize == b.bySize
    ensures a.Valid() && a.used == old(a.used) - Offsets(a.base, xs, |xs|)
  {
    ReleaseAll(a, xs);
    ReleaseAll(b, ys);
    assert xs[..|xs|] == xs && ys[..|ys|] == ys;
    forall o: nat ensures o in Offsets(a.base, xs, |xs|) <==> o in Offsets(a.base, ys, |ys|) {
      OffsetsMember(a.base, xs, |xs|, o);
      OffsetsMember(a.base, ys, |ys|, o);
    }
    assert Offsets(a.base, xs, |xs|) == Offsets(a.base, ys, |ys|);
    StateDetermined(a, b.idle, b.bySize);
  }

  /** Releasing every live block leaves one idle range. */
  method ReleaseEverything(m: MemManager, addresses: seq<nat>)
    requires m.Valid() && m.size > 0 && forall o :: o in m.used ==> o + m.base in addresses
    modifies m
    ensures m.Valid() && m.used == map[] && m.idle == map[0 := m.size] && m.bySize == {Range(0, m.size)}
  {
    forall o | o in m.used ensures o in Offsets(m.base, addresses, |addresses|) {
      assert addresses[..|addresses|] == addresses;
      OffsetsMember(m.base, addresses, |addresses|, o);
    }
    ReleaseAll(m, addresses);
    EmptyPoolIsOneRange(m.idle, m.size);
    StateDetermined(m, map[0 := m.size], {Range(0, m.size)});
  }

  /** In a pool that a wrapped request can enter, a second block is handed out at the address
      of the first, which is still live. */
  method WrappedBlocksOverlap(base: nat, size: nat, request: nat)
    returns (first: nat, second: nat, ghost live: map<nat, nat>)
    requires base > 0 && WORD - ALIGN < request <= size < WORD
    ensures first == second == base && live == map[0 := 0]
  {
    var m := new MemManager(base, size);
    EmptyPoolIsOneRange(m.idle, size);
    assert AlignUp(request) == 0 && AlignUp(16) == 16 by { AlignUpExact(request); }
    assert m.Fits(0, request);
    first := m.Allocate(request);
    assert m.Fits(0, 16);
    second := m.Allocate(16);
    live := m.used;
  }

  // ---- live blocks

  /** The range test of the entry layer. */
  predicate RangeInPool(base: nat, poolSize: nat, address: nat, length: nat) {
    base != 0 && address != 0 && length != 0 && address >= base &&
    address - base <= poolSize && length <= poolSize - (address - base)
  }

  /** The range test holds exactly if neither pool nor range is null or empty and every byte
      of the range is a byte of the pool. */
  lemma RangeInPoolIff(base: nat, poolSize: nat, address: nat, length: nat)
    ensures RangeInPool(base, poolSize, address, length) <==>
      && base != 0 && address != 0 && length != 0
      && forall a :: address <= a < address + length ==> InPool(base, poolSize, a)
  {
    if length != 0 && forall a :: address <= a < address + length ==> InPool(base, poolSize, a) {
      assert InPool(base, poolSize, address) && InPool(base, poolSize, address + length - 1);
    }
  }

  predicate InPool(base: nat, poolSize: nat, a: int) { base <= a < base + poolSize }

  /** In an empty pool of at least 32 bytes, requests of 1 to 16 bytes take 16 bytes each, one
      behind the other. */
  method SmallBlocks(base: nat, size: nat, first: nat, second: nat) returns (a: nat, b: nat)
    requires base > 0 && 32 <= size < 18446744073709551616 && 1 <= first <= 16 && 1 <= second <= 16
    ensures a == base && b == base + 16
  {
    var m := new MemManager(base, size);
    EmptyPoolIsOneRange(m.idle, size);
    AlignUpExact(first);
    AlignUpExact(second);
    assert m.Fits(0, first);
    a := m.Allocate(first);
    assert m.used == map[0 := 16];
    OneBlockLeft(m.idle, size);
    assert m.Fits(16, second);
    b := m.Allocate(second);
  }

  lemma OneBlockLeft(idle: map<nat, nat>, size: nat)
    requires Canonical(idle, map[0 := 16], size) && size > 16
    ensures idle == map[16 := size - 16]
  {
    var other := map[16 := size - 16];
    assert Canonical(other, map[0 := 16], size) by {
      forall a | 0 <= a < size ensures IsUsed(other, a) || IsUsed(map[0 := 16], a) {
        assert Covers(other, 16, a) || Covers(map[0 := 16], 0, a);
      }
    }
    IdleDetermined(idle, other, map[0 := 16], size);
  }

  /** A block allocated for a request passes the range test for that request, and no other
      live block overlaps it. */
  lemma LiveBlockInPool(idle: map<nat, nat>, used: map<nat, nat>, size: nat, base: nat, o: nat, request: nat)
    requires Canonical(idle, used, size) && base > 0 && o in used
    requires 0 < request <= WORD - ALIGN && used[o] == AlignUp(request)
    ensures RangeInPool(base, size, base + o, request)
    ensures forall q :: q in used && q != o ==> q + used[q] <= o || o + request <= q
  {
    AlignUpExact(request);
    assert o + used[o] <= size;
    forall q | q in used && q != o ensures q + used[q] <= o || o + request <= q {
      assert if q < o then q + used[q] <= o else o + used[o] <= q;
    }
  }

  // ---- runs

  datatype Op = Get(request: nat) | Put(address: nat)

  /** Among the free runs of the pool, (o, s) is the smallest that holds n bytes, the lowest
      one on ties. */
  ghost predicate BestRun(used: map<nat, nat>, size: nat, n: nat, o: nat, s: nat) {
    && MaximalFree(used, size, o, s) && n <= s
    && forall p, t: nat :: MaximalFree(used, size, p, t) && n <= t ==> s < t || (s == t && o <= p)
  }

  /** What one operation answers and does, told by the live blocks alone. */
  ghost predicate RightStep(base: nat, size: nat, op: Op, answer: nat, before: map<nat, nat>, after: map<nat, nat>) {
    match op
    case Put(address) => answer == 0 && after == if address >= base then before - {address - base} else before
    case Get(request) =>
      request < WORD &&
      if request == 0 || request > size || base == 0 || NoRoom(before, size, AlignUp(request))
      then answer == 0 && after == before
      else
        && answer >= base && after == before[answer - base := AlignUp(request)]
        && HasBestRun(before, size, AlignUp(request), answer - base)
  }

  ghost predicate NoRoom(used: map<nat, nat>, size: nat, n: nat) {
    forall o, s: nat :: MaximalFree(used, size, o, s) ==> s < n
  }

  ghost predicate HasBestRun(used: map<nat, nat>, size: nat, n: nat, o: nat) {
    exists s: nat :: BestRun(used, size, n, o, s)
  }

  /** The pool is memory: if not null, it lies past the first 16 bytes of the address space
      and does not wrap around. */
  predicate Placed(base: nat, size: nat) { base == 0 || (base >= ALIGN && base + size <= WORD) }

  /** The rounding of the request does not wrap, or the request is refused anyway. In a pool
      that is placed this holds of every request. */
  predicate NoWrap(base: nat, size: nat, request: nat) {
    request < WORD && (Placed(base, size) || request > size || request <= WORD - ALIGN)
  }

  method OneOp(m: MemManager, op: Op) returns (answer: nat)
    requires m.Valid() && (op.Get? ==> NoWrap(m.base, m.size, op.request))
    modifies m
    ensures m.Valid() && RightStep(m.base, m.size, op, answer, old(m.used), m.used)
  {
    hide Canonical, AlignUp, NoRoom, HasBestRun;
    ghost var idle, used := m.idle, m.used;
    match op {
      case Put(address) =>
        var status := m.Release(address);
        answer := 0;
        assert status != 0 && address >= m.base ==> used - {address - m.base} == used;
      case Get(request) =>
        ValidIsIndexed(m);
        answer := m.Allocate(request);
        if m.size > 0 { FitsIsFree(idle, used, m.size, AlignUp(request)); }
        if answer != 0 {
          BestFitIsBestRun(idle, used, m.size, AlignUp(request), answer - m.base);
        }
    }
  }

  lemma FitsIsFree(idle: map<nat, nat>, used: map<nat, nat>, size: nat, n: nat)
    requires Canonical(idle, used, size)
    ensures (forall o :: o in idle ==> idle[o] < n) <==> NoRoom(used, size, n)
  {
    hide Canonical, MaximalFree;
    forall o, s: nat | MaximalFree(used, size, o, s) ensures o in idle && idle[o] == s {
      MaximalIsIdle(idle, used, size, o, s);
    }
    forall o | o in idle ensures MaximalFree(used, size, o, idle[o]) { IdleIsMaximal(idle, used, size, o); }
  }

  lemma BestFitIsBestRun(idle: map<nat, nat>, used: map<nat, nat>, size: nat, n: nat, o: nat)
    requires Canonical(idle, used, size) && o in idle && n <= idle[o]
    requires forall q :: q in idle && n <= idle[q] ==> idle[o] < idle[q] || (idle[o] == idle[q] && o <= q)
    ensures HasBestRun(used, size, n, o)
  {
    hide Canonical, MaximalFree;
    IdleIsMaximal(idle, used, size, o);
    forall p, t: nat | MaximalFree(used, size, p, t) && n <= t
      ensures idle[o] < t || (idle[o] == t && o <= p)
    {
      MaximalIsIdle(idle, used, size, p, t);
    }
    assert BestRun(used, size, n, o, idle[o]);
  }

  /** The blocks a run has handed out and not taken back, with the size asked for. */
  ghost function Live(ops: seq<Op>, answers: seq<nat>, n: nat): map<nat, nat>
    requires n <= |ops| == |answers|
  {
    if n == 0 then map[]
    else
      var live := Live(ops, answers, n - 1);
      match ops[n - 1]
      case Get(request) => if answers[n - 1] == 0 then live else live[answers[n - 1] := request]
      case Put(address) => live - {address}
  }

  /** The used map holds exactly the live blocks, rounded up. */
  ghost predicate Tracks(base: nat, used: map<nat, nat>, live: map<nat, nat>) {
    && (base == 0 ==> live == map[])
    && (forall a: nat :: a in live <==> a >= base && a - base in used)
    && forall a: nat :: a in live ==> 0 < live[a] <= WORD - ALIGN && used[a - base] == AlignUp(live[a])
  }

  lemma TracksNext(base: nat, size: nat, op: Op, answer: nat, before: map<nat, nat>, after: map<nat, nat>,
                   live: map<nat, nat>)
    requires op.Get? ==> NoWrap(base, size, op.request)
    requires Tracks(base, before, live) && RightStep(base, size, op, answer, before, after)
    ensures Tracks(base, after, match op
                                case Get(request) => if answer == 0 then live else live[answer := request]
                                case Put(address) => live - {address})
  {
  }

  /** In every run from an empty pool, each answer is the best fit among the free runs of the
      pool at that time, or null if there is none; and at the end every block still live
      passes the range test for the size asked for and overlaps no other. */
  method PoolRun(m: MemManager, ops: seq<Op>) returns (answers: seq<nat>, ghost history: seq<map<nat, nat>>)
    requires m.Valid() && m.used == map[]
    requires forall i :: 0 <= i < |ops| && ops[i].Get? ==> NoWrap(m.base, m.size, ops[i].request)
    modifies m
    ensures m.Valid() && |answers| == |ops| && |history| == |ops| + 1 && history[0] == map[] && history[|ops|] == m.used
    ensures forall i :: 0 <= i < |ops| ==> RightStep(m.base, m.size, ops[i], answers[i], history[i], history[i + 1])
    ensures forall a :: a in Live(ops, answers, |ops|) ==>
      RangeInPool(m.base, m.size, a, Live(ops, answers, |ops|)[a])
    ensures var live := Live(ops, answers, |ops|);
      forall a, b :: a in live && b in live && a < b ==> a + live[a] <= b
  {
    hide RightStep, Tracks, Live, Canonical, Mirrors, NoWrap, AlignUp, RangeInPool;
    StartsEmpty(m.base, ops);
    answers, history := [], [m.used];
    ghost var live: map<nat, nat> := map[];
    for i := 0 to |ops|
      invariant m.Valid() && |answers| == i && |history| == i + 1 && history[0] == map[] && history[i] == m.used
      invariant forall k :: 0 <= k < i ==> RightStep(m.base, m.size, ops[k], answers[k], history[k], history[k + 1])
      invariant Tracks(m.base, m.used, live) && live == Live(ops[..i], answers, i)
    {
      ghost var before := m.used;
      var answer := OneOp(m, ops[i]);
      TracksNext(m.base, m.size, ops[i], answer, before, m.used, live);
      LiveNext(ops, answers, answer, i);
      answers := answers + [answer];
      history := history + [m.used];
      live := Live(ops[..i + 1], answers, i + 1);
    }
    assert ops[..|ops|] == ops;
    LiveBlocks(m, live);
  }

  lemma StartsEmpty(base: nat, ops: seq<Op>)
    ensures Tracks(base, map[], map[]) && Live(ops[..0], [], 0) == map[]
  {
  }

  lemma LiveNext(ops: seq<Op>, answers: seq<nat>, answer: nat, i: nat)
    requires i < |ops| && |answers| == i
    ensures Live(ops[..i + 1], answers + [answer], i + 1) ==
      var live := Live(ops[..i], answers, i);
      match ops[i]
      case Get(request) => if answer == 0 then live else live[answer := request]
      case Put(address) => live - {address}
  {
    LivePrefix(ops[..i + 1], answers + [answer], ops[..i], answers, i);
  }

  lemma {:induction false} LivePrefix(ops: seq<Op>, answers: seq<nat>, ops': seq<Op>, answers': seq<nat>, n: nat)
    requires n <= |ops| == |answers| && n <= |ops'| == |answers'|
    requires forall k :: 0 <= k < n ==> ops[k] == ops'[k] && answers[k] == answers'[k]
    ensures Live(ops, answers, n) == Live(ops', answers', n)
  {
    if n == 0 {
    } else {
      LivePrefix(ops, answers, ops', answers', n - 1);
    }
  }

  lemma LiveBlocks(m: MemManager, live: map<nat, nat>)
    requires m.Valid() && Tracks(m.base, m.used, live)
    ensures forall a :: a in live ==> RangeInPool(m.base, m.size, a, live[a])
    ensures forall a, b :: a in live && b in live && a < b ==> a + live[a] <= b
  {
    hide Canonical, AlignUp, RangeInPool;
    forall a | a in live
      ensures RangeInPool(m.base, m.size, a, live[a])
      ensures forall b :: b in live && a < b ==> a + live[a] <= b
    {
      LiveBlockInPool(m.idle, m.used, m.size, m.base, a - m.base, live[a]);
      forall b | b in live && a < b ensures a + live[a] <= b {
        assert b - m.base in m.used && b - m.base != a - m.base;
      }
    }
  }
}
