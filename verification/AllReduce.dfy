/** The flag-synchronised all-reduce over shared memory, as a step system: every rank loads
    its input, then one process per core and rank runs; any process may take the next step. */
module AllReduce {
  import Compaction

  const COPY_MASK: nat := 128

  /** A process; it also owns one block of the data in every rank's memory. */
  datatype Pid = Pid(rank: nat, core: nat)

  datatype Cell = Cell(rank: nat, owner: Pid)

  /** add need not be associative. */
  datatype Config<!T> = Config(ranks: nat, cores: nat, len: nat, add: (T, T) -> T, input: map<Cell, seq<T>>)

  ghost predicate IsPid<T>(cfg: Config<T>, p: Pid) { p.rank < cfg.ranks && p.core < cfg.cores }

  /** Flags start unset, there are at least two ranks, and every rank has an input block of
      the block length for every owner. */
  ghost predicate Good<T(!new)>(cfg: Config<T>) {
    cfg.ranks >= 2 &&
    forall i: nat, p :: i < cfg.ranks && IsPid(cfg, p) ==> Cell(i, p) in cfg.input && |cfg.input[Cell(i, p)]| == cfg.len
  }

  /** Where a process is: waiting for rank k's flag, about to add rank k's block, about to
      store to rank k, and so on. */
  datatype Pc = Idle | Wait1(k: nat) | Load0 | Accumulate(k: nat) | Store(k: nat) | SetFlag2 | Wait2(k: nat) | Done

  datatype Proc<T> = Proc(pc: Pc, cal: seq<T>, out: seq<T>)

  datatype State<T> = State(loaded: set<nat>, flag1: set<Pid>, flag2: set<Pid>,
                            data: map<Cell, seq<T>>, procs: map<Pid, Proc<T>>)

  datatype Action = Load(rank: nat) | Run(p: Pid)

  ghost predicate Typed<T(!new)>(cfg: Config<T>, s: State<T>) {
    && (forall p :: IsPid(cfg, p) ==> p in s.procs)
    && (forall i: nat, p :: i < cfg.ranks && IsPid(cfg, p) ==> Cell(i, p) in s.data)
  }

  /** Elementwise add(in, cal). */
  function AddBlocks<T>(add: (T, T) -> T, x: seq<T>, cal: seq<T>): (r: seq<T>)
    requires |x| == |cal|
    ensures |r| == |x|
  {
    seq(|x|, i requires 0 <= i < |x| => add(x[i], cal[i]))
  }

  /** The accumulator copy moves whole groups of 128 elements only. */
  function CopyBack<T>(out: seq<T>, cal: seq<T>): (r: seq<T>)
    requires |out| == |cal|
    ensures |r| == |out|
  {
    var m := |out| / COPY_MASK * COPY_MASK;
    out[..m] + cal[m..]
  }

  /** A process may step unless it is waiting for an unset flag; it starts only after its
      rank has loaded its input. */
  ghost predicate Enabled<T(!new)>(cfg: Config<T>, s: State<T>, a: Action)
    requires Typed(cfg, s)
  {
    match a
    case Load(i) => i < cfg.ranks && i !in s.loaded
    case Run(p) => IsPid(cfg, p) && match s.procs[p].pc
      case Idle => p.rank in s.loaded
      case Wait1(k) => Pid(k, p.core) in s.flag1
      case Wait2(k) => Pid(k, p.core) in s.flag2
      case Done => false
      case Accumulate(k) => k < cfg.ranks && |s.data[Cell(k, p)]| == |s.procs[p].cal|
      case Store(k) => k < cfg.ranks
      case _ => true
  }

  ghost function SetPc<T(!new)>(s: State<T>, p: Pid, pc: Pc): State<T>
    requires p in s.procs
  {
    s.(procs := s.procs[p := s.procs[p].(pc := pc)])
  }

  ghost function Apply<T(!new)>(cfg: Config<T>, s: State<T>, a: Action): (t: State<T>)
    requires Typed(cfg, s) && Good(cfg) && Enabled(cfg, s, a)
    ensures Typed(cfg, t)
  {
    match a
    case Load(i) =>
      s.(loaded := s.loaded + {i},
         data := map c | c in s.data :: if c.rank == i && c in cfg.input then cfg.input[c] else s.data[c])
    case Run(p) => match s.procs[p].pc
      case Idle => SetPc(s.(flag1 := s.flag1 + {p}), p, Wait1(0))
      case Wait1(k) => SetPc(s, p, if k + 1 < cfg.ranks then Wait1(k + 1) else Load0)
      case Load0 => s.(procs := s.procs[p := Proc(Accumulate(1), s.data[Cell(0, p)], s.procs[p].out)])
      case Accumulate(k) =>
        var out := AddBlocks(cfg.add, s.data[Cell(k, p)], s.procs[p].cal);
        s.(procs := s.procs[p := if k + 1 < cfg.ranks then Proc(Accumulate(k + 1), CopyBack(out, s.procs[p].cal), out)
                                 else Proc(Store(0), s.procs[p].cal, out)])
      case Store(k) =>
        SetPc(s.(data := s.data[Cell(k, p) := s.procs[p].out]), p, if k + 1 < cfg.ranks then Store(k + 1) else SetFlag2)
      case SetFlag2 => SetPc(s.(flag2 := s.flag2 + {p}), p, Wait2(0))
      case Wait2(k) => SetPc(s, p, if k + 1 < cfg.ranks then Wait2(k + 1) else Done)
      case Done => s
  }

  ghost predicate Start<T(!new)>(cfg: Config<T>, s: State<T>) {
    && Typed(cfg, s) && s.loaded == {} && s.flag1 == {} && s.flag2 == {}
    && forall p :: IsPid(cfg, p) ==> s.procs[p].pc == Idle
  }

  ghost predicate Reaches<T(!new)>(cfg: Config<T>, start: State<T>, actions: seq<Action>, s: State<T>)
    requires Good(cfg)
    decreases |actions|
  {
    if actions == [] then s == start
    else
      var n := |actions| - 1;
      exists q: State<T> :: Reaches(cfg, start, actions[..n], q) && Typed(cfg, q) && Enabled(cfg, q, actions[n]) &&
        s == Apply(cfg, q, actions[n])
  }

  // ---- what a process computes

  /** The accumulator before rank k's block is added. */
  ghost function CalBefore<T(!new)>(cfg: Config<T>, p: Pid, k: nat): (c: seq<T>)
    requires Good(cfg) && IsPid(cfg, p) && 1 <= k < cfg.ranks
    ensures |c| == cfg.len
    decreases k, 0
  {
    if k == 1 then cfg.input[Cell(0, p)] else CopyBack(OutAfter(cfg, p, k - 1), CalBefore(cfg, p, k - 1))
  }

  ghost function OutAfter<T(!new)>(cfg: Config<T>, p: Pid, k: nat): (o: seq<T>)
    requires Good(cfg) && IsPid(cfg, p) && 1 <= k < cfg.ranks
    ensures |o| == cfg.len
    decreases k, 1
  {
    AddBlocks(cfg.add, cfg.input[Cell(k, p)], CalBefore(cfg, p, k))
  }

  ghost function Result<T(!new)>(cfg: Config<T>, p: Pid): seq<T>
    requires Good(cfg) && IsPid(cfg, p)
  {
    OutAfter(cfg, p, cfg.ranks - 1)
  }

  // ---- the invariant

  predicate PastWait1(pc: Pc) { !(pc.Idle? || pc.Wait1?) }

  predicate PastStores(pc: Pc) { pc.SetFlag2? || pc.Wait2? || pc.Done? }

  predicate StoredTo(pc: Pc, i: nat) { PastStores(pc) || (pc.Store? && i < pc.k) }

  ghost predicate ProcInv<T(!new)>(cfg: Config<T>, s: State<T>, p: Pid)
    requires Good(cfg) && Typed(cfg, s) && IsPid(cfg, p)
  {
    var q := s.procs[p];
    && (p in s.flag1 <==> q.pc != Idle) && (p in s.flag2 <==> q.pc.Wait2? || q.pc.Done?)
    && (q.pc != Idle ==> p.rank in s.loaded)
    && (q.pc.Wait1? ==> q.pc.k < cfg.ranks && forall j: nat :: j < q.pc.k ==> Pid(j, p.core) in s.flag1)
    && (PastWait1(q.pc) ==> forall j: nat :: j < cfg.ranks ==> Pid(j, p.core) in s.flag1)
    && (q.pc.Accumulate? ==> 1 <= q.pc.k < cfg.ranks && q.cal == CalBefore(cfg, p, q.pc.k))
    && (q.pc.Store? ==> q.pc.k < cfg.ranks && q.out == Result(cfg, p))
    && (q.pc.Wait2? ==> q.pc.k < cfg.ranks && forall j: nat :: j < q.pc.k ==> Pid(j, p.core) in s.flag2)
    && (q.pc.Done? ==> forall j: nat :: j < cfg.ranks ==> Pid(j, p.core) in s.flag2)
  }

  ghost predicate DataInv<T(!new)>(cfg: Config<T>, s: State<T>, i: nat, p: Pid)
    requires Good(cfg) && Typed(cfg, s) && IsPid(cfg, p) && i < cfg.ranks
  {
    i in s.loaded ==> s.data[Cell(i, p)] == if StoredTo(s.procs[p].pc, i) then Result(cfg, p) else cfg.input[Cell(i, p)]
  }

  ghost predicate Inv<T(!new)>(cfg: Config<T>, s: State<T>)
    requires Good(cfg)
  {
    && Typed(cfg, s)
    && (forall p :: IsPid(cfg, p) ==> ProcInv(cfg, s, p))
    && (forall i: nat, p :: i < cfg.ranks && IsPid(cfg, p) ==> DataInv(cfg, s, i, p))
  }

  /** No process reads a block before every rank has loaded its input. */
  lemma AllLoaded<T(!new)>(cfg: Config<T>, s: State<T>, p: Pid, i: nat)
    requires Good(cfg) && Inv(cfg, s) && IsPid(cfg, p) && PastWait1(s.procs[p].pc) && i < cfg.ranks
    ensures i in s.loaded
  {
    assert ProcInv(cfg, s, p) && Pid(i, p.core) in s.flag1;
    assert ProcInv(cfg, s, Pid(i, p.core));
  }

  lemma OtherKeeps<T(!new)>(cfg: Config<T>, s: State<T>, t: State<T>, q: Pid)
    requires Good(cfg) && Typed(cfg, s) && Typed(cfg, t) && IsPid(cfg, q) && ProcInv(cfg, s, q)
    requires s.procs[q] == t.procs[q] && s.loaded <= t.loaded && s.flag1 <= t.flag1 && s.flag2 <= t.flag2
    requires (q in t.flag1 ==> q in s.flag1) && (q in t.flag2 ==> q in s.flag2)
    ensures ProcInv(cfg, t, q)
  {
  }

  /** What the accumulating process reads is still that rank's input. */
  lemma ReadsInput<T(!new)>(cfg: Config<T>, s: State<T>, p: Pid, i: nat)
    requires Good(cfg) && Inv(cfg, s) && IsPid(cfg, p) && i < cfg.ranks
    requires s.procs[p].pc.Load0? || s.procs[p].pc.Accumulate?
    ensures s.data[Cell(i, p)] == cfg.input[Cell(i, p)]
  {
    AllLoaded(cfg, s, p, i);
    assert DataInv(cfg, s, i, p);
  }

  lemma AccumulateStep<T(!new)>(cfg: Config<T>, s: State<T>, p: Pid)
    requires Good(cfg) && Inv(cfg, s) && IsPid(cfg, p) && Enabled(cfg, s, Run(p)) && s.procs[p].pc.Accumulate?
    ensures ProcInv(cfg, Apply(cfg, s, Run(p)), p)
  {
    hide DataInv;
    assert ProcInv(cfg, s, p);
    var k := s.procs[p].pc.k;
    ReadsInput(cfg, s, p, k);
    assert AddBlocks(cfg.add, s.data[Cell(k, p)], s.procs[p].cal) == OutAfter(cfg, p, k);
    assert k + 1 < cfg.ranks ==> CalBefore(cfg, p, k + 1) == CopyBack(OutAfter(cfg, p, k), CalBefore(cfg, p, k));
  }

  lemma RunKeepsSelf<T(!new)>(cfg: Config<T>, s: State<T>, p: Pid)
    requires Good(cfg) && Inv(cfg, s) && IsPid(cfg, p) && Enabled(cfg, s, Run(p))
    ensures ProcInv(cfg, Apply(cfg, s, Run(p)), p)
  {
    assert ProcInv(cfg, s, p);
    if s.procs[p].pc.Accumulate? {
      AccumulateStep(cfg, s, p);
    } else {
      hide OutAfter, AddBlocks, CopyBack, DataInv;
      if s.procs[p].pc.Load0? { ReadsInput(cfg, s, p, 0); }
    }
  }

  lemma RunKeepsData<T(!new)>(cfg: Config<T>, s: State<T>, p: Pid, i: nat, q: Pid)
    requires Good(cfg) && Inv(cfg, s) && IsPid(cfg, p) && Enabled(cfg, s, Run(p)) && i < cfg.ranks && IsPid(cfg, q)
    ensures DataInv(cfg, Apply(cfg, s, Run(p)), i, q)
  {
    assert ProcInv(cfg, s, p) && DataInv(cfg, s, i, q);
  }

  lemma RunKeepsInv<T(!new)>(cfg: Config<T>, s: State<T>, p: Pid)
    requires Good(cfg) && Inv(cfg, s) && IsPid(cfg, p) && Enabled(cfg, s, Run(p))
    ensures Inv(cfg, Apply(cfg, s, Run(p)))
  {
    var t := Apply(cfg, s, Run(p));
    forall q | IsPid(cfg, q)
      ensures ProcInv(cfg, t, q)
    {
      assert ProcInv(cfg, s, q);
      if q == p { RunKeepsSelf(cfg, s, p); } else { OtherKeeps(cfg, s, t, q); }
    }
    forall i: nat, q | i < cfg.ranks && IsPid(cfg, q)
      ensures DataInv(cfg, t, i, q)
    {
      RunKeepsData(cfg, s, p, i, q);
    }
  }

  /** A rank loads before any process has stored into it. */
  lemma LoadKeepsInv<T(!new)>(cfg: Config<T>, s: State<T>, i: nat)
    requires Good(cfg) && Inv(cfg, s) && Enabled(cfg, s, Load(i))
    ensures Inv(cfg, Apply(cfg, s, Load(i)))
  {
    var t := Apply(cfg, s, Load(i));
    forall q | IsPid(cfg, q)
      ensures ProcInv(cfg, t, q)
    {
      assert ProcInv(cfg, s, q);
      OtherKeeps(cfg, s, t, q);
    }
    forall j: nat, q | j < cfg.ranks && IsPid(cfg, q)
      ensures DataInv(cfg, t, j, q)
    {
      assert DataInv(cfg, s, j, q);
      assert PastWait1(s.procs[q].pc) ==> i in s.loaded by {
        if PastWait1(s.procs[q].pc) { AllLoaded(cfg, s, q, i); }
      }
    }
  }

  lemma {:induction false} Always<T(!new)>(cfg: Config<T>, start: State<T>, actions: seq<Action>, s: State<T>)
    requires Good(cfg) && Start(cfg, start) && Reaches(cfg, start, actions, s)
    ensures Inv(cfg, s)
    decreases |actions|
  {
    if actions == [] {
    } else {
      var n := |actions| - 1;
      var q: State<T> :| Reaches(cfg, start, actions[..n], q) && Typed(cfg, q) && Enabled(cfg, q, actions[n]) &&
        s == Apply(cfg, q, actions[n]);
      Always(cfg, start, actions[..n], q);
      match actions[n]
      case Load(i) => LoadKeepsInv(cfg, q, i);
      case Run(p) => RunKeepsInv(cfg, q, p);
    }
  }

  // ---- main results

  /** In every run, when any process reads or writes a block every rank has loaded its input. */
  lemma NoEarlyAccess<T(!new)>(cfg: Config<T>, start: State<T>, actions: seq<Action>, s: State<T>, p: Pid, i: nat)
    requires Good(cfg) && Start(cfg, start) && Reaches(cfg, start, actions, s)
    requires IsPid(cfg, p) && i < cfg.ranks
    ensures Typed(cfg, s)
    ensures PastWait1(s.procs[p].pc) ==> i in s.loaded
    ensures s.procs[p].pc.Accumulate? ==> s.data[Cell(i, p)] == cfg.input[Cell(i, p)]
  {
    Always(cfg, start, actions, s);
    if PastWait1(s.procs[p].pc) { AllLoaded(cfg, s, p, i); }
    if s.procs[p].pc.Accumulate? { ReadsInput(cfg, s, p, i); }
  }

  /** In every run, once all cores of one rank have finished, every rank holds the same
      result in every block. */
  lemma AllRanksAgree<T(!new)>(cfg: Config<T>, start: State<T>, actions: seq<Action>, s: State<T>, r: nat, i: nat,
                               p: Pid)
    requires Good(cfg) && Start(cfg, start) && Reaches(cfg, start, actions, s)
    requires r < cfg.ranks && i < cfg.ranks && IsPid(cfg, p)
    requires Typed(cfg, s) && forall c: nat :: c < cfg.cores ==> s.procs[Pid(r, c)].pc == Done
    ensures s.data[Cell(i, p)] == Result(cfg, p)
  {
    Always(cfg, start, actions, s);
    assert ProcInv(cfg, s, Pid(r, p.core));
    assert Pid(p.rank, p.core) in s.flag2;
    assert ProcInv(cfg, s, p);
    AllLoaded(cfg, s, p, i);
    assert DataInv(cfg, s, i, p);
  }

  /** In every run, as long as some process has not finished, some step is possible. */
  lemma NoDeadlock<T(!new)>(cfg: Config<T>, start: State<T>, actions: seq<Action>, s: State<T>, p: Pid)
    returns (a: Action)
    requires Good(cfg) && Start(cfg, start) && Reaches(cfg, start, actions, s)
    requires IsPid(cfg, p) && Typed(cfg, s) && s.procs[p].pc != Done
    ensures Enabled(cfg, s, a)
  {
    Always(cfg, start, actions, s);
    a := Unblocked(cfg, s, p);
  }

  lemma Unblocked<T(!new)>(cfg: Config<T>, s: State<T>, p: Pid) returns (a: Action)
    requires Good(cfg) && Inv(cfg, s) && IsPid(cfg, p) && s.procs[p].pc != Done
    ensures Enabled(cfg, s, a)
  {
    a := Run(p);
    assert ProcInv(cfg, s, p);
    match s.procs[p].pc
    case Idle => a := if p.rank in s.loaded then Run(p) else Load(p.rank);
    case Wait1(k) =>
      var o := Pid(k, p.core);
      assert ProcInv(cfg, s, o);
      if o !in s.flag1 { a := if k in s.loaded then Run(o) else Load(k); }
    case Wait2(k) =>
      var o := Pid(k, p.core);
      if o !in s.flag2 {
        AllLoaded(cfg, s, p, k);
        a := PastFlag1(cfg, s, p, o);
      }
    case Accumulate(k) => ReadsInput(cfg, s, p, k);
    case _ =>
  }

  /** Once all first flags of a core are set, a process of that core that has not set its
      second flag can step. */
  lemma PastFlag1<T(!new)>(cfg: Config<T>, s: State<T>, p: Pid, o: Pid) returns (a: Action)
    requires Good(cfg) && Inv(cfg, s) && IsPid(cfg, p) && IsPid(cfg, o) && o.core == p.core
    requires PastWait1(s.procs[p].pc) && o !in s.flag2
    ensures a == Run(o) && Enabled(cfg, s, a)
  {
    a := Run(o);
    assert ProcInv(cfg, s, p) && ProcInv(cfg, s, o);
    assert Pid(o.rank, p.core) == o && o in s.flag1;
    if s.procs[o].pc.Accumulate? { ReadsInput(cfg, s, o, s.procs[o].pc.k); }
  }

  /** How many steps a process has taken. */
  function Stage(pc: Pc, ranks: nat): nat {
    match pc
    case Idle => 0
    case Wait1(k) => 1 + k
    case Load0 => ranks + 1
    case Accumulate(k) => ranks + 1 + k
    case Store(k) => 2 * ranks + 1 + k
    case SetFlag2 => 3 * ranks + 1
    case Wait2(k) => 3 * ranks + 2 + k
    case Done => 4 * ranks + 2
  }

  lemma StepAdvances<T(!new)>(cfg: Config<T>, s: State<T>, a: Action, p: Pid, i: nat)
    requires Good(cfg) && Inv(cfg, s) && Enabled(cfg, s, a) && IsPid(cfg, p) && i < cfg.ranks
    ensures Stage(s.procs[p].pc, cfg.ranks) <= 4 * cfg.ranks + 2
    ensures Stage(Apply(cfg, s, a).procs[p].pc, cfg.ranks) == Stage(s.procs[p].pc, cfg.ranks) + if a == Run(p)
      then 1 else 0
    ensures i in Apply(cfg, s, a).loaded <==> i in s.loaded || a == Load(i)
    ensures a == Load(i) ==> i !in s.loaded
  {
    hide CalBefore, OutAfter, AddBlocks, CopyBack, DataInv;
    assert ProcInv(cfg, s, p);
  }

  lemma StageBound<T(!new)>(cfg: Config<T>, s: State<T>, p: Pid)
    requires Good(cfg) && Inv(cfg, s) && IsPid(cfg, p)
    ensures Stage(s.procs[p].pc, cfg.ranks) <= 4 * cfg.ranks + 2
  {
    assert ProcInv(cfg, s, p);
  }

  lemma FirstStage<T(!new)>(cfg: Config<T>, s: State<T>, p: Pid)
    requires Start(cfg, s) && IsPid(cfg, p)
    ensures Stage(s.procs[p].pc, cfg.ranks) == 0
  {
  }

  /** No run is endless: process p has taken exactly Stage steps, at most 4 * ranks + 2, and
      a rank has loaded at most once. */
  lemma {:induction false} StepsTaken<T(!new)>(cfg: Config<T>, start: State<T>, actions: seq<Action>, s: State<T>,
                                               p: Pid, i: nat)
    requires Good(cfg) && Start(cfg, start) && Reaches(cfg, start, actions, s) && IsPid(cfg, p) && i < cfg.ranks
    ensures Typed(cfg, s)
    ensures multiset(actions)[Run(p)] == Stage(s.procs[p].pc, cfg.ranks) <= 4 * cfg.ranks + 2
    ensures multiset(actions)[Load(i)] == (if i in s.loaded then 1 else 0)
    decreases |actions|
  {
    hide Apply, Stage, Enabled, ProcInv, DataInv;
    Always(cfg, start, actions, s);
    StageBound(cfg, s, p);
    if actions == [] {
      assert Stage(s.procs[p].pc, cfg.ranks) == 0 by { FirstStage(cfg, start, p); }
    } else {
      var n := |actions| - 1;
      var q: State<T> :| Reaches(cfg, start, actions[..n], q) && Typed(cfg, q) && Enabled(cfg, q, actions[n]) &&
        s == Apply(cfg, q, actions[n]);
      StepsTaken(cfg, start, actions[..n], q, p, i);
      Always(cfg, start, actions[..n], q);
      StepAdvances(cfg, q, actions[n], p, i);
      Compaction.CountLast(actions, Run(p));
      Compaction.CountLast(actions, Load(i));
    }
  }

  // ---- what the result is

  /** The fold of the ranks' elements in rank order. */
  ghost function Fold<T(!new)>(cfg: Config<T>, p: Pid, e: nat, k: nat): T
    requires Good(cfg) && IsPid(cfg, p) && e < cfg.len && k < cfg.ranks
  {
    if k == 0 then cfg.input[Cell(0, p)][e] else cfg.add(cfg.input[Cell(k, p)][e], Fold(cfg, p, e, k - 1))
  }

  lemma {:induction false} CalIs<T(!new)>(cfg: Config<T>, p: Pid, e: nat, k: nat)
    requires Good(cfg) && IsPid(cfg, p) && e < cfg.len && 1 <= k < cfg.ranks
    ensures CalBefore(cfg, p, k)[e] == Fold(cfg, p, e, if e < cfg.len / COPY_MASK * COPY_MASK then k - 1 else 0)
    decreases k
  {
    if k == 1 {
    } else {
      CalIs(cfg, p, e, k - 1);
    }
  }

  /** Elements in whole groups of 128 hold the fold over all ranks; the elements after them
      hold only the first and the last rank's. */
  lemma ResultIs<T(!new)>(cfg: Config<T>, p: Pid, e: nat)
    requires Good(cfg) && IsPid(cfg, p) && e < cfg.len
    ensures Result(cfg, p)[e] ==
            if e < cfg.len / 128 * 128 then Fold(cfg, p, e, cfg.ranks - 1)
            else cfg.add(cfg.input[Cell(cfg.ranks - 1, p)][e], cfg.input[Cell(0, p)][e])
  {
    CalIs(cfg, p, e, cfg.ranks - 1);
  }

  /** The block length at which every element is folded over all ranks. */
  predicate ExactShape(ranks: nat, len: nat) { ranks == 2 || len % COPY_MASK == 0 }

  lemma ExactResult<T(!new)>(cfg: Config<T>, p: Pid, e: nat)
    requires Good(cfg) && IsPid(cfg, p) && e < cfg.len && ExactShape(cfg.ranks, cfg.len)
    ensures Result(cfg, p)[e] == Fold(cfg, p, e, cfg.ranks - 1)
  {
    ResultIs(cfg, p, e);
    assert cfg.ranks == 2 ==> Fold(cfg, p, e, 1) == cfg.add(cfg.input[Cell(1, p)][e], Fold(cfg, p, e, 0));
  }

  lemma {:induction false} OnesFold(cfg: Config<int>, p: Pid, e: nat, k: nat)
    requires Good(cfg) && IsPid(cfg, p) && e < cfg.len && k < cfg.ranks
    requires cfg.add == ((x: int, y: int) => x + y)
    requires forall i: nat :: i < cfg.ranks ==> cfg.input[Cell(i, p)][e] == 1
    ensures Fold(cfg, p, e, k) == k + 1
  {
    if k == 0 {
    } else {
      OnesFold(cfg, p, e, k - 1);
    }
  }

  /** Summing ones shows that the shape is exact: with any other shape the last element of
      the block is wrong. */
  lemma ExactIff(cfg: Config<int>, p: Pid)
    requires Good(cfg) && IsPid(cfg, p)
    requires cfg.add == ((x: int, y: int) => x + y)
    requires forall i: nat, e: nat :: i < cfg.ranks && e < cfg.len ==> cfg.input[Cell(i, p)][e] == 1
    ensures (forall e: nat :: e < cfg.len ==> Result(cfg, p)[e] == Fold(cfg, p, e, cfg.ranks - 1)) <==>
      cfg.ranks == 2 || cfg.len % 128 == 0
  {
    if ExactShape(cfg.ranks, cfg.len) {
      forall e: nat | e < cfg.len
        ensures Result(cfg, p)[e] == Fold(cfg, p, e, cfg.ranks - 1)
      {
        ExactResult(cfg, p, e);
      }
    } else {
      var e := cfg.len - 1;
      ResultIs(cfg, p, e);
      OnesFold(cfg, p, e, cfg.ranks - 1);
      assert Result(cfg, p)[e] == 2;
    }
  }

  /** In every run, once one rank has finished, every element at every rank is the fold of
      the inputs in rank order, provided the shape is exact. */
  lemma AllReduced<T(!new)>(cfg: Config<T>, start: State<T>, actions: seq<Action>, s: State<T>, r: nat, i: nat,
                            p: Pid, e: nat)
    requires Good(cfg) && Start(cfg, start) && Reaches(cfg, start, actions, s)
    requires r < cfg.ranks && i < cfg.ranks && IsPid(cfg, p) && e < cfg.len
    requires cfg.ranks == 2 || cfg.len % 128 == 0
    requires Typed(cfg, s) && forall c: nat :: c < cfg.cores ==> s.procs[Pid(r, c)].pc == Done
    ensures |s.data[Cell(i, p)]| == cfg.len && s.data[Cell(i, p)][e] == Fold(cfg, p, e, cfg.ranks - 1)
  {
    AllRanksAgree(cfg, start, actions, s, r, i, p);
    ExactResult(cfg, p, e);
  }

  // ---- the blocks of the original layout

  const TOTAL_LENGTH: nat := 32768
  const USE_CORE_NUM: nat := 8

  function BlockIndex(p: Pid): nat { USE_CORE_NUM * p.rank + p.core }

  /** Every block index has exactly one owning process. */
  lemma OneOwner(ranks: nat, b: nat)
    requires b < 8 * ranks
    ensures var p := Pid(b / 8, b % 8);
            && p.rank < ranks && BlockIndex(p) == b
            && forall q: Pid :: q.core < 8 && BlockIndex(q) == b ==> q == p
  {
  }

  /** The blocks cover the whole data exactly when eight blocks per rank divide it. */
  lemma BlocksCover(total: nat, ranks: nat)
    requires ranks > 0
    ensures USE_CORE_NUM * ranks * (total / ranks / USE_CORE_NUM) == total <==> total % (8 * ranks) == 0
  {
    var share := total / ranks;
    var len, b := share / USE_CORE_NUM, share % USE_CORE_NUM;
    assert share == USE_CORE_NUM * len + b && total == ranks * share + total % ranks;
    Distribute(ranks, len, b);
    Remainder(total, USE_CORE_NUM * ranks, len, ranks * b + total % ranks);
  }

  lemma Distribute(r: int, len: int, b: int)
    requires r > 0 && 0 <= b < USE_CORE_NUM
    ensures r * (USE_CORE_NUM * len + b) == USE_CORE_NUM * r * len + r * b && 0 <= r * b <= USE_CORE_NUM * r - r
  {
    Split(r, USE_CORE_NUM * len, b);
    Split(r, USE_CORE_NUM - 1 - b, b);
    NotNegative(r, b);
    NotNegative(r, USE_CORE_NUM - 1 - b);
    assert r * (USE_CORE_NUM * len) == USE_CORE_NUM * r * len;
  }

  lemma Split(r: int, x: int, y: int)
    ensures r * (x + y) == r * x + r * y
  {
  }

  lemma NotNegative(r: int, x: int)
    requires r >= 0 && x >= 0
    ensures r * x >= 0
  {
  }

  lemma Remainder(x: int, n: int, q: int, r: int)
    requires n > 0 && x == n * q + r && 0 <= r < n
    ensures x % n == r
  {
    var d := x / n - q;
    Split(n, q, d);
    assert n * d == r - x % n;
    if d >= 1 { NotNegative(n, d - 1); Split(n, d - 1, 1); }
    if d <= -1 { NotNegative(n, 0 - d - 1); Split(n, 0 - d - 1, d + 1); Split(n, d, 1); }
  }

  /** With a power of two of ranks the blocks cover the whole data and the shape is exact. */
  lemma ProductionShape(ranks: nat)
    requires ranks in {2, 4, 8, 16, 32}
    ensures var len := TOTAL_LENGTH / ranks / USE_CORE_NUM;
      ranks * 8 * len == 32768 && (ranks == 2 || len % 128 == 0)
  {
  }
}
