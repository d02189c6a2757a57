/** Whole runs of the link's code: the linked queue on one side and the receive buffers on
    the other are played against any schedule of submissions, writes and reads. */
module MessagePlay {
  import opened MessageQueue
  import opened MessageFraming
  import opened MessageLink
  import opened MessageEndpoints

  type Event = MessageLink.Event

  // ---- what the socket lets happen

  function Least(a: int, b: int): int { if a < b then a else b }

  /** A socket reports no more than it was asked for and no more than it holds. */
  function FitReads(headerLeft: nat, head: seq<Byte>, bodyLeft: int, bytes: seq<Byte>, k1: nat, k2: nat): (nat, nat)
    requires |head| == HEADER_LEN - headerLeft && (headerLeft == 0 ==> bodyLeft >= 0)
  {
    if headerLeft == 0 then (k1, Least(k2, Least(bodyLeft, |bytes|)))
    else
      var j := Least(k1, Least(headerLeft, |bytes|));
      (j, if 0 < j == headerLeft then Least(k2, Least(Decode(head + bytes[..j]).bodyLen, |bytes| - j)) else k2)
  }

  lemma FitReadsIsRight(r: Recv, bytes: seq<Byte>, k1: nat, k2: nat)
    requires RecvOk(r)
    ensures var k := FitReads(r.headerLeft, r.head, r.bodyLeft, bytes, k1, k2); ReadSizes(r, bytes, k.0, k.1)
    ensures ReadSizes(r, bytes, k1, k2) ==> FitReads(r.headerLeft, r.head, r.bodyLeft, bytes, k1, k2) == (k1, k2)
  {
    hide Decode;
  }

  /** The event as it takes place: a full queue and an improper message refuse a submission,
      an idle sender writes nothing, and sizes are cut to what the socket can do. */
  ghost function Fit(s: Link, e: Event, cap: nat): (f: Option<Event>)
    requires WellFormed(s)
    ensures f.Some? ==> Enabled(s, f.value)
    ensures Enabled(s, e) && (e.Submit? ==> |s.queue| < cap) ==> f == Some(e)
  {
    match e
    case Submit(m) => if Sendable(m) && |s.queue| < cap then Some(e) else None
    case Write(w1, w2) =>
      if s.queue == [] then None
      else Some(Write(Least(w1, s.queue[0].headerLeft), Least(w2, s.queue[0].bodyLeft)))
    case Read(k1, k2) =>
      var bytes := s.emitted[s.taken..];
      var k := FitReads(s.recv.headerLeft, s.recv.head, s.recv.bodyLeft, bytes, k1, k2);
      FitReadsIsRight(s.recv, bytes, k1, k2);
      Some(Read(k.0, k.1))
  }

  datatype Played = Played(link: Link, lossless: bool)

  ghost function PlayOne(p: Played, e: Event, cap: nat): (t: Played)
    requires WellFormed(p.link)
    ensures WellFormed(t.link)
  {
    var f := Fit(p.link, e, cap);
    if f.None? then p else Played(Next(p.link, f.value), p.lossless && !Fails(p.link, f.value))
  }

  ghost function Play(events: seq<Event>, cap: nat): (p: Played)
    ensures WellFormed(p.link)
    decreases |events|
  {
    if events == [] then Played(START, true)
    else PlayOne(Play(events[..|events| - 1], cap), events[|events| - 1], cap)
  }

  /** Whatever is played is a run of the link. */
  lemma {:induction false} PlayIsRun(events: seq<Event>, cap: nat) returns (run: seq<Event>)
    ensures Reaches(run, Play(events, cap).link, Play(events, cap).lossless)
    decreases |events|
  {
    hide Next, Fit, Fails, Enabled, WellFormed;
    if events == [] {
      run := [];
    } else {
      var n := |events| - 1;
      var p := Play(events[..n], cap);
      run := PlayIsRun(events[..n], cap);
      var f := Fit(p.link, events[n], cap);
      if f.Some? {
        Extend(run, p.link, p.lossless, f.value);
        run := run + [f.value];
      }
    }
  }

  /** A run goes on by any event that can take place. */
  lemma Extend(run: seq<Event>, s: Link, lossless: bool, e: Event)
    requires Reaches(run, s, lossless) && WellFormed(s) && Enabled(s, e)
    ensures Reaches(run + [e], Next(s, e), lossless && !Fails(s, e))
  {
    hide Next, Fails, Enabled, WellFormed;
    var all := run + [e];
    assert all[..|all| - 1] == run && all[|all| - 1] == e;
  }

  /** Only what was submitted, and only what is not too long, is ever accepted. */
  lemma {:induction false} AcceptedWereSubmitted(events: seq<Event>, cap: nat)
    ensures forall m :: m in Play(events, cap).link.accepted ==> Submit(m) in events && |m.body| <= 67108864
    decreases |events|
  {
    hide PollIn, PollOut, OutOk, Fails;
    if events == [] {
    } else {
      var n := |events| - 1;
      AcceptedWereSubmitted(events[..n], cap);
      assert forall m :: Submit(m) in events[..n] ==> Submit(m) in events;
    }
  }

  /** Every run of the link is played, given a queue with room for its submissions. */
  lemma {:induction false} RunIsPlayed(events: seq<Event>, s: Link, lossless: bool, cap: nat)
    requires Reaches(events, s, lossless) && |events| <= cap
    ensures Play(events, cap) == Played(s, lossless) && |s.queue| <= |events|
    decreases |events|
  {
    hide PollOut, PollIn, WellFormed, Fails, Enabled;
    if events == [] {
    } else {
      var n := |events| - 1;
      var p: Link, l: bool :| Reaches(events[..n], p, l) && WellFormed(p) && Enabled(p, events[n]) &&
        s == Next(p, events[n]) && lossless == (l && !Fails(p, events[n]));
      RunIsPlayed(events[..n], p, l, cap);
    }
  }

  // ---- the code

  /** The code's state is the state of the link. */
  ghost predicate Mirrors(q: Queue, r: Receiver, wire: seq<Byte>, taken: nat, s: Link)
    reads q, q.nodes, r, r.header, r.data
  {
    && Sending(q) && r.Valid() && WellFormed(s)
    && Outs(q.nodes) == s.queue && r.Value() == s.recv && wire == s.emitted
    && taken == s.taken <= |wire|
  }

  method PlaySubmit(q: Queue, m: Message) returns (ok: bool)
    requires Sending(q)
    modifies q, q.nodes
    ensures Sending(q)
    ensures ok <==> Describes(m.header, m.body) && |m.body| <= 67108864 && |old(q.nodes)| < q.cap
    ensures ok ==> Sendable(m)
    ensures Outs(q.nodes) == if ok then old(Outs(q.nodes)) + [NewOut(m)] else old(Outs(q.nodes))
    ensures forall i :: 0 <= i < |q.nodes| ==> q.nodes[i] in old(q.nodes) || fresh(q.nodes[i])
  {
    hide Encode;
    if !Describes(m.header, m.body) {
      return false;
    }
    var status := EnqueueMessage(q, m.header, m.body);
    ok := status == Queued;
  }

  method PlayWrite(q: Queue, w1: int, w2: int) returns (bytes: seq<Byte>, failed: bool)
    requires Sending(q)
    modifies q, q.nodes
    ensures Sending(q) && forall n :: n in q.nodes ==> n in old(q.nodes)
    ensures old(q.nodes) == [] ==> bytes == [] && !failed && q.nodes == []
    ensures old(q.nodes) != [] ==> Wrote(old(Outs(q.nodes)), w1, w2, bytes, failed, Outs(q.nodes))
  {
    if q.size == 0 {
      return [], false;
    }
    ghost var outs := Outs(q.nodes);
    var v1, v2 := Least(w1, q.head.headerRemain), Least(w2, q.head.dataRemain);
    assert outs[0] == OutOf(q.nodes[0]);
    var status: PollStatus;
    status, bytes := HandlePollOut(q, v1, v2);
    failed := status == PollStatus.Status(WriteFailed);
  }

  ghost predicate Wrote(was: seq<Out>, w1: int, w2: int, bytes: seq<Byte>, failed: bool, now: seq<Out>) {
    was != [] && OutOk(was[0]) &&
    var r := PollOut(was[0], Least(w1, was[0].headerLeft), Least(w2, was[0].bodyLeft));
    bytes == r.bytes && failed == (r.status == WriteFailed) && now == LeftOver(r.left) + was[1..]
  }

  method PlayRead(r: Receiver, bytes: seq<Byte>, k1: nat, k2: nat) returns (used: nat, verdict: Verdict)
    requires r.Valid()
    modifies r, r.header, r.data
    ensures r.Valid() && (r.data == old(r.data) || fresh(r.data))
    ensures var v := old(r.Value());
      var k := FitReads(v.headerLeft, v.head, v.bodyLeft, bytes, k1, k2);
      ReadSizes(v, bytes, k.0, k.1) && RecvStep(r.Value(), used, verdict) == PollIn(v, bytes, k.0, k.1)
  {
    hide Decode, PollIn;
    FitReadsIsRight(r.Value(), bytes, k1, k2);
    var k := FitReads(r.headerLeft, r.header[..r.header.Length - r.headerLeft], r.bodyLeft, bytes, k1, k2);
    used, verdict := r.HandlePollIn(bytes, k.0, k.1);
  }

  /** The code from its initial state, under any schedule: queue, buffers, wire and histories
      are those of the link. Unless a write failed, what was handed up is a prefix of the
      accepted messages before the first empty body, and all of them once nothing moves. */
  method PlayRun(q: Queue, r: Receiver, events: seq<Event>)
    returns (accepted: seq<Message>, delivered: seq<Message>, lossless: bool)
    requires q.Valid() && q.nodes == [] && r.Valid() && r.Value() == FRESH
    modifies q, r, r.header, r.data
    ensures var p := Play(events, q.cap);
      && Sending(q) && r.Valid() && Outs(q.nodes) == p.link.queue && r.Value() == p.link.recv
      && accepted == p.link.accepted && delivered == p.link.delivered && lossless == p.lossless
    ensures lossless ==> delivered <= BeforeEmpty(accepted) <= accepted
    ensures forall m :: m in accepted ==> Submit(m) in events && |m.body| <= 67108864
    ensures lossless && Settled(Play(events, q.cap).link) ==> delivered == BeforeEmpty(accepted)
  {
    hide Mirrors, PlayOne, Reaches, Settled;
    var wire, taken := [], 0;
    accepted, delivered, lossless := [], [], true;
    ghost var p := Play([], q.cap);
    StartMirrors(q, r);
    assert events[..0] == [];
    for i := 0 to |events|
      invariant p == Play(events[..i], q.cap) && Mirrors(q, r, wire, taken, p.link) && lossless == p.lossless
      invariant accepted == p.link.accepted && delivered == p.link.delivered
      invariant fresh(q.nodes) && (r.data == old(r.data) || fresh(r.data))
    {
      assert events[..i + 1][..i] == events[..i];
      wire, taken, accepted, delivered, lossless :=
        PlayEvent(q, r, events[i], wire, taken, accepted, delivered, lossless, p);
      p := PlayOne(p, events[i], q.cap);
    }
    assert events[..|events|] == events;
    AcceptedWereSubmitted(events, q.cap);
    ghost var run := PlayIsRun(events, q.cap);
    if lossless { EndToEnd(run, p.link); }
    MirrorsMeans(q, r, wire, taken, p.link);
  }

  method PlayEvent(q: Queue, r: Receiver, e: Event, wire: seq<Byte>, taken: nat, accepted: seq<Message>,
                   delivered: seq<Message>, lossless: bool, ghost p: Played)
    returns (w: seq<Byte>, t: nat, a: seq<Message>, d: seq<Message>, l: bool)
    requires Mirrors(q, r, wire, taken, p.link) && lossless == p.lossless
    requires accepted == p.link.accepted && delivered == p.link.delivered
    modifies q, q.nodes, r, r.header, r.data
    ensures forall i :: 0 <= i < |q.nodes| ==> q.nodes[i] in old(q.nodes) || fresh(q.nodes[i])
    ensures r.data == old(r.data) || fresh(r.data)
    ensures WellFormed(p.link) && Mirrors(q, r, w, t, PlayOne(p, e, q.cap).link) && l == PlayOne(p, e, q.cap).lossless
    ensures a == PlayOne(p, e, q.cap).link.accepted && d == PlayOne(p, e, q.cap).link.delivered
  {
    hide PlayOne, PollIn, FitReads, Wrote, NewOut, ReadSizes, RecvOk, Sending, Outs;
    hide Receiver.Valid, Receiver.Value;
    w, t, a, d, l := wire, taken, accepted, delivered, lossless;
    match e {
      case Submit(m) =>
        var ok := PlaySubmit(q, m);
        if ok {
          a := accepted + [m];
        }
        SubmitMirrors(p, m, q.cap);
      case Write(w1, w2) =>
        var bytes, failed := PlayWrite(q, w1, w2);
        w := wire + bytes;
        l := lossless && !failed;
        WriteMirrors(p, w1, w2, q.cap, bytes, failed, Outs(q.nodes));
      case Read(k1, k2) =>
        var used, verdict := PlayRead(r, wire[taken..], k1, k2);
        t := taken + used;
        if verdict.MsgReady? {
          d := delivered + [verdict.message];
        }
        ReadMirrors(p, k1, k2, q.cap, RecvStep(r.Value(), used, verdict));
    }
  }

  lemma SubmitMirrors(p: Played, m: Message, cap: nat)
    requires WellFormed(p.link)
    ensures PlayOne(p, Submit(m), cap) ==
      if Sendable(m) && |p.link.queue| < cap
      then Played(p.link.(accepted := p.link.accepted + [m], queue := p.link.queue + [NewOut(m)]), p.lossless) else p
  {
    hide Sendable, NewOut, OutOk;
  }

  lemma ReadMirrors(p: Played, k1: nat, k2: nat, cap: nat, step: RecvStep)
    requires WellFormed(p.link)
    requires var v, bytes := p.link.recv, p.link.emitted[p.link.taken..];
      var k := FitReads(v.headerLeft, v.head, v.bodyLeft, bytes, k1, k2);
      ReadSizes(v, bytes, k.0, k.1) && step == PollIn(v, bytes, k.0, k.1)
    ensures var more := if step.verdict.MsgReady? then [step.verdict.message] else [];
      PlayOne(p, Read(k1, k2), cap) ==
        Played(p.link.(taken := p.link.taken + step.used, recv := step.next, delivered := p.link.delivered + more),
          p.lossless)
  {
    hide PollIn, FitReads, ReadSizes, Decode;
  }

  lemma WriteMirrors(p: Played, w1: int, w2: int, cap: nat, bytes: seq<Byte>, failed: bool, now: seq<Out>)
    requires WellFormed(p.link)
    requires p.link.queue == [] ==> bytes == [] && !failed && now == []
    requires p.link.queue != [] ==> Wrote(p.link.queue, w1, w2, bytes, failed, now)
    ensures PlayOne(p, Write(w1, w2), cap).link == p.link.(queue := now, emitted := p.link.emitted + bytes)
    ensures PlayOne(p, Write(w1, w2), cap).lossless == (p.lossless && !failed)
  {
    hide PollOut, OutOk;
    assert p.link.emitted + [] == p.link.emitted;
  }

  lemma StartMirrors(q: Queue, r: Receiver)
    requires q.Valid() && q.nodes == [] && r.Valid() && r.Value() == FRESH
    ensures Mirrors(q, r, [], 0, START)
  {
  }

  lemma MirrorsMeans(q: Queue, r: Receiver, wire: seq<Byte>, taken: nat, s: Link)
    requires Mirrors(q, r, wire, taken, s)
    ensures Sending(q) && r.Valid() && Outs(q.nodes) == s.queue && r.Value() == s.recv
  {
  }
}
