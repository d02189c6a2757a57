/** The non-blocking link: resumable sending and receiving over a byte stream, and runs of
    a sender and a receiver with arbitrary partial writes and reads. */
module MessageLink {
  import opened MessageQueue
  import opened MessageFraming

  datatype Option<T> = None | Some(value: T)

  // ---- the sender

  /** A queued message and how much of it is still to be written. */
  datatype Out = Out(header: seq<Byte>, body: seq<Byte>, headerLeft: nat, bodyLeft: nat)

  /** Queued nodes always have something left to write. */
  predicate OutOk(o: Out) {
    |o.header| == HEADER_LEN && o.headerLeft <= HEADER_LEN && o.bodyLeft <= |o.body| && o.headerLeft + o.bodyLeft > 0
  }

  function HeaderPending(o: Out): seq<Byte>
    requires o.headerLeft <= |o.header|
  {
    o.header[|o.header| - o.headerLeft..]
  }

  function BodyPending(o: Out): seq<Byte>
    requires o.bodyLeft <= |o.body|
  {
    o.body[|o.body| - o.bodyLeft..]
  }

  function Pending(o: Out): seq<Byte>
    requires OutOk(o)
  {
    HeaderPending(o) + BodyPending(o)
  }

  datatype SendStatus = MsgSent | SendAgain | WriteFailed

  /** One poll-out: what is left to push back, what reached the wire, and the outcome. */
  datatype SendStep = SendStep(left: Option<Out>, bytes: seq<Byte>, status: SendStatus)

  /** The two write results a poll-out may see: no write reports more than was asked. */
  predicate WriteSizes(o: Out, w1: int, w2: int) { w1 <= o.headerLeft && w2 <= o.bodyLeft }

  function SendBody(o: Out, w2: int, sent: seq<Byte>): SendStep
    requires OutOk(o) && w2 <= o.bodyLeft
  {
    if w2 <= 0 then SendStep(None, sent, WriteFailed)
    else if w2 < o.bodyLeft then SendStep(Some(o.(bodyLeft := o.bodyLeft - w2)), sent + BodyPending(o)[..w2], SendAgain)
    else SendStep(None, sent + BodyPending(o), MsgSent)
  }

  function PollOut(o: Out, w1: int, w2: int): SendStep
    requires OutOk(o) && WriteSizes(o, w1, w2)
  {
    if o.headerLeft > 0 then
      if w1 <= 0 then SendStep(None, [], WriteFailed)
      else if w1 < o.headerLeft then SendStep(Some(o.(headerLeft :=
        o.headerLeft - w1)), HeaderPending(o)[..w1], SendAgain)
      else if o.bodyLeft == 0 then SendStep(None, HeaderPending(o), MsgSent)
      else SendBody(o.(headerLeft := 0), w2, HeaderPending(o))
    else SendBody(o, w2, [])
  }

  function PendingOf(left: Option<Out>): seq<Byte>
    requires left.Some? ==> OutOk(left.value)
  {
    if left.Some? then Pending(left.value) else []
  }

  ghost predicate Conserved(o: Out, sent: seq<Byte>, r: SendStep)
    requires OutOk(o)
  {
    && (r.left.Some? ==> OutOk(r.left.value) && r.left.value.header == o.header && r.left.value.body == o.body)
    && (r.status != WriteFailed ==> r.bytes + PendingOf(r.left) == sent + Pending(o) && |r.bytes| > |sent|)
    && (r.status == WriteFailed ==> r.left == None && |r.bytes| < |sent| + |Pending(o)|)
  }

  lemma SendBodyConserves(o: Out, w2: int, sent: seq<Byte>)
    requires OutOk(o) && w2 <= o.bodyLeft && o.headerLeft == 0
    ensures Conserved(o, sent, SendBody(o, w2, sent))
  {
    var r, b := SendBody(o, w2, sent), BodyPending(o);
    OnlyBody(o);
    if r.left.Some? {
      OnlyBody(r.left.value);
      Recombine(sent, b, w2);
      assert BodyPending(r.left.value) == b[w2..];
    } else {
      assert r.bytes + [] == r.bytes;
    }
  }

  lemma OnlyBody(o: Out)
    requires OutOk(o) && o.headerLeft == 0
    ensures Pending(o) == BodyPending(o)
  {
    assert HeaderPending(o) == [];
  }

  lemma Recombine(a: seq<Byte>, b: seq<Byte>, w: nat)
    requires w <= |b|
    ensures (a + b[..w]) + b[w..] == a + b
  {
  }

  lemma HeaderFails(o: Out)
    requires OutOk(o)
    ensures Conserved(o, [], SendStep(None, [], WriteFailed))
  {
  }

  lemma HeaderPart(o: Out, w1: int)
    requires OutOk(o) && 0 < w1 < o.headerLeft
    ensures Conserved(o, [], SendStep(Some(o.(headerLeft := o.headerLeft - w1)), HeaderPending(o)[..w1], SendAgain))
  {
    var rest := o.(headerLeft := o.headerLeft - w1);
    assert HeaderPending(rest) == HeaderPending(o)[w1..] && BodyPending(rest) == BodyPending(o);
    assert HeaderPending(o)[..w1] + (HeaderPending(o)[w1..] + BodyPending(o)) == [] + Pending(o);
  }

  lemma HeaderAll(o: Out)
    requires OutOk(o) && o.headerLeft > 0 && o.bodyLeft == 0
    ensures Conserved(o, [], SendStep(None, HeaderPending(o), MsgSent))
  {
    assert HeaderPending(o) + [] == [] + Pending(o);
  }

  /** Bytes are conserved by a poll-out, unless a write failed: then some are lost for good. */
  lemma PollOutConserves(o: Out, w1: int, w2: int)
    requires OutOk(o) && WriteSizes(o, w1, w2)
    ensures Conserved(o, [], PollOut(o, w1, w2))
  {
    hide SendBody, Conserved, Pending, HeaderPending;
    if o.headerLeft == 0 {
      SendBodyConserves(o, w2, []);
    } else if w1 <= 0 {
      HeaderFails(o);
    } else if w1 < o.headerLeft {
      HeaderPart(o, w1);
    } else if o.bodyLeft == 0 {
      HeaderAll(o);
    } else {
      var b := o.(headerLeft := 0);
      SendBodyConserves(b, w2, HeaderPending(o));
      HeaderThenRest(o, b);
      Prepend(o, b, HeaderPending(o), SendBody(b, w2, HeaderPending(o)));
    }
  }

  /** How many header and body bytes the two writes of a poll-out hand over. */
  function HeaderTaken(w1: int): nat { if w1 > 0 then w1 else 0 }

  function BodyTaken(o: Out, w1: int, w2: int): nat { if HeaderTaken(w1) == o.headerLeft && w2 > 0 then w2 else 0 }

  /** A poll-out writes what the socket takes of the header and, once the header is complete,
      in the same call what it takes of the body. The message is sent exactly if both were
      taken to the end, and the write failed exactly if nothing was taken of the header, or
      of the body after it. */
  lemma PollOutExact(o: Out, w1: int, w2: int)
    requires OutOk(o) && WriteSizes(o, w1, w2)
    ensures var r, n1, n2 := PollOut(o, w1, w2), HeaderTaken(w1), BodyTaken(o, w1, w2);
      && r.bytes == o.header[16 - o.headerLeft..][..n1] + o.body[|o.body| - o.bodyLeft..][..n2]
      && |r.bytes| == n1 + n2
      && (r.status == MsgSent <==> n1 == o.headerLeft && n2 == o.bodyLeft)
      && (r.status == WriteFailed <==> if o.headerLeft > 0 && w1 <= 0 then true
            else n1 == o.headerLeft && o.bodyLeft > 0 && w2 <= 0)
      && (r.left.Some? <==> r.status == SendAgain)
      && (r.left.Some? ==> r.left.value == o.(headerLeft := o.headerLeft - n1, bodyLeft := o.bodyLeft - n2))
  {
    var h, b, n1, n2 := HeaderPending(o), BodyPending(o), HeaderTaken(w1), BodyTaken(o, w1, w2);
    Ends(h, n1);
    Ends(b, n2);
    if n2 == 0 { assert h[..n1] + b[..n2] == h[..n1]; }
    if n1 == 0 { assert h[..n1] + b[..n2] == b[..n2]; }
  }

  lemma Ends(s: seq<Byte>, n: nat)
    requires n <= |s|
    ensures (n == 0 ==> s[..n] == []) && (n == |s| ==> s[..n] == s)
  {
  }

  lemma HeaderThenRest(o: Out, b: Out)
    requires OutOk(o) && OutOk(b) && b == o.(headerLeft := 0)
    ensures HeaderPending(o) + Pending(b) == Pending(o)
  {
    OnlyBody(b);
  }

  lemma Prepend(o: Out, b: Out, sent: seq<Byte>, r: SendStep)
    requires OutOk(o) && OutOk(b) && b.header == o.header && b.body == o.body && sent + Pending(b) == Pending(o)
    requires Conserved(b, sent, r)
    ensures Conserved(o, [], r)
  {
    hide Pending;
    assert [] + Pending(o) == Pending(o);
  }

  ghost function PendingAll(q: seq<Out>): seq<Byte>
    requires forall i :: 0 <= i < |q| ==> OutOk(q[i])
  {
    if q == [] then [] else Pending(q[0]) + PendingAll(q[1..])
  }

  lemma {:induction false} PendingAppend(q: seq<Out>, o: Out)
    requires (forall i :: 0 <= i < |q| ==> OutOk(q[i])) && OutOk(o)
    ensures PendingAll(q + [o]) == PendingAll(q) + Pending(o)
  {
    if q == [] {
      assert [o][1..] == [];
    } else {
      assert (q + [o])[1..] == q[1..] + [o];
      PendingAppend(q[1..], o);
    }
  }

  // ---- the receiver

  /** What has been received of the message in progress. */
  datatype Recv = Recv(headerLeft: nat, head: seq<Byte>, bodyLeft: int, got: seq<Byte>)

  const FRESH: Recv := Recv(HEADER_LEN, [], -1, [])

  predicate RecvOk(r: Recv) {
    && r.headerLeft <= HEADER_LEN && |r.head| == HEADER_LEN - r.headerLeft
    && if r.headerLeft > 0 then r.bodyLeft == -1 && r.got == [] else BodyOk(r)
  }

  /** With a complete header, the body is as long as announced and not yet complete. */
  predicate BodyOk(r: Recv)
    requires |r.head| == HEADER_LEN
  {
    && r.bodyLeft >= 0 && Decode(r.head).bodyLen == |r.got| + r.bodyLeft <= MAX_RECV_BODY_LEN
    && (r.got == [] || r.bodyLeft > 0)
  }

  function Partial(r: Recv): seq<Byte> { r.head + r.got }

  datatype Verdict = MsgReady(message: Message) | RecvAgain | MallocFail

  datatype RecvStep = RecvStep(next: Recv, used: nat, verdict: Verdict)

  /** A read of n > 0 bytes returns between 1 and n of the available ones; a read that finds
      nothing, or asks for nothing, returns 0 here. */
  predicate ReadSize(k: nat, asked: int, available: nat) { k <= available && k <= asked }

  function RecvBody(r: Recv, bytes: seq<Byte>, k: nat, used: nat): RecvStep
    requires RecvOk(r) && r.headerLeft == 0 && ReadSize(k, r.bodyLeft, |bytes|)
  {
    if k == 0 then RecvStep(r, used, RecvAgain)
    else if k == r.bodyLeft then RecvStep(FRESH, used + k, MsgReady(Message(Decode(r.head), r.got + bytes[..k])))
    else RecvStep(r.(bodyLeft := r.bodyLeft - k, got := r.got + bytes[..k]), used + k, RecvAgain)
  }

  function HeaderRead(r: Recv, bytes: seq<Byte>, k1: nat): (h: Recv)
    requires RecvOk(r) && 0 < k1 && ReadSize(k1, r.headerLeft, |bytes|)
  {
    var head := r.head + bytes[..k1];
    if k1 < r.headerLeft then r.(headerLeft := r.headerLeft - k1, head := head)
    else Recv(0, head, Decode(head).bodyLen, [])
  }

  /** The reads of one poll-in are allowed by what is asked and what is available. */
  predicate ReadSizes(r: Recv, bytes: seq<Byte>, k1: nat, k2: nat)
    requires RecvOk(r)
  {
    && (r.headerLeft == 0 ==> ReadSize(k2, r.bodyLeft, |bytes|))
    && (r.headerLeft > 0 ==> ReadSize(k1, r.headerLeft, |bytes|))
    && (0 < k1 == r.headerLeft ==> ReadSize(k2, HeaderRead(r, bytes, k1).bodyLeft, |bytes| - k1))
  }

  /** One poll-in on the bytes available: header first, then body in the same call. */
  function PollIn(r: Recv, bytes: seq<Byte>, k1: nat, k2: nat): RecvStep
    requires RecvOk(r) && ReadSizes(r, bytes, k1, k2)
  {
    if r.headerLeft == 0 then RecvBody(r, bytes, k2, 0)
    else if k1 == 0 then RecvStep(r, 0, RecvAgain)
    else
      var h := HeaderRead(r, bytes, k1);
      if h.headerLeft > 0 then RecvStep(h, k1, RecvAgain)
      else if h.bodyLeft > MAX_RECV_BODY_LEN then RecvStep(FRESH, k1, MallocFail)
      else RecvBody(h, bytes[k1..], k2, k1)
  }

  /** A message as parsed from exactly these bytes. */
  ghost predicate ParsedFrom(m: Message, bytes: seq<Byte>) {
    && |bytes| > HEADER_LEN && m.header == Decode(bytes[..HEADER_LEN]) && m.body == bytes[HEADER_LEN..]
    && m.header.bodyLen == |m.body| <= MAX_RECV_BODY_LEN
  }

  /** A complete header that announces too long a body. */
  predicate Oversized(bytes: seq<Byte>) { |bytes| == HEADER_LEN && Decode(bytes).bodyLen > MAX_RECV_BODY_LEN }

  /** Received bytes are conserved: they make up the message handed up or are still held. */
  ghost predicate Received(r: Recv, bytes: seq<Byte>, s: RecvStep) {
    && s.used <= |bytes| && RecvOk(s.next)
    && (s.verdict == RecvAgain ==> Partial(s.next) == Partial(r) + bytes[..s.used])
    && (s.verdict.MsgReady? ==> s.next == FRESH && ParsedFrom(s.verdict.message, Partial(r) + bytes[..s.used]))
    && (s.verdict == MallocFail ==> Oversized(Partial(r) + bytes[..s.used]))
  }

  lemma RecvBodyConserves(r: Recv, bytes: seq<Byte>, k: nat)
    requires RecvOk(r) && r.headerLeft == 0 && ReadSize(k, r.bodyLeft, |bytes|)
    ensures Received(r, bytes, RecvBody(r, bytes, k, 0))
  {
    hide Decode;
    var s, all := RecvBody(r, bytes, k, 0), Partial(r) + bytes[..k];
    assert all[..HEADER_LEN] == r.head && all[HEADER_LEN..] == r.got + bytes[..k];
  }

  lemma HeaderThenBody(r: Recv, bytes: seq<Byte>, k1: nat, h: Recv, s: RecvStep)
    requires k1 <= |bytes| && Received(h, bytes[k1..], s) && Partial(h) == Partial(r) + bytes[..k1]
    requires s.verdict != MallocFail
    ensures Received(r, bytes, s.(used := k1 + s.used))
  {
    hide Decode, RecvOk;
    assert Partial(h) + bytes[k1..][..s.used] == Partial(r) + bytes[..k1 + s.used];
  }

  lemma HeaderOnly(r: Recv, bytes: seq<Byte>, k1: nat)
    requires RecvOk(r) && 0 < k1 && ReadSize(k1, r.headerLeft, |bytes|)
    ensures var h := HeaderRead(r, bytes, k1);
      Partial(h) == Partial(r) + bytes[..k1] && |h.head| == HEADER_LEN - h.headerLeft
    ensures var h := HeaderRead(r, bytes, k1);
      h.headerLeft == 0 ==> Partial(r) + bytes[..k1] == h.head && h.bodyLeft == Decode(h.head).bodyLen
    ensures var h := HeaderRead(r, bytes, k1); h.headerLeft > 0 || h.bodyLeft <= MAX_RECV_BODY_LEN ==> RecvOk(h)
  {
    hide Decode;
  }

  lemma PollInConserves(r: Recv, bytes: seq<Byte>, k1: nat, k2: nat)
    requires RecvOk(r) && ReadSizes(r, bytes, k1, k2)
    ensures Received(r, bytes, PollIn(r, bytes, k1, k2))
  {
    hide Decode;
    if r.headerLeft == 0 {
      RecvBodyConserves(r, bytes, k2);
    } else if k1 > 0 {
      var h := HeaderRead(r, bytes, k1);
      HeaderOnly(r, bytes, k1);
      if h.headerLeft == 0 && h.bodyLeft <= MAX_RECV_BODY_LEN {
        hide Received;
        RecvBodyConserves(h, bytes[k1..], k2);
        HeaderThenBody(r, bytes, k1, h, RecvBody(h, bytes[k1..], k2, 0));
      }
    }
  }

  /** What the reads of a poll-in make of the bytes they return, told by their sizes alone:
      the header is complete once its last byte is read; a body longer than 64 MiB is refused
      there and then; a message is ready exactly when its last body byte is read. */
  lemma PollInExact(r: Recv, bytes: seq<Byte>, k1: nat, k2: nat)
    requires RecvOk(r) && ReadSizes(r, bytes, k1, k2)
    ensures var s, n1 := PollIn(r, bytes, k1, k2), if r.headerLeft > 0 then k1 else 0;
      var head := r.head + bytes[..n1];
      if |head| < 16 then s == RecvStep(Recv(16 - |head|, head, -1, []), n1, RecvAgain)
      else
        var length := Decode(head).bodyLen;
        if r.headerLeft > 0 && length > 67108864 then s == RecvStep(FRESH, n1, MallocFail)
        else
          var body := r.got + bytes[n1..][..k2];
          && s.used == n1 + k2 && |body| <= length <= 67108864
          && (s.verdict.MsgReady? <==> |body| == length && k2 > 0)
          && (s.verdict.MsgReady? ==> s.verdict.message == Message(Decode(head), body) && s.next == FRESH)
          && (!s.verdict.MsgReady? ==> s.verdict == RecvAgain && s.next == Recv(0, head, length - |body|, body))
  {
    hide Decode;
    if r.headerLeft == 0 {
      assert r.head + bytes[..0] == r.head && bytes[0..] == bytes;
    } else if k1 == 0 {
      assert r.head + bytes[..0] == r.head;
    } else {
      var h := HeaderRead(r, bytes, k1);
      HeaderOnly(r, bytes, k1);
      if h.headerLeft == 0 && h.bodyLeft <= 67108864 { assert [] + bytes[k1..][..k2] == bytes[k1..][..k2]; }
    }
    assert r.got + bytes[0..][..0] == r.got;
  }

  /** The header of an empty body has been read. */
  predicate Stuck(r: Recv) { r.headerLeft == 0 && r.bodyLeft == 0 }

  /** A read of zero bytes returns 0, which is never taken for a completed body. */
  lemma EmptyBodyStep(r: Recv, bytes: seq<Byte>, k1: nat, k2: nat)
    requires RecvOk(r) && Stuck(r) && ReadSizes(r, bytes, k1, k2)
    ensures PollIn(r, bytes, k1, k2) == RecvStep(r, 0, RecvAgain)
  {
  }

  lemma HeaderArrives(bytes: seq<Byte>, h: Header)
    requires HeaderOk(h) && Encode(h) <= bytes
    ensures HeaderRead(FRESH, bytes, 16) == Recv(0, Encode(h), h.bodyLen, [])
  {
    hide Encode, Decode;
    HeaderRoundTrip(h);
    assert bytes[..16] == Encode(h);
    assert [] + bytes[..16] == bytes[..16];
  }

  /** A message with a body of 1 to 67108864 bytes that arrives whole is handed up at once. */
  lemma MessageArrives(bytes: seq<Byte>, m: Message)
    requires HeaderOk(m.header) && m.header.bodyLen == |m.body| && 1 <= |m.body| <= 67108864
    requires Encode(m.header) + m.body <= bytes
    ensures ReadSizes(FRESH, bytes, 16, |m.body|)
    ensures PollIn(FRESH, bytes, 16, |m.body|) == RecvStep(FRESH, 16 + |m.body|, MsgReady(m))
  {
    hide Encode, Decode;
    HeaderArrives(bytes, m.header);
    HeaderRoundTrip(m.header);
    var all := Encode(m.header) + m.body;
    assert bytes[16..][..|m.body|] == all[16..] == m.body;
    assert [] + m.body == m.body;
  }

  /** A header of a foreign peer that announces more is refused, and what follows it is read
      as the next header. */
  lemma OversizedIsRefused(bytes: seq<Byte>, h: Header, k2: nat)
    requires HeaderOk(h) && h.bodyLen >= 67108865 && Encode(h) <= bytes && ReadSizes(FRESH, bytes, 16, k2)
    ensures PollIn(FRESH, bytes, 16, k2) == RecvStep(Recv(16, [], -1, []), 16, MallocFail)
  {
    hide Encode, Decode;
    HeaderArrives(bytes, h);
  }

  // ---- the whole link

  /** accepted and delivered are histories; emitted is every byte ever written and taken how
      many of them the receiver has read. */
  datatype Link = Link(accepted: seq<Message>, queue: seq<Out>, emitted: seq<Byte>, taken: nat, recv: Recv,
    delivered: seq<Message>)

  const START: Link := Link([], [], [], 0, FRESH, [])

  datatype Event = Submit(message: Message) | Write(w1: int, w2: int) | Read(k1: nat, k2: nat)

  ghost predicate WellFormed(s: Link) {
    && AllSendable(s.accepted) && (forall i :: 0 <= i < |s.queue| ==> OutOk(s.queue[i]))
    && s.taken <= |s.emitted| && RecvOk(s.recv)
  }

  /** Submissions keep the link's own checks, writes and reads their sizes. */
  ghost predicate Enabled(s: Link, e: Event)
    requires WellFormed(s)
  {
    match e
    case Submit(m) => Sendable(m)
    case Write(w1, w2) => s.queue != [] && WriteSizes(s.queue[0], w1, w2)
    case Read(k1, k2) => ReadSizes(s.recv, s.emitted[s.taken..], k1, k2)
  }

  function NewOut(m: Message): Out
    requires Sendable(m)
  {
    Out(Encode(m.header), m.body, HEADER_LEN, |m.body|)
  }

  ghost function Next(s: Link, e: Event): (t: Link)
    requires WellFormed(s) && Enabled(s, e)
    ensures WellFormed(t)
  {
    match e
    case Submit(m) => s.(accepted := s.accepted + [m], queue := s.queue + [NewOut(m)])
    case Write(w1, w2) =>
      var r := PollOut(s.queue[0], w1, w2);
      PollOutConserves(s.queue[0], w1, w2);
      s.(queue := (if r.left.Some? then [r.left.value] else []) + s.queue[1..], emitted := s.emitted + r.bytes)
    case Read(k1, k2) =>
      var r := PollIn(s.recv, s.emitted[s.taken..], k1, k2);
      PollInConserves(s.recv, s.emitted[s.taken..], k1, k2);
      s.(taken := s.taken + r.used, recv := r.next,
         delivered := s.delivered + if r.verdict.MsgReady? then [r.verdict.message] else [])
  }

  ghost predicate Fails(s: Link, e: Event)
    requires WellFormed(s) && Enabled(s, e)
  {
    e.Write? && PollOut(s.queue[0], e.w1, e.w2).status == WriteFailed
  }

  /** s is reached from the start by these events; lossless if no write failed. */
  ghost predicate Reaches(events: seq<Event>, s: Link, lossless: bool)
    decreases |events|
  {
    if events == [] then s == START && lossless
    else
      var n := |events| - 1;
      exists p: Link, l: bool :: Reaches(events[..n], p, l) && WellFormed(p) && Enabled(p, events[n]) &&
        s == Next(p, events[n]) && lossless == (l && !Fails(p, events[n]))
  }

  // ---- the sending side

  ghost predicate NothingLost(s: Link)
    requires WellFormed(s)
  {
    s.emitted + PendingAll(s.queue) == Stream(s.accepted)
  }

  ghost predicate SomethingLost(s: Link)
    requires WellFormed(s)
  {
    |s.emitted| + |PendingAll(s.queue)| < |Stream(s.accepted)|
  }

  lemma NewOutIsFrame(m: Message)
    requires Sendable(m)
    ensures OutOk(NewOut(m)) && Pending(NewOut(m)) == Frame(m)
  {
  }

  lemma SubmitKeeps(s: Link, m: Message)
    requires WellFormed(s) && Sendable(m)
    ensures NothingLost(s) ==> NothingLost(Next(s, Submit(m)))
    ensures SomethingLost(s) ==> SomethingLost(Next(s, Submit(m)))
    ensures Stream(s.accepted) <= Stream(Next(s, Submit(m)).accepted)
  {
    hide Stream, PendingAll, Pending, Frame;
    NewOutIsFrame(m);
    StreamAppend(s.accepted, m);
    PendingAppend(s.queue, NewOut(m));
  }

  /** Writing without a failure keeps the byte balance; a failed write breaks it. */
  lemma WriteBalance(s: Link, w1: int, w2: int)
    requires WellFormed(s) && Enabled(s, Write(w1, w2))
    ensures var t := Next(s, Write(w1, w2));
      && (!Fails(s, Write(w1, w2)) ==> t.emitted + PendingAll(t.queue) == s.emitted + PendingAll(s.queue))
      && (Fails(s, Write(w1, w2)) ==> |t.emitted| + |PendingAll(t.queue)| < |s.emitted| + |PendingAll(s.queue)|)
      && s.emitted <= t.emitted
  {
    hide Pending, PollOut;
    var o, rest := s.queue[0], s.queue[1..];
    var r, t := PollOut(o, w1, w2), Next(s, Write(w1, w2));
    PollOutConserves(o, w1, w2);
    if r.left.Some? {
      assert t.queue[0] == r.left.value && t.queue[1..] == rest;
    } else {
      assert t.queue == rest;
      assert [] + PendingAll(rest) == PendingAll(rest);
    }
    assert PendingAll(t.queue) == PendingOf(r.left) + PendingAll(rest);
    if r.status != WriteFailed {
      assert [] + Pending(o) == Pending(o);
      Rebalance(s.emitted, r.bytes, PendingOf(r.left), Pending(o), PendingAll(rest));
    }
  }

  lemma Rebalance(e: seq<Byte>, bytes: seq<Byte>, left: seq<Byte>, pending: seq<Byte>, rest: seq<Byte>)
    requires bytes + left == pending
    ensures (e + bytes) + (left + rest) == e + (pending + rest)
  {
    assert (e + bytes) + (left + rest) == e + ((bytes + left) + rest);
  }

  /** In every run the bytes written and pending are exactly the frames of the accepted
      messages if and only if no write failed. */
  lemma {:induction false} NothingLostIff(events: seq<Event>, s: Link, lossless: bool)
    requires Reaches(events, s, lossless)
    ensures WellFormed(s)
    ensures if lossless then NothingLost(s) else SomethingLost(s)
    decreases |events|
  {
    hide Stream, PendingAll, PollIn, PollOut;
    if events == [] {
      EmptyLink();
    } else {
      var n := |events| - 1;
      var p: Link, l: bool :| Reaches(events[..n], p, l) && WellFormed(p) && Enabled(p, events[n]) &&
        s == Next(p, events[n]) && lossless == (l && !Fails(p, events[n]));
      NothingLostIff(events[..n], p, l);
      match events[n] {
        case Submit(m) => SubmitKeeps(p, m);
        case Write(w1, w2) => WriteBalance(p, w1, w2);
        case Read(k1, k2) =>
      }
    }
  }

  lemma EmptyLink()
    ensures WellFormed(START) && NothingLost(START)
  {
  }

  // ---- the receiving side

  /** Everything read is the delivered messages and the part of the next one. */
  ghost predicate InStep(s: Link)
    requires WellFormed(s)
  {
    && s.delivered <= s.accepted && AllSendable(s.delivered)
    && s.emitted[..s.taken] == Stream(s.delivered) + Partial(s.recv)
    && forall i :: 0 <= i < |s.delivered| ==> s.delivered[i].body != []
  }

  /** Bytes that begin a stream and hold at least a header begin with its first header. */
  lemma BeginsWithHeader(rest: seq<Byte>, ms: seq<Message>)
    requires AllSendable(ms) && rest <= Stream(ms) && |rest| >= HEADER_LEN
    ensures ms != [] && Decode(rest[..HEADER_LEN]) == ms[0].header
  {
    hide Decode, Encode;
    var e := Encode(ms[0].header);
    HeaderRoundTrip(ms[0].header);
    assert Stream(ms) == e + (ms[0].body + Stream(ms[1..]));
    assert rest[..HEADER_LEN] == e;
  }

  /** A message parsed from the beginning of a stream is its first message. */
  lemma ParsedIsFirst(m: Message, rest: seq<Byte>, ms: seq<Message>)
    requires AllSendable(ms) && rest <= Stream(ms) && ParsedFrom(m, rest)
    ensures ms != [] && m == ms[0] && rest == Frame(ms[0])
  {
    hide Decode, Encode;
    BeginsWithHeader(rest, ms);
    var e := Encode(ms[0].header);
    assert Stream(ms) == (e + ms[0].body) + Stream(ms[1..]);
    assert rest == Stream(ms)[..|rest|] == e + ms[0].body;
  }

  lemma ReadKeepsStep(s: Link, k1: nat, k2: nat)
    requires WellFormed(s) && Enabled(s, Read(k1, k2)) && InStep(s) && s.emitted <= Stream(s.accepted)
    ensures InStep(Next(s, Read(k1, k2)))
    ensures PollIn(s.recv, s.emitted[s.taken..], k1, k2).verdict != MallocFail
  {
    hide Decode, Encode, Stream, PollIn, Frame;
    var bytes, t := s.emitted[s.taken..], Next(s, Read(k1, k2));
    var r := PollIn(s.recv, bytes, k1, k2);
    PollInConserves(s.recv, bytes, k1, k2);
    var rest := Partial(s.recv) + bytes[..r.used];
    assert s.emitted[..t.taken] == s.emitted[..s.taken] + bytes[..r.used];
    assert s.emitted[..t.taken] == Stream(s.delivered) + rest;
    ParsedIsPrefix(s.delivered, rest, s.accepted);
    var ahead := s.accepted[|s.delivered|..];
    assert |rest| == HEADER_LEN ==> rest[..HEADER_LEN] == rest;
    if r.verdict.MsgReady? {
      ParsedIsFirst(r.verdict.message, rest, ahead);
      StreamAppend(s.delivered, ahead[0]);
      assert t.delivered == s.delivered + [ahead[0]];
      assert rest + [] == rest;
    } else if r.verdict == MallocFail {
      BeginsWithHeader(rest, ahead);
    } else {
      assert t.delivered == s.delivered;
    }
  }

  lemma {:induction false} AlwaysInStep(events: seq<Event>, s: Link)
    requires Reaches(events, s, true)
    ensures WellFormed(s) && NothingLost(s) && InStep(s) && s.emitted <= Stream(s.accepted)
    decreases |events|
  {
    hide Stream, PendingAll, Next, Enabled, InStep, Fails;
    NothingLostIff(events, s, true);
    if events == [] {
      StartInStep();
    } else {
      var n := |events| - 1;
      var p: Link, l: bool :| Reaches(events[..n], p, l) && WellFormed(p) && Enabled(p, events[n]) &&
        s == Next(p, events[n]) && true == (l && !Fails(p, events[n]));
      AlwaysInStep(events[..n], p);
      NextInStep(p, events[n]);
    }
    assert s.emitted <= s.emitted + PendingAll(s.queue);
  }

  lemma NextInStep(s: Link, e: Event)
    requires WellFormed(s) && Enabled(s, e) && InStep(s) && s.emitted <= Stream(s.accepted)
    ensures InStep(Next(s, e))
  {
    hide Stream, PollIn, PollOut, OutOk, RecvOk;
    match e {
      case Submit(m) =>
      case Write(w1, w2) => assert s.emitted <= Next(s, e).emitted;
      case Read(k1, k2) => ReadKeepsStep(s, k1, k2);
    }
  }

  lemma StartInStep()
    ensures WellFormed(START) && InStep(START)
  {
  }

  // ---- end to end

  /** t is reached from s by these events. */
  ghost predicate Follows(s: Link, events: seq<Event>, t: Link)
    requires WellFormed(s)
    decreases |events|
  {
    if events == [] then t == s
    else Enabled(s, events[0]) && Follows(Next(s, events[0]), events[1..], t)
  }

  /** An empty body leaves the receiver stuck for good: whatever is submitted, written or read
      afterwards, no further byte is read and no further message handed up. */
  lemma {:induction false} EmptyBodySticks(s: Link, events: seq<Event>, t: Link)
    requires WellFormed(s) && Stuck(s.recv) && Follows(s, events, t)
    ensures t.recv == s.recv && t.taken == s.taken && t.delivered == s.delivered
    decreases |events|
  {
    hide PollIn, PollOut, RecvOk;
    if events == [] {
    } else {
      match events[0] {
        case Read(k1, k2) => EmptyBodyStep(s.recv, s.emitted[s.taken..], k1, k2);
        case _ =>
      }
      EmptyBodySticks(Next(s, events[0]), events[1..], t);
    }
  }

  /** The messages before the first one with an empty body. */
  function BeforeEmpty(ms: seq<Message>): seq<Message> {
    if ms == [] || ms[0].body == [] then [] else [ms[0]] + BeforeEmpty(ms[1..])
  }

  lemma {:induction false} BeforeEmptyIs(ms: seq<Message>, n: nat)
    requires n <= |ms| && (forall i :: 0 <= i < n ==> ms[i].body != [])
    ensures ms[..n] <= BeforeEmpty(ms) && (n == |ms| || ms[n].body == [] ==> BeforeEmpty(ms) == ms[..n])
    ensures BeforeEmpty(ms) == ms ==> forall i :: 0 <= i < |ms| ==> ms[i].body != []
    decreases |ms|
  {
    if ms == [] {
    } else if n == 0 {
      if ms[0].body != [] { BeforeEmptyIs(ms[1..], 0); NoneEmpty(ms); }
    } else {
      BeforeEmptyIs(ms[1..], n - 1);
      assert ms[..n] == [ms[0]] + ms[1..][..n - 1];
      NoneEmpty(ms);
    }
  }

  lemma {:induction false} NoneEmpty(ms: seq<Message>)
    ensures BeforeEmpty(ms) <= ms
    ensures BeforeEmpty(ms) == ms ==> forall i :: 0 <= i < |ms| ==> ms[i].body != []
    decreases |ms|
  {
    if ms == [] || ms[0].body == [] {
    } else {
      NoneEmpty(ms[1..]);
      assert ms == [ms[0]] + ms[1..];
      assert BeforeEmpty(ms) == ms ==> BeforeEmpty(ms[1..]) == ms[1..] by {
        assert ([ms[0]] + BeforeEmpty(ms[1..]))[1..] == BeforeEmpty(ms[1..]);
      }
    }
  }

  /** Everything is written, and no read takes another byte. */
  ghost predicate Settled(s: Link)
    requires WellFormed(s)
  {
    s.queue == [] &&
    forall k1, k2 :: Enabled(s, Read(k1, k2)) ==> PollIn(s.recv, s.emitted[s.taken..], k1, k2).used == 0
  }

  /** A receiver that is not stuck can read what is there. */
  lemma CanRead(s: Link) returns (k1: nat, k2: nat)
    requires WellFormed(s) && s.taken < |s.emitted| && !Stuck(s.recv)
    ensures Enabled(s, Read(k1, k2)) && PollIn(s.recv, s.emitted[s.taken..], k1, k2).used > 0
  {
    hide Decode;
    if s.recv.headerLeft == 0 {
      k1, k2 := 0, 1;
    } else {
      k1, k2 := 1, 0;
    }
  }

  lemma SettledMeans(s: Link)
    requires WellFormed(s) && Settled(s)
    ensures s.queue == [] && (s.taken == |s.emitted| || Stuck(s.recv))
  {
    if s.taken < |s.emitted| && !Stuck(s.recv) {
      var k1, k2 := CanRead(s);
    }
  }

  /** For every run in which no write failed, under every fragmentation: the receiver has
      handed up, header and body and in order, a prefix of the accepted messages before the
      first empty body; and once no write or read makes progress it has handed up all of
      these, which are all accepted messages exactly when none has an empty body. */
  lemma EndToEnd(events: seq<Event>, s: Link)
    requires Reaches(events, s, true)
    ensures WellFormed(s) && s.delivered <= BeforeEmpty(s.accepted) <= s.accepted
    ensures Settled(s) ==> s.delivered == BeforeEmpty(s.accepted)
    ensures Settled(s) ==>
      (s.delivered == s.accepted <==> forall i :: 0 <= i < |s.accepted| ==> s.accepted[i].body != [])
  {
    hide Reaches, Stream, Settled;
    AlwaysInStep(events, s);
    var n := |s.delivered|;
    assert s.accepted[..n] == s.delivered;
    BeforeEmptyIs(s.accepted, n);
    NoneEmpty(s.accepted);
    if Settled(s) {
      SettledMeans(s);
      AllBeforeEmpty(s);
      if forall i :: 0 <= i < |s.accepted| ==> s.accepted[i].body != [] { BeforeEmptyIs(s.accepted, |s.accepted|); }
    }
  }

  /** What comes after the delivered messages is nothing or a message with an empty body. */
  lemma AllBeforeEmpty(s: Link)
    requires WellFormed(s) && NothingLost(s) && InStep(s) && s.queue == [] && (s.taken == |s.emitted| || Stuck(s.recv))
    ensures |s.delivered| == |s.accepted| || s.accepted[|s.delivered|].body == []
  {
    hide Stream, Decode, Encode;
    DrainedQueue(s);
    var ahead := s.accepted[|s.delivered|..];
    ParsedIsPrefix(s.delivered, Partial(s.recv), s.accepted);
    StreamSplit(s.accepted, |s.delivered|);
    assert s.accepted[..|s.delivered|] == s.delivered;
    if Stuck(s.recv) {
      assert Partial(s.recv)[..HEADER_LEN] == s.recv.head;
      BeginsWithHeader(Partial(s.recv), ahead);
      assert Sendable(ahead[0]);
    } else {
      assert s.emitted[..s.taken] == s.emitted;
      assert Partial(s.recv) == Stream(ahead);
      if ahead != [] && ahead[0].body != [] { PartialTooShort(s.recv, ahead); }
    }
  }

  lemma DrainedQueue(s: Link)
    requires WellFormed(s) && NothingLost(s) && s.queue == []
    ensures s.emitted == Stream(s.accepted)
  {
    assert s.emitted + [] == s.emitted;
  }

  lemma {:induction false} StreamSplit(ms: seq<Message>, n: nat)
    requires AllSendable(ms) && n <= |ms|
    ensures Stream(ms) == Stream(ms[..n]) + Stream(ms[n..])
  {
    if n == 0 {
      assert ms[0..] == ms;
    } else {
      assert ms[..n][1..] == ms[1..][..n - 1] && ms[1..][n - 1..] == ms[n..];
      StreamSplit(ms[1..], n - 1);
    }
  }

  /** A message in progress is never complete, so it is not a whole non-empty frame. */
  lemma PartialTooShort(r: Recv, ms: seq<Message>)
    requires RecvOk(r) && AllSendable(ms) && ms != [] && ms[0].body != []
    ensures Partial(r) != Stream(ms)
  {
    hide Decode, Encode;
    FrameLength(ms[0]);
    if r.headerLeft == 0 {
      assert Partial(r)[..HEADER_LEN] == r.head;
      if Partial(r) <= Stream(ms) { BeginsWithHeader(Partial(r), ms); }
    }
  }
}
