/** The two poll handlers of the link as code, proved against the link's step functions:
    sending from the linked queue, and receiving into the header and data buffers. */
module MessageEndpoints {
  import opened MessageQueue
  import opened MessageFraming
  import opened MessageLink

  // ---- the send queue as a value

  ghost function OutOf(n: Node): Out
    reads n
  {
    Out(n.header, n.body, n.headerRemain, n.dataRemain)
  }

  ghost function Outs(nodes: seq<Node>): (s: seq<Out>)
    reads nodes
    ensures |s| == |nodes|
  {
    seq(|nodes|, i requires 0 <= i < |nodes| reads nodes => OutOf(nodes[i]))
  }

  ghost predicate Sending(q: Queue)
    reads q, q.nodes
  {
    q.Valid() && forall i :: 0 <= i < |q.nodes| ==> OutOk(OutOf(q.nodes[i]))
  }

  // ---- submission

  datatype SubmitStatus = Queued | InvalidParam | LinkBroken | MsgInvalid | QueueFull

  /** The header describes this body. */
  predicate Describes(h: Header, body: seq<Byte>) { HeaderOk(h) && h.bodyLen == |body| }

  /** What the limit and the queue answer to a body of this length. */
  function Admission(length: nat, queued: nat, cap: nat): SubmitStatus {
    if length > 67108864 then MsgInvalid else if queued >= cap then QueueFull else Queued
  }

  /** The one way into the send queue: a message is accepted if and only if its body has at
      most 67108864 bytes and the queue has room, and then it is the last one to be sent. */
  method EnqueueMessage(q: Queue, h: Header, body: seq<Byte>) returns (status: SubmitStatus)
    requires Sending(q) && Describes(h, body)
    modifies q, q.nodes
    ensures Sending(q) && status == Admission(|body|, |old(q.nodes)|, q.cap)
    ensures status == Queued <==> |body| <= 67108864 && |old(q.nodes)| < q.cap
    ensures status == MsgInvalid <==> |body| >= 67108865
    ensures status == Queued ==> Outs(q.nodes) == old(Outs(q.nodes)) + [Out(Encode(h), body, 16, |body|)]
    ensures status != Queued ==> Outs(q.nodes) == old(Outs(q.nodes)) && q.nodes == old(q.nodes)
    ensures forall i :: 0 <= i < |q.nodes| ==> q.nodes[i] in old(q.nodes) || fresh(q.nodes[i])
  {
    hide Encode;
    if h.bodyLen > MAX_RECV_BODY_LEN {
      return MsgInvalid;
    }
    ghost var was := q.nodes;
    var outcome, node := q.EnqueueBack(Encode(h), body);
    forall i | 0 <= i < |was| ensures OutOf(q.nodes[i]) == old(OutOf(q.nodes[i])) { assert was[i] in was; }
    status := if outcome == Ok then Queued else QueueFull;
  }

  const MIN_MSG_TYPE := 0
  const MAX_MSG_TYPE := 48

  /** Sending on an established link: types 0 to 47, and a body that is there. */
  method NonBlockSend(q: Queue, established: bool, kind: int, opCode: int, seqNo: nat, body: Option<seq<Byte>>)
    returns (status: SubmitStatus)
    requires Sending(q) && Int16(kind) && Int16(opCode) && seqNo < 0x1_0000_0000
    requires body.Some? ==> |body.value| < 0x1_0000_0000
    modifies q, q.nodes
    ensures Sending(q)
    ensures status == if !(0 <= kind <= 47) || body.None? then InvalidParam else if !established then LinkBroken
                      else Admission(|body.value|, |old(q.nodes)|, q.cap)
    ensures Outs(q.nodes) == old(Outs(q.nodes)) +
      if status == Queued && body.Some? && |body.value| < 0x1_0000_0000
      then [Out(Encode(Header(kind, opCode, |body.value|, seqNo, 0)), body.value, 16, |body.value|)] else []
  {
    hide Encode;
    assert Outs(q.nodes) + [] == Outs(q.nodes);
    if !(kind >= MIN_MSG_TYPE && kind < MAX_MSG_TYPE) || body.None? {
      return InvalidParam;
    }
    if !established {
      return LinkBroken;
    }
    status := EnqueueMessage(q, Header(kind, opCode, |body.value|, seqNo, 0), body.value);
  }

  // ---- poll out

  datatype PollStatus = Idle | Status(status: SendStatus)

  ghost function LeftOver(left: Option<Out>): seq<Out> { if left.Some? then [left.value] else [] }

  /** Write what the socket takes of the header. */
  method SendHeader(node: Node, w1: int) returns (bytes: seq<Byte>, all: bool)
    requires OutOk(OutOf(node)) && 0 < w1 <= node.headerRemain
    modifies node`headerRemain
    ensures bytes == HeaderPending(old(OutOf(node)))[..w1] && node.headerRemain == old(node.headerRemain) - w1
    ensures all == (node.headerRemain == 0)
  {
    bytes := node.header[|node.header| - node.headerRemain..][..w1];
    if node.headerRemain <= w1 {
      node.headerRemain := 0;
      return bytes, true;
    }
    node.headerRemain := node.headerRemain - w1;
    return bytes, false;
  }

  method SendData(node: Node, w2: int) returns (bytes: seq<Byte>, all: bool)
    requires node.dataRemain <= |node.body| && 0 < w2 <= node.dataRemain
    modifies node`dataRemain
    ensures bytes == node.body[|node.body| - old(node.dataRemain)..][..w2]
    ensures node.dataRemain == old(node.dataRemain) - w2
    ensures all == (node.dataRemain == 0)
  {
    bytes := node.body[|node.body| - node.dataRemain..][..w2];
    if node.dataRemain <= w2 {
      node.dataRemain := 0;
      return bytes, true;
    }
    node.dataRemain := node.dataRemain - w2;
    return bytes, false;
  }

  /** The writes of one poll-out on the dequeued node. */
  method Advance(node: Node, w1: int, w2: int) returns (status: SendStatus, bytes: seq<Byte>)
    requires OutOk(OutOf(node)) && WriteSizes(OutOf(node), w1, w2)
    modifies node`headerRemain, node`dataRemain
    ensures var r := PollOut(old(OutOf(node)), w1, w2);
      status == r.status && bytes == r.bytes && (status == SendAgain <==> r.left.Some?) && (r.left.Some? ==>
        OutOf(node) == r.left.value)
  {
    bytes := [];
    if node.headerRemain != 0 {
      if w1 <= 0 {
        return WriteFailed, [];
      }
      var sent: bool;
      bytes, sent := SendHeader(node, w1);
      if !sent {
        return SendAgain, bytes;
      }
      assert bytes == HeaderPending(old(OutOf(node)));
      if node.dataRemain == 0 {
        return MsgSent, bytes;
      }
    }
    if w2 <= 0 {
      return WriteFailed, bytes;
    }
    var more, sent := SendData(node, w2);
    bytes := bytes + more;
    status := if sent then MsgSent else SendAgain;
  }

  /** One poll-out on the linked queue: the front message advances as PollOut says, a partly
      sent node goes back to the front, and the queue stays well linked. */
  method HandlePollOut(q: Queue, w1: int, w2: int) returns (status: PollStatus, bytes: seq<Byte>)
    requires Sending(q) && (q.nodes != [] ==> WriteSizes(OutOf(q.nodes[0]), w1, w2))
    modifies q, q.nodes
    ensures Sending(q) && forall n :: n in q.nodes ==> n in old(q.nodes)
    ensures old(q.nodes) == [] ==> status == Idle && bytes == [] && q.nodes == []
    ensures old(q.nodes) != [] ==>
      Polled(old(OutOf(q.nodes[0])), w1, w2, status, bytes, Outs(q.nodes), old(Outs(q.nodes))[1..])
  {
    hide PollOut, Conserved, OutOk, Sending;
    ghost var outs := Outs(q.nodes);
    var node := TakeFront(q);
    if node == null {
      return Idle, [];
    }
    ghost var o := OutOf(node);
    PollOutConserves(o, w1, w2);
    LeftIsOk(o, PollOut(o, w1, w2));
    var outcome: SendStatus;
    outcome, bytes := SendFront(q, node, w1, w2, outs[1..]);
    status := Status(outcome);
    if outcome == SendAgain {
      PushBack(q, node, outs[1..]);
    }
  }

  lemma LeftIsOk(o: Out, r: SendStep)
    requires OutOk(o) && Conserved(o, [], r)
    ensures r.left.Some? ==> OutOk(r.left.value)
  {
  }

  /** The front node is out of the queue, and the others are as they were. */
  method TakeFront(q: Queue) returns (node: Node?)
    requires Sending(q)
    modifies q
    ensures Sending(q) && (node == null <==> old(q.nodes) == [])
    ensures node == null ==> q.nodes == []
    ensures node != null ==> old(q.nodes) == [node] + q.nodes && node !in q.nodes && OutOk(OutOf(node))
    ensures node != null ==> OutOf(node) == old(OutOf(q.nodes[0])) && Outs(q.nodes) == old(Outs(q.nodes))[1..]
    ensures node != null && node.next != null ==> q.nodes != []
  {
    hide OutOk, Outs;
    ghost var all := q.nodes;
    node := q.DequeueFront();
    if node != null {
      assert all[0] == node && q.nodes == all[1..];
      OutsRest(all);
      forall i | 0 <= i < |q.nodes| ensures OutOk(OutOf(q.nodes[i])) { assert q.nodes[i] == all[i + 1]; }
    }
  }

  lemma OutsRest(nodes: seq<Node>)
    requires nodes != []
    ensures Outs(nodes[1..]) == Outs(nodes)[1..]
  {
  }

  /** Writing from a node outside the queue leaves the queue as it was. */
  method SendFront(q: Queue, node: Node, w1: int, w2: int, ghost rest: seq<Out>)
    returns (status: SendStatus, bytes: seq<Byte>)
    requires Sending(q) && node !in q.nodes && Outs(q.nodes) == rest
    requires OutOk(OutOf(node)) && WriteSizes(OutOf(node), w1, w2)
    modifies node`headerRemain, node`dataRemain
    ensures Sending(q) && Outs(q.nodes) == rest
    ensures var r := PollOut(old(OutOf(node)), w1, w2);
      status == r.status && bytes == r.bytes && (status == SendAgain <==> r.left.Some?) && (r.left.Some? ==>
        OutOf(node) == r.left.value)
  {
    hide PollOut, OutOk, WriteSizes;
    status, bytes := Advance(node, w1, w2);
    forall i | 0 <= i < |q.nodes| ensures OutOf(q.nodes[i]) == rest[i] { assert q.nodes[i] in q.nodes; }
  }

  method PushBack(q: Queue, node: Node, ghost rest: seq<Out>)
    requires Sending(q) && node !in q.nodes && OutOk(OutOf(node)) && Outs(q.nodes) == rest
    requires (node.next != null ==> q.nodes != [])
    modifies q, node
    ensures Sending(q) && Outs(q.nodes) == [old(OutOf(node))] + rest && q.nodes == [node] + old(q.nodes)
  {
    ghost var nodes := q.nodes;
    q.EnqueueFront(node);
    forall i | 0 <= i < |nodes| ensures OutOf(q.nodes[i + 1]) == rest[i] { assert q.nodes[i + 1] == nodes[i]; }
  }

  ghost predicate Polled(o: Out, w1: int, w2: int, status: PollStatus, bytes: seq<Byte>, now: seq<Out>,
                         rest: seq<Out>) {
    OutOk(o) && WriteSizes(o, w1, w2) &&
    var r := PollOut(o, w1, w2);
    status == Status(r.status) && bytes == r.bytes && now == LeftOver(r.left) + rest
  }

  // ---- poll in

  method CopyInto(target: array<Byte>, at: nat, source: seq<Byte>)
    requires at + |source| <= target.Length
    modifies target
    ensures target[..at + |source|] == old(target[..at]) + source
  {
    for i := 0 to |source|
      invariant target[..at + i] == old(target[..at]) + source[..i]
    {
      target[at + i] := source[i];
    }
    assert source[..|source|] == source;
  }

  /** The receive state of a link: a header buffer, a growing data buffer, two counters. */
  class Receiver {
    const header: array<Byte>
    var data: array<Byte>
    var headerLeft: nat
    var bodyLeft: int

    ghost predicate Valid()
      reads this, header, data
    {
      && header.Length == HEADER_LEN && header != data && headerLeft <= HEADER_LEN
      && (headerLeft == 0 ==> 0 <= bodyLeft <= Decode(header[..]).bodyLen <= data.Length)
      && RecvOk(Value())
    }

    ghost function Value(): Recv
      reads this, header, data
    {
      Recv(headerLeft, if headerLeft <= header.Length then header[..header.Length - headerLeft]
        else [], bodyLeft, Body())
    }

    ghost function Body(): seq<Byte>
      reads this, header, data
    {
      if headerLeft == 0 && header.Length == HEADER_LEN && 0 <= Decode(header[..]).bodyLen - bodyLeft <= data.Length
      then data[..Decode(header[..]).bodyLen - bodyLeft] else []
    }

    constructor (memSize: nat)
      ensures Valid() && Value() == FRESH
    {
      header := new Byte[HEADER_LEN](_ => 0);
      data := new Byte[memSize](_ => 0);
      headerLeft, bodyLeft := HEADER_LEN, -1;
    }

    method ResetHeader()
      requires header.Length == HEADER_LEN && header != data
      modifies this`headerLeft, this`bodyLeft
      ensures Valid() && Value() == FRESH
    {
      headerLeft, bodyLeft := HEADER_LEN, -1;
    }

    method AllocIfNeed(newSize: nat) returns (ok: bool)
      requires header != data
      modifies this`data
      ensures ok == (newSize <= 67108864) && (ok ==> newSize <= data.Length) && header != data
      ensures data == old(data) || fresh(data)
    {
      if newSize > MAX_RECV_BODY_LEN {
        return false;
      }
      if newSize > data.Length {
        data := new Byte[newSize](_ => 0);
      }
      return true;
    }

    method ReadBody(bytes: seq<Byte>, k: nat) returns (used: nat, verdict: Verdict)
      requires Valid() && headerLeft == 0 && ReadSize(k, bodyLeft, |bytes|)
      modifies this, data
      ensures Valid() && data == old(data)
      ensures RecvStep(Value(), used, verdict) == RecvBody(old(Value()), bytes, k, 0)
    {
      hide Decode;
      if k == 0 {
        return 0, RecvAgain;
      }
      var bodyLen := Decode(header[..]).bodyLen;
      assert header[..HEADER_LEN] == header[..];
      CopyInto(data, bodyLen - bodyLeft, bytes[..k]);
      bodyLeft := if bodyLeft > k then bodyLeft - k else 0;
      used := k;
      if bodyLeft == 0 {
        verdict := MsgReady(Message(Decode(header[..]), data[..bodyLen]));
        ResetHeader();
      } else {
        verdict := RecvAgain;
      }
    }

    /** Read into the header buffer; a completed header prepares the data buffer. */
    method ReadHeader(bytes: seq<Byte>, k1: nat) returns (ok: bool)
      requires Valid() && 0 < k1 && ReadSize(k1, headerLeft, |bytes|)
      modifies this, header
      ensures header != data && (data == old(data) || fresh(data))
      ensures var h := HeaderRead(old(Value()), bytes, k1);
        if ok then Valid() && Value() == h
        else headerLeft == 0 == h.headerLeft && h.bodyLeft > MAX_RECV_BODY_LEN && header.Length == HEADER_LEN
    {
      hide Decode;
      CopyInto(header, HEADER_LEN - headerLeft, bytes[..k1]);
      headerLeft := if headerLeft > k1 then headerLeft - k1 else 0;
      if headerLeft > 0 {
        return true;
      }
      assert header[..HEADER_LEN] == header[..];
      var bodyLen := Decode(header[..]).bodyLen;
      ok := AllocIfNeed(bodyLen);
      if ok {
        bodyLeft := bodyLen;
      }
    }

    /** One poll-in on the available bytes behaves as the step function says. */
    method HandlePollIn(bytes: seq<Byte>, k1: nat, k2: nat) returns (used: nat, verdict: Verdict)
      requires Valid() && ReadSizes(Value(), bytes, k1, k2)
      modifies this, header, data
      ensures Valid() && (data == old(data) || fresh(data))
      ensures RecvStep(Value(), used, verdict) == PollIn(old(Value()), bytes, k1, k2)
    {
      hide Decode;
      if headerLeft == 0 {
        used, verdict := ReadBody(bytes, k2);
        return;
      }
      if k1 == 0 {
        return 0, RecvAgain;
      }
      var ok := ReadHeader(bytes, k1);
      if !ok {
        ResetHeader();
        return k1, MallocFail;
      }
      if headerLeft > 0 {
        return k1, RecvAgain;
      }
      used, verdict := ReadBody(bytes[k1..], k2);
      used := used + k1;
    }
  }
}
