/** The linked send queue of a message link. Its mutex makes every operation atomic, so a
    run of many producers and one consumer is a sequence of operations. */
module MessageQueue {

  type Byte = x: int | 0 <= x < 256

  /** A queued message. A node keeps its next pointer when it is dequeued. */
  class Node {
    const header: seq<Byte>
    const body: seq<Byte>
    var next: Node?
    var headerRemain: nat
    var dataRemain: nat

    constructor (header: seq<Byte>, body: seq<Byte>)
      ensures this.header == header && this.body == body && next == null
      ensures headerRemain == |header| && dataRemain == |body|
    {
      this.header, this.body := header, body;
      next := null;
      headerRemain, dataRemain := |header|, |body|;
    }
  }

  datatype Status = Ok | QueueIsFull

  /** The nodes are chained in this order. */
  ghost predicate Chained(nodes: seq<Node>)
    reads nodes
  {
    forall i :: 0 <= i < |nodes| - 1 ==> nodes[i].next == nodes[i + 1]
  }

  ghost predicate AllDifferent(nodes: seq<Node>) {
    forall i, j :: 0 <= i < j < |nodes| ==> nodes[i] != nodes[j]
  }

  class Queue {
    const cap: nat
    var size: nat
    var head: Node?
    var tail: Node?
    ghost var nodes: seq<Node>

    ghost predicate Linked()
      reads this, nodes
    {
      && size == |nodes| && AllDifferent(nodes) && Chained(nodes)
      && (if nodes == [] then head == null && tail == null else head == nodes[0] && tail == nodes[|nodes| - 1])
    }

    /** Walking the next pointers ends at the tail. */
    ghost predicate Terminated()
      reads this, nodes
    {
      nodes != [] ==> nodes[|nodes| - 1].next == null
    }

    ghost predicate Valid()
      reads this, nodes
    {
      Linked() && Terminated()
    }

    constructor (cap: nat)
      ensures Valid() && nodes == [] && this.cap == cap
    {
      this.cap := cap;
      size, head, tail, nodes := 0, null, null, [];
    }

    method EnqueueBack(header: seq<Byte>, body: seq<Byte>) returns (status: Status, ghost node: Node)
      requires Valid()
      modifies this, tail
      ensures Valid() && fresh(node) && node.header == header && node.body == body
      ensures node.next == null && node.headerRemain == |header| && node.dataRemain == |body|
      ensures status == if |old(nodes)| < cap then Ok else QueueIsFull
      ensures nodes == if status == Ok then old(nodes) + [node] else old(nodes)
      ensures forall n :: n in old(nodes) ==> n.headerRemain == old(n.headerRemain) && n.dataRemain == old(n.dataRemain)
    {
      var fresh0 := new Node(header, body);
      node := fresh0;
      if size >= cap {
        status := QueueIsFull;
        return;
      }
      status := Ok;
      if head == null {
        head, tail := fresh0, fresh0;
        size := size + 1;
        nodes := nodes + [fresh0];
        return;
      }
      var currentTail := tail;
      tail := fresh0;
      currentTail.next := fresh0;
      size := size + 1;
      nodes := nodes + [fresh0];
    }

    method DequeueFront() returns (node: Node?)
      requires Valid()
      modifies this
      ensures Valid() && (node == null <==> old(nodes) == [])
      ensures node == null ==> nodes == []
      ensures node != null ==> old(nodes) == [node] + nodes && node !in nodes
    {
      if size == 0 {
        return null;
      }
      node := head;
      if size == 1 {
        head, tail := null, null;
        size := size - 1;
        nodes := nodes[1..];
        return;
      }
      head := node.next;
      size := size - 1;
      nodes := nodes[1..];
    }

    /** Push a node back to the front, past the capacity if need be. The list stays
        null-terminated exactly when it was not empty or the node's stale next is null. */
    method EnqueueFront(node: Node)
      requires Valid() && node !in nodes
      modifies this, node
      ensures Linked() && nodes == [node] + old(nodes)
      ensures Terminated() <==> old(nodes) != [] || old(node.next) == null
      ensures node.headerRemain == old(node.headerRemain) && node.dataRemain == old(node.dataRemain)
    {
      if head == null {
        head, tail := node, node;
        size := size + 1;
        nodes := [node] + nodes;
        return;
      }
      node.next := head;
      head := node;
      size := size + 1;
      nodes := [node] + nodes;
    }

    method TakeAwayMessages() returns (first: Node?, ghost taken: seq<Node>)
      requires Valid()
      modifies this
      ensures Valid() && nodes == [] && taken == old(nodes)
      ensures IsList(first, taken)
    {
      taken := nodes;
      first := head;
      size, head, tail, nodes := 0, null, null, [];
    }
  }

  ghost predicate IsList(first: Node?, nodes: seq<Node>)
    reads nodes
  {
    && AllDifferent(nodes) && Chained(nodes)
    && if nodes == [] then first == null else first == nodes[0] && nodes[|nodes| - 1].next == null
  }

  /** Walking a taken list (to report or delete its nodes) visits every node once, in order. */
  method WalkList(first: Node?, ghost nodes: seq<Node>) returns (visited: seq<Node>)
    requires IsList(first, nodes)
    ensures visited == nodes
  {
    visited := [];
    var current := first;
    while current != null
      invariant |visited| <= |nodes| && visited == nodes[..|visited|]
      invariant if |visited| == |nodes| then current == null else current == nodes[|visited|]
      decreases |nodes| - |visited|
    {
      visited := visited + [current];
      current := current.next;
    }
  }

  // ---- runs

  /** A producer enqueues; the consumer takes a node, puts it back partly sent, is done with
      it, or, holding none, takes everything away because the link broke. */
  datatype Event = Produce(header: seq<Byte>, body: seq<Byte>) | Take | PutBack | Finish | TakeAway

  /** The content of a node. */
  datatype Letter = Letter(header: seq<Byte>, body: seq<Byte>)

  /** The link as a list: letters accepted so far, gone (finished or taken away), held (at most
      one) and queued. */
  datatype Mailbox = Mailbox(accepted: seq<Letter>, gone: seq<Letter>, held: seq<Letter>, queued: seq<Letter>)

  function Handle(m: Mailbox, event: Event, cap: nat): Mailbox {
    match event
    case Produce(header, body) =>
      var l := [Letter(header, body)];
      if |m.queued| < cap then m.(accepted := m.accepted + l, queued := m.queued + l) else m
    case Take =>
      if m.held == [] && m.queued != [] then m.(held := [m.queued[0]], queued := m.queued[1..]) else m
    case PutBack => m.(held := [], queued := m.held + m.queued)
    case Finish => m.(held := [], gone := m.gone + m.held)
    case TakeAway => if m.held == [] then m.(gone := m.gone + m.queued, queued := []) else m
  }

  const EMPTY: Mailbox := Mailbox([], [], [], [])

  /** The mailbox after the first n events. */
  function After(events: seq<Event>, cap: nat, n: nat): Mailbox
    requires n <= |events|
  {
    if n == 0 then EMPTY else Handle(After(events, cap, n - 1), events[n - 1], cap)
  }

  /** The letters produced by the events whose flag is set. */
  function Produced(events: seq<Event>, taken: seq<bool>, n: nat): seq<Letter>
    requires n <= |events| == |taken|
  {
    if n == 0 then []
    else Produced(events, taken, n - 1) +
         if taken[n - 1] && events[n - 1].Produce? then [Letter(events[n - 1].header, events[n - 1].body)] else []
  }

  /** What is gone, held and queued is what was accepted, in that order, each once; at most
      one letter is held, and held and queued are at most cap + 1. */
  ghost predicate Orderly(m: Mailbox, cap: nat) {
    m.gone + m.held + m.queued == m.accepted && |m.held| <= 1 && |m.held| + |m.queued| <= cap + 1
  }

  lemma HandleIsOrderly(m: Mailbox, event: Event, cap: nat)
    requires Orderly(m, cap)
    ensures Orderly(Handle(m, event, cap), cap)
  {
    match event
    case Produce(header, body) =>
      var l := [Letter(header, body)];
      assert m.gone + m.held + (m.queued + l) == (m.gone + m.held + m.queued) + l;
    case Take => assert m.queued != [] ==> m.queued == [m.queued[0]] + m.queued[1..];
    case PutBack => assert m.gone + [] + (m.held + m.queued) == m.gone + m.held + m.queued;
    case Finish =>
    case TakeAway =>
  }

  lemma {:induction false} FirstInFirstOut(events: seq<Event>, cap: nat, n: nat)
    requires n <= |events|
    ensures Orderly(After(events, cap, n), cap)
  {
    hide Handle;
    if n == 0 {
    } else {
      FirstInFirstOut(events, cap, n - 1);
      HandleIsOrderly(After(events, cap, n - 1), events[n - 1], cap);
    }
  }

  lemma HandleAccepts(m: Mailbox, event: Event, cap: nat)
    ensures Handle(m, event, cap).accepted ==
      m.accepted + if event.Produce? && |m.queued| < cap then [Letter(event.header, event.body)] else []
  {
  }

  /** Accepted are exactly the letters that found fewer than cap queued. */
  lemma {:induction false} AcceptedAre(events: seq<Event>, cap: nat, taken: seq<bool>, n: nat)
    requires n <= |events| == |taken|
    requires forall i :: 0 <= i < |events| ==> taken[i] == (|After(events, cap, i).queued| < cap)
    ensures After(events, cap, n).accepted == Produced(events, taken, n)
  {
    hide Handle;
    if n == 0 {
    } else {
      AcceptedAre(events, cap, taken, n - 1);
      HandleAccepts(After(events, cap, n - 1), events[n - 1], cap);
    }
  }

  ghost function LetterOf(n: Node): Letter { Letter(n.header, n.body) }

  ghost function Letters(nodes: seq<Node>): (l: seq<Letter>)
    ensures |l| == |nodes|
  {
    seq(|nodes|, i requires 0 <= i < |nodes| => LetterOf(nodes[i]))
  }

  /** What the single consumer may hold: a node outside the queue whose stale next pointer,
      if any, points into a queue that is not empty. */
  ghost predicate HeldOk(held: Node?, nodes: seq<Node>)
    reads held
  {
    held != null ==> held !in nodes && (held.next != null ==> nodes != [])
  }

  ghost function HeldSeq(held: Node?): seq<Node> { if held == null then [] else [held] }

  ghost function Everyone(gone: seq<Node>, held: Node?, nodes: seq<Node>): seq<Node> { gone + HeldSeq(held) + nodes }

  /** The linked queue and the consumer's node hold what the mailbox says, and all nodes ever
      accepted are different. */
  ghost predicate Matches(q: Queue, held: Node?, gone: seq<Node>, m: Mailbox)
    reads q, q.nodes, held
  {
    && q.Valid() && HeldOk(held, q.nodes)
    && Letters(q.nodes) == m.queued && Letters(HeldSeq(held)) == m.held && Letters(gone) == m.gone
    && AllDifferent(Everyone(gone, held, q.nodes))
  }

  method OnProduce(q: Queue, header: seq<Byte>, body: seq<Byte>, held: Node?, ghost gone: seq<Node>, ghost m: Mailbox)
    returns (status: Status)
    requires Matches(q, held, gone, m)
    modifies q, q.tail
    ensures Matches(q, held, gone, Handle(m, Produce(header, body), q.cap))
    ensures status == if |m.queued| < q.cap then Ok else QueueIsFull
    ensures forall n :: n in Everyone(gone, held, q.nodes) && n !in Everyone(gone, held, old(q.nodes)) ==> fresh(n)
  {
    hide AllDifferent, Letters, Chained;
    ghost var everyone, nodes := Everyone(gone, held, q.nodes), q.nodes;
    ghost var node;
    status, node := q.EnqueueBack(header, body);
    if status == Ok {
      LettersAppend(nodes, [node]);
      OneLetter(node);
      AppendDifferent(everyone, node);
      assert Everyone(gone, held, q.nodes) == everyone + [node];
    }
  }

  lemma AppendDifferent(nodes: seq<Node>, n: Node)
    requires AllDifferent(nodes) && n !in nodes
    ensures AllDifferent(nodes + [n])
  {
  }

  lemma OneLetter(n: Node)
    ensures Letters([n]) == [LetterOf(n)]
  {
  }

  method OnTake(q: Queue, ghost gone: seq<Node>, ghost m: Mailbox) returns (held: Node?)
    requires Matches(q, null, gone, m)
    modifies q
    ensures Matches(q, held, gone, Handle(m, Take, q.cap))
    ensures Everyone(gone, held, q.nodes) == Everyone(gone, null, old(q.nodes))
  {
    ghost var nodes := q.nodes;
    held := q.DequeueFront();
    assert gone + HeldSeq(null) + nodes == gone + HeldSeq(held) + q.nodes;
    if held != null {
      assert nodes[0] == held && q.nodes == nodes[1..];
      assert Letters(q.nodes) == m.queued[1..] && Letters(HeldSeq(held)) == [m.queued[0]];
    }
  }

  method OnPutBack(q: Queue, held: Node, ghost gone: seq<Node>, ghost m: Mailbox)
    requires Matches(q, held, gone, m)
    modifies q, held
    ensures Matches(q, null, gone, Handle(m, PutBack, q.cap))
    ensures Everyone(gone, null, q.nodes) == Everyone(gone, held, old(q.nodes))
  {
    ghost var nodes := q.nodes;
    q.EnqueueFront(held);
    assert gone + HeldSeq(null) + q.nodes == gone + HeldSeq(held) + nodes;
    assert Letters(q.nodes) == m.held + m.queued;
  }

  /** The broken link's messages are walked and reported in order. */
  method OnTakeAway(q: Queue, ghost gone: seq<Node>, ghost m: Mailbox) returns (visited: seq<Node>)
    requires Matches(q, null, gone, m)
    modifies q
    ensures Matches(q, null, gone + visited, Handle(m, TakeAway, q.cap))
    ensures Everyone(gone + visited, null, q.nodes) == Everyone(gone, null, old(q.nodes))
  {
    var first, taken := q.TakeAwayMessages();
    visited := WalkList(first, taken);
    assert gone + HeldSeq(null) + visited == (gone + visited) + HeldSeq(null) + q.nodes;
    assert Letters(gone + visited) == Letters(gone) + Letters(visited);
  }

  method OneEvent(q: Queue, event: Event, held: Node?, ghost gone: seq<Node>, ghost m: Mailbox)
    returns (status: Status, held': Node?, ghost gone': seq<Node>)
    requires Matches(q, held, gone, m)
    modifies q, q.tail, held
    ensures Matches(q, held', gone', Handle(m, event, q.cap))
    ensures status == if event.Produce? && |m.queued| >= q.cap then QueueIsFull else Ok
    ensures forall n :: n in Everyone(gone', held', q.nodes) && n !in Everyone(gone, held, old(q.nodes)) ==> fresh(n)
  {
    hide Matches, Handle, Everyone;
    status, held', gone' := Ok, held, gone;
    Idles(q, held, gone, m);
    match event {
      case Produce(header, body) =>
        status := OnProduce(q, header, body, held, gone, m);
      case Take =>
        if held == null {
          held' := OnTake(q, gone, m);
        }
      case PutBack =>
        if held != null {
          OnPutBack(q, held, gone, m);
          held' := null;
        }
      case Finish =>
        Finishes(q, held, gone, m);
        gone' := gone + HeldSeq(held);
        held' := null;
      case TakeAway =>
        if held == null {
          ghost var visited := OnTakeAway(q, gone, m);
          gone' := gone + visited;
        }
    }
  }

  /** Events that find nothing to do change nothing. */
  lemma Idles(q: Queue, held: Node?, gone: seq<Node>, m: Mailbox)
    requires Matches(q, held, gone, m)
    ensures held == null ==> Handle(m, PutBack, q.cap) == m
    ensures held != null ==> Handle(m, Take, q.cap) == m && Handle(m, TakeAway, q.cap) == m
  {
    assert held == null ==> m.held + m.queued == m.queued;
  }

  lemma Finishes(q: Queue, held: Node?, gone: seq<Node>, m: Mailbox)
    requires Matches(q, held, gone, m)
    ensures Matches(q, null, gone + HeldSeq(held), Handle(m, Finish, q.cap))
    ensures Everyone(gone + HeldSeq(held), null, q.nodes) == Everyone(gone, held, q.nodes)
  {
    LettersAppend(gone, HeldSeq(held));
    assert Everyone(gone + HeldSeq(held), null, q.nodes) == Everyone(gone, held, q.nodes);
  }

  /** Under any interleaving of producers and the consumer, the linked queue does what the
      mailbox of the events does: each produce gets the status the capacity demands, and the
      nodes gone, held and queued are those of the accepted letters in order. */
  method AnyInterleaving(q: Queue, events: seq<Event>)
    returns (statuses: seq<Status>, held: Node?, ghost gone: seq<Node>)
    requires q.Valid() && q.nodes == []
    modifies q
    ensures Matches(q, held, gone, After(events, q.cap, |events|)) && q.size <= q.cap + 1
    ensures Letters(Everyone(gone, held, q.nodes)) == After(events, q.cap, |events|).accepted
    ensures |statuses| == |events| && forall i :: 0 <= i < |events| ==> statuses[i] == StatusOf(events, q.cap, i)
  {
    hide Handle, Matches, After, Everyone;
    statuses, held, gone := [], null, [];
    StartMatches(q, events);
    for i := 0 to |events|
      invariant Matches(q, held, gone, After(events, q.cap, i)) && |statuses| == i
      invariant forall n :: n in Everyone(gone, held, q.nodes) ==> fresh(n)
      invariant forall k :: 0 <= k < i ==> statuses[k] == StatusOf(events, q.cap, k)
    {
      TailAndHeld(q, held, gone, After(events, q.cap, i));
      var status;
      status, held, gone := OneEvent(q, events[i], held, gone, After(events, q.cap, i));
      AfterNext(events, q.cap, i);
      statuses := statuses + [status];
    }
    EndMatches(q, held, gone, events);
  }

  function StatusOf(events: seq<Event>, cap: nat, i: nat): Status
    requires i < |events|
  {
    if events[i].Produce? && |After(events, cap, i).queued| >= cap then QueueIsFull else Ok
  }

  lemma AfterNext(events: seq<Event>, cap: nat, i: nat)
    requires i < |events|
    ensures After(events, cap, i + 1) == Handle(After(events, cap, i), events[i], cap)
  {
  }

  lemma StartMatches(q: Queue, events: seq<Event>)
    requires q.Valid() && q.nodes == []
    ensures Matches(q, null, [], After(events, q.cap, 0)) && Everyone([], null, q.nodes) == []
  {
  }

  lemma TailAndHeld(q: Queue, held: Node?, gone: seq<Node>, m: Mailbox)
    requires Matches(q, held, gone, m)
    ensures q.tail != null ==> q.tail in Everyone(gone, held, q.nodes)
    ensures held != null ==> held in Everyone(gone, held, q.nodes)
  {
    var all := Everyone(gone, held, q.nodes);
    assert q.tail != null ==> all[|all| - 1] == q.tail;
    assert held != null ==> all[|gone|] == held;
  }

  lemma EndMatches(q: Queue, held: Node?, gone: seq<Node>, events: seq<Event>)
    requires Matches(q, held, gone, After(events, q.cap, |events|))
    ensures Letters(Everyone(gone, held, q.nodes)) == After(events, q.cap, |events|).accepted && q.size <= q.cap + 1
  {
    FirstInFirstOut(events, q.cap, |events|);
    LettersAppend(gone + HeldSeq(held), q.nodes);
    LettersAppend(gone, HeldSeq(held));
  }

  lemma LettersAppend(a: seq<Node>, b: seq<Node>)
    ensures Letters(a + b) == Letters(a) + Letters(b)
  {
  }
}
