/** The benchmark's TCP barrier as a step system: rank 0 is the server, every other rank is a
    client with its own connection; each rank calls Barrier any number of times. A read that
    waits too long times out, and the call returns an error. */
module Barrier {
  import Compaction

  const ENTER: char := 'S'
  const RELEASE: char := 'R'
  const BUFFER_LEN: nat := 10

  /** Where a client is: between calls, waiting for its release, or back with an error. */
  datatype ClientPc = Away | Waiting | ClientFailed

  /** Where the server is: between calls, about to read from client i, about to release
      client i, or back with an error from reading client i. */
  datatype ServerPc = Absent | Reading(i: nat) | Sending(i: nat) | ServerFailed(i: nat)

  /** How many calls have returned success, and how many an error (-74). */
  datatype Client = Client(pc: ClientPc, left: nat, failed: nat)

  /** up[c] and down[c] hold the bytes in flight from and to client c; left and failed (-71)
      count the server's calls. */
  datatype State = State(clients: seq<Client>, up: seq<string>, down: seq<string>, pc: ServerPc, left: nat, failed: nat)

  /** size is how many of the available bytes one read call returns. */
  datatype Action =
    | ClientSend(c: nat)
    | ClientRead(c: nat, size: nat)
    | ClientTimeout(c: nat)
    | ServerEnter
    | ServerRead(size: nat)
    | ServerTimeout
    | ServerTurn
    | ServerSend
    | ServerLeave

  ghost predicate Typed(s: State) { |s.up| == |s.clients| == |s.down| }

  /** A read returns between one and ten of the bytes that have arrived. */
  predicate Readable(bytes: string, size: nat) { 1 <= size <= BUFFER_LEN && size <= |bytes| }

  /** A rank may call again after an error. A read can time out only while nothing arrives. */
  ghost predicate Enabled(s: State, a: Action)
    requires Typed(s)
  {
    match a
    case ClientSend(c) => c < |s.clients| && s.clients[c].pc != Waiting
    case ClientRead(c, size) => c < |s.clients| && s.clients[c].pc == Waiting && Readable(s.down[c], size)
    case ClientTimeout(c) => c < |s.clients| && s.clients[c].pc == Waiting && s.down[c] == []
    case ServerEnter => s.pc.Absent? || s.pc.ServerFailed?
    case ServerRead(size) => s.pc.Reading? && s.pc.i < |s.clients| && Readable(s.up[s.pc.i], size)
    case ServerTimeout => s.pc.Reading? && s.pc.i < |s.clients| && s.up[s.pc.i] == []
    case ServerTurn => s.pc == Reading(|s.clients|)
    case ServerSend => s.pc.Sending? && s.pc.i < |s.clients|
    case ServerLeave => s.pc == Sending(|s.clients|)
  }

  function Fail(c: Client): Client { Client(ClientFailed, c.left, c.failed + 1) }

  ghost function Apply(s: State, a: Action): (t: State)
    requires Typed(s) && Enabled(s, a)
    ensures Typed(t) && |t.clients| == |s.clients|
  {
    match a
    case ClientSend(c) =>
      s.(clients := s.clients[c := s.clients[c].(pc := Waiting)], up := s.up[c := s.up[c] + [ENTER]])
    case ClientRead(c, size) =>
      var client := s.clients[c];
      var after := if s.down[c][0] == RELEASE then Client(Away, client.left + 1, client.failed) else Fail(client);
      s.(clients := s.clients[c := after],
         down := s.down[c := s.down[c][size..]])
    case ClientTimeout(c) => s.(clients := s.clients[c := Fail(s.clients[c])])
    case ServerEnter => s.(pc := Reading(0))
    case ServerRead(size) =>
      var i := s.pc.i;
      var t := s.(up := s.up[i := s.up[i][size..]]);
      if s.up[i][0] == ENTER then t.(pc := Reading(i + 1)) else t.(pc := ServerFailed(i), failed := s.failed + 1)
    case ServerTimeout => s.(pc := ServerFailed(s.pc.i), failed := s.failed + 1)
    case ServerTurn => s.(pc := Sending(0))
    case ServerSend => s.(down := s.down[s.pc.i := s.down[s.pc.i] + [RELEASE]], pc := Sending(s.pc.i + 1))
    case ServerLeave => s.(pc := Absent, left := s.left + 1)
  }

  ghost predicate Start(s: State) {
    && Typed(s) && s.pc == Absent && s.left == s.failed == 0
    && forall c :: 0 <= c < |s.clients| ==> s.clients[c] == Client(Away, 0, 0) && s.up[c] == [] && s.down[c] == []
  }

  ghost predicate Reaches(start: State, actions: seq<Action>, s: State)
    decreases |actions|
  {
    if actions == [] then s == start else exists q: State :: StepsTo(start, actions, q, s)
  }

  ghost predicate StepsTo(start: State, actions: seq<Action>, q: State, s: State)
    requires actions != []
    decreases |actions|, 0
  {
    var n := |actions| - 1;
    Reaches(start, actions[..n], q) && Typed(q) && Enabled(q, actions[n]) && s == Apply(q, actions[n])
  }

  lemma Go(start: State, actions: seq<Action>, s: State, a: Action) returns (more: seq<Action>, t: State)
    requires Reaches(start, actions, s) && Typed(s) && Enabled(s, a)
    ensures t == Apply(s, a) && Reaches(start, more, t)
  {
    more, t := actions + [a], Apply(s, a);
    assert more[..|actions|] == actions;
    assert StepsTo(start, more, s, t);
  }

  // ---- counting calls

  /** Calls that client c has begun. */
  function Entered(s: State, c: nat): nat
    requires c < |s.clients|
  {
    s.clients[c].left + s.clients[c].failed + if s.clients[c].pc == Waiting then 1 else 0
  }

  /** Calls the server has begun. */
  function ServerEntered(s: State): nat { s.left + s.failed + if s.pc.Reading? || s.pc.Sending? then 1 else 0 }

  // ---- errors are timeouts

  ghost predicate RightBytes(s: State) {
    && (forall c :: 0 <= c < |s.up| ==> forall k :: 0 <= k < |s.up[c]| ==> s.up[c][k] == ENTER)
    && (forall c :: 0 <= c < |s.down| ==> forall k :: 0 <= k < |s.down[c]| ==> s.down[c][k] == RELEASE)
  }

  lemma StepKeepsBytes(s: State, a: Action)
    requires Typed(s) && RightBytes(s) && Enabled(s, a)
    ensures RightBytes(Apply(s, a))
  {
  }

  lemma StepFailure(s: State, a: Action)
    requires Typed(s) && RightBytes(s) && Enabled(s, a)
    ensures Apply(s, a).failed == s.failed + if a == ServerTimeout then 1 else 0
    ensures forall c: nat :: c < |s.clients| ==>
      Apply(s, a).clients[c].failed == s.clients[c].failed + if a == ClientTimeout(c) then 1 else 0
  {
  }

  /** In every run, also one with repeated calls, the errors a rank has returned are exactly
      its timeouts: no read ever sees a wrong byte. */
  lemma {:induction false} ErrorsAreTimeouts(start: State, actions: seq<Action>, s: State)
    requires Start(start) && Reaches(start, actions, s)
    ensures Typed(s) && |s.clients| == |start.clients| && RightBytes(s)
    ensures forall c, k :: 0 <= c < |s.up| && 0 <= k < |s.up[c]| ==> s.up[c][k] == 'S'
    ensures forall c, k :: 0 <= c < |s.down| && 0 <= k < |s.down[c]| ==> s.down[c][k] == 'R'
    ensures s.failed == multiset(actions)[ServerTimeout]
    ensures forall c: nat :: c < |s.clients| ==> s.clients[c].failed == multiset(actions)[ClientTimeout(c)]
    decreases |actions|
  {
    hide Apply, RightBytes, Enabled;
    if actions == [] {
      StartBytes(start);
    } else {
      var n := |actions| - 1;
      var q :| StepsTo(start, actions, q, s);
      ErrorsAreTimeouts(start, actions[..n], q);
      StepKeepsBytes(q, actions[n]);
      StepFailure(q, actions[n]);
      Compaction.CountLast(actions, ServerTimeout);
      forall c: nat | c < |s.clients|
        ensures s.clients[c].failed == multiset(actions)[ClientTimeout(c)]
      {
        Compaction.CountLast(actions, ClientTimeout(c));
      }
    }
  }

  lemma StartBytes(s: State)
    requires Start(s)
    ensures RightBytes(s)
  {
  }

  // ---- order on each connection, in every run

  /** Bytes of the calls the server counts as read from client c, and as sent to it. */
  function Received(s: State, c: nat): nat {
    s.left + if s.pc.Sending? || ((s.pc.Reading? || s.pc.ServerFailed?) && c < s.pc.i) then 1 else 0
  }

  function Released(s: State, c: nat): nat {
    s.left + if s.pc.Sending? && c < s.pc.i then 1 else 0
  }

  /** What a client has entered covers what the server has received and what is under way. */
  ghost predicate UpInOrder(s: State, c: nat)
    requires Typed(s) && c < |s.clients|
  {
    && (s.clients[c].pc.ClientFailed? ==> s.clients[c].failed > 0) && Received(s, c) + |s.up[c]| <= Entered(s, c)
    && (s.failed == s.clients[c].failed == 0 ==> Received(s, c) + |s.up[c]| == Entered(s, c))
  }

  /** What the server has released covers what the client has left and what is under way. */
  ghost predicate DownInOrder(s: State, c: nat)
    requires Typed(s) && c < |s.clients|
  {
    && s.clients[c].left + |s.down[c]| <= Released(s, c)
    && (s.failed == s.clients[c].failed == 0 ==> s.clients[c].left + |s.down[c]| == Released(s, c))
  }

  ghost predicate InOrder(s: State, c: nat)
    requires Typed(s) && c < |s.clients|
  {
    UpInOrder(s, c) && DownInOrder(s, c)
  }

  ghost predicate Inv(s: State) {
    && Typed(s) && RightBytes(s)
    && (!s.pc.Absent? ==> s.pc.i <= |s.clients|) && (s.pc.ServerFailed? ==> s.failed > 0)
    && forall c: nat :: c < |s.clients| ==> InOrder(s, c)
  }

  lemma ClientKeepsUp(s: State, a: Action, c: nat)
    requires Inv(s) && Enabled(s, a) && c < |s.clients| && (a.ClientSend? || a.ClientRead? || a.ClientTimeout?)
    ensures UpInOrder(Apply(s, a), c)
  {
    assert InOrder(s, c);
  }

  lemma ServerKeepsUp(s: State, a: Action, c: nat)
    requires Inv(s) && Enabled(s, a) && c < |s.clients| && !a.ClientSend? && !a.ClientRead? && !a.ClientTimeout?
    ensures UpInOrder(Apply(s, a), c)
  {
    assert InOrder(s, c);
  }

  lemma ClientKeepsDown(s: State, a: Action, c: nat)
    requires Inv(s) && Enabled(s, a) && c < |s.clients| && (a.ClientSend? || a.ClientRead? || a.ClientTimeout?)
    ensures DownInOrder(Apply(s, a), c)
  {
    assert InOrder(s, c);
  }

  lemma ServerKeepsDown(s: State, a: Action, c: nat)
    requires Inv(s) && Enabled(s, a) && c < |s.clients| && !a.ClientSend? && !a.ClientRead? && !a.ClientTimeout?
    ensures DownInOrder(Apply(s, a), c)
  {
    assert InOrder(s, c);
  }

  lemma StepKeepsOrder(s: State, a: Action, c: nat)
    requires Inv(s) && Enabled(s, a) && c < |s.clients|
    ensures InOrder(Apply(s, a), c)
  {
    hide Apply, Inv, Enabled;
    if a.ClientSend? || a.ClientRead? || a.ClientTimeout? {
      ClientKeepsUp(s, a, c);
      ClientKeepsDown(s, a, c);
    } else {
      ServerKeepsUp(s, a, c);
      ServerKeepsDown(s, a, c);
    }
  }

  lemma StepKeepsInv(s: State, a: Action)
    requires Inv(s) && Enabled(s, a)
    ensures Inv(Apply(s, a))
  {
    hide InOrder, RightBytes;
    StepKeepsBytes(s, a);
    forall c: nat | c < |s.clients| ensures InOrder(Apply(s, a), c) { StepKeepsOrder(s, a, c); }
  }

  lemma {:induction false} Always(start: State, actions: seq<Action>, s: State)
    requires Start(start) && Reaches(start, actions, s)
    ensures Inv(s)
    decreases |actions|
  {
    if actions == [] {
    } else {
      var q :| StepsTo(start, actions, q, s);
      Always(start, actions[..|actions| - 1], q);
      StepKeepsInv(q, actions[|actions| - 1]);
    }
  }

  /** In every run, timeouts and repeated calls included, no rank has returned success more
      often than any other rank, server or client, has entered. */
  lemma NoneLeavesEarly(start: State, actions: seq<Action>, s: State, c: nat, d: nat)
    requires Start(start) && Reaches(start, actions, s) && c < |s.clients| && d < |s.clients|
    ensures s.clients[c].left <= Entered(s, d)
    ensures s.clients[c].left <= ServerEntered(s) && s.left <= Entered(s, d)
  {
    Always(start, actions, s);
    assert InOrder(s, c) && InOrder(s, d);
  }

  /** In every run the bytes in flight on a connection are at most one for the call the client
      is in and one for each of its errors. */
  lemma BytesInFlight(start: State, actions: seq<Action>, s: State, c: nat)
    requires Start(start) && Reaches(start, actions, s) && c < |s.clients|
    ensures Typed(s)
    ensures |s.up[c]| + |s.down[c]| <= s.clients[c].failed + if s.clients[c].pc == Waiting then 1 else 0
  {
    Always(start, actions, s);
    assert InOrder(s, c);
  }

  /** The calls a rank has entered are its calls in the run, successful or not. */
  lemma {:induction false} EnteredAreCalls(start: State, actions: seq<Action>, s: State)
    requires Start(start) && Reaches(start, actions, s)
    ensures Typed(s) && ServerEntered(s) == multiset(actions)[ServerEnter]
    ensures forall c: nat :: c < |s.clients| ==> Entered(s, c) == multiset(actions)[ClientSend(c)]
    decreases |actions|
  {
    if actions == [] {
    } else {
      var n := |actions| - 1;
      var q :| StepsTo(start, actions, q, s);
      EnteredAreCalls(start, actions[..n], q);
      EnteredNext(q, actions[n]);
      Compaction.CountLast(actions, ServerEnter);
      forall c: nat | c < |s.clients|
        ensures Entered(s, c) == multiset(actions)[ClientSend(c)]
      {
        Compaction.CountLast(actions, ClientSend(c));
      }
    }
  }

  lemma EnteredNext(s: State, a: Action)
    requires Typed(s) && Enabled(s, a)
    ensures ServerEntered(Apply(s, a)) == ServerEntered(s) + if a == ServerEnter then 1 else 0
    ensures forall c: nat :: c < |s.clients| ==>
      Entered(Apply(s, a), c) == Entered(s, c) + if a == ClientSend(c) then 1 else 0
  {
  }

  // ---- what one call of the server reads and sends

  /** How many clients the server has read, and how many it has sent to, since it entered the
      call. */
  function ReadsInCall(actions: seq<Action>): nat {
    if actions == [] then 0
    else
      var a, before := actions[|actions| - 1], ReadsInCall(actions[..|actions| - 1]);
      if a.ServerEnter? then 0 else if a.ServerRead? then before + 1 else before
  }

  function SendsInCall(actions: seq<Action>): nat {
    if actions == [] then 0
    else
      var a, before := actions[|actions| - 1], SendsInCall(actions[..|actions| - 1]);
      if a.ServerEnter? then 0 else if a.ServerSend? then before + 1 else before
  }

  /** In every run each call of the server, also one after an error, reads the clients one
      after the other from the first on, and sends to nobody before it has read them all. */
  lemma {:induction false} EveryCallReadsAll(start: State, actions: seq<Action>, s: State)
    requires Start(start) && Reaches(start, actions, s)
    ensures s.pc.Reading? ==> s.pc.i == ReadsInCall(actions) && SendsInCall(actions) == 0
    ensures s.pc.Sending? ==> ReadsInCall(actions) == |s.clients| && s.pc.i == SendsInCall(actions)
    decreases |actions|
  {
    hide RightBytes;
    if actions == [] {
    } else {
      var q :| StepsTo(start, actions, q, s);
      EveryCallReadsAll(start, actions[..|actions| - 1], q);
    }
  }

  /** A read returns one to ten of the bytes that have arrived. */
  lemma ReadableIs(s: State, c: nat, size: nat)
    requires Typed(s) && c < |s.clients| && s.clients[c].pc == Waiting
    ensures Enabled(s, ClientRead(c, size)) <==> 1 <= size <= 10 && size <= |s.down[c]|
  {
  }

  // ---- by call number

  /** Client c is back from as many calls as it has entered, and had k errors. */
  ghost predicate BackWith(start: State, actions: seq<Action>, s: State, c: nat, k: nat) {
    && Start(start) && Reaches(start, actions, s)
    && c < |s.clients| && s.clients[c].pc != Waiting && s.clients[c].failed == k
  }

  /** In every run a client that is back from its n-th call is ahead of any other rank by at
      most the number of its own errors, whatever errors the others had. */
  lemma AheadByErrors(start: State, actions: seq<Action>, s: State, c: nat, d: nat, k: nat)
    requires BackWith(start, actions, s, c, k) && d < |s.clients|
    ensures Entered(s, c) <= Entered(s, d) + k && Entered(s, c) <= ServerEntered(s) + k
  {
    NoneLeavesEarly(start, actions, s, c, d);
  }

  /** So is the server. */
  lemma ServerAheadByErrors(start: State, actions: seq<Action>, s: State, d: nat)
    requires Start(start) && Reaches(start, actions, s) && d < |s.clients| && !s.pc.Reading? && !s.pc.Sending?
    ensures ServerEntered(s) <= Entered(s, d) + s.failed
  {
    NoneLeavesEarly(start, actions, s, d, d);
  }

  ghost predicate NoTimeout(actions: seq<Action>) {
    forall i :: 0 <= i < |actions| ==> !actions[i].ClientTimeout? && !actions[i].ServerTimeout?
  }

  ghost predicate Failure(s: State) { s.failed > 0 || exists c :: 0 <= c < |s.clients| && s.clients[c].failed > 0 }

  /** Some rank has returned an error if and only if some read timed out. */
  lemma FailsIff(start: State, actions: seq<Action>, s: State)
    requires Start(start) && Reaches(start, actions, s)
    ensures Failure(s) <==> !NoTimeout(actions)
  {
    ErrorsAreTimeouts(start, actions, s);
    TimeoutsCounted(start, actions, s);
  }

  lemma {:induction false} TimeoutsCounted(start: State, actions: seq<Action>, s: State)
    requires Reaches(start, actions, s)
    ensures forall i :: 0 <= i < |actions| && actions[i].ClientTimeout? ==> actions[i].c < |start.clients|
    ensures |s.clients| == |start.clients|
    ensures NoTimeout(actions) <==>
      multiset(actions)[ServerTimeout] == 0 && forall c: nat :: c < |start.clients| ==>
        multiset(actions)[ClientTimeout(c)] == 0
    decreases |actions|
  {
    if actions == [] {
    } else {
      var n := |actions| - 1;
      var q :| StepsTo(start, actions, q, s);
      TimeoutsCounted(start, actions[..n], q);
    }
    forall i | 0 <= i < |actions|
      ensures multiset(actions)[actions[i]] > 0
    {
      assert actions[i] in actions;
    }
    forall a: Action | multiset(actions)[a] > 0
      ensures a in actions
    {
    }
  }

  /** Client d has not entered the call c is in, and can go on. */
  ghost predicate LagsBehind(s: State, d: nat, c: nat)
    requires Typed(s) && c < |s.clients|
  {
    d < |s.clients| && Entered(s, d) < Entered(s, c) && (s.clients[d].pc == Away || Enabled(s, ClientRead(d, 1)))
  }

  /** In every run without a timeout, a client that waits in vain waits for a rank that has
      not entered the call: otherwise its own read or the server can go on. A client that is
      still in the call before can read its release. */
  lemma WaitsOnlyForAbsent(start: State, actions: seq<Action>, s: State, c: nat)
    requires Start(start) && Reaches(start, actions, s) && !Failure(s)
    requires c < |s.clients| && Typed(s) && s.clients[c].pc == Waiting
    ensures || Enabled(s, ClientRead(c, 1)) || Enabled(s, ServerRead(1)) || Enabled(s, ServerTurn)
            || Enabled(s, ServerSend) || Enabled(s, ServerLeave)
            || (s.pc == Absent && ServerEntered(s) < Entered(s, c))
            || exists d: nat :: LagsBehind(s, d, c)
  {
    Always(start, actions, s);
    assert InOrder(s, c) && s.clients[c].failed == 0;
    if s.pc.Reading? && s.pc.i < |s.clients| {
      assert InOrder(s, s.pc.i) && s.clients[s.pc.i].failed == 0;
      assert s.up[s.pc.i] != [] || LagsBehind(s, s.pc.i, c) || Enabled(s, ClientRead(c, 1));
    }
  }

  // ---- the bound by errors is exact

  const TWO_CLIENTS: State := State([Client(Away, 0, 0), Client(Away, 0, 0)], ["", ""], ["", ""], Absent, 0, 0)

  /** Nobody but client 0 has done anything. */
  ghost predicate Alone(s: State, client: Client, bytes: nat) {
    && Typed(s) && |s.clients| == 2 && s.clients[0] == client && s.clients[1] == Client(Away, 0, 0)
    && |s.up[0]| == bytes && s.up[1] == s.down[0] == s.down[1] == []
    && s.pc == Absent && s.left == s.failed == 0
  }

  /** Client 0 waits in vain and calls again, k times: k + 1 bytes are in flight. */
  lemma {:induction false} CallsAgain(k: nat) returns (actions: seq<Action>, s: State)
    ensures Start(TWO_CLIENTS) && Reaches(TWO_CLIENTS, actions, s) && Alone(s, Client(Waiting, 0, k), k + 1)
  {
    if k == 0 {
      actions, s := Go(TWO_CLIENTS, [], TWO_CLIENTS, ClientSend(0));
    } else {
      actions, s := CallsAgain(k - 1);
      actions, s := Go(TWO_CLIENTS, actions, s, ClientTimeout(0));
      actions, s := Go(TWO_CLIENTS, actions, s, ClientSend(0));
    }
  }

  /** Then the others enter one call each, and client 0 leaves its call number k + 1 with
      success: it is ahead by k. */
  lemma LeavesEarly(k: nat) returns (actions: seq<Action>, s: State)
    ensures BackWith(TWO_CLIENTS, actions, s, 0, k) && |s.clients| == 2
    ensures s.clients[0].pc == Away && Entered(s, 0) == k + 1 && Entered(s, 1) == 1 && ServerEntered(s) == 1
  {
    actions, s := CallsAgain(k);
    AllRight(actions, s);
    actions, s := Go(TWO_CLIENTS, actions, s, ServerEnter);
    actions, s := Go(TWO_CLIENTS, actions, s, ServerRead(1));
    actions, s := Go(TWO_CLIENTS, actions, s, ClientSend(1));
    actions, s := Go(TWO_CLIENTS, actions, s, ServerRead(1));
    actions, s := Go(TWO_CLIENTS, actions, s, ServerTurn);
    actions, s := Go(TWO_CLIENTS, actions, s, ServerSend);
    actions, s := Go(TWO_CLIENTS, actions, s, ClientRead(0, 1));
  }

  lemma AllRight(actions: seq<Action>, s: State)
    requires Reaches(TWO_CLIENTS, actions, s)
    ensures RightBytes(s)
  {
    ErrorsAreTimeouts(TWO_CLIENTS, actions, s);
  }

  /** Whatever the other ranks do, a client that is back from a call finds that all ranks have
      entered as many calls as itself exactly when it has had no error. */
  lemma InTimeIff(k: nat)
    ensures (forall start, actions, s, c: nat, d: nat ::
               BackWith(start, actions, s, c, k) && d < |s.clients| ==>
                 Entered(s, c) <= Entered(s, d) && Entered(s, c) <= ServerEntered(s))
            <==> k == 0
  {
    if k == 0 {
      forall start, actions, s, c: nat, d: nat | BackWith(start, actions, s, c, 0) && d < |s.clients|
        ensures Entered(s, c) <= Entered(s, d) && Entered(s, c) <= ServerEntered(s)
      {
        AheadByErrors(start, actions, s, c, d, 0);
      }
    } else {
      var actions, s := LeavesEarly(k);
      assert BackWith(TWO_CLIENTS, actions, s, 0, k) && Entered(s, 0) > Entered(s, 1);
    }
  }
}
