/**
 * StatusLoggerServer: forwards every change of a LocalStatusLogger to the
 * connected named-pipe clients and replays its history to each new client.
 * The locks become plain sequential methods; whether a connection reports
 * IsConnected at a push is an input.
 */
module StatusLoggerServing {
  import opened StatusEvents
  import opened Delivery

  /** The connections whose IsConnected holds, in collection order. */
  function Live(cs: seq<SubscriberId>, connected: set<SubscriberId>): seq<SubscriberId>
  {
    if cs == [] then []
    else Live(cs[..|cs| - 1], connected) + (if cs[|cs| - 1] in connected then [cs[|cs| - 1]] else [])
  }

  /** Live skips connections that are not connected, and keeps every connected one, however often it is listed. */
  lemma {:induction false} LiveCount(cs: seq<SubscriberId>, connected: set<SubscriberId>, c: SubscriberId)
    ensures multiset(Live(cs, connected))[c] == if c in connected then multiset(cs)[c] else 0
    decreases |cs|
  {
    if cs != [] {
      LiveCount(cs[..|cs| - 1], connected, c);
      assert cs[..|cs| - 1] + [cs[|cs| - 1]] == cs;
    }
  }

  /** Collection.Remove: the first occurrence of c goes, everything else stays in order. */
  function RemoveFirst(cs: seq<SubscriberId>, c: SubscriberId): seq<SubscriberId>
  {
    if cs == [] then []
    else if cs[0] == c then cs[1..]
    else [cs[0]] + RemoveFirst(cs[1..], c)
  }

  /** Remove drops one occurrence of c when there is one, and nothing else. */
  lemma {:induction false} RemoveFirstCount(cs: seq<SubscriberId>, c: SubscriberId)
    ensures multiset(RemoveFirst(cs, c)) == multiset(cs) - multiset{c}
    ensures c !in cs ==> RemoveFirst(cs, c) == cs
  {
    if cs != [] {
      assert [cs[0]] + cs[1..] == cs;
      assert multiset(cs) == multiset{cs[0]} + multiset(cs[1..]);
      if cs[0] != c {
        RemoveFirstCount(cs[1..], c);
        assert multiset(RemoveFirst(cs, c)) == multiset{cs[0]} + multiset(RemoveFirst(cs[1..], c));
      }
    }
  }

  datatype ServerState = ServerState(
    connections: seq<SubscriberId>,
    log: seq<StatusChangeEventArgs>,
    pushed: seq<Push>)

  /** OnChanged: push e to every connected connection, then append it to the log. */
  function ChangeStep(s: ServerState, e: StatusChangeEventArgs, connected: set<SubscriberId>): ServerState
  {
    ServerState(s.connections, s.log + [e], s.pushed + Fanout(Live(s.connections, connected), e))
  }

  /** ClientConnected: add the connection, then push it the whole log. */
  function ConnectStep(s: ServerState, c: SubscriberId): ServerState
  {
    ServerState(s.connections + [c], s.log, s.pushed + Replay(c, s.log))
  }

  /** ClientDisconnected: remove the connection. */
  function DisconnectStep(s: ServerState, c: SubscriberId): ServerState
  {
    s.(connections := RemoveFirst(s.connections, c))
  }

  /** Stop: forget every connection, keep the log. */
  function StopStep(s: ServerState): ServerState
  {
    s.(connections := [])
  }

  datatype ServerOp =
    | Change(e: StatusChangeEventArgs, connected: set<SubscriberId>)
    | Connect(c: SubscriberId)
    | Disconnect(c: SubscriberId)
    | Stop

  function Apply(s: ServerState, op: ServerOp): ServerState
  {
    match op
    case Change(e, connected) => ChangeStep(s, e, connected)
    case Connect(c) => ConnectStep(s, c)
    case Disconnect(c) => DisconnectStep(s, c)
    case Stop => StopStep(s)
  }

  function Run(s: ServerState, ops: seq<ServerOp>): ServerState
    decreases |ops|
  {
    if ops == [] then s else Run(Apply(s, ops[0]), ops[1..])
  }

  /** The events of a run, in emission order. */
  function Changes(ops: seq<ServerOp>): seq<StatusChangeEventArgs>
  {
    if ops == [] then []
    else (if ops[0].Change? then [ops[0].e] else []) + Changes(ops[1..])
  }

  /** The log is append-only and never trimmed: it gains every event, in order, and nothing else. */
  lemma {:induction false} LogIsHistory(s: ServerState, ops: seq<ServerOp>)
    ensures Run(s, ops).log == s.log + Changes(ops)
    decreases |ops|
  {
    if ops != [] {
      var t := Apply(s, ops[0]);
      var head := if ops[0].Change? then [ops[0].e] else [];
      assert t.log == s.log + head;
      LogIsHistory(t, ops[1..]);
      assert Changes(ops) == head + Changes(ops[1..]);
      assert Run(s, ops) == Run(t, ops[1..]);
      assert (s.log + head) + Changes(ops[1..]) == s.log + (head + Changes(ops[1..]));
    }
  }

  /** The step op keeps connection c up: it is not c connecting again, c leaving or Stop, and a push finds c connected. */
  predicate KeepsConnected(op: ServerOp, c: SubscriberId)
  {
    match op
    case Change(_, connected) => c in connected
    case Connect(d) => d != c
    case Disconnect(d) => d != c
    case Stop => false
  }

  /** c stays connected throughout ops. */
  ghost predicate StaysConnected(ops: seq<ServerOp>, c: SubscriberId)
  {
    forall i :: 0 <= i < |ops| ==> KeepsConnected(ops[i], c)
  }

  lemma StaysConnectedTail(ops: seq<ServerOp>, c: SubscriberId)
    requires ops != [] && StaysConnected(ops, c)
    ensures KeepsConnected(ops[0], c) && StaysConnected(ops[1..], c)
  {
    forall i | 0 <= i < |ops[1..]| ensures KeepsConnected(ops[1..][i], c) {
      assert ops[1..][i] == ops[i + 1];
    }
  }

  /** One step that keeps c up keeps it listed once, and gives it exactly the event of that step. */
  lemma StepKeepsConnection(s: ServerState, op: ServerOp, c: SubscriberId)
    requires multiset(s.connections)[c] == 1 && KeepsConnected(op, c)
    ensures multiset(Apply(s, op).connections)[c] == 1
    ensures Received(c, Apply(s, op).pushed) == Received(c, s.pushed) + (if op.Change? then [op.e] else [])
  {
    match op
    case Change(e, connected) =>
      LiveCount(s.connections, connected, c);
      ReceivedFanoutOnce(c, Live(s.connections, connected), e);
      ReceivedAppend(c, s.pushed, Fanout(Live(s.connections, connected), e));
    case Connect(d) =>
      ReceivedReplay(c, d, s.log);
      ReceivedAppend(c, s.pushed, Replay(d, s.log));
    case Disconnect(d) =>
      RemoveFirstCount(s.connections, d);
  }

  /** While c stays connected it receives every event of the run, in order, and nothing else. */
  lemma {:induction false} ReceivesLaterEvents(s: ServerState, ops: seq<ServerOp>, c: SubscriberId)
    requires multiset(s.connections)[c] == 1
    requires StaysConnected(ops, c)
    ensures Received(c, Run(s, ops).pushed) == Received(c, s.pushed) + Changes(ops)
    decreases |ops|
  {
    if ops != [] {
      var t := Apply(s, ops[0]);
      var head := if ops[0].Change? then [ops[0].e] else [];
      var rest := Run(t, ops[1..]);
      assert Received(c, rest.pushed) == Received(c, t.pushed) + Changes(ops[1..]) by {
        StaysConnectedTail(ops, c);
        StepKeepsConnection(s, ops[0], c);
        ReceivesLaterEvents(t, ops[1..], c);
      }
      assert Received(c, t.pushed) == Received(c, s.pushed) + head by {
        StaysConnectedTail(ops, c);
        StepKeepsConnection(s, ops[0], c);
      }
      assert Changes(ops) == head + Changes(ops[1..]);
      assert Run(s, ops) == rest;
    }
  }

  /**
   * A client that connects and stays connected receives the log as it was
   * at connect time followed by every later event: the final log, in order.
   */
  lemma ConnectedClientSeesWholeLog(s: ServerState, c: SubscriberId, ops: seq<ServerOp>)
    requires c !in s.connections
    requires StaysConnected(ops, c)
    ensures Received(c, Run(ConnectStep(s, c), ops).pushed) == Received(c, s.pushed) + Run(ConnectStep(s, c), ops).log
  {
    var t := ConnectStep(s, c);
    assert multiset(t.connections)[c] == multiset(s.connections)[c] + 1 == 1 by {
      assert multiset(t.connections) == multiset(s.connections) + multiset{c};
    }
    ReceivedReplay(c, c, s.log);
    ReceivedAppend(c, s.pushed, Replay(c, s.log));
    assert Received(c, t.pushed) == Received(c, s.pushed) + s.log;
    ReceivesLaterEvents(t, ops, c);
    LogIsHistory(t, ops);
    var r := Run(t, ops);
    assert r.log == s.log + Changes(ops);
    assert Received(c, r.pushed) == (Received(c, s.pushed) + s.log) + Changes(ops);
  }

  /** A disconnect removes only that connection; Stop removes all of them; neither touches the log or the pushes. */
  lemma DisconnectAndStopFrame(s: ServerState, c: SubscriberId)
    ensures multiset(DisconnectStep(s, c).connections) == multiset(s.connections) - multiset{c}
    ensures DisconnectStep(s, c).log == s.log && DisconnectStep(s, c).pushed == s.pushed
    ensures StopStep(s).connections == [] && StopStep(s).log == s.log && StopStep(s).pushed == s.pushed
  {
    RemoveFirstCount(s.connections, c);
  }

  /** A connection listed once but currently not connected gets nothing, and stays listed. */
  lemma DisconnectedOnesSkipped(s: ServerState, e: StatusChangeEventArgs, connected: set<SubscriberId>, c: SubscriberId)
    requires c !in connected
    ensures Received(c, ChangeStep(s, e, connected).pushed) == Received(c, s.pushed)
    ensures ChangeStep(s, e, connected).connections == s.connections
  {
    LiveCount(s.connections, connected, c);
    ReceivedFanout(c, Live(s.connections, connected), e);
    ReceivedAppend(c, s.pushed, Fanout(Live(s.connections, connected), e));
  }

  class StatusLoggerServer {
    /** `_connections`. */
    var connections: seq<SubscriberId>
    /** `_log`. */
    var log: seq<StatusChangeEventArgs>
    /** Every PushMessage so far, in order. */
    var pushed: seq<Push>

    function State(): ServerState
      reads this
    {
      ServerState(connections, log, pushed)
    }

    constructor()
      ensures State() == ServerState([], [], [])
    {
      connections := [];
      log := [];
      pushed := [];
    }

    /** OnChanged(sender, e); `connected` holds the connections whose IsConnected is true now. */
    method OnChanged(e: StatusChangeEventArgs, connected: set<SubscriberId>)
      modifies this
      ensures State() == ChangeStep(old(State()), e, connected)
    {
      var i := 0;
      while i < |connections|
        invariant 0 <= i <= |connections|
        invariant connections == old(connections) && log == old(log)
        invariant pushed == old(pushed) + Fanout(Live(connections[..i], connected), e)
      {
        assert connections[..i + 1][..i] == connections[..i];
        FanoutSnoc(Live(connections[..i], connected), connections[i], e);
        if connections[i] in connected {
          pushed := pushed + [Push(connections[i], e)];
        }
        i := i + 1;
      }
      assert connections[..i] == connections;
      log := log + [e];
    }

    /** ClientConnected(connection). */
    method ClientConnected(c: SubscriberId)
      modifies this
      ensures State() == ConnectStep(old(State()), c)
    {
      connections := connections + [c];
      var i := 0;
      while i < |log|
        invariant 0 <= i <= |log|
        invariant connections == old(connections) + [c] && log == old(log)
        invariant pushed == old(pushed) + Replay(c, log[..i])
      {
        assert log[..i + 1] == log[..i] + [log[i]];
        ReplaySnoc(c, log[..i], log[i]);
        pushed := pushed + [Push(c, log[i])];
        i := i + 1;
      }
      assert log[..i] == log;
    }

    /** ClientDisconnected(connection). */
    method ClientDisconnected(c: SubscriberId)
      modifies this
      ensures State() == DisconnectStep(old(State()), c)
    {
      connections := RemoveFirst(connections, c);
    }

    /** Stop(): the pipe server stops and the connection list is cleared. */
    method Stop()
      modifies this
      ensures State() == StopStep(old(State()))
    {
      connections := [];
    }
  }
}
