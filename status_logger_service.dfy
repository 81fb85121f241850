/**
 * StatusLoggerService: the WCF service that forwards every change to the
 * registered client callbacks and replays its history to each new session.
 * Each callback is an abstract subscriber id; the lock is dropped.
 */
module StatusLoggerServices {
  import opened StatusEvents
  import opened Delivery
  import opened SizeLimited

  /** The limit the service's SizeLimitedCollection is created with. */
  const ServiceLogLimit: nat := 1000

  datatype ServiceState = ServiceState(
    callbacks: seq<SubscriberId>,
    log: seq<StatusChangeEventArgs>,
    delivered: seq<Push>)

  /** OpenSession: register the caller's callback, then send it every logged event. */
  function OpenStep(s: ServiceState, c: SubscriberId): ServiceState
  {
    ServiceState(s.callbacks + [c], s.log, s.delivered + Replay(c, s.log))
  }

  /**
   * OnChanged as written: every callback gets e, then `_log.Add(e)`; `_log`
   * has static type Collection<T>, so this is the base Add and nothing is trimmed.
   */
  function ChangeStep(s: ServiceState, e: StatusChangeEventArgs): ServiceState
  {
    ServiceState(s.callbacks, s.log + [e], s.delivered + Fanout(s.callbacks, e))
  }

  /** OnChanged as evidently intended: the log keeps only its last ServiceLogLimit events. */
  function BoundedChangeStep(s: ServiceState, e: StatusChangeEventArgs): ServiceState
  {
    ServiceState(s.callbacks, LastN(s.log + [e], ServiceLogLimit), s.delivered + Fanout(s.callbacks, e))
  }

  datatype ServiceOp = Open(c: SubscriberId) | Change(e: StatusChangeEventArgs)

  function Apply(s: ServiceState, op: ServiceOp): ServiceState
  {
    match op
    case Open(c) => OpenStep(s, c)
    case Change(e) => ChangeStep(s, e)
  }

  function Run(s: ServiceState, ops: seq<ServiceOp>): ServiceState
    decreases |ops|
  {
    if ops == [] then s else Run(Apply(s, ops[0]), ops[1..])
  }

  function ApplyBounded(s: ServiceState, op: ServiceOp): ServiceState
  {
    match op
    case Open(c) => OpenStep(s, c)
    case Change(e) => BoundedChangeStep(s, e)
  }

  /** The same run with the bounded OnChanged. */
  function RunBounded(s: ServiceState, ops: seq<ServiceOp>): ServiceState
    decreases |ops|
  {
    if ops == [] then s else RunBounded(ApplyBounded(s, ops[0]), ops[1..])
  }

  function Changes(ops: seq<ServiceOp>): seq<StatusChangeEventArgs>
  {
    if ops == [] then [] else (if ops[0].Change? then [ops[0].e] else []) + Changes(ops[1..])
  }

  function Opened(ops: seq<ServiceOp>): seq<SubscriberId>
  {
    if ops == [] then [] else (if ops[0].Open? then [ops[0].c] else []) + Opened(ops[1..])
  }

  /** Callbacks are only ever appended, and the log as written keeps every event: nothing is ever removed. */
  lemma {:induction false} RunHistory(s: ServiceState, ops: seq<ServiceOp>)
    ensures Run(s, ops).callbacks == s.callbacks + Opened(ops)
    ensures Run(s, ops).log == s.log + Changes(ops)
    decreases |ops|
  {
    if ops != [] {
      RunHistory(Apply(s, ops[0]), ops[1..]);
    }
  }

  /** OpenSession registers the callback and replays the current log to it, in order. */
  lemma OpenSessionReplays(s: ServiceState, c: SubscriberId)
    ensures OpenStep(s, c).callbacks == s.callbacks + [c]
    ensures Received(c, OpenStep(s, c).delivered) == Received(c, s.delivered) + s.log
    ensures forall d :: d != c ==> Received(d, OpenStep(s, c).delivered) == Received(d, s.delivered)
  {
    ReceivedReplay(c, c, s.log);
    ReceivedAppend(c, s.delivered, Replay(c, s.log));
    forall d | d != c ensures Received(d, OpenStep(s, c).delivered) == Received(d, s.delivered) {
      ReceivedReplay(d, c, s.log);
      ReceivedAppend(d, s.delivered, Replay(c, s.log));
    }
  }

  /** A change reaches every callback registered once, and only the registered ones; then it is logged. */
  lemma ChangeReachesCallbacks(s: ServiceState, e: StatusChangeEventArgs, c: SubscriberId)
    ensures ChangeStep(s, e).log == s.log + [e]
    ensures Received(c, ChangeStep(s, e).delivered) == Received(c, s.delivered) + Received(c, Fanout(s.callbacks, e))
    ensures |Received(c, Fanout(s.callbacks, e))| == multiset(s.callbacks)[c]
    ensures multiset(s.callbacks)[c] == 1 ==> Received(c, ChangeStep(s, e).delivered) == Received(c, s.delivered) + [e]
  {
    ReceivedAppend(c, s.delivered, Fanout(s.callbacks, e));
    ReceivedFanout(c, s.callbacks, e);
    if multiset(s.callbacks)[c] == 1 {
      ReceivedFanoutOnce(c, s.callbacks, e);
    }
  }

  /** No other session is opened with c's callback. */
  ghost predicate NoReopen(ops: seq<ServiceOp>, c: SubscriberId)
  {
    forall i :: 0 <= i < |ops| && ops[i].Open? ==> ops[i].c != c
  }

  lemma NoReopenTail(ops: seq<ServiceOp>, c: SubscriberId)
    requires ops != [] && NoReopen(ops, c)
    ensures (ops[0].Open? ==> ops[0].c != c) && NoReopen(ops[1..], c)
  {
    forall i | 0 <= i < |ops[1..]| && ops[1..][i].Open? ensures ops[1..][i].c != c {
      assert ops[1..][i] == ops[i + 1];
    }
  }

  lemma StepKeepsCallback(s: ServiceState, op: ServiceOp, c: SubscriberId)
    requires multiset(s.callbacks)[c] == 1 && (op.Open? ==> op.c != c)
    ensures multiset(Apply(s, op).callbacks)[c] == 1
    ensures Received(c, Apply(s, op).delivered) == Received(c, s.delivered) + (if op.Change? then [op.e] else [])
  {
    match op
    case Open(d) =>
      ReceivedReplay(c, d, s.log);
      ReceivedAppend(c, s.delivered, Replay(d, s.log));
    case Change(e) =>
      ChangeReachesCallbacks(s, e, c);
  }

  lemma {:induction false} ReceivesLaterEvents(s: ServiceState, ops: seq<ServiceOp>, c: SubscriberId)
    requires multiset(s.callbacks)[c] == 1 && NoReopen(ops, c)
    ensures Received(c, Run(s, ops).delivered) == Received(c, s.delivered) + Changes(ops)
    decreases |ops|
  {
    if ops != [] {
      var t := Apply(s, ops[0]);
      var head := if ops[0].Change? then [ops[0].e] else [];
      var rest := Run(t, ops[1..]);
      assert Received(c, rest.delivered) == Received(c, t.delivered) + Changes(ops[1..]) by {
        NoReopenTail(ops, c);
        StepKeepsCallback(s, ops[0], c);
        ReceivesLaterEvents(t, ops[1..], c);
      }
      assert Received(c, t.delivered) == Received(c, s.delivered) + head by {
        NoReopenTail(ops, c);
        StepKeepsCallback(s, ops[0], c);
      }
      assert Changes(ops) == head + Changes(ops[1..]);
      assert Run(s, ops) == rest;
    }
  }

  /**
   * A session's callback receives every event ever logged before it opened,
   * even those from before any session existed, and then every later event:
   * the whole final log, in order.
   */
  lemma SessionSeesWholeLog(s: ServiceState, c: SubscriberId, ops: seq<ServiceOp>)
    requires c !in s.callbacks && NoReopen(ops, c)
    ensures Received(c, Run(OpenStep(s, c), ops).delivered) == Received(c, s.delivered) + Run(OpenStep(s, c), ops).log
  {
    var t := OpenStep(s, c);
    assert Received(c, t.delivered) == Received(c, s.delivered) + s.log by {
      OpenSessionReplays(s, c);
    }
    assert Received(c, Run(t, ops).delivered) == Received(c, t.delivered) + Changes(ops) by {
      assert multiset(t.callbacks) == multiset(s.callbacks) + multiset{c};
      ReceivesLaterEvents(t, ops, c);
    }
    assert Run(t, ops).log == s.log + Changes(ops) by {
      RunHistory(t, ops);
    }
    var r := Run(t, ops);
    assert Received(c, r.delivered) == (Received(c, s.delivered) + s.log) + Changes(ops);
    assert (Received(c, s.delivered) + s.log) + Changes(ops) == Received(c, s.delivered) + (s.log + Changes(ops));
  }

  /** As written, the log outgrows the collection's limit: 1001 events leave 1001 entries. */
  lemma LogOutgrowsLimit(s: ServiceState, ops: seq<ServiceOp>)
    requires s.log == [] && |Changes(ops)| == ServiceLogLimit + 1
    ensures |Run(s, ops).log| > ServiceLogLimit
  {
    RunHistory(s, ops);
  }

  /** With the bounded OnChanged the log holds exactly the last ServiceLogLimit events of the run. */
  lemma {:induction false} BoundedLogKeepsLast(s: ServiceState, ops: seq<ServiceOp>)
    requires |s.log| <= ServiceLogLimit
    ensures RunBounded(s, ops).log == LastN(s.log + Changes(ops), ServiceLogLimit)
    ensures |RunBounded(s, ops).log| <= ServiceLogLimit
    decreases |ops|
  {
    if ops == [] {
      assert s.log + [] == s.log;
    } else {
      var t := ApplyBounded(s, ops[0]);
      var head := if ops[0].Change? then [ops[0].e] else [];
      assert t.log == LastN(s.log + head, ServiceLogLimit);
      assert RunBounded(s, ops) == RunBounded(t, ops[1..]);
      assert RunBounded(t, ops[1..]).log == LastN(s.log + head + Changes(ops[1..]), ServiceLogLimit) by {
        BoundedLogKeepsLast(t, ops[1..]);
        LastNConcat(s.log + head, Changes(ops[1..]), ServiceLogLimit);
      }
      assert s.log + head + Changes(ops[1..]) == s.log + Changes(ops);
    }
  }

  class StatusLoggerService {
    /** `_callbacks`. */
    var callbacks: seq<SubscriberId>
    /** `_log`, used only through its Collection<T> interface. */
    var log: seq<StatusChangeEventArgs>
    /** Every callback.OnChanged so far, in order. */
    var delivered: seq<Push>

    function State(): ServiceState
      reads this
    {
      ServiceState(callbacks, log, delivered)
    }

    constructor()
      ensures State() == ServiceState([], [], [])
    {
      callbacks := [];
      log := [];
      delivered := [];
    }

    /** OpenSession(), with `c` the caller's callback channel. */
    method OpenSession(c: SubscriberId)
      modifies this
      ensures State() == OpenStep(old(State()), c)
    {
      callbacks := callbacks + [c];
      var i := 0;
      while i < |log|
        invariant 0 <= i <= |log|
        invariant callbacks == old(callbacks) + [c] && log == old(log)
        invariant delivered == old(delivered) + Replay(c, log[..i])
      {
        assert log[..i + 1] == log[..i] + [log[i]];
        ReplaySnoc(c, log[..i], log[i]);
        delivered := delivered + [Push(c, log[i])];
        i := i + 1;
      }
      assert log[..i] == log;
    }

    /** OnChanged(sender, e). */
    method OnChanged(e: StatusChangeEventArgs)
      modifies this
      ensures State() == ChangeStep(old(State()), e)
    {
      var i := 0;
      while i < |callbacks|
        invariant 0 <= i <= |callbacks|
        invariant callbacks == old(callbacks) && log == old(log)
        invariant delivered == old(delivered) + Fanout(callbacks[..i], e)
      {
        FanoutSnoc(callbacks[..i], callbacks[i], e);
        assert callbacks[..i + 1] == callbacks[..i] + [callbacks[i]];
        delivered := delivered + [Push(callbacks[i], e)];
        i := i + 1;
      }
      assert callbacks[..i] == callbacks;
      log := log + [e];
    }
  }
}
