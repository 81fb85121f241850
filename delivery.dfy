/**
 * Messages pushed to subscribers: the named-pipe connections of
 * StatusLoggerServer and the WCF callbacks of StatusLoggerService, both
 * as abstract subscriber ids.
 */
module Delivery {
  import opened StatusEvents

  type SubscriberId = nat

  /** One message pushed to one subscriber. */
  datatype Push = Push(to: SubscriberId, event: StatusChangeEventArgs)

  /** Pushing e to each subscriber of cs, in collection order. */
  function Fanout(cs: seq<SubscriberId>, e: StatusChangeEventArgs): (r: seq<Push>)
    ensures |r| == |cs|
    ensures forall i :: 0 <= i < |cs| ==> r[i] == Push(cs[i], e)
  {
    seq(|cs|, i requires 0 <= i < |cs| => Push(cs[i], e))
  }

  /** Pushing every event of the log to c, in log order. */
  function Replay(c: SubscriberId, log: seq<StatusChangeEventArgs>): (r: seq<Push>)
    ensures |r| == |log|
    ensures forall i :: 0 <= i < |log| ==> r[i] == Push(c, log[i])
  {
    seq(|log|, i requires 0 <= i < |log| => Push(c, log[i]))
  }

  /** The messages subscriber c received, in order. */
  function Received(c: SubscriberId, t: seq<Push>): seq<StatusChangeEventArgs>
  {
    if t == [] then []
    else Received(c, t[..|t| - 1]) + (if t[|t| - 1].to == c then [t[|t| - 1].event] else [])
  }

  lemma {:induction false} ReceivedAppend(c: SubscriberId, a: seq<Push>, b: seq<Push>)
    ensures Received(c, a + b) == Received(c, a) + Received(c, b)
    decreases |b|
  {
    if b != [] {
      assert (a + b)[..|a + b| - 1] == a + b[..|b| - 1];
      ReceivedAppend(c, a, b[..|b| - 1]);
    } else {
      assert a + b == a;
    }
  }

  lemma FanoutSnoc(cs: seq<SubscriberId>, c: SubscriberId, e: StatusChangeEventArgs)
    ensures Fanout(cs + [c], e) == Fanout(cs, e) + [Push(c, e)]
  {
  }

  lemma ReplaySnoc(c: SubscriberId, log: seq<StatusChangeEventArgs>, e: StatusChangeEventArgs)
    ensures Replay(c, log + [e]) == Replay(c, log) + [Push(c, e)]
  {
  }

  /** A replay reaches only its subscriber, and reaches it with the whole log in order. */
  lemma {:induction false} ReceivedReplay(c: SubscriberId, d: SubscriberId, log: seq<StatusChangeEventArgs>)
    ensures Received(c, Replay(d, log)) == if c == d then log else []
    decreases |log|
  {
    if log != [] {
      var r := Replay(d, log);
      assert r[..|r| - 1] == Replay(d, log[..|log| - 1]);
      ReceivedReplay(c, d, log[..|log| - 1]);
      assert log[..|log| - 1] + [log[|log| - 1]] == log;
    }
  }

  /** A fan-out reaches c once for each time c occurs among the subscribers. */
  lemma {:induction false} ReceivedFanout(c: SubscriberId, cs: seq<SubscriberId>, e: StatusChangeEventArgs)
    ensures |Received(c, Fanout(cs, e))| == multiset(cs)[c]
    ensures forall x :: x in Received(c, Fanout(cs, e)) ==> x == e
    decreases |cs|
  {
    if cs != [] {
      var f := Fanout(cs, e);
      assert f[..|f| - 1] == Fanout(cs[..|cs| - 1], e);
      ReceivedFanout(c, cs[..|cs| - 1], e);
      assert cs[..|cs| - 1] + [cs[|cs| - 1]] == cs;
    }
  }

  /** A subscriber listed exactly once receives a fanned-out event exactly once. */
  lemma ReceivedFanoutOnce(c: SubscriberId, cs: seq<SubscriberId>, e: StatusChangeEventArgs)
    requires multiset(cs)[c] == 1
    ensures Received(c, Fanout(cs, e)) == [e]
  {
    ReceivedFanout(c, cs, e);
    var r := Received(c, Fanout(cs, e));
    assert r[0] in r;
  }
}
