/**
 * MXIOConnection: the retry loop every call to a MOXA I/O module goes
 * through, and the digital input read built on it. The vendor library is
 * observed through the return code of each attempt; Open, the DEBUG log
 * line and the sleep between attempts are events of the connection.
 */
module Mxio {
  import opened Wrappers
  import opened Text
  import opened Logging

  type Byte = bv8

  /** MXIO_CS.MXIO_OK, the vendor library's success code. */
  const MxioOk: int := 0

  // ---------------------------------------------------------------------
  // .NET composite format strings

  /** The number of decimal digits `s` starts with. */
  function LeadingDigits(s: string): (k: nat)
    ensures k <= |s|
    ensures forall i :: 0 <= i < k ==> '0' <= s[i] <= '9'
    ensures k < |s| ==> !('0' <= s[k] <= '9')
  {
    if s != [] && '0' <= s[0] <= '9' then 1 + LeadingDigits(s[1..]) else 0
  }

  function DigitsValue(s: string): nat
  {
    if s == [] then 0 else 10 * DigitsValue(s[..|s| - 1]) + ((s[|s| - 1] as int - '0' as int) % 10)
  }

  /** Where a format item's alignment and format part end: the first brace, when it is a '}'. */
  function CloseAt(s: string): (r: Option<nat>)
    ensures r.Some? ==> r.value < |s| && s[r.value] == '}'
  {
    if s == [] then None
    else if s[0] == '}' then Some(0)
    else if s[0] == '{' then None
    else match CloseAt(s[1..]) case None => None case Some(j) => Some(j + 1)
  }

  /**
   * Whether string.Format accepts `f` with `n` arguments: "{{" and "}}" are
   * escaped braces; a lone '{' opens an item made of an argument index below
   * `n`, then anything without braces (alignment, format), then '}'; a lone
   * '}' is an error. The items' contents are not checked further.
   */
  function FormatOk(f: string, n: nat): bool
    decreases |f|
  {
    if f == [] then true
    else if f[0] == '{' then
      if |f| >= 2 && f[1] == '{' then FormatOk(f[2..], n)
      else
        var body := f[1..];
        var k := LeadingDigits(body);
        k >= 1 && DigitsValue(body[..k]) < n &&
        match CloseAt(body[k..])
        case None => false
        case Some(j) => FormatOk(body[k + j + 1..], n)
    else if f[0] == '}' then |f| >= 2 && f[1] == '}' && FormatOk(f[2..], n)
    else FormatOk(f[1..], n)
  }

  /** A '{' followed directly by '}' is an item without an argument index: FormatException. */
  lemma EmptyItemRejected(f: string, n: nat)
    requires |f| >= 2 && f[0] == '{' && f[1] == '}'
    ensures !FormatOk(f, n)
  {
    assert LeadingDigits(f[1..]) == 0;
  }

  /** Text without braces is copied as it is. */
  lemma {:induction false} PlainText(a: string, rest: string, n: nat)
    requires forall k :: 0 <= k < |a| ==> a[k] != '{' && a[k] != '}'
    ensures FormatOk(a + rest, n) == FormatOk(rest, n)
  {
    if a != [] {
      var f := a + rest;
      assert f[0] == a[0] && f[0] != '{' && f[0] != '}';
      assert FormatOk(f, n) == FormatOk(f[1..], n);
      assert f[1..] == a[1..] + rest;
      PlainText(a[1..], rest, n);
    } else {
      assert a + rest == rest;
    }
  }

  /** An item "{d}" with a single-digit index below n is accepted. */
  lemma SimpleItem(item: string, rest: string, n: nat)
    requires |item| == 3 && item[0] == '{' && '0' <= item[1] <= '9' && item[2] == '}'
    requires item[1] as int - '0' as int < n
    ensures FormatOk(item + rest, n) == FormatOk(rest, n)
  {
    var f := item + rest;
    var body := f[1..];
    assert f[0] == '{' && body[0] == item[1] && body[1] == '}';
    assert LeadingDigits(body[1..]) == 0;
    assert LeadingDigits(body) == 1;
    assert body[..1] == [item[1]];
    assert DigitsValue([item[1]]) == 10 * DigitsValue([]) + (item[1] as int - '0' as int);
    assert body[1..][0] == '}';
    assert CloseAt(body[1..]) == Some(0);
    assert body[1 + 0 + 1..] == rest;
  }

  /** The two format strings of the retry loop. */
  datatype RetryFormats = RetryFormats(debug: string, error: string)

  /** The arguments each format is given: five for the DEBUG line, three for the exception. */
  const DebugArgs: nat := 5
  const ErrorArgs: nat := 3

  /** The retry formats as the source writes them: "{} failed ({}) on module {}, re-trying ({}/{})" and "{} failed on {}: {}". */
  const AsWrittenFormats: RetryFormats :=
    RetryFormats("{}" + " failed ({}) on module {}, re-trying ({}/{})", "{}" + " failed on {}: {}")

  /** A format written as its pieces: literal text and single-digit items. */
  function Pieces(ps: seq<string>): string
  {
    if ps == [] then "" else ps[0] + Pieces(ps[1..])
  }

  /** A piece string.Format accepts on its own: "{d}" with d below n, or text without braces. */
  predicate GoodPiece(p: string, n: nat)
  {
    (|p| == 3 && p[0] == '{' && '0' <= p[1] <= '9' && p[2] == '}' && p[1] as int - '0' as int < n)
    || (forall k :: 0 <= k < |p| ==> p[k] != '{' && p[k] != '}')
  }

  /** A format made of good pieces is accepted. */
  lemma {:induction false} PiecesAccepted(ps: seq<string>, n: nat)
    requires forall i :: 0 <= i < |ps| ==> GoodPiece(ps[i], n)
    ensures FormatOk(Pieces(ps), n)
  {
    if ps != [] {
      PiecesAccepted(ps[1..], n);
      var p := ps[0];
      if |p| == 3 && p[0] == '{' && '0' <= p[1] <= '9' && p[2] == '}' && p[1] as int - '0' as int < n {
        SimpleItem(p, Pieces(ps[1..]), n);
      } else {
        PlainText(p, Pieces(ps[1..]), n);
      }
    }
  }

  const CorrectedDebugPieces: seq<string> :=
    ["{0}", " failed (", "{1}", ") on module ", "{2}", ", re-trying (", "{3}", "/", "{4}", ")"]
  const CorrectedErrorPieces: seq<string> := ["{0}", " failed on ", "{1}", ": ", "{2}"]

  /**
   * The same messages with the argument indexes the "{}" items stand for:
   * "{0} failed ({1}) on module {2}, re-trying ({3}/{4})" and "{0} failed on {1}: {2}".
   */
  const CorrectedFormats: RetryFormats := RetryFormats(Pieces(CorrectedDebugPieces), Pieces(CorrectedErrorPieces))

  /** string.Format rejects both formats as written. */
  lemma AsWrittenFormatsRejected()
    ensures !FormatOk(AsWrittenFormats.debug, DebugArgs)
    ensures !FormatOk(AsWrittenFormats.error, ErrorArgs)
  {
    EmptyItemRejected(AsWrittenFormats.debug, DebugArgs);
    EmptyItemRejected(AsWrittenFormats.error, ErrorArgs);
  }

  /** string.Format accepts both formats with the arguments the loop passes. */
  predicate Accepted(formats: RetryFormats)
  {
    FormatOk(formats.debug, DebugArgs) && FormatOk(formats.error, ErrorArgs)
  }

  /** string.Format accepts both corrected formats with their argument counts. */
  lemma CorrectedFormatsAccepted()
    ensures Accepted(CorrectedFormats)
  {
    CorrectedDebugAccepted();
    CorrectedErrorAccepted();
  }

  lemma CorrectedDebugAccepted()
    ensures FormatOk(Pieces(CorrectedDebugPieces), DebugArgs)
  {
    forall i | 0 <= i < |CorrectedDebugPieces| ensures GoodPiece(CorrectedDebugPieces[i], DebugArgs) {
      DebugPieceGood(i);
    }
    PiecesAccepted(CorrectedDebugPieces, DebugArgs);
  }

  lemma DebugPieceGood(i: nat)
    requires i < |CorrectedDebugPieces|
    ensures GoodPiece(CorrectedDebugPieces[i], DebugArgs)
  {
    var p := CorrectedDebugPieces[i];
    if i == 0 {
      assert p == "{0}";
    } else if i == 1 {
      assert p == " failed (";
    } else if i == 2 {
      assert p == "{1}";
    } else if i == 3 {
      assert p == ") on module ";
    } else if i == 4 {
      assert p == "{2}";
    } else if i == 5 {
      assert p == ", re-trying (";
    } else if i == 6 {
      assert p == "{3}";
    } else if i == 7 {
      assert p == "/";
    } else if i == 8 {
      assert p == "{4}";
    } else {
      assert p == ")";
    }
  }

  lemma CorrectedErrorAccepted()
    ensures FormatOk(Pieces(CorrectedErrorPieces), ErrorArgs)
  {
    PiecesAccepted(CorrectedErrorPieces, ErrorArgs);
  }

  // ---------------------------------------------------------------------
  // The retry loop

  /** The vendor calls the connection makes; channels and values are cast to byte. */
  datatype VendorCall =
    | ResetCall                                  // MXIO_Reset(connection)
    | DoWrite(slot: nat, channel: Byte, value: Byte)  // DO_Write(connection, 1, (byte)output, value ? 1 : 0)
    | DiRead(slot: nat, channel: Byte)           // DI_Read(connection, 1, (byte)input, value)

  /** What a connection does, in order. */
  datatype ConnEvent =
    | Invoked(call: VendorCall)
    | Logged(level: LogLevel, format: string, args: seq<string>)
    | Slept(millis: int)
    | Opened

  /** How InvokeWithRetry ends: normally, with an MXIOException, or with string.Format's FormatException. */
  datatype Outcome = Done | MxioFailure(format: string, args: seq<string>) | FormatFailure

  /** `(byte)x` in C#: the low eight bits of the two's-complement value. */
  function ToByte(x: int): Byte
  {
    (x % 256) as Byte
  }

  /** Attempts are made while `attempt < Retries`, and always at least once. */
  function Limit(retries: int): (r: nat)
    ensures r >= 1 && r >= retries
  {
    if retries < 1 then 1 else retries
  }

  /** What a connection named `name` is set up with; `codes(i)` is the vendor's return code at attempt i. */
  datatype Setup = Setup(name: string, retries: int, retryDelay: int, errorName: int -> string)

  /** The DEBUG line after a failed attempt (attempt counted from 1). */
  function RetryLog(s: Setup, formats: RetryFormats, methodName: string, ret: int, attempt: nat): ConnEvent
  {
    Logged(DEBUG, formats.debug, [methodName, s.errorName(ret), s.name, IntToString(attempt), IntToString(s.retries)])
  }

  /**
   * The loop from attempt `a` on: the trace of events and how it ends. A
   * failed attempt with more to come logs, sleeps and reopens; logging or
   * raising with a format string.Format rejects throws FormatException.
   */
  function Attempts(s: Setup, formats: RetryFormats, methodName: string, call: VendorCall, codes: nat -> int, a: nat)
    : (seq<ConnEvent>, Outcome)
    requires a < Limit(s.retries)
    decreases Limit(s.retries) - a
  {
    var ret := codes(a);
    if ret == MxioOk then ([Invoked(call)], Done)
    else if a + 1 < s.retries then
      if !FormatOk(formats.debug, DebugArgs) then ([Invoked(call)], FormatFailure)
      else
        var rest := Attempts(s, formats, methodName, call, codes, a + 1);
        ([Invoked(call), RetryLog(s, formats, methodName, ret, a + 1), Slept(s.retryDelay), Opened] + rest.0, rest.1)
    else if !FormatOk(formats.error, ErrorArgs) then ([Invoked(call)], FormatFailure)
    else ([Invoked(call)], MxioFailure(formats.error, [methodName, s.name, s.errorName(ret)]))
  }

  function CountInvoked(t: seq<ConnEvent>): nat
  {
    if t == [] then 0 else (if t[0].Invoked? then 1 else 0) + CountInvoked(t[1..])
  }

  function CountOpened(t: seq<ConnEvent>): nat
  {
    if t == [] then 0 else (if t[0].Opened? then 1 else 0) + CountOpened(t[1..])
  }

  lemma {:induction false} CountAppend(a: seq<ConnEvent>, b: seq<ConnEvent>)
    ensures CountInvoked(a + b) == CountInvoked(a) + CountInvoked(b)
    ensures CountOpened(a + b) == CountOpened(a) + CountOpened(b)
  {
    if a == [] {
      assert a + b == b;
    } else {
      assert (a + b)[0] == a[0];
      assert (a + b)[1..] == a[1..] + b;
      CountAppend(a[1..], b);
    }
  }

  /** A failed attempt followed by another: one call and one Open. */
  lemma CountsOfRetry(e: seq<ConnEvent>, rest: seq<ConnEvent>)
    requires |e| == 4 && e[0].Invoked? && e[1].Logged? && e[2].Slept? && e[3] == Opened
    ensures CountInvoked(e + rest) == 1 + CountInvoked(rest)
    ensures CountOpened(e + rest) == 1 + CountOpened(rest)
  {
    CountAppend(e, rest);
    assert e[3..][1..] == [];
    assert CountInvoked(e[3..]) == 0 && CountOpened(e[3..]) == 1;
    assert e[2..][1..] == e[3..];
    assert CountInvoked(e[2..]) == 0 && CountOpened(e[2..]) == 1;
    assert e[1..][1..] == e[2..];
    assert CountInvoked(e[1..]) == 0 && CountOpened(e[1..]) == 1;
  }

  /** Open is called exactly once between two consecutive attempts, and never after the last. */
  lemma {:induction false} OpensBetweenAttempts(s: Setup, formats: RetryFormats, methodName: string, call: VendorCall,
                                                codes: nat -> int, a: nat)
    requires a < Limit(s.retries)
    decreases Limit(s.retries) - a
    ensures var t := Attempts(s, formats, methodName, call, codes, a).0;
      CountInvoked(t) >= 1 && CountOpened(t) == CountInvoked(t) - 1
  {
    var ret := codes(a);
    if ret != MxioOk && a + 1 < s.retries && FormatOk(formats.debug, DebugArgs) {
      var rest := Attempts(s, formats, methodName, call, codes, a + 1);
      OpensBetweenAttempts(s, formats, methodName, call, codes, a + 1);
      CountsOfRetry([Invoked(call), RetryLog(s, formats, methodName, ret, a + 1), Slept(s.retryDelay), Opened], rest.0);
    }
  }

  /**
   * With formats string.Format accepts: when attempt k is the first to
   * return OK and k < Limit, the loop ends normally after k + 1 attempts.
   */
  lemma {:induction false} SucceedsAfterFailures(s: Setup, formats: RetryFormats, methodName: string, call: VendorCall,
                                                 codes: nat -> int, a: nat, k: nat)
    requires Accepted(formats)
    requires a <= k < Limit(s.retries)
    requires forall i :: a <= i < k ==> codes(i) != MxioOk
    requires codes(k) == MxioOk
    decreases k - a
    ensures var r := Attempts(s, formats, methodName, call, codes, a);
      r.1 == Done && CountInvoked(r.0) == k - a + 1 && CountOpened(r.0) == k - a
  {
    OpensBetweenAttempts(s, formats, methodName, call, codes, a);
    if a < k {
      assert codes(a) != MxioOk;
      var rest := Attempts(s, formats, methodName, call, codes, a + 1);
      SucceedsAfterFailures(s, formats, methodName, call, codes, a + 1, k);
      CountsOfRetry([Invoked(call), RetryLog(s, formats, methodName, codes(a), a + 1), Slept(s.retryDelay), Opened], rest.0);
    }
  }

  /**
   * With formats string.Format accepts: when every attempt fails, the
   * method is invoked Limit times and MXIOException reports the last code.
   */
  lemma {:induction false} PersistentFailure(s: Setup, formats: RetryFormats, methodName: string, call: VendorCall,
                                             codes: nat -> int, a: nat)
    requires Accepted(formats)
    requires a < Limit(s.retries)
    requires forall i :: a <= i < Limit(s.retries) ==> codes(i) != MxioOk
    decreases Limit(s.retries) - a
    ensures var r := Attempts(s, formats, methodName, call, codes, a);
      var last := Limit(s.retries) - 1;
      CountInvoked(r.0) == Limit(s.retries) - a
      && r.1 == MxioFailure(formats.error, [methodName, s.name, s.errorName(codes(last))])
  {
    OpensBetweenAttempts(s, formats, methodName, call, codes, a);
    if a + 1 < s.retries {
      var rest := Attempts(s, formats, methodName, call, codes, a + 1);
      PersistentFailure(s, formats, methodName, call, codes, a + 1);
      CountsOfRetry([Invoked(call), RetryLog(s, formats, methodName, codes(a), a + 1), Slept(s.retryDelay), Opened], rest.0);
    }
  }

  /** A first call that returns OK is the only call, and Open is not called. */
  lemma FirstCallOk(s: Setup, formats: RetryFormats, methodName: string, call: VendorCall, codes: nat -> int)
    requires codes(0) == MxioOk
    ensures Attempts(s, formats, methodName, call, codes, 0) == ([Invoked(call)], Done)
  {
  }

  /**
   * As written, the first failed attempt ends the loop with a
   * FormatException, whatever Retries is: the DEBUG line (or, with one
   * attempt, the MXIOException message) cannot be formatted, so the call is
   * neither retried nor reported as an MXIOException.
   */
  lemma AsWrittenNeverRetries(s: Setup, methodName: string, call: VendorCall, codes: nat -> int)
    requires codes(0) != MxioOk
    ensures Attempts(s, AsWrittenFormats, methodName, call, codes, 0) == ([Invoked(call)], FormatFailure)
  {
    AsWrittenFormatsRejected();
  }

  /**
   * With formats string.Format accepts, such as CorrectedFormats, the loop
   * recovers from a failure when retries are allowed: with Retries >= 2, OK
   * at the second attempt ends normally after two calls.
   */
  lemma RetriesRecover(s: Setup, formats: RetryFormats, methodName: string, call: VendorCall, codes: nat -> int)
    requires Accepted(formats)
    requires s.retries >= 2 && codes(0) != MxioOk && codes(1) == MxioOk
    ensures var r := Attempts(s, formats, methodName, call, codes, 0);
      r.1 == Done && CountInvoked(r.0) == 2
  {
    SucceedsAfterFailures(s, formats, methodName, call, codes, 0, 1);
  }

  class MxioConnection {
    const name: string
    /** Manager.Retries, a short; 10 by default. */
    const retries: int
    /** Manager.RetryDelay in milliseconds. */
    const retryDelay: int
    /** MXIOException.GetErrorMessage: the name of an error code. */
    const errorName: int -> string
    /** The format strings of the retry loop's DEBUG line and exception. */
    const formats: RetryFormats
    /** Every vendor call, log line, sleep and Open so far. */
    var events: seq<ConnEvent>

    function Config(): Setup
    {
      Setup(name, retries, retryDelay, errorName)
    }

    /** A connection uses the corrected format strings. */
    constructor(name: string, retries: int, retryDelay: int, errorName: int -> string)
      ensures Config() == Setup(name, retries, retryDelay, errorName) && events == []
      ensures formats == CorrectedFormats && Accepted(formats)
    {
      this.name := name;
      this.retries := retries;
      this.retryDelay := retryDelay;
      this.errorName := errorName;
      formats := CorrectedFormats;
      events := [];
      CorrectedFormatsAccepted();
    }

    /** InvokeWithRetry: each attempt calls the vendor; `codes(i)` is what attempt i returns. */
    method InvokeWithRetry(methodName: string, call: VendorCall, codes: nat -> int) returns (outcome: Outcome)
      requires Accepted(formats)
      modifies this
      ensures var r := Attempts(Config(), formats, methodName, call, codes, 0);
        events == old(events) + r.0 && outcome == r.1
    {
      var attempt: nat := 0;
      ghost var start := events;
      ghost var total := Attempts(Config(), formats, methodName, call, codes, 0);
      while true
        invariant attempt < Limit(retries)
        invariant start + total.0 == events + Attempts(Config(), formats, methodName, call, codes, attempt).0
        invariant total.1 == Attempts(Config(), formats, methodName, call, codes, attempt).1
        decreases Limit(retries) - attempt
      {
        ghost var before := events;
        var ret := codes(attempt);
        events := events + [Invoked(call)];
        if ret == MxioOk {
          AttemptSucceeds(Config(), formats, methodName, call, codes, attempt);
          return Done;
        }
        attempt := attempt + 1;
        if attempt < retries {
          RetryStep(Config(), formats, methodName, call, codes, attempt - 1, before);
          // Manager.Logger.Log, Thread.Sleep, Open, in that order.
          events := events + [RetryLog(Config(), formats, methodName, ret, attempt), Slept(retryDelay), Opened];
          Extend4(before, Invoked(call), RetryLog(Config(), formats, methodName, ret, attempt), Slept(retryDelay), Opened);
        } else {
          AttemptIsLast(Config(), formats, methodName, call, codes, attempt - 1);
          return MxioFailure(formats.error, [methodName, name, errorName(ret)]);
        }
      }
    }

    method Reset(codes: nat -> int) returns (outcome: Outcome)
      requires Accepted(formats)
      modifies this
      ensures var r := Attempts(Config(), formats, "Reset", ResetCall, codes, 0);
        events == old(events) + r.0 && outcome == r.1
    {
      outcome := InvokeWithRetry("Reset", ResetCall, codes);
    }

    /** SetDigitalOutput: writes 1 or 0 to slot 1 at the output number cast to byte. */
    method SetDigitalOutput(output: int, value: bool, codes: nat -> int) returns (outcome: Outcome)
      requires Accepted(formats)
      modifies this
      ensures var r := Attempts(Config(), formats, "SetOutput", DoWrite(1, ToByte(output), if value then 1 else 0), codes, 0);
        events == old(events) + r.0 && outcome == r.1
    {
      outcome := InvokeWithRetry("SetOutput", DoWrite(1, ToByte(output), if value then 1 else 0), codes);
    }

    /**
     * GetDigitalInput: true exactly when the byte the successful read left
     * is 1; `stored(i)` is the byte attempt i stores. Nothing is returned when
     * the loop throws.
     */
    method GetDigitalInput(input: int, codes: nat -> int, stored: nat -> Byte) returns (outcome: Outcome, value: Option<bool>)
      requires Accepted(formats)
      modifies this
      ensures var r := Attempts(Config(), formats, "GetInput", DiRead(1, ToByte(input)), codes, 0);
        events == old(events) + r.0 && outcome == r.1
      ensures outcome == Done <==> value.Some?
      ensures var n := CountInvoked(events[|old(events)|..]);
        value.Some? ==> n >= 1 && value.value == (stored(n - 1) == 1)
    {
      var mark := |events|;
      outcome := InvokeWithRetry("GetInput", DiRead(1, ToByte(input)), codes);
      value := None;
      if outcome == Done {
        assert events[mark..] == Attempts(Config(), formats, "GetInput", DiRead(1, ToByte(input)), codes, 0).0;
        OpensBetweenAttempts(Config(), formats, "GetInput", DiRead(1, ToByte(input)), codes, 0);
        var n := CountInvoked(events[mark..]);
        value := Some(stored(n - 1) == 1);
      }
    }
  }

  /** One failed attempt with another to come, on the trace. */
  lemma Extend4(s: seq<ConnEvent>, a: ConnEvent, b: ConnEvent, c: ConnEvent, d: ConnEvent)
    ensures s + [a] + [b, c, d] == s + [a, b, c, d]
  {
  }

  /** An attempt the vendor answers with OK ends the loop. */
  lemma AttemptSucceeds(s: Setup, formats: RetryFormats, methodName: string, call: VendorCall, codes: nat -> int, a: nat)
    requires a < Limit(s.retries) && codes(a) == MxioOk
    ensures Attempts(s, formats, methodName, call, codes, a) == ([Invoked(call)], Done)
  {
  }

  /** A failed attempt with no retry left raises MXIOException with the error format. */
  lemma AttemptIsLast(s: Setup, formats: RetryFormats, methodName: string, call: VendorCall, codes: nat -> int, a: nat)
    requires FormatOk(formats.error, ErrorArgs)
    requires a < Limit(s.retries) && a + 1 >= s.retries && codes(a) != MxioOk
    ensures Attempts(s, formats, methodName, call, codes, a) ==
      ([Invoked(call)], MxioFailure(formats.error, [methodName, s.name, s.errorName(codes(a))]))
  {
  }

  lemma RetryStep(s: Setup, formats: RetryFormats, methodName: string, call: VendorCall, codes: nat -> int,
                  a: nat, done: seq<ConnEvent>)
    requires FormatOk(formats.debug, DebugArgs)
    requires a + 1 < Limit(s.retries) && a + 1 < s.retries && codes(a) != MxioOk
    ensures done + Attempts(s, formats, methodName, call, codes, a).0 ==
      done + [Invoked(call), RetryLog(s, formats, methodName, codes(a), a + 1), Slept(s.retryDelay), Opened]
      + Attempts(s, formats, methodName, call, codes, a + 1).0
    ensures Attempts(s, formats, methodName, call, codes, a).1 == Attempts(s, formats, methodName, call, codes, a + 1).1
  {
  }
}
