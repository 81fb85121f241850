/**
 * ServicesManager: a table of named command-line actions over a collection
 * of Windows services, and Run, which performs the actions named by the
 * arguments in order. The services, the console and the user's event
 * handlers are observed as one trace of events.
 */
module ServicesManagement {
  import opened Wrappers
  import opened Text

  /** The ServicesCollection operations an action can call. */
  datatype ServiceCall = Install | Uninstall | Reinstall | InvokeStart | InvokeStop | InvokeRestart | Simulate | RunServices

  /** The body of a registered action: one of the built-in ones, or one registered by the program. */
  datatype ActionKind =
    | ActionInstall | ActionUninstall | ActionReinstall | ActionStart | ActionStop | ActionRestart | ActionSimulate
    | Custom(id: nat)

  datatype ActionData = ActionData(kind: ActionKind, description: Option<string>)

  /** What Run makes happen, in order. */
  datatype Event =
    | BeforeAction(name: string)
    | AfterAction(name: string)
    | Progress(kind: ActionKind)  // Console.WriteLine(ProgressLine(kind))
    | ErrOut(line: string)      // Console.Error.WriteLine
    | Service(call: ServiceCall)
    | CustomAction(id: nat)

  /** What invoking an action does. */
  function ActionEffect(kind: ActionKind): seq<Event>
  {
    match kind
    case ActionInstall => [Progress(ActionInstall), Service(Install)]
    case ActionUninstall => [Progress(ActionUninstall), Service(InvokeStop), Service(Uninstall)]
    case ActionReinstall => [Progress(ActionReinstall), Service(InvokeStop), Service(Reinstall)]
    case ActionSimulate => [Progress(ActionSimulate), Service(Simulate)]
    case ActionStart => [Progress(ActionStart), Service(InvokeStart)]
    case ActionStop => [Progress(ActionStop), Service(InvokeStop)]
    case ActionRestart => [Progress(ActionRestart), Service(InvokeRestart)]
    case Custom(id) => [CustomAction(id)]
  }

  /** The line a built-in action writes before it calls the services (stop's spelling is the program's). */
  function ProgressLine(kind: ActionKind): string
    requires !kind.Custom?
  {
    match kind
    case ActionInstall => "Installing service..."
    case ActionUninstall => "Uninstalling service..."
    case ActionReinstall => "Reinstalling service..."
    case ActionSimulate => "Simulating service..."
    case ActionStart => "Starting service..."
    case ActionStop => "Stoping service..."
    case ActionRestart => "Restarting service..."
  }

  /** Only uninstall and reinstall touch the installation, and they stop the services before they do. */
  lemma StopBeforeUninstall()
    ensures forall kind, i :: 0 <= i < |ActionEffect(kind)| && ActionEffect(kind)[i] == Service(Uninstall) ==>
      Service(InvokeStop) in ActionEffect(kind)[..i]
    ensures forall kind, i :: 0 <= i < |ActionEffect(kind)| && ActionEffect(kind)[i] == Service(Reinstall) ==>
      Service(InvokeStop) in ActionEffect(kind)[..i]
    ensures forall kind :: Service(Uninstall) in ActionEffect(kind) ==> kind == ActionUninstall
    ensures forall kind :: Service(Reinstall) in ActionEffect(kind) ==> kind == ActionReinstall
  {
    forall kind, i | 0 <= i < |ActionEffect(kind)| && ActionEffect(kind)[i] in {Service(Uninstall), Service(Reinstall)}
      ensures Service(InvokeStop) in ActionEffect(kind)[..i]
    {
      assert i == 2 && ActionEffect(kind)[1] == Service(InvokeStop);
      assert ActionEffect(kind)[..i][1] == Service(InvokeStop);
    }
  }

  /** The names and descriptions Usage lists: the actions that have a description, in registration order. */
  function Listed(keys: seq<string>, actions: map<string, ActionData>): seq<(string, string)>
  {
    if keys == [] then []
    else
      var init := keys[..|keys| - 1];
      var k := keys[|keys| - 1];
      var described := if k in actions then actions[k].description else None;
      Listed(init, actions) + (match described case Some(d) => [(k, d)] case None => [])
  }

  /** `"  {0,-15} {1}"` with the name followed by a colon. */
  function UsageLine(name: string, description: string): string
  {
    "  " + PadRight(name + ":", 15) + " " + description
  }

  function UsageLines(entries: seq<(string, string)>): (r: seq<string>)
    ensures |r| == |entries|
    ensures forall i :: 0 <= i < |entries| ==> r[i] == UsageLine(entries[i].0, entries[i].1)
  {
    if entries == [] then [] else [UsageLine(entries[0].0, entries[0].1)] + UsageLines(entries[1..])
  }

  /** What Usage writes to the error stream. */
  function UsageEvents(exeName: string, keys: seq<string>, actions: map<string, ActionData>): seq<Event>
  {
    var lines := ["Usage: " + exeName + " ACTION ...", "Actions: (all actions require admin access)"]
      + UsageLines(Listed(keys, actions));
    seq(|lines|, i requires 0 <= i < |lines| => ErrOut(lines[i]))
  }

  /** Usage lists an action exactly when it has a description, with that description. */
  lemma {:induction false} ListedExactly(keys: seq<string>, actions: map<string, ActionData>, name: string, d: string)
    ensures (name, d) in Listed(keys, actions) <==>
      name in keys && name in actions && actions[name].description == Some(d)
  {
    if keys != [] {
      var init := keys[..|keys| - 1];
      ListedExactly(init, actions, name, d);
      assert keys == init + [keys[|keys| - 1]];
    }
  }

  /** The built-in actions, in the order the constructor registers them. */
  const BuiltInNames: seq<string> := ["install", "uninstall", "reinstall", "start", "stop", "restart", "simulate"]

  /** The built-in actions and their descriptions; simulate has none. */
  const BuiltInActions: map<string, ActionData> := map[
      "install" := ActionData(ActionInstall, Some("Install the service")),
      "uninstall" := ActionData(ActionUninstall, Some("Uninstall the service")),
      "reinstall" := ActionData(ActionReinstall, Some("Reinstall the service")),
      "start" := ActionData(ActionStart, Some("Start the service")),
      "stop" := ActionData(ActionStop, Some("Stop the service")),
      "restart" := ActionData(ActionRestart, Some("Restart the service")),
      "simulate" := ActionData(ActionSimulate, None)]

  lemma ListedSnoc(keys: seq<string>, k: string, actions: map<string, ActionData>)
    ensures Listed(keys + [k], actions) == Listed(keys, actions) +
      if k in actions && actions[k].description.Some? then [(k, actions[k].description.value)] else []
  {
    assert (keys + [k])[..|keys|] == keys;
  }

  lemma ListedFirstThree()
    ensures Listed(["install", "uninstall", "reinstall"], BuiltInActions) == [
      ("install", "Install the service"), ("uninstall", "Uninstall the service"), ("reinstall", "Reinstall the service")]
  {
    ListedSnoc([], "install", BuiltInActions);
    assert [] + ["install"] == ["install"];
    ListedSnoc(["install"], "uninstall", BuiltInActions);
    assert ["install"] + ["uninstall"] == ["install", "uninstall"];
    ListedSnoc(["install", "uninstall"], "reinstall", BuiltInActions);
    assert ["install", "uninstall"] + ["reinstall"] == ["install", "uninstall", "reinstall"];
  }

  lemma ListedFirstSix()
    ensures Listed(["install", "uninstall", "reinstall", "start", "stop", "restart"], BuiltInActions) == [
      ("install", "Install the service"), ("uninstall", "Uninstall the service"),
      ("reinstall", "Reinstall the service"), ("start", "Start the service"),
      ("stop", "Stop the service"), ("restart", "Restart the service")]
  {
    ListedFirstThree();
    ListedSnoc(["install", "uninstall", "reinstall"], "start", BuiltInActions);
    assert ["install", "uninstall", "reinstall"] + ["start"] == ["install", "uninstall", "reinstall", "start"];
    ListedSnoc(["install", "uninstall", "reinstall", "start"], "stop", BuiltInActions);
    assert ["install", "uninstall", "reinstall", "start"] + ["stop"] == ["install", "uninstall", "reinstall", "start", "stop"];
    ListedSnoc(["install", "uninstall", "reinstall", "start", "stop"], "restart", BuiltInActions);
    assert ["install", "uninstall", "reinstall", "start", "stop"] + ["restart"] == ["install", "uninstall", "reinstall", "start", "stop", "restart"];
  }

  /** A fresh manager's usage lists the six described actions in registration order and hides simulate. */
  lemma BuiltInUsage()
    ensures Listed(BuiltInNames, BuiltInActions) == [
      ("install", "Install the service"), ("uninstall", "Uninstall the service"),
      ("reinstall", "Reinstall the service"), ("start", "Start the service"),
      ("stop", "Stop the service"), ("restart", "Restart the service")]
    ensures forall d :: ("simulate", d) !in Listed(BuiltInNames, BuiltInActions)
  {
    ListedFirstSix();
    ListedSnoc(["install", "uninstall", "reinstall", "start", "stop", "restart"], "simulate", BuiltInActions);
    assert ["install", "uninstall", "reinstall", "start", "stop", "restart"] + ["simulate"] == BuiltInNames;
    forall d ensures ("simulate", d) !in Listed(BuiltInNames, BuiltInActions) {
      ListedExactly(BuiltInNames, BuiltInActions, "simulate", d);
    }
  }

  /** Running the arguments one by one: each known action between BeforeAction and AfterAction; the first unknown one prints usage and ends the run. */
  function ArgsTrace(args: seq<string>, exeName: string, keys: seq<string>, actions: map<string, ActionData>): seq<Event>
  {
    if args == [] then []
    else if args[0] in actions then
      [BeforeAction(args[0])] + ActionEffect(actions[args[0]].kind) + [AfterAction(args[0])]
      + ArgsTrace(args[1..], exeName, keys, actions)
    else UsageEvents(exeName, keys, actions)
  }

  /** The whole of Run: no arguments show usage when interactive and run the services otherwise. */
  function RunTrace(args: seq<string>, interactive: bool, exeName: string, keys: seq<string>,
                    actions: map<string, ActionData>): seq<Event>
  {
    if args == [] then (if interactive then UsageEvents(exeName, keys, actions) else [Service(RunServices)])
    else ArgsTrace(args, exeName, keys, actions)
  }

  /** Known actions run in argument order: the trace of a list of known arguments splits at any point. */
  lemma {:induction false} ArgsTraceAppend(a: seq<string>, b: seq<string>, exeName: string, keys: seq<string>,
                                           actions: map<string, ActionData>)
    requires forall i :: 0 <= i < |a| ==> a[i] in actions
    ensures ArgsTrace(a + b, exeName, keys, actions) == ArgsTrace(a, exeName, keys, actions) + ArgsTrace(b, exeName, keys, actions)
  {
    if a == [] {
      assert a + b == b;
    } else {
      assert (a + b)[1..] == a[1..] + b;
      ArgsTraceAppend(a[1..], b, exeName, keys, actions);
    }
  }

  /** After the first unknown argument nothing else runs: the rest of the arguments make no difference. */
  lemma StopsAtUnknown(a: seq<string>, unknown: string, rest: seq<string>, exeName: string, keys: seq<string>,
                       actions: map<string, ActionData>)
    requires forall i :: 0 <= i < |a| ==> a[i] in actions
    requires unknown !in actions
    ensures ArgsTrace(a + [unknown] + rest, exeName, keys, actions) ==
      ArgsTrace(a, exeName, keys, actions) + UsageEvents(exeName, keys, actions)
  {
    assert a + [unknown] + rest == a + ([unknown] + rest);
    ArgsTraceAppend(a, [unknown] + rest, exeName, keys, actions);
  }

  /** A known argument contributes BeforeAction, the action's effect and AfterAction, in that order. */
  lemma KnownAction(arg: string, exeName: string, keys: seq<string>, actions: map<string, ActionData>)
    requires arg in actions
    ensures ArgsTrace([arg], exeName, keys, actions) ==
      [BeforeAction(arg)] + ActionEffect(actions[arg].kind) + [AfterAction(arg)]
  {
    assert [arg][1..] == [];
  }

  /** A known argument in Run's loop extends the run of the prefix by its own trace. */
  lemma RunKnown(args: seq<string>, i: nat, exeName: string, keys: seq<string>, actions: map<string, ActionData>)
    requires i < |args| && (forall j :: 0 <= j < i ==> args[j] in actions)
    ensures ArgsTrace(args[..i + 1], exeName, keys, actions) ==
      ArgsTrace(args[..i], exeName, keys, actions) + ArgsTrace([args[i]], exeName, keys, actions)
  {
    ArgsTraceAppend(args[..i], [args[i]], exeName, keys, actions);
    assert args[..i + 1] == args[..i] + [args[i]];
  }

  /** An unknown argument in Run's loop ends the run with the usage text. */
  lemma RunUnknown(args: seq<string>, i: nat, exeName: string, keys: seq<string>, actions: map<string, ActionData>)
    requires i < |args| && (forall j :: 0 <= j < i ==> args[j] in actions)
    requires args[i] !in actions
    ensures ArgsTrace(args, exeName, keys, actions) ==
      ArgsTrace(args[..i], exeName, keys, actions) + UsageEvents(exeName, keys, actions)
  {
    StopsAtUnknown(args[..i], args[i], args[i + 1..], exeName, keys, actions);
    assert args == args[..i] + [args[i]] + args[i + 1..];
  }

  lemma Assoc<T>(a: seq<T>, b: seq<T>, c: seq<T>)
    ensures (a + b) + c == a + (b + c)
  {
  }

  predicate DistinctKeys(keys: seq<string>)
  {
    forall i, j :: 0 <= i < j < |keys| ==> keys[i] != keys[j]
  }

  class ServicesManager {
    /** The action names in registration order (the enumeration order of the dictionary). */
    var keys: seq<string>
    var actions: map<string, ActionData>
    /** Everything Run and Usage have done so far. */
    var trace: seq<Event>
    /** Path.GetFileName of the entry assembly. */
    const exeName: string

    ghost predicate Valid()
      reads this
    {
      DistinctKeys(keys) && (forall k :: k in keys <==> k in actions)
    }

    /** The constructor registers the seven built-in actions; simulate has no description. */
    constructor(exeName: string)
      ensures Valid()
      ensures keys == BuiltInNames && trace == [] && this.exeName == exeName
      ensures actions == BuiltInActions
    {
      this.exeName := exeName;
      keys := BuiltInNames;
      actions := BuiltInActions;
      trace := [];
    }

    /** RegisterAction: an ArgumentException for a name already taken, which leaves the table as it was. */
    method RegisterAction(name: string, description: Option<string>, kind: ActionKind) returns (error: Option<string>)
      requires Valid()
      modifies this
      ensures Valid() && trace == old(trace)
      ensures old(name in actions) ==>
        error == Some("Action name " + name + " is already taken") && keys == old(keys) && actions == old(actions)
      ensures old(name !in actions) ==>
        error == None && keys == old(keys) + [name] && actions == old(actions)[name := ActionData(kind, description)]
    {
      if name in actions {
        return Some("Action name " + name + " is already taken");
      }
      keys := keys + [name];
      actions := actions[name := ActionData(kind, description)];
      error := None;
    }

    /** ActionNotFound: prints usage and says not to go on. */
    method ActionNotFound(name: string) returns (goOn: bool)
      modifies this
      ensures keys == old(keys) && actions == old(actions)
      ensures !goOn && trace == old(trace) + UsageEvents(exeName, keys, actions)
    {
      Usage();
      return false;
    }

    method Usage()
      modifies this
      ensures keys == old(keys) && actions == old(actions)
      ensures trace == old(trace) + UsageEvents(exeName, keys, actions)
    {
      trace := trace + UsageEvents(exeName, keys, actions);
    }

    /** One pass of Run's loop: a known action runs between its two events; an unknown one goes to ActionNotFound. */
    method RunOne(arg: string) returns (goOn: bool)
      modifies this
      ensures keys == old(keys) && actions == old(actions)
      ensures goOn <==> arg in actions
      ensures trace == old(trace) + if goOn then ArgsTrace([arg], exeName, keys, actions) else UsageEvents(exeName, keys, actions)
    {
      if arg in actions {
        var action := actions[arg];
        KnownAction(arg, exeName, keys, actions);
        trace := trace + [BeforeAction(arg)];
        trace := trace + ActionEffect(action.kind);
        trace := trace + [AfterAction(arg)];
        goOn := true;
      } else {
        goOn := ActionNotFound(arg);
      }
    }

    /** Run(args): `interactive` is Environment.UserInteractive. */
    method Run(args: seq<string>, interactive: bool)
      modifies this
      ensures keys == old(keys) && actions == old(actions)
      ensures trace == old(trace) + RunTrace(args, interactive, exeName, keys, actions)
    {
      if args == [] {
        if interactive {
          Usage();
        } else {
          trace := trace + [Service(RunServices)];
        }
        return;
      }
      RunArgs(args);
    }

    /** Run's loop over a non-empty argument list. */
    method RunArgs(args: seq<string>)
      modifies this
      ensures keys == old(keys) && actions == old(actions)
      ensures trace == old(trace) + ArgsTrace(args, exeName, keys, actions)
    {
      ghost var start := trace;
      ghost var ks, acts := keys, actions;
      for i := 0 to |args|
        invariant keys == ks && actions == acts
        invariant forall j :: 0 <= j < i ==> args[j] in acts
        invariant trace == start + ArgsTrace(args[..i], exeName, ks, acts)
      {
        ghost var done := ArgsTrace(args[..i], exeName, ks, acts);
        var goOn := RunOne(args[i]);
        if !goOn {
          RunUnknown(args, i, exeName, ks, acts);
          Assoc(start, done, UsageEvents(exeName, ks, acts));
          return;
        }
        RunKnown(args, i, exeName, ks, acts);
        Assoc(start, done, ArgsTrace([args[i]], exeName, ks, acts));
      }
      assert args[..|args|] == args;
    }
  }
}
