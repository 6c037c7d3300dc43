/**
  The debugger session controller: the actions it dispatches to the debugger
  store, stepped through the asynchronous points of a session as discrete
  events. The store is a record whose fields each dispatched action
  overwrites; the controller keeps a log of what it dispatched, of the
  instances it disposed and of the analytics events it tracked.
*/
module DebuggerActions {
  import opened Results
  import opened JsCollections

  datatype Mode = Stopped | Starting | Running | Stopping

  /** A debugger instance, identified by `id`; `hasSessionEnd` says whether it offers `onSessionEnd`. */
  datatype Instance = Instance(id: nat, hasSessionEnd: bool)

  /** The registry actions, each carrying the name of a service or provider. */
  datatype RegistryCall =
    | AddService(service: string)
    | RemoveService(service: string)
    | AddDebuggerProvider(provider: string)
    | RemoveDebuggerProvider(provider: string)
    | AddEvaluationExpressionProvider(provider: string)
    | RemoveEvaluationExpressionProvider(provider: string)

  /** The actions the controller dispatches. */
  datatype Action =
    | ModeChange(mode: Mode)
    | SetDebuggerInstance(instance: Option<Instance>)
    | SetProcessSocket(socket: Option<string>)
    | SetError(error: Option<string>)
    | UpdateConnections(connections: seq<string>)
    | Registry(call: RegistryCall)

  datatype Store = Store(
    mode: Mode,
    instance: Option<Instance>,
    socket: Option<string>,
    error: Option<string>,
    connections: seq<string>,
    services: set<string>,
    debuggerProviders: set<string>,
    evaluationExpressionProviders: set<string>)

  datatype AnalyticsEvent = DebuggerStart(serviceName: string) | DebuggerStartFail | DebuggerStop

  datatype Controller = Controller(
    store: Store,
    dispatched: seq<Action>,
    disposed: seq<Instance>,
    sessionEndSubscriptions: seq<Instance>,
    analytics: seq<AnalyticsEvent>)

  const FailurePrefix: string := "Failed to start debugger process: "

  function InitialStore(): Store {
    Store(Stopped, None, None, None, [], {}, {}, {})
  }

  function Init(): Controller {
    Controller(InitialStore(), [], [], [], [])
  }

  /** The store's reaction to an action: the field the action names is overwritten or updated. */
  function Apply(s: Store, a: Action): (r: Store)
    ensures a.ModeChange? ==> r == s.(mode := a.mode)
    ensures a.SetDebuggerInstance? ==> r == s.(instance := a.instance)
    ensures a.SetProcessSocket? ==> r == s.(socket := a.socket)
    ensures a.SetError? ==> r == s.(error := a.error)
    ensures a.UpdateConnections? ==> r == s.(connections := a.connections)
    ensures a.Registry? ==> r.mode == s.mode && r.instance == s.instance && r.socket == s.socket
                            && r.error == s.error && r.connections == s.connections
  {
    match a
    case ModeChange(m) => s.(mode := m)
    case SetDebuggerInstance(i) => s.(instance := i)
    case SetProcessSocket(addr) => s.(socket := addr)
    case SetError(e) => s.(error := e)
    case UpdateConnections(cs) => s.(connections := cs)
    case Registry(call) =>
      match call
      case AddService(n) => s.(services := s.services + {n})
      case RemoveService(n) => s.(services := s.services - {n})
      case AddDebuggerProvider(n) => s.(debuggerProviders := s.debuggerProviders + {n})
      case RemoveDebuggerProvider(n) => s.(debuggerProviders := s.debuggerProviders - {n})
      case AddEvaluationExpressionProvider(n) =>
        s.(evaluationExpressionProviders := s.evaluationExpressionProviders + {n})
      case RemoveEvaluationExpressionProvider(n) =>
        s.(evaluationExpressionProviders := s.evaluationExpressionProviders - {n})
  }

  /**
    Dispatching runs the store's reducer on the action and appends the action
    to the log; nothing outside the store and the log changes.
  */
  function Dispatch(c: Controller, a: Action): (r: Controller)
    ensures r.store == Apply(c.store, a) && r.dispatched == c.dispatched + [a]
    ensures r.disposed == c.disposed && r.sessionEndSubscriptions == c.sessionEndSubscriptions
    ensures r.analytics == c.analytics
  {
    c.(store := Apply(c.store, a), dispatched := c.dispatched + [a])
  }

  /**
    `stopDebugging`: a no-op while already stopping; otherwise it moves to
    STOPPING, disposes and clears the held instance (if any), clears the socket,
    moves to STOPPED and tracks the stop. Nothing else in the store changes.
  */
  function StopDebugging(c: Controller): (r: Controller)
    ensures |r.dispatched| >= |c.dispatched| && r.dispatched[..|c.dispatched|] == c.dispatched
    ensures |r.analytics| >= |c.analytics| && r.analytics[..|c.analytics|] == c.analytics
    ensures c.store.mode == Stopping ==> r == c
    ensures c.store.mode != Stopping ==>
              r.store == c.store.(mode := Stopped, instance := None, socket := None)
    ensures c.store.mode != Stopping && c.store.instance.Some? ==>
              r.disposed == c.disposed + [c.store.instance.value]
              && r.dispatched == c.dispatched + [ModeChange(Stopping), SetDebuggerInstance(None),
                                                 SetProcessSocket(None), ModeChange(Stopped)]
    ensures c.store.mode != Stopping && c.store.instance.None? ==>
              r.disposed == c.disposed
              && r.dispatched == c.dispatched + [ModeChange(Stopping), SetProcessSocket(None), ModeChange(Stopped)]
    ensures c.store.mode != Stopping ==> r.analytics == c.analytics + [DebuggerStop]
    ensures r.sessionEndSubscriptions == c.sessionEndSubscriptions
  {
    if c.store.mode == Stopping then c
    else
      var stopping := Dispatch(c, ModeChange(Stopping));
      var cleared :=
        if stopping.store.instance.Some? then
          Dispatch(stopping.(disposed := stopping.disposed + [stopping.store.instance.value]),
                   SetDebuggerInstance(None))
        else stopping;
      var stopped := Dispatch(Dispatch(cleared, SetProcessSocket(None)), ModeChange(Stopped));
      stopped.(analytics := stopped.analytics + [DebuggerStop])
  }

  /** `setError`: dispatches the error; the logging call is not modelled. */
  function SetErrorAction(c: Controller, error: Option<string>): (r: Controller)
    ensures r.store == c.store.(error := error)
    ensures r.dispatched == c.dispatched + [SetError(error)]
    ensures r.disposed == c.disposed && r.analytics == c.analytics
    ensures r.sessionEndSubscriptions == c.sessionEndSubscriptions
  {
    Dispatch(c, SetError(error))
  }

  /**
    `startDebugging` up to its first await: tracks the start, stops any
    previous session, clears the error and moves to STARTING.
  */
  function StartDebugging(c: Controller, serviceName: string): (r: Controller)
    ensures r.store.mode == Starting && r.store.error.None?
    ensures c.store.mode != Stopping ==> r.store.instance.None? && r.store.socket.None?
    ensures c.store.mode != Stopping && c.store.instance.Some? ==> r.disposed == c.disposed + [c.store.instance.value]
    ensures c.store.mode == Stopping || c.store.instance.None? ==> r.disposed == c.disposed
    ensures var tracked := c.(analytics := c.analytics + [DebuggerStart(serviceName)]);
            r.dispatched == StopDebugging(tracked).dispatched + [SetError(None), ModeChange(Starting)]
    ensures |r.analytics| > |c.analytics| && r.analytics[..|c.analytics| + 1] == c.analytics + [DebuggerStart(serviceName)]
    ensures r.store.connections == c.store.connections
  {
    var tracked := c.(analytics := c.analytics + [DebuggerStart(serviceName)]);
    Dispatch(SetErrorAction(StopDebugging(tracked), None), ModeChange(Starting))
  }

  /**
    `_waitForChromeConnection` up to its await: the instance `debug()`
    resolved with becomes the store's instance, whatever the mode is by then,
    and its session-end handler is subscribed when it offers one.
  */
  function InstanceObtained(c: Controller, instance: Instance): (r: Controller)
    ensures r.store == c.store.(instance := Some(instance))
    ensures r.dispatched == c.dispatched + [SetDebuggerInstance(Some(instance))]
    ensures instance.hasSessionEnd ==> r.sessionEndSubscriptions == c.sessionEndSubscriptions + [instance]
    ensures !instance.hasSessionEnd ==> r.sessionEndSubscriptions == c.sessionEndSubscriptions
    ensures r.disposed == c.disposed && r.analytics == c.analytics
  {
    var set_ := Dispatch(c, SetDebuggerInstance(Some(instance)));
    if instance.hasSessionEnd then
      set_.(sessionEndSubscriptions := set_.sessionEndSubscriptions + [instance])
    else set_
  }

  /** The rest of `_waitForChromeConnection`: the socket address is published, then the mode becomes RUNNING. */
  function SocketObtained(c: Controller, socketAddr: Option<string>): (r: Controller)
    ensures r.store == c.store.(socket := socketAddr, mode := Running)
    ensures r.dispatched == c.dispatched + [SetProcessSocket(socketAddr), ModeChange(Running)]
    ensures r.disposed == c.disposed && r.analytics == c.analytics
    ensures r.sessionEndSubscriptions == c.sessionEndSubscriptions
  {
    Dispatch(Dispatch(c, SetProcessSocket(socketAddr)), ModeChange(Running))
  }

  /**
    The `catch` of `startDebugging`: tracks the failure, sets the error
    message built from the thrown value's text, and stops.
  */
  function StartFailed(c: Controller, err: string): (r: Controller)
    ensures c.store.mode != Stopping ==>
              r.store == c.store.(mode := Stopped, instance := None, socket := None,
                                  error := Some(FailurePrefix + err))
    ensures c.store.mode == Stopping ==> r.store == c.store.(error := Some(FailurePrefix + err))
    ensures |r.dispatched| > |c.dispatched| && r.dispatched[..|c.dispatched| + 1] == c.dispatched + [SetError(Some(FailurePrefix + err))]
    ensures |r.analytics| > |c.analytics| && r.analytics[..|c.analytics| + 1] == c.analytics + [DebuggerStartFail]
  {
    var tracked := c.(analytics := c.analytics + [DebuggerStartFail]);
    var withError := SetErrorAction(tracked, Some(FailurePrefix + err));
    var r := StopDebugging(withError);
    assert r.dispatched[..|c.dispatched| + 1] == r.dispatched[..|withError.dispatched|][..|c.dispatched| + 1];
    assert r.analytics[..|c.analytics| + 1] == r.analytics[..|tracked.analytics|][..|c.analytics| + 1];
    r
  }

  /** `_handleSessionEnd`: stops only when the ending instance is still the store's instance. */
  function HandleSessionEnd(c: Controller, instance: Instance): (r: Controller)
    ensures c.store.instance == Some(instance) && c.store.mode != Stopping ==>
              r.store.mode == Stopped && r.store.instance.None? && r.disposed == c.disposed + [instance]
    ensures c.store.instance != Some(instance) ==> r == c
  {
    if c.store.instance == Some(instance) then StopDebugging(c) else c
  }

  /**
    A session end reported while `stopDebugging` is disposing the instance
    (the mode is already STOPPING) changes nothing.
  */
  lemma SessionEndWhileStopping(c: Controller, instance: Instance)
    requires c.store.mode != Stopping && c.store.instance == Some(instance)
    ensures var stopping := Dispatch(c, ModeChange(Stopping));
            HandleSessionEnd(stopping, instance) == stopping
  {
  }

  /** `forceProcessSocket`: publishes a socket address outside the normal session flow. */
  function ForceProcessSocket(c: Controller, socketAddr: Option<string>): (r: Controller)
    ensures r.store == c.store.(socket := socketAddr)
    ensures r.dispatched == c.dispatched + [SetProcessSocket(socketAddr)]
  {
    Dispatch(c, SetProcessSocket(socketAddr))
  }

  /** The registry operations: each dispatches its action, and the store updates the matching set. */
  function UpdateRegistry(c: Controller, call: RegistryCall): (r: Controller)
    ensures r.dispatched == c.dispatched + [Registry(call)]
    ensures call.AddService? ==> r.store.services == c.store.services + {call.service}
    ensures call.RemoveService? ==> r.store.services == c.store.services - {call.service}
    ensures call.AddDebuggerProvider? ==>
              r.store.debuggerProviders == c.store.debuggerProviders + {call.provider}
    ensures call.RemoveDebuggerProvider? ==>
              r.store.debuggerProviders == c.store.debuggerProviders - {call.provider}
    ensures call.AddEvaluationExpressionProvider? ==>
              r.store.evaluationExpressionProviders == c.store.evaluationExpressionProviders + {call.provider}
    ensures call.RemoveEvaluationExpressionProvider? ==>
              r.store.evaluationExpressionProviders == c.store.evaluationExpressionProviders - {call.provider}
    ensures !call.AddService? && !call.RemoveService? ==> r.store.services == c.store.services
    ensures !call.AddDebuggerProvider? && !call.RemoveDebuggerProvider? ==>
              r.store.debuggerProviders == c.store.debuggerProviders
    ensures !call.AddEvaluationExpressionProvider? && !call.RemoveEvaluationExpressionProvider? ==>
              r.store.evaluationExpressionProviders == c.store.evaluationExpressionProviders
    ensures r.store.mode == c.store.mode && r.store.instance == c.store.instance
  {
    Dispatch(c, Registry(call))
  }

  /** Adding then removing a service that was not registered leaves the registry as it was. */
  lemma AddRemoveService(c: Controller, service: string)
    requires service !in c.store.services
    ensures UpdateRegistry(UpdateRegistry(c, AddService(service)), RemoveService(service)).store.services
              == c.store.services
  {
  }

  /** The root URI each remote project path is reduced to, in path order. */
  function RemoteRoots(paths: seq<string>, isRemote: string -> bool, remoteRoot: string -> string): (r: seq<string>)
    ensures forall k :: k in r <==> exists p :: p in paths && isRemote(p) && remoteRoot(p) == k
  {
    if |paths| == 0 then []
    else
      var rest := RemoteRoots(paths[1..], isRemote, remoteRoot);
      assert forall p :: p in paths <==> p == paths[0] || p in paths[1..];
      if isRemote(paths[0]) then [remoteRoot(paths[0])] + rest else rest
  }

  /** The remote connections: the remote roots with later duplicates dropped. */
  function RemoteConnections(paths: seq<string>, isRemote: string -> bool, remoteRoot: string -> string): (r: seq<string>)
    ensures Unique(r)
    ensures forall k :: k in r <==> exists p :: p in paths && isRemote(p) && remoteRoot(p) == k
    ensures var roots := RemoteRoots(paths, isRemote, remoteRoot);
            forall i, j :: 0 <= i < j < |r| ==> IndexOf(roots, r[i]) < IndexOf(roots, r[j])
  {
    Dedup(RemoteRoots(paths, isRemote, remoteRoot))
  }

  /**
    `_getRemoteConnections`: keeps the remote paths, reduces each to its root
    URI (hostname and port, path '/'), then keeps an entry only where `indexOf`
    finds it first. `isRemote` and `remoteRoot` stand for the remote-URI helpers.
  */
  method GetRemoteConnections(paths: seq<string>, isRemote: string -> bool, remoteRoot: string -> string)
    returns (connections: seq<string>)
    ensures connections == RemoteConnections(paths, isRemote, remoteRoot)
  {
    var roots: seq<string> := [];
    var i := 0;
    while i < |paths|
      invariant 0 <= i <= |paths|
      invariant roots == RemoteRoots(paths[..i], isRemote, remoteRoot)
    {
      RemoteRootsAppend(paths[..i], paths[i], isRemote, remoteRoot);
      assert paths[..i + 1] == paths[..i] + [paths[i]];
      if isRemote(paths[i]) {
        roots := roots + [remoteRoot(paths[i])];
      }
      i := i + 1;
    }
    assert paths[..|paths|] == paths;
    connections := FilterFirstOccurrences(roots);
  }

  lemma {:induction false} RemoteRootsAppend(paths: seq<string>, p: string, isRemote: string -> bool, remoteRoot: string -> string)
    ensures RemoteRoots(paths + [p], isRemote, remoteRoot)
              == RemoteRoots(paths, isRemote, remoteRoot) + (if isRemote(p) then [remoteRoot(p)] else [])
    decreases |paths|
  {
    if |paths| == 0 {
      assert paths + [p] == [p];
    } else {
      assert (paths + [p])[1..] == paths[1..] + [p];
      RemoteRootsAppend(paths[1..], p, isRemote, remoteRoot);
    }
  }

  /** `updateConnections`: publishes the remote connections followed by one 'local' entry. */
  function UpdateConnectionsAction(c: Controller, paths: seq<string>, isRemote: string -> bool,
                                   remoteRoot: string -> string): (r: Controller)
    ensures |r.store.connections| >= 1 && r.store.connections[|r.store.connections| - 1] == "local"
    ensures var remote := r.store.connections[..|r.store.connections| - 1];
            Unique(remote)
            && forall k :: k in remote <==> exists p :: p in paths && isRemote(p) && remoteRoot(p) == k
    ensures var remote, roots := r.store.connections[..|r.store.connections| - 1], RemoteRoots(paths, isRemote, remoteRoot);
            forall i, j :: 0 <= i < j < |remote| ==> IndexOf(roots, remote[i]) < IndexOf(roots, remote[j])
    ensures r.store == c.store.(connections := r.store.connections)
    ensures r.dispatched == c.dispatched + [UpdateConnections(r.store.connections)]
  {
    var connections := RemoteConnections(paths, isRemote, remoteRoot) + ["local"];
    assert connections[..|connections| - 1] == RemoteConnections(paths, isRemote, remoteRoot);
    Dispatch(c, UpdateConnections(connections))
  }

  /** When no remote path reduces to 'local', the published list holds 'local' exactly once, at the end. */
  lemma ExactlyOneLocal(c: Controller, paths: seq<string>, isRemote: string -> bool, remoteRoot: string -> string)
    requires forall p :: remoteRoot(p) != "local"
    ensures var cs := UpdateConnectionsAction(c, paths, isRemote, remoteRoot).store.connections;
            Unique(cs) && cs[|cs| - 1] == "local"
  {
    var cs := UpdateConnectionsAction(c, paths, isRemote, remoteRoot).store.connections;
    var remote := cs[..|cs| - 1];
    assert cs == remote + ["local"];
    assert "local" !in remote;
  }

  /** The points at which the controller runs: public calls and resumptions after an await. */
  datatype Event =
    | Start(serviceName: string)
    | Stop
    | DebugResolved(instance: Instance)
    | SocketResolved(socketAddr: Option<string>)
    | Failed(err: string)
    | SessionEnded(instance: Instance)

  /** A session-end event reaches the handler only for an instance whose handler was subscribed. */
  function Step(c: Controller, e: Event): Controller {
    match e
    case Start(name) => StartDebugging(c, name)
    case Stop => StopDebugging(c)
    case DebugResolved(i) => InstanceObtained(c, i)
    case SocketResolved(addr) => SocketObtained(c, addr)
    case Failed(err) => StartFailed(c, err)
    case SessionEnded(i) => if i in c.sessionEndSubscriptions then HandleSessionEnd(c, i) else c
  }

  function Run(c: Controller, es: seq<Event>): Controller
    decreases |es|
  {
    if |es| == 0 then c else Step(Run(c, es[..|es| - 1]), es[|es| - 1])
  }

  /** Between events the store is never left STOPPING, and a socket is only published while RUNNING. */
  predicate Settled(s: Store) {
    s.mode != Stopping && (s.socket.Some? ==> s.mode == Running)
  }

  lemma StepSettled(c: Controller, e: Event)
    requires Settled(c.store)
    ensures Settled(Step(c, e).store)
  {
  }

  lemma {:induction false} RunSettled(c: Controller, es: seq<Event>)
    requires Settled(c.store)
    ensures Settled(Run(c, es).store)
    decreases |es|
  {
    if |es| > 0 {
      RunSettled(c, es[..|es| - 1]);
      StepSettled(Run(c, es[..|es| - 1]), es[|es| - 1]);
    }
  }

  /** The instances the events hand over as `debug()` results. */
  function Obtained(es: seq<Event>): set<Instance> {
    set i | 0 <= i < |es| && es[i].DebugResolved? :: es[i].instance
  }

  /** No instance is handed over twice. */
  predicate FreshInstances(es: seq<Event>) {
    forall i, j :: 0 <= i < j < |es| && es[i].DebugResolved? && es[j].DebugResolved? ==>
      es[i].instance != es[j].instance
  }

  /** Every disposed instance was obtained, none twice, and the held one is not yet disposed. */
  predicate DisposalInvariant(c: Controller, obtained: set<Instance>) {
    Unique(c.disposed)
    && (forall d :: d in c.disposed ==> d in obtained)
    && (c.store.instance.Some? ==> c.store.instance.value in obtained && c.store.instance.value !in c.disposed)
  }

  lemma StepDisposal(c: Controller, obtained: set<Instance>, e: Event)
    requires DisposalInvariant(c, obtained)
    requires e.DebugResolved? ==> e.instance !in obtained
    ensures DisposalInvariant(Step(c, e), obtained + (if e.DebugResolved? then {e.instance} else {}))
  {
  }

  lemma {:induction false} RunDisposal(es: seq<Event>)
    requires FreshInstances(es)
    ensures DisposalInvariant(Run(Init(), es), Obtained(es))
    decreases |es|
  {
    if |es| > 0 {
      var prefix := es[..|es| - 1];
      var last := es[|es| - 1];
      assert FreshInstances(prefix);
      RunDisposal(prefix);
      assert Obtained(es) == Obtained(prefix) + (if last.DebugResolved? then {last.instance} else {}) by {
        forall x | x in Obtained(es) ensures x in Obtained(prefix) + (if last.DebugResolved? then {last.instance} else {}) {
          var i :| 0 <= i < |es| && es[i].DebugResolved? && es[i].instance == x;
          if i < |es| - 1 {
            assert prefix[i] == es[i];
          }
        }
        forall x | x in Obtained(prefix) ensures x in Obtained(es) {
          var i :| 0 <= i < |prefix| && prefix[i].DebugResolved? && prefix[i].instance == x;
          assert es[i] == prefix[i];
        }
      }
      if last.DebugResolved? {
        forall i | 0 <= i < |prefix| && prefix[i].DebugResolved? ensures prefix[i].instance != last.instance {
          assert es[i] == prefix[i];
        }
      }
      StepDisposal(Run(Init(), prefix), Obtained(prefix), last);
    }
  }

  /** When every `debug()` result is a new instance, no instance is disposed twice. */
  lemma DisposedAtMostOnce(es: seq<Event>)
    requires FreshInstances(es)
    ensures Unique(Run(Init(), es).disposed)
  {
    RunDisposal(es);
  }

  lemma RunSnoc(c: Controller, es: seq<Event>, e: Event)
    ensures Run(c, es + [e]) == Step(Run(c, es), e)
  {
    assert (es + [e])[..|es|] == es;
  }

  /** Running three events is stepping through them in order. */
  lemma RunThree(c: Controller, e1: Event, e2: Event, e3: Event)
    ensures Run(c, [e1, e2, e3]) == Step(Step(Step(c, e1), e2), e3)
  {
    var none: seq<Event> := [];
    var s1 := none + [e1];
    var s2 := s1 + [e2];
    RunSnoc(c, none, e1);
    RunSnoc(c, s1, e2);
    RunSnoc(c, s2, e3);
    assert s2 + [e3] == [e1, e2, e3];
  }

  /** A start whose instance and socket both arrive ends RUNNING with that instance and socket and no error. */
  lemma SuccessfulStart(c: Controller, name: string, instance: Instance, socketAddr: string)
    requires Settled(c.store)
    ensures var r := Run(c, [Start(name), DebugResolved(instance), SocketResolved(Some(socketAddr))]);
            r.store.mode == Running && r.store.instance == Some(instance)
            && r.store.socket == Some(socketAddr) && r.store.error.None?
            && |r.dispatched| >= 5
            && r.dispatched[|r.dispatched| - 5..] ==
                 [SetError(None), ModeChange(Starting), SetDebuggerInstance(Some(instance)),
                  SetProcessSocket(Some(socketAddr)), ModeChange(Running)]
  {
    RunThree(c, Start(name), DebugResolved(instance), SocketResolved(Some(socketAddr)));
    var started := StartDebugging(c, name);
    var withInstance := InstanceObtained(started, instance);
    var running := SocketObtained(withInstance, Some(socketAddr));
    assert |started.dispatched| >= 2;
    assert started.dispatched[|started.dispatched| - 2..] == [SetError(None), ModeChange(Starting)];
    assert running.dispatched == started.dispatched + [SetDebuggerInstance(Some(instance)),
                                                       SetProcessSocket(Some(socketAddr)), ModeChange(Running)];
  }

  /** A start that fails ends STOPPED with no instance, no socket and the failure message as the error. */
  lemma FailedStart(c: Controller, name: string, err: string)
    requires Settled(c.store)
    ensures var r := Run(c, [Start(name), Failed(err)]);
            r.store.mode == Stopped && r.store.instance.None? && r.store.socket.None?
            && r.store.error == Some(FailurePrefix + err)
  {
    RunSnoc(c, [], Start(name));
    assert [] + [Start(name)] == [Start(name)];
    RunSnoc(c, [Start(name)], Failed(err));
    assert [Start(name)] + [Failed(err)] == [Start(name), Failed(err)];
  }

  /** A failure after the instance arrived disposes that instance. */
  lemma FailedAfterInstance(c: Controller, name: string, instance: Instance, err: string)
    requires Settled(c.store)
    ensures var r := Run(c, [Start(name), DebugResolved(instance), Failed(err)]);
            r.store.mode == Stopped && r.store.instance.None?
            && |r.disposed| > 0 && r.disposed[|r.disposed| - 1] == instance
            && r.store.error == Some(FailurePrefix + err)
  {
    RunThree(c, Start(name), DebugResolved(instance), Failed(err));
    var c1 := StartDebugging(c, name);
    var c2 := InstanceObtained(c1, instance);
    assert c2.store.mode == Starting && c2.store.instance == Some(instance);
    var c3 := StartFailed(c2, err);
    assert c3.disposed == c2.disposed + [instance];
  }

  /**
    No stale-instance guard: when `debug()` resolves after the session was
    stopped, the store ends STOPPED yet holds the instance.
  */
  lemma LateInstanceAfterStop(c: Controller, name: string, instance: Instance)
    requires Settled(c.store)
    ensures var r := Run(c, [Start(name), Stop, DebugResolved(instance)]);
            r.store.mode == Stopped && r.store.instance == Some(instance)
  {
    RunThree(c, Start(name), Stop, DebugResolved(instance));
    var c1 := StartDebugging(c, name);
    var c2 := StopDebugging(c1);
    assert c2.store.mode == Stopped;
  }

  /**
    No stale-socket guard either: when `getWebsocketAddress()` resolves after
    the session was stopped, the store goes RUNNING with the socket set but no
    instance.
  */
  lemma LateSocketAfterStop(c: Controller, name: string, instance: Instance, socketAddr: string)
    ensures var obtained := Step(Step(c, Start(name)), DebugResolved(instance));
            var r := Step(Step(obtained, Stop), SocketResolved(Some(socketAddr)));
            && r.store.mode == Running && r.store.instance.None?
            && r.store.socket == Some(socketAddr)
  {
    var c2 := InstanceObtained(StartDebugging(c, name), instance);
    assert c2.store.mode == Starting;
    var c3 := StopDebugging(c2);
    assert c3.store.instance.None?;
  }

  /**
    A failure reported by an earlier start after a later start began leaves its
    message in the store: when the later start's instance and socket then
    arrive, the session ends RUNNING with that instance and the stale error.
  */
  lemma RunningWithStaleError(c: Controller, a: string, b: string, err: string, instance: Instance, socketAddr: string)
    ensures var failed := Step(Step(Step(c, Start(a)), Start(b)), Failed(err));
            var r := Step(Step(failed, DebugResolved(instance)), SocketResolved(Some(socketAddr)));
            && r.store.mode == Running && r.store.instance == Some(instance)
            && r.store.socket == Some(socketAddr) && r.store.error == Some(FailurePrefix + err)
  {
    var c2 := StartDebugging(StartDebugging(c, a), b);
    assert c2.store.mode == Starting;
    var c3 := StartFailed(c2, err);
    assert c3.store.error == Some(FailurePrefix + err);
    var c4 := InstanceObtained(c3, instance);
    assert c4.store.error == c3.store.error && c4.store.instance == Some(instance);
  }

  /**
    Overlapping starts: when the first start's instance arrives after the
    second start's, it replaces it, and the stop that follows disposes only
    the first; the second instance is never disposed.
  */
  lemma OverlappingStarts(c: Controller, a: string, b: string, first: Instance, second: Instance)
    requires Settled(c.store) && c.store.instance.None?
    requires first != second && second !in c.disposed
    ensures var started := Step(Step(c, Start(a)), Start(b));
            var r := Step(Step(Step(started, DebugResolved(second)), DebugResolved(first)), Stop);
            r.store.mode == Stopped && r.disposed == c.disposed + [first] && second !in r.disposed
  {
    var c1 := StartDebugging(c, a);
    var c2 := StartDebugging(c1, b);
    var c4 := InstanceObtained(InstanceObtained(c2, second), first);
    assert c1.disposed == c.disposed && c1.store.mode == Starting;
    assert c2.disposed == c.disposed && c2.store.mode == Starting;
    assert c4.disposed == c.disposed && c4.store.instance == Some(first);
  }
}
