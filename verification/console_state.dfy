/**
  The console's state reducer: `accumulateState` folds each dispatched action
  into the application state, and `createStateStream` scans a stream of actions
  with it.
*/
module ConsoleState {
  import opened Results
  import JsCollections

  /** One console line; its fields are carried, never inspected, by the reducer. */
  datatype Record = Record(text: string, level: string, sourceId: string)

  /** A record provider, keyed by its `source`. */
  datatype RecordProvider = RecordProvider(source: string)

  /** The subscription opened on a provider's record stream. */
  datatype Subscription = Subscription(id: nat)

  /** A code executor, keyed by its `id`. */
  datatype Executor = Executor(id: string, name: string)

  datatype AppState = AppState(
    records: seq<Record>,
    maxMessageCount: int,
    providers: map<string, RecordProvider>,
    providerSubscriptions: map<string, Subscription>,
    executors: map<string, Executor>,
    currentExecutorId: Option<string>)

  /**
    The `type` strings the reducer handles, taken to be the names of the
    `ActionTypes` constants.
  */
  const HandledActionTypes: set<string> := {
    "EXECUTE", "MESSAGE_RECEIVED", "MAX_MESSAGE_COUNT_UPDATED", "PROVIDER_REGISTERED",
    "RECORDS_CLEARED", "REGISTER_EXECUTOR", "SELECT_EXECUTOR", "SOURCE_REMOVED",
    "UNREGISTER_EXECUTOR"}

  /** Any `type` string the reducer has no case for. */
  type UnhandledActionType = t: string | t !in HandledActionTypes witness ""

  /** The tagged action union; `Unrecognized` is any other `type` string. */
  datatype Action =
    | Execute(code: string)
    | MessageReceived(record: Record)
    | MaxMessageCountUpdated(maxMessageCount: int)
    | ProviderRegistered(recordProvider: RecordProvider, subscription: Subscription)
    | RecordsCleared
    | RegisterExecutor(executor: Executor)
    | SelectExecutor(executorId: Option<string>)
    | SourceRemoved(source: string)
    | UnregisterExecutor(executor: Executor)
    | Unrecognized(actionType: UnhandledActionType)

  /** The record log respects a positive limit. */
  predicate BoundedLog(s: AppState) {
    s.maxMessageCount > 0 ==> |s.records| <= s.maxMessageCount
  }

  /**
    MESSAGE_RECEIVED: the record is appended and only the most recent
    `maxMessageCount` records are kept (`slice(-max)`; a limit of 0 keeps all).
  */
  function ReceiveMessage(state: AppState, record: Record): (r: AppState)
    ensures r == state.(records := r.records)
    ensures var appended := state.records + [record];
            |r.records| <= |appended| && r.records == appended[|appended| - |r.records|..]
    ensures state.maxMessageCount > 0 ==>
              |r.records| == if |state.records| < state.maxMessageCount then |state.records| + 1
                             else state.maxMessageCount
    ensures state.maxMessageCount == 0 ==> r.records == state.records + [record]
    ensures state.maxMessageCount >= 0 ==> |r.records| > 0 && r.records[|r.records| - 1] == record
    ensures state.maxMessageCount < 0 ==>
              |r.records| == if |state.records| + 1 > -state.maxMessageCount
                             then |state.records| + 1 + state.maxMessageCount else 0
  {
    state.(records := JsCollections.SliceFrom(state.records + [record], -state.maxMessageCount))
  }

  /**
    MAX_MESSAGE_COUNT_UPDATED: a non-positive limit is ignored; a positive one
    is stored and the log is cut to its most recent records.
  */
  function UpdateMaxMessageCount(state: AppState, maxMessageCount: int): (r: AppState)
    ensures maxMessageCount <= 0 ==> r == state
    ensures maxMessageCount > 0 ==>
              && r == state.(maxMessageCount := maxMessageCount, records := r.records)
              && |r.records| == (if |state.records| < maxMessageCount then |state.records| else maxMessageCount)
              && r.records == state.records[|state.records| - |r.records|..]
  {
    if maxMessageCount <= 0 then state
    else state.(maxMessageCount := maxMessageCount,
                records := JsCollections.SliceFrom(state.records, -maxMessageCount))
  }

  /** PROVIDER_REGISTERED: both maps gain (or replace) the entry under the provider's source. */
  function RegisterProvider(state: AppState, provider: RecordProvider, subscription: Subscription): (r: AppState)
    ensures r == state.(providers := r.providers, providerSubscriptions := r.providerSubscriptions)
    ensures provider.source in r.providers && r.providers[provider.source] == provider
    ensures provider.source in r.providerSubscriptions && r.providerSubscriptions[provider.source] == subscription
    ensures r.providers.Keys == state.providers.Keys + {provider.source}
    ensures r.providerSubscriptions.Keys == state.providerSubscriptions.Keys + {provider.source}
    ensures forall k :: k in state.providers && k != provider.source ==> r.providers[k] == state.providers[k]
    ensures forall k :: k in state.providerSubscriptions && k != provider.source ==>
              r.providerSubscriptions[k] == state.providerSubscriptions[k]
  {
    state.(providers := state.providers[provider.source := provider],
           providerSubscriptions := state.providerSubscriptions[provider.source := subscription])
  }

  /** SOURCE_REMOVED: the source's entry leaves both maps; every other entry stays. */
  function RemoveSource(state: AppState, source: string): (r: AppState)
    ensures r == state.(providers := r.providers, providerSubscriptions := r.providerSubscriptions)
    ensures r.providers.Keys == state.providers.Keys - {source}
    ensures r.providerSubscriptions.Keys == state.providerSubscriptions.Keys - {source}
    ensures forall k :: k in r.providers ==> r.providers[k] == state.providers[k]
    ensures forall k :: k in r.providerSubscriptions ==> r.providerSubscriptions[k] == state.providerSubscriptions[k]
  {
    state.(providers := state.providers - {source},
           providerSubscriptions := state.providerSubscriptions - {source})
  }

  /** REGISTER_EXECUTOR: the executor is stored under its id. */
  function RegisterExecutor(state: AppState, executor: Executor): (r: AppState)
    ensures r == state.(executors := r.executors)
    ensures executor.id in r.executors && r.executors[executor.id] == executor
    ensures r.executors.Keys == state.executors.Keys + {executor.id}
    ensures forall k :: k in state.executors && k != executor.id ==> r.executors[k] == state.executors[k]
  {
    state.(executors := state.executors[executor.id := executor])
  }

  /** UNREGISTER_EXECUTOR: the entry under the executor's id is deleted. */
  function UnregisterExecutor(state: AppState, executor: Executor): (r: AppState)
    ensures r == state.(executors := r.executors)
    ensures r.executors.Keys == state.executors.Keys - {executor.id}
    ensures forall k :: k in r.executors ==> r.executors[k] == state.executors[k]
  {
    state.(executors := state.executors - {executor.id})
  }

  /** `accumulateState`: one reducer step; an unrecognized action type is an error. */
  function AccumulateState(state: AppState, action: Action): (r: Result<AppState, string>)
    ensures r.Err? <==> action.Unrecognized?
    ensures action.Unrecognized? ==> r.error == "Unrecognized action type: " + action.actionType
    ensures action.Execute? ==> r == Ok(state)
    ensures action.RecordsCleared? ==> r == Ok(state.(records := []))
    ensures action.SelectExecutor? ==> r == Ok(state.(currentExecutorId := action.executorId))
    ensures action.MessageReceived? ==> r == Ok(ReceiveMessage(state, action.record))
    ensures action.MaxMessageCountUpdated? ==> r == Ok(UpdateMaxMessageCount(state, action.maxMessageCount))
    ensures action.ProviderRegistered? ==> r == Ok(RegisterProvider(state, action.recordProvider, action.subscription))
    ensures action.RegisterExecutor? ==> r == Ok(RegisterExecutor(state, action.executor))
    ensures action.SourceRemoved? ==> r == Ok(RemoveSource(state, action.source))
    ensures action.UnregisterExecutor? ==> r == Ok(UnregisterExecutor(state, action.executor))
  {
    match action
    case Execute(_) => Ok(state)
    case MessageReceived(record) => Ok(ReceiveMessage(state, record))
    case MaxMessageCountUpdated(n) => Ok(UpdateMaxMessageCount(state, n))
    case ProviderRegistered(provider, subscription) => Ok(RegisterProvider(state, provider, subscription))
    case RecordsCleared => Ok(state.(records := []))
    case RegisterExecutor(executor) => Ok(RegisterExecutor(state, executor))
    case SelectExecutor(id) => Ok(state.(currentExecutorId := id))
    case SourceRemoved(source) => Ok(RemoveSource(state, source))
    case UnregisterExecutor(executor) => Ok(UnregisterExecutor(state, executor))
    case Unrecognized(t) => Err("Unrecognized action type: " + t)
  }

  /** Every reducer step keeps the record log within a positive limit, and keeps a positive limit positive. */
  lemma AccumulatePreservesBound(state: AppState, action: Action)
    requires BoundedLog(state)
    requires AccumulateState(state, action).Ok?
    ensures BoundedLog(AccumulateState(state, action).value)
    ensures state.maxMessageCount > 0 ==> AccumulateState(state, action).value.maxMessageCount > 0
  {
  }

  /** What `action$.scan(accumulateState, initialState)` emits: each state, and the error that ends the stream, if any. */
  datatype Stream = Stream(states: seq<AppState>, error: Option<string>)

  /** `createStateStream`: scans the actions, emitting one state per action until the first error. */
  function StateStream(initial: AppState, actions: seq<Action>): (r: Stream)
    ensures |r.states| <= |actions|
    ensures r.error.None? ==> |r.states| == |actions|
    ensures r.error.Some? ==> |r.states| < |actions| && actions[|r.states|].Unrecognized?
    ensures forall i :: 0 <= i < |r.states| ==> !actions[i].Unrecognized?
    ensures forall i :: 0 <= i < |r.states| ==>
              AccumulateState(if i == 0 then initial else r.states[i - 1], actions[i]) == Ok(r.states[i])
    ensures r.error.Some? ==>
              AccumulateState(if |r.states| == 0 then initial else r.states[|r.states| - 1], actions[|r.states|])
                == Err(r.error.value)
    decreases |actions|
  {
    if |actions| == 0 then Stream([], None)
    else
      match AccumulateState(initial, actions[0])
      case Err(e) => Stream([], Some(e))
      case Ok(next) =>
        var rest := StateStream(next, actions[1..]);
        Stream([next] + rest.states, rest.error)
  }

  /** Starting from a bounded state, every state the stream emits is bounded. */
  lemma {:induction false} StreamStaysBounded(initial: AppState, actions: seq<Action>)
    requires BoundedLog(initial)
    ensures forall i :: 0 <= i < |StateStream(initial, actions).states| ==>
              BoundedLog(StateStream(initial, actions).states[i])
    decreases |actions|
  {
    if |actions| > 0 && AccumulateState(initial, actions[0]).Ok? {
      var next := AccumulateState(initial, actions[0]).value;
      AccumulatePreservesBound(initial, actions[0]);
      StreamStaysBounded(next, actions[1..]);
    }
  }

  /** Once the limit is positive, every later record log fits within the limit then in force. */
  lemma {:induction false} StreamLimitStaysPositive(initial: AppState, actions: seq<Action>)
    requires initial.maxMessageCount > 0 && BoundedLog(initial)
    ensures forall i :: 0 <= i < |StateStream(initial, actions).states| ==>
              var s := StateStream(initial, actions).states[i];
              s.maxMessageCount > 0 && |s.records| <= s.maxMessageCount
    decreases |actions|
  {
    if |actions| > 0 && AccumulateState(initial, actions[0]).Ok? {
      var next := AccumulateState(initial, actions[0]).value;
      AccumulatePreservesBound(initial, actions[0]);
      StreamLimitStaysPositive(next, actions[1..]);
    }
  }
}
