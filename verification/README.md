# Nuclide session, console, Mercurial and tree logic in Dafny

This project models four small pieces of logic from the Nuclide editor
packages as pure Dafny functions and proves what they promise.

- **Debugger session controller** (`DebuggerActions`). The actions it dispatches
  to the debugger store as a session is started, connected, failed, ended and
  stopped. The store is a record whose fields each action overwrites. The
  controller also logs what it dispatched, which instances it disposed and
  which analytics events it tracked. Each asynchronous resumption
  (`debug()` resolving, `getWebsocketAddress()` resolving, a rejection, an
  instance's session-end notification) is a discrete event.
- **Console state reducer** (`ConsoleState`). `accumulateState` over every action
  type: a record log bounded by `maxMessageCount`, provider, subscription and
  executor maps keyed by source and id, and the selected executor. An
  unrecognized action type is an error. `createStateStream` is the scan of the
  reducer over a sequence of actions.
- **Mercurial revision-change parser** (`HgRevisionState`). The `hg log` template
  output is trimmed and split into lines. The five labelled fields become file
  lists, and the copies field is cut into `to (from)` pairs by the regular
  expression `(.+) \((.+)`. Also covered: the argument list of `hg cat`.
  `path.join` is an uninterpreted function passed in.
- **Tree selection and expansion** (`TreeRoot`). `toggleSetHas`, the initial
  state, expansion with deselection of descendants, the stack-based preorder of
  visible keys built by `render`, first-selected-key lookup, moving the
  selection up and down, removing a subtree's state, and `serialize`.

Shared JavaScript semantics live in `JsCollections` and `JsStrings`:
- a `Set` is a duplicate-free sequence in insertion order;
- `Array.prototype.slice` with a negative start, `indexOf`, and the
  first-occurrence `filter`;
- `String.prototype.trim` with the ECMAScript white-space and line-terminator
  code points, `split` on one character, and `join`.

Integers in the sources are JavaScript numbers used as small counts and
indices. They are modelled as unbounded integers.

### Behaviour of the code worth noting

- **Instance held while stopped.** The debugger store can hold an instance
  while its mode is STOPPED. `_waitForChromeConnection` sets the instance
  whenever `debug()` resolves, with no check that the session is still
  current. `LateInstanceAfterStop` shows a start, a stop, then a late instance
  leaving the store STOPPED yet holding it. `OverlappingStarts` shows that when
  A's instance arrives after B's, A's replaces B's, and B's is never disposed.
- **Running after a stop.** The socket side has no such check either.
  `LateSocketAfterStop` shows a start, its instance, a stop, then a late
  `getWebsocketAddress()` result. The store goes RUNNING with the socket set
  and no instance.
- **Running with a stale error.** A start's failure is handled even when a
  later start has superseded it. When A fails after B has started, A's `catch`
  sets the error and stops B's session. B's `debug()` and socket can still
  resolve afterwards, and the store then goes RUNNING with A's failure
  message as its error. `RunningWithStaleError` shows this end state: RUNNING,
  with B's instance and socket, and the error set. So a session does not
  always end either RUNNING without an error or STOPPED with one.
- **A disposal that throws is not caught.** `stopDebugging` disposes the held
  instance outside any `try`. If `dispose()` throws, the exception propagates
  with the mode left at STOPPING and the instance still held. Stops then
  return immediately until a later start moves the mode to STARTING (its own
  opening stop returns at once too). The next stop after that disposes the
  still-held instance again. The model assumes `dispose()` returns.
- **Stopping when already stopped** still dispatches the three actions and
  tracks a `debugger-stop` event. It is not a silent no-op.
- **Exactly one `'local'`.** If no remote root URI is `'local'`, the
  connection list holds `'local'` exactly once, at the end
  (`ExactlyOneLocal`). Otherwise the code publishes it twice.

## Model

| member | source | states |
|---|---|---|
| DebuggerActions.Apply | pkg/nuclide-debugger-atom/lib/DebuggerActions.js:76-81 | each dispatched action overwrites exactly the store field it names; registry actions leave mode, instance, socket, error and connections alone |
| DebuggerActions.Dispatch | pkg/nuclide-debugger-atom/lib/DebuggerActions.js:76-81 | a dispatch runs the store's reducer on the action and appends it to the dispatch log; the disposals, subscriptions and analytics are untouched |
| DebuggerActions.StopDebugging | pkg/nuclide-debugger-atom/lib/DebuggerActions.js:122-142 | a no-op while STOPPING; otherwise the store ends STOPPED with no instance and no socket and nothing else changed, the held instance is disposed exactly once, the dispatch order is STOPPING, clear instance (only if one was held), clear socket, STOPPED, and one stop event is tracked, also when already STOPPED |
| DebuggerActions.SetErrorAction | pkg/nuclide-debugger-atom/lib/DebuggerActions.js:186-192 | only the store's error changes, through one SET_ERROR dispatch |
| DebuggerActions.StartDebugging | pkg/nuclide-debugger-atom/lib/DebuggerActions.js:54-66 | the start is tracked first, then the previous session is stopped, then the error is cleared, then the mode becomes STARTING with no instance and no socket |
| DebuggerActions.InstanceObtained | pkg/nuclide-debugger-atom/lib/DebuggerActions.js:83-89 | the resolved instance becomes the store's instance whatever the mode; its session-end handler is subscribed exactly when it offers one |
| DebuggerActions.SocketObtained | pkg/nuclide-debugger-atom/lib/DebuggerActions.js:91-99 | the socket address is dispatched, then RUNNING; nothing else changes |
| DebuggerActions.StartFailed | pkg/nuclide-debugger-atom/lib/DebuggerActions.js:68-73 | the failure is tracked, the error becomes the fixed prefix followed by the thrown value's text, and the stop leaves STOPPED with no instance or socket |
| DebuggerActions.HandleSessionEnd | pkg/nuclide-debugger-atom/lib/DebuggerActions.js:112-120 | a session end stops the session and disposes the instance only if it is the store's current instance; otherwise nothing changes |
| DebuggerActions.SessionEndWhileStopping | pkg/nuclide-debugger-atom/lib/DebuggerActions.js:122-130 | a session end fired by the disposal inside `stopDebugging` finds the mode STOPPING and changes nothing |
| DebuggerActions.ForceProcessSocket | pkg/nuclide-debugger-atom/lib/DebuggerActions.js:200-205 | only the socket changes, through one dispatch |
| DebuggerActions.UpdateRegistry | pkg/nuclide-debugger-atom/lib/DebuggerActions.js:144-184 | each add or remove call dispatches its action, and the matching registry gains or loses that entry while the other registries are unchanged |
| DebuggerActions.AddRemoveService | pkg/nuclide-debugger-atom/lib/DebuggerActions.js:144-156 | removing a just-added service that was absent restores the service registry |
| DebuggerActions.RemoteRoots | pkg/nuclide-debugger-atom/lib/DebuggerActions.js:227-231 | a URI is among the roots iff some project path is remote and reduces to it |
| DebuggerActions.RemoteConnections | pkg/nuclide-debugger-atom/lib/DebuggerActions.js:225-235 | the remote connections have no duplicates, are exactly the roots of the remote project paths, and appear in the order each root is first found |
| DebuggerActions.GetRemoteConnections | pkg/nuclide-debugger-atom/lib/DebuggerActions.js:225-235 | the filter, map and `indexOf` filter produce the first-occurrence deduplication of the remote roots, in discovery order |
| DebuggerActions.UpdateConnectionsAction | pkg/nuclide-debugger-atom/lib/DebuggerActions.js:211-220 | the published list is the duplicate-free remote connections, in order of first discovery, followed by 'local' at the end, and only the connections field changes |
| DebuggerActions.ExactlyOneLocal | pkg/nuclide-debugger-atom/lib/DebuggerActions.js:213-215 | when no remote root is 'local', the published list has no duplicates and its only 'local' is the last entry |
| DebuggerActions.StepSettled | pkg/nuclide-debugger-atom/lib/DebuggerActions.js:54-142 | every event leaves the mode other than STOPPING and publishes a socket only while RUNNING |
| DebuggerActions.RunSettled | pkg/nuclide-debugger-atom/lib/DebuggerActions.js:54-142 | the same holds after any sequence of events |
| DebuggerActions.StepDisposal | pkg/nuclide-debugger-atom/lib/DebuggerActions.js:126-131 | an event disposes only the held instance, which was not disposed before |
| DebuggerActions.RunDisposal | pkg/nuclide-debugger-atom/lib/DebuggerActions.js:83-131 | over any event sequence with fresh instances, every disposed instance was obtained and the held one is not yet disposed |
| DebuggerActions.DisposedAtMostOnce | pkg/nuclide-debugger-atom/lib/DebuggerActions.js:126-131 | when every `debug()` result is a new instance, no instance is disposed twice |
| DebuggerActions.SuccessfulStart | pkg/nuclide-debugger-atom/lib/DebuggerActions.js:54-99 | start, instance, socket ends RUNNING with that instance and socket and no error; the last dispatches are clear error, STARTING, set instance, set socket, RUNNING |
| DebuggerActions.FailedStart | pkg/nuclide-debugger-atom/lib/DebuggerActions.js:54-73 | a start whose `debug()` rejects ends STOPPED with no instance, no socket and the failure message as the error |
| DebuggerActions.FailedAfterInstance | pkg/nuclide-debugger-atom/lib/DebuggerActions.js:66-73 | a failure after the instance arrived disposes that instance and ends STOPPED with the error set |
| DebuggerActions.LateInstanceAfterStop | pkg/nuclide-debugger-atom/lib/DebuggerActions.js:83-84 | a `debug()` result arriving after a stop leaves the store STOPPED but holding the instance |
| DebuggerActions.LateSocketAfterStop | pkg/nuclide-debugger-atom/lib/DebuggerActions.js:91-99 | a socket address arriving after the session was stopped leaves the store RUNNING with that socket and no instance |
| DebuggerActions.OverlappingStarts | pkg/nuclide-debugger-atom/lib/DebuggerActions.js:60-84 | with two overlapping starts whose instances arrive in reverse order, the first start's instance wins and the second's is never disposed |
| DebuggerActions.RunningWithStaleError | pkg/nuclide-debugger-atom/lib/DebuggerActions.js:59-72 | a start superseded by a second start and then failing sets the error and stops; the second start's instance and socket still arriving leave the store RUNNING with that instance and socket and the failure message as its error |
| ConsoleState.ReceiveMessage | pkg/nuclide-console/lib/createStateStream.js:30-36 | the new record is last, the log is the most recent suffix of old records plus the new one, at most `maxMessageCount` long when that is positive, and kept whole when it is 0 |
| ConsoleState.UpdateMaxMessageCount | pkg/nuclide-console/lib/createStateStream.js:37-47 | a value of 0 or less changes nothing; a positive one becomes the limit and truncates the records to their most recent suffix of that length; nothing else changes |
| ConsoleState.RegisterProvider | pkg/nuclide-console/lib/createStateStream.js:48-56 | the provider and its subscription are set under the provider's source in both maps; other keys and fields are unchanged |
| ConsoleState.RemoveSource | pkg/nuclide-console/lib/createStateStream.js:77-88 | the source key leaves both maps; other keys and fields are unchanged |
| ConsoleState.RegisterExecutor | pkg/nuclide-console/lib/createStateStream.js:63-69 | the executor is stored under its id; other ids and fields are unchanged |
| ConsoleState.UnregisterExecutor | pkg/nuclide-console/lib/createStateStream.js:89-97 | the executor's id leaves the map; other ids and fields are unchanged |
| ConsoleState.AccumulateState | pkg/nuclide-console/lib/createStateStream.js:24-101 | EXECUTE returns the state, RECORDS_CLEARED empties only the records, SELECT_EXECUTOR changes only the current executor, each of the other six recognized types gives the result of its own step function on that action's payload, and an unrecognized type is an error carrying the type in the message |
| ConsoleState.AccumulatePreservesBound | pkg/nuclide-console/lib/createStateStream.js:24-101 | with a positive limit, a record log within the limit stays within it after any recognized action |
| ConsoleState.StateStream | pkg/nuclide-console/lib/createStateStream.js:17-22 | the stream is the scan of the reducer: state i is the reducer applied to state i-1 (the initial state for i = 0) and action i; it stops at the first unrecognized action, and its error is exactly the reducer's error on that action; without one, every action yields a state |
| ConsoleState.StreamStaysBounded | pkg/nuclide-console/lib/createStateStream.js:17-22 | every state of the stream keeps its record log within its positive limit |
| ConsoleState.StreamLimitStaysPositive | pkg/nuclide-console/lib/createStateStream.js:37-47 | a positive limit stays positive in every state of the stream |
| HgRevisionState.AbsolutizeAll | pkg/nuclide/hg-repository-base/lib/hg-revision-state-helpers.js:135-143 | one output per input, in order, each the working directory joined with that path |
| HgRevisionState.Absolutize | pkg/nuclide/hg-repository-base/lib/hg-revision-state-helpers.js:135-137 | a path is absolutized by joining the working directory with it, in that argument order |
| HgRevisionState.CatArgs | pkg/nuclide/hg-repository-base/lib/hg-revision-state-helpers.js:82-86 | a falsy revision (absent or empty) gives `cat <file>`; otherwise `cat --rev <revision> <file>` |
| HgRevisionState.LogArgs | pkg/nuclide/hg-repository-base/lib/hg-revision-state-helpers.js:12 | the `hg log` arguments are `log --template <template> --rev <revision>`, and the template has five lines, each starting with its field's label and a space, in the order files, adds, deletes, copies, mods |
| HgRevisionState.TemplateLines | pkg/nuclide/hg-repository-base/lib/hg-revision-state-helpers.js:69 | splitting the change template on line breaks gives its five labelled lines |
| HgRevisionState.FieldFiles | pkg/nuclide/hg-repository-base/lib/hg-revision-state-helpers.js:93-94 | the field text after the label is empty iff the list is empty; otherwise the names contain no space and joined by single spaces give back the text |
| HgRevisionState.FieldText | pkg/nuclide/hg-repository-base/lib/hg-revision-state-helpers.js:93 | the text after the label and one separator is empty when the line is no longer than that, has no white space at either end, and otherwise occurs in the line after the label |
| HgRevisionState.FieldTextCutsOnlyWhitespace | pkg/nuclide/hg-repository-base/lib/hg-revision-state-helpers.js:93 | the field text is the part of the line after the label and one separator character that starts at its first non-white-space character, and everything cut off around it is white space or a line terminator |
| HgRevisionState.LastSeparator | pkg/nuclide/hg-repository-base/lib/hg-revision-state-helpers.js:71 | finds the last ` (` position with a non-empty text on both sides at or before the bound, or shows there is none |
| HgRevisionState.MatchRun | pkg/nuclide/hg-repository-base/lib/hg-revision-state-helpers.js:71 | on a run without line terminators the pattern matches iff some ` (` has non-empty text on both sides; group 1 ends at the last such ` (` and the run is group 1, ` (`, group 2 |
| HgRevisionState.RunLength | pkg/nuclide/hg-repository-base/lib/hg-revision-state-helpers.js:71 | the length of the leading stretch without a line terminator, which `.` can cover |
| HgRevisionState.MatchCopyPair | pkg/nuclide/hg-repository-base/lib/hg-revision-state-helpers.js:71 | a match yields two non-empty groups free of line terminators |
| HgRevisionState.MatchCopyPairOfRun | pkg/nuclide/hg-repository-base/lib/hg-revision-state-helpers.js:71 | on a piece without line terminators, the pattern's match is exactly the match over the whole piece, so group 1 ends at the last ` (` with text on both sides |
| HgRevisionState.MatchCopyPairOccurs | pkg/nuclide/hg-repository-base/lib/hg-revision-state-helpers.js:71 | when the pattern matches, group 1, ` (` and group 2 occur together, in that order, as a contiguous part of the piece |
| HgRevisionState.ParseCopies | pkg/nuclide/hg-repository-base/lib/hg-revision-state-helpers.js:113-120 | parsing succeeds iff every piece matches; then entry i has `from` = group 2 and `to` = group 1 of piece i, both absolutized; otherwise the error names a piece that does not match |
| HgRevisionState.CopyPieces | pkg/nuclide/hg-repository-base/lib/hg-revision-state-helpers.js:107-111 | empty copies text gives no pieces; otherwise the pieces, followed by one dropped last piece free of ')', joined by ')' give back the copies text; no piece contains ')' |
| HgRevisionState.ParseRevisionFileChangeOutput | pkg/nuclide/hg-repository-base/lib/hg-revision-state-helpers.js:91-133 | with fewer than four lines the error names the first missing index, and any missing-line error names the line count, below five; from four lines on, a copy piece that does not match gives that piece's error; with five lines parsing succeeds iff the copy pieces parse, and a success holds the all, added, deleted and modified lists of lines 0, 1, 2 and 4 absolutized and the copies parsed from line 3 |
| HgRevisionState.FilesChangedFromOutput | pkg/nuclide/hg-repository-base/lib/hg-revision-state-helpers.js:16-20 | a falsy command output is passed through unparsed, and any other output becomes exactly the parse of that output |
| HgRevisionState.PlainFieldLine | pkg/nuclide/hg-repository-base/lib/hg-revision-state-helpers.js:93-94 | a labelled line of plain names joined by spaces gives back exactly those names |
| HgRevisionState.CopiesTextSplit | pkg/nuclide/hg-repository-base/lib/hg-revision-state-helpers.js:107-111 | splitting printed copy entries on ')' gives one `to (from` piece per entry plus the empty last piece |
| HgRevisionState.MatchPlainPiece | pkg/nuclide/hg-repository-base/lib/hg-revision-state-helpers.js:71 | the pattern splits `to (from` back into `to` and `from` for plain names |
| HgRevisionState.ParsePlainPieces | pkg/nuclide/hg-repository-base/lib/hg-revision-state-helpers.js:113-120 | the pieces of printed copies parse into those copies, absolutized |
| HgRevisionState.PlainCopiesLine | pkg/nuclide/hg-repository-base/lib/hg-revision-state-helpers.js:107-120 | a printed copies line parses back into its copies, absolutized |
| HgRevisionState.SplitRender | pkg/nuclide/hg-repository-base/lib/hg-revision-state-helpers.js:92 | trimming and splitting the template's output gives back its five labelled lines |
| HgRevisionState.TrimmedRender | pkg/nuclide/hg-repository-base/lib/hg-revision-state-helpers.js:92 | trimming the template's output only drops the space after an empty last label |
| HgRevisionState.ParseRenderedChanges | pkg/nuclide/hg-repository-base/lib/hg-revision-state-helpers.js:69-133 | the template's output for changes with plain relative names parses into exactly those changes, absolutized |
| TreeRoot.ToggleSetHas | pkg/nuclide-ui/lib/TreeRootComponent.js:53-69 | with no force, membership flips and the result says whether the value was added; a true force adds, a false or null force deletes; the result is true iff the value is present; no other element changes |
| TreeRoot.ToggleTwiceRestores | pkg/nuclide-ui/lib/TreeRootComponent.js:53-69 | toggling twice without forcing restores every membership |
| TreeRoot.RenderKeys | pkg/nuclide-ui/lib/TreeRootComponent.js:270-331 | the stack traversal over each root yields the preorder of visible keys, where a node's cached children follow it in order only when it is an expanded container |
| TreeRoot.DrainStack | pkg/nuclide-ui/lib/TreeRootComponent.js:273-330 | popping until the stack is empty yields each stacked subtree's visible keys, the top one first |
| TreeRoot.VisibleAreCached | pkg/nuclide-ui/lib/TreeRootComponent.js:310-329 | every visible key is the key of a cached node of the tree |
| TreeRoot.RootsVisible | pkg/nuclide-ui/lib/TreeRootComponent.js:270-306 | every root's key is visible whatever is expanded |
| TreeRoot.InitialState | pkg/nuclide-ui/lib/TreeRootComponent.js:108-126 | explicit initial key lists give the expanded and selected sets; otherwise every root is expanded, and the first root is selected, or nothing when there are no roots |
| TreeRoot.Serialize | pkg/nuclide-ui/lib/TreeRootComponent.js:392-397 | the serialized state lists exactly the expanded keys and the selected keys, each in insertion order |
| TreeRoot.SerializeRoundTrip | pkg/nuclide-ui/lib/TreeRootComponent.js:392-397 | passing the serialized keys back as initial keys restores both sets in the same order |
| TreeRoot.ToggleNodeExpanded | pkg/nuclide-ui/lib/TreeRootComponent.js:148-183 | the node's expansion toggles as `toggleSetHas` says; expanding leaves the selection unchanged; collapsing deselects exactly the node's cached descendants |
| TreeRoot.CollapseKeepsOwnSelection | pkg/nuclide-ui/lib/TreeRootComponent.js:148-162 | collapsing keeps the node itself selected unless a descendant shares its key |
| TreeRoot.RemoveStateForSubtree | pkg/nuclide-ui/lib/TreeRootComponent.js:466-480 | every key of the cached subtree leaves the expanded and the selected set, and every other key stays |
| TreeRoot.FirstSelectedIndex | pkg/nuclide-ui/lib/TreeRootComponent.js:515-523 | the index of the earliest selected visible key, or none iff no visible key is selected |
| TreeRoot.FirstSelectedKey | pkg/nuclide-ui/lib/TreeRootComponent.js:509-526 | nothing for an empty selection; otherwise the earliest visible key that is selected, or nothing when no selected key is visible |
| TreeRoot.MoveSelectionUp | pkg/nuclide-ui/lib/TreeRootComponent.js:620-636 | the new single selected key is visible and is one index above the first selected key, staying at index 0, or the last visible key when no key is selected; nothing only when nothing is visible |
| TreeRoot.MoveSelectionDown | pkg/nuclide-ui/lib/TreeRootComponent.js:638-654 | the new single selected key is visible and is one index below the first selected key, staying at the last index, or the first visible key when no key is selected; nothing only when nothing is visible |
| TreeRoot.UpThenDown | pkg/nuclide-ui/lib/TreeRootComponent.js:620-654 | in a list of distinct non-empty keys, moving up from any key but the first and then down comes back to it |
| JsCollections.IndexOf | pkg/nuclide-debugger-atom/lib/DebuggerActions.js:232-234 | `indexOf` is -1 iff the element is absent, and otherwise the first position holding it |
| JsCollections.Dedup | pkg/nuclide-debugger-atom/lib/DebuggerActions.js:232-234 | the deduplicated list has no duplicates, the same members, is no longer than the input, and lists its members in the order of their first occurrence in the input |
| JsCollections.DedupOfUnique | pkg/nuclide-ui/lib/TreeRootComponent.js:119-124 | a `Set` built from a duplicate-free list keeps that list as is |
| JsCollections.FilterFirstOccurrences | pkg/nuclide-debugger-atom/lib/DebuggerActions.js:232-234 | keeping the elements whose `indexOf` is their own position gives the first-occurrence deduplication |
| JsCollections.SliceFrom | pkg/nuclide-console/lib/createStateStream.js:34 | `slice(start)` is a suffix: of length min(-start, n) for a negative start, the whole array for 0, and n - start (or empty) otherwise |
| JsCollections.Add | pkg/nuclide-ui/lib/TreeRootComponent.js:61 | `set.add` makes the value present, changes no other membership, keeps the set duplicate-free, and leaves a set that already holds the value as is |
| JsCollections.Delete | pkg/nuclide-ui/lib/TreeRootComponent.js:64 | `set.delete` makes the value absent, changes no other membership, and keeps the set duplicate-free |
| JsCollections.RemoveAll | pkg/nuclide-ui/lib/TreeRootComponent.js:470-474 | deleting a set of keys keeps exactly the members not among them, duplicate-free and no longer than before |
| JsCollections.Insert | pkg/nuclide/hg-repository-base/lib/hg-revision-state-helpers.js:84-86 | `splice(at, 0, ...items)` keeps the part before `at`, then the items, then the rest |
| JsCollections.DropLast | pkg/nuclide/hg-repository-base/lib/hg-revision-state-helpers.js:111 | `pop` leaves an empty array empty, and otherwise drops exactly the last element |
| JsStrings.TrimStart | pkg/nuclide/hg-repository-base/lib/hg-revision-state-helpers.js:92 | the result is a suffix of the input; everything dropped is white space or a line terminator, and the result does not start with one |
| JsStrings.TrimEnd | pkg/nuclide/hg-repository-base/lib/hg-revision-state-helpers.js:92 | the result is a prefix of the input; everything dropped is white space or a line terminator, and the result does not end with one |
| JsStrings.Trim | pkg/nuclide/hg-repository-base/lib/hg-revision-state-helpers.js:92 | the trimmed text is no longer than the input and has no white space or line terminator at either end |
| JsStrings.TrimCutsOnlyWhitespace | pkg/nuclide/hg-repository-base/lib/hg-revision-state-helpers.js:92 | the trimmed text is the contiguous part of the input starting at its first non-white-space character, and every character cut off on either side is white space or a line terminator |
| JsStrings.TrimOfTrimmed | pkg/nuclide/hg-repository-base/lib/hg-revision-state-helpers.js:93 | text with no white space or line terminator at either end is left as is by trimming |
| JsStrings.Split | pkg/nuclide/hg-repository-base/lib/hg-revision-state-helpers.js:92 | splitting on one character gives at least one piece, none containing it, whose join by it is the input |
| JsStrings.SplitJoin | pkg/nuclide/hg-repository-base/lib/hg-revision-state-helpers.js:94 | joining pieces free of the separator and splitting again gives back the pieces |
| JsStrings.Join | pkg/nuclide/hg-repository-base/lib/hg-revision-state-helpers.js:94 | joining no pieces gives the empty string, and otherwise the result starts with the first piece |
| JsStrings.JoinLength | pkg/nuclide/hg-repository-base/lib/hg-revision-state-helpers.js:94 | a join of n pieces is as long as the pieces together plus n - 1 separators |

## Left out

- Host-editor calls are not modelled: `atom.commands.dispatch` (show and hide the debugger and console panels), logging, and the begin, fail and end timer tracking. They do not touch the store.
- The loader-breakpoint wait at the end of `_waitForChromeConnection` is not modelled. It dispatches nothing. A rejection there is covered by the `Failed` event.
- `DebuggerActions.dispose` is not modelled: it ends the timer and drops the session-end subscriptions.
- `isRemote` and the composition of `parseRemoteUri` and `createRemoteUri` are uninterpreted functions.
- The debugger store is not part of this model. Its registries are sets of names, and each action overwrites its field.
- Running `hg` (`hgAsyncExecute`) is not modelled. `fetchFilesChangedAtRevision` is modelled from the point its output is known. The `hg log` argument list is a plain function.
- `path.join` normalisation is an uninterpreted function.
- In `TreeRootComponent`, these parts are not modelled:
  - React rendering, DOM scrolling, the did-update emitter and its promises;
  - fetching of uncached children;
  - context menus and command registration;
  - `setRoots`, `_toggleNodeSelected`, and the selection-confirm and expand/collapse-selection handlers.
- Cached children are an immutable sequence. The traversal pushes a reversed copy instead of reversing the node's array in place.
- `forEachCachedNode` is not part of this model. It is taken to visit the node and all its cached descendants, in preorder.
- `_getFirstSelectedKey`, `_moveSelectionUp` and `_moveSelectionDown` take the visible keys of the last render as a list. The case where `render` has never run (no key list yet) is not modelled. The moves return the key the new one-element selection holds. `None` stands for the `undefined` entry produced when no key is visible.
- DebuggerActions.DisposedAtMostOnce: assumes every `debug()` result is a new instance. Nothing in the code prevents one instance from being handed over twice.
- DebuggerActions.ExactlyOneLocal: assumes no remote root URI is `'local'`. The code pushes `'local'` without checking for one.
- `forceProcessSocket` is modelled as `ForceProcessSocket`, but it is not one of the session events that `Run` replays. It is a development hook that sets the socket whatever the mode, so with it `Settled` (a socket only while RUNNING) would not hold.
- `dispose()` on a debugger instance is assumed to return. A disposal that throws would leave the mode at STOPPING with the instance held, so that a later start and stop dispose it a second time. The model does not represent that path.
- TreeRoot.RenderKeys: `render` returns early when there are no roots, without storing a new key list. The model's traversal of no roots gives the empty list instead of keeping the previous one.
- Strings are sequences of Unicode code points, while JavaScript strings are UTF-16 code units. Lengths and `slice` offsets differ only for characters outside the Basic Multilingual Plane. `trim` agrees, since no white-space code point lies outside that plane.
- HgRevisionState.FilesChangedFromOutput: `None` stands for every falsy output, both `null` and `""`. The code returns the falsy value itself, so the model does not tell the two apart.
- HgRevisionState.FieldText: the function's own contract states only that the text is trimmed and lies after the label. That it is exactly the trimmed rest of the line is stated by `FieldTextCutsOnlyWhitespace`.
- The values of the console's `ActionTypes` constants are not part of this model. They are taken to be the constants' names, and `Unrecognized` carries only a type string outside those nine.
- JsStrings.Trim: the function's own contract states only that the ends are trimmed and the text is no longer. That the result is the contiguous untrimmed middle of the input is stated by `TrimCutsOnlyWhitespace`.
- HgRevisionState.MatchCopyPair: the function's own contract states only the shape of the groups. Agreement with the whole-piece match and where the groups occur are stated by `MatchCopyPairOfRun` and `MatchCopyPairOccurs`.
