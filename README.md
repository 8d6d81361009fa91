# LocalState of rxjs-state, modelled in Dafny

`LocalState` is a small reactive state container. Callers push commands into
it with `setState`, or connect whole streams of them with `connectState`. A
command is a partial state or an updater function. A running `scan` folds
each command into the current state by a shallow merge, and emits the new
state. Subscribers read the state through `select`, in three forms:
- with no argument, the whole state;
- with a key, the value of that key, with `undefined` dropped;
- with operators, a composed pipeline, with `undefined` dropped.
Every form suppresses consecutive repeats.

The model keeps the value logic and drops the RxJS plumbing:

- `JsValue` (`js_value.dfy`): JavaScript values, and snapshots as maps from
  property names to values. A missing property reads as `Undefined`.
- `Accumulator` (`accumulator.dfy`): commands, `stateAccumulator`, and the
  `scan` fold seeded with `{}`. `Fold` is the running accumulator and `Scan`
  is the emitted history.
- `Pipe` (`pipe.dfy`): `pipeFromArray`, the left-to-right composition by `reduce`.
- `Streams` (`streams.dfy`): `filter(v => v !== undefined)` and
  `distinctUntilChanged()`, each as a function on the finite history a stream
  has delivered.
- `Selectors` (`selectors.dfy`):
  - the module-level `select(...ops)` pipeline;
  - the three branches of `LocalState.select`;
  - `isOperateFnArray`;
  - what a late subscriber to the `publishReplay(1)` state stream receives.
- `LocalStates` (`local_state.dfy`): the class `LocalState`.
  - Its fields are the current `state` and the `emitted` history, and its
    ghost field is the `commands` folded so far.
  - `SetState` and `ConnectState` update these fields and keep `Valid()`:
    the state is the fold of the commands, and the history is their scan.
  - `Select` reads the history.
  - The module also models the keyed wrapping of `connectState`.
- `Scenarios` (`scenarios.dfy`): the behaviours of `index.spec.ts`, replayed
  on a fresh `LocalState`. What the subscriber receives is the method's
  postcondition. Further scenarios, not taken from the tests, exercise
  `connectState` with a keyed source and `select` with mixed arguments.

A stream is the finite, ordered sequence of what it has emitted. An RxJS
operator is a function from such a history to such a history. A connected
source is folded entirely when it is connected.

## Model

| member | source | states |
|---|---|---|
| Accumulator.SliceOf | index.ts:66 | A partial state contributes itself. An updater contributes what it returns when applied to the current accumulator. |
| Accumulator.Accumulate | index.ts:62-68 | Shallow merge. The keys of the result are the old keys plus the slice's keys. Every slice key takes the slice's value. Every other key keeps its old value. An updater's slice is computed from the current accumulator. |
| Accumulator.Scan | index.ts:71-72 | One snapshot is emitted per command, in arrival order. The i-th snapshot is the fold of the first i+1 commands onto the seed, so the seed itself is never emitted. |
| Accumulator.UpdaterSeesPreviousSnapshot | index.ts:66-67 | An updater is applied to the snapshot exactly as it stood before it, and its result is merged onto that snapshot. |
| Accumulator.FoldAppend | index.ts:71-72 | Folding `a + b` equals folding `b` onto the result of folding `a`. |
| Accumulator.ScanAppend | index.ts:71-72 | Scanning `a + b` emits the snapshots of `a`, then those of `b` scanned from the state `a` left. |
| Accumulator.ScanLast | index.ts:72-73 | The last emitted snapshot is the running accumulator. |
| Accumulator.Fold | index.ts:67-72 | The running accumulator after a run of commands. It never drops a key of the state it starts from. |
| Accumulator.ScanKeysGrow | index.ts:67-72 | Every later snapshot has every key of every earlier snapshot. |
| Accumulator.UntouchedKeyPersists | index.ts:67 | A key that no command's slice contains keeps its presence, or absence, and its value. |
| Accumulator.LastWriteWins | index.ts:66-67 | After a command whose slice sets a key, later commands that leave the key out keep the value that command set. |
| Pipe.Reduce | index.ts:27 | `reduce` with `fn(prev)`: the empty list leaves the input unchanged. Otherwise the last function is applied last, to what the functions before it produced. |
| Pipe.PipeFromArray | index.ts:17-29 | A one-element list is returned unchanged. Any other list gives a function equal, on every input, to `reduce` over the list starting from the input. |
| Pipe.ReduceAppend | index.ts:26-28 | Reducing over `a + b` equals reducing over `b`, starting from what `a` produced. |
| Pipe.PipeEmpty | index.ts:26-28 | The empty list is the identity. |
| Pipe.PipeAppliesLastOneLast | index.ts:26-28 | The function listed last is applied last, to the output of all the others. |
| Pipe.PipeAppliesFirstOneFirst | index.ts:26-28 | The function listed first is applied first, directly to the input. |
| Pipe.PipeComposes | index.ts:26-28 | Piping a concatenation equals piping the first list, then the second. |
| Streams.DistinctFrom | index.ts:51 | Continuing `distinctUntilChanged` from a last emitted value. The output has no neighbouring repeats and does not start with that last value. Every output value occurs in the input. Every input value occurs in the output or equals the last value. Afterwards, the value to compare with is the input's last value. `DistinctStep` and `DistinctAppend` give the exact output. |
| Streams.DistinctStep | index.ts:51 | One step: the input's head is passed on exactly when it differs from the last value, and it becomes the value to compare with next. |
| Streams.DistinctIsSubsequence | index.ts:51 | The output is a subsequence of the input. |
| Streams.DistinctKeepsNonRepeating | index.ts:51 | An input without neighbouring repeats, whose head differs from the last value, passes through unchanged. |
| Streams.DistinctUntilChanged | index.ts:51 | On a fresh subscription, the output is a subsequence of the input and has no neighbouring repeats. It holds the same set of values as the input, with the same first and last elements. It equals the input when the input has no neighbouring repeats. |
| Streams.DistinctAppend | index.ts:51 | Deduplicating `a + b` equals deduplicating `a`, then deduplicating `b` against `a`'s last value. |
| Streams.DistinctSnoc | index.ts:51 | A new value is passed on exactly when it differs from the value that arrived before it. |
| Streams.DistinctIdempotent | index.ts:51 | Deduplicating twice equals deduplicating once. |
| Streams.FilterDefined | index.ts:50 | The output contains no `undefined` and is a subsequence of the input. It has the same set of defined values as the input. An input with no `undefined` passes unchanged, and an input that is all `undefined` gives nothing. `FilterKeepsCounts` gives the exact output. |
| Streams.FilterKeepsCounts | index.ts:50 | The output has each defined value exactly as often as the input, and no `undefined`. Together with the subsequence property, this fixes the filtered history. |
| Streams.FilterAppend | index.ts:50 | Filtering distributes over concatenation of histories. |
| Selectors.SelectPipe | index.ts:47-54 | `select(...ops)` delivers exactly what `distinctUntilChanged` passes on after `filter(v => v !== undefined)`, applied to what the operators composed left to right (`reduce`) produce. Hence the output contains no `undefined`, has no neighbouring repeats, is a subsequence of the operators' output, and has the same set of defined values. |
| Selectors.Projected | index.ts:201 | `x[path]` on each snapshot gives one value per snapshot: the key's value where the snapshot has the key, and `undefined` where it does not. |
| Selectors.SelectAll | index.ts:196-197 | `select()`. Its output has no neighbouring repeats and is a subsequence of the snapshot history. Every snapshot appears in it, nothing else does, and its last element is the latest snapshot. |
| Selectors.SelectKey | index.ts:198-205 | `select(key)`. Its output contains no `undefined`, has no neighbouring repeats, and is a subsequence of the key's projected values. Every defined projected value appears in it. It is empty exactly when the key was never defined. |
| Selectors.SelectKeyStep | index.ts:200-203 | A new snapshot adds the key's value to the selection exactly when that value is defined and differs from the value selected last. |
| Selectors.SelectAllStep | index.ts:197 | A new snapshot is added to `select()` unless it equals the snapshot before it. |
| Selectors.SelectKeyStartsWithFirstDefined | index.ts:200-203 | Nothing is selected before the key holds a defined value. The first value selected is the key's first defined value. |
| Selectors.EmptyPipeIsSelectAll | index.ts:47-54 | With no operators, the module-level pipeline selects what `select()` selects, because snapshots are never `undefined`. |
| Selectors.IsOperateFnArray | index.ts:211-213 | Zero arguments, and two or more arguments, always count as operators. A single argument counts exactly when it is a function. |
| Selectors.Operators | index.ts:206-207 | The argument list gives a list of operators, in order, exactly when every argument is a function. |
| Selectors.SelectFrom | index.ts:195-213 | Zero arguments take the full-state branch. A lone string takes the key branch. Any other list of functions goes through `select(...ops)`. The call fails with a TypeError exactly when there are two or more arguments and one of them is a string. Every branch that emits delivers no `undefined` and no neighbouring repeats. |
| Selectors.Replay | index.ts:73 | A subscriber from the start receives the whole history. A later subscriber receives a suffix of the history, starting at the snapshot that was latest when it joined. |
| Selectors.ReplayFacts | index.ts:73 | A late subscriber first receives the snapshot that was latest when it subscribed. Every later emission reaches it. |
| Selectors.SelectLatestOnly | index.ts:196-197 | A subscriber that joins after the last emission receives exactly the latest snapshot from `select()`. |
| Selectors.SelectLatestKeyOnly | index.ts:198-205 | A subscriber that joins after the last emission receives exactly the key's latest value from `select(key)`, or nothing when that value is `undefined`. |
| LocalStates.Keyed | index.ts:123-126 | Each value `v` of a keyed source becomes the one-key slice `{ key: v }`, in order, one slice per value. |
| LocalStates.SliceStream | index.ts:121-130 | A stream of partial states is passed through unchanged. A keyed source is wrapped value by value. |
| LocalStates.AsCommands | index.ts:71 | The partial states of a connected stream reach the accumulator as commands, one per partial state, in order, unchanged. |
| LocalStates.KeyedSourceSetsKey | index.ts:121-131 | After a keyed source is connected, the key takes each value of the source in turn, with one snapshot per value. |
| LocalStates.FoldLastSlice | index.ts:67 | After a slice is folded last, each of its keys holds the slice's value. |
| LocalStates.KeyedSourceSelected | index.ts:121-131 | Selecting the key of a connected keyed source delivers the source's defined values with consecutive repeats suppressed. The source itself is delivered when all its values are defined and no two neighbours are equal. |
| LocalStates.KeyedSourceLeavesOtherKeys | index.ts:126 | Connecting a keyed source changes no other key. |
| LocalStates.LocalState.constructor | index.ts:71-82 | A new container has folded nothing and emitted nothing, and its state is `{}`. |
| LocalStates.LocalState.SetState | index.ts:98-100 | The command is folded onto the current state, and the new state is emitted. The state stays the fold of all commands, and the history stays their scan. |
| LocalStates.LocalState.ConnectState | index.ts:121-132 | Every partial state of the source, wrapped when the source is keyed, is folded in order and emits one snapshot each. The invariant is kept. |
| LocalStates.LocalState.Select | index.ts:195-209 | `select(...args)` on what a subscriber received after the first `at` emissions. The call fails exactly when there are two or more arguments and a string is among them. A subscriber who joins after the latest emission receives the current state from `select()`. It receives the key's current value from `select(key)`, or nothing while that value is `undefined`. |
| LocalStates.LocalState.LatestIsState | index.ts:71-74 | Once anything has been emitted, the snapshot replayed to a new subscriber is the current state. |
| Scenarios.EmptyAfterInit | index.spec.ts:25-31 | Before any command, `select()`, `select('bar')` and `select(map(s => s.bar))` deliver nothing (also index.spec.ts:46-51 and 67-72). |
| Scenarios.InitialState | index.spec.ts:33-43 | After one `setState`, `select()` delivers exactly that state. |
| Scenarios.InitialStateByKey | index.spec.ts:54-63 | After `setState({bar: 42})`, `select('bar')` delivers exactly `42`. |
| Scenarios.InitialStateByOperator | index.spec.ts:75-84 | After `setState({bar: 42})`, `select(map(s => s.bar))` delivers exactly `42`. |
| Scenarios.OverridePreviousSlices | index.spec.ts:90-101 | Applying `{test, bar: 42}`, then `{test: 'test2'}`, gives `{test: 'test2', bar: 42}`. |
| Scenarios.AddNonExistingSlices | index.spec.ts:103-113 | Applying `{bar: 42}`, then `{test: 'test2'}`, gives `{test: 'test2', bar: 42}`. |
| Scenarios.UpdaterOverridesSlices | index.spec.ts:117-128 | An updater returning `{test: 'test2'}` overrides only `test`. |
| Scenarios.UpdaterAddsNonExistingSlices | index.spec.ts:130-139 | An updater returning `{test: 'test2'}` keeps `bar: 42`. |
| Scenarios.UpdaterSeesPreviousState | index.spec.ts:142-151 | `{bar: 42}`, then `s => ({bar: s.bar * 2})`, gives `select('bar')` delivering `84`. |
| Scenarios.UpdaterReturnsNewState | index.spec.ts:155-172 | An updater returning a whole new state with `items` extended by `2` gives `select(map(s => s.items))` delivering `[1, 2]`. The initial value is a value, so it cannot change. |
| Scenarios.SelectItems | index.spec.ts:169 | A late subscriber to `map(s => s.items)` on the state `{items: [1, 2]}` receives `[1, 2]`. |
| Scenarios.MapFieldIsSelectKey | index.spec.ts:54-84 | On every snapshot history, `select(map(s => s[key]))` and `select(key)` deliver the same values. |
| Scenarios.KeyedAround | index.ts:121-131 | Direct `setState`s of a key, made before and after connecting a keyed source for that key, reach the accumulator as one keyed source. |
| Scenarios.SelectKeyedFromStart | index.ts:198-205 | An early subscriber receives every value of a keyed history that has no `undefined` and no neighbouring repeats. |
| Scenarios.ConnectedKeyInterleaves | index.ts:121-132 | Set `bar`, connect a keyed source for `bar`, then set `bar` again. An early subscriber to `select('bar')` receives every value, in arrival order, when the values are defined and no neighbours are equal. |
| Scenarios.ConnectedKeyExample | index.ts:121-132 | `bar` set to `0`, a source for `bar` emitting `1`, `2`, then `bar` set to `3`: `select('bar')` from the start delivers `0, 1, 2, 3`. |
| Scenarios.MixedArgumentsFail | index.ts:198-212 | On a fresh container, a lone string selects by key and delivers nothing. Two arguments with a string among them make the call fail. |

## Left out

- RxJS runtime machinery is not modelled. This covers `Subject`, `merge`, `mergeAll`, `publish`/`publishReplay` with `connect()`, and the reference counting and buffer lifetime of `shareReplay` (index.ts:52, 71-81, 197, 204). Only the resulting histories are modelled. A selector's own `shareReplay` replay to its later subscribers is not modelled.
- `connectEffect` and the effect subject (index.ts:60, 79-81, 146-148) are not modelled: their values are discarded and only their side effects matter.
- `teardown` and `ngOnDestroy` (index.ts:221-233) are not modelled: they dispose of subscriptions and do not touch the state logic.
- LocalStates.LocalState.ConnectState folds the whole source when it is connected. It does not model a source that keeps emitting while other commands arrive, so it has no asynchronous interleaving. Scenarios.ConnectedKeyInterleaves shows one completed source between direct updates.
- Streams.DistinctFrom: compares with value equality, where the source uses `===`. In JavaScript, each fold step builds a new object, so `select()` never suppresses a full-state snapshot. The model suppresses a snapshot equal in value to the previous one. Arrays and objects selected by key or by operator compare by reference in the source too.
- The `noop` branch of `pipeFromArray` for a missing operator list (index.ts:18-20) is not modelled: a Dafny sequence is never null.
- JavaScript numbers are IEEE doubles; the model uses unbounded integers and has no `NaN` (Scenarios.DoubleBar yields `undefined` where JavaScript yields `NaN`).
- Accumulator.Command: updaters are total functions. In the source, an updater that throws inside `scan` (index.ts:66, 72) ends the state stream with an error: no later command is folded, and every selector ends with that error. The model has no terminated state. An updater that calls `setState` re-entrantly, whose nested update the outer result then overwrites, is not modelled either.
- LocalStates.LocalState.ConnectState: a connected source is a finite sequence of partial states. A source that fails, ending the merged command stream (index.ts:71), is not modelled. Neither is `connectState(key)` without a stream, which throws a TypeError at `o.pipe` (index.ts:121, 126).
- Accumulator.Accumulate: snapshots and everything nested in them are immutable values. The model does not capture that the one-level spread (index.ts:67) shares nested arrays and objects by reference between a caller's slice and every later snapshot. Nor does it capture an updater changing, in place, the accumulator that subscribers already hold. Thus the check of index.spec.ts:170, that the caller's array is unchanged, holds by construction.
- Object key order, prototype properties and `this` binding (index.ts:72) are not modelled.
- TypeScript overload signatures are not modelled; only run-time argument types are. An argument to `select` is a string or an operator.
- immer's `produce` is not modelled. In Scenarios.UpdaterReturnsNewState it becomes an updater, `PushTwo`, that returns a copy of the state with a longer array.
- The marble test harness and its timing are not modelled. Each test's expected frames become a postcondition about what a late subscriber receives.
