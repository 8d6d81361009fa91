/** `LocalState`: the running state fold fed by `setState` and
    `connectState`, and `select` over what the fold has emitted. */
module LocalStates {
  import opened JsValue
  import opened Accumulator
  import opened Selectors
  import opened Streams

  /** What `connectState` is given: a stream of partial states, or a key
      together with a stream of values for that key. A stream is the finite,
      already-ordered sequence of what it emits. */
  datatype StateSource =
    | Slices(slices: seq<Snapshot>)
    | KeyedValues(key: string, values: seq<Value>)

  /** `o.pipe(map(s => ({ [key]: s })))`: each value becomes the one-key
      partial state `{ key: value }`, in order. */
  function Keyed(key: string, values: seq<Value>): (r: seq<Snapshot>)
    ensures |r| == |values|
    ensures forall i :: 0 <= i < |values| ==> r[i] == map[key := values[i]]
    decreases |values|
  {
    if values == [] then []
    else [map[key := values[0]]] + Keyed(key, values[1..])
  }

  /** The partial-state stream `connectState` registers: a keyed source is
      wrapped, a stream of partial states is passed through unchanged. */
  function SliceStream(source: StateSource): (r: seq<Snapshot>)
    ensures source.Slices? ==> r == source.slices
    ensures source.KeyedValues? ==> |r| == |source.values|
    ensures source.KeyedValues? ==> forall i :: 0 <= i < |r| ==> r[i] == map[source.key := source.values[i]]
  {
    match source
    case Slices(slices) => slices
    case KeyedValues(key, values) => Keyed(key, values)
  }

  /** Partial states as they reach the accumulator. */
  function AsCommands(slices: seq<Snapshot>): (r: seq<Command>)
    ensures |r| == |slices|
    ensures forall i :: 0 <= i < |slices| ==> r[i].Slice? && r[i].slice == slices[i]
  {
    seq(|slices|, i requires 0 <= i < |slices| => Slice(slices[i]))
  }

  /** Connecting a keyed source makes the key take each value of the source,
      one snapshot per value, in order. */
  lemma KeyedSourceSetsKey(seed: Snapshot, key: string, values: seq<Value>)
    ensures Projected(Scan(seed, AsCommands(Keyed(key, values))), key) == values
  {
    var slices := Keyed(key, values);
    var cmds := AsCommands(slices);
    var snaps := Scan(seed, cmds);
    forall i | 0 <= i < |values| ensures Lookup(snaps[i], key) == values[i] {
      var pre := cmds[..i + 1];
      assert pre[|pre| - 1] == Slice(slices[i]);
      FoldLastSlice(seed, pre, slices[i]);
      assert slices[i] == map[key := values[i]];
    }
    assert Projected(snaps, key) == values;
  }

  /** Folding a slice last puts every key of the slice at the slice's value. */
  lemma FoldLastSlice(seed: Snapshot, cmds: seq<Command>, slice: Snapshot)
    requires cmds != [] && cmds[|cmds| - 1] == Slice(slice)
    ensures forall k :: k in slice ==> k in Fold(seed, cmds) && Fold(seed, cmds)[k] == slice[k]
  {
  }

  /** Selecting the key of a connected keyed source delivers the source's
      defined values with consecutive repeats suppressed. */
  lemma KeyedSourceSelected(seed: Snapshot, key: string, values: seq<Value>)
    ensures SelectKey(Scan(seed, AsCommands(Keyed(key, values))), key)
         == DistinctUntilChanged(FilterDefined(values))
    ensures (forall i :: 0 <= i < |values| ==> values[i] != Undefined) && NoConsecutiveRepeats(values)
        ==> SelectKey(Scan(seed, AsCommands(Keyed(key, values))), key) == values
  {
    KeyedSourceSetsKey(seed, key, values);
  }

  /** Connecting a keyed source changes no other key. */
  lemma KeyedSourceLeavesOtherKeys(seed: Snapshot, key: string, values: seq<Value>, other: string)
    requires other != key
    ensures Lookup(Fold(seed, AsCommands(Keyed(key, values))), other) == Lookup(seed, other)
  {
    var cmds := AsCommands(Keyed(key, values));
    forall i | 0 <= i < |cmds| ensures Untouched(seed, cmds, i, other) {
      assert cmds[i] == Slice(map[key := values[i]]);
    }
    UntouchedKeyPersists(seed, cmds, other);
  }

  /** The state container. `state` is the running `scan` accumulator and
      `emitted` is everything the state stream has emitted so far. */
  class LocalState {
    var state: Snapshot
    var emitted: seq<Snapshot>
    /** Every command folded so far, in arrival order. */
    ghost var commands: seq<Command>

    /** The fold is seeded with `{}`; one snapshot is emitted per command. */
    ghost predicate Valid()
      reads this
    {
      && state == Fold(map[], commands)
      && emitted == Scan(map[], commands)
    }

    constructor ()
      ensures Valid()
      ensures commands == [] && state == map[] && emitted == []
    {
      state := map[];
      emitted := [];
      commands := [];
    }

    /** `setState(s)`: the command is folded onto the current state, and the
        new state is emitted. */
    method SetState(cmd: Command)
      requires Valid()
      modifies this
      ensures Valid()
      ensures commands == old(commands) + [cmd]
      ensures state == Accumulate(old(state), cmd)
      ensures emitted == old(emitted) + [state]
    {
      var cmds := commands + [cmd];
      assert cmds[..|cmds| - 1] == commands;
      state := Accumulate(state, cmd);
      emitted := emitted + [state];
      commands := cmds;
    }

    /** `connectState(...)`: every partial state of the source is folded,
        in order, each emitting one snapshot. */
    method ConnectState(source: StateSource)
      requires Valid()
      modifies this
      ensures Valid()
      ensures commands == old(commands) + AsCommands(SliceStream(source))
      ensures state == Fold(old(state), AsCommands(SliceStream(source)))
      ensures emitted == old(emitted) + Scan(old(state), AsCommands(SliceStream(source)))
    {
      var cmds := AsCommands(SliceStream(source));
      FoldAppend(map[], commands, cmds);
      ScanAppend(map[], commands, cmds);
      emitted := emitted + Scan(state, cmds);
      state := Fold(state, cmds);
      commands := commands + cmds;
    }

    /** What `select(...args)` has delivered to a subscriber that subscribed
        after the first `at` snapshots were emitted. */
    function Select(args: seq<SelectArg>, at: nat): (r: Selection)
      reads this
      requires at <= |emitted|
      ensures r.NotAFunction? <==> |args| > 1 && exists i :: 0 <= i < |args| && args[i].Key?
      ensures Valid() && 0 < at == |emitted| && |args| == 0 ==> r == Emits([Obj(state)])
      ensures Valid() && 0 < at == |emitted| && |args| == 1 && args[0].Key?
          ==> r == Emits(if Lookup(state, args[0].name) == Undefined then [] else [Lookup(state, args[0].name)])
    {
      assert Valid() && 0 < at == |emitted| ==> Replay(emitted, at) == [state] by {
        if Valid() && 0 < at == |emitted| {
          LatestIsState();
        }
      }
      SelectLatestOnly(state);
      SelectLatestKeyOnly(state, if |args| > 0 && args[0].Key? then args[0].name else "");
      SelectFrom(args, Replay(emitted, at))
    }

    /** After any activity, the snapshot the state stream replays to a new
        subscriber is the current state. */
    lemma LatestIsState()
      requires Valid() && emitted != []
      ensures emitted[|emitted| - 1] == state
      ensures Replay(emitted, |emitted|) == [state]
    {
      ScanLast(map[], commands);
    }
  }
}
