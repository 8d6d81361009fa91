/** The selector layer: the three forms of `LocalState.select` and the
    module-level `select(...ops)` pipeline, each read as a function of the
    snapshot history the state stream delivers to it. */
module Selectors {
  import opened JsValue
  import opened Streams
  import opened Pipe

  /** An RxJS operator, read over the finite history a stream has delivered. */
  type Operator = seq<Value> -> seq<Value>

  /** The module-level `select(...ops)`: compose the operators left to right,
      drop `undefined`, suppress consecutive repeats. The result is built
      only from defined values the operators produced, in their order, and
      every defined value they produced appears in it. */
  function SelectPipe(ops: seq<Operator>, input: seq<Value>): (r: seq<Value>)
    ensures r == DistinctUntilChanged(FilterDefined(Reduce(ops, input)))
    ensures forall i :: 0 <= i < |r| ==> r[i] != Undefined
    ensures NoConsecutiveRepeats(r)
    ensures IsSubsequence(r, Reduce(ops, input))
    ensures forall v :: v in r ==> v in Reduce(ops, input)
    ensures forall v :: v in Reduce(ops, input) && v != Undefined ==> v in r
  {
    var produced := PipeFromArray(ops)(input);
    var defined := FilterDefined(produced);
    var r := DistinctUntilChanged(defined);
    SubsequenceTransitive(r, defined, produced);
    assert forall i :: 0 <= i < |r| ==> r[i] in defined;
    r
  }

  /** The state stream as JavaScript values: every snapshot is an object. */
  function AsValues(snaps: seq<Snapshot>): seq<Value>
  {
    seq(|snaps|, i requires 0 <= i < |snaps| => Obj(snaps[i]))
  }

  /** `map((x: T) => x[path])` over the snapshot history: one value per
      snapshot, `undefined` where the snapshot lacks the key. */
  function Projected(snaps: seq<Snapshot>, key: string): (r: seq<Value>)
    ensures |r| == |snaps|
    ensures forall i :: 0 <= i < |snaps| && key in snaps[i] ==> r[i] == snaps[i][key]
    ensures forall i :: 0 <= i < |snaps| && key !in snaps[i] ==> r[i] == Undefined
  {
    seq(|snaps|, i requires 0 <= i < |snaps| => Lookup(snaps[i], key))
  }

  /** `select()`: the snapshot history with consecutive repeats suppressed.
      Every snapshot delivered is among the values selected, and the latest
      selected is the latest snapshot. */
  function SelectAll(snaps: seq<Snapshot>): (r: seq<Value>)
    ensures NoConsecutiveRepeats(r)
    ensures IsSubsequence(r, AsValues(snaps))
    ensures forall i :: 0 <= i < |snaps| ==> Obj(snaps[i]) in r
    ensures forall v :: v in r ==> v.Obj? && v.fields in snaps
    ensures forall i :: 0 <= i < |r| ==> r[i] != Undefined
    ensures snaps != [] ==> r != [] && r[|r| - 1] == Obj(snaps[|snaps| - 1])
  {
    var vs := AsValues(snaps);
    var r := DistinctUntilChanged(vs);
    assert forall i :: 0 <= i < |snaps| ==> vs[i] == Obj(snaps[i]);
    assert forall i :: 0 <= i < |r| ==> r[i] in vs;
    assert forall v :: v in vs ==> v.Obj? && v.fields in snaps;
    r
  }

  /** `select(key)`: the key's value in each snapshot, `undefined` dropped,
      consecutive repeats suppressed. Nothing is selected until the key holds
      a defined value, and every defined value it takes is selected. */
  function SelectKey(snaps: seq<Snapshot>, key: string): (r: seq<Value>)
    ensures forall i :: 0 <= i < |r| ==> r[i] != Undefined
    ensures NoConsecutiveRepeats(r)
    ensures IsSubsequence(r, Projected(snaps, key))
    ensures forall i :: 0 <= i < |snaps| && Lookup(snaps[i], key) != Undefined ==> Lookup(snaps[i], key) in r
    ensures r == [] <==> forall i :: 0 <= i < |snaps| ==> Lookup(snaps[i], key) == Undefined
  {
    var projected := Projected(snaps, key);
    var defined := FilterDefined(projected);
    var r := DistinctUntilChanged(defined);
    SubsequenceTransitive(r, defined, projected);
    assert forall i :: 0 <= i < |r| ==> r[i] in defined;
    assert forall i :: 0 <= i < |snaps| ==> projected[i] == Lookup(snaps[i], key);
    r
  }

  /** A snapshot emitted after the others adds the key's value to the
      selection exactly when that value is defined and differs from the
      value selected last. */
  lemma SelectKeyStep(snaps: seq<Snapshot>, s: Snapshot, key: string)
    ensures (var v := Lookup(s, key);
             SelectKey(snaps + [s], key)
             == SelectKey(snaps, key)
                + (if v != Undefined && LastOr(None, SelectKey(snaps, key)) != Some(v) then [v] else []))
  {
    var v := Lookup(s, key);
    var p := Projected(snaps, key);
    assert Projected(snaps + [s], key) == p + [v];
    FilterAppend(p, [v]);
    var f := FilterDefined(p);
    assert [v][1..] == [];
    if v == Undefined {
      assert FilterDefined([v]) == [];
      assert f + [] == f;
    } else {
      assert FilterDefined([v]) == [v];
      DistinctSnoc(f, v);
      assert LastOr(None, DistinctFrom(None, f)) == LastOr(None, f);
    }
  }

  /** A snapshot emitted after the others is selected by `select()` unless
      it equals the snapshot before it. */
  lemma SelectAllStep(snaps: seq<Snapshot>, s: Snapshot)
    ensures SelectAll(snaps + [s])
         == SelectAll(snaps) + (if snaps != [] && snaps[|snaps| - 1] == s then [] else [Obj(s)])
  {
    var vs := AsValues(snaps);
    assert AsValues(snaps + [s]) == vs + [Obj(s)];
    DistinctSnoc(vs, Obj(s));
    assert snaps != [] ==> vs[|vs| - 1] == Obj(snaps[|snaps| - 1]);
  }

  /** The first value `select(key)` passes on is the key's first defined value. */
  lemma SelectKeyStartsWithFirstDefined(snaps: seq<Snapshot>, key: string, j: nat)
    requires j < |snaps| && Lookup(snaps[j], key) != Undefined
    requires forall i :: 0 <= i < j ==> Lookup(snaps[i], key) == Undefined
    ensures SelectKey(snaps, key) != [] && SelectKey(snaps, key)[0] == Lookup(snaps[j], key)
  {
    var p := Projected(snaps, key);
    assert p == p[..j] + p[j..];
    FilterAppend(p[..j], p[j..]);
    assert forall i :: 0 <= i < |p[..j]| ==> p[..j][i] == Undefined;
    assert p[j..][0] == Lookup(snaps[j], key);
    assert FilterDefined(p)[0] == Lookup(snaps[j], key);
  }

  /** With no operators, the module-level pipeline selects exactly what
      `select()` selects: snapshots are never `undefined`. */
  lemma EmptyPipeIsSelectAll(snaps: seq<Snapshot>)
    ensures SelectPipe([], AsValues(snaps)) == SelectAll(snaps)
  {
    var vs := AsValues(snaps);
    assert PipeFromArray<seq<Value>>([])(vs) == vs;
    assert forall i :: 0 <= i < |vs| ==> vs[i] != Undefined;
  }

  /** One argument of `select(...)`, by its run-time type. */
  datatype SelectArg = Key(name: string) | Op(op: Operator)

  /** `isOperateFnArray`: false only for a lone string argument. Zero
      arguments and two or more arguments always count as operators. */
  predicate IsOperateFnArray(args: seq<SelectArg>): (r: bool)
    ensures |args| != 1 ==> r
    ensures |args| == 1 ==> (r <==> args[0].Op?)
  {
    !(|args| == 1 && args[0].Key?)
  }

  /** The operators of an argument list, or None when one of them is a
      string, which `reduce` would call and fail on. */
  function Operators(args: seq<SelectArg>): (r: Option<seq<Operator>>)
    ensures r.Some? <==> forall i :: 0 <= i < |args| ==> args[i].Op?
    ensures r.Some? ==> |r.value| == |args| && forall i :: 0 <= i < |args| ==> r.value[i] == args[i].op
    decreases |args|
  {
    if args == [] then Some([])
    else if args[0].Key? then None
    else match Operators(args[1..])
      case None => None
      case Some(rest) => Some([args[0].op] + rest)
  }

  /** What a `select(...)` call delivers, or the TypeError it raises. */
  datatype Selection = Emits(values: seq<Value>) | NotAFunction

  /** `LocalState.select(...args)` over the snapshots it is delivered. */
  function SelectFrom(args: seq<SelectArg>, snaps: seq<Snapshot>): (r: Selection)
    ensures |args| == 0 ==> r == Emits(SelectAll(snaps))
    ensures |args| == 1 && args[0].Key? ==> r == Emits(SelectKey(snaps, args[0].name))
    ensures IsOperateFnArray(args) && |args| > 0 && Operators(args).Some?
        ==> r == Emits(SelectPipe(Operators(args).value, AsValues(snaps)))
    ensures r.NotAFunction? <==> |args| > 1 && exists i :: 0 <= i < |args| && args[i].Key?
    ensures r.Emits? ==> NoConsecutiveRepeats(r.values)
    ensures r.Emits? ==> forall i :: 0 <= i < |r.values| ==> r.values[i] != Undefined
  {
    if |args| == 0 then Emits(SelectAll(snaps))
    else if !IsOperateFnArray(args) then Emits(SelectKey(snaps, args[0].name))
    else match Operators(args)
      case None => NotAFunction
      case Some(ops) => Emits(SelectPipe(ops, AsValues(snaps)))
  }

  /** What a subscriber to the state stream (`publishReplay(1)`) has received
      once `emitted` has been emitted, when it subscribed after the first
      `at` emissions: the latest snapshot at subscription, then all later ones. */
  function Replay(emitted: seq<Snapshot>, at: nat): (r: seq<Snapshot>)
    requires at <= |emitted|
    ensures at == 0 ==> r == emitted
    ensures at > 0 ==> |r| == |emitted| - at + 1 && r[0] == emitted[at - 1]
    ensures forall i :: 0 <= i < |r| ==> r[i] == emitted[|emitted| - |r| + i]
  {
    if at == 0 then emitted else emitted[at - 1..]
  }

  /** A late subscriber first receives the snapshot that was latest when it
      subscribed, and a new emission reaches every subscriber. */
  lemma ReplayFacts(emitted: seq<Snapshot>, at: nat, s: Snapshot)
    requires at <= |emitted|
    ensures at > 0 ==> Replay(emitted, at)[0] == emitted[at - 1]
    ensures Replay(emitted + [s], at) == Replay(emitted, at) + [s]
  {
    if at > 0 {
      assert (emitted + [s])[at - 1..] == emitted[at - 1..] + [s];
    }
  }

  /** A subscriber that joins after the last emission receives the latest
      snapshot alone. */
  lemma SelectLatestOnly(s: Snapshot)
    ensures SelectFrom([], [s]) == Emits([Obj(s)])
  {
    assert AsValues([s]) == [Obj(s)];
    assert NoConsecutiveRepeats([Obj(s)]);
  }

  /** A subscriber that joins after the last emission receives the key's
      latest value alone, or nothing while that value is `undefined`. */
  lemma SelectLatestKeyOnly(s: Snapshot, key: string)
    ensures SelectFrom([Key(key)], [s])
         == Emits(if Lookup(s, key) == Undefined then [] else [Lookup(s, key)])
  {
    assert Projected([s], key) == [Lookup(s, key)];
    assert NoConsecutiveRepeats([Lookup(s, key)]);
  }
}
