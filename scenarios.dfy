/** The behaviours the repository's tests describe, each replayed on a
    fresh `LocalState`, with what a subscriber receives stated as the
    method's postcondition. A marble test subscribes after the `setState`
    calls, so it receives the replayed latest snapshot and what follows. */
module Scenarios {
  import opened JsValue
  import opened Accumulator
  import opened Selectors
  import opened LocalStates
  import opened Streams

  /** `map(f)` over a delivered history. */
  function MapOperator(f: Value -> Value): Operator
  {
    (s: seq<Value>) => seq(|s|, i requires 0 <= i < |s| => f(s[i]))
  }

  /** `s => s[key]` on an object. */
  function Field(key: string): Value -> Value
  {
    (v: Value) => if v.Obj? then Lookup(v.fields, key) else Undefined
  }

  /** Nothing is selected before any command, in any of the three forms. */
  method EmptyAfterInit() returns (full: Selection, bar: Selection, mapped: Selection)
    ensures full == Emits([]) && bar == Emits([]) && mapped == Emits([])
  {
    var ls := new LocalState();
    full := ls.Select([], 0);
    bar := ls.Select([Key("bar")], 0);
    mapped := ls.Select([Op(MapOperator(Field("bar")))], 0);
  }

  /** After one `setState`, `select()` delivers that state. */
  method InitialState() returns (full: Selection)
    ensures full == Emits([Obj(map["test" := Str("test"), "bar" := Num(42)])])
  {
    var ls := new LocalState();
    var initial := map["test" := Str("test"), "bar" := Num(42)];
    ls.SetState(Slice(initial));
    assert ls.state == initial;
    assert ls.emitted == [initial];
    assert SelectAll([initial]) == [Obj(initial)] by {
      assert NoConsecutiveRepeats(AsValues([initial]));
    }
    full := ls.Select([], 1);
  }

  /** After one `setState`, `select('bar')` delivers its value. */
  method InitialStateByKey() returns (bar: Selection)
    ensures bar == Emits([Num(42)])
  {
    var ls := new LocalState();
    var initial := map["bar" := Num(42)];
    ls.SetState(Slice(initial));
    assert ls.state == initial;
    assert ls.emitted == [initial];
    assert SelectKey([initial], "bar") == [Num(42)] by {
      assert Projected([initial], "bar") == [Num(42)];
      assert FilterDefined([Num(42)]) == [Num(42)];
    }
    bar := ls.Select([Key("bar")], 1);
  }

  /** After one `setState`, `select(map(s => s.bar))` delivers its value. */
  method InitialStateByOperator() returns (mapped: Selection)
    ensures mapped == Emits([Num(42)])
  {
    var ls := new LocalState();
    var initial := map["bar" := Num(42)];
    ls.SetState(Slice(initial));
    assert ls.state == initial;
    assert ls.emitted == [initial];
    var op := MapOperator(Field("bar"));
    assert SelectPipe([op], AsValues([initial])) == [Num(42)] by {
      assert AsValues([initial]) == [Obj(initial)];
      assert op([Obj(initial)]) == [Num(42)];
      assert FilterDefined([Num(42)]) == [Num(42)];
    }
    mapped := ls.Select([Op(op)], 1);
  }

  /** A later slice overrides only its own keys. */
  method OverridePreviousSlices() returns (full: Selection)
    ensures full == Emits([Obj(map["test" := Str("test2"), "bar" := Num(42)])])
  {
    var ls := new LocalState();
    ls.SetState(Slice(map["test" := Str("test"), "bar" := Num(42)]));
    ls.SetState(Slice(map["test" := Str("test2")]));
    assert ls.state == map["test" := Str("test2"), "bar" := Num(42)];
    ls.LatestIsState();
    SelectLatestOnly(ls.state);
    full := ls.Select([], |ls.emitted|);
  }

  /** Keys set by an earlier slice persist when a later one adds others. */
  method AddNonExistingSlices() returns (full: Selection)
    ensures full == Emits([Obj(map["test" := Str("test2"), "bar" := Num(42)])])
  {
    var ls := new LocalState();
    ls.SetState(Slice(map["bar" := Num(42)]));
    ls.SetState(Slice(map["test" := Str("test2")]));
    assert ls.state == map["test" := Str("test2"), "bar" := Num(42)];
    ls.LatestIsState();
    SelectLatestOnly(ls.state);
    full := ls.Select([], |ls.emitted|);
  }

  /** An updater's slice overrides only its own keys. */
  method UpdaterOverridesSlices() returns (full: Selection)
    ensures full == Emits([Obj(map["test" := Str("test2"), "bar" := Num(42)])])
  {
    var ls := new LocalState();
    ls.SetState(Slice(map["test" := Str("test"), "bar" := Num(42)]));
    ls.SetState(Updater(_ => map["test" := Str("test2")]));
    assert ls.state == map["test" := Str("test2"), "bar" := Num(42)];
    ls.LatestIsState();
    SelectLatestOnly(ls.state);
    full := ls.Select([], |ls.emitted|);
  }

  /** Keys set by an earlier slice persist when an updater adds others. */
  method UpdaterAddsNonExistingSlices() returns (full: Selection)
    ensures full == Emits([Obj(map["test" := Str("test2"), "bar" := Num(42)])])
  {
    var ls := new LocalState();
    ls.SetState(Slice(map["bar" := Num(42)]));
    ls.SetState(Updater(_ => map["test" := Str("test2")]));
    assert ls.state == map["test" := Str("test2"), "bar" := Num(42)];
    ls.LatestIsState();
    SelectLatestOnly(ls.state);
    full := ls.Select([], |ls.emitted|);
  }

  /** The updater of the doubling test: `s => ({ bar: s.bar * 2 })`. When
      `bar` is not a number, JavaScript yields `NaN`, a defined value; the
      model has no `NaN` and yields `undefined` there. Only the numeric case
      is used below. */
  function DoubleBar(s: Snapshot): Snapshot
  {
    match Lookup(s, "bar")
    case Num(n) => map["bar" := Num(n * 2)]
    case _ => map["bar" := Undefined]
  }

  /** An updater sees the state as it stood before it: `bar` doubles. */
  method UpdaterSeesPreviousState() returns (bar: Selection)
    ensures bar == Emits([Num(84)])
  {
    var ls := new LocalState();
    var initial := map["bar" := Num(42)];
    ls.SetState(Slice(initial));
    assert ls.state == initial;
    var doubled := map["bar" := Num(84)];
    assert DoubleBar(initial) == doubled;
    ls.SetState(Updater(DoubleBar));
    assert ls.state == doubled;
    ls.LatestIsState();
    SelectLatestKeyOnly(doubled, "bar");
    bar := ls.Select([Key("bar")], |ls.emitted|);
  }

  /** The updater an immutable-update helper builds for "push 2 onto
      `items`": a copy of the whole state with a longer array. */
  function PushTwo(s: Snapshot): Snapshot
  {
    match Lookup(s, "items")
    case Arr(xs) => s["items" := Arr(xs + [Num(2)])]
    case _ => s
  }

  /** An updater that returns a whole new state replaces the array; the
      caller's initial value is a value and cannot change. */
  method UpdaterReturnsNewState() returns (items: Selection)
    ensures items == Emits([Arr([Num(1), Num(2)])])
  {
    var ls := new LocalState();
    var initial := map["items" := Arr([Num(1)])];
    ls.SetState(Slice(initial));
    assert ls.state == initial;
    var final := map["items" := Arr([Num(1), Num(2)])];
    assert PushTwo(initial) == final by {
      assert [Num(1)] + [Num(2)] == [Num(1), Num(2)];
    }
    ls.SetState(Updater(PushTwo));
    assert ls.state == final;
    ls.LatestIsState();
    SelectItems();
    items := ls.Select([Op(MapOperator(Field("items")))], |ls.emitted|);
  }

  /** A late subscriber to `map(s => s.items)` on `{items: [1, 2]}`
      receives `[1, 2]`. */
  lemma SelectItems()
    ensures SelectFrom([Op(MapOperator(Field("items")))], [map["items" := Arr([Num(1), Num(2)])]])
         == Emits([Arr([Num(1), Num(2)])])
  {
    var final := map["items" := Arr([Num(1), Num(2)])];
    var op := MapOperator(Field("items"));
    assert AsValues([final]) == [Obj(final)];
    assert op([Obj(final)]) == [Arr([Num(1), Num(2)])];
    assert FilterDefined([Arr([Num(1), Num(2)])]) == [Arr([Num(1), Num(2)])];
  }

  /** `select(map(s => s[key]))` and `select(key)` select the same values
      from every snapshot history. */
  lemma MapFieldIsSelectKey(snaps: seq<Snapshot>, key: string)
    ensures SelectPipe([MapOperator(Field(key))], AsValues(snaps)) == SelectKey(snaps, key)
  {
    assert MapOperator(Field(key))(AsValues(snaps)) == Projected(snaps, key);
  }

  /** Direct updates of a key around a keyed source for that key are, to the
      accumulator, one keyed source. */
  lemma KeyedAround(key: string, a: Value, vs: seq<Value>, b: Value)
    ensures [Slice(map[key := a])] + AsCommands(Keyed(key, vs)) + [Slice(map[key := b])]
         == AsCommands(Keyed(key, [a] + vs + [b]))
  {
  }

  /** A keyed source connected between two direct updates of the same key:
      a subscriber from the start receives every value in arrival order
      (here the values are defined and no two neighbours are equal). */
  method ConnectedKeyInterleaves(first: Value, connected: seq<Value>, last: Value) returns (bar: Selection)
    requires NoConsecutiveRepeats([first] + connected + [last])
    requires forall i :: 0 <= i < |[first] + connected + [last]| ==> ([first] + connected + [last])[i] != Undefined
    ensures bar == Emits([first] + connected + [last])
  {
    var ls := new LocalState();
    ls.SetState(Slice(map["bar" := first]));
    ls.ConnectState(KeyedValues("bar", connected));
    ls.SetState(Slice(map["bar" := last]));
    assert SliceStream(KeyedValues("bar", connected)) == Keyed("bar", connected);
    KeyedAround("bar", first, connected, last);
    var expected := [first] + connected + [last];
    assert ls.commands == AsCommands(Keyed("bar", expected));
    SelectKeyedFromStart("bar", expected);
    bar := ls.Select([Key("bar")], 0);
  }

  lemma SelectKeyedFromStart(key: string, values: seq<Value>)
    requires NoConsecutiveRepeats(values)
    requires forall i :: 0 <= i < |values| ==> values[i] != Undefined
    ensures SelectFrom([Key(key)], Replay(Scan(map[], AsCommands(Keyed(key, values))), 0)) == Emits(values)
  {
    KeyedSourceSelected(map[], key, values);
  }

  /** The values of the connected-source test: `bar` takes 0, then the
      source's 1 and 2, then 3. */
  method ConnectedKeyExample() returns (bar: Selection)
    ensures bar == Emits([Num(0), Num(1), Num(2), Num(3)])
  {
    var values := [Num(0)] + [Num(1), Num(2)] + [Num(3)];
    assert values == [Num(0), Num(1), Num(2), Num(3)];
    assert NoConsecutiveRepeats(values);
    bar := ConnectedKeyInterleaves(Num(0), [Num(1), Num(2)], Num(3));
  }

  /** A lone string selects by key; more than one argument with a string
      among them makes `reduce` call the string and fail. */
  method MixedArgumentsFail() returns (keyed: Selection, mixed: Selection)
    ensures keyed == Emits([]) && mixed == NotAFunction
  {
    var ls := new LocalState();
    keyed := ls.Select([Key("bar")], 0);
    mixed := ls.Select([Op(MapOperator(Field("bar"))), Key("bar")], 0);
  }
}
