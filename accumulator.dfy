/** The state fold of `LocalState`: `stateAccumulator` and the `scan` over
    the merged command stream. */
module Accumulator {
  import opened JsValue

  /** What `setState` accepts: a partial state, or a function from the
      previous state to a partial state (discriminated by `typeof`). */
  datatype Command =
    | Slice(slice: Snapshot)
    | Updater(update: Snapshot -> Snapshot)

  /** The partial state a command contributes when folded onto `acc`
      (`typeof command === 'function' ? command(acc) : command`). A partial
      state contributes itself, whatever the state it meets; an updater
      contributes what it returns on that state. */
  function SliceOf(acc: Snapshot, cmd: Command): (r: Snapshot)
    ensures cmd.Slice? ==> r == cmd.slice
    ensures cmd.Updater? ==> r == cmd.update(acc)
  {
    match cmd
    case Slice(slice) => slice
    case Updater(update) => update(acc)
  }

  /** `{ ...acc, ...slice }`: a shallow, one-level merge. Every key of the
      slice takes the slice's value, every other key keeps its value, and no
      key outside the two is added. */
  function Accumulate(acc: Snapshot, cmd: Command): (r: Snapshot)
    ensures r.Keys == acc.Keys + SliceOf(acc, cmd).Keys
    ensures forall k :: k in SliceOf(acc, cmd) ==> r[k] == SliceOf(acc, cmd)[k]
    ensures forall k :: k in acc && k !in SliceOf(acc, cmd) ==> r[k] == acc[k]
  {
    acc + SliceOf(acc, cmd)
  }

  /** The running accumulator after folding `cmds`, in order, onto `seed`.
      The accumulator is never reset: it keeps every key of the seed. */
  function Fold(seed: Snapshot, cmds: seq<Command>): (r: Snapshot)
    ensures seed.Keys <= r.Keys
    decreases |cmds|
  {
    if cmds == [] then seed
    else Accumulate(Fold(seed, cmds[..|cmds| - 1]), cmds[|cmds| - 1])
  }

  /** What `scan(stateAccumulator, seed)` emits for `cmds`: one snapshot per
      command, in arrival order, each the fold of the commands up to and
      including that one. The seed itself is not emitted. */
  function Scan(seed: Snapshot, cmds: seq<Command>): (r: seq<Snapshot>)
    ensures |r| == |cmds|
    ensures forall i :: 0 <= i < |cmds| ==> r[i] == Fold(seed, cmds[..i + 1])
    decreases |cmds|
  {
    if cmds == [] then []
    else
      var init := cmds[..|cmds| - 1];
      var r := Scan(seed, init) + [Fold(seed, cmds)];
      assert forall i :: 0 <= i < |init| ==> r[i] == Fold(seed, cmds[..i + 1]) by {
        forall i | 0 <= i < |init| ensures r[i] == Fold(seed, cmds[..i + 1]) {
          assert init[..i + 1] == cmds[..i + 1];
        }
      }
      assert cmds[..|cmds|] == cmds;
      r
  }

  /** An updater is applied to the snapshot exactly as it stood before it,
      and its result is merged onto that snapshot. */
  lemma UpdaterSeesPreviousSnapshot(seed: Snapshot, cmds: seq<Command>, update: Snapshot -> Snapshot)
    ensures Fold(seed, cmds + [Updater(update)]) == Fold(seed, cmds) + update(Fold(seed, cmds))
  {
    var all := cmds + [Updater(update)];
    assert all[..|all| - 1] == cmds;
  }

  /** Folding two runs of commands is folding the second run onto the
      result of the first. */
  lemma {:induction false} FoldAppend(seed: Snapshot, a: seq<Command>, b: seq<Command>)
    ensures Fold(seed, a + b) == Fold(Fold(seed, a), b)
    decreases |b|
  {
    if b == [] {
      assert a + b == a;
    } else {
      var ab := a + b;
      assert ab[..|ab| - 1] == a + b[..|b| - 1];
      assert ab[|ab| - 1] == b[|b| - 1];
      FoldAppend(seed, a, b[..|b| - 1]);
    }
  }

  /** Scanning two runs of commands emits the first run's snapshots, then
      the second run's scanned from where the first left off. */
  lemma {:induction false} ScanAppend(seed: Snapshot, a: seq<Command>, b: seq<Command>)
    ensures Scan(seed, a + b) == Scan(seed, a) + Scan(Fold(seed, a), b)
  {
    var l, r := Scan(seed, a + b), Scan(seed, a) + Scan(Fold(seed, a), b);
    forall i | 0 <= i < |l| ensures l[i] == r[i] {
      if i < |a| {
        assert (a + b)[..i + 1] == a[..i + 1];
      } else {
        assert (a + b)[..i + 1] == a + b[..i - |a| + 1];
        FoldAppend(seed, a, b[..i - |a| + 1]);
      }
    }
  }

  /** The last snapshot emitted is the running accumulator. */
  lemma ScanLast(seed: Snapshot, cmds: seq<Command>)
    requires cmds != []
    ensures Scan(seed, cmds)[|cmds| - 1] == Fold(seed, cmds)
  {
    assert cmds[..|cmds|] == cmds;
  }

  /** Every later snapshot carries every key of every earlier one. */
  lemma ScanKeysGrow(seed: Snapshot, cmds: seq<Command>, i: nat, j: nat)
    requires i <= j < |cmds|
    ensures Scan(seed, cmds)[i].Keys <= Scan(seed, cmds)[j].Keys
  {
    var pre := cmds[..i + 1];
    assert cmds[..j + 1] == pre + cmds[i + 1..j + 1];
    FoldAppend(seed, pre, cmds[i + 1..j + 1]);
  }

  /** `key` is not among the keys the command at position `i` contributes,
      given the state it is folded onto. */
  predicate Untouched(seed: Snapshot, cmds: seq<Command>, i: nat, key: string)
    requires i < |cmds|
  {
    key !in SliceOf(Fold(seed, cmds[..i]), cmds[i])
  }

  /** A key no command mentions keeps its value (and its absence). */
  lemma {:induction false} UntouchedKeyPersists(seed: Snapshot, cmds: seq<Command>, key: string)
    requires forall i :: 0 <= i < |cmds| ==> Untouched(seed, cmds, i, key)
    ensures key in Fold(seed, cmds) <==> key in seed
    ensures key in seed ==> Fold(seed, cmds)[key] == seed[key]
    decreases |cmds|
  {
    if cmds != [] {
      var init := cmds[..|cmds| - 1];
      forall i | 0 <= i < |init| ensures Untouched(seed, init, i, key) {
        assert init[..i] == cmds[..i] && init[i] == cmds[i];
        assert Untouched(seed, cmds, i, key);
      }
      UntouchedKeyPersists(seed, init, key);
      assert cmds[..|cmds| - 1] == init;
      assert Untouched(seed, cmds, |cmds| - 1, key);
    }
  }

  /** The last command that mentions a key decides its value: commands
      after it that leave the key alone do not change it. */
  lemma LastWriteWins(seed: Snapshot, before: seq<Command>, cmd: Command, after: seq<Command>, key: string)
    requires key in SliceOf(Fold(seed, before), cmd)
    requires forall i :: 0 <= i < |after| ==> Untouched(Fold(seed, before + [cmd]), after, i, key)
    ensures key in Fold(seed, before + [cmd] + after)
    ensures Fold(seed, before + [cmd] + after)[key] == SliceOf(Fold(seed, before), cmd)[key]
  {
    var mid := before + [cmd];
    assert mid[..|mid| - 1] == before && mid[|mid| - 1] == cmd;
    FoldAppend(seed, mid, after);
    UntouchedKeyPersists(Fold(seed, mid), after, key);
  }
}
