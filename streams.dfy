/** The value-level meaning of the RxJS operators the selectors use:
    `filter(v => v !== undefined)` and `distinctUntilChanged()`, each read
    over the finite history of values a stream has delivered so far. */
module Streams {
  import opened JsValue

  datatype Option<T> = None | Some(value: T)

  /** `a` is obtained from `b` by deleting elements (order is kept). */
  predicate IsSubsequence<X(==)>(a: seq<X>, b: seq<X>)
    decreases |b|
  {
    if a == [] then true
    else if b == [] then false
    else (a[0] == b[0] && IsSubsequence(a[1..], b[1..])) || IsSubsequence(a, b[1..])
  }

  lemma {:induction false} SubsequenceTransitive<X>(a: seq<X>, b: seq<X>, c: seq<X>)
    requires IsSubsequence(a, b) && IsSubsequence(b, c)
    ensures IsSubsequence(a, c)
    decreases |a| + |b| + |c|
  {
    if a != [] {
      assert b != [] && c != [];
      if IsSubsequence(b, c[1..]) {
        SubsequenceTransitive(a, b, c[1..]);
      } else {
        assert b[0] == c[0] && IsSubsequence(b[1..], c[1..]);
        if a[0] == b[0] && IsSubsequence(a[1..], b[1..]) {
          SubsequenceTransitive(a[1..], b[1..], c[1..]);
        } else {
          SubsequenceTransitive(a, b[1..], c[1..]);
        }
      }
    }
  }

  /** No two neighbouring elements are equal. */
  predicate NoConsecutiveRepeats<X(==)>(s: seq<X>)
  {
    forall i :: 0 < i < |s| ==> s[i - 1] != s[i]
  }

  /** The last element of `s`, or `last` when `s` is empty. */
  function LastOr<X>(last: Option<X>, s: seq<X>): Option<X>
  {
    if s == [] then last else Some(s[|s| - 1])
  }

  /** `distinctUntilChanged()` continued from a state in which `last` is the
      value it emitted last (None: nothing emitted yet). A value is passed
      on exactly when it differs from the last value passed on. */
  function DistinctFrom<X(==)>(last: Option<X>, s: seq<X>): (r: seq<X>)
    ensures NoConsecutiveRepeats(r)
    ensures r != [] && last.Some? ==> r[0] != last.value
    ensures forall x :: x in r ==> x in s
    ensures forall x :: x in s ==> x in r || last == Some(x)
    ensures LastOr(last, r) == LastOr(last, s)
    decreases |s|
  {
    if s == [] then []
    else if last == Some(s[0]) then DistinctFrom(last, s[1..])
    else
      var rest := DistinctFrom(Some(s[0]), s[1..]);
      assert LastOr(last, s) == LastOr(Some(s[0]), s[1..]);
      var r := [s[0]] + rest;
      assert r[1..] == rest;
      r
  }

  /** What `distinctUntilChanged()` passes on is taken from its input, in order. */
  lemma {:induction false} DistinctIsSubsequence<X>(last: Option<X>, s: seq<X>)
    ensures IsSubsequence(DistinctFrom(last, s), s)
    decreases |s|
  {
    if s != [] {
      if last == Some(s[0]) {
        DistinctIsSubsequence(last, s[1..]);
        assert DistinctFrom(last, s) == DistinctFrom(last, s[1..]);
      } else {
        DistinctIsSubsequence(Some(s[0]), s[1..]);
        var r := DistinctFrom(last, s);
        assert r == [s[0]] + DistinctFrom(Some(s[0]), s[1..]);
        assert r[1..] == DistinctFrom(Some(s[0]), s[1..]);
      }
    }
  }

  /** A history without neighbouring repeats (and not starting with the last
      value passed on) is passed on unchanged. */
  lemma {:induction false} DistinctKeepsNonRepeating<X>(last: Option<X>, s: seq<X>)
    requires NoConsecutiveRepeats(s)
    requires s != [] && last.Some? ==> s[0] != last.value
    ensures DistinctFrom(last, s) == s
    decreases |s|
  {
    if s != [] {
      forall i | 0 < i < |s[1..]| ensures s[1..][i - 1] != s[1..][i] {
        assert s[1..][i - 1] == s[i] && s[1..][i] == s[i + 1];
      }
      DistinctKeepsNonRepeating(Some(s[0]), s[1..]);
      assert DistinctFrom(last, s) == [s[0]] + s[1..];
    }
  }

  /** `distinctUntilChanged()` on a fresh subscription. */
  function DistinctUntilChanged<X(==)>(s: seq<X>): (r: seq<X>)
    ensures IsSubsequence(r, s)
    ensures NoConsecutiveRepeats(r)
    ensures forall x :: x in r ==> x in s
    ensures forall x :: x in s ==> x in r
    ensures s != [] ==> r != [] && r[0] == s[0] && r[|r| - 1] == s[|s| - 1]
    ensures NoConsecutiveRepeats(s) ==> r == s
  {
    var r := DistinctFrom(None, s);
    DistinctIsSubsequence(None, s);
    assert NoConsecutiveRepeats(s) ==> r == s by {
      if NoConsecutiveRepeats(s) {
        DistinctKeepsNonRepeating(None, s);
      }
    }
    assert s != [] ==> s[0] in r;
    assert s != [] && r != [] ==> LastOr(None, r) == LastOr(None, s);
    r
  }

  /** One step of `distinctUntilChanged()`: the head is passed on unless it
      repeats the last value, and either way it is the value to compare with next. */
  lemma DistinctStep<X>(last: Option<X>, s: seq<X>)
    requires s != []
    ensures DistinctFrom(last, s)
         == (if last == Some(s[0]) then [] else [s[0]]) + DistinctFrom(Some(s[0]), s[1..])
  {
  }

  /** Deduplicating a history in two pieces: the second piece is
      deduplicated against the last value of the first. */
  lemma {:induction false} DistinctAppend<X>(last: Option<X>, a: seq<X>, b: seq<X>)
    ensures DistinctFrom(last, a + b) == DistinctFrom(last, a) + DistinctFrom(LastOr(last, a), b)
    decreases |a|
  {
    if a == [] {
      assert a + b == b;
    } else {
      var ab := a + b;
      assert ab != [] && ab[0] == a[0] && ab[1..] == a[1..] + b;
      var head: seq<X> := if last == Some(a[0]) then [] else [a[0]];
      var next := Some(a[0]);
      assert LastOr(next, a[1..]) == LastOr(last, a);
      calc {
        DistinctFrom(last, ab);
        { DistinctStep(last, ab); }
        head + DistinctFrom(next, a[1..] + b);
        { DistinctAppend(next, a[1..], b); }
        head + (DistinctFrom(next, a[1..]) + DistinctFrom(LastOr(last, a), b));
        (head + DistinctFrom(next, a[1..])) + DistinctFrom(LastOr(last, a), b);
        { DistinctStep(last, a); }
        DistinctFrom(last, a) + DistinctFrom(LastOr(last, a), b);
      }
    }
  }

  /** A value arriving on a fresh `distinctUntilChanged()` is passed on
      exactly when it differs from the value that arrived before it. */
  lemma DistinctSnoc<X>(s: seq<X>, x: X)
    ensures DistinctUntilChanged(s + [x])
         == DistinctUntilChanged(s) + (if LastOr(None, s) == Some(x) then [] else [x])
  {
    DistinctAppend(None, s, [x]);
  }

  /** `distinctUntilChanged()` applied twice passes on what it passed on once. */
  lemma DistinctIdempotent<X>(s: seq<X>)
    ensures DistinctUntilChanged(DistinctUntilChanged(s)) == DistinctUntilChanged(s)
  {
  }

  /** `filter(v => v !== undefined)` over a delivered history: every
      defined value, as often as it occurs, in its order, and nothing else. */
  function FilterDefined(s: seq<Value>): (r: seq<Value>)
    ensures forall i :: 0 <= i < |r| ==> r[i] != Undefined
    ensures forall v :: v in r ==> v in s && v != Undefined
    ensures forall v :: v in s && v != Undefined ==> v in r
    ensures IsSubsequence(r, s)
    ensures (forall i :: 0 <= i < |s| ==> s[i] != Undefined) ==> r == s
    ensures (forall i :: 0 <= i < |s| ==> s[i] == Undefined) ==> r == []
  {
    if s == [] then []
    else if s[0] == Undefined then
      var rest := FilterDefined(s[1..]);
      assert forall v :: v in s ==> v == s[0] || v in s[1..];
      rest
    else
      var rest := FilterDefined(s[1..]);
      var r := [s[0]] + rest;
      assert forall v :: v in s ==> v == s[0] || v in s[1..];
      assert r[1..] == rest;
      assert (forall i :: 0 <= i < |s| ==> s[i] != Undefined) ==> (forall i :: 0 <= i < |s[1..]| ==> s[1..][i] != Undefined);
      assert r == s[..1] + rest;
      r
  }

  /** Filtering keeps each defined value exactly as often as it occurs;
      with `IsSubsequence`, this fixes the filtered history exactly. */
  lemma {:induction false} FilterKeepsCounts(s: seq<Value>)
    ensures forall v :: multiset(FilterDefined(s))[v] == if v == Undefined then 0 else multiset(s)[v]
    decreases |s|
  {
    if s != [] {
      FilterKeepsCounts(s[1..]);
      assert s == [s[0]] + s[1..];
      if s[0] != Undefined {
        assert FilterDefined(s) == [s[0]] + FilterDefined(s[1..]);
      }
    }
  }

  /** Filtering distributes over concatenation of histories. */
  lemma {:induction false} FilterAppend(a: seq<Value>, b: seq<Value>)
    ensures FilterDefined(a + b) == FilterDefined(a) + FilterDefined(b)
    decreases |a|
  {
    if a == [] {
      assert a + b == b;
    } else {
      assert (a + b)[0] == a[0] && (a + b)[1..] == a[1..] + b;
      FilterAppend(a[1..], b);
    }
  }
}
