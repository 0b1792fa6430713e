/** Both revisions turn a list of inputs into a list of offers by keeping,
    in order, the inputs that yield one: a list comprehension with an `if`.
    This module states that pattern once. */
module Lists {
  import opened Results

  /** `[f(x).value for x in xs if f(x) is not None]`. */
  function FilterMap<A, B>(xs: seq<A>, f: A -> Option<B>): (r: seq<B>)
    ensures |r| <= |xs|
  {
    if xs == [] then []
    else (if f(xs[0]).Some? then [f(xs[0]).value] else []) + FilterMap(xs[1..], f)
  }

  /** `[f(x) for x in xs]`. */
  function Map<A, B>(xs: seq<A>, f: A -> B): (r: seq<B>)
    ensures |r| == |xs|
    ensures forall i | 0 <= i < |xs| :: r[i] == f(xs[i])
  {
    seq(|xs|, i requires 0 <= i < |xs| => f(xs[i]))
  }

  ghost predicate Increasing(picked: seq<int>) {
    forall k, l | 0 <= k < l < |picked| :: picked[k] < picked[l]
  }

  /** `ys` keeps, in order, exactly the inputs at the positions `picked`,
      each as `f` maps it, and every input left out maps to `None`. */
  ghost predicate Selects<A, B>(xs: seq<A>, f: A -> Option<B>, ys: seq<B>, picked: seq<int>) {
    && |picked| == |ys|
    && Increasing(picked)
    && (forall k | 0 <= k < |picked| :: 0 <= picked[k] < |xs| && f(xs[picked[k]]) == Some(ys[k]))
    && (forall j | 0 <= j < |xs| && j !in picked :: f(xs[j]).None?)
  }

  lemma AppendAssoc<T>(h: seq<T>, x: seq<T>, y: seq<T>)
    ensures h + (x + y) == (h + x) + y
  {
  }

  /** Regrouping a sequence whose first part and rest are known in pieces. */
  lemma Regroup<T>(whole: seq<T>, tail: seq<T>, front: seq<T>, h: seq<T>, x: seq<T>, e: seq<T>, y: seq<T>)
    requires whole == h + tail && tail == x + e + y && front == h + x
    ensures whole == front + e + y
  {
  }

  /** Regrouping a sequence whose first part is known in two pieces. */
  lemma Regroup2<T>(whole: seq<T>, h: seq<T>, tail: seq<T>, front: seq<T>, e: seq<T>)
    requires whole == h + tail && front + e == h
    ensures whole == front + e + tail
  {
  }

  /** A non-empty sequence is its first element followed by the rest. */
  lemma ConsEq<T>(xs: seq<T>, ys: seq<T>, h: T, t: seq<T>)
    requires xs != [] && xs[0] == h && xs[1..] == t && ys == [h] + t
    ensures xs == ys
  {
    assert xs == [xs[0]] + xs[1..];
  }

  /** The comprehension distributes over concatenation. */
  lemma {:induction false} FilterMapAppend<A, B>(xs: seq<A>, ys: seq<A>, f: A -> Option<B>)
    ensures FilterMap(xs + ys, f) == FilterMap(xs, f) + FilterMap(ys, f)
  {
    if xs == [] {
      assert xs + ys == ys;
    } else {
      var head := if f(xs[0]).Some? then [f(xs[0]).value] else [];
      assert (xs + ys)[0] == xs[0];
      assert (xs + ys)[1..] == xs[1..] + ys;
      FilterMapAppend(xs[1..], ys, f);
      AppendAssoc(head, FilterMap(xs[1..], f), FilterMap(ys, f));
    }
  }

  /** When `f` accepts every input, the comprehension keeps them all, in
      order. */
  lemma {:induction false} FilterMapAll<A, B>(xs: seq<A>, f: A -> Option<B>, ys: seq<B>)
    requires |xs| == |ys|
    requires forall k | 0 <= k < |xs| :: f(xs[k]) == Some(ys[k])
    ensures FilterMap(xs, f) == ys
  {
    if xs != [] {
      assert forall k | 0 <= k < |xs[1..]| :: xs[1..][k] == xs[k + 1] && ys[1..][k] == ys[k + 1];
      FilterMapAll(xs[1..], f, ys[1..]);
      assert ys == [ys[0]] + ys[1..];
    }
  }

  /** The positions of the inputs the comprehension keeps. */
  function Picked<A, B>(xs: seq<A>, f: A -> Option<B>): seq<int>
    decreases |xs|
  {
    if xs == [] then []
    else
      var n := |xs| - 1;
      Picked(xs[..n], f) + (if f(xs[n]).Some? then [n] else [])
  }

  /** The comprehension keeps, in order, exactly the inputs that `f` maps to
      a value, each as `f` maps it; no input is kept twice or dropped
      unless `f` rejects it. */
  lemma {:induction false} FilterMapSelects<A, B>(xs: seq<A>, f: A -> Option<B>)
    ensures Selects(xs, f, FilterMap(xs, f), Picked(xs, f))
    decreases |xs|
  {
    if xs != [] {
      var n := |xs| - 1;
      var init := xs[..n];
      assert xs == init + [xs[n]];
      FilterMapAppend(init, [xs[n]], f);
      FilterMapSelects(init, f);
      SelectsExtend(init, f, FilterMap(init, f), Picked(init, f), xs[n]);
    }
  }

  /** Appending an input to a selection: kept when `f` accepts it. */
  lemma SelectsExtend<A, B>(xs: seq<A>, f: A -> Option<B>, ys: seq<B>, picked: seq<int>, x: A)
    requires Selects(xs, f, ys, picked)
    ensures Selects(xs + [x], f, ys + (if f(x).Some? then [f(x).value] else []),
      picked + (if f(x).Some? then [|xs|] else []))
  {
    var xs' := xs + [x];
    assert forall j | 0 <= j < |xs| :: xs'[j] == xs[j];
  }

  /** Nothing is kept exactly when `f` rejects every input. */
  lemma {:induction false} FilterMapEmpty<A, B>(xs: seq<A>, f: A -> Option<B>)
    ensures FilterMap(xs, f) == [] <==> forall j | 0 <= j < |xs| :: f(xs[j]).None?
  {
    if xs != [] {
      FilterMapEmpty(xs[1..], f);
      assert forall j | 0 < j < |xs| :: xs[j] == xs[1..][j - 1];
    }
  }

  /** The comprehension as the builders run it, a loop appending to a list,
      with the positions of the kept inputs recorded. */
  method Collect<A, B>(xs: seq<A>, f: A -> Option<B>) returns (ys: seq<B>, picked: seq<int>)
    ensures ys == FilterMap(xs, f)
    ensures Selects(xs, f, ys, picked)
  {
    ys, picked := [], [];
    var i := 0;
    while i < |xs|
      invariant 0 <= i <= |xs|
      invariant ys == FilterMap(xs[..i], f)
      invariant Selects(xs[..i], f, ys, picked)
    {
      CollectStep(xs, f, i, ys, picked);
      var r := f(xs[i]);
      if r.Some? {
        ys, picked := ys + [r.value], picked + [i];
      }
      i := i + 1;
    }
    assert xs[..i] == xs;
  }

  /** One turn of `Collect`'s loop keeps its invariant. */
  lemma CollectStep<A, B>(xs: seq<A>, f: A -> Option<B>, i: nat, ys: seq<B>, picked: seq<int>)
    requires i < |xs| && ys == FilterMap(xs[..i], f) && Selects(xs[..i], f, ys, picked)
    ensures var kept := f(xs[i]).Some?;
      var ys' := ys + (if kept then [f(xs[i]).value] else []);
      var picked' := picked + (if kept then [i] else []);
      ys' == FilterMap(xs[..i + 1], f) && Selects(xs[..i + 1], f, ys', picked')
  {
    FilterMapAppend(xs[..i], [xs[i]], f);
    SelectsExtend(xs[..i], f, ys, picked, xs[i]);
    assert xs[..i + 1] == xs[..i] + [xs[i]];
  }

  /** A selection whose last input is kept: that input is the last one
      kept, and the rest is a selection of the other inputs. */
  lemma SelectsLastKept<A, B>(xs: seq<A>, f: A -> Option<B>, ys: seq<B>, picked: seq<int>)
    requires Selects(xs, f, ys, picked) && xs != [] && |xs| - 1 in picked
    ensures |picked| > 0 && picked[|picked| - 1] == |xs| - 1
    ensures f(xs[|xs| - 1]) == Some(ys[|ys| - 1])
    ensures Selects(xs[..|xs| - 1], f, ys[..|ys| - 1], picked[..|picked| - 1])
  {
    var n := |xs| - 1;
    var last := |picked| - 1;
    var k :| 0 <= k < |picked| && picked[k] == n;
    assert picked[k] <= picked[last] < |xs|;
    var init := xs[..n];
    var picked' := picked[..last];
    forall j | 0 <= j < |init| && j !in picked' ensures f(init[j]).None? {
      assert j != n && j !in picked;
    }
  }

  /** A selection whose last input is left out is a selection of the other
      inputs. */
  lemma SelectsLastDropped<A, B>(xs: seq<A>, f: A -> Option<B>, ys: seq<B>, picked: seq<int>)
    requires Selects(xs, f, ys, picked) && xs != [] && |xs| - 1 !in picked
    ensures f(xs[|xs| - 1]).None?
    ensures Selects(xs[..|xs| - 1], f, ys, picked)
  {
    var n := |xs| - 1;
    forall k | 0 <= k < |picked| ensures picked[k] < n {
      assert picked[k] != n;
    }
  }

  /** A selection determines its result: whatever positions witness it, the
      kept list is the comprehension's. Together with `Collect` this makes
      `Selects` a complete description of `FilterMap`. */
  lemma {:induction false} SelectsUnique<A, B>(xs: seq<A>, f: A -> Option<B>, ys: seq<B>, picked: seq<int>)
    requires Selects(xs, f, ys, picked)
    ensures ys == FilterMap(xs, f)
    decreases |xs|
  {
    if xs != [] {
      var n := |xs| - 1;
      var init := xs[..n];
      assert xs == init + [xs[n]];
      FilterMapAppend(init, [xs[n]], f);
      if n in picked {
        SelectsLastKept(xs, f, ys, picked);
        SelectsUnique(init, f, ys[..|ys| - 1], picked[..|picked| - 1]);
        assert ys == ys[..|ys| - 1] + [ys[|ys| - 1]];
      } else {
        SelectsLastDropped(xs, f, ys, picked);
        SelectsUnique(init, f, ys, picked);
      }
    }
  }
}
