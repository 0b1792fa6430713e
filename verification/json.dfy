/** JSON values as the builders produce them: objects keep their keys in
    insertion order, as a Python `dict` does, so the order of the emitted
    keys can be stated. Numbers, booleans and null never occur in the
    documents and are left out. */
module Json {
  import opened Results
  import Lists

  datatype Json =
    | JString(str: string)
    | JArray(items: seq<Json>)
    | JObject(fields: seq<Field>)

  datatype Field = Field(key: string, value: Json)

  /** The keys of an object, in insertion order. */
  function Keys(fs: seq<Field>): (ks: seq<string>)
    ensures |ks| == |fs|
    ensures forall i | 0 <= i < |fs| :: ks[i] == fs[i].key
  {
    if fs == [] then [] else [fs[0].key] + Keys(fs[1..])
  }

  /** No key occurs twice, as in every Python `dict`. */
  ghost predicate DistinctKeys(fs: seq<Field>) {
    forall i, j | 0 <= i < j < |fs| :: fs[i].key != fs[j].key
  }

  /** `d.get(k)`: the value stored under `k`. */
  function Get(fs: seq<Field>, k: string): (r: Option<Json>)
    ensures r.Some? <==> k in Keys(fs)
  {
    if fs == [] then None
    else if fs[0].key == k then Some(fs[0].value)
    else Get(fs[1..], k)
  }

  /** `d[k] = v`: an existing key keeps its position and gets the new value;
      a new key goes after all the others. */
  function Put(fs: seq<Field>, k: string, v: Json): (r: seq<Field>)
    ensures Get(r, k) == Some(v)
  {
    if fs == [] then [Field(k, v)]
    else if fs[0].key == k then [Field(k, v)] + fs[1..]
    else [fs[0]] + Put(fs[1..], k, v)
  }

  /** Assignment keeps the key order: a present key stays where it is, a new
      key is appended. */
  lemma {:induction false} PutKeys(fs: seq<Field>, k: string, v: Json)
    ensures Keys(Put(fs, k, v)) == if k in Keys(fs) then Keys(fs) else Keys(fs) + [k]
  {
    if fs != [] {
      var r := Put(fs, k, v);
      if fs[0].key == k {
        assert r[1..] == fs[1..];
      } else {
        PutKeys(fs[1..], k, v);
        assert r[1..] == Put(fs[1..], k, v);
        assert k in Keys(fs) <==> k in Keys(fs[1..]);
      }
    }
  }

  /** In an object without duplicate keys, each field is what `Get` finds
      under its key. */
  lemma GetIndex(fs: seq<Field>, i: nat)
    requires DistinctKeys(fs) && i < |fs|
    ensures Get(fs, fs[i].key) == Some(fs[i].value)
  {
    GetFinds(fs, fs[i].key, fs[i].value);
  }

  /** Assignment leaves every other member as it was. */
  lemma {:induction false} PutOther(fs: seq<Field>, k: string, v: Json, k': string)
    requires k' != k
    ensures Get(Put(fs, k, v), k') == Get(fs, k')
  {
    if fs != [] && fs[0].key != k {
      PutOther(fs[1..], k, v, k');
      assert Put(fs, k, v)[1..] == Put(fs[1..], k, v);
    }
  }

  /** Assignment keeps an object free of duplicate keys. */
  lemma {:induction false} PutDistinct(fs: seq<Field>, k: string, v: Json)
    requires DistinctKeys(fs)
    ensures DistinctKeys(Put(fs, k, v))
  {
    var r := Put(fs, k, v);
    PutKeys(fs, k, v);
    forall i, j | 0 <= i < j < |r| ensures r[i].key != r[j].key {
      assert Keys(r)[i] == r[i].key && Keys(r)[j] == r[j].key;
      if j < |fs| {
        assert Keys(fs)[i] == fs[i].key && Keys(fs)[j] == fs[j].key;
      } else {
        assert Keys(fs)[i] == fs[i].key;
      }
    }
  }

  /** In an object without duplicate keys, `Get` finds exactly the stored
      fields. */
  lemma {:induction false} GetFinds(fs: seq<Field>, k: string, v: Json)
    requires DistinctKeys(fs)
    ensures Get(fs, k) == Some(v) <==> Field(k, v) in fs
  {
    if fs != [] {
      var rest := fs[1..];
      assert fs == [fs[0]] + rest;
      GetFinds(rest, k, v);
    }
  }

  /** `Get` returns the value of the first field with key `k`. */
  lemma {:induction false} GetAt(fs: seq<Field>, i: nat, k: string)
    requires i < |fs| && fs[i].key == k
    requires forall j | 0 <= j < i :: fs[j].key != k
    ensures Get(fs, k) == Some(fs[i].value)
  {
    if i > 0 {
      GetAt(fs[1..], i - 1, k);
    }
  }

  /** Assignment of a typed value keeps every value of an object typed. */
  lemma {:induction false} PutTyped(fs: seq<Field>, k: string, v: Json)
    requires forall i | 0 <= i < |fs| :: Typed(fs[i].value)
    requires Typed(v)
    ensures forall i | 0 <= i < |Put(fs, k, v)| :: Typed(Put(fs, k, v)[i].value)
  {
    if fs != [] && fs[0].key != k {
      PutTyped(fs[1..], k, v);
      var rest := Put(fs[1..], k, v);
      assert Put(fs, k, v) == [fs[0]] + rest;
    }
  }

  /** A guarded assignment: `if present: d[key] = value`. */
  datatype Step = Step(present: bool, key: string, value: Json)

  /** Performs one guarded assignment. */
  function Assign(fs: seq<Field>, s: Step): seq<Field> {
    if s.present then Put(fs, s.key, s.value) else fs
  }

  /** Performs the assignments in order. */
  function Apply(fs: seq<Field>, steps: seq<Step>): seq<Field>
    decreases |steps|
  {
    if steps == [] then fs else Apply(Assign(fs, steps[0]), steps[1..])
  }

  /** The keys the assignments name, guarded or not. */
  function StepKeys(steps: seq<Step>): seq<string> {
    Lists.Map(steps, (s: Step) => s.key)
  }

  /** The keys of the assignments whose guard holds, in order. */
  function Added(steps: seq<Step>): seq<string> {
    if steps == [] then []
    else (if steps[0].present then [steps[0].key] else []) + Added(steps[1..])
  }

  /** What the assignment naming `k` stores, or `None` when its guard fails
      or no assignment names `k`. */
  function Lookup(steps: seq<Step>, k: string): Option<Json> {
    if steps == [] then None
    else if steps[0].key == k then (if steps[0].present then Some(steps[0].value) else None)
    else Lookup(steps[1..], k)
  }

  /** The three views of a list of assignments, one assignment at a time. */
  lemma StepsCons(s: Step, rest: seq<Step>)
    ensures StepKeys([s] + rest) == [s.key] + StepKeys(rest)
    ensures Added([s] + rest) == (if s.present then [s.key] else []) + Added(rest)
    ensures forall k :: Lookup([s] + rest, k) == if s.key == k then (if s.present then Some(s.value) else None) else Lookup(rest, k)
  {
    assert ([s] + rest)[1..] == rest;
  }

  /** No string occurs twice. */
  ghost predicate Distinct(ks: seq<string>) {
    forall i, j | 0 <= i < j < |ks| :: ks[i] != ks[j]
  }

  /** No string of `a` occurs in `b`. */
  ghost predicate Disjoint(a: seq<string>, b: seq<string>) {
    forall k | k in a :: k !in b
  }

  /** After the first of several guarded assignments of distinct new keys,
      the remaining ones still assign distinct new keys. */
  lemma {:induction false} AssignFirst(fs: seq<Field>, steps: seq<Step>)
    requires steps != []
    requires Distinct(StepKeys(steps)) && Disjoint(StepKeys(steps), Keys(fs))
    ensures Keys(Assign(fs, steps[0])) == Keys(fs) + (if steps[0].present then [steps[0].key] else [])
    ensures steps[0].key !in Keys(fs) && steps[0].key !in StepKeys(steps[1..])
    ensures Distinct(StepKeys(steps[1..])) && Disjoint(StepKeys(steps[1..]), Keys(Assign(fs, steps[0])))
  {
    var s := steps[0];
    var rest := steps[1..];
    assert s.key == StepKeys(steps)[0];
    if s.present { PutKeys(fs, s.key, s.value); }
    assert StepKeys(rest) == StepKeys(steps)[1..];
  }

  /** `ApplyGet` for every key at once. */
  lemma ApplyGetAll(fs: seq<Field>, steps: seq<Step>)
    requires Distinct(StepKeys(steps)) && Disjoint(StepKeys(steps), Keys(fs))
    ensures forall k :: Get(Apply(fs, steps), k) == if k in StepKeys(steps) then Lookup(steps, k) else Get(fs, k)
  {
    forall k ensures Get(Apply(fs, steps), k) == if k in StepKeys(steps) then Lookup(steps, k) else Get(fs, k) {
      ApplyGet(fs, steps, k);
    }
  }

  /** Guarded assignments of distinct new keys append the keys whose guard
      holds, in the order of the assignments. */
  lemma {:induction false} ApplyKeys(fs: seq<Field>, steps: seq<Step>)
    requires Distinct(StepKeys(steps)) && Disjoint(StepKeys(steps), Keys(fs))
    ensures Keys(Apply(fs, steps)) == Keys(fs) + Added(steps)
    decreases |steps|
  {
    if steps != [] {
      var s := steps[0];
      AssignFirst(fs, steps);
      ApplyKeys(Assign(fs, s), steps[1..]);
      Lists.AppendAssoc(Keys(fs), if s.present then [s.key] else [], Added(steps[1..]));
    }
  }

  /** After guarded assignments of distinct new keys, a named key holds what
      its assignment stored, and any other key what it held before. */
  lemma {:induction false} ApplyGet(fs: seq<Field>, steps: seq<Step>, k: string)
    requires Distinct(StepKeys(steps)) && Disjoint(StepKeys(steps), Keys(fs))
    ensures Get(Apply(fs, steps), k) == if k in StepKeys(steps) then Lookup(steps, k) else Get(fs, k)
    decreases |steps|
  {
    if steps != [] {
      var s := steps[0];
      AssignFirst(fs, steps);
      ApplyGet(Assign(fs, s), steps[1..], k);
      if k != s.key && s.present {
        PutOther(fs, s.key, s.value, k);
      }
    }
  }

  /** Guarded assignments keep an object free of duplicate keys. */
  lemma {:induction false} ApplyDistinct(fs: seq<Field>, steps: seq<Step>)
    requires DistinctKeys(fs)
    ensures DistinctKeys(Apply(fs, steps))
    decreases |steps|
  {
    if steps != [] {
      var s := steps[0];
      if s.present { PutDistinct(fs, s.key, s.value); }
      ApplyDistinct(Assign(fs, s), steps[1..]);
    }
  }

  /** Guarded assignments of typed values keep every value typed. */
  lemma {:induction false} ApplyTyped(fs: seq<Field>, steps: seq<Step>)
    requires forall i | 0 <= i < |fs| :: Typed(fs[i].value)
    requires forall i | 0 <= i < |steps| :: Typed(steps[i].value)
    ensures forall i | 0 <= i < |Apply(fs, steps)| :: Typed(Apply(fs, steps)[i].value)
    decreases |steps|
  {
    if steps != [] {
      var s := steps[0];
      if s.present { PutTyped(fs, s.key, s.value); }
      ApplyTyped(Assign(fs, s), steps[1..]);
    }
  }

  /** The member `k` of an object, or `None` for any other value. */
  function Member(j: Json, k: string): Option<Json> {
    if j.JObject? then Get(j.fields, k) else None
  }

  /** The `@type` invariant of a JSON-LD document: every object, at every
      depth, carries its own `@type`. */
  predicate Typed(j: Json)
    decreases j
  {
    match j
    case JString(_) => true
    case JArray(items) => forall i | 0 <= i < |items| :: Typed(items[i])
    case JObject(fs) => "@type" in Keys(fs) && forall i | 0 <= i < |fs| :: Typed(fs[i].value)
  }
}
