/**
 `cleanObj` of dataHandler/object.ts: a shallow copy of an object without the
 properties whose value is `undefined`, an empty array or an empty plain object.
 */
module ObjectClean {
  import opened Sequences

  /** A JavaScript value as far as `cleanObj` can tell values apart. An object
      carries the tag `Object.prototype.toString` reports for it ("Object" for
      plain objects and class instances, "Date", "Map", ... for built-ins) and
      its own enumerable properties in `Object.keys` order. */
  datatype Value =
    | Undefined
    | Null
    | Bool(b: bool)
    | Num(n: int)
    | Str(s: string)
    | Arr(items: seq<Value>)
    | Obj(tag: string, props: seq<(string, Value)>)

  type Props = seq<(string, Value)>

  /** The property name whose assignment changes an object's prototype instead of adding an own property. */
  const ProtoKey: string := "__proto__"

  function KeySet(props: Props): set<string>
  {
    set j | 0 <= j < |props| :: props[j].0
  }

  /** Own property names are unique, as `Object.keys` reports them. */
  ghost predicate DistinctKeys(props: Props)
  {
    forall j1, j2 :: 0 <= j1 < j2 < |props| ==> props[j1].0 != props[j2].0
  }

  /** `acc[key] = value` on an ordinary object: an existing property keeps its
      place and takes the new value, a new one is added last; assigning to
      `__proto__` leaves the own properties as they are. */
  function Assign(acc: Props, key: string, value: Value): (r: Props)
    ensures key == ProtoKey ==> r == acc
    ensures key != ProtoKey && key !in KeySet(acc) ==> r == acc + [(key, value)]
    ensures key != ProtoKey && key in KeySet(acc) ==>
              |r| == |acc| && forall j :: 0 <= j < |acc| ==> r[j] == (if acc[j].0 == key then (key, value) else acc[j])
  {
    if key == ProtoKey then acc else Overwrite(acc, key, value)
  }

  function Overwrite(acc: Props, key: string, value: Value): (r: Props)
    ensures key !in KeySet(acc) ==> r == acc + [(key, value)]
    ensures key in KeySet(acc) ==>
              |r| == |acc| && forall j :: 0 <= j < |acc| ==> r[j] == (if acc[j].0 == key then (key, value) else acc[j])
    decreases |acc|
  {
    if |acc| == 0 then [(key, value)]
    else
      var rest := Overwrite(acc[1..], key, value);
      assert KeySet(acc) == {acc[0].0} + KeySet(acc[1..]) by {
        assert forall j :: 1 <= j < |acc| ==> acc[j] == acc[1..][j - 1];
      }
      assert forall j :: 1 <= j < |acc| ==> acc[j] == acc[1..][j - 1];
      if acc[0].0 == key then [(key, value)] + (if key in KeySet(acc[1..]) then rest else acc[1..])
      else [acc[0]] + rest
  }

  /** The values `cleanObj` leaves out: `undefined`, `[]`, and a plain object with no own enumerable keys. */
  predicate Omitted(v: Value)
  {
    || v.Undefined?
    || (v.Arr? && |v.items| == 0)
    || (v.Obj? && v.tag == "Object" && |v.props| == 0)
  }

  /** The `reduce` callback for one `[key, obj[key]]` entry. */
  function Reducer(acc: Props, entry: (string, Value)): Props
  {
    if Omitted(entry.1) then acc else Assign(acc, entry.0, entry.1)
  }

  function Reduce(entries: Props, acc: Props): Props
    decreases |entries|
  {
    if |entries| == 0 then acc else Reduce(entries[1..], Reducer(acc, entries[0]))
  }

  /** `cleanObj(obj)`, given the own enumerable properties of `obj` in `Object.keys` order. */
  function CleanObj(entries: Props): Props
  {
    Reduce(entries, [])
  }

  // ---------------------------------------------------------------------------
  // The reference: a filter over the entries
  // ---------------------------------------------------------------------------

  /** The entries that become own properties of the result: not omitted, and not named `__proto__`. */
  function Keep(entries: Props): (r: Props)
    decreases |entries|
  {
    if |entries| == 0 then []
    else (if Omitted(entries[0].1) || entries[0].0 == ProtoKey then [] else [entries[0]]) + Keep(entries[1..])
  }

  lemma {:induction false} KeepShape(entries: Props)
    ensures Subseq(Keep(entries), entries)
    ensures forall j :: 0 <= j < |Keep(entries)| ==> !Omitted(Keep(entries)[j].1) && Keep(entries)[j].0 != ProtoKey
    ensures KeySet(Keep(entries)) <= KeySet(entries)
    decreases |entries|
  {
    if |entries| > 0 {
      var rest := Keep(entries[1..]);
      KeepShape(entries[1..]);
      assert forall j :: 1 <= j < |entries| ==> entries[j] == entries[1..][j - 1];
      assert KeySet(entries[1..]) <= KeySet(entries);
      if Omitted(entries[0].1) || entries[0].0 == ProtoKey {
        assert Keep(entries) == rest;
        SubseqSkip(rest, entries);
      } else {
        assert ([entries[0]] + rest)[1..] == rest;
        assert forall j :: 1 <= j < |[entries[0]] + rest| ==> ([entries[0]] + rest)[j] == rest[j - 1];
      }
    }
  }

  /** The reference keeps an entry exactly when its value is not omitted and its name is not `__proto__`. */
  lemma {:induction false} KeepIff(entries: Props, p: (string, Value))
    ensures p in Keep(entries) <==> p in entries && !Omitted(p.1) && p.0 != ProtoKey
    decreases |entries|
  {
    if |entries| > 0 {
      KeepIff(entries[1..], p);
      assert entries == [entries[0]] + entries[1..];
    }
  }

  lemma {:induction false} KeepDistinct(entries: Props)
    requires DistinctKeys(entries)
    ensures DistinctKeys(Keep(entries))
    decreases |entries|
  {
    if |entries| > 0 {
      var rest := Keep(entries[1..]);
      assert forall j :: 1 <= j < |entries| ==> entries[j] == entries[1..][j - 1];
      KeepDistinct(entries[1..]);
      KeepShape(entries[1..]);
      assert entries[0].0 !in KeySet(entries[1..]);
      if !(Omitted(entries[0].1) || entries[0].0 == ProtoKey) {
        var r := [entries[0]] + rest;
        forall j1, j2 | 0 <= j1 < j2 < |r|
          ensures r[j1].0 != r[j2].0
        {
          assert r[j2] == rest[j2 - 1];
          if j1 > 0 {
            assert r[j1] == rest[j1 - 1];
          } else {
            assert rest[j2 - 1].0 in KeySet(rest);
          }
        }
      }
    }
  }

  /** Filtering twice is filtering once. */
  lemma {:induction false} KeepKeep(entries: Props)
    ensures Keep(Keep(entries)) == Keep(entries)
    decreases |entries|
  {
    if |entries| > 0 {
      KeepKeep(entries[1..]);
      var rest := Keep(entries[1..]);
      if !(Omitted(entries[0].1) || entries[0].0 == ProtoKey) {
        assert Keep(entries) == [entries[0]] + rest;
        assert ([entries[0]] + rest)[0] == entries[0];
        assert ([entries[0]] + rest)[1..] == rest;
      } else {
        assert Keep(entries) == rest;
      }
    }
  }

  /** Folding the callback over the entries appends exactly the kept entries to
      the accumulator, when no entry's name is already a property of it. */
  lemma {:induction false} ReduceIsKeep(entries: Props, acc: Props)
    requires DistinctKeys(entries)
    requires forall j :: 0 <= j < |entries| ==> entries[j].0 !in KeySet(acc)
    ensures Reduce(entries, acc) == acc + Keep(entries)
    decreases |entries|
  {
    if |entries| > 0 {
      var acc' := Reducer(acc, entries[0]);
      RestFresh(entries, acc);
      ReduceIsKeep(entries[1..], acc');
      ReducerStep(acc, entries[0]);
      var head: Props := if Omitted(entries[0].1) || entries[0].0 == ProtoKey then [] else [entries[0]];
      assert Keep(entries) == head + Keep(entries[1..]);
      ConcatAssoc(acc, head, Keep(entries[1..]));
    }
  }

  /** After the first callback, the remaining names are still distinct and new to the accumulator. */
  lemma RestFresh(entries: Props, acc: Props)
    requires |entries| > 0 && DistinctKeys(entries)
    requires forall j :: 0 <= j < |entries| ==> entries[j].0 !in KeySet(acc)
    ensures DistinctKeys(entries[1..])
    ensures forall j :: 0 <= j < |entries[1..]| ==> entries[1..][j].0 !in KeySet(Reducer(acc, entries[0]))
  {
    ReducerStep(acc, entries[0]);
    assert forall j :: 1 <= j < |entries| ==> entries[j] == entries[1..][j - 1];
    assert forall j :: 0 <= j < |entries[1..]| ==> entries[1..][j].0 != entries[0].0;
  }

  /** One callback with a name the accumulator does not have yet appends the entry or skips it. */
  lemma ReducerStep(acc: Props, entry: (string, Value))
    requires entry.0 !in KeySet(acc)
    ensures Reducer(acc, entry) == acc + (if Omitted(entry.1) || entry.0 == ProtoKey then [] else [entry])
    ensures KeySet(Reducer(acc, entry)) <= KeySet(acc) + {entry.0}
  {
    if !(Omitted(entry.1) || entry.0 == ProtoKey) {
      var r := acc + [entry];
      assert forall j :: 0 <= j < |acc| ==> r[j] == acc[j];
      assert r[|acc|] == entry;
    }
  }

  // ---------------------------------------------------------------------------
  // What `cleanObj` returns
  // ---------------------------------------------------------------------------

  /** `cleanObj` is the filter over the entries: the kept properties keep their
      order and their values, and no name appears twice. */
  lemma CleanIsKeep(entries: Props)
    requires DistinctKeys(entries)
    ensures CleanObj(entries) == Keep(entries)
    ensures Subseq(CleanObj(entries), entries)
    ensures DistinctKeys(CleanObj(entries))
  {
    ReduceIsKeep(entries, []);
    KeepShape(entries);
    KeepDistinct(entries);
  }

  /** A property survives exactly when its value is neither `undefined`, `[]`
      nor an empty plain object (and its name is not `__proto__`), with its value unchanged. */
  lemma CleanKeeps(entries: Props, key: string, value: Value)
    requires DistinctKeys(entries)
    ensures (key, value) in CleanObj(entries) <==> (key, value) in entries && !Omitted(value) && key != ProtoKey
  {
    CleanIsKeep(entries);
    KeepIff(entries, (key, value));
  }

  /** Cleaning an already cleaned object changes nothing. */
  lemma CleanIdempotent(entries: Props)
    requires DistinctKeys(entries)
    ensures CleanObj(CleanObj(entries)) == CleanObj(entries)
  {
    CleanIsKeep(entries);
    CleanIsKeep(Keep(entries));
    KeepKeep(entries);
  }

  /** Falsy values other than `undefined`, non-empty arrays, and empty objects
      that are not plain (a `Date`, a `Map`) all survive. */
  lemma KeptValues(key: string, v: Value)
    requires key != ProtoKey
    requires v.Null? || v.Bool? || v.Num? || v.Str? || (v.Arr? && |v.items| > 0) || (v.Obj? && (v.tag != "Object" || |v.props| > 0))
    ensures CleanObj([(key, v)]) == [(key, v)]
  {
    ReduceIsKeep([(key, v)], []);
    assert [(key, v)][1..] == [];
  }
}
