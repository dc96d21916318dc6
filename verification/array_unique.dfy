/**
 `unique` of dataHandler/array.ts: removing duplicates from an array, either
 by value (through a `Set`) or by a key read from each item (through a plain
 object used as a seen-set, followed by a truthiness filter).
 */
module ArrayUnique {
  import opened Wrappers
  import opened Sequences

  /** What JavaScript decides about the items: whether an item is truthy, and
      the property key `String(item[name])` of a property read, `None` where the
      read throws (the item is null or undefined). */
  datatype Js<-T> = Js(truthy: T -> bool, prop: (T, string) -> Option<string>)

  /** The `key` argument: absent, a property name, or a function (`None` where it throws).
      A number returned by the function stands for its property-key string. */
  datatype KeySpec<-T> = NoKey | ByProp(name: string) | ByFn(f: T -> Option<string>)

  /** `fn(item)`: `item[key]` for a property name, `key(item)` for a function. */
  function ReadKey<T>(js: Js<T>, spec: KeySpec<T>, item: T): Option<string>
    requires !spec.NoKey?
  {
    match spec
    case ByProp(name) => js.prop(item, name)
    case ByFn(f) => f(item)
  }

  // ---------------------------------------------------------------------------
  // The dedup pass shared by both paths
  // ---------------------------------------------------------------------------

  /** One pass over items paired with their keys: an item is kept when its key
      has not been seen and it passes `ok`; its key is marked seen either way. */
  function Dedup<T, K>(ps: seq<(T, K)>, ok: T -> bool, seen: set<K>): (r: seq<(T, K)>)
    ensures |r| <= |ps|
    decreases |ps|
  {
    if |ps| == 0 then []
    else
      var keep := ps[0].1 !in seen && ok(ps[0].0);
      (if keep then [ps[0]] else []) + Dedup(ps[1..], ok, seen + {ps[0].1})
  }

  /** The reference: an item is kept exactly when it passes `ok` and its key is
      neither in `seen` nor the key of any EARLIER item, kept or not. */
  ghost function FirstWithKey<T, K>(ps: seq<(T, K)>, ok: T -> bool, seen: set<K>): seq<(T, K)>
    decreases |ps|
  {
    if |ps| == 0 then []
    else
      var n := |ps| - 1;
      var earlier := set j | 0 <= j < n :: ps[j].1;
      FirstWithKey(ps[..n], ok, seen) + (if ok(ps[n].0) && ps[n].1 !in seen && ps[n].1 !in earlier then [ps[n]] else [])
  }

  lemma {:induction false} FirstWithKeyCons<T, K>(ps: seq<(T, K)>, ok: T -> bool, seen: set<K>)
    requires |ps| > 0
    ensures FirstWithKey(ps, ok, seen)
         == (if ps[0].1 !in seen && ok(ps[0].0) then [ps[0]] else []) + FirstWithKey(ps[1..], ok, seen + {ps[0].1})
    decreases |ps|
  {
    var n := |ps| - 1;
    var head: seq<(T, K)> := if ps[0].1 !in seen && ok(ps[0].0) then [ps[0]] else [];
    if n == 0 {
      assert ps[..0] == [];
      assert ps[1..] == [];
    } else {
      FirstWithKeyCons(ps[..n], ok, seen);
      assert ps[..n][1..] == ps[1..][..n - 1];
      assert ps[..n][0] == ps[0];
      EarlierKeys(ps, n);
      assert ps[1..][n - 1] == ps[n];
    }
  }

  lemma EarlierKeys<T, K>(ps: seq<(T, K)>, n: nat)
    requires 0 < n < |ps|
    ensures (set j | 0 <= j < n :: ps[j].1) == {ps[0].1} + (set j | 0 <= j < n - 1 :: ps[1..][j].1)
  {
    var earlier := set j | 0 <= j < n :: ps[j].1;
    var earlier' := set j | 0 <= j < n - 1 :: ps[1..][j].1;
    forall j | 0 <= j < n
      ensures ps[j].1 in {ps[0].1} + earlier'
    {
      if j > 0 {
        assert ps[1..][j - 1] == ps[j];
      }
    }
    forall j | 0 <= j < n - 1
      ensures ps[1..][j].1 in earlier
    {
      assert ps[1..][j] == ps[j + 1];
    }
  }

  /** The pass keeps exactly the first item of each key that passes `ok`. */
  lemma {:induction false} DedupIsFirstWithKey<T, K>(ps: seq<(T, K)>, ok: T -> bool, seen: set<K>)
    ensures Dedup(ps, ok, seen) == FirstWithKey(ps, ok, seen)
    decreases |ps|
  {
    if |ps| > 0 {
      DedupIsFirstWithKey(ps[1..], ok, seen + {ps[0].1});
      FirstWithKeyCons(ps, ok, seen);
    }
  }

  /** The pass keeps items in their order, passing `ok`, with keys distinct and unseen. */
  lemma {:induction false} DedupShape<T, K>(ps: seq<(T, K)>, ok: T -> bool, seen: set<K>)
    ensures var r := Dedup(ps, ok, seen);
            && Subseq(r, ps)
            && (forall j :: 0 <= j < |r| ==> ok(r[j].0) && r[j].1 !in seen)
            && (forall j1, j2 :: 0 <= j1 < j2 < |r| ==> r[j1].1 != r[j2].1)
    decreases |ps|
  {
    if |ps| > 0 {
      var rest := Dedup(ps[1..], ok, seen + {ps[0].1});
      DedupShape(ps[1..], ok, seen + {ps[0].1});
      if ps[0].1 !in seen && ok(ps[0].0) {
        assert Dedup(ps, ok, seen) == [ps[0]] + rest;
        assert ([ps[0]] + rest)[1..] == rest;
      } else {
        assert Dedup(ps, ok, seen) == rest;
        SubseqSkip(rest, ps);
      }
    }
  }

  /** Items that already pass `ok` with distinct unseen keys all survive. */
  lemma {:induction false} DedupKeepsAll<T, K>(ps: seq<(T, K)>, ok: T -> bool, seen: set<K>)
    requires forall j :: 0 <= j < |ps| ==> ok(ps[j].0) && ps[j].1 !in seen
    requires forall j1, j2 :: 0 <= j1 < j2 < |ps| ==> ps[j1].1 != ps[j2].1
    ensures Dedup(ps, ok, seen) == ps
    decreases |ps|
  {
    if |ps| > 0 {
      forall j | 0 <= j < |ps[1..]|
        ensures ps[1..][j].1 !in seen + {ps[0].1}
      {
        assert ps[1..][j] == ps[j + 1];
      }
      DedupKeepsAll(ps[1..], ok, seen + {ps[0].1});
      assert ps == [ps[0]] + ps[1..];
    }
  }

  /** Running the pass again on its own output changes nothing. */
  lemma DedupIdempotent<T, K>(ps: seq<(T, K)>, ok: T -> bool)
    ensures Dedup(Dedup(ps, ok, {}), ok, {}) == Dedup(ps, ok, {})
  {
    DedupShape(ps, ok, {});
    DedupKeepsAll(Dedup(ps, ok, {}), ok, {});
  }

  // ---------------------------------------------------------------------------
  // `unique`
  // ---------------------------------------------------------------------------

  function Strip<T, K>(ps: seq<(T, K)>): (items: seq<T>)
    ensures |items| == |ps| && forall j :: 0 <= j < |ps| ==> items[j] == ps[j].0
  {
    seq(|ps|, j requires 0 <= j < |ps| => ps[j].0)
  }

  /** Each item paired with itself: the `Set` path compares the values. */
  function SelfKeyed<T>(s: seq<T>): (ps: seq<(T, T)>)
    ensures |ps| == |s| && forall j :: 0 <= j < |s| ==> ps[j] == (s[j], s[j])
  {
    seq(|s|, j requires 0 <= j < |s| => (s[j], s[j]))
  }

  /** The `map` reads the key of every item in order; the first read that throws ends the call. */
  function ReadKeys<T>(js: Js<T>, spec: KeySpec<T>, s: seq<T>): (r: Result<seq<(T, string)>>)
    requires !spec.NoKey?
    ensures r.Throws? <==> exists j :: 0 <= j < |s| && ReadKey(js, spec, s[j]).None?
    ensures r.Ok? ==> |r.value| == |s| && forall j :: 0 <= j < |s| ==> r.value[j] == (s[j], ReadKey(js, spec, s[j]).value)
    decreases |s|
  {
    if |s| == 0 then Ok([])
    else
      match ReadKey(js, spec, s[0])
      case None => Throws("TypeError: cannot read properties of " + "null or undefined")
      case Some(k) =>
        var rest := ReadKeys(js, spec, s[1..]);
        assert forall j :: 1 <= j < |s| ==> s[j] == s[1..][j - 1];
        if rest.Throws? then rest else Ok([(s[0], k)] + rest.value)
  }

  /** The key names every plain object inherits from `Object.prototype`: `obj[name]` is truthy for each. */
  const ProtoNames: set<string> := {
    "constructor", "__defineGetter__", "__defineSetter__", "hasOwnProperty",
    "__lookupGetter__", "__lookupSetter__", "isPrototypeOf", "propertyIsEnumerable",
    "toString", "valueOf", "__proto__", "toLocaleString"
  }

  /** `unique(arr, key)` with the seen-set starting from `seen`. */
  function UniqueFrom<T(==)>(js: Js<T>, arr: Option<seq<T>>, spec: KeySpec<T>, seen: set<string>): Result<Option<seq<T>>>
  {
    match arr
    case None => Ok(None)
    case Some(s) =>
      if spec.NoKey? then Ok(Some(Strip(Dedup(SelfKeyed(s), _ => true, {}))))
      else
        match ReadKeys(js, spec, s)
        case Throws(m) => Throws(m)
        case Ok(ps) => Ok(Some(Strip(Dedup(ps, js.truthy, seen))))
  }

  /** `unique` as written: `obj = {}` already answers truthy for every name in `ProtoNames`. */
  function UniqueAsWritten<T(==)>(js: Js<T>, arr: Option<seq<T>>, spec: KeySpec<T>): Result<Option<seq<T>>>
  {
    UniqueFrom(js, arr, spec, ProtoNames)
  }

  /** `unique` as intended: the seen-set starts empty (as with `Object.create(null)` or a `Set`). */
  function Unique<T(==)>(js: Js<T>, arr: Option<seq<T>>, spec: KeySpec<T>): (r: Result<Option<seq<T>>>)
    ensures arr.None? ==> r == Ok(None)
    ensures r.Ok? && r.value.Some? ==> arr.Some? && |r.value.value| <= |arr.value|
  {
    UniqueFrom(js, arr, spec, {})
  }

  // ---------------------------------------------------------------------------
  // What `unique` returns
  // ---------------------------------------------------------------------------

  /** Without a key: the first occurrence of every value, in order, falsy values included. */
  lemma {:induction false} ByValue<T>(js: Js<T>, s: seq<T>)
    ensures Unique(js, Some(s), NoKey).Ok?
    ensures var r := Unique(js, Some(s), NoKey).value.value;
            && Subseq(r, s)
            && (forall x :: x in s <==> x in r)
            && (forall j1, j2 :: 0 <= j1 < j2 < |r| ==> r[j1] != r[j2])
            && r == Strip(FirstWithKey(SelfKeyed(s), _ => true, {}))
  {
    var ps := Dedup(SelfKeyed(s), _ => true, {});
    DedupShape(SelfKeyed(s), _ => true, {});
    DedupIsFirstWithKey(SelfKeyed(s), _ => true, {});
    StripSubseq(ps, SelfKeyed(s));
    assert Strip(SelfKeyed(s)) == s;
    SelfKeyedKept(s, ps);
    forall x | x in s
      ensures x in Strip(ps)
    {
      var j :| 0 <= j < |s| && s[j] == x;
      DedupCovers(SelfKeyed(s), _ => true, {}, j);
    }
    forall x | x in Strip(ps)
      ensures x in s
    {
      SubseqIn(Strip(ps), s, x);
    }
  }

  /** With a key: the call throws exactly when reading some item's key throws;
      otherwise it keeps, in order, exactly the truthy items whose key no EARLIER
      item had, so no two kept items share a key. */
  lemma ByKey<T>(js: Js<T>, s: seq<T>, spec: KeySpec<T>)
    requires !spec.NoKey?
    ensures Unique(js, Some(s), spec).Throws? <==> exists j :: 0 <= j < |s| && ReadKey(js, spec, s[j]).None?
    ensures Unique(js, Some(s), spec).Ok? ==>
              var ps := ReadKeys(js, spec, s).value;
              var r := Unique(js, Some(s), spec).value.value;
              && r == Strip(FirstWithKey(ps, js.truthy, {}))
              && Subseq(r, s)
              && (forall j :: 0 <= j < |r| ==> js.truthy(r[j]))
              && (forall j1, j2 :: 0 <= j1 < j2 < |r| ==> ReadKey(js, spec, r[j1]) != ReadKey(js, spec, r[j2]))
  {
    var rk := ReadKeys(js, spec, s);
    if rk.Ok? {
      var ps := rk.value;
      var d := Dedup(ps, js.truthy, {});
      DedupIsFirstWithKey(ps, js.truthy, {});
      DedupShape(ps, js.truthy, {});
      StripSubseq(d, ps);
      assert Strip(ps) == s;
      KeptKeysRead(js, spec, s, d);
    }
  }

  /** Calling `unique` again on its own result changes nothing. */
  lemma Idempotent<T>(js: Js<T>, arr: Option<seq<T>>, spec: KeySpec<T>)
    requires Unique(js, arr, spec).Ok?
    ensures Unique(js, Unique(js, arr, spec).value, spec) == Unique(js, arr, spec)
  {
    if arr.Some? {
      if spec.NoKey? {
        IdempotentByValue(js, arr.value);
      } else {
        IdempotentByKey(js, arr.value, spec, {});
      }
    }
  }

  lemma IdempotentByValue<T>(js: Js<T>, s: seq<T>)
    ensures var r := Strip(Dedup(SelfKeyed(s), _ => true, {}));
            Strip(Dedup(SelfKeyed(r), _ => true, {})) == r
  {
    var d := Dedup(SelfKeyed(s), _ => true, {});
    DedupShape(SelfKeyed(s), _ => true, {});
    SelfKeyedKept(s, d);
    assert SelfKeyed(Strip(d)) == d;
    DedupKeepsAll(d, _ => true, {});
  }

  lemma IdempotentByKey<T>(js: Js<T>, s: seq<T>, spec: KeySpec<T>, seen: set<string>)
    requires !spec.NoKey? && ReadKeys(js, spec, s).Ok?
    ensures var d := Dedup(ReadKeys(js, spec, s).value, js.truthy, seen);
            ReadKeys(js, spec, Strip(d)) == Ok(d) && Dedup(d, js.truthy, seen) == d
  {
    var ps := ReadKeys(js, spec, s).value;
    var d := Dedup(ps, js.truthy, seen);
    DedupShape(ps, js.truthy, seen);
    KeptKeysRead(js, spec, s, d);
    ReadKeysAgain(js, spec, d);
    DedupKeepsAll(d, js.truthy, seen);
  }

  /** What the keyed path keeps still carries the key read from it. */
  lemma KeptKeysRead<T>(js: Js<T>, spec: KeySpec<T>, s: seq<T>, d: seq<(T, string)>)
    requires !spec.NoKey? && ReadKeys(js, spec, s).Ok? && Subseq(d, ReadKeys(js, spec, s).value)
    ensures forall j :: 0 <= j < |d| ==> ReadKey(js, spec, d[j].0) == Some(d[j].1)
  {
    forall j | 0 <= j < |d|
      ensures ReadKey(js, spec, d[j].0) == Some(d[j].1)
    {
      SubseqAll(d, ReadKeys(js, spec, s).value, j, (p: (T, string)) => ReadKey(js, spec, p.0) == Some(p.1));
    }
  }

  lemma ReadKeysAgain<T>(js: Js<T>, spec: KeySpec<T>, d: seq<(T, string)>)
    requires !spec.NoKey? && forall j :: 0 <= j < |d| ==> ReadKey(js, spec, d[j].0) == Some(d[j].1)
    ensures ReadKeys(js, spec, Strip(d)) == Ok(d)
  {
    var again := ReadKeys(js, spec, Strip(d));
    assert again.Ok?;
    assert again.value == d;
  }

  // ---------------------------------------------------------------------------
  // Subsequence facts
  // ---------------------------------------------------------------------------

  lemma {:induction false} StripSubseq<T, K>(a: seq<(T, K)>, b: seq<(T, K)>)
    requires Subseq(a, b)
    ensures Subseq(Strip(a), Strip(b))
    decreases |b|
  {
    if |a| > 0 && |b| > 0 {
      if a[0] == b[0] && Subseq(a[1..], b[1..]) {
        StripSubseq(a[1..], b[1..]);
        assert Strip(a)[1..] == Strip(a[1..]) && Strip(b)[1..] == Strip(b[1..]);
      } else {
        StripSubseq(a, b[1..]);
        assert Strip(b)[1..] == Strip(b[1..]);
      }
    }
  }

  /** What the `Set` path keeps still pairs each value with itself. */
  lemma SelfKeyedKept<T>(s: seq<T>, d: seq<(T, T)>)
    requires Subseq(d, SelfKeyed(s))
    ensures forall j :: 0 <= j < |d| ==> d[j].0 == d[j].1
  {
    forall j | 0 <= j < |d|
      ensures d[j].0 == d[j].1
    {
      SubseqAll(d, SelfKeyed(s), j, (p: (T, T)) => p.0 == p.1);
    }
  }

  /** The key of every item, kept or not, ends up among the keys of the kept items or of `seen`. */
  lemma {:induction false} DedupCovers<T>(ps: seq<(T, T)>, ok: T -> bool, seen: set<T>, j: nat)
    requires j < |ps| && forall i :: 0 <= i < |ps| ==> ok(ps[i].0) && ps[i].0 == ps[i].1
    ensures ps[j].1 in seen || exists i :: 0 <= i < |Dedup(ps, ok, seen)| && Dedup(ps, ok, seen)[i].1 == ps[j].1
    decreases |ps|
  {
    var rest := Dedup(ps[1..], ok, seen + {ps[0].1});
    var head: seq<(T, T)> := if ps[0].1 !in seen && ok(ps[0].0) then [ps[0]] else [];
    assert Dedup(ps, ok, seen) == head + rest;
    if j == 0 {
      if ps[0].1 !in seen {
        assert Dedup(ps, ok, seen)[0].1 == ps[0].1;
      }
    } else {
      assert ps[1..][j - 1] == ps[j];
      DedupCovers(ps[1..], ok, seen + {ps[0].1}, j - 1);
      if ps[j].1 !in seen && ps[j].1 != ps[0].1 {
        var i :| 0 <= i < |rest| && rest[i].1 == ps[j].1;
        assert Dedup(ps, ok, seen)[|head| + i] == rest[i];
      } else if ps[j].1 == ps[0].1 && ps[0].1 !in seen {
        assert Dedup(ps, ok, seen)[0].1 == ps[j].1;
      }
    }
  }

  // ---------------------------------------------------------------------------
  // The inherited-names discrepancy
  // ---------------------------------------------------------------------------

  /** As written, an item whose key is an inherited name is never kept. */
  lemma AsWrittenDropsProtoNames<T>(js: Js<T>, s: seq<T>, spec: KeySpec<T>)
    requires !spec.NoKey? && UniqueAsWritten(js, Some(s), spec).Ok?
    ensures var r := UniqueAsWritten(js, Some(s), spec).value.value;
            forall j :: 0 <= j < |r| ==> ReadKey(js, spec, r[j]).Some? && ReadKey(js, spec, r[j]).value !in ProtoNames
  {
    var ps := ReadKeys(js, spec, s).value;
    var d := Dedup(ps, js.truthy, ProtoNames);
    DedupShape(ps, js.truthy, ProtoNames);
    KeptKeysRead(js, spec, s, d);
  }

  /** As written, `unique` still throws exactly when a key read throws, and
      otherwise keeps, in order, exactly the truthy items whose key is neither an
      inherited name nor the key of an EARLIER item; without a key it is the
      corrected `unique`. */
  lemma AsWrittenShape<T>(js: Js<T>, s: seq<T>, spec: KeySpec<T>)
    ensures UniqueAsWritten(js, Some(s), NoKey) == Unique(js, Some(s), NoKey)
    ensures !spec.NoKey? ==>
              (UniqueAsWritten(js, Some(s), spec).Throws? <==> exists j :: 0 <= j < |s| && ReadKey(js, spec, s[j]).None?)
    ensures !spec.NoKey? && UniqueAsWritten(js, Some(s), spec).Ok? ==>
              var ps := ReadKeys(js, spec, s).value;
              var r := UniqueAsWritten(js, Some(s), spec).value.value;
              && r == Strip(FirstWithKey(ps, js.truthy, ProtoNames))
              && Subseq(r, s)
              && (forall j :: 0 <= j < |r| ==> js.truthy(r[j]))
              && (forall j1, j2 :: 0 <= j1 < j2 < |r| ==> ReadKey(js, spec, r[j1]) != ReadKey(js, spec, r[j2]))
  {
    if !spec.NoKey? {
      var rk := ReadKeys(js, spec, s);
      if rk.Ok? {
        var ps := rk.value;
        var d := Dedup(ps, js.truthy, ProtoNames);
        DedupIsFirstWithKey(ps, js.truthy, ProtoNames);
        DedupShape(ps, js.truthy, ProtoNames);
        StripSubseq(d, ps);
        assert Strip(ps) == s;
        KeptKeysRead(js, spec, s, d);
      }
    }
  }

  /** As written, calling `unique` again on its own result changes nothing either. */
  lemma AsWrittenIdempotent<T>(js: Js<T>, arr: Option<seq<T>>, spec: KeySpec<T>)
    requires UniqueAsWritten(js, arr, spec).Ok?
    ensures UniqueAsWritten(js, UniqueAsWritten(js, arr, spec).value, spec) == UniqueAsWritten(js, arr, spec)
  {
    if arr.Some? {
      if spec.NoKey? {
        IdempotentByValue(js, arr.value);
      } else {
        IdempotentByKey(js, arr.value, spec, ProtoNames);
      }
    }
  }

  /** When no item's key is an inherited name, `unique` as written returns what
      the corrected `unique` returns. */
  lemma AsWrittenAgrees<T>(js: Js<T>, arr: Option<seq<T>>, spec: KeySpec<T>)
    requires forall x :: !spec.NoKey? && arr.Some? && x in arr.value && ReadKey(js, spec, x).Some? ==>
               ReadKey(js, spec, x).value !in ProtoNames
    ensures UniqueAsWritten(js, arr, spec) == Unique(js, arr, spec)
  {
    if arr.Some? && !spec.NoKey? {
      var s := arr.value;
      var rk := ReadKeys(js, spec, s);
      if rk.Ok? {
        var ps := rk.value;
        forall j | 0 <= j < |ps|
          ensures ps[j].1 !in ProtoNames
        {
          assert s[j] in s;
        }
        AgreeWithoutProtoNames(ps, js.truthy, {});
        assert {} + ProtoNames == ProtoNames;
      }
    }
  }

  /** JavaScript's view of strings: the empty string is falsy. */
  function NonEmpty(x: string): bool { x != "" }

  /** A key function that returns the item itself. */
  function ItselfKey(x: string): Option<string> { Some(x) }

  /** Strings as items: a property read yields undefined, whose key string is "undefined". */
  function StringProp(x: string, name: string): Option<string> { Some("undefined") }

  /** A single truthy item keyed "constructor": as written it is dropped, as intended it is kept. */
  lemma ConstructorKeyCounterexample()
    ensures UniqueAsWritten(Js(NonEmpty, StringProp), Some(["constructor"]), ByFn(ItselfKey)) == Ok(Some([]))
    ensures Unique(Js(NonEmpty, StringProp), Some(["constructor"]), ByFn(ItselfKey)) == Ok(Some(["constructor"]))
  {
    var js := Js(NonEmpty, StringProp);
    var spec := ByFn(ItselfKey);
    var ps := ReadKeys(js, spec, ["constructor"]).value;
    assert ps == [("constructor", "constructor")];
    assert "constructor" in ProtoNames;
    assert ps[1..] == [];
    assert Dedup(ps, js.truthy, ProtoNames) == [];
    assert Dedup(ps, js.truthy, {}) == ps;
    assert Strip(ps) == ["constructor"];
  }

  /** When no key is an inherited name, the code as written and as intended agree. */
  lemma {:induction false} AgreeWithoutProtoNames<T>(ps: seq<(T, string)>, ok: T -> bool, seen: set<string>)
    requires forall j :: 0 <= j < |ps| ==> ps[j].1 !in ProtoNames
    ensures Dedup(ps, ok, seen + ProtoNames) == Dedup(ps, ok, seen)
    decreases |ps|
  {
    if |ps| > 0 {
      forall j | 0 <= j < |ps[1..]|
        ensures ps[1..][j].1 !in ProtoNames
      {
        assert ps[1..][j] == ps[j + 1];
      }
      AgreeWithoutProtoNames(ps[1..], ok, seen + {ps[0].1});
      assert seen + ProtoNames + {ps[0].1} == seen + {ps[0].1} + ProtoNames;
    }
  }
}
