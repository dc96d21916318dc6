/**
 The query-string helpers of utils/url.ts: building `k=v&k=v` from an object,
 appending it to a URL with the right connector, and parsing a URL's query back
 into a key -> value table.

 `encodeURIComponent` and `decodeURIComponent` are parameters (`Codec`); the
 round trip assumes only that decoding undoes encoding and that encoding
 escapes the three delimiters.
 */
module Url {
  import opened Wrappers

  /** The two percent-encoding functions; `decode` yields `None` where
      `decodeURIComponent` throws a URIError (a malformed escape). */
  datatype Codec = Codec(encode: string -> string, decode: string -> Option<string>)

  ghost predicate Inverse(c: Codec)
  {
    forall s :: c.decode(c.encode(s)) == Some(s)
  }

  /** `encodeURIComponent` escapes `?`, `&` and `=`. */
  ghost predicate EscapesDelimiters(c: Codec)
  {
    forall s :: '?' !in c.encode(s) && '&' !in c.encode(s) && '=' !in c.encode(s)
  }

  // ---------------------------------------------------------------------------
  // `String.prototype.split` and `Array.prototype.join` on one character
  // ---------------------------------------------------------------------------

  /** `s.split(c)`: the maximal pieces between occurrences of `c`; always at least one. */
  function Split(s: string, c: char): (parts: seq<string>)
    ensures |parts| >= 1
    ensures forall j :: 0 <= j < |parts| ==> c !in parts[j]
    decreases |s|
  {
    if |s| == 0 then [""]
    else if s[0] == c then [""] + Split(s[1..], c)
    else
      var rest := Split(s[1..], c);
      [[s[0]] + rest[0]] + rest[1..]
  }

  /** `parts.join(c)`; the empty list joins to the empty string. */
  function Join(parts: seq<string>, c: char): string
  {
    if |parts| == 0 then ""
    else if |parts| == 1 then parts[0]
    else parts[0] + [c] + Join(parts[1..], c)
  }

  /** Joining the pieces gives back the string. */
  lemma {:induction false} SplitJoin(s: string, c: char)
    ensures Join(Split(s, c), c) == s
    decreases |s|
  {
    if |s| == 0 {
    } else if s[0] == c {
      SplitJoin(s[1..], c);
      JoinCons("", Split(s[1..], c), c);
      assert s == [c] + s[1..];
    } else {
      var rest := Split(s[1..], c);
      SplitJoin(s[1..], c);
      if |rest| == 1 {
        assert s == [s[0]] + s[1..];
      } else {
        assert Join(rest, c) == rest[0] + [c] + Join(rest[1..], c);
        assert s == [s[0]] + s[1..];
      }
    }
  }

  lemma JoinCons(p: string, ps: seq<string>, c: char)
    requires |ps| >= 1
    ensures Join([p] + ps, c) == p + [c] + Join(ps, c)
  {
    assert ([p] + ps)[1..] == ps;
  }

  /** Splitting a join of delimiter-free pieces gives back the pieces. */
  lemma {:induction false} JoinSplit(parts: seq<string>, c: char)
    requires |parts| >= 1
    requires forall j :: 0 <= j < |parts| ==> c !in parts[j]
    ensures Split(Join(parts, c), c) == parts
    decreases |parts|
  {
    if |parts| == 1 {
      SplitFree(parts[0], c);
    } else {
      JoinSplit(parts[1..], c);
      SplitAround(parts[0], Join(parts[1..], c), c);
      assert parts == [parts[0]] + parts[1..];
    }
  }

  /** A string without `c` splits into itself. */
  lemma {:induction false} SplitFree(s: string, c: char)
    requires c !in s
    ensures Split(s, c) == [s]
    decreases |s|
  {
    if |s| > 0 {
      SplitFree(s[1..], c);
      assert s == [s[0]] + s[1..];
    }
  }

  /** Splitting at the first `c`: the piece before it, then the pieces of the rest. */
  lemma {:induction false} SplitAround(a: string, b: string, c: char)
    requires c !in a
    ensures Split(a + [c] + b, c) == [a] + Split(b, c)
    decreases |a|
  {
    var s := a + [c] + b;
    if |a| == 0 {
      assert s[1..] == b;
    } else {
      SplitAround(a[1..], b, c);
      assert s[1..] == a[1..] + [c] + b;
      assert [a[0]] + a[1..] == a;
    }
  }

  // ---------------------------------------------------------------------------
  // `objToUrlParamString` and `extendUrl`
  // ---------------------------------------------------------------------------

  /** One `key=encodeURIComponent(value)` item; the key is not encoded. */
  function Item(c: Codec, key: string, value: string): string
  {
    key + "=" + c.encode(value)
  }

  function Items(c: Codec, params: seq<(string, string)>): (items: seq<string>)
    ensures |items| == |params|
    ensures forall j :: 0 <= j < |params| ==> items[j] == Item(c, params[j].0, params[j].1)
  {
    seq(|params|, j requires 0 <= j < |params| => Item(c, params[j].0, params[j].1))
  }

  /** `objToUrlParamString`: the object's entries, in `Object.keys` order, as `k=v` joined by `&`. */
  function ParamString(c: Codec, params: seq<(string, string)>): (s: string)
    ensures params == [] ==> s == ""
  {
    Join(Items(c, params), '&')
  }

  /** When keys and encoded values are free of `&`, the string splits back into its items. */
  lemma ParamStringItems(c: Codec, params: seq<(string, string)>)
    requires params != [] && EscapesDelimiters(c) && NoDelimiters(params)
    ensures Split(ParamString(c, params), '&') == Items(c, params)
  {
    ItemsFree(c, params);
    JoinSplit(Items(c, params), '&');
  }

  /** No key contains a delimiter of the query syntax. */
  ghost predicate NoDelimiters(params: seq<(string, string)>)
  {
    forall j :: 0 <= j < |params| ==> '?' !in params[j].0 && '&' !in params[j].0 && '=' !in params[j].0
  }

  lemma ItemsFree(c: Codec, params: seq<(string, string)>)
    requires EscapesDelimiters(c) && NoDelimiters(params)
    ensures forall j :: 0 <= j < |params| ==> '&' !in Items(c, params)[j] && '?' !in Items(c, params)[j]
  {
    forall j | 0 <= j < |params|
      ensures '&' !in Items(c, params)[j] && '?' !in Items(c, params)[j]
    {
      var k, v := params[j].0, c.encode(params[j].1);
      assert '&' !in v && '?' !in v;
      assert Items(c, params)[j] == k + "=" + v;
    }
  }

  /** `extendUrl`: `&` when the URL already has a query (a `?` anywhere), else `?`. */
  function ExtendUrl(c: Codec, url: string, params: seq<(string, string)>): (r: string)
    ensures r == url + [if '?' in url then '&' else '?'] + ParamString(c, params)
    ensures url <= r && |r| == |url| + 1 + |ParamString(c, params)|
  {
    var connector := if '?' in url then '&' else '?';
    url + [connector] + ParamString(c, params)
  }

  // ---------------------------------------------------------------------------
  // `getUrlParamsMap`
  // ---------------------------------------------------------------------------

  /** The text between the first and the second `?`, `None` when there is no `?`. */
  function QueryPart(url: string): Option<string>
  {
    var parts := Split(url, '?');
    if |parts| < 2 then None else Some(parts[1])
  }

  /** `const [key, value] = item.split("=")`: the text before the first `=` and
      between the first and second; a missing value is `undefined`, which
      `decodeURIComponent` reads as the string "undefined". */
  function KeyValue(item: string): (kv: (string, string))
  {
    var parts := Split(item, '=');
    (parts[0], if |parts| >= 2 then parts[1] else "undefined")
  }

  /** The `forEach` over the `&` items: each decoded value is stored under its
      key, a later key overwriting an earlier one. Assigning a string to
      `result["__proto__"]` changes nothing, so that key is skipped. A failing
      decode throws out of the whole call. */
  function Collect(c: Codec, items: seq<string>, acc: map<string, string>): (r: Result<map<string, string>>)
    ensures r.Throws? <==> exists j :: 0 <= j < |items| && c.decode(KeyValue(items[j]).1).None?
    ensures r.Ok? ==> acc.Keys - {"__proto__"} <= r.value.Keys
    decreases |items|
  {
    if |items| == 0 then Ok(acc)
    else
      var kv := KeyValue(items[0]);
      match c.decode(kv.1)
      case None => Throws("URIError: malformed URI sequence")
      case Some(v) =>
        var r := Collect(c, items[1..], if kv.0 == "__proto__" then acc else acc[kv.0 := v]);
        assert forall j :: 1 <= j < |items| ==> items[j] == items[1..][j - 1];
        assert forall j :: 0 <= j < |items| - 1 ==> items[1..][j] == items[j + 1];
        r
  }

  /** `getUrlParamsMap`. */
  function ParamsMap(c: Codec, url: string): Result<map<string, string>>
  {
    match QueryPart(url)
    case None => Ok(map[])
    case Some(q) => if q == "" then Ok(map[]) else Collect(c, Split(q, '&'), map[])
  }

  // ---------------------------------------------------------------------------
  // What the parser returns
  // ---------------------------------------------------------------------------

  /** The `(key, decoded value)` pairs of the items, in order, without "__proto__". */
  function Pairs(c: Codec, items: seq<string>): seq<(string, string)>
    requires forall j :: 0 <= j < |items| ==> c.decode(KeyValue(items[j]).1).Some?
    decreases |items|
  {
    if |items| == 0 then []
    else
      var kv := KeyValue(items[0]);
      var rest := Pairs(c, items[1..]);
      if kv.0 == "__proto__" then rest else [(kv.0, c.decode(kv.1).value)] + rest
  }

  /** When every value decodes, the table is the pairs laid over each other in
      order: each key maps to the value of its LAST item. */
  lemma {:induction false} CollectIsOverlay(c: Codec, items: seq<string>, acc: map<string, string>)
    requires forall j :: 0 <= j < |items| ==> c.decode(KeyValue(items[j]).1).Some?
    ensures Collect(c, items, acc) == Ok(Overlay(acc, Pairs(c, items)))
    decreases |items|
  {
    if |items| > 0 {
      var kv := KeyValue(items[0]);
      assert forall j :: 0 <= j < |items| - 1 ==> items[1..][j] == items[j + 1];
      CollectIsOverlay(c, items[1..], if kv.0 == "__proto__" then acc else acc[kv.0 := c.decode(kv.1).value]);
    }
  }

  /** No `?` or nothing after the first `?`: the empty table. */
  lemma NoQueryIsEmpty(c: Codec, url: string)
    requires QueryPart(url).None? || QueryPart(url) == Some("")
    ensures ParamsMap(c, url) == Ok(map[])
  {
  }

  /** The parse sees only the text between the first and the second `?`. */
  lemma {:induction false} OnlyFirstQuery(c: Codec, base: string, q: string, tail: string)
    requires '?' !in base && '?' !in q
    ensures ParamsMap(c, base + "?" + q + "?" + tail) == ParamsMap(c, base + "?" + q)
  {
    SplitAround(base, q + "?" + tail, '?');
    SplitAround(q, tail, '?');
    SplitAround(base, q, '?');
    SplitFree(q, '?');
    assert base + "?" + q + "?" + tail == base + ['?'] + (q + ['?'] + tail);
    assert base + "?" + q == base + ['?'] + q;
  }

  /** The table the params describe, a later key overwriting an earlier one. */
  function Overlay(acc: map<string, string>, params: seq<(string, string)>): map<string, string>
    decreases |params|
  {
    if |params| == 0 then acc else Overlay(acc[params[0].0 := params[0].1], params[1..])
  }

  /** The keys the params name. */
  ghost function KeySet(params: seq<(string, string)>): set<string>
  {
    set j | 0 <= j < |params| :: params[j].0
  }

  lemma KeySetCons(params: seq<(string, string)>)
    requires |params| > 0
    ensures KeySet(params) == {params[0].0} + KeySet(params[1..])
  {
    forall j | 0 <= j < |params|
      ensures params[j].0 in {params[0].0} + KeySet(params[1..])
    {
      if j > 0 {
        assert params[1..][j - 1] == params[j];
      }
    }
    forall j | 0 <= j < |params[1..]|
      ensures params[1..][j].0 in KeySet(params)
    {
      assert params[1..][j] == params[j + 1];
    }
  }

  /** With distinct keys, the table holds exactly the params. */
  lemma {:induction false} OverlayDistinct(acc: map<string, string>, params: seq<(string, string)>)
    requires forall j1, j2 :: 0 <= j1 < j2 < |params| ==> params[j1].0 != params[j2].0
    ensures var m := Overlay(acc, params);
            && m.Keys == acc.Keys + KeySet(params)
            && forall j :: 0 <= j < |params| ==> m[params[j].0] == params[j].1
    decreases |params|
  {
    if |params| > 0 {
      var acc' := acc[params[0].0 := params[0].1];
      OverlayDistinct(acc', params[1..]);
      var m := Overlay(acc', params[1..]);
      KeySetCons(params);
      forall j | 0 <= j < |params|
        ensures m[params[j].0] == params[j].1
      {
        if j == 0 {
          OverlayKeeps(acc', params[1..], params[0].0);
        } else {
          assert params[1..][j - 1] == params[j];
        }
      }
    }
  }

  /** A key the params never name keeps its value. */
  lemma {:induction false} OverlayKeeps(acc: map<string, string>, params: seq<(string, string)>, k: string)
    requires k in acc && forall j :: 0 <= j < |params| ==> params[j].0 != k
    ensures k in Overlay(acc, params) && Overlay(acc, params)[k] == acc[k]
    decreases |params|
  {
    if |params| > 0 {
      OverlayKeeps(acc[params[0].0 := params[0].1], params[1..], k);
    }
  }

  /** Collecting the items of the params decodes every value back. */
  lemma {:induction false} CollectItems(c: Codec, params: seq<(string, string)>, acc: map<string, string>)
    requires Inverse(c) && EscapesDelimiters(c) && NoDelimiters(params)
    requires forall j :: 0 <= j < |params| ==> params[j].0 != "__proto__"
    ensures Collect(c, Items(c, params), acc) == Ok(Overlay(acc, params))
    decreases |params|
  {
    if |params| > 0 {
      var k, v := params[0].0, params[0].1;
      var items := Items(c, params);
      assert '=' !in k && '=' !in c.encode(v);
      SplitAround(k, c.encode(v), '=');
      SplitFree(c.encode(v), '=');
      assert items[0] == k + ['='] + c.encode(v);
      assert KeyValue(items[0]) == (k, c.encode(v));
      assert items[1..] == Items(c, params[1..]);
      CollectItems(c, params[1..], acc[k := v]);
    }
  }

  /** The round trip: appending params to a URL without a query and parsing the
      result gives back exactly the params, provided keys are free of the
      delimiters, distinct and not "__proto__", and the codec inverts. */
  lemma RoundTrip(c: Codec, base: string, params: seq<(string, string)>)
    requires Inverse(c) && EscapesDelimiters(c)
    requires '?' !in base && NoDelimiters(params)
    requires forall j :: 0 <= j < |params| ==> params[j].0 != "__proto__"
    requires forall j1, j2 :: 0 <= j1 < j2 < |params| ==> params[j1].0 != params[j2].0
    ensures ParamsMap(c, ExtendUrl(c, base, params)).Ok?
    ensures var m := ParamsMap(c, ExtendUrl(c, base, params)).value;
            && m.Keys == KeySet(params)
            && forall j :: 0 <= j < |params| ==> m[params[j].0] == params[j].1
  {
    ExtendedQuery(c, base, params);
    OverlayDistinct(map[], params);
    if params != [] {
      ParamStringItems(c, params);
      CollectItems(c, params, map[]);
      assert ParamString(c, params) != "" by {
        assert Items(c, params)[0] == params[0].0 + "=" + c.encode(params[0].1);
      }
    }
  }

  /** The query part of the extended URL is exactly the param string. */
  lemma ExtendedQuery(c: Codec, base: string, params: seq<(string, string)>)
    requires EscapesDelimiters(c) && '?' !in base && NoDelimiters(params)
    ensures QueryPart(ExtendUrl(c, base, params)) == Some(ParamString(c, params))
  {
    var p := ParamString(c, params);
    ItemsFree(c, params);
    JoinFree(Items(c, params), '&', '?');
    SplitAround(base, p, '?');
    SplitFree(p, '?');
  }

  /** Joining pieces free of `x` with a separator other than `x` gives a string free of `x`. */
  lemma {:induction false} JoinFree(parts: seq<string>, sep: char, x: char)
    requires sep != x && forall j :: 0 <= j < |parts| ==> x !in parts[j]
    ensures x !in Join(parts, sep)
    decreases |parts|
  {
    if |parts| > 1 {
      JoinFree(parts[1..], sep, x);
    }
  }
}
