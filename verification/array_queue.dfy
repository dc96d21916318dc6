/**
 A FIFO queue kept in two arrays. New items are pushed onto `list`; the oldest
 items sit in `rev` in reverse order, so that removing the front is a `pop`.
 The queue an observer sees is `Contents(q) == Reverse(q.rev) + q.list`.
 */
module ArrayQueue {
  import opened Wrappers

  datatype Queue<T> = Queue(list: seq<T>, rev: seq<T>)

  /** Below this many items in `list`, `Dequeue` shifts the front instead of reversing. */
  const ShiftLimit: nat := 16

  function Reverse<T>(s: seq<T>): (r: seq<T>)
    ensures |r| == |s|
    ensures forall i :: 0 <= i < |s| ==> r[i] == s[|s| - 1 - i]
  {
    seq(|s|, i requires 0 <= i < |s| => s[|s| - 1 - i])
  }

  lemma ReverseReverse<T>(s: seq<T>)
    ensures Reverse(Reverse(s)) == s
  {
    assert forall i :: 0 <= i < |s| ==> Reverse(Reverse(s))[i] == s[i];
  }

  /** Dropping the last element of `s` drops the first element of its reverse. */
  lemma ReverseDropLast<T>(s: seq<T>)
    requires |s| > 0
    ensures Reverse(s[..|s| - 1]) == Reverse(s)[1..]
  {
    assert forall i :: 0 <= i < |s| - 1 ==> Reverse(s[..|s| - 1])[i] == Reverse(s)[1..][i];
  }

  /** The abstraction function: the items front (oldest) to back (newest). */
  function Contents<T>(q: Queue<T>): seq<T>
  {
    Reverse(q.rev) + q.list
  }

  /** `new ArrayQueue(items)`: the given items become the queue, oldest first. */
  function FromItems<T>(items: seq<T>): (q: Queue<T>)
    ensures Contents(q) == items
  {
    Queue(items, [])
  }

  function Length<T>(q: Queue<T>): (n: nat)
    ensures n == |Contents(q)|
  {
    |q.list| + |q.rev|
  }

  function Clear<T>(q: Queue<T>): (r: Queue<T>)
    ensures Contents(r) == []
    ensures Length(r) == 0
  {
    Queue([], [])
  }

  function Enqueue<T>(q: Queue<T>, x: T): (r: Queue<T>)
    ensures Contents(r) == Contents(q) + [x]
    ensures Length(r) == Length(q) + 1
  {
    Queue(q.list + [x], q.rev)
  }

  /**
   Removes the front item. The four branches of the source (pop the single
   item, shift a short list, reverse a long list into `rev`, pop `rev`) all
   refine "remove the front of `Contents`".
   */
  function Dequeue<T>(q: Queue<T>): (r: (Option<T>, Queue<T>))
    ensures Contents(q) == [] ==> r.0 == None && r.1 == q
    ensures Contents(q) != [] ==> r.0 == Some(Contents(q)[0]) && Contents(r.1) == Contents(q)[1..]
  {
    if |q.rev| == 0 then
      if |q.list| == 0 then (None, q)
      else if |q.list| == 1 then (Some(q.list[0]), Queue([], q.rev))
      else if |q.list| < ShiftLimit then (Some(q.list[0]), Queue(q.list[1..], q.rev))
      else
        var rev := Reverse(q.list);
        ReverseDropLast(rev);
        ReverseReverse(q.list);
        (Some(rev[|rev| - 1]), Queue([], rev[..|rev| - 1]))
    else
      ReverseDropLast(q.rev);
      (Some(q.rev[|q.rev| - 1]), Queue(q.list, q.rev[..|q.rev| - 1]))
  }

  /** `_indexOf`: the first position whose item the test `m` accepts, or -1. */
  function IndexOf<T>(arr: seq<T>, m: T -> bool): (i: int)
    ensures -1 <= i < |arr|
    ensures 0 <= i ==> m(arr[i]) && forall k :: 0 <= k < i ==> !m(arr[k])
    ensures i < 0 ==> forall k :: 0 <= k < |arr| ==> !m(arr[k])
  {
    if |arr| == 0 then -1
    else if m(arr[0]) then 0
    else
      var i := IndexOf(arr[1..], m);
      if i < 0 then -1 else i + 1
  }

  function RemoveAt<T>(s: seq<T>, i: nat): seq<T>
    requires i < |s|
  {
    s[..i] + s[i + 1..]
  }

  /** No item of `c` in positions `lo..hi` passes the test `m`. */
  ghost predicate NoMatch<T>(c: seq<T>, m: T -> bool, lo: int, hi: int)
    requires 0 <= lo && hi <= |c|
  {
    forall k :: lo <= k < hi ==> !m(c[k])
  }

  /** Where abstract position `k` of the queue is stored. */
  lemma ContentsAt<T>(q: Queue<T>, k: nat)
    requires k < |Contents(q)|
    ensures k < |q.rev| ==> Contents(q)[k] == q.rev[|q.rev| - 1 - k]
    ensures |q.rev| <= k ==> Contents(q)[k] == q.list[k - |q.rev|]
  {
  }

  /**
   `delete(item)`: the test `m` stands for `_indexOf`'s comparison with the
   probe item. The newer part (`list`) is searched first, so the item removed
   is the oldest match in the newer part when there is one, and otherwise the
   NEWEST match of the whole queue, not necessarily the oldest.
   */
  function Delete<T>(q: Queue<T>, m: T -> bool): (r: Queue<T>)
    ensures var c, h := Contents(q), |q.rev|;
            !NoMatch(c, m, h, |c|) ==>
              exists j :: h <= j < |c| && m(c[j]) && NoMatch(c, m, h, j) && Contents(r) == RemoveAt(c, j)
    ensures var c, h := Contents(q), |q.rev|;
            NoMatch(c, m, h, |c|) && !NoMatch(c, m, 0, h) ==>
              exists j :: 0 <= j < h && m(c[j]) && NoMatch(c, m, j + 1, |c|) && Contents(r) == RemoveAt(c, j)
    ensures NoMatch(Contents(q), m, 0, |Contents(q)|) ==> r == q
  {
    var i := IndexOf(q.list, m);
    if 0 <= i then
      var r := Queue(RemoveAt(q.list, i), q.rev);
      DeleteFromList(q, m, i);
      r
    else
      var i := IndexOf(q.rev, m);
      if 0 <= i then
        var r := Queue(q.list, RemoveAt(q.rev, i));
        DeleteFromRev(q, m, i);
        r
      else
        NothingToDelete(q, m);
        q
  }

  lemma DeleteFromList<T>(q: Queue<T>, m: T -> bool, i: nat)
    requires i < |q.list| && m(q.list[i])
    requires forall k :: 0 <= k < i ==> !m(q.list[k])
    ensures var c, h := Contents(q), |q.rev|;
            && m(c[h + i]) && NoMatch(c, m, h, h + i) && !NoMatch(c, m, h, |c|)
            && Contents(Queue(RemoveAt(q.list, i), q.rev)) == RemoveAt(c, h + i)
  {
    var c, h := Contents(q), |q.rev|;
    ContentsAt(q, h + i);
    forall k | h <= k < h + i
      ensures !m(c[k])
    {
      ContentsAt(q, k);
    }
    assert c[..h + i] == Reverse(q.rev) + q.list[..i];
    assert c[h + i + 1..] == q.list[i + 1..];
  }

  lemma DeleteFromRev<T>(q: Queue<T>, m: T -> bool, i: nat)
    requires i < |q.rev| && m(q.rev[i])
    requires forall k :: 0 <= k < i ==> !m(q.rev[k])
    requires forall k :: 0 <= k < |q.list| ==> !m(q.list[k])
    ensures var c, h := Contents(q), |q.rev|;
            && NoMatch(c, m, h, |c|) && m(c[h - 1 - i]) && !NoMatch(c, m, 0, h)
            && NoMatch(c, m, h - i, |c|)
            && Contents(Queue(q.list, RemoveAt(q.rev, i))) == RemoveAt(c, h - 1 - i)
  {
    var c, h := Contents(q), |q.rev|;
    ContentsAt(q, h - 1 - i);
    forall k | h - i <= k < |c|
      ensures !m(c[k])
    {
      ContentsAt(q, k);
    }
    RevRemoveContents(q, i);
  }

  lemma RevRemoveContents<T>(q: Queue<T>, i: nat)
    requires i < |q.rev|
    ensures Contents(Queue(q.list, RemoveAt(q.rev, i))) == RemoveAt(Contents(q), |q.rev| - 1 - i)
  {
    var c, h, r := Contents(q), |q.rev|, Reverse(q.rev);
    ReverseRemoveAt(q.rev, i);
    assert c[..h - 1 - i] == r[..h - 1 - i];
    assert c[h - i..] == r[h - i..] + q.list;
  }

  lemma ReverseRemoveAt<T>(s: seq<T>, i: nat)
    requires i < |s|
    ensures Reverse(RemoveAt(s, i)) == RemoveAt(Reverse(s), |s| - 1 - i)
  {
    var rs, r := RemoveAt(s, i), Reverse(s);
    var a, b := Reverse(rs), RemoveAt(r, |s| - 1 - i);
    assert |a| == |b|;
    forall k | 0 <= k < |a|
      ensures a[k] == b[k]
    {
      assert a[k] == rs[|s| - 2 - k];
      if k < |s| - 1 - i {
        assert rs[|s| - 2 - k] == s[|s| - 1 - k];
        assert b[k] == r[k];
      } else {
        assert rs[|s| - 2 - k] == s[|s| - 2 - k];
        assert b[k] == r[k + 1];
      }
    }
  }

  lemma NothingToDelete<T>(q: Queue<T>, m: T -> bool)
    requires forall k :: 0 <= k < |q.rev| ==> !m(q.rev[k])
    requires forall k :: 0 <= k < |q.list| ==> !m(q.list[k])
    ensures NoMatch(Contents(q), m, 0, |Contents(q)|)
  {
    forall k | 0 <= k < |Contents(q)|
      ensures !m(Contents(q)[k])
    {
      ContentsAt(q, k);
    }
  }

  /** The `for..of` iterator: `rev` back to front, then `list` front to back. */
  method Iterate<T>(q: Queue<T>) returns (items: seq<T>)
    ensures items == Contents(q)
  {
    items := [];
    var j := |q.rev| - 1;
    while j >= 0
      invariant -1 <= j < |q.rev|
      invariant items == Reverse(q.rev)[..|q.rev| - 1 - j]
    {
      items := items + [q.rev[j]];
      j := j - 1;
    }
    var i := 0;
    while i < |q.list|
      invariant 0 <= i <= |q.list|
      invariant items == Reverse(q.rev) + q.list[..i]
    {
      items := items + [q.list[i]];
      i := i + 1;
    }
  }

  /** A client's interleaving of `enqueue` and `dequeue` calls. */
  datatype Op<T> = Push(x: T) | Pop

  /** The items pushed by `ops`, in order. */
  function Pushed<T>(ops: seq<Op<T>>): seq<T>
  {
    if |ops| == 0 then []
    else (if ops[0].Push? then [ops[0].x] else []) + Pushed(ops[1..])
  }

  /** Runs `ops` from `q`; returns every item a `Pop` obtained, in order, and the final queue. */
  function Run<T>(q: Queue<T>, ops: seq<Op<T>>): (seq<T>, Queue<T>)
    decreases |ops|
  {
    if |ops| == 0 then ([], q)
    else if ops[0].Push? then Run(Enqueue(q, ops[0].x), ops[1..])
    else
      var d := Dequeue(q);
      var rest := Run(d.1, ops[1..]);
      (if d.0.Some? then [d.0.value] + rest.0 else rest.0, rest.1)
  }

  /**
   FIFO: whatever the interleaving, the items handed out followed by the items
   still queued are exactly the items initially queued followed by those pushed.
   */
  lemma {:induction false} RunIsFifo<T>(q: Queue<T>, ops: seq<Op<T>>)
    ensures Run(q, ops).0 + Contents(Run(q, ops).1) == Contents(q) + Pushed(ops)
    decreases |ops|
  {
    if |ops| > 0 {
      if ops[0].Push? {
        RunIsFifo(Enqueue(q, ops[0].x), ops[1..]);
        RunPushStep(q, ops);
      } else {
        RunIsFifo(Dequeue(q).1, ops[1..]);
        RunPopStep(q, ops);
      }
    }
  }

  lemma RunPushStep<T>(q: Queue<T>, ops: seq<Op<T>>)
    requires |ops| > 0 && ops[0].Push?
    requires var q1 := Enqueue(q, ops[0].x);
             Run(q1, ops[1..]).0 + Contents(Run(q1, ops[1..]).1) == Contents(q1) + Pushed(ops[1..])
    ensures Run(q, ops).0 + Contents(Run(q, ops).1) == Contents(q) + Pushed(ops)
  {
    assert Pushed(ops) == [ops[0].x] + Pushed(ops[1..]);
  }

  lemma RunPopStep<T>(q: Queue<T>, ops: seq<Op<T>>)
    requires |ops| > 0 && ops[0].Pop?
    requires var q1 := Dequeue(q).1;
             Run(q1, ops[1..]).0 + Contents(Run(q1, ops[1..]).1) == Contents(q1) + Pushed(ops[1..])
    ensures Run(q, ops).0 + Contents(Run(q, ops).1) == Contents(q) + Pushed(ops)
  {
    var d := Dequeue(q);
    var rest := Run(d.1, ops[1..]);
    var p := Pushed(ops[1..]);
    assert Pushed(ops) == p;
    if d.0.Some? {
      assert Run(q, ops) == ([d.0.value] + rest.0, rest.1);
      PopFront(q);
      ConsBoth(d.0.value, rest.0, Contents(rest.1), Contents(d.1), p);
    } else {
      assert Run(q, ops) == rest;
    }
  }

  lemma PopFront<T>(q: Queue<T>)
    requires Dequeue(q).0.Some?
    ensures Contents(q) == [Dequeue(q).0.value] + Contents(Dequeue(q).1)
  {
    var c := Contents(q);
    assert c != [];
    assert c == [c[0]] + c[1..];
  }

  lemma ConsBoth<T>(v: T, a: seq<T>, b: seq<T>, c: seq<T>, d: seq<T>)
    requires a + b == c + d
    ensures ([v] + a) + b == ([v] + c) + d
  {
    assert ([v] + a) + b == [v] + (a + b);
    assert ([v] + c) + d == [v] + (c + d);
  }

  /** From an empty queue, items come out in exactly the order they went in. */
  lemma OutputIsPrefixOfInput<T>(ops: seq<Op<T>>)
    ensures var out := Run(Queue([], []), ops).0;
            |out| <= |Pushed(ops)| && out == Pushed(ops)[..|out|]
  {
    var e: Queue<T> := Queue([], []);
    RunIsFifo(e, ops);
    assert Contents(e) == [];
    var (out, q) := Run(e, ops);
    assert out + Contents(q) == Pushed(ops);
    assert (out + Contents(q))[..|out|] == out;
  }
}
