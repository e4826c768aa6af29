/** A read-only view of a directed graph that hides a list of excluded arcs
    from the wrapped reader's answers: accessor and predecessor lists, the
    arc test and the connection listing. */
module Filters {
  import opened GraphTypes

  /** Whether `a` occurs in `b` in order, possibly with gaps. */
  ghost predicate IsSubsequence<T>(a: seq<T>, b: seq<T>)
    decreases |b|
  {
    a == [] ||
    (b != [] && ((a[0] == b[0] && IsSubsequence(a[1..], b[1..])) || IsSubsequence(a, b[1..])))
  }

  lemma {:induction false} SubsequenceRefl<T>(s: seq<T>)
    ensures IsSubsequence(s, s)
    decreases |s|
  {
    if s != [] {
      SubsequenceRefl(s[1..]);
    }
  }

  lemma {:induction false} SubsequenceTrans<T>(a: seq<T>, b: seq<T>, c: seq<T>)
    requires IsSubsequence(a, b) && IsSubsequence(b, c)
    ensures IsSubsequence(a, c)
    decreases |c|
  {
    if a != [] {
      if IsSubsequence(b, c[1..]) {
        SubsequenceTrans(a, b, c[1..]);
      } else if a[0] == b[0] && IsSubsequence(a[1..], b[1..]) {
        SubsequenceTrans(a[1..], b[1..], c[1..]);
      } else {
        SubsequenceTrans(a, b[1..], c[1..]);
      }
    }
  }

  /** Dropping the element at `k` leaves a subsequence. */
  lemma {:induction false} SubsequenceDropAt<T>(s: seq<T>, k: nat)
    requires k < |s|
    ensures IsSubsequence(s[..k] + s[k + 1..], s)
    decreases k
  {
    if k == 0 {
      assert s[..0] + s[1..] == s[1..];
      SubsequenceRefl(s[1..]);
    } else {
      SubsequenceDropAt(s[1..], k - 1);
      var r := s[..k] + s[k + 1..];
      assert r[0] == s[0];
      assert r[1..] == s[1..][..k - 1] + s[1..][k..];
    }
  }

  /** `s` without the first occurrence of `x`. */
  function RemoveFirst(s: seq<int>, x: int): seq<int>
  {
    if s == [] then []
    else if s[0] == x then s[1..]
    else [s[0]] + RemoveFirst(s[1..], x)
  }

  /** When `k` is the first position holding `x` (or `|s|` when none does),
      removing the first occurrence cuts out the element at `k`. */
  lemma {:induction false} RemoveFirstAt(s: seq<int>, x: int, k: nat)
    requires k <= |s|
    requires k < |s| ==> s[k] == x
    requires forall j :: 0 <= j < k ==> s[j] != x
    ensures RemoveFirst(s, x) == if k < |s| then s[..k] + s[k + 1..] else s
  {
    if s != [] && s[0] != x {
      var t := s[1..];
      RemoveFirstAt(t, x, k - 1);
      if k < |s| {
        assert s[..k] == [s[0]] + t[..k - 1];
        assert s[k + 1..] == t[k..];
      } else {
        assert s == [s[0]] + t;
      }
    }
  }

  /** Removing the first occurrence takes one `x` away, if there is one, and
      leaves every other count alone. */
  lemma {:induction false} RemoveFirstCount(s: seq<int>, x: int)
    ensures multiset(RemoveFirst(s, x)) == multiset(s) - multiset{x}
  {
    if s != [] {
      assert s == [s[0]] + s[1..];
      if s[0] != x {
        RemoveFirstCount(s[1..], x);
      }
    }
  }

  /** Removing the first occurrence keeps the order of the rest, shortens
      the list by one when `x` occurs, and changes nothing otherwise. */
  lemma {:induction false} RemoveFirstOrder(s: seq<int>, x: int)
    ensures |RemoveFirst(s, x)| == |s| - (if x in s then 1 else 0)
    ensures x !in s ==> RemoveFirst(s, x) == s
    ensures IsSubsequence(RemoveFirst(s, x), s)
  {
    if s == [] {
    } else if s[0] == x {
      SubsequenceDropAt(s, 0);
      assert s[..0] + s[1..] == s[1..];
    } else {
      RemoveFirstOrder(s[1..], x);
      var r := RemoveFirst(s, x);
      assert r[0] == s[0] && r[1..] == RemoveFirst(s[1..], x);
      assert x in s <==> x in s[1..];
      assert x !in s ==> s == [s[0]] + s[1..];
    }
  }

  /** `s` after removing the first remaining occurrence of each element of
      `ts`, in the order of `ts`. */
  function RemoveEach(s: seq<int>, ts: seq<int>): seq<int>
  {
    if ts == [] then s
    else RemoveFirst(RemoveEach(s, ts[..|ts| - 1]), ts[|ts| - 1])
  }

  lemma RemoveEachSnoc(s: seq<int>, ts: seq<int>, t: int)
    ensures RemoveEach(s, ts + [t]) == RemoveFirst(RemoveEach(s, ts), t)
  {
    assert (ts + [t])[..|ts|] == ts;
  }

  /** Removing the elements of `ts` one by one is multiset difference. */
  lemma {:induction false} RemoveEachCount(s: seq<int>, ts: seq<int>)
    ensures multiset(RemoveEach(s, ts)) == multiset(s) - multiset(ts)
  {
    if ts != [] {
      var init, t := ts[..|ts| - 1], ts[|ts| - 1];
      RemoveEachCount(s, init);
      RemoveFirstCount(RemoveEach(s, init), t);
      LastMultiset(ts);
      DifferenceStep(multiset(s), multiset(init), t);
    }
  }

  /** Each removal shortens the list by at most one; when every element of
      `ts` is there to be removed, it shortens it by exactly `|ts|`. */
  lemma {:induction false} RemoveEachLength(s: seq<int>, ts: seq<int>)
    ensures |s| - |ts| <= |RemoveEach(s, ts)| <= |s|
    ensures multiset(ts) <= multiset(s) ==> |RemoveEach(s, ts)| == |s| - |ts|
  {
    if ts != [] {
      var init, t := ts[..|ts| - 1], ts[|ts| - 1];
      var r := RemoveEach(s, init);
      RemoveEachLength(s, init);
      RemoveFirstOrder(r, t);
      if multiset(ts) <= multiset(s) {
        LastMultiset(ts);
        assert multiset(init) <= multiset(s);
        RemoveEachCount(s, init);
        assert multiset(r)[t] == multiset(s)[t] - multiset(init)[t];
      }
    }
  }

  /** Taking away `b` and then one `t` is taking away `b` plus one `t`. */
  lemma DifferenceStep(a: multiset<int>, b: multiset<int>, t: int)
    ensures a - b - multiset{t} == a - (b + multiset{t})
  {
    assert forall y :: (a - b - multiset{t})[y] == (a - (b + multiset{t}))[y];
  }

  /** Removing the elements of `ts` one by one keeps the relative order of
      what stays. */
  lemma {:induction false} RemoveEachOrder(s: seq<int>, ts: seq<int>)
    ensures IsSubsequence(RemoveEach(s, ts), s)
  {
    if ts == [] {
      SubsequenceRefl(s);
    } else {
      var r := RemoveEach(s, ts[..|ts| - 1]);
      RemoveEachOrder(s, ts[..|ts| - 1]);
      RemoveFirstOrder(r, ts[|ts| - 1]);
      SubsequenceTrans(RemoveFirst(r, ts[|ts| - 1]), r, s);
    }
  }

  /** The ends to remove for `node`: for each excluded arc whose tail is
      `node` its head (`onHead` false, the accessor filter), or for each arc
      whose head is `node` its tail (`onHead` true, the predecessor filter),
      in the order of the arcs. */
  function Ends(arcs: seq<Connection>, node: int, onHead: bool): seq<int>
  {
    if arcs == [] then []
    else
      var c := arcs[|arcs| - 1];
      Ends(arcs[..|arcs| - 1], node, onHead) +
      (if (if onHead then c.head else c.tail) == node then [if onHead then c.tail else c.head] else [])
  }

  /** The arc joining `node` and `x`, oriented as the filter keys it. */
  function Keyed(node: int, x: int, onHead: bool): Connection
  {
    if onHead then Connection(x, node) else Connection(node, x)
  }

  /** `x` is an end to remove exactly as often as the arc joining it to
      `node` is excluded. */
  lemma {:induction false} EndsCount(arcs: seq<Connection>, node: int, onHead: bool, x: int)
    ensures multiset(Ends(arcs, node, onHead))[x] == multiset(arcs)[Keyed(node, x, onHead)]
  {
    if arcs != [] {
      EndsCount(arcs[..|arcs| - 1], node, onHead, x);
      EndsLastCount(arcs, node, onHead, x);
      LastMultiset(arcs);
    }
  }

  /** The last arc adds one end `x` exactly when it is the arc keyed on
      `node` with other end `x`. */
  lemma EndsLastCount(arcs: seq<Connection>, node: int, onHead: bool, x: int)
    requires arcs != []
    ensures multiset(Ends(arcs, node, onHead))[x] ==
            multiset(Ends(arcs[..|arcs| - 1], node, onHead))[x] +
            (if arcs[|arcs| - 1] == Keyed(node, x, onHead) then 1 else 0)
  {
  }

  lemma LastMultiset<T>(s: seq<T>)
    requires s != []
    ensures multiset(s) == multiset(s[..|s| - 1]) + multiset{s[|s| - 1]}
  {
    assert s == s[..|s| - 1] + [s[|s| - 1]];
  }

  /** The wrapped reader, as far as the filter consults it: its accessor and
      predecessor lists, its arc test and its connection listing. */
  datatype Reader = Reader(
    accessors: int -> seq<int>,
    predecessors: int -> seq<int>,
    checkArc: (int, int) -> bool,
    connections: seq<Connection>)

  /** The connections of `conns` that are not excluded, in their order. */
  function Kept(conns: seq<Connection>, arcs: seq<Connection>): seq<Connection>
  {
    if conns == [] then []
    else
      var c := conns[|conns| - 1];
      Kept(conns[..|conns| - 1], arcs) + (if c in arcs then [] else [c])
  }

  /** Exactly the connections that are not excluded are kept, in order. */
  lemma {:induction false} KeptSpec(conns: seq<Connection>, arcs: seq<Connection>)
    ensures forall c :: c in Kept(conns, arcs) <==> c in conns && c !in arcs
    ensures IsSubsequence(Kept(conns, arcs), conns)
  {
    if conns == [] {
    } else {
      var init, c := conns[..|conns| - 1], conns[|conns| - 1];
      KeptSpec(init, arcs);
      assert conns == init + [c];
      var k := Kept(init, arcs);
      SubsequenceAppend(k, init, if c in arcs then [] else [c], [c]);
    }
  }

  /** Appending a subsequence of `y` to a subsequence of `x` gives a
      subsequence of `x + y`. */
  lemma {:induction false} SubsequenceAppend<T>(a: seq<T>, x: seq<T>, b: seq<T>, y: seq<T>)
    requires IsSubsequence(a, x) && IsSubsequence(b, y)
    ensures IsSubsequence(a + b, x + y)
    decreases |x|
  {
    if x == [] {
      assert a == [];
      assert a + b == b && x + y == y;
    } else if a != [] && a[0] == x[0] && IsSubsequence(a[1..], x[1..]) {
      SubsequenceAppend(a[1..], x[1..], b, y);
      assert (a + b)[1..] == a[1..] + b;
      assert (x + y)[1..] == x[1..] + y;
    } else if a == [] {
      SubsequenceAppend(a, x[1..], b, y);
      assert (x + y)[1..] == x[1..] + y;
    } else {
      SubsequenceAppend(a, x[1..], b, y);
      assert (x + y)[1..] == x[1..] + y;
    }
  }

  /** The arcs filter: the wrapped reader and the excluded arcs. */
  datatype ArcsFilter = ArcsFilter(reader: Reader, arcs: seq<Connection>)
  {
    /** The filtered accessor list of `node`. */
    function Accessors(node: int): seq<int>
    {
      RemoveEach(reader.accessors(node), Ends(arcs, node, false))
    }

    /** The filtered predecessor list of `node`. */
    function Predecessors(node: int): seq<int>
    {
      RemoveEach(reader.predecessors(node), Ends(arcs, node, true))
    }

    /** The predecessor filter as the original writes it: it starts from the
        accessor list of `node`. */
    function PredecessorsAsWritten(node: int): (r: seq<int>)
      ensures arcs == [] ==> r == reader.accessors(node)
      ensures |r| <= |reader.accessors(node)|
    {
      RemoveEachLength(reader.accessors(node), Ends(arcs, node, true));
      RemoveEach(reader.accessors(node), Ends(arcs, node, true))
    }

    /** Removes the excluded ends from the wrapped list in place: for each
        excluded arc keyed on `node`, the first remaining occurrence of its
        other end is dropped. The array stands for the slice the wrapped
        reader returned: its first `len` cells are the answer, and the cells
        from `len` on are a stale tail; the last cell is never written. */
    method FilterInPlace(list: array<int>, node: int, onHead: bool) returns (len: nat)
      modifies list
      ensures len <= list.Length
      ensures list[..len] == RemoveEach(old(list[..]), Ends(arcs, node, onHead))
      ensures list.Length > 0 ==> list[list.Length - 1] == old(list[list.Length - 1])
    {
      len := list.Length;
      var i := 0;
      while i < |arcs|
        invariant 0 <= i <= |arcs|
        invariant len <= list.Length
        invariant list[..len] == RemoveEach(old(list[..]), Ends(arcs[..i], node, onHead))
        invariant list.Length > 0 ==> list[list.Length - 1] == old(list[list.Length - 1])
      {
        assert arcs[..i + 1] == arcs[..i] + [arcs[i]];
        len := FilterStep(list, len, node, onHead, old(list[..]), arcs[..i], arcs[i]);
        i := i + 1;
      }
      assert arcs[..|arcs|] == arcs;
    }

    /** The accessors of `node` with the excluded arcs leaving `node` taken
        out; `list` holds the wrapped reader's accessor list. */
    method GetAccessors(node: int, list: array<int>) returns (len: nat)
      requires list[..] == reader.accessors(node)
      modifies list
      ensures len <= list.Length && list[..len] == Accessors(node)
      ensures list.Length > 0 ==> list[list.Length - 1] == old(list[list.Length - 1])
    {
      len := FilterInPlace(list, node, false);
    }

    /** The predecessors of `node` with the excluded arcs entering `node`
        taken out; `list` holds the wrapped reader's predecessor list. */
    method GetPredecessors(node: int, list: array<int>) returns (len: nat)
      requires list[..] == reader.predecessors(node)
      modifies list
      ensures len <= list.Length && list[..len] == Predecessors(node)
      ensures list.Length > 0 ==> list[list.Length - 1] == old(list[list.Length - 1])
    {
      len := FilterInPlace(list, node, true);
    }

    /** An arc is seen when the wrapped reader has it and it is not excluded. */
    method CheckArc(node1: int, node2: int) returns (res: bool)
      ensures res <==> reader.checkArc(node1, node2) && Connection(node1, node2) !in arcs
    {
      res := reader.checkArc(node1, node2);
      if res {
        var i := 0;
        while i < |arcs|
          invariant 0 <= i <= |arcs|
          invariant forall j :: 0 <= j < i ==> arcs[j] != Connection(node1, node2)
        {
          if arcs[i].tail == node1 && arcs[i].head == node2 {
            res := false;
            break;
          }
          i := i + 1;
        }
      }
    }

    /** The wrapped connections without the excluded arcs, in their order. */
    method ConnectionsIter() returns (out: seq<Connection>)
      ensures out == Kept(reader.connections, arcs)
    {
      out := [];
      var i := 0;
      while i < |reader.connections|
        invariant 0 <= i <= |reader.connections|
        invariant out == Kept(reader.connections[..i], arcs)
      {
        var conn := reader.connections[i];
        assert reader.connections[..i + 1][..i] == reader.connections[..i];
        var excluded := false;
        var j := 0;
        while j < |arcs|
          invariant 0 <= j <= |arcs|
          invariant excluded <==> conn in arcs[..j]
        {
          if arcs[j].head == conn.head && arcs[j].tail == conn.tail {
            excluded := true;
          }
          assert arcs[..j + 1] == arcs[..j] + [arcs[j]];
          j := j + 1;
        }
        assert arcs[..j] == arcs;
        if !excluded {
          out := out + [conn];
        }
        i := i + 1;
      }
      assert reader.connections[..i] == reader.connections;
    }

    /** The listing as the original writes it: the loop skips nothing and
        sends nothing, so the listing is always empty. */
    method ConnectionsIterAsWritten() returns (out: seq<Connection>)
      ensures out == []
    {
      out := [];
      var i := 0;
      while i < |reader.connections|
        invariant 0 <= i <= |reader.connections|
        invariant out == []
      {
        var conn := reader.connections[i];
        var j := 0;
        while j < |arcs|
          invariant 0 <= j <= |arcs|
        {
          if arcs[j].head == conn.head && arcs[j].tail == conn.tail {
            j := j + 1;
            continue;
          }
          j := j + 1;
        }
        i := i + 1;
      }
    }
  }

  /** One round of the filter loop: when `c` is keyed on `node`, the first
      remaining occurrence of its other end is dropped. */
  method FilterStep(list: array<int>, len: nat, node: int, onHead: bool,
                    ghost orig: seq<int>, ghost done: seq<Connection>, c: Connection)
    returns (len': nat)
    requires len <= list.Length
    requires list[..len] == RemoveEach(orig, Ends(done, node, onHead))
    modifies list
    ensures len' <= list.Length
    ensures list[..len'] == RemoveEach(orig, Ends(done + [c], node, onHead))
    ensures list.Length > 0 ==> list[list.Length - 1] == old(list[list.Length - 1])
  {
    var key, other := if onHead then c.head else c.tail, if onHead then c.tail else c.head;
    ghost var ends := Ends(done, node, onHead);
    assert (done + [c])[..|done|] == done;
    assert Ends(done + [c], node, onHead) == ends + (if key == node then [other] else []);
    len' := len;
    if node == key {
      RemoveEachSnoc(orig, ends, other);
      len' := DropFirst(list, len, other);
    } else {
      assert ends + [] == ends;
    }
  }

  /** The position of the first `x` among the first `len` cells of `list`,
      or `len` when there is none. */
  method FindFirst(list: array<int>, len: nat, x: int) returns (k: nat)
    requires len <= list.Length
    ensures k <= len && (k < len ==> list[k] == x)
    ensures forall j :: 0 <= j < k ==> list[j] != x
  {
    k := 0;
    while k < len
      invariant 0 <= k <= len
      invariant forall j :: 0 <= j < k ==> list[j] != x
    {
      if list[k] == x {
        return;
      }
      k := k + 1;
    }
  }

  /** Drops the first occurrence of `x` among the first `len` cells of
      `list` by shifting the cells after it one place left. The cells from
      `len` on are not written, and neither is the last cell. */
  method DropFirst(list: array<int>, len: nat, x: int) returns (len': nat)
    requires len <= list.Length
    modifies list
    ensures len' == if x in old(list[..len]) then len - 1 else len
    ensures list[..len'] == RemoveFirst(old(list[..len]), x)
    ensures forall j :: len <= j < list.Length ==> list[j] == old(list[j])
    ensures list.Length > 0 ==> list[list.Length - 1] == old(list[list.Length - 1])
  {
    ghost var before := list[..len];
    var k := FindFirst(list, len, x);
    RemoveFirstAt(before, x, k);
    RemoveFirstOrder(before, x);
    len' := len;
    if k < len {
      CopyDown(list, k, len);
      len' := len - 1;
    }
  }

  /** The overlapping copy of cells `k + 1 .. len - 1` onto `k .. len - 2`:
      the cell at `k` is overwritten and the rest move one place left; the
      cells from `len - 1` on are not written. */
  method CopyDown(list: array<int>, k: nat, len: nat)
    requires k < len <= list.Length
    modifies list
    ensures list[..len - 1] == old(list[..len])[..k] + old(list[..len])[k + 1..]
    ensures forall j :: len - 1 <= j < list.Length ==> list[j] == old(list[j])
  {
    forall j | k <= j < len - 1 {
      list[j] := list[j + 1];
    }
  }

  /** The accessors [5, 7] of vertex 1 with the arc (1, 5) excluded: the
      answer is [7], and the slice is left holding [7, 7]. */
  method AccessorSliceScenario() returns (len: nat, cells: seq<int>)
    ensures len == 1 && cells == [7, 7]
  {
    var list := new int[2];
    list[0], list[1] := 5, 7;
    var g := Reader(n => if n == 1 then [5, 7] else [], n => [], (a, b) => false, []);
    var f := NewArcFilter(g, 1, 5);
    assert list[..] == f.reader.accessors(1);
    assert Ends(f.arcs, 1, false) == [5];
    assert RemoveEach([5, 7], [5]) == RemoveFirst(RemoveEach([5, 7], []), 5);
    assert RemoveFirst([5, 7], 5) == [7];
    assert f.Accessors(1) == [7];
    len := f.GetAccessors(1, list);
    cells := list[..];
  }

  /** A filter over the given arcs, holding them unchanged. */
  function NewArcsFilter(g: Reader, arcs: seq<Connection>): (f: ArcsFilter)
    ensures f.reader == g && f.arcs == arcs
  {
    ArcsFilter(g, arcs)
  }

  /** A filter over the single arc from `tail` to `head`. */
  function NewArcFilter(g: Reader, tail: int, head: int): (f: ArcsFilter)
    ensures f == NewArcsFilter(g, [Connection(tail, head)])
    ensures |f.arcs| == 1 && f.arcs[0].tail == tail && f.arcs[0].head == head
  {
    ArcsFilter(g, [Connection(tail, head)])
  }

  /** How many of `have` copies stay after `removed` removals. */
  function Excess(have: nat, removed: nat): nat
  {
    if have <= removed then 0 else have - removed
  }

  /** The filtered accessors of `node`: each `x` occurs as often as in the
      wrapped list less the number of exclusions of the arc (node, x), never
      below zero, and what stays keeps its order. */
  lemma AccessorsSpec(f: ArcsFilter, node: int)
    ensures forall x :: multiset(f.Accessors(node))[x] ==
                        Excess(multiset(f.reader.accessors(node))[x], multiset(f.arcs)[Connection(node, x)])
    ensures IsSubsequence(f.Accessors(node), f.reader.accessors(node))
  {
    RemoveEachCount(f.reader.accessors(node), Ends(f.arcs, node, false));
    RemoveEachOrder(f.reader.accessors(node), Ends(f.arcs, node, false));
    forall x
      ensures multiset(Ends(f.arcs, node, false))[x] == multiset(f.arcs)[Connection(node, x)]
    {
      EndsCount(f.arcs, node, false, x);
    }
  }

  /** The filtered predecessors of `node`: each `x` loses one occurrence per
      exclusion of the arc (x, node), and what stays keeps its order. */
  lemma PredecessorsSpec(f: ArcsFilter, node: int)
    ensures forall x :: multiset(f.Predecessors(node))[x] ==
                        Excess(multiset(f.reader.predecessors(node))[x], multiset(f.arcs)[Connection(x, node)])
    ensures IsSubsequence(f.Predecessors(node), f.reader.predecessors(node))
  {
    RemoveEachCount(f.reader.predecessors(node), Ends(f.arcs, node, true));
    RemoveEachOrder(f.reader.predecessors(node), Ends(f.arcs, node, true));
    forall x
      ensures multiset(Ends(f.arcs, node, true))[x] == multiset(f.arcs)[Connection(x, node)]
    {
      EndsCount(f.arcs, node, true, x);
    }
  }

  /** The filtered listing holds exactly the wrapped connections that are
      not excluded, in their order. */
  lemma ConnectionsIterSpec(f: ArcsFilter)
    ensures forall c :: c in Kept(f.reader.connections, f.arcs) <==> c in f.reader.connections && c !in f.arcs
    ensures IsSubsequence(Kept(f.reader.connections, f.arcs), f.reader.connections)
  {
    KeptSpec(f.reader.connections, f.arcs);
  }

  /** A filter without excluded arcs changes no answer of the reader. */
  lemma EmptyFilterIsTransparent(g: Reader, node: int)
    ensures NewArcsFilter(g, []).Accessors(node) == g.accessors(node)
    ensures NewArcsFilter(g, []).Predecessors(node) == g.predecessors(node)
    ensures Kept(g.connections, []) == g.connections
  {
    KeptSpec(g.connections, []);
    KeptAll(g.connections);
  }

  lemma {:induction false} KeptAll(conns: seq<Connection>)
    ensures Kept(conns, []) == conns
  {
    if conns != [] {
      KeptAll(conns[..|conns| - 1]);
      assert conns == conns[..|conns| - 1] + [conns[|conns| - 1]];
    }
  }

  /** The defect of the original predecessor filter: for a reader in which 2
      has the predecessor 1 and no accessors, and no arc excluded, the
      original answers no predecessors while the filter should pass the
      predecessor through. */
  lemma PredecessorsAsWrittenReadsAccessors()
    ensures var g := Reader(n => [], n => if n == 2 then [1] else [], (a, b) => false, []);
      var f := NewArcsFilter(g, []);
      f.PredecessorsAsWritten(2) == [] && f.Predecessors(2) == [1]
  {
  }

  /** The defect of the original listing: a wrapped connection that is not
      excluded is missing from it, while the intended listing has it. */
  method ConnectionsIterAsWrittenLoses(f: ArcsFilter, c: Connection)
    returns (written: seq<Connection>, intended: seq<Connection>)
    requires c in f.reader.connections && c !in f.arcs
    ensures c !in written && c in intended
  {
    written := f.ConnectionsIterAsWritten();
    intended := f.ConnectionsIter();
    KeptSpec(f.reader.connections, f.arcs);
  }
}
