/** The matrix store of a mixed graph: a fixed capacity of `size` vertices,
    a table from external vertex ids to dense internal indices, one packed
    slot per pair of internal indices and two connection counters. */
module MixedMatrixGraph {
  import opened GraphTypes
  import opened SlotIndex
  import opened ConnectionIndex

  /** What a stored slot means for the caller's (tail, head): `CtDirected`
      when the arc runs from tail to head, `CtDirectedReversed` when it runs
      from head to tail; an edge or an empty slot is reported as stored. */
  function Relative(stored: ConnectionType, tail: int, head: int): ConnectionType
  {
    if stored == CtDirected || stored == CtDirectedReversed then
      (if stored == ArcType(tail, head) then CtDirected else CtDirectedReversed)
    else stored
  }

  /** The translation as the original writes it: only a forward slot asked
      about in reverse order is rewritten, a reversed slot never is. */
  function RelativeAsWritten(stored: ConnectionType, tail: int, head: int): (r: ConnectionType)
    ensures stored == CtDirectedReversed ==> r == CtDirectedReversed
    ensures r == CtDirected ==> stored == CtDirected && tail <= head
  {
    if stored == CtDirected && tail > head then CtDirectedReversed else stored
  }

  /** The arc 2 -> 1 is stored reversed; as written, asking (2, 1) and (1, 2)
      both answer "reversed", while the caller-oriented answer tells the two
      orientations apart. */
  lemma RelativeAsWrittenOneSided()
    ensures ArcType(2, 1) == CtDirectedReversed
    ensures RelativeAsWritten(ArcType(2, 1), 2, 1) == RelativeAsWritten(ArcType(2, 1), 1, 2)
    ensures Relative(ArcType(2, 1), 2, 1) == CtDirected
    ensures Relative(ArcType(2, 1), 1, 2) == CtDirectedReversed
  {
  }

  /** The caller-oriented answer names the arc's true direction. */
  lemma RelativeIsCallerOriented(stored: ConnectionType, tail: int, head: int)
    requires tail != head
    ensures Relative(stored, tail, head) == CtDirected <==> stored == ArcType(tail, head)
    ensures Relative(stored, tail, head) == CtDirectedReversed <==> stored == ArcType(head, tail)
    ensures Relative(stored, tail, head) == CtUndirected <==> stored == CtUndirected
    ensures Relative(stored, tail, head) == CtNone <==> stored == CtNone
  {
  }

  /** Every slot is in exactly one of the four states. */
  lemma {:induction false} SlotStatesPartition(s: seq<ConnectionType>)
    ensures multiset(s)[CtNone] + multiset(s)[CtUndirected]
            + multiset(s)[CtDirected] + multiset(s)[CtDirectedReversed] == |s|
  {
    if s != [] {
      SlotStatesPartition(s[1..]);
      assert s == [s[0]] + s[1..];
      assert multiset(s) == multiset{s[0]} + multiset(s[1..]);
      assert forall t :: multiset(s)[t] == multiset(s[1..])[t] + (if t == s[0] then 1 else 0);
    }
  }

  /** Whether a slot state is an arc, in either stored direction. */
  predicate IsArc(t: ConnectionType)
  {
    t == CtDirected || t == CtDirectedReversed
  }

  /** The store's invariant on its values: the packed array covers the
      triangle, the vertex table is dense and within capacity, each counter
      counts its kind of slot, and an occupied slot belongs to two existing
      vertices. */
  ghost predicate StoreInv(size: int, s: seq<ConnectionType>, ids: map<int, int>, edges: int, arcs: int)
  {
    0 < size && |s| == SlotCount(size) &&
    DenseIndex(ids) && |ids| <= size &&
    edges == multiset(s)[CtUndirected] &&
    arcs == multiset(s)[CtDirected] + multiset(s)[CtDirectedReversed] &&
    (forall i :: 0 <= i < |s| && s[i] != CtNone ==> PairOfSlot(size, i).1 < |ids|)
  }

  /** Writing one slot keeps the invariant when the table may only grow, the
      written pair exists and the counters follow the old and new state. */
  lemma StoreInvWrite(size: int, s: seq<ConnectionType>, ids: map<int, int>, ids': map<int, int>,
                      edges: int, arcs: int, i: int, t: ConnectionType, edges': int, arcs': int)
    requires StoreInv(size, s, ids, edges, arcs)
    requires DenseIndex(ids') && |ids| <= |ids'| <= size && 0 <= i < |s|
    requires t != CtNone ==> PairOfSlot(size, i).1 < |ids'|
    requires edges' == edges - (if s[i] == CtUndirected then 1 else 0) + (if t == CtUndirected then 1 else 0)
    requires arcs' == arcs - (if IsArc(s[i]) then 1 else 0) + (if IsArc(t) then 1 else 0)
    ensures StoreInv(size, s[i := t], ids', edges', arcs')
  {
    WriteCounts(s, i, t, CtUndirected);
    WriteCounts(s, i, t, CtDirected);
    WriteCounts(s, i, t, CtDirectedReversed);
  }

  /** Writing `t` over slot `i` moves one slot from the old state's count to
      the new state's. */
  lemma WriteCounts(s: seq<ConnectionType>, i: int, t: ConnectionType, k: ConnectionType)
    requires 0 <= i < |s|
    ensures multiset(s[i := t])[k] == multiset(s)[k] - (if s[i] == k then 1 else 0) + (if t == k then 1 else 0)
  {
    assert multiset(s[i := t]) == multiset(s) - multiset{s[i]} + multiset{t};
  }

  /** A store whose slots are all empty and whose table is empty satisfies
      the invariant with both counters at zero. */
  lemma EmptyStoreInv(size: int, s: seq<ConnectionType>)
    requires 0 < size && |s| == SlotCount(size)
    requires forall i :: 0 <= i < |s| ==> s[i] == CtNone
    ensures StoreInv(size, s, map[], 0, 0)
  {
    assert CtUndirected !in s && CtDirected !in s && CtDirectedReversed !in s;
  }

  /** The effect of adding a connection stored as `t` on the store's values:
      the outcome, the vertex table and the slots afterwards. The lookup
      creates missing vertices before the slot is inspected. */
  function AddSpec(size: int, ids: map<int, int>, s: seq<ConnectionType>, node1: int, node2: int,
                   t: ConnectionType): (Outcome, map<int, int>, seq<ConnectionType>)
    requires DenseIndex(ids) && |ids| <= size && |s| == SlotCount(size)
  {
    match ConnectionId(ids, size, node1, node2, true)
    case Err(e) => (Fail(e), ids, s)
    case Ok(c) =>
      ConnectionIdSlot(ids, size, node1, node2, true);
      if s[c.slot] != CtNone then (Fail(DuplicateConnection(s[c.slot])), c.ids, s)
      else (Pass, c.ids, s[c.slot := t])
  }

  /** The effect of removing a connection stored as `expected`; the lookup
      creates missing vertices here as well. */
  function RemoveSpec(size: int, ids: map<int, int>, s: seq<ConnectionType>, node1: int, node2: int,
                      expected: ConnectionType): (Outcome, map<int, int>, seq<ConnectionType>)
    requires DenseIndex(ids) && |ids| <= size && |s| == SlotCount(size)
  {
    match ConnectionId(ids, size, node1, node2, true)
    case Err(e) => (Fail(e), ids, s)
    case Ok(c) =>
      ConnectionIdSlot(ids, size, node1, node2, true);
      if s[c.slot] != expected then (Fail(ConnectionMissing(s[c.slot])), c.ids, s)
      else (Pass, c.ids, s[c.slot := CtNone])
  }

  /** Adding keeps the invariant, and the counter of the added kind grows by
      one exactly on success. A failed addition changes nothing: an occupied
      slot belongs to two vertices that already existed, so the lookup
      created none. */
  lemma AddSpecKeepsInv(size: int, ids: map<int, int>, s: seq<ConnectionType>, node1: int, node2: int,
                        t: ConnectionType, edges: int, arcs: int)
    requires StoreInv(size, s, ids, edges, arcs) && t != CtNone
    ensures var res := AddSpec(size, ids, s, node1, node2, t);
      StoreInv(size, res.2, res.1,
               edges + (if res.0.Pass? && t == CtUndirected then 1 else 0),
               arcs + (if res.0.Pass? && IsArc(t) then 1 else 0)) &&
      (res.0.Fail? ==> res.1 == ids && res.2 == s)
  {
    var c := ConnectionId(ids, size, node1, node2, true);
    if c.Ok? {
      ConnectionIdSlot(ids, size, node1, node2, true);
      var slot := c.value.slot;
      if s[slot] != CtNone {
        assert PairOfSlot(size, slot).1 < |ids|;
      } else {
        StoreInvWrite(size, s, ids, c.value.ids, edges, arcs, slot, t,
                      edges + (if t == CtUndirected then 1 else 0), arcs + (if IsArc(t) then 1 else 0));
      }
    }
  }

  /** Removing keeps the invariant, and the counter of the removed kind
      shrinks by one exactly on success. A successful removal creates no
      vertex; a removal naming an unknown vertex fails, yet when there is
      room it leaves both vertices created. */
  lemma RemoveSpecKeepsInv(size: int, ids: map<int, int>, s: seq<ConnectionType>, node1: int, node2: int,
                           expected: ConnectionType, edges: int, arcs: int)
    requires StoreInv(size, s, ids, edges, arcs) && expected != CtNone
    ensures var res := RemoveSpec(size, ids, s, node1, node2, expected);
      StoreInv(size, res.2, res.1,
               edges - (if res.0.Pass? && expected == CtUndirected then 1 else 0),
               arcs - (if res.0.Pass? && IsArc(expected) then 1 else 0)) &&
      (res.0.Fail? ==> res.2 == s) &&
      (res.0.Pass? ==> res.1 == ids) &&
      (node1 != node2 && 0 < Missing(ids, node1, node2) <= size - |ids| ==>
         res.0.Fail? && node1 in res.1 && node2 in res.1)
  {
    var c := ConnectionId(ids, size, node1, node2, true);
    if c.Ok? {
      ConnectionIdKeepsIndex(ids, size, node1, node2, true);
      var slot := c.value.slot;
      if s[slot] == expected {
        assert PairOfSlot(size, slot).1 < |ids|;
        StoreInvWrite(size, s, ids, c.value.ids, edges, arcs, slot, CtNone,
                      edges - (if expected == CtUndirected then 1 else 0),
                      arcs - (if IsArc(expected) then 1 else 0));
      }
    }
  }

  /** Removing what was just added, in the same orientation, succeeds and
      restores every slot; the vertices the addition created stay. */
  lemma {:induction false} AddThenRemove(size: int, ids: map<int, int>, s: seq<ConnectionType>,
                                         node1: int, node2: int, t: ConnectionType)
    requires DenseIndex(ids) && |ids| <= size && |s| == SlotCount(size) && t != CtNone
    ensures var a := AddSpec(size, ids, s, node1, node2, t);
      a.0.Pass? ==>
        DenseIndex(a.1) && |a.1| <= size && |a.2| == SlotCount(size) &&
        RemoveSpec(size, a.1, a.2, node1, node2, t) == (Pass, a.1, s)
  {
    var a := AddSpec(size, ids, s, node1, node2, t);
    if a.0.Pass? {
      var c := ConnectionId(ids, size, node1, node2, true).value;
      ConnectionIdKeepsIndex(ids, size, node1, node2, true);
      assert Allocate(c.ids, node1, node2) == c.ids;
      assert ConnectionId(c.ids, size, node1, node2, true) == Ok(c);
      assert a.2[c.slot := CtNone] == s;
    }
  }

  /** Once an addition succeeds, a second addition on the same pair, in
      either orientation and of any kind, fails on the stored state and
      changes nothing. */
  lemma AddThenAdd(size: int, ids: map<int, int>, s: seq<ConnectionType>,
                   node1: int, node2: int, t: ConnectionType, reversed: bool, t2: ConnectionType)
    requires DenseIndex(ids) && |ids| <= size && |s| == SlotCount(size) && t != CtNone
    ensures var a := AddSpec(size, ids, s, node1, node2, t);
      a.0.Pass? ==>
        DenseIndex(a.1) && |a.1| <= size && |a.2| == SlotCount(size) &&
        AddSpec(size, a.1, a.2, if reversed then node2 else node1, if reversed then node1 else node2, t2)
          == (Fail(DuplicateConnection(t)), a.1, a.2)
  {
    var a := AddSpec(size, ids, s, node1, node2, t);
    if a.0.Pass? {
      var c := ConnectionId(ids, size, node1, node2, true).value;
      ConnectionIdKeepsIndex(ids, size, node1, node2, true);
      assert Allocate(c.ids, node1, node2) == c.ids;
      assert ConnectionId(c.ids, size, node1, node2, true) == Ok(c);
      ConnectionIdSymmetric(c.ids, size, node1, node2, true);
      assert Allocate(c.ids, node2, node1) == c.ids;
    }
  }

  class MixedMatrix {
    const size: int
    const nodes: array<ConnectionType>
    var vertexIds: map<int, int>
    var edgesCnt: int
    var arcsCnt: int

    /** The store's invariant: the packed array covers the triangle, the
        vertex table is dense and within capacity, each counter counts its
        kind of slot, and an occupied slot belongs to two existing vertices. */
    ghost predicate Valid()
      reads this, nodes
    {
      StoreInv(size, nodes[..], vertexIds, edgesCnt, arcsCnt)
    }

    /** An empty store of capacity `size`. */
    constructor (size: int)
      requires 0 < size
      ensures Valid() && fresh(nodes)
      ensures this.size == size && nodes.Length == SlotCount(size)
      ensures vertexIds == map[] && edgesCnt == 0 && arcsCnt == 0
      ensures forall s :: 0 <= s < nodes.Length ==> nodes[s] == CtNone
    {
      this.size := size;
      assert 0 <= size * (size - 1);
      nodes := new ConnectionType[SlotCount(size)](_ => CtNone);
      vertexIds := map[];
      edgesCnt := 0;
      arcsCnt := 0;
      new;
      EmptyStoreInv(size, nodes[..]);
    }

    /** Creation fails on a non-positive capacity; otherwise the store is
        empty: no vertex, no connection, every slot `CtNone`. */
    static method NewMixedMatrix(size: int) returns (r: Result<MixedMatrix>)
      ensures r.Err? <==> size <= 0
      ensures r.Err? ==> r.error == InvalidSize
      ensures r.Ok? ==>
        var g := r.value;
        fresh(g) && fresh(g.nodes) && g.Valid() && g.size == size &&
        g.nodes.Length == SlotCount(size) &&
        (forall s :: 0 <= s < g.nodes.Length ==> g.nodes[s] == CtNone) &&
        g.Order() == 0 && g.EdgesCnt() == 0 && g.ArcsCnt() == 0 && g.ConnectionsCnt() == 0
    {
      if size <= 0 {
        return Err(InvalidSize);
      }
      var g := new MixedMatrix(size);
      r := Ok(g);
    }

    /** Number of vertices, never above the capacity. */
    function Order(): (n: nat)
      reads this, nodes
      requires Valid()
      ensures n <= size
    {
      |vertexIds|
    }

    /** Whether `node` is a vertex; a vertex has an internal index below Order(). */
    function CheckNode(node: int): (found: bool)
      reads this, nodes
      requires Valid()
      ensures found ==> node in vertexIds && 0 <= vertexIds[node] < Order()
    {
      node in vertexIds
    }

    /** The vertices, as a set (the original's map order is unspecified). */
    function VertexesIter(): (vs: set<int>)
      reads this, nodes
      requires Valid()
      ensures |vs| == Order()
      ensures forall v :: v in vs <==> CheckNode(v)
    {
      vertexIds.Keys
    }

    /** Vertex removal is not supported: it always fails and changes nothing. */
    method RemoveNode(node: int) returns (r: Outcome)
      ensures r == Fail(Unimplemented)
    {
      r := Fail(Unimplemented);
    }

    /** The slot of two existing vertices, read without creating any. */
    function Lookup(node1: int, node2: int): (r: Result<ConnectionType>)
      reads this, nodes
      requires Valid()
      ensures r.Ok? <==> node1 != node2 && node1 in vertexIds && node2 in vertexIds
    {
      match ConnectionId(vertexIds, size, node1, node2, false)
      case Err(e) => Err(e)
      case Ok(c) =>
        ConnectionIdKeepsIndex(vertexIds, size, node1, node2, false);
        Ok(nodes[c.slot])
    }

    function EdgesCnt(): (n: int)
      reads this, nodes
      requires Valid()
      ensures n == multiset(nodes[..])[CtUndirected]
    {
      edgesCnt
    }

    function ArcsCnt(): (n: int)
      reads this, nodes
      requires Valid()
      ensures n == multiset(nodes[..])[CtDirected] + multiset(nodes[..])[CtDirectedReversed]
    {
      arcsCnt
    }

    /** The number of connections is the number of occupied slots. */
    function ConnectionsCnt(): (n: int)
      reads this, nodes
      requires Valid()
      ensures n == nodes.Length - multiset(nodes[..])[CtNone]
      ensures 0 <= n <= nodes.Length
    {
      SlotStatesPartition(nodes[..]);
      arcsCnt + edgesCnt
    }

    /** Whether an undirected edge joins the two vertices; equal ids answer
        false, an unknown id fails. */
    function CheckEdge(node1: int, node2: int): (r: Result<bool>)
      reads this, nodes
      requires Valid()
      ensures node1 == node2 ==> r == Ok(false)
      ensures r.Ok? <==> node1 == node2 || (node1 in vertexIds && node2 in vertexIds)
    {
      if node1 == node2 then Ok(false)
      else
        match Lookup(node1, node2)
        case Err(e) => Err(e)
        case Ok(t) => Ok(t == CtUndirected)
    }

    /** Whether an arc runs from `tail` to `head`. There is no guard for equal
        ids: they fail in the lookup. */
    function CheckArc(tail: int, head: int): (r: Result<bool>)
      reads this, nodes
      requires Valid()
      ensures tail == head ==> r == Err(EqualNodes)
      ensures r.Ok? <==> tail != head && tail in vertexIds && head in vertexIds
    {
      match Lookup(tail, head)
      case Err(e) => Err(e)
      case Ok(t) => Ok(t == ArcType(tail, head))
    }

    /** The kind of connection between the two vertices, oriented as the
        caller asks (see `Relative`). */
    function CheckEdgeType(tail: int, head: int): (r: Result<ConnectionType>)
      reads this, nodes
      requires Valid()
      ensures r.Ok? <==> tail != head && tail in vertexIds && head in vertexIds
    {
      match Lookup(tail, head)
      case Err(e) => Err(e)
      case Ok(t) => Ok(Relative(t, tail, head))
    }

    /** Every connected pair once, smaller id first. */
    function ConnectionsIter(): (cs: set<Connection>)
      reads this, nodes
      requires Valid()
      ensures forall c :: c in cs ==> c.tail < c.head && c.tail in vertexIds && c.head in vertexIds
    {
      set a, b | a in vertexIds && b in vertexIds && a < b && Lookup(a, b) != Ok(CtNone)
        :: Connection(a, b)
    }

    /** Every undirected edge once, smaller id first. */
    function EdgesIter(): (es: set<Connection>)
      reads this, nodes
      requires Valid()
      ensures es <= ConnectionsIter()
    {
      set a, b | a in vertexIds && b in vertexIds && a < b && Lookup(a, b) == Ok(CtUndirected)
        :: Connection(a, b)
    }

    /** Every arc, reported in its true direction: a reversed slot is given
        with tail and head swapped back. */
    function ArcsIter(): (arcs: set<Connection>)
      reads this, nodes
      requires Valid()
      ensures forall c :: c in arcs ==> c.tail != c.head && c.tail in vertexIds && c.head in vertexIds
      ensures forall c :: c in arcs ==> Connection(c.head, c.tail) !in EdgesIter()
    {
      (set a, b | a in vertexIds && b in vertexIds && a < b && Lookup(a, b) == Ok(CtDirected)
         :: Connection(a, b)) +
      (set a, b | a in vertexIds && b in vertexIds && a < b && Lookup(a, b) == Ok(CtDirectedReversed)
         :: Connection(b, a))
    }

    /** Every connection with its kind; arcs in their true direction and
        tagged `CtDirected`. */
    function TypedConnectionsIter(): (ts: set<TypedConnection>)
      reads this, nodes
      requires Valid()
      ensures forall tc :: tc in ts ==>
        (tc.kind == CtUndirected || tc.kind == CtDirected) && tc.conn.tail in vertexIds && tc.conn.head in vertexIds
    {
      (set a, b | a in vertexIds && b in vertexIds && a < b && Lookup(a, b) == Ok(CtUndirected)
         :: TypedConnection(Connection(a, b), CtUndirected)) +
      (set a, b | a in vertexIds && b in vertexIds && a < b && Lookup(a, b) == Ok(CtDirected)
         :: TypedConnection(Connection(a, b), CtDirected)) +
      (set a, b | a in vertexIds && b in vertexIds && a < b && Lookup(a, b) == Ok(CtDirectedReversed)
         :: TypedConnection(Connection(b, a), CtDirected))
    }

    /** Adds a vertex: fails on a known id and on a full table, otherwise the
        id gets the next internal index. */
    method AddNode(node: int) returns (r: Outcome)
      requires Valid()
      modifies this`vertexIds
      ensures Valid()
      ensures node in old(vertexIds) ==> r == Fail(NodeExists) && vertexIds == old(vertexIds)
      ensures node !in old(vertexIds) && |old(vertexIds)| == size ==>
                r == Fail(NoSpace(1)) && vertexIds == old(vertexIds)
      ensures node !in old(vertexIds) && |old(vertexIds)| < size ==>
                r == Pass && vertexIds == old(vertexIds)[node := |old(vertexIds)|]
    {
      if node in vertexIds {
        return Fail(NodeExists);
      }
      if |vertexIds| == size {
        return Fail(NoSpace(1));
      }
      DenseIndexExtend(vertexIds, node);
      vertexIds := vertexIds[node := |vertexIds|];
      r := Pass;
    }

    /** The slot of the pair, creating missing vertices when `create` holds:
        computes `ConnectionId` on the vertex table. */
    method GetConnectionId(node1: int, node2: int, create: bool) returns (r: Result<int>)
      requires Valid()
      modifies this`vertexIds
      ensures Valid()
      ensures match ConnectionId(old(vertexIds), size, node1, node2, create)
        case Err(e) => r == Err(e) && vertexIds == old(vertexIds)
        case Ok(c) => r == Ok(c.slot) && vertexIds == c.ids
      ensures r.Ok? ==> 0 <= r.value < nodes.Length
    {
      ConnectionIdKeepsIndex(vertexIds, size, node1, node2, create);
      var id1, id2 := 0, 0;
      var exists1, exists2 := node1 in vertexIds, node2 in vertexIds;
      if exists1 { id1 := vertexIds[node1]; }
      if exists2 { id2 := vertexIds[node2]; }

      if node1 == node2 {
        return Err(EqualNodes);
      }
      if !create {
        if !exists1 { return Err(FirstNodeMissing); }
        if !exists2 { return Err(SecondNodeMissing); }
      } else if !exists1 || !exists2 {
        if !exists1 && !exists2 {
          if size - |vertexIds| < 2 { return Err(NoSpace(2)); }
        } else {
          if size - |vertexIds| < 1 { return Err(NoSpace(1)); }
        }
      }

      if !exists1 {
        id1 := |vertexIds|;
        vertexIds := vertexIds[node1 := id1];
      }
      if !exists2 {
        id2 := |vertexIds|;
        vertexIds := vertexIds[node2 := id2];
      }
      if id1 > id2 {
        id1, id2 := id2, id1;
      }
      r := Ok(SlotFormula(size, id1, id2));
    }

    /** Adds an undirected edge: fails when the lookup fails or the slot is
        occupied (leaving everything as it was), otherwise sets the slot to
        `CtUndirected` and counts one more edge. */
    method AddEdge(node1: int, node2: int) returns (r: Outcome)
      requires Valid()
      modifies this`vertexIds, this`edgesCnt, nodes
      ensures Valid()
      ensures (r, vertexIds, nodes[..]) == AddSpec(size, old(vertexIds), old(nodes[..]), node1, node2, CtUndirected)
      ensures edgesCnt == old(edgesCnt) + (if r.Pass? then 1 else 0)
      ensures r.Fail? ==> vertexIds == old(vertexIds) && nodes[..] == old(nodes[..])
      ensures r.Pass? ==> CheckEdge(node1, node2) == Ok(true)
    {
      AddSpecKeepsInv(size, vertexIds, nodes[..], node1, node2, CtUndirected, edgesCnt, arcsCnt);
      var c := GetConnectionId(node1, node2, true);
      if c.Err? {
        return Fail(c.error);
      }
      var conn := c.value;
      if nodes[conn] != CtNone {
        return Fail(DuplicateConnection(nodes[conn]));
      }
      nodes[conn] := CtUndirected;
      edgesCnt := edgesCnt + 1;
      r := Pass;
      assert nodes[..] == old(nodes[..])[conn := CtUndirected];
      LookupPair(node1, node2);
    }

    /** Removes an undirected edge. The lookup may create the vertices (the
        original asks for creation here), so a removal that fails on unknown
        ids still adds them; slots and counters change only on success. */
    method RemoveEdge(node1: int, node2: int) returns (r: Outcome)
      requires Valid()
      modifies this`vertexIds, this`edgesCnt, nodes
      ensures Valid()
      ensures (r, vertexIds, nodes[..]) == RemoveSpec(size, old(vertexIds), old(nodes[..]), node1, node2, CtUndirected)
      ensures edgesCnt == old(edgesCnt) - (if r.Pass? then 1 else 0)
      ensures r.Pass? ==> CheckEdge(node1, node2) == Ok(false)
    {
      RemoveSpecKeepsInv(size, vertexIds, nodes[..], node1, node2, CtUndirected, edgesCnt, arcsCnt);
      var c := GetConnectionId(node1, node2, true);
      if c.Err? {
        return Fail(c.error);
      }
      var conn := c.value;
      if nodes[conn] != CtUndirected {
        return Fail(ConnectionMissing(nodes[conn]));
      }
      nodes[conn] := CtNone;
      edgesCnt := edgesCnt - 1;
      r := Pass;
      assert nodes[..] == old(nodes[..])[conn := CtNone];
      LookupPair(node1, node2);
    }

    /** Adds an arc: fails like `AddEdge`, otherwise stores the arc as
        `ArcType(tail, head)` and counts one more arc. Afterwards the arc is
        reported from tail to head and not from head to tail. */
    method AddArc(tail: int, head: int) returns (r: Outcome)
      requires Valid()
      modifies this`vertexIds, this`arcsCnt, nodes
      ensures Valid()
      ensures (r, vertexIds, nodes[..]) == AddSpec(size, old(vertexIds), old(nodes[..]), tail, head, ArcType(tail, head))
      ensures arcsCnt == old(arcsCnt) + (if r.Pass? then 1 else 0)
      ensures r.Fail? ==> vertexIds == old(vertexIds) && nodes[..] == old(nodes[..])
      ensures r.Pass? ==> CheckArc(tail, head) == Ok(true)
    {
      AddSpecKeepsInv(size, vertexIds, nodes[..], tail, head, ArcType(tail, head), edgesCnt, arcsCnt);
      var c := GetConnectionId(tail, head, true);
      if c.Err? {
        return Fail(c.error);
      }
      var conn := c.value;
      if nodes[conn] != CtNone {
        return Fail(DuplicateConnection(nodes[conn]));
      }
      nodes[conn] := ArcType(tail, head);
      arcsCnt := arcsCnt + 1;
      r := Pass;
      assert nodes[..] == old(nodes[..])[conn := ArcType(tail, head)];
      LookupPair(tail, head);
    }

    /** Removes the arc from `tail` to `head`; the slot must hold exactly
        `ArcType(tail, head)`. Like `RemoveEdge`, the lookup may create the
        vertices. */
    method RemoveArc(tail: int, head: int) returns (r: Outcome)
      requires Valid()
      modifies this`vertexIds, this`arcsCnt, nodes
      ensures Valid()
      ensures (r, vertexIds, nodes[..]) == RemoveSpec(size, old(vertexIds), old(nodes[..]), tail, head, ArcType(tail, head))
      ensures arcsCnt == old(arcsCnt) - (if r.Pass? then 1 else 0)
      ensures r.Pass? ==> CheckArc(tail, head) == Ok(false)
    {
      RemoveSpecKeepsInv(size, vertexIds, nodes[..], tail, head, ArcType(tail, head), edgesCnt, arcsCnt);
      var c := GetConnectionId(tail, head, true);
      if c.Err? {
        return Fail(c.error);
      }
      var conn := c.value;
      var expectedType := CtNone;
      if tail < head {
        expectedType := CtDirected;
      } else {
        expectedType := CtDirectedReversed;
      }
      if nodes[conn] != expectedType {
        return Fail(ConnectionMissing(nodes[conn]));
      }
      nodes[conn] := CtNone;
      arcsCnt := arcsCnt - 1;
      r := Pass;
      assert nodes[..] == old(nodes[..])[conn := CtNone];
      LookupPair(tail, head);
    }

    /** Both orientations of a pair of vertices look up the pair's slot. */
    lemma LookupPair(node1: int, node2: int)
      requires Valid()
      requires node1 != node2 && node1 in vertexIds && node2 in vertexIds
      ensures 0 <= CanonicalSlot(size, vertexIds[node1], vertexIds[node2]) < nodes.Length
      ensures Lookup(node1, node2) == Ok(nodes[CanonicalSlot(size, vertexIds[node1], vertexIds[node2])])
      ensures Lookup(node2, node1) == Lookup(node1, node2)
    {
      var i1, i2 := vertexIds[node1], vertexIds[node2];
      CanonicalSlotDecodes(size, i1, i2);
      assert Allocate(vertexIds, node1, node2) == vertexIds;
      assert Allocate(vertexIds, node2, node1) == vertexIds;
    }
  }

  /** Edges are symmetric: both orientations give the same answer. */
  lemma CheckEdgeSymmetric(g: MixedMatrix, a: int, b: int)
    requires g.Valid()
    ensures g.CheckEdge(a, b).Ok? == g.CheckEdge(b, a).Ok?
    ensures g.CheckEdge(a, b).Ok? ==> g.CheckEdge(a, b) == g.CheckEdge(b, a)
  {
    if a != b && a in g.vertexIds && b in g.vertexIds {
      g.LookupPair(a, b);
    }
  }

  /** A pair carries at most one connection: an arc one way excludes the arc
      the other way and an edge. */
  lemma CheckArcExclusive(g: MixedMatrix, tail: int, head: int)
    requires g.Valid()
    ensures g.CheckArc(tail, head) == Ok(true) ==>
              g.CheckArc(head, tail) == Ok(false) && g.CheckEdge(tail, head) == Ok(false)
  {
    if g.CheckArc(tail, head) == Ok(true) {
      g.LookupPair(tail, head);
    }
  }

  /** The reported connection type agrees with the edge and arc checks, in
      the caller's orientation. */
  lemma CheckEdgeTypeAgrees(g: MixedMatrix, tail: int, head: int)
    requires g.Valid()
    ensures g.CheckEdgeType(tail, head) == Ok(CtDirected) <==> g.CheckArc(tail, head) == Ok(true)
    ensures g.CheckEdgeType(tail, head) == Ok(CtDirectedReversed) <==> g.CheckArc(head, tail) == Ok(true)
    ensures g.CheckEdgeType(tail, head) == Ok(CtUndirected) <==>
              tail != head && g.CheckEdge(tail, head) == Ok(true)
  {
    if tail != head && tail in g.vertexIds && head in g.vertexIds {
      g.LookupPair(tail, head);
      RelativeIsCallerOriented(g.Lookup(tail, head).value, tail, head);
    }
  }

  /** The connection iterator lists each connected pair once, smaller id first. */
  lemma ConnectionsIterComplete(g: MixedMatrix)
    requires g.Valid()
    ensures forall c :: c in g.ConnectionsIter() <==>
      c.tail < c.head &&
      (g.CheckEdge(c.tail, c.head) == Ok(true) || g.CheckArc(c.tail, c.head) == Ok(true) ||
       g.CheckArc(c.head, c.tail) == Ok(true))
  {
    forall c: Connection
      ensures c in g.ConnectionsIter() <==>
        c.tail < c.head &&
        (g.CheckEdge(c.tail, c.head) == Ok(true) || g.CheckArc(c.tail, c.head) == Ok(true) ||
         g.CheckArc(c.head, c.tail) == Ok(true))
    {
      var t, h := c.tail, c.head;
      if t != h && t in g.vertexIds && h in g.vertexIds {
        g.LookupPair(t, h);
      }
    }
  }

  /** The edge iterator lists each edge once, smaller id first. */
  lemma EdgesIterComplete(g: MixedMatrix)
    requires g.Valid()
    ensures forall c :: c in g.EdgesIter() <==> c.tail < c.head && g.CheckEdge(c.tail, c.head) == Ok(true)
  {
  }

  /** The arc iterator lists exactly the arcs, each in its true direction. */
  lemma ArcsIterComplete(g: MixedMatrix)
    requires g.Valid()
    ensures forall c :: c in g.ArcsIter() <==> g.CheckArc(c.tail, c.head) == Ok(true)
  {
    forall c: Connection
      ensures c in g.ArcsIter() <==> g.CheckArc(c.tail, c.head) == Ok(true)
    {
      var t, h := c.tail, c.head;
      if t != h && t in g.vertexIds && h in g.vertexIds {
        g.LookupPair(t, h);
        if t > h && g.CheckArc(t, h) == Ok(true) {
          assert g.Lookup(h, t) == Ok(CtDirectedReversed);
          assert c == Connection(t, h);
        }
      }
    }
  }

  /** The typed iterator lists each edge once, smaller id first, and each arc
      in its true direction tagged `CtDirected`. */
  lemma TypedConnectionsIterComplete(g: MixedMatrix)
    requires g.Valid()
    ensures forall tc :: tc in g.TypedConnectionsIter() <==>
      (tc.kind == CtUndirected && tc.conn.tail < tc.conn.head &&
       g.CheckEdge(tc.conn.tail, tc.conn.head) == Ok(true)) ||
      (tc.kind == CtDirected && g.CheckArc(tc.conn.tail, tc.conn.head) == Ok(true))
  {
    forall tc: TypedConnection
      ensures tc in g.TypedConnectionsIter() <==>
        (tc.kind == CtUndirected && tc.conn.tail < tc.conn.head &&
         g.CheckEdge(tc.conn.tail, tc.conn.head) == Ok(true)) ||
        (tc.kind == CtDirected && g.CheckArc(tc.conn.tail, tc.conn.head) == Ok(true))
    {
      var t, h := tc.conn.tail, tc.conn.head;
      if t != h && t in g.vertexIds && h in g.vertexIds {
        g.LookupPair(t, h);
        if t > h && tc.kind == CtDirected && g.CheckArc(t, h) == Ok(true) {
          assert g.Lookup(h, t) == Ok(CtDirectedReversed);
          assert tc == TypedConnection(Connection(t, h), CtDirected);
        }
      }
    }
  }

  /** Adding an edge and removing it again restores every slot and the edge
      count; the vertices the addition created stay. */
  method EdgeRoundTrip(g: MixedMatrix, u: int, v: int) returns (added: Outcome, removed: Outcome)
    requires g.Valid()
    modifies g`vertexIds, g`edgesCnt, g.nodes
    ensures g.Valid()
    ensures added.Pass? ==>
      removed == Pass && g.nodes[..] == old(g.nodes[..]) && g.edgesCnt == old(g.edgesCnt) &&
      u in g.vertexIds && v in g.vertexIds
  {
    AddThenRemove(g.size, g.vertexIds, g.nodes[..], u, v, CtUndirected);
    added := g.AddEdge(u, v);
    removed := g.RemoveEdge(u, v);
  }

  /** Adding an arc and removing it again restores every slot and the arc count. */
  method ArcRoundTrip(g: MixedMatrix, tail: int, head: int) returns (added: Outcome, removed: Outcome)
    requires g.Valid()
    modifies g`vertexIds, g`arcsCnt, g.nodes
    ensures g.Valid()
    ensures added.Pass? ==>
      removed == Pass && g.nodes[..] == old(g.nodes[..]) && g.arcsCnt == old(g.arcsCnt) &&
      tail in g.vertexIds && head in g.vertexIds
  {
    AddThenRemove(g.size, g.vertexIds, g.nodes[..], tail, head, ArcType(tail, head));
    added := g.AddArc(tail, head);
    removed := g.RemoveArc(tail, head);
  }

  /** Once a pair holds an edge, the reverse arc is refused and changes nothing;
      the value lemma AddThenAdd covers either orientation. */
  method EdgeThenArc(g: MixedMatrix, u: int, v: int) returns (edge: Outcome, arc: Outcome)
    requires g.Valid()
    modifies g`vertexIds, g`edgesCnt, g`arcsCnt, g.nodes
    ensures g.Valid()
    ensures edge.Pass? ==>
      arc == Fail(DuplicateConnection(CtUndirected)) &&
      g.edgesCnt == old(g.edgesCnt) + 1 && g.arcsCnt == old(g.arcsCnt)
  {
    AddThenAdd(g.size, g.vertexIds, g.nodes[..], u, v, CtUndirected, true, ArcType(v, u));
    edge := g.AddEdge(u, v);
    arc := g.AddArc(v, u);
  }

  /** Where the pair (3, 1) lives once vertices 1 to 4 hold indices 0 to 3:
      row 0, the second cell. */
  lemma ScenarioSlot(ids: map<int, int>)
    requires 1 in ids && 3 in ids && ids[1] == 0 && ids[3] == 2
    ensures ConnectionId(ids, 4, 3, 1, true) == Ok(Resolved(ids, 1))
  {
    assert Allocate(ids, 3, 1) == ids;
  }

  /** A store of capacity 4 holding the vertices 1, 2, 3, 4, added in that
      order, and no connection. */
  method FourVertexStore() returns (g: MixedMatrix)
    ensures fresh(g) && fresh(g.nodes) && g.Valid() && g.size == 4
    ensures g.Order() == 4 && 1 in g.vertexIds && 2 in g.vertexIds && 3 in g.vertexIds && 4 in g.vertexIds
    ensures g.vertexIds[1] == 0 && g.vertexIds[2] == 1 && g.vertexIds[3] == 2 && g.vertexIds[4] == 3
    ensures g.edgesCnt == 0 && g.arcsCnt == 0
    ensures forall s :: 0 <= s < g.nodes.Length ==> g.nodes[s] == CtNone
  {
    var r := MixedMatrix.NewMixedMatrix(4);
    g := r.value;
    assert g.edgesCnt == 0 && g.arcsCnt == 0 && |g.vertexIds| == 0;
    var _ := g.AddNode(1);
    assert |g.vertexIds| == 1 && 2 !in g.vertexIds && 3 !in g.vertexIds && 4 !in g.vertexIds;
    var _ := g.AddNode(2);
    assert |g.vertexIds| == 2 && 3 !in g.vertexIds && 4 !in g.vertexIds;
    var _ := g.AddNode(3);
    assert |g.vertexIds| == 3 && 4 !in g.vertexIds;
    var _ := g.AddNode(4);
  }

  /** Four vertices 1, 2, 3, 4 and the arc 3 -> 1: the slot stores the arc
      reversed, yet it is reported from 3 to 1, by the checks, the type query
      and the arc iterator. */
  method ReversedArcScenario()
    returns (stored: Result<ConnectionType>, forward: Result<bool>, backward: Result<bool>,
             kind: Result<ConnectionType>, reported: bool, count: int)
    ensures stored == Ok(CtDirectedReversed)
    ensures forward == Ok(true) && backward == Ok(false)
    ensures kind == Ok(CtDirected)
    ensures reported
    ensures count == 1
  {
    var g := FourVertexStore();
    ScenarioSlot(g.vertexIds);
    assert g.nodes[1] == CtNone;
    var added := g.AddArc(3, 1);
    assert added == Pass && g.edgesCnt == 0 && g.arcsCnt == 1;
    stored := g.Lookup(3, 1);
    forward := g.CheckArc(3, 1);
    backward := g.CheckArc(1, 3);
    kind := g.CheckEdgeType(3, 1);
    CheckArcExclusive(g, 3, 1);
    CheckEdgeTypeAgrees(g, 3, 1);
    ArcsIterComplete(g);
    reported := Connection(3, 1) in g.ArcsIter();
    count := g.ConnectionsCnt();
  }
}
