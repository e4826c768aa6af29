/** The routine every edge and arc operation of the store goes through: it
    maps two external vertex ids to the packed slot of their pair, creating
    missing vertices when asked to. Stated on values here; the store's method
    `GetConnectionId` is proved to compute it. */
module ConnectionIndex {
  import opened GraphTypes
  import opened SlotIndex

  /** The vertex table maps external ids one to one into the internal
      indices `0 .. |ids| - 1`; having `|ids|` entries, it uses each of them. */
  ghost predicate DenseIndex(ids: map<int, int>)
  {
    (forall v :: v in ids ==> 0 <= ids[v] < |ids|) &&
    (forall v, w :: v in ids && w in ids && v != w ==> ids[v] != ids[w])
  }

  /** Giving an unknown id the next internal index keeps the table dense. */
  lemma DenseIndexExtend(ids: map<int, int>, node: int)
    requires DenseIndex(ids) && node !in ids
    ensures |ids[node := |ids|]| == |ids| + 1
    ensures DenseIndex(ids[node := |ids|])
  {
  }

  /** Result of a successful lookup: the vertex table afterwards and the slot. */
  datatype Resolved = Resolved(ids: map<int, int>, slot: int)

  /** How many of the two ids the table does not know yet. */
  function Missing(ids: map<int, int>, node1: int, node2: int): nat
  {
    (if node1 in ids then 0 else 1) + (if node2 in ids then 0 else 1)
  }

  /** The table after giving `node` the next index, when it is unknown. */
  function Admit(ids: map<int, int>, node: int): map<int, int>
  {
    if node in ids then ids else ids[node := |ids|]
  }

  /** The table after giving each unknown id the next index, the first
      argument before the second. */
  function Allocate(ids: map<int, int>, node1: int, node2: int): map<int, int>
  {
    Admit(Admit(ids, node1), node2)
  }

  /** Admitting an id keeps the table dense, keeps every old entry, and gives
      an unknown id the next index. */
  lemma AdmitKeepsIndex(ids: map<int, int>, node: int)
    requires DenseIndex(ids)
    ensures var ids' := Admit(ids, node);
      DenseIndex(ids') && ids'.Keys == ids.Keys + {node} &&
      |ids'| == |ids| + (if node in ids then 0 else 1) &&
      (forall v :: v in ids ==> ids'[v] == ids[v]) &&
      (node !in ids ==> ids'[node] == |ids|)
  {
    if node !in ids {
      DenseIndexExtend(ids, node);
    }
  }

  /** Admitting two distinct ids keeps the table dense and adds exactly
      those of them that were unknown. */
  lemma AllocateKeepsIndex(ids: map<int, int>, node1: int, node2: int)
    requires DenseIndex(ids) && node1 != node2
    ensures var ids' := Allocate(ids, node1, node2);
      DenseIndex(ids') && |ids'| == |ids| + Missing(ids, node1, node2) &&
      ids'.Keys == ids.Keys + {node1, node2}
  {
    AdmitKeepsIndex(ids, node1);
    AdmitKeepsIndex(Admit(ids, node1), node2);
  }

  /** Admitting two distinct ids keeps every old entry and numbers the new
      ones in order; with nothing unknown the table is unchanged. */
  lemma AllocateNumbersInOrder(ids: map<int, int>, node1: int, node2: int)
    requires DenseIndex(ids) && node1 != node2
    ensures var ids' := Allocate(ids, node1, node2);
      (forall v :: v in ids ==> ids'[v] == ids[v]) &&
      (node1 !in ids ==> ids'[node1] == |ids|) &&
      (node2 !in ids ==> ids'[node2] == |ids| + (if node1 in ids then 0 else 1)) &&
      (Missing(ids, node1, node2) == 0 ==> ids' == ids)
  {
    AdmitKeepsIndex(ids, node1);
  }

  /** The lookup with the capacity check the store needs: creating vertices
      requires one free place per vertex created. */
  function ConnectionId(ids: map<int, int>, size: int, node1: int, node2: int, create: bool)
    : (r: Result<Resolved>)
    ensures r.Err? <==>
      node1 == node2 || (!create && Missing(ids, node1, node2) > 0) ||
      (create && 0 < Missing(ids, node1, node2) && size - |ids| < Missing(ids, node1, node2))
    ensures r.Ok? ==> ids.Keys <= r.value.ids.Keys && node1 in r.value.ids && node2 in r.value.ids
  {
    if node1 == node2 then Err(EqualNodes)
    else if !create && node1 !in ids then Err(FirstNodeMissing)
    else if !create && node2 !in ids then Err(SecondNodeMissing)
    else if create && Missing(ids, node1, node2) > 0 && size - |ids| < Missing(ids, node1, node2) then
      Err(NoSpace(Missing(ids, node1, node2)))
    else
      var ids' := Allocate(ids, node1, node2);
      Ok(Resolved(ids', CanonicalSlot(size, ids'[node1], ids'[node2])))
  }

  /** The lookup with the capacity check as the original writes it: the
      two-place test sits under a condition that excludes it, so a single
      free place lets both ids in. */
  function ConnectionIdAsWritten(ids: map<int, int>, size: int, node1: int, node2: int, create: bool)
    : (r: Result<Resolved>)
    ensures create && node1 != node2 ==>
      (r.Err? <==> Missing(ids, node1, node2) > 0 && size - |ids| < 1)
    ensures r.Ok? ==> ids.Keys <= r.value.ids.Keys && node1 in r.value.ids && node2 in r.value.ids
  {
    if node1 == node2 then Err(EqualNodes)
    else if !create && node1 !in ids then Err(FirstNodeMissing)
    else if !create && node2 !in ids then Err(SecondNodeMissing)
    else if create && (node1 !in ids || node2 !in ids) &&
            (if node1 in ids && node2 in ids then size - |ids| < 2 else size - |ids| < 1) then
      Err(NoSpace(if node1 in ids && node2 in ids then 2 else 1))
    else
      var ids' := Allocate(ids, node1, node2);
      Ok(Resolved(ids', CanonicalSlot(size, ids'[node1], ids'[node2])))
  }

  /** When it fails, and what a successful lookup leaves behind: the table is
      still dense and within capacity, it only gained the two ids (numbered in
      order of appearance), and the slot lies in the packed array and decodes
      to the ordered pair of their indices. The slot involves a new vertex
      exactly when one was created. */
  lemma ConnectionIdKeepsIndex(ids: map<int, int>, size: int, node1: int, node2: int, create: bool)
    requires DenseIndex(ids) && |ids| <= size
    ensures var r := ConnectionId(ids, size, node1, node2, create);
      r.Err? <==> node1 == node2
                  || (!create && (node1 !in ids || node2 !in ids))
                  || (create && size - |ids| < Missing(ids, node1, node2))
    ensures var r := ConnectionId(ids, size, node1, node2, create);
      r.Ok? ==>
        var ids', i1, i2 := r.value.ids, r.value.ids[node1], r.value.ids[node2];
        DenseIndex(ids') && |ids'| == |ids| + Missing(ids, node1, node2) && |ids'| <= size
        && ids'.Keys == ids.Keys + {node1, node2}
        && (forall v :: v in ids ==> ids'[v] == ids[v])
        && (node1 !in ids ==> i1 == |ids|)
        && (node2 !in ids ==> i2 == |ids| + (if node1 in ids then 0 else 1))
        && (!create || Missing(ids, node1, node2) == 0 ==> ids' == ids)
        && 0 <= r.value.slot < SlotCount(size)
        && PairOfSlot(size, r.value.slot) == (if i1 < i2 then (i1, i2) else (i2, i1))
        && (PairOfSlot(size, r.value.slot).1 >= |ids| <==> Missing(ids, node1, node2) > 0)
  {
    var r := ConnectionId(ids, size, node1, node2, create);
    if r.Ok? {
      AllocateKeepsIndex(ids, node1, node2);
      AllocateNumbersInOrder(ids, node1, node2);
      var ids' := r.value.ids;
      var i1, i2 := ids'[node1], ids'[node2];
      assert 0 <= i1 < |ids'| && 0 <= i2 < |ids'| && i1 != i2;
      CanonicalSlotDecodes(size, i1, i2);
    }
  }

  /** The part of a successful lookup a writer of the slot needs: the slot is
      in the packed array and belongs to two vertices of the new table, and
      when it belongs to two old vertices the table did not change. */
  lemma ConnectionIdSlot(ids: map<int, int>, size: int, node1: int, node2: int, create: bool)
    requires DenseIndex(ids) && |ids| <= size
    requires ConnectionId(ids, size, node1, node2, create).Ok?
    ensures var c := ConnectionId(ids, size, node1, node2, create).value;
      DenseIndex(c.ids) && |ids| <= |c.ids| <= size &&
      0 <= c.slot < SlotCount(size) && PairOfSlot(size, c.slot).1 < |c.ids| &&
      (PairOfSlot(size, c.slot).1 < |ids| ==> c.ids == ids)
  {
    ConnectionIdKeepsIndex(ids, size, node1, node2, create);
  }

  /** Asking for (a, b) or (b, a) fails or succeeds alike and gives the same
      slot, also when the ids are created by the call. */
  lemma ConnectionIdSymmetric(ids: map<int, int>, size: int, a: int, b: int, create: bool)
    requires DenseIndex(ids) && |ids| <= size
    ensures ConnectionId(ids, size, a, b, create).Ok? == ConnectionId(ids, size, b, a, create).Ok?
    ensures ConnectionId(ids, size, a, b, create).Ok? ==>
      ConnectionId(ids, size, a, b, create).value.slot == ConnectionId(ids, size, b, a, create).value.slot
  {
    var r, s := ConnectionId(ids, size, a, b, create), ConnectionId(ids, size, b, a, create);
    assert Missing(ids, a, b) == Missing(ids, b, a);
    if r.Ok? {
      AllocateNumbersInOrder(ids, a, b);
      AllocateNumbersInOrder(ids, b, a);
      var ra, sa := Allocate(ids, a, b), Allocate(ids, b, a);
      assert (ra[a] == sa[a] && ra[b] == sa[b]) || (ra[a] == sa[b] && ra[b] == sa[a]);
    }
  }

  /** The defect of the original check: with one free place left and two
      unknown ids, both are admitted, the table grows past the capacity and
      the slot computed is one past the end of the packed array. */
  lemma ConnectionIdAsWrittenOverflows(ids: map<int, int>, size: int, node1: int, node2: int)
    requires DenseIndex(ids) && |ids| == size - 1
    requires node1 != node2 && node1 !in ids && node2 !in ids
    ensures var r := ConnectionIdAsWritten(ids, size, node1, node2, true);
      r.Ok? && |r.value.ids| == size + 1 && r.value.slot == SlotCount(size)
    ensures ConnectionId(ids, size, node1, node2, true) == Err(NoSpace(2))
  {
    var ids1 := ids[node1 := size - 1];
    assert |ids1| == size;
    var ids' := ids1[node2 := size];
    assert Allocate(ids, node1, node2) == ids';
    var r := ConnectionIdAsWritten(ids, size, node1, node2, true);
    assert r == Ok(Resolved(ids', SlotFormula(size, size - 1, size)));
    SlotPastEnd(size);
  }

  /** The pair (size - 1, size), one index past the last one, is addressed
      at the array's length. */
  lemma SlotPastEnd(size: int)
    requires size >= 1
    ensures SlotFormula(size, size - 1, size) == SlotCount(size)
  {
    ConsecutiveProductEven(size - 1);
    assert (size - 1) * (size - 1) + size - 1 == (size - 1) * size;
  }
}
