/** The packed upper-triangle addressing of the matrix: a pair of internal
    indices `lo < hi` below `size` is stored in one cell of a flat array of
    `size * (size - 1) / 2` cells. Row `lo` of the triangle holds the pairs
    `(lo, lo + 1) .. (lo, size - 1)`, one row after the other. */
module SlotIndex {

  /** Length of the packed array for a capacity of `size` vertices. */
  function SlotCount(size: int): int
  {
    size * (size - 1) / 2
  }

  /** The address formula of the store, for `id1 < id2`. */
  function SlotFormula(size: int, id1: int, id2: int): (slot: int)
    ensures id1 == 0 ==> slot == id2 - 1
  {
    id1 * (size - 1) + id2 - 1 - id1 * (id1 + 1) / 2
  }

  /** Orders two internal indices and applies the formula. */
  function CanonicalSlot(size: int, id1: int, id2: int): int
  {
    if id1 > id2 then SlotFormula(size, id2, id1) else SlotFormula(size, id1, id2)
  }

  /** Address of the first cell of row `row`: the rows before it hold
      `size - 1`, `size - 2`, ... cells. */
  function RowStart(size: int, row: nat): int
  {
    if row == 0 then 0 else RowStart(size, row - 1) + (size - row)
  }

  lemma TriangleStep(k: int)
    ensures (k + 1) * (k + 2) / 2 == k * (k + 1) / 2 + (k + 1)
  {
    assert (k + 1) * (k + 2) == k * (k + 1) + 2 * (k + 1);
  }

  lemma {:induction false} ConsecutiveProductEven(k: nat)
    ensures (k * (k + 1)) % 2 == 0
  {
    if k > 0 {
      ConsecutiveProductEven(k - 1);
      assert k * (k + 1) == (k - 1) * k + 2 * k;
    }
  }

  /** The recursive row start agrees with the closed form used by the store. */
  lemma {:induction false} RowStartClosedForm(size: int, row: nat)
    ensures RowStart(size, row) == row * size - row * (row + 1) / 2
  {
    if row > 0 {
      RowStartClosedForm(size, row - 1);
      TriangleStep(row - 1);
      assert (row - 1) * size + size == row * size;
    }
  }

  lemma {:induction false} RowStartMonotone(size: int, a: nat, b: nat)
    requires a <= b <= size
    ensures RowStart(size, a) <= RowStart(size, b)
  {
    if a < b {
      RowStartMonotone(size, a, b - 1);
    }
  }

  /** The rows together fill the packed array exactly. */
  lemma RowStartIsSlotCount(size: nat)
    ensures RowStart(size, size) == SlotCount(size)
  {
    RowStartClosedForm(size, size);
    if size > 0 {
      ConsecutiveProductEven(size - 1);
      TriangleStep(size - 1);
    }
  }

  /** The pair `(lo, hi)` lands in row `lo`, at offset `hi - lo - 1`. */
  lemma SlotFormulaInRow(size: int, lo: int, hi: int)
    requires 0 <= lo < hi < size
    ensures SlotFormula(size, lo, hi) == RowStart(size, lo) + (hi - lo - 1)
    ensures RowStart(size, lo) <= SlotFormula(size, lo, hi) < RowStart(size, lo + 1)
  {
    RowStartClosedForm(size, lo);
    assert lo * (size - 1) == lo * size - lo;
  }

  /** Every pair `0 <= lo < hi < size` is addressed inside the packed array. */
  lemma SlotFormulaInRange(size: int, lo: int, hi: int)
    requires 0 <= lo < hi < size
    ensures 0 <= SlotFormula(size, lo, hi) < SlotCount(size)
  {
    SlotFormulaInRow(size, lo, hi);
    RowStartMonotone(size, 0, lo);
    RowStartMonotone(size, lo + 1, size);
    RowStartIsSlotCount(size);
  }

  /** Distinct pairs are addressed by distinct cells. */
  lemma SlotFormulaInjective(size: int, lo1: int, hi1: int, lo2: int, hi2: int)
    requires 0 <= lo1 < hi1 < size && 0 <= lo2 < hi2 < size
    requires SlotFormula(size, lo1, hi1) == SlotFormula(size, lo2, hi2)
    ensures lo1 == lo2 && hi1 == hi2
  {
    SlotFormulaInRow(size, lo1, hi1);
    SlotFormulaInRow(size, lo2, hi2);
    if lo1 < lo2 {
      RowStartMonotone(size, lo1 + 1, lo2);
    } else if lo2 < lo1 {
      RowStartMonotone(size, lo2 + 1, lo1);
    }
  }

  /** The pair addressed by `slot`, searched row by row from `row` on. */
  function PairInRow(size: int, slot: int, row: nat): (p: (int, int))
    requires row < size
    requires RowStart(size, row) <= slot < SlotCount(size)
    ensures row <= p.0 < p.1 < size && SlotFormula(size, p.0, p.1) == slot
    decreases size - row
  {
    RowStartIsSlotCount(size);
    if slot < RowStart(size, row + 1) then
      var hi := slot - RowStart(size, row) + row + 1;
      SlotFormulaInRow(size, row, hi);
      (row, hi)
    else
      RowStartMonotone(size, row + 1, size);
      PairInRow(size, slot, row + 1)
  }

  /** Inverse of the address formula: every cell of the packed array is the
      address of some pair `lo < hi`, so the formula maps the pairs onto the
      whole array. */
  function PairOfSlot(size: int, slot: int): (p: (int, int))
    requires 0 <= slot < SlotCount(size)
    requires 0 < size
    ensures 0 <= p.0 < p.1 < size && SlotFormula(size, p.0, p.1) == slot
  {
    PairInRow(size, slot, 0)
  }

  /** Decoding the address of a pair gives back the pair. */
  lemma SlotFormulaRoundTrip(size: int, lo: int, hi: int)
    requires 0 <= lo < hi < size
    ensures 0 <= SlotFormula(size, lo, hi) < SlotCount(size)
    ensures PairOfSlot(size, SlotFormula(size, lo, hi)) == (lo, hi)
  {
    var slot := SlotFormula(size, lo, hi);
    SlotFormulaInRange(size, lo, hi);
    var p := PairOfSlot(size, slot);
    SlotFormulaInjective(size, lo, hi, p.0, p.1);
  }

  /** The ordered address of two distinct indices is in range, does not
      depend on their order and decodes to the ordered pair. */
  lemma CanonicalSlotDecodes(size: int, id1: int, id2: int)
    requires 0 <= id1 < size && 0 <= id2 < size && id1 != id2
    ensures CanonicalSlot(size, id1, id2) == CanonicalSlot(size, id2, id1)
    ensures 0 <= CanonicalSlot(size, id1, id2) < SlotCount(size)
    ensures PairOfSlot(size, CanonicalSlot(size, id1, id2))
            == (if id1 < id2 then (id1, id2) else (id2, id1))
  {
    if id1 < id2 {
      SlotFormulaInRange(size, id1, id2);
      SlotFormulaRoundTrip(size, id1, id2);
    } else {
      SlotFormulaInRange(size, id2, id1);
      SlotFormulaRoundTrip(size, id2, id1);
    }
  }
}
