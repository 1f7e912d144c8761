/** Index arithmetic of the residual array for N collocation steps.

    The array has 4 + 26*N slots. Step i owns the 26-wide block starting at
    26*i: offsets 0..13 hold the seven defect pairs of the transition from
    step i to step i+1 (component j at offset 2*j), offsets 14..25 hold the
    six bound pairs (quantity q at offset 14 + 2*q). The last step has no
    transition, so offsets 0..13 of its block are never written. The four
    slots from 26*N on hold the two anchor pairs (x, then z).

    A Slot names what a residual index holds; Index and Classify translate
    between the two and are mutually inverse, which is what makes every
    write land inside the array and no slot be written twice. */
module Layout {
  import opened Encoding

  /** Length of the residual array for n steps. */
  function ResidualCount(n: nat): nat
  {
    4 + 26 * n
  }

  /** What one residual slot holds. */
  datatype Slot =
    | DefectSlot(step: nat, comp: nat, side: Side)     // defect of component comp between step and step+1
    | BoundSlot(step: nat, quantity: nat, side: Side)   // box bound on quantity 0..5 at step
    | AnchorSlot(anchor: nat, side: Side)               // 0: x of the first step, 1: z of the first step
    | Unwritten(offset: nat)                            // one of the 14 defect slots of the last step

  /** The slots that exist for n steps. */
  predicate ValidSlot(n: nat, s: Slot)
  {
    match s
    case DefectSlot(i, j, _) => i + 1 < n && j < 7
    case BoundSlot(i, q, _) => i < n && q < 6
    case AnchorSlot(a, _) => a < 2
    case Unwritten(o) => 1 <= n && o < 14
  }

  /** Whether the constraint evaluation writes the slot. */
  predicate Written(s: Slot)
  {
    !s.Unwritten?
  }

  /** The residual index a slot occupies; it always lies inside the array. */
  function Index(n: nat, s: Slot): (k: int)
    requires ValidSlot(n, s)
    ensures 0 <= k < ResidualCount(n)
    ensures s.AnchorSlot? <==> k >= 26 * n
  {
    match s
    case DefectSlot(i, j, side) => 26 * i + 2 * j + SideOffset(side)
    case BoundSlot(i, q, side) => 26 * i + 14 + 2 * q + SideOffset(side)
    case AnchorSlot(a, side) => 26 * n + 2 * a + SideOffset(side)
    case Unwritten(o) => 26 * (n - 1) + o
  }

  /** The slot held at residual index k: every index of the array is
      accounted for by exactly one slot. */
  function Classify(n: nat, k: int): (s: Slot)
    requires 0 <= k < ResidualCount(n)
    ensures ValidSlot(n, s)
    ensures Index(n, s) == k
  {
    if k >= 26 * n then
      AnchorSlot((k - 26 * n) / 2, SideAt((k - 26 * n) % 2))
    else
      var i, o := k / 26, k % 26;
      if o >= 14 then BoundSlot(i, (o - 14) / 2, SideAt((o - 14) % 2))
      else if i + 1 < n then DefectSlot(i, o / 2, SideAt(o % 2))
      else Unwritten(o)
  }

  /** Classify undoes Index: the slot recovered from a slot's index is that slot. */
  lemma ClassifyIndex(n: nat, s: Slot)
    requires ValidSlot(n, s)
    ensures Classify(n, Index(n, s)) == s
  {
    var k := Index(n, s);
    match s
    case DefectSlot(i, j, side) =>
      assert k == 26 * i + (2 * j + SideOffset(side));
      DivMod26(i, 2 * j + SideOffset(side));
    case BoundSlot(i, q, side) =>
      assert k == 26 * i + (14 + 2 * q + SideOffset(side));
      DivMod26(i, 14 + 2 * q + SideOffset(side));
    case AnchorSlot(a, side) =>
    case Unwritten(o) =>
      DivMod26(n - 1, o);
  }

  /** Quotient and remainder of a block start plus an in-block offset. */
  lemma DivMod26(i: int, o: int)
    requires 0 <= i && 0 <= o < 26
    ensures (26 * i + o) / 26 == i && (26 * i + o) % 26 == o
  {
  }

  /** No residual index is occupied by two distinct slots; in particular
      the evaluation never writes the same index twice. */
  lemma IndexInjective(n: nat, s: Slot, t: Slot)
    requires ValidSlot(n, s) && ValidSlot(n, t)
    requires Index(n, s) == Index(n, t)
    ensures s == t
  {
    ClassifyIndex(n, s);
    ClassifyIndex(n, t);
  }

  /** The last step's transition slots 26*(n-1) .. 26*(n-1)+13 are never
      written: no written slot occupies any of them, and every index outside
      them is occupied by a written slot. */
  lemma LastBlockDefectSlotsUnwritten(n: nat, k: int)
    requires 0 <= k < ResidualCount(n)
    ensures (exists s :: ValidSlot(n, s) && Written(s) && Index(n, s) == k)
            <==> !(1 <= n && 26 * (n - 1) <= k < 26 * (n - 1) + 14)
  {
    var c := Classify(n, k);
    if 1 <= n && 26 * (n - 1) <= k < 26 * (n - 1) + 14 {
      ClassifyIndex(n, Unwritten(k - 26 * (n - 1)));
      forall s | ValidSlot(n, s) && Index(n, s) == k
        ensures !Written(s)
      {
        IndexInjective(n, s, Unwritten(k - 26 * (n - 1)));
      }
    } else {
      assert !c.Unwritten?;
      assert ValidSlot(n, c) && Written(c) && Index(n, c) == k;
    }
  }
}
