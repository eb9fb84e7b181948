/** state/proposal.rs: the two vote bitmaps of a proposal. */
module Ballots {

  /** `1u16 << idx`; without overflow checks the shift amount is taken modulo 16. */
  function Mask(idx: nat): (m: bv16)
  {
    1 << (idx % 16)
  }

  predicate Test(bitmap: bv16, mask: bv16)
  {
    bitmap & mask != 0
  }

  /** `bitmap |= mask`. */
  function SetMask(bitmap: bv16, mask: bv16): (b: bv16)
  {
    bitmap | mask
  }

  /** `bitmap &= !mask`. */
  function ClearMask(bitmap: bv16, mask: bv16): (b: bv16)
  {
    bitmap & !mask
  }

  /** `has_approved_by_index` and `has_cancelled_by_index`. */
  predicate Has(bitmap: bv16, idx: nat)
  {
    Test(bitmap, Mask(idx))
  }

  function CountBelow(bitmap: bv16, n: nat): (c: nat)
  {
    if n == 0 then 0 else CountBelow(bitmap, n - 1) + if Has(bitmap, n - 1) then 1 else 0
  }

  /** `count_ones`. */
  function Count(bitmap: bv16): (c: nat)
  {
    CountBelow(bitmap, 16)
  }

  /** The votes of one proposal. */
  datatype Ballot = Ballot(approvals: bv16, cancellations: bv16) {

    /** `set_approval`. */
    function Approve(idx: nat): (b: Ballot)
    {
      Ballot(SetMask(approvals, Mask(idx)), ClearMask(cancellations, Mask(idx)))
    }

    /** `set_cancellation`. */
    function Cancel(idx: nat): (b: Ballot)
    {
      Ballot(ClearMask(approvals, Mask(idx)), SetMask(cancellations, Mask(idx)))
    }

    /** No slot both approves and cancels, and only the first `n` slots vote. */
    predicate Proper(n: nat)
    {
      && (forall i :: 0 <= i < 16 ==> !(Has(approvals, i) && Has(cancellations, i)))
      && (forall i :: n <= i < 16 ==> !Has(approvals, i) && !Has(cancellations, i))
    }
  }

  lemma MaskTable(idx: nat)
    requires idx < 16
    ensures Mask(idx) == [0x1, 0x2, 0x4, 0x8, 0x10, 0x20, 0x40, 0x80,
                          0x100, 0x200, 0x400, 0x800, 0x1000, 0x2000, 0x4000, 0x8000][idx]
  {
    assert idx == 0 || idx == 1 || idx == 2 || idx == 3 || idx == 4 || idx == 5 || idx == 6 || idx == 7
        || idx == 8 || idx == 9 || idx == 10 || idx == 11 || idx == 12 || idx == 13 || idx == 14 || idx == 15;
  }

  /** Distinct slots have disjoint non-zero masks. */
  lemma MaskDisjoint(i: nat, j: nat)
    requires i < 16 && j < 16
    ensures Mask(i) != 0
    ensures i != j ==> Mask(i) != Mask(j) && !Test(Mask(i), Mask(j))
  {
    MaskTable(i);
    MaskTable(j);
  }

  lemma OrDisjoint(b: bv16, m: bv16, k: bv16)
    requires m & k == 0
    ensures (b | m) & k == b & k
  {}

  lemma OrSelf(b: bv16, m: bv16)
    ensures (b | m) & m == m
  {}

  lemma AndNotTest(b: bv16, m: bv16, k: bv16)
    requires m & k == 0
    ensures (b & !m) & k == b & k
  {}

  lemma AndNotSelf(b: bv16, m: bv16)
    ensures (b & !m) & m == 0
  {}

  lemma SetTest(b: bv16, m: bv16, k: bv16)
    requires m != 0 && (m == k || !Test(m, k))
    ensures Test(SetMask(b, m), k) <==> m == k || Test(b, k)
  {
    if m == k {
      OrSelf(b, m);
    } else {
      OrDisjoint(b, m, k);
    }
  }

  lemma ClearTest(b: bv16, m: bv16, k: bv16)
    requires m != 0 && (m == k || !Test(m, k))
    ensures Test(ClearMask(b, m), k) <==> m != k && Test(b, k)
  {
    if m == k {
      AndNotSelf(b, m);
    } else {
      AndNotTest(b, m, k);
    }
  }

  lemma SetBit(bitmap: bv16, i: nat, j: nat)
    requires i < 16 && j < 16
    ensures Has(SetMask(bitmap, Mask(i)), j) <==> i == j || Has(bitmap, j)
  {
    hide Mask, Test, SetMask;
    MaskDisjoint(i, j);
    SetTest(bitmap, Mask(i), Mask(j));
  }

  lemma ClearBit(bitmap: bv16, i: nat, j: nat)
    requires i < 16 && j < 16
    ensures Has(ClearMask(bitmap, Mask(i)), j) <==> i != j && Has(bitmap, j)
  {
    hide Mask, Test, ClearMask;
    MaskDisjoint(i, j);
    ClearTest(bitmap, Mask(i), Mask(j));
  }

  lemma {:induction false} CountSet(bitmap: bv16, i: nat, n: nat)
    requires i < 16 && n <= 16
    ensures CountBelow(SetMask(bitmap, Mask(i)), n) == CountBelow(bitmap, n) + if i < n && !Has(bitmap, i) then 1 else 0
  {
    hide Mask, Has, SetMask, ClearMask;
    if n > 0 {
      CountSet(bitmap, i, n - 1);
      SetBit(bitmap, i, n - 1);
    }
  }

  lemma {:induction false} CountClear(bitmap: bv16, i: nat, n: nat)
    requires i < 16 && n <= 16
    ensures CountBelow(ClearMask(bitmap, Mask(i)), n) == CountBelow(bitmap, n) - if i < n
            && Has(bitmap, i) then 1 else 0
  {
    hide Mask, Has, SetMask, ClearMask;
    if n > 0 {
      CountClear(bitmap, i, n - 1);
      ClearBit(bitmap, i, n - 1);
    }
  }

  /** What an approval by slot `idx` does to every bit; the slot's own is the one at `idx` modulo 16. */
  lemma ApproveBits(b: Ballot, idx: nat, j: nat)
    requires j < 16
    ensures Has(b.Approve(idx).approvals, j) <==> j == idx % 16 || Has(b.approvals, j)
    ensures Has(b.Approve(idx).cancellations, j) <==> j != idx % 16 && Has(b.cancellations, j)
  {
    Wraps(idx);
    hide Mask, Has, SetMask, ClearMask;
    SetBit(b.approvals, idx % 16, j);
    ClearBit(b.cancellations, idx % 16, j);
  }

  /** The same for a cancellation. */
  lemma CancelBits(b: Ballot, idx: nat, j: nat)
    requires j < 16
    ensures Has(b.Cancel(idx).cancellations, j) <==> j == idx % 16 || Has(b.cancellations, j)
    ensures Has(b.Cancel(idx).approvals, j) <==> j != idx % 16 && Has(b.approvals, j)
  {
    Wraps(idx);
    hide Mask, Has, SetMask, ClearMask;
    SetBit(b.cancellations, idx % 16, j);
    ClearBit(b.approvals, idx % 16, j);
  }

  lemma Wraps(idx: nat)
    ensures Mask(idx % 16) == Mask(idx)
    ensures forall bitmap :: Has(bitmap, idx % 16) <==> Has(bitmap, idx)
  {
    assert idx % 16 % 16 == idx % 16;
    hide Test;
  }

  /** An approval by a slot that has not approved: one more approval, no cancellation by it, and votes stay proper. */
  lemma ApproveEffect(b: Ballot, idx: nat, n: nat)
    requires idx < n && b.Proper(n) && !Has(b.approvals, idx)
    ensures var a := b.Approve(idx);
            && a.Proper(n)
            && Count(a.approvals) == Count(b.approvals) + 1
            && Count(a.cancellations) == Count(b.cancellations) - if Has(b.cancellations, idx) then 1 else 0
  {
    Wraps(idx);
    hide Mask, Has, SetMask, ClearMask, Ballot.Approve;
    forall j | 0 <= j < 16
      ensures Has(b.Approve(idx).approvals, j) <==> j == idx % 16 || Has(b.approvals, j)
      ensures Has(b.Approve(idx).cancellations, j) <==> j != idx % 16 && Has(b.cancellations, j)
    {
      ApproveBits(b, idx, j);
    }
    ApproveCounts(b, idx);
  }

  lemma ApproveCounts(b: Ballot, idx: nat)
    ensures Count(b.Approve(idx).approvals) == Count(b.approvals) + if Has(b.approvals, idx) then 0 else 1
    ensures Count(b.Approve(idx).cancellations) == Count(b.cancellations) - if Has(b.cancellations, idx) then 1 else 0
  {
    Wraps(idx);
    hide Mask, Has, SetMask, ClearMask;
    CountSet(b.approvals, idx % 16, 16);
    CountClear(b.cancellations, idx % 16, 16);
  }

  /** A cancellation by a slot that has not cancelled. */
  lemma CancelEffect(b: Ballot, idx: nat, n: nat)
    requires idx < n && b.Proper(n) && !Has(b.cancellations, idx)
    ensures var c := b.Cancel(idx);
            && c.Proper(n)
            && Count(c.cancellations) == Count(b.cancellations) + 1
            && Count(c.approvals) == Count(b.approvals) - if Has(b.approvals, idx) then 1 else 0
  {
    Wraps(idx);
    hide Mask, Has, SetMask, ClearMask, Ballot.Cancel;
    forall j | 0 <= j < 16
      ensures Has(b.Cancel(idx).cancellations, j) <==> j == idx % 16 || Has(b.cancellations, j)
      ensures Has(b.Cancel(idx).approvals, j) <==> j != idx % 16 && Has(b.approvals, j)
    {
      CancelBits(b, idx, j);
    }
    CancelCounts(b, idx);
  }

  lemma CancelCounts(b: Ballot, idx: nat)
    ensures Count(b.Cancel(idx).cancellations) == Count(b.cancellations) + if Has(b.cancellations, idx) then 0 else 1
    ensures Count(b.Cancel(idx).approvals) == Count(b.approvals) - if Has(b.approvals, idx) then 1 else 0
  {
    Wraps(idx);
    hide Mask, Has, SetMask, ClearMask;
    CountSet(b.cancellations, idx % 16, 16);
    CountClear(b.approvals, idx % 16, 16);
  }

  lemma {:induction false} EmptyCount(n: nat)
    ensures CountBelow(0, n) == 0
  {
    if n > 0 {
      EmptyCount(n - 1);
    }
  }

  lemma EmptyBallot(n: nat)
    ensures Ballot(0, 0).Proper(n) && Count(0) == 0
  {
    EmptyCount(16);
    hide Mask;
  }

  /** The slots that vote, as a set; its size is the count. */
  function Slots(bitmap: bv16, n: nat): (s: set<nat>)
  {
    set i | 0 <= i < n && Has(bitmap, i)
  }

  lemma {:induction false} SlotsCount(bitmap: bv16, n: nat)
    ensures |Slots(bitmap, n)| == CountBelow(bitmap, n)
  {
    hide Has;
    if n > 0 {
      SlotsCount(bitmap, n - 1);
      if Has(bitmap, n - 1) {
        assert Slots(bitmap, n) == Slots(bitmap, n - 1) + {n - 1};
      } else {
        assert Slots(bitmap, n) == Slots(bitmap, n - 1);
      }
    }
  }
}
