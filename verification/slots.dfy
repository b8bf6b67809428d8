/** A slot is the occurrence index of a binding identifier inside its scope.
    Slots are 1-based; the value 0 is the sentinel "unassigned", for symbols that
    keep their original name and take no part in mangling. */
module Slots {

  datatype Slot = Slot(value: nat) {

    /** True when the slot has been assigned by the allocator. */
    predicate IsSome() {
      value != 0
    }

    /** The zero-based position of an assigned slot in the mangled-name table.
        The source subtracts one from an unsigned integer, which cannot succeed
        for the unassigned slot, hence the precondition. */
    function Index(): (i: nat)
      requires IsSome()
      ensures Slot(i + 1) == this
    {
      value - 1
    }

    /** The following slot; it is always assigned and sits one table row further on. */
    function Increment(): (s: Slot)
      ensures s.IsSome()
      ensures s.Index() == value
      ensures s.value > value
    {
      Slot(value + 1)
    }
  }

  /** The slot a symbol carries when the allocator never numbered it. */
  const Unassigned: Slot := Slot(0)

  /** Distinct assigned slots occupy distinct table rows, and every row has exactly one slot. */
  lemma IndexIsBijective(s: Slot, t: Slot)
    requires s.IsSome() && t.IsSome()
    ensures s.Index() == t.Index() <==> s == t
    ensures Slot(s.Index() + 1) == s
  {
  }
}
