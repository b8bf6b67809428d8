/** The calls the semantic builder makes into the allocator while walking the tree: one
    slot request per binding, and a reset whenever the builder decides to restart the
    numbering. Which scopes reset is the builder's choice, not modelled here: the source's
    documentation example shows a nested function continuing its parent's numbering. `Walk`
    accepts any interleaving of the two calls. */
module ScopeWalk {
  import opened Slots
  import opened Aggregation
  import opened Naming
  import opened SymbolMangler

  /** One call of the resolver into the allocator. */
  datatype Event = EnterScope | DeclareBinding

  /** `count` bindings declared in a row. */
  function Bindings(count: nat): (events: seq<Event>)
    ensures |events| == count
    ensures forall i :: 0 <= i < count ==> events[i] == DeclareBinding
  {
    seq(count, _ => DeclareBinding)
  }

  /** How many bindings `events` declares. */
  function CountBindings(events: seq<Event>): nat
  {
    if |events| == 0 then 0
    else (if events[0] == DeclareBinding then 1 else 0) + CountBindings(events[1..])
  }

  /** Replays `events` from state `m`: the final state and the slots handed out, in order. */
  function Walk(m: Mangler, events: seq<Event>): (r: (Mangler, seq<Slot>))
    ensures r.0.maxSlot.value >= m.maxSlot.value
    ensures r.0.mangledNames == m.mangledNames
    ensures |r.1| == CountBindings(events)
    ensures DeclareBinding in events ==> |r.1| > 0
    decreases |events|
  {
    if |events| == 0 then (m, [])
    else
      match events[0]
      case EnterScope =>
        Walk(ResetSlot(m), events[1..])
      case DeclareBinding =>
        var (m1, slot) := NextSlot(m);
        var (m2, rest) := Walk(m1, events[1..]);
        (m2, [slot] + rest)
  }

  /** The slot values in `slots`. */
  function Values(slots: seq<Slot>): set<nat>
  {
    set s | s in slots :: s.value
  }

  /** Allocator bookkeeping relative to the values handed out so far: every assigned value
      below the counter and below the high-water mark has been handed out, and every value
      handed out lies below the high-water mark. */
  ghost predicate Covered(m: Mangler, issued: set<nat>)
  {
    && (forall v :: 1 <= v < m.currentSlot.value ==> v in issued)
    && (forall v :: 1 <= v < m.maxSlot.value ==> v in issued)
    && (forall v :: v in issued ==> v < m.maxSlot.value)
  }

  /** Every call of the resolver keeps the bookkeeping. */
  lemma {:induction false} WalkKeepsCovered(m: Mangler, events: seq<Event>, issued: set<nat>)
    requires Covered(m, issued)
    ensures Covered(Walk(m, events).0, issued + Values(Walk(m, events).1))
    decreases |events|
  {
    if |events| > 0 {
      match events[0]
      case EnterScope =>
        WalkKeepsCovered(ResetSlot(m), events[1..], issued);
      case DeclareBinding =>
        var (m1, slot) := NextSlot(m);
        var (m2, rest) := Walk(m1, events[1..]);
        assert Walk(m, events) == (m2, [slot] + rest);
        assert Covered(m1, issued + {slot.value});
        WalkKeepsCovered(m1, events[1..], issued + {slot.value});
        assert Values([slot] + rest) == {slot.value} + Values(rest);
        assert issued + Values([slot] + rest) == (issued + {slot.value}) + Values(rest);
    }
  }

  /** Within one scope, consecutive bindings receive consecutive slots starting from the
      counter, and the high-water mark ends one past the last of them unless it was
      already higher. */
  lemma {:induction false} BindingsNumberConsecutively(m: Mangler, count: nat)
    ensures |Walk(m, Bindings(count)).1| == count
    ensures forall i :: 0 <= i < count ==> Walk(m, Bindings(count)).1[i] == Slot(m.currentSlot.value + i)
    ensures Walk(m, Bindings(count)).0.currentSlot.value == m.currentSlot.value + count
    ensures count > 0 ==> Walk(m, Bindings(count)).0.maxSlot.value
                          == if m.maxSlot.value >= m.currentSlot.value + count then m.maxSlot.value
                             else m.currentSlot.value + count
    decreases count
  {
    if count > 0 {
      var events := Bindings(count);
      var (m1, slot) := NextSlot(m);
      assert events[1..] == Bindings(count - 1);
      BindingsNumberConsecutively(m1, count - 1);
      var (m2, rest) := Walk(m1, events[1..]);
      assert Walk(m, events) == (m2, [slot] + rest);
    }
  }

  /** Entering a scope and declaring `count` bindings hands out slots 1 to `count`. */
  lemma ScopeNumbersFromOne(m: Mangler, count: nat)
    ensures |Walk(m, [EnterScope] + Bindings(count)).1| == count
    ensures forall i :: 0 <= i < count ==> Walk(m, [EnterScope] + Bindings(count)).1[i] == Slot(i + 1)
  {
    var events := [EnterScope] + Bindings(count);
    assert events[1..] == Bindings(count);
    BindingsNumberConsecutively(ResetSlot(m), count);
  }

  /** Every symbol carries either the unassigned slot or a slot the walk handed out. */
  ghost predicate SlotsFromWalk(symbols: seq<Symbol>, slots: seq<Slot>)
  {
    forall i :: 0 <= i < |symbols| ==> symbols[i].slot == Unassigned || symbols[i].slot in slots
  }

  /** Every assigned slot the walk handed out is carried by some symbol. */
  ghost predicate EverySlotLinked(symbols: seq<Symbol>, slots: seq<Slot>)
  {
    forall s :: s in slots && s.IsSome() ==> exists i :: 0 <= i < |symbols| && symbols[i].slot == s
  }

  /** A resolver that links its symbols to exactly the slots it was handed meets every
      precondition of the finalization pass: the high-water mark is assigned, every symbol's
      row fits in the table, and every row of the table is used. The source's fallback for
      unused rows is therefore never exercised. */
  lemma ResolverMeetsFinalizePreconditions(events: seq<Event>, symbols: seq<Symbol>)
    requires DeclareBinding in events
    requires SlotsFromWalk(symbols, Walk(Default(), events).1)
    requires EverySlotLinked(symbols, Walk(Default(), events).1)
    ensures Walk(Default(), events).0.maxSlot.IsSome()
    ensures SlotsInRange(symbols, Walk(Default(), events).0.maxSlot.Index())
    ensures AllUsed(symbols, Walk(Default(), events).0.maxSlot.Index())
  {
    WalkMeetsRangePreconditions(events, symbols);
    WalkRowsUsed(events, symbols);
  }

  /** When every handed-out slot is linked and the mark is assigned, every row is used. */
  lemma WalkRowsUsed(events: seq<Event>, symbols: seq<Symbol>)
    requires Walk(Default(), events).0.maxSlot.IsSome()
    requires EverySlotLinked(symbols, Walk(Default(), events).1)
    ensures AllUsed(symbols, Walk(Default(), events).0.maxSlot.Index())
  {
    var (m, slots) := Walk(Default(), events);
    WalkKeepsCovered(Default(), events, {});
    assert {} + Values(slots) == Values(slots);
    CoveredRowsUsed(m, slots, symbols);
  }

  /** Without asking that every handed-out slot be linked: the high-water mark is assigned
      and every symbol's row fits in the table. */
  lemma WalkMeetsRangePreconditions(events: seq<Event>, symbols: seq<Symbol>)
    requires DeclareBinding in events
    requires SlotsFromWalk(symbols, Walk(Default(), events).1)
    ensures Walk(Default(), events).0.maxSlot.IsSome()
    ensures SlotsInRange(symbols, Walk(Default(), events).0.maxSlot.Index())
  {
    var (m, slots) := Walk(Default(), events);
    WalkKeepsCovered(Default(), events, {});
    assert {} + Values(slots) == Values(slots);
    CoveredSlotsInRange(m, slots, symbols);
  }

  /** The range facts, for any state whose bookkeeping covers the handed-out slots. */
  lemma CoveredSlotsInRange(m: Mangler, slots: seq<Slot>, symbols: seq<Symbol>)
    requires |slots| > 0
    requires Covered(m, Values(slots))
    requires SlotsFromWalk(symbols, slots)
    ensures m.maxSlot.IsSome()
    ensures SlotsInRange(symbols, m.maxSlot.Index())
  {
    assert slots[0].value in Values(slots);
    var n := m.maxSlot.Index();
    forall i | 0 <= i < |symbols| && symbols[i].slot.IsSome()
      ensures symbols[i].slot.Index() < n
    {
      assert symbols[i].slot.value in Values(slots);
    }
  }

  /** Every row below the high-water mark is used, for any state whose bookkeeping covers
      the handed-out slots when every one of them is linked. */
  lemma CoveredRowsUsed(m: Mangler, slots: seq<Slot>, symbols: seq<Symbol>)
    requires Covered(m, Values(slots))
    requires m.maxSlot.IsSome()
    requires EverySlotLinked(symbols, slots)
    ensures AllUsed(symbols, m.maxSlot.Index())
  {
    var n := m.maxSlot.Index();
    forall k | 0 <= k < n
      ensures UsesIndex(symbols, k)
    {
      assert k + 1 in Values(slots);
      var s :| s in slots && s.value == k + 1;
      assert s.IsSome();
      var i :| 0 <= i < |symbols| && symbols[i].slot == s;
      assert symbols[i].slot.Index() == k;
    }
  }

  /** End to end: after a walk whose symbols carry only slots it handed out, and with an
      injective generator, symbols in different slots receive different names and symbols
      sharing a slot share its name. Handed-out slots no symbol carries do not disturb this. */
  lemma LinkedSymbolsGetDistinctNames(events: seq<Event>, symbols: seq<Symbol>, base54: nat -> string, i: nat, j: nat)
    requires DeclareBinding in events
    requires SlotsFromWalk(symbols, Walk(Default(), events).1)
    requires Injective(base54)
    requires i < |symbols| && j < |symbols|
    requires symbols[i].slot.IsSome() && symbols[j].slot.IsSome()
    ensures Walk(Default(), events).0.maxSlot.IsSome()
    ensures SlotsInRange(symbols, Walk(Default(), events).0.maxSlot.Index())
    ensures Unstuck(base54)
    ensures symbols[i].slot.Index() < Walk(Default(), events).0.maxSlot.Index()
    ensures symbols[j].slot.Index() < Walk(Default(), events).0.maxSlot.Index()
    ensures var final := Finalize(Walk(Default(), events).0, symbols, base54);
      MangledName(final, symbols[i].slot) == MangledName(final, symbols[j].slot) <==> symbols[i].slot == symbols[j].slot
  {
    var m := Walk(Default(), events).0;
    WalkMeetsRangePreconditions(events, symbols);
    InjectiveIsUnstuck(base54);
    var a := symbols[i].slot.Index();
    var b := symbols[j].slot.Index();
    if a != b {
      assert UsesIndex(symbols, a);
      assert UsesIndex(symbols, b);
      DistinctRowsGetDistinctNames(symbols, m.maxSlot.Index(), base54, a, b);
    }
  }
}
