/** The symbol mangler: a slot allocator driven by the scope walk, and a finalization
    pass that gives the most used slot rows the earliest generated names.

    Example from the source's documentation: slot rows used 4, 2, 1, 2 and 1 times are
    processed in the order row 0, row 1, row 3, row 2, row 4, so they receive the
    candidates of ordinals 0, 1, 3, 2 and 4 respectively (see `DocumentationExample`). */
module SymbolMangler {
  import opened Slots
  import opened Keywords
  import opened Aggregation
  import opened Ordering
  import opened Naming

  /** The mangler's state: the per-scope slot counter, the high-water mark over the whole
      tree, and the table of mangled names, whose row `i` belongs to slot `i + 1`. */
  datatype Mangler = Mangler(currentSlot: Slot, maxSlot: Slot, mangledNames: seq<string>)

  /** A fresh mangler: both counters at the unassigned slot and an empty table. */
  function Default(): Mangler
  {
    Mangler(Unassigned, Unassigned, [])
  }

  /** Hands out the current slot and advances the counter, raising the high-water mark
      when the counter passes it. */
  function NextSlot(m: Mangler): (r: (Mangler, Slot))
    ensures r.1 == m.currentSlot
    ensures r.0.currentSlot.value == m.currentSlot.value + 1
    ensures r.0.maxSlot.value >= m.maxSlot.value
    ensures r.0.maxSlot.value >= r.0.currentSlot.value
    ensures r.0.maxSlot == m.maxSlot || r.0.maxSlot == r.0.currentSlot
    ensures r.0.mangledNames == m.mangledNames
  {
    var slot := m.currentSlot;
    var current := slot.Increment();
    var max := if current.value > m.maxSlot.value then current else m.maxSlot;
    (m.(currentSlot := current, maxSlot := max), slot)
  }

  /** Restarts slot numbering on entering a scope; the high-water mark is kept. */
  function ResetSlot(m: Mangler): (r: Mangler)
    ensures r.currentSlot.IsSome() && r.currentSlot.Index() == 0
    ensures r.maxSlot == m.maxSlot
    ensures r.mangledNames == m.mangledNames
  {
    m.(currentSlot := Slot(1))
  }

  /** The name the emitter prints for a symbol in `slot`. */
  function MangledName(m: Mangler, slot: Slot): string
    requires slot.IsSome() && slot.Index() < |m.mangledNames|
  {
    m.mangledNames[slot.Index()]
  }

  /** Before any scope is entered the counter stands at the unassigned slot, so the first
      slot handed out is the unassigned one. */
  lemma SlotBeforeFirstScopeIsUnassigned()
    ensures NextSlot(Default()).1 == Unassigned
    ensures !NextSlot(Default()).1.IsSome()
  {
  }

  /** The first binding of a scope gets slot 1, that is, row 0 of the table. */
  lemma FirstSlotOfScope(m: Mangler)
    ensures NextSlot(ResetSlot(m)).1 == Slot(1)
    ensures NextSlot(ResetSlot(m)).1.Index() == 0
  {
  }

  /** The rows in the order the finalization pass visits them. */
  function ProcessingOrder(symbols: seq<Symbol>, n: nat): seq<Bucket>
  {
    SortByFrequency(Buckets(symbols, n))
  }

  /** Every row the pass visits points into the table, even the default rows. */
  lemma ProcessingOrderIndicesBelow(symbols: seq<Symbol>, n: nat)
    ensures IndicesBelow(ProcessingOrder(symbols, n), n)
  {
    var bs := Buckets(symbols, n);
    var sorted := ProcessingOrder(symbols, n);
    SortPermutes(bs);
    forall p | 0 <= p < |sorted|
      ensures sorted[p].index < n
    {
      assert sorted[p] in multiset(bs);
      var k :| 0 <= k < |bs| && bs[k] == sorted[p];
    }
  }

  /** The table the finalization pass produces: `n` rows, none of them a reserved word. */
  function FinalTable(symbols: seq<Symbol>, n: nat, base54: nat -> string): (t: seq<string>)
    requires SlotsInRange(symbols, n)
    requires Unstuck(base54)
    ensures |t| == n
    ensures forall k :: 0 <= k < n ==> !IsKeyword(t[k])
  {
    ProcessingOrderIndicesBelow(symbols, n);
    var initial := seq(n, _ => "");
    ShortNamesAccepted("");
    AssignCommitsOnlyAccepted(ProcessingOrder(symbols, n), initial, base54, 0);
    Assign(ProcessingOrder(symbols, n), initial, base54, 0)
  }

  /** The mangler after the finalization pass: the counters are untouched and the table has
      one row per slot up to the high-water mark. */
  function Finalize(m: Mangler, symbols: seq<Symbol>, base54: nat -> string): (r: Mangler)
    requires m.maxSlot.IsSome()
    requires SlotsInRange(symbols, m.maxSlot.Index())
    requires Unstuck(base54)
    ensures r.currentSlot == m.currentSlot && r.maxSlot == m.maxSlot
    ensures |r.mangledNames| == m.maxSlot.Index()
    ensures forall k :: 0 <= k < |r.mangledNames| ==> !IsKeyword(r.mangledNames[k])
  {
    m.(mangledNames := FinalTable(symbols, m.maxSlot.Index(), base54))
  }

  /** The candidate loop of the source: draw candidates from ordinal `i` upward until the
      filter accepts one; `next` is the counter after the accepted draw. */
  method DrawName(base54: nat -> string, i: nat) returns (name: string, next: nat)
    requires Unstuck(base54)
    ensures next == NextAccepted(base54, i) + 1
    ensures name == base54(next - 1)
    ensures !IsKeyword(name)
  {
    ghost var first := NextAccepted(base54, i);
    name := base54(i);
    next := i + 1;
    while IsKeyword(name)
      invariant i <= next - 1 <= first
      invariant name == base54(next - 1)
      decreases first - next
    {
      name := base54(next);
      next := next + 1;
    }
  }

  /** The finalization pass as the source runs it: tally, sort, then one shared counter
      that skips keyword candidates and writes each accepted name at its row. */
  method ComputeSlotFrequency(m: Mangler, symbols: seq<Symbol>, base54: nat -> string) returns (r: Mangler)
    requires m.maxSlot.IsSome()
    requires SlotsInRange(symbols, m.maxSlot.Index())
    requires Unstuck(base54)
    ensures r == Finalize(m, symbols, base54)
  {
    var n := m.maxSlot.Index();
    var frequencies := TallyFrequencies(symbols, n);
    var sorted := SortByFrequency(frequencies);
    ProcessingOrderIndicesBelow(symbols, n);
    var names := seq(n, _ => "");
    ghost var initial := names;
    var i := 0;
    for p := 0 to |sorted|
      invariant |names| == n
      invariant Assign(sorted[p..], names, base54, i) == Assign(sorted, initial, base54, 0)
    {
      var name;
      name, i := DrawName(base54, i);
      assert sorted[p..][1..] == sorted[p + 1..];
      names := names[sorted[p].index := name];
    }
    r := m.(mangledNames := names);
  }

  /** Slot row `a` comes before row `b` in the processing order: used more, or used as
      much and numbered lower. */
  predicate RankedBefore(symbols: seq<Symbol>, a: nat, b: nat)
  {
    a != b &&
    (Frequency(symbols, a) > Frequency(symbols, b) ||
     (Frequency(symbols, a) == Frequency(symbols, b) && a < b))
  }

  /** Where the last row naming index `k` stands in `s`, or -1 when none does. */
  function PositionOf(s: seq<Bucket>, k: nat): (p: int)
    ensures -1 <= p < |s|
    ensures p >= 0 ==> s[p].index == k && LastWriter(s, p)
    ensures p < 0 ==> forall q :: 0 <= q < |s| ==> s[q].index != k
  {
    if |s| == 0 then -1
    else if s[|s| - 1].index == k then |s| - 1
    else PositionOf(s[..|s| - 1], k)
  }

  /** When every row is used, row `k` of the aggregation holds `(k, Frequency(k))`. */
  lemma BucketsWhenAllUsed(symbols: seq<Symbol>, n: nat)
    requires AllUsed(symbols, n)
    ensures forall k :: 0 <= k < n ==> Buckets(symbols, n)[k] == Bucket(k, Frequency(symbols, k))
  {
  }

  /** When every row is used, each visited row is the row of its own index. */
  lemma VisitedRowsAreGenuine(symbols: seq<Symbol>, n: nat)
    requires AllUsed(symbols, n)
    ensures forall p :: 0 <= p < |ProcessingOrder(symbols, n)| ==>
      ProcessingOrder(symbols, n)[p].index < n &&
      ProcessingOrder(symbols, n)[p] == Bucket(ProcessingOrder(symbols, n)[p].index, Frequency(symbols, ProcessingOrder(symbols, n)[p].index))
    ensures forall k :: 0 <= k < n ==> PositionOf(ProcessingOrder(symbols, n), k) >= 0
  {
    var bs := Buckets(symbols, n);
    var sorted := ProcessingOrder(symbols, n);
    BucketsWhenAllUsed(symbols, n);
    SortPermutes(bs);
    forall p | 0 <= p < |sorted|
      ensures sorted[p].index < n && sorted[p] == Bucket(sorted[p].index, Frequency(symbols, sorted[p].index))
    {
      assert sorted[p] in multiset(bs);
      var k :| 0 <= k < |bs| && bs[k] == sorted[p];
    }
    forall k | 0 <= k < n
      ensures PositionOf(sorted, k) >= 0
    {
      assert bs[k] in multiset(sorted);
      var p :| 0 <= p < |sorted| && sorted[p] == bs[k];
      assert sorted[p].index == k;
    }
  }

  /** The ordinal whose candidate row `k` receives, when every row is used. */
  function SlotOrdinal(symbols: seq<Symbol>, n: nat, base54: nat -> string, k: nat): nat
    requires AllUsed(symbols, n)
    requires Unstuck(base54)
    requires k < n
  {
    VisitedRowsAreGenuine(symbols, n);
    Ordinals(n, base54, 0)[PositionOf(ProcessingOrder(symbols, n), k)]
  }

  /** The central guarantee of the pass, when every row is used: row `k` of the table is the
      candidate of its slot ordinal, and slot ordinals are ordered exactly by descending
      frequency, ties broken by ascending row. */
  lemma {:induction false} TableFollowsFrequency(symbols: seq<Symbol>, n: nat, base54: nat -> string)
    requires SlotsInRange(symbols, n)
    requires AllUsed(symbols, n)
    requires Unstuck(base54)
    ensures forall k :: 0 <= k < n ==> FinalTable(symbols, n, base54)[k] == base54(SlotOrdinal(symbols, n, base54, k))
    ensures forall a, b :: 0 <= a < n && 0 <= b < n ==>
      (SlotOrdinal(symbols, n, base54, a) < SlotOrdinal(symbols, n, base54, b) <==> RankedBefore(symbols, a, b))
  {
    var sorted := ProcessingOrder(symbols, n);
    var ords := Ordinals(n, base54, 0);
    var initial := seq(n, _ => "");
    BucketsTiesAscending(symbols, n);
    SortedWhenTiesAscending(Buckets(symbols, n));
    ProcessingOrderIndicesBelow(symbols, n);
    VisitedRowsAreGenuine(symbols, n);
    AssignWrites(sorted, initial, base54, 0);
    assert |sorted| == n;
    forall k | 0 <= k < n
      ensures FinalTable(symbols, n, base54)[k] == base54(SlotOrdinal(symbols, n, base54, k))
    {
      var p := PositionOf(sorted, k);
      assert sorted[p].index == k && LastWriter(sorted, p);
    }
    forall a, b | 0 <= a < n && 0 <= b < n
      ensures SlotOrdinal(symbols, n, base54, a) < SlotOrdinal(symbols, n, base54, b) <==> RankedBefore(symbols, a, b)
    {
      var pa := PositionOf(sorted, a);
      var pb := PositionOf(sorted, b);
      assert SlotOrdinal(symbols, n, base54, a) == ords[pa];
      assert SlotOrdinal(symbols, n, base54, b) == ords[pb];
      if pa < pb {
        assert Precedes(sorted[pa], sorted[pb]);
      } else if pb < pa {
        assert Precedes(sorted[pb], sorted[pa]);
      }
    }
  }

  /** Distinct slot rows receive distinct ordinals. */
  lemma DistinctRowsGetDistinctOrdinals(symbols: seq<Symbol>, n: nat, base54: nat -> string, a: nat, b: nat)
    requires SlotsInRange(symbols, n)
    requires AllUsed(symbols, n)
    requires Unstuck(base54)
    requires a < n && b < n && a != b
    ensures SlotOrdinal(symbols, n, base54, a) != SlotOrdinal(symbols, n, base54, b)
  {
    TableFollowsFrequency(symbols, n, base54);
    assert RankedBefore(symbols, a, b) || RankedBefore(symbols, b, a);
  }

  /** A strictly more used slot row receives a strictly earlier ordinal. */
  lemma MoreFrequentGetsEarlierOrdinal(symbols: seq<Symbol>, n: nat, base54: nat -> string, a: nat, b: nat)
    requires SlotsInRange(symbols, n)
    requires AllUsed(symbols, n)
    requires Unstuck(base54)
    requires a < n && b < n
    requires Frequency(symbols, a) > Frequency(symbols, b)
    ensures SlotOrdinal(symbols, n, base54, a) < SlotOrdinal(symbols, n, base54, b)
  {
    assert RankedBefore(symbols, a, b);
    TableFollowsFrequency(symbols, n, base54);
  }

  /** A row some symbol uses is visited by the pass, even when other rows are unused. */
  lemma UsedRowIsVisited(symbols: seq<Symbol>, n: nat, k: nat)
    requires k < n && UsesIndex(symbols, k)
    ensures PositionOf(ProcessingOrder(symbols, n), k) >= 0
  {
    var bs := Buckets(symbols, n);
    var sorted := ProcessingOrder(symbols, n);
    SortPermutes(bs);
    assert bs[k] == Bucket(k, Frequency(symbols, k));
    assert bs[k] in multiset(sorted);
    var p :| 0 <= p < |sorted| && sorted[p] == bs[k];
    assert sorted[p].index == k;
  }

  /** With an injective generator, distinct used slot rows receive distinct names. Rows no
      symbol uses may be present: they only overwrite row 0, and with an ordinal of their own. */
  lemma DistinctRowsGetDistinctNames(symbols: seq<Symbol>, n: nat, base54: nat -> string, a: nat, b: nat)
    requires SlotsInRange(symbols, n)
    requires Injective(base54)
    requires a < n && b < n && a != b
    requires UsesIndex(symbols, a) && UsesIndex(symbols, b)
    ensures Unstuck(base54)
    ensures FinalTable(symbols, n, base54)[a] != FinalTable(symbols, n, base54)[b]
  {
    InjectiveIsUnstuck(base54);
    var sorted := ProcessingOrder(symbols, n);
    var initial := seq(n, _ => "");
    ProcessingOrderIndicesBelow(symbols, n);
    AssignWrites(sorted, initial, base54, 0);
    UsedRowIsVisited(symbols, n, a);
    UsedRowIsVisited(symbols, n, b);
    var pa := PositionOf(sorted, a);
    var pb := PositionOf(sorted, b);
    assert sorted[pa].index == a && LastWriter(sorted, pa);
    assert sorted[pb].index == b && LastWriter(sorted, pb);
    var ords := Ordinals(|sorted|, base54, 0);
    assert pa != pb;
    assert ords[pa] != ords[pb];
  }

  /** What the emitter reads for an assigned slot after finalization: never a reserved word
      and, when every row is used, the candidate of that slot's ordinal. */
  lemma MangledNameAfterFinalize(m: Mangler, symbols: seq<Symbol>, base54: nat -> string, slot: Slot)
    requires m.maxSlot.IsSome()
    requires SlotsInRange(symbols, m.maxSlot.Index())
    requires Unstuck(base54)
    requires slot.IsSome() && slot.Index() < m.maxSlot.Index()
    ensures !IsKeyword(MangledName(Finalize(m, symbols, base54), slot))
    ensures AllUsed(symbols, m.maxSlot.Index()) ==>
      MangledName(Finalize(m, symbols, base54), slot) == base54(SlotOrdinal(symbols, m.maxSlot.Index(), base54, slot.Index()))
  {
    if AllUsed(symbols, m.maxSlot.Index()) {
      TableFollowsFrequency(symbols, m.maxSlot.Index(), base54);
    }
  }
}
