/** Concrete runs of the mangler. The generator's first 54 ordinals yield one-character
    names, which the keyword filter never rejects; the scenarios assume just that much of it. */
module ManglerScenarios {
  import opened Slots
  import opened Keywords
  import opened Aggregation
  import opened Ordering
  import opened Naming
  import opened SymbolMangler
  import opened ScopeWalk

  /** The first `count` ordinals yield one-character names. */
  ghost predicate ShortPrefix(base54: nat -> string, count: nat)
  {
    forall i: nat :: i < count ==> |base54(i)| == 1
  }

  lemma ShortPrefixAccepted(base54: nat -> string, count: nat)
    requires ShortPrefix(base54, count)
    ensures forall i: nat :: i < count ==> !IsKeyword(base54(i))
  {
    forall i: nat | i < count
      ensures !IsKeyword(base54(i))
    {
      ShortNamesAccepted(base54(i));
    }
  }

  /** When every candidate from `start` on for `count` draws is accepted, the walk commits
      exactly the ordinals `start`, `start + 1`, ... */
  lemma {:induction false} OrdinalsWithoutKeywords(base54: nat -> string, count: nat, start: nat)
    requires Unstuck(base54)
    requires forall i: nat :: start <= i < start + count ==> !IsKeyword(base54(i))
    ensures forall p :: 0 <= p < count ==> Ordinals(count, base54, start)[p] == start + p
    decreases count
  {
    if count > 0 {
      assert NextAccepted(base54, start) == start;
      OrdinalsWithoutKeywords(base54, count - 1, start + 1);
      var rest := Ordinals(count - 1, base54, start + 1);
      assert Ordinals(count, base54, start) == [start] + rest;
    }
  }

  /** The table left by visiting rows with pairwise distinct indices covering `0..n`. */
  lemma TableOfPermutation(sorted: seq<Bucket>, n: nat, base54: nat -> string)
    requires Unstuck(base54)
    requires |sorted| == n
    requires IndicesBelow(sorted, n)
    requires forall p, q :: 0 <= p < q < n ==> sorted[p].index != sorted[q].index
    ensures forall p :: 0 <= p < n ==>
      Assign(sorted, seq(n, _ => ""), base54, 0)[sorted[p].index] == base54(Ordinals(n, base54, 0)[p])
  {
    AssignWrites(sorted, seq(n, _ => ""), base54, 0);
  }

  /** One symbol per row, rows numbered from `offset`: the symbol of row `offset + k`
      has `refs[k]` references. */
  function RowSymbols(refs: seq<nat>, offset: nat): seq<Symbol>
  {
    seq(|refs|, k requires 0 <= k < |refs| => Symbol(Slot(offset + k + 1), seq(refs[k], _ => 0)))
  }

  /** With one symbol per row, a row's frequency is its symbol's references plus one. */
  lemma {:induction false} RowSymbolsFrequency(refs: seq<nat>, offset: nat, k: nat)
    ensures Frequency(RowSymbols(refs, offset), k) == if offset <= k < offset + |refs| then refs[k - offset] + 1 else 0
    decreases |refs|
  {
    if |refs| > 0 {
      assert RowSymbols(refs, offset)[1..] == RowSymbols(refs[1..], offset + 1);
      RowSymbolsFrequency(refs[1..], offset + 1, k);
    }
  }

  /** With one symbol per row, the aggregation yields `(k, refs[k] + 1)` at each row `k`. */
  lemma RowSymbolsBuckets(refs: seq<nat>)
    ensures SlotsInRange(RowSymbols(refs, 0), |refs|)
    ensures AllUsed(RowSymbols(refs, 0), |refs|)
    ensures Buckets(RowSymbols(refs, 0), |refs|) == seq(|refs|, k requires 0 <= k < |refs| => Bucket(k, refs[k] + 1))
  {
    var symbols := RowSymbols(refs, 0);
    forall k | 0 <= k < |refs|
      ensures UsesIndex(symbols, k)
      ensures Frequency(symbols, k) == refs[k] + 1
    {
      assert symbols[k].slot.Index() == k;
      RowSymbolsFrequency(refs, 0, k);
    }
  }

  /** The documentation example's rows, 0 to 4, used 4, 2, 1, 2 and 1 times. */
  function DocumentationSymbols(): seq<Symbol>
  {
    RowSymbols([3, 1, 0, 1, 0], 0)
  }

  /** The sort places `x` after a leading row at least as frequent. */
  lemma InsertAfter(y: Bucket, s: seq<Bucket>, x: Bucket)
    requires y.frequency >= x.frequency
    ensures Insert([y] + s, x) == [y] + Insert(s, x)
  {
    assert ([y] + s)[1..] == s;
  }

  /** The sort handles one more row by inserting it into the sorted prefix. */
  lemma SortStep(s: seq<Bucket>, x: Bucket)
    ensures SortByFrequency(s + [x]) == Insert(SortByFrequency(s), x)
  {
    assert (s + [x])[..|s|] == s;
  }

  /** Two rows already in descending frequency stay where they are. */
  lemma SortTwoRows(b0: Bucket, b1: Bucket)
    requires b0.frequency >= b1.frequency
    ensures SortByFrequency([b0]) == [b0]
    ensures SortByFrequency([b0, b1]) == [b0, b1]
  {
    SortStep([], b0);
    SortStep([b0], b1);
    assert [] + [b0] == [b0] && [b0] + [b1] == [b0, b1];
    assert Insert([], b0) == [b0] && Insert([], b1) == [b1];
    InsertAfter(b0, [], b1);
  }

  /** Rows already in descending frequency stay where they are. */
  lemma SortThreeRows(b0: Bucket, b1: Bucket, b2: Bucket)
    requires b0.frequency >= b1.frequency >= b2.frequency
    ensures SortByFrequency([b0, b1, b2]) == [b0, b1, b2]
  {
    SortTwoRows(b0, b1);
    SortStep([b0, b1], b2);
    assert [b0, b1] + [b2] == [b0, b1, b2];
    assert [b1] + [b2] == [b1, b2] && [b0] + [b1, b2] == [b0, b1, b2];
    assert Insert([], b2) == [b2];
    InsertAfter(b1, [], b2);
    InsertAfter(b0, [b1], b2);
  }

  /** Sorting four rows of frequencies `f0 >= f1 >= f3 > f2` moves the fourth row forward
      past the third only. */
  lemma SortFourRows(b0: Bucket, b1: Bucket, b2: Bucket, b3: Bucket)
    requires b0.frequency >= b1.frequency >= b3.frequency > b2.frequency
    ensures SortByFrequency([b0, b1, b2, b3]) == [b0, b1, b3, b2]
  {
    SortThreeRows(b0, b1, b2);
    SortStep([b0, b1, b2], b3);
    assert [b0, b1, b2] + [b3] == [b0, b1, b2, b3];
    assert [b1] + [b3, b2] == [b1, b3, b2] && [b0] + [b1, b3, b2] == [b0, b1, b3, b2];
    assert Insert([b2], b3) == [b3, b2];
    InsertAfter(b1, [b2], b3);
    InsertAfter(b0, [b1, b2], b3);
  }

  /** Adding a fifth row no more frequent than the others puts it last. */
  lemma SortFiveRows(b0: Bucket, b1: Bucket, b2: Bucket, b3: Bucket, b4: Bucket)
    requires b0.frequency >= b1.frequency >= b3.frequency > b2.frequency >= b4.frequency
    ensures SortByFrequency([b0, b1, b2, b3, b4]) == [b0, b1, b3, b2, b4]
  {
    SortFourRows(b0, b1, b2, b3);
    SortStep([b0, b1, b2, b3], b4);
    assert [b0, b1, b2, b3] + [b4] == [b0, b1, b2, b3, b4];
    assert [b2] + [b4] == [b2, b4] && [b3] + [b2, b4] == [b3, b2, b4];
    assert [b1] + [b3, b2, b4] == [b1, b3, b2, b4] && [b0] + [b1, b3, b2, b4] == [b0, b1, b3, b2, b4];
    assert [b3] + [b2] == [b3, b2] && [b1] + [b3, b2] == [b1, b3, b2] && [b0] + [b1, b3, b2] == [b0, b1, b3, b2];
    assert Insert([], b4) == [b4];
    InsertAfter(b2, [], b4);
    InsertAfter(b3, [b2], b4);
    InsertAfter(b1, [b3, b2], b4);
    InsertAfter(b0, [b1, b3, b2], b4);
  }

  /** Rows of the documentation example are visited in the order 0, 1, 3, 2, 4. */
  lemma DocumentationOrder()
    ensures ProcessingOrder(DocumentationSymbols(), 5)
            == [Bucket(0, 4), Bucket(1, 2), Bucket(3, 2), Bucket(2, 1), Bucket(4, 1)]
  {
    RowSymbolsBuckets([3, 1, 0, 1, 0]);
    assert Buckets(DocumentationSymbols(), 5) == [Bucket(0, 4), Bucket(1, 2), Bucket(2, 1), Bucket(3, 2), Bucket(4, 1)];
    SortFiveRows(Bucket(0, 4), Bucket(1, 2), Bucket(2, 1), Bucket(3, 2), Bucket(4, 1));
  }

  /** The source's documentation example: rows used 4, 2, 1, 2 and 1 times receive the
      candidates of ordinals 0, 1, 3, 2 and 4, the names a, b, d, c and e. */
  lemma DocumentationExample(base54: nat -> string)
    requires Unstuck(base54)
    requires ShortPrefix(base54, 5)
    ensures FinalTable(DocumentationSymbols(), 5, base54)
            == [base54(0), base54(1), base54(3), base54(2), base54(4)]
  {
    var sorted := [Bucket(0, 4), Bucket(1, 2), Bucket(3, 2), Bucket(2, 1), Bucket(4, 1)];
    RowSymbolsBuckets([3, 1, 0, 1, 0]);
    DocumentationOrder();
    TableFollowsOrder(DocumentationSymbols(), 5, base54, sorted);
    var t := FinalTable(DocumentationSymbols(), 5, base54);
    assert t[sorted[2].index] == base54(2) && t[sorted[3].index] == base54(3);
    FiveEntries(t, base54(0), base54(1), base54(3), base54(2), base54(4));
  }

  /** When the first `n` candidates are one character long and the visited rows name each
      index once, the row visited `p`-th receives the candidate of ordinal `p`. */
  lemma TableFollowsOrder(symbols: seq<Symbol>, n: nat, base54: nat -> string, sorted: seq<Bucket>)
    requires SlotsInRange(symbols, n)
    requires Unstuck(base54)
    requires ShortPrefix(base54, n)
    requires ProcessingOrder(symbols, n) == sorted
    requires |sorted| == n && IndicesBelow(sorted, n)
    requires forall p, q :: 0 <= p < q < n ==> sorted[p].index != sorted[q].index
    ensures forall p :: 0 <= p < n ==> FinalTable(symbols, n, base54)[sorted[p].index] == base54(p)
  {
    ShortPrefixAccepted(base54, n);
    OrdinalsWithoutKeywords(base54, n, 0);
    TableOfPermutation(sorted, n, base54);
  }

  /** A table of five entries, given entry by entry. */
  lemma FiveEntries(t: seq<string>, a: string, b: string, c: string, d: string, e: string)
    requires |t| == 5
    requires t[0] == a && t[1] == b && t[2] == c && t[3] == d && t[4] == e
    ensures t == [a, b, c, d, e]
  {
  }

  /** A generator whose first candidate is a reserved word: the counter passes over it, and
      the two rows, used twice and once, receive the candidates of ordinals 1 and 2. */
  lemma KeywordCandidateIsSkipped(base54: nat -> string)
    requires Unstuck(base54)
    requires IsKeyword(base54(0))
    requires |base54(1)| == 1 && |base54(2)| == 1
    ensures FinalTable(RowSymbols([1, 0], 0), 2, base54) == [base54(1), base54(2)]
  {
    var symbols := RowSymbols([1, 0], 0);
    var b0, b1 := Bucket(0, 2), Bucket(1, 1);
    RowSymbolsBuckets([1, 0]);
    assert Buckets(symbols, 2) == [b0, b1];
    SortTwoRows(b0, b1);
    ShortNamesAccepted(base54(1));
    ShortNamesAccepted(base54(2));
    assert NextAccepted(base54, 0) == 1 by {
      assert IsFirstAccepted(base54, 0, 1);
    }
    OrdinalsWithoutKeywords(base54, 1, 2);
    assert Ordinals(2, base54, 0) == [1] + Ordinals(1, base54, 2);
    TableOfPermutation([b0, b1], 2, base54);
  }

  /** The events of two sibling scopes with one binding each. */
  function SiblingScopes(): seq<Event>
  {
    [EnterScope, DeclareBinding, EnterScope, DeclareBinding]
  }

  /** Bindings of sibling scopes share slot 1, and the high-water mark stops at slot 2. */
  lemma SiblingScopesShareSlot()
    ensures Walk(Default(), SiblingScopes()).1 == [Slot(1), Slot(1)]
    ensures Walk(Default(), SiblingScopes()).0.maxSlot == Slot(2)
  {
    var events := SiblingScopes();
    assert events[1..] == [DeclareBinding, EnterScope, DeclareBinding];
    assert events[1..][1..] == [EnterScope, DeclareBinding];
    assert events[1..][1..][1..] == [DeclareBinding];
    assert events[1..][1..][1..][1..] == [];
  }

  /** The two symbols of sibling scopes get one row, used twice, and the same first name. */
  lemma SiblingScopesShareName(base54: nat -> string)
    requires Unstuck(base54)
    requires |base54(0)| == 1
    ensures Walk(Default(), SiblingScopes()).0.maxSlot.IsSome()
    ensures SlotsInRange(RowSymbols([0], 0) + RowSymbols([0], 0), 1)
    ensures Finalize(Walk(Default(), SiblingScopes()).0, RowSymbols([0], 0) + RowSymbols([0], 0), base54).mangledNames
            == [base54(0)]
  {
    SiblingScopesShareSlot();
    var one := RowSymbols([0], 0);
    var symbols := one + one;
    assert UsesIndex(symbols, 0) by {
      assert symbols[0].slot.Index() == 0;
    }
    FrequencyConcat(one, one, 0);
    RowSymbolsFrequency([0], 0, 0);
    assert Buckets(symbols, 1) == [Bucket(0, 2)];
    SortTwoRows(Bucket(0, 2), Bucket(0, 2));
    ShortNamesAccepted(base54(0));
    OrdinalsWithoutKeywords(base54, 1, 0);
    TableOfPermutation([Bucket(0, 2)], 1, base54);
  }

  /** The source's fallback for rows no symbol uses, as written: with two rows of which only
      row 0 is used, the default entry `(0, 0)` of row 1 is visited after row 0 and overwrites
      its name, while row 1 keeps the empty name. A walk that links every slot it hands out
      never reaches this case (see `ResolverMeetsFinalizePreconditions`). */
  lemma UnusedRowOverwritesRowZero(base54: nat -> string)
    requires Unstuck(base54)
    requires ShortPrefix(base54, 2)
    ensures !AllUsed(RowSymbols([0], 0), 2)
    ensures FinalTable(RowSymbols([0], 0), 2, base54) == [base54(1), ""]
  {
    var symbols := RowSymbols([0], 0);
    var b0, b1 := Bucket(0, 1), Bucket(0, 0);
    assert !UsesIndex(symbols, 1);
    RowSymbolsFrequency([0], 0, 0);
    RowSymbolsFrequency([0], 0, 1);
    assert UsesIndex(symbols, 0) by {
      assert symbols[0].slot.Index() == 0;
    }
    assert Buckets(symbols, 2) == [b0, b1];
    SortTwoRows(b0, b1);
    ShortPrefixAccepted(base54, 2);
    OrdinalsWithoutKeywords(base54, 2, 0);
    AssignWrites([b0, b1], seq(2, _ => ""), base54, 0);
    assert LastWriter([b0, b1], 1);
  }

  /** A third row more frequent than the second moves in front of it. */
  lemma SortThreeRowsLastForward(b0: Bucket, b1: Bucket, b2: Bucket)
    requires b0.frequency >= b2.frequency > b1.frequency
    ensures SortByFrequency([b0, b1, b2]) == [b0, b2, b1]
  {
    SortTwoRows(b0, b1);
    SortStep([b0, b1], b2);
    assert [b0, b1] + [b2] == [b0, b1, b2];
    assert [b2] + [b1] == [b2, b1] && [b0] + [b2, b1] == [b0, b2, b1];
    assert Insert([b1], b2) == [b2, b1];
    InsertAfter(b0, [b1], b2);
  }

  /** The events of one scope declaring three bindings. */
  function ThreeBindings(): seq<Event>
  {
    [EnterScope] + Bindings(3)
  }

  /** One scope with three bindings: the walk numbers them slots 1 to 3. */
  lemma ThreeBindingsSlots()
    ensures Walk(Default(), ThreeBindings()).1 == [Slot(1), Slot(2), Slot(3)]
  {
    ScopeNumbersFromOne(Default(), 3);
    SlotsOneToThree(Walk(Default(), ThreeBindings()).1);
  }

  /** Three slots numbered 1, 2 and 3 in order. */
  lemma SlotsOneToThree(slots: seq<Slot>)
    requires |slots| == 3
    requires forall i :: 0 <= i < 3 ==> slots[i] == Slot(i + 1)
    ensures slots == [Slot(1), Slot(2), Slot(3)]
  {
    assert slots[0] == Slot(1) && slots[1] == Slot(2) && slots[2] == Slot(3);
  }

  /** One scope with three bindings leaves the high-water mark at slot 4, a table of
      three rows. */
  lemma ThreeBindingsHighWater()
    ensures Walk(Default(), ThreeBindings()).0.maxSlot == Slot(4)
  {
    assert ThreeBindings()[1..] == Bindings(3);
    BindingsNumberConsecutively(ResetSlot(Default()), 3);
  }

  /** Rows used 6, 2 and 4 times are named in the order row 0, row 2, row 1. */
  lemma ThreeBindingsTable(base54: nat -> string)
    requires Unstuck(base54)
    requires ShortPrefix(base54, 3)
    ensures FinalTable(RowSymbols([5, 1, 3], 0), 3, base54) == [base54(0), base54(2), base54(1)]
  {
    RowSymbolsBuckets([5, 1, 3]);
    ThreeRowsOrder();
    ThreeRowsTable(base54);
  }

  /** Rows used 6, 2 and 4 times are visited in the order row 0, row 2, row 1. */
  lemma ThreeRowsOrder()
    ensures ProcessingOrder(RowSymbols([5, 1, 3], 0), 3) == [Bucket(0, 6), Bucket(2, 4), Bucket(1, 2)]
  {
    var b0, b1, b2 := Bucket(0, 6), Bucket(1, 2), Bucket(2, 4);
    RowSymbolsBuckets([5, 1, 3]);
    assert Buckets(RowSymbols([5, 1, 3], 0), 3) == [b0, b1, b2];
    SortThreeRowsLastForward(b0, b1, b2);
  }

  /** Visiting row 0, row 2 and row 1 with no reserved word among the first three candidates
      names them with candidates 0, 1 and 2. */
  lemma ThreeRowsTable(base54: nat -> string)
    requires Unstuck(base54)
    requires ShortPrefix(base54, 3)
    ensures Assign([Bucket(0, 6), Bucket(2, 4), Bucket(1, 2)], seq(3, _ => ""), base54, 0)
            == [base54(0), base54(2), base54(1)]
  {
    ShortPrefixAccepted(base54, 3);
    OrdinalsWithoutKeywords(base54, 3, 0);
    TableOfPermutation([Bucket(0, 6), Bucket(2, 4), Bucket(1, 2)], 3, base54);
  }

  /** One scope declares three bindings referenced 5, 1 and 3 times: slot 1 gets ordinal 0,
      slot 3 ordinal 1 and slot 2 ordinal 2. */
  lemma ThreeBindingsOneScope(base54: nat -> string)
    requires Unstuck(base54)
    requires ShortPrefix(base54, 3)
    ensures Walk(Default(), ThreeBindings()).0.maxSlot == Slot(4)
    ensures SlotsInRange(RowSymbols([5, 1, 3], 0), 3)
    ensures Finalize(Walk(Default(), ThreeBindings()).0, RowSymbols([5, 1, 3], 0), base54).mangledNames
            == [base54(0), base54(2), base54(1)]
  {
    ThreeBindingsHighWater();
    RowSymbolsBuckets([5, 1, 3]);
    ThreeBindingsTable(base54);
  }
}
