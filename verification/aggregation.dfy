/** Aggregation of usage counts per slot row: the first half of the mangler's
    finalization pass. */
module Aggregation {
  import opened Slots

  /** A reference is identified by an opaque number; only how many a symbol has matters here. */
  type ReferenceId = nat

  /** The part of a semantic symbol the mangler reads: its slot and its references. */
  datatype Symbol = Symbol(slot: Slot, references: seq<ReferenceId>)

  /** One row of the aggregation table: a slot row and the usage count gathered for it. */
  datatype Bucket = Bucket(index: nat, frequency: nat)

  /** What one symbol adds to row `k`: its references plus one for the declaration
      itself, provided its slot is assigned and sits at row `k`. */
  function Contribution(s: Symbol, k: nat): nat
  {
    if s.slot.IsSome() && s.slot.Index() == k then |s.references| + 1 else 0
  }

  /** The aggregated frequency of row `k`: the sum of the contributions of all symbols. */
  function Frequency(symbols: seq<Symbol>, k: nat): nat
  {
    if |symbols| == 0 then 0 else Contribution(symbols[0], k) + Frequency(symbols[1..], k)
  }

  /** Some symbol with an assigned slot sits at row `k`. */
  predicate UsesIndex(symbols: seq<Symbol>, k: nat)
  {
    exists i :: 0 <= i < |symbols| && symbols[i].slot.IsSome() && symbols[i].slot.Index() == k
  }

  /** Every assigned slot fits in a table of `n` rows; the source indexes out of bounds otherwise. */
  predicate SlotsInRange(symbols: seq<Symbol>, n: nat)
  {
    forall i :: 0 <= i < |symbols| && symbols[i].slot.IsSome() ==> symbols[i].slot.Index() < n
  }

  /** Every one of the `n` rows is used by at least one symbol. */
  predicate AllUsed(symbols: seq<Symbol>, n: nat)
  {
    forall k :: 0 <= k < n ==> UsesIndex(symbols, k)
  }

  /** The table the aggregation loop leaves behind: a used row `k` holds `(k, Frequency(k))`,
      and a row no symbol uses keeps the default entry `(0, 0)`. */
  function Buckets(symbols: seq<Symbol>, n: nat): seq<Bucket>
  {
    seq(n, k requires 0 <= k < n => Bucket(if UsesIndex(symbols, k) then k else 0, Frequency(symbols, k)))
  }

  /** Frequencies add up over concatenation of symbol lists. */
  lemma {:induction false} FrequencyConcat(a: seq<Symbol>, b: seq<Symbol>, k: nat)
    ensures Frequency(a + b, k) == Frequency(a, k) + Frequency(b, k)
    decreases |a|
  {
    if |a| == 0 {
      assert a + b == b;
    } else {
      assert (a + b)[1..] == a[1..] + b;
      FrequencyConcat(a[1..], b, k);
    }
  }

  /** Appending one symbol adds exactly its contribution: the step of the aggregation loop. */
  lemma FrequencyAppend(a: seq<Symbol>, s: Symbol, k: nat)
    ensures Frequency(a + [s], k) == Frequency(a, k) + Contribution(s, k)
  {
    FrequencyConcat(a, [s], k);
    assert [s][1..] == [];
  }

  /** A symbol whose slot is unassigned adds nothing to any row, wherever it stands. */
  lemma UnassignedContributesNothing(a: seq<Symbol>, refs: seq<ReferenceId>, b: seq<Symbol>, k: nat)
    ensures Frequency(a + [Symbol(Unassigned, refs)] + b, k) == Frequency(a + b, k)
  {
    FrequencyConcat(a + [Symbol(Unassigned, refs)], b, k);
    FrequencyAppend(a, Symbol(Unassigned, refs), k);
    FrequencyConcat(a, b, k);
  }

  /** A row has a positive frequency exactly when some symbol uses it, because each
      using symbol contributes at least one (its declaration). */
  lemma {:induction false} FrequencyPositiveIffUsed(symbols: seq<Symbol>, k: nat)
    ensures Frequency(symbols, k) > 0 <==> UsesIndex(symbols, k)
    decreases |symbols|
  {
    if |symbols| > 0 {
      FrequencyPositiveIffUsed(symbols[1..], k);
      if UsesIndex(symbols[1..], k) {
        var i :| 0 <= i < |symbols[1..]| && symbols[1..][i].slot.IsSome() && symbols[1..][i].slot.Index() == k;
        assert symbols[i + 1] == symbols[1..][i];
      }
      if UsesIndex(symbols, k) && Contribution(symbols[0], k) == 0 {
        var i :| 0 <= i < |symbols| && symbols[i].slot.IsSome() && symbols[i].slot.Index() == k;
        assert i != 0;
        assert symbols[1..][i - 1] == symbols[i];
      }
    }
  }

  /** The aggregation loop of the source: start from `n` default rows and, for each symbol
      with an assigned slot, stamp the row with its index and add the symbol's weight. */
  method TallyFrequencies(symbols: seq<Symbol>, n: nat) returns (frequencies: seq<Bucket>)
    requires SlotsInRange(symbols, n)
    ensures |frequencies| == n
    ensures frequencies == Buckets(symbols, n)
  {
    frequencies := seq(n, _ => Bucket(0, 0));
    for i := 0 to |symbols|
      invariant |frequencies| == n
      invariant forall k :: 0 <= k < n ==>
        frequencies[k] == Bucket(if UsesIndex(symbols[..i], k) then k else 0, Frequency(symbols[..i], k))
    {
      var symbol := symbols[i];
      assert symbols[..i + 1] == symbols[..i] + [symbol];
      forall k | 0 <= k < n
        ensures Frequency(symbols[..i + 1], k) == Frequency(symbols[..i], k) + Contribution(symbol, k)
        ensures UsesIndex(symbols[..i + 1], k) <==>
          UsesIndex(symbols[..i], k) || (symbol.slot.IsSome() && symbol.slot.Index() == k)
      {
        FrequencyAppend(symbols[..i], symbol, k);
        if UsesIndex(symbols[..i + 1], k) && !(symbol.slot.IsSome() && symbol.slot.Index() == k) {
          var j :| 0 <= j < i + 1 && symbols[..i + 1][j].slot.IsSome() && symbols[..i + 1][j].slot.Index() == k;
          assert j < i && symbols[..i][j] == symbols[..i + 1][j];
        }
        if UsesIndex(symbols[..i], k) {
          var j :| 0 <= j < i && symbols[..i][j].slot.IsSome() && symbols[..i][j].slot.Index() == k;
          assert symbols[..i + 1][j] == symbols[..i][j];
        }
        if symbol.slot.IsSome() && symbol.slot.Index() == k {
          assert symbols[..i + 1][i] == symbol;
        }
      }
      if symbol.slot.IsSome() {
        var index := symbol.slot.Index();
        frequencies := frequencies[index := Bucket(index, frequencies[index].frequency + |symbol.references| + 1)];
      }
    }
    assert symbols[..|symbols|] == symbols;
  }
}
