/** The name-assignment walk: one shared ordinal counter runs through the rows in
    processing order, skipping candidates the keyword filter rejects. The name
    generator itself is a parameter `base54`, mapping an ordinal to a candidate name. */
module Naming {
  import opened Keywords
  import opened Aggregation

  /** Some ordinal at or after `i` yields a candidate the filter accepts. */
  ghost predicate AcceptedFrom(base54: nat -> string, i: nat)
  {
    exists j: nat :: i <= j && !IsKeyword(base54(j))
  }

  /** The generator never yields only keywords from some point on: the condition under
      which the source's candidate loop always ends. */
  ghost predicate Unstuck(base54: nat -> string)
  {
    forall i: nat :: AcceptedFrom(base54, i)
  }

  /** Distinct ordinals yield distinct candidates. */
  ghost predicate Injective(base54: nat -> string)
  {
    forall i: nat, j: nat :: i != j ==> base54(i) != base54(j)
  }

  /** `r` is the first ordinal at or after `i` whose candidate the filter accepts. */
  ghost predicate IsFirstAccepted(base54: nat -> string, i: nat, r: nat)
  {
    && i <= r
    && !IsKeyword(base54(r))
    && forall m :: i <= m < r ==> IsKeyword(base54(m))
  }

  lemma {:induction false} FirstAcceptedExists(base54: nat -> string, i: nat, j: nat)
    requires i <= j && !IsKeyword(base54(j))
    ensures exists r: nat :: IsFirstAccepted(base54, i, r)
    decreases j - i
  {
    if IsKeyword(base54(i)) {
      FirstAcceptedExists(base54, i + 1, j);
      var r: nat :| IsFirstAccepted(base54, i + 1, r);
      assert IsFirstAccepted(base54, i, r);
    } else {
      assert IsFirstAccepted(base54, i, i);
    }
  }

  /** The first accepted ordinal, as a specification: it bounds the search below. */
  ghost function FirstAccepted(base54: nat -> string, i: nat): (r: nat)
    requires AcceptedFrom(base54, i)
    ensures IsFirstAccepted(base54, i, r)
  {
    var j: nat :| i <= j && !IsKeyword(base54(j));
    FirstAcceptedExists(base54, i, j);
    var r: nat :| IsFirstAccepted(base54, i, r);
    r
  }

  /** There is only one first accepted ordinal. */
  lemma FirstAcceptedUnique(base54: nat -> string, i: nat, r1: nat, r2: nat)
    requires IsFirstAccepted(base54, i, r1) && IsFirstAccepted(base54, i, r2)
    ensures r1 == r2
  {
  }

  /** The candidate loop of the source: try ordinals from `i` upward and stop at the first
      whose candidate is not a keyword. */
  function NextAccepted(base54: nat -> string, i: nat): (r: nat)
    requires Unstuck(base54)
    ensures IsFirstAccepted(base54, i, r)
    decreases FirstAccepted(base54, i) - i
  {
    if !IsKeyword(base54(i)) then i
    else
      assert AcceptedFrom(base54, i + 1);
      FirstAcceptedUnique(base54, i, FirstAccepted(base54, i), FirstAccepted(base54, i + 1));
      NextAccepted(base54, i + 1)
  }

  /** The ordinals committed to `count` consecutive rows when the shared counter starts at `start`. */
  function Ordinals(count: nat, base54: nat -> string, start: nat): (r: seq<nat>)
    requires Unstuck(base54)
    ensures |r| == count
    ensures forall p :: 0 <= p < count ==> start <= r[p] && !IsKeyword(base54(r[p]))
    ensures forall p, q :: 0 <= p < q < count ==> r[p] < r[q]
    decreases count
  {
    if count == 0 then []
    else
      var o := NextAccepted(base54, start);
      [o] + Ordinals(count - 1, base54, o + 1)
  }

  /** The walk wastes no ordinal: every ordinal passed over before the last committed one
      either was committed or names a keyword. */
  lemma {:induction false} OrdinalsSkipOnlyKeywords(count: nat, base54: nat -> string, start: nat, m: nat)
    requires Unstuck(base54)
    requires count > 0
    requires start <= m <= Ordinals(count, base54, start)[count - 1]
    requires m !in Ordinals(count, base54, start)
    ensures IsKeyword(base54(m))
    decreases count
  {
    var o := NextAccepted(base54, start);
    var r := Ordinals(count, base54, start);
    assert r[0] == o;
    if m >= o + 1 {
      var rest := Ordinals(count - 1, base54, o + 1);
      assert r == [o] + rest;
      assert count > 1;
      assert rest[count - 2] == r[count - 1];
      assert m !in rest;
      OrdinalsSkipOnlyKeywords(count - 1, base54, o + 1, m);
    }
  }

  /** All rows of `sorted` point into a table of `n` names. */
  predicate IndicesBelow(sorted: seq<Bucket>, n: nat)
  {
    forall p :: 0 <= p < |sorted| ==> sorted[p].index < n
  }

  /** Walks the rows in order, committing the next accepted candidate to each row's index
      in `names`; the counter continues from one past the committed ordinal. */
  function Assign(sorted: seq<Bucket>, names: seq<string>, base54: nat -> string, start: nat): (r: seq<string>)
    requires Unstuck(base54)
    requires IndicesBelow(sorted, |names|)
    ensures |r| == |names|
    decreases |sorted|
  {
    if |sorted| == 0 then names
    else
      var o := NextAccepted(base54, start);
      Assign(sorted[1..], names[sorted[0].index := base54(o)], base54, o + 1)
  }

  /** Every entry of the table either keeps its old value or holds an accepted candidate. */
  lemma {:induction false} AssignCommitsOnlyAccepted(sorted: seq<Bucket>, names: seq<string>, base54: nat -> string, start: nat)
    requires Unstuck(base54)
    requires IndicesBelow(sorted, |names|)
    ensures forall k :: 0 <= k < |names| ==>
      Assign(sorted, names, base54, start)[k] == names[k] || !IsKeyword(Assign(sorted, names, base54, start)[k])
    decreases |sorted|
  {
    if |sorted| > 0 {
      var o := NextAccepted(base54, start);
      var names1 := names[sorted[0].index := base54(o)];
      AssignCommitsOnlyAccepted(sorted[1..], names1, base54, o + 1);
    }
  }

  /** Position `p` is the last row of `sorted` naming its index. */
  predicate LastWriter(sorted: seq<Bucket>, p: nat)
    requires p < |sorted|
  {
    forall q :: p < q < |sorted| ==> sorted[q].index != sorted[p].index
  }

  /** An index no row names keeps its old entry. */
  lemma {:induction false} AssignKeepsUnwritten(sorted: seq<Bucket>, names: seq<string>, base54: nat -> string, start: nat, k: nat)
    requires Unstuck(base54)
    requires IndicesBelow(sorted, |names|)
    requires k < |names|
    requires forall p :: 0 <= p < |sorted| ==> sorted[p].index != k
    ensures Assign(sorted, names, base54, start)[k] == names[k]
    decreases |sorted|
  {
    if |sorted| > 0 {
      var o := NextAccepted(base54, start);
      var tail := sorted[1..];
      assert forall q :: 0 <= q < |tail| ==> tail[q] == sorted[q + 1];
      AssignKeepsUnwritten(tail, names[sorted[0].index := base54(o)], base54, o + 1, k);
    }
  }

  /** One step of the walk: the first row takes the first accepted candidate from `start`. */
  lemma AssignStep(sorted: seq<Bucket>, names: seq<string>, base54: nat -> string, start: nat)
    requires Unstuck(base54)
    requires IndicesBelow(sorted, |names|)
    requires |sorted| > 0
    ensures IndicesBelow(sorted[1..], |names|)
    ensures Assign(sorted, names, base54, start)
            == Assign(sorted[1..], names[sorted[0].index := base54(NextAccepted(base54, start))], base54, NextAccepted(base54, start) + 1)
  {
  }

  /** When no later row names the first row's index, no row of the tail does. */
  lemma TailAvoidsHeadIndex(sorted: seq<Bucket>)
    requires |sorted| > 0 && LastWriter(sorted, 0)
    ensures forall q :: 0 <= q < |sorted[1..]| ==> sorted[1..][q].index != sorted[0].index
  {
    forall q | 0 <= q < |sorted[1..]|
      ensures sorted[1..][q].index != sorted[0].index
    {
      assert sorted[1..][q] == sorted[q + 1];
    }
  }

  /** The first row keeps the first accepted candidate when no row of the tail names its index. */
  lemma AssignWritesHead(sorted: seq<Bucket>, names: seq<string>, base54: nat -> string, start: nat)
    requires Unstuck(base54)
    requires IndicesBelow(sorted, |names|)
    requires |sorted| > 0
    requires forall q :: 0 <= q < |sorted[1..]| ==> sorted[1..][q].index != sorted[0].index
    ensures Assign(sorted, names, base54, start)[sorted[0].index] == base54(NextAccepted(base54, start))
  {
    var o := NextAccepted(base54, start);
    AssignStep(sorted, names, base54, start);
    AssignKeepsUnwritten(sorted[1..], names[sorted[0].index := base54(o)], base54, o + 1, sorted[0].index);
  }

  /** Dropping the first ordinal leaves the ordinals counted from one past it. */
  lemma OrdinalsShift(count: nat, base54: nat -> string, start: nat, p: nat)
    requires Unstuck(base54)
    requires 0 < p < count
    ensures Ordinals(count, base54, start)[p] == Ordinals(count - 1, base54, NextAccepted(base54, start) + 1)[p - 1]
  {
  }

  /** The last row to name an index stays the last one once the first row is dropped. */
  lemma LastWriterInTail(sorted: seq<Bucket>, p: nat)
    requires 0 < p < |sorted| && LastWriter(sorted, p)
    ensures sorted[1..][p - 1] == sorted[p]
    ensures LastWriter(sorted[1..], p - 1)
  {
    var tail := sorted[1..];
    forall q | p - 1 < q < |tail|
      ensures tail[q].index != tail[p - 1].index
    {
      assert tail[q] == sorted[q + 1];
    }
  }

  /** An index written by several rows keeps the name committed to the last of them. */
  lemma {:induction false} AssignWritesLast(sorted: seq<Bucket>, names: seq<string>, base54: nat -> string, start: nat, p: nat)
    requires Unstuck(base54)
    requires IndicesBelow(sorted, |names|)
    requires p < |sorted| && LastWriter(sorted, p)
    ensures Assign(sorted, names, base54, start)[sorted[p].index] == base54(Ordinals(|sorted|, base54, start)[p])
    decreases |sorted|
  {
    if p == 0 {
      AssignWritesFirst(sorted, names, base54, start);
    } else {
      var o := NextAccepted(base54, start);
      var tail, names1 := sorted[1..], names[sorted[0].index := base54(o)];
      OrdinalsShift(|sorted|, base54, start, p);
      LastWriterInTail(sorted, p);
      AssignStep(sorted, names, base54, start);
      AssignWritesLast(tail, names1, base54, o + 1, p - 1);
    }
  }

  /** The first row keeps the first ordinal's candidate when it is the last to name its index. */
  lemma AssignWritesFirst(sorted: seq<Bucket>, names: seq<string>, base54: nat -> string, start: nat)
    requires Unstuck(base54)
    requires IndicesBelow(sorted, |names|)
    requires |sorted| > 0 && LastWriter(sorted, 0)
    ensures Assign(sorted, names, base54, start)[sorted[0].index] == base54(Ordinals(|sorted|, base54, start)[0])
  {
    assert Ordinals(|sorted|, base54, start)[0] == NextAccepted(base54, start);
    TailAvoidsHeadIndex(sorted);
    AssignWritesHead(sorted, names, base54, start);
  }

  /** What the walk leaves in the table: an index written by several rows keeps the name
      committed to the last of them, and an index no row names keeps its old entry. */
  lemma AssignWrites(sorted: seq<Bucket>, names: seq<string>, base54: nat -> string, start: nat)
    requires Unstuck(base54)
    requires IndicesBelow(sorted, |names|)
    ensures forall p :: 0 <= p < |sorted| && LastWriter(sorted, p) ==>
      Assign(sorted, names, base54, start)[sorted[p].index] == base54(Ordinals(|sorted|, base54, start)[p])
    ensures forall k :: 0 <= k < |names| && (forall p :: 0 <= p < |sorted| ==> sorted[p].index != k) ==>
      Assign(sorted, names, base54, start)[k] == names[k]
  {
    forall p | 0 <= p < |sorted| && LastWriter(sorted, p)
      ensures Assign(sorted, names, base54, start)[sorted[p].index] == base54(Ordinals(|sorted|, base54, start)[p])
    {
      AssignWritesLast(sorted, names, base54, start, p);
    }
    forall k | 0 <= k < |names| && (forall p :: 0 <= p < |sorted| ==> sorted[p].index != k)
      ensures Assign(sorted, names, base54, start)[k] == names[k]
    {
      AssignKeepsUnwritten(sorted, names, base54, start, k);
    }
  }

  /** The set of candidates produced by `count` consecutive ordinals from `i` has `count`
      elements when the generator is injective. */
  lemma {:induction false} ImageSize(base54: nat -> string, i: nat, count: nat)
    requires Injective(base54)
    ensures |set j: nat | i <= j < i + count :: base54(j)| == count
    decreases count
  {
    if count > 0 {
      ImageSize(base54, i, count - 1);
      var before := set j: nat | i <= j < i + count - 1 :: base54(j);
      var after := set j: nat | i <= j < i + count :: base54(j);
      assert after == before + {base54(i + count - 1)};
      assert base54(i + count - 1) !in before;
    }
  }

  /** Among 27 consecutive ordinals of an injective generator some candidate is not a
      reserved word, since there are at most 26 of those. */
  lemma KeywordRunIsShort(base54: nat -> string, i: nat)
    requires Injective(base54)
    ensures exists j: nat :: i <= j < i + 27 && !IsKeyword(base54(j))
  {
    if forall j: nat :: i <= j < i + 27 ==> IsKeyword(base54(j)) {
      var image := set j: nat | i <= j < i + 27 :: base54(j);
      ImageSize(base54, i, 27);
      forall w | w in image
        ensures IsKeyword(w)
      {
        var j: nat :| i <= j < i + 27 && base54(j) == w;
      }
      KeywordSetIsSmall(image);
      assert false;
    }
  }

  /** An injective generator cannot get stuck: the filter accepts one of any 27
      consecutive candidates. */
  lemma InjectiveIsUnstuck(base54: nat -> string)
    requires Injective(base54)
    ensures Unstuck(base54)
  {
    forall i: nat
      ensures AcceptedFrom(base54, i)
    {
      KeywordRunIsShort(base54, i);
      var j: nat :| i <= j < i + 27 && !IsKeyword(base54(j));
      assert i <= j && !IsKeyword(base54(j));
    }
  }
}
