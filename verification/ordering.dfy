/** The processing order of the aggregated rows: a stable sort by descending frequency. */
module Ordering {
  import opened Aggregation

  /** `a` may be processed before `b`: it is strictly more frequent, or equally frequent
      with a row index no larger. */
  predicate Precedes(a: Bucket, b: Bucket)
  {
    a.frequency > b.frequency || (a.frequency == b.frequency && a.index <= b.index)
  }

  /** Frequencies never increase along the sequence. */
  predicate NonIncreasing(s: seq<Bucket>)
  {
    forall i, j :: 0 <= i < j < |s| ==> s[i].frequency >= s[j].frequency
  }

  /** Ordered by descending frequency, ties by ascending row index. */
  predicate SortedByPrecedence(s: seq<Bucket>)
  {
    forall i, j :: 0 <= i < j < |s| ==> Precedes(s[i], s[j])
  }

  /** Among rows of equal frequency, row indices never decrease along the sequence. */
  predicate TiesAscending(s: seq<Bucket>)
  {
    forall i, j :: 0 <= i < j < |s| && s[i].frequency == s[j].frequency ==> s[i].index <= s[j].index
  }

  /** Puts `x` after every element at least as frequent as it is: the insertion step of
      a stable sort by descending frequency. */
  function Insert(s: seq<Bucket>, x: Bucket): (r: seq<Bucket>)
    ensures |r| == |s| + 1
  {
    if |s| == 0 then [x]
    else if s[0].frequency >= x.frequency then [s[0]] + Insert(s[1..], x)
    else [x] + s
  }

  /** Insertion adds exactly `x` to the rows. */
  lemma {:induction false} InsertPermutes(s: seq<Bucket>, x: Bucket)
    ensures multiset(Insert(s, x)) == multiset(s) + multiset{x}
    decreases |s|
  {
    if |s| > 0 && s[0].frequency >= x.frequency {
      InsertPermutes(s[1..], x);
      assert s == [s[0]] + s[1..];
    }
  }

  /** Stable sort by descending frequency; the standard library's stable sort keyed by the
      reversed frequency produces the same sequence (see `SortedPermutationsAreEqual`). */
  function SortByFrequency(s: seq<Bucket>): (r: seq<Bucket>)
    ensures |r| == |s|
    ensures NonIncreasing(r)
    decreases |s|
  {
    if |s| == 0 then []
    else
      InsertKeepsNonIncreasing(SortByFrequency(s[..|s| - 1]), s[|s| - 1]);
      Insert(SortByFrequency(s[..|s| - 1]), s[|s| - 1])
  }

  /** The sort rearranges the rows without adding or dropping any. */
  lemma {:induction false} SortPermutes(s: seq<Bucket>)
    ensures multiset(SortByFrequency(s)) == multiset(s)
    decreases |s|
  {
    if |s| > 0 {
      var init, last := s[..|s| - 1], s[|s| - 1];
      assert SortByFrequency(s) == Insert(SortByFrequency(init), last);
      SortPermutes(init);
      InsertPermutes(SortByFrequency(init), last);
      assert s == init + [last];
      assert multiset(s) == multiset(init) + multiset{last};
    }
  }

  /** Inserting into a sequence of non-increasing frequency keeps it non-increasing. */
  lemma {:induction false} InsertKeepsNonIncreasing(s: seq<Bucket>, x: Bucket)
    requires NonIncreasing(s)
    ensures NonIncreasing(Insert(s, x))
    decreases |s|
  {
    if |s| > 0 && s[0].frequency >= x.frequency {
      var rest := Insert(s[1..], x);
      InsertKeepsNonIncreasing(s[1..], x);
      InsertPermutes(s[1..], x);
      forall j | 0 <= j < |rest|
        ensures s[0].frequency >= rest[j].frequency
      {
        assert rest[j] in multiset(rest);
        if rest[j] != x {
          assert rest[j] in multiset(s[1..]);
          var m :| 0 <= m < |s[1..]| && s[1..][m] == rest[j];
          assert s[m + 1] == rest[j];
        }
      }
    }
  }

  /** Inserting an element whose equally frequent peers all have smaller or equal row
      indices keeps a precedence-sorted sequence sorted. */
  lemma {:induction false} InsertKeepsPrecedence(s: seq<Bucket>, x: Bucket)
    requires SortedByPrecedence(s)
    requires forall y :: y in s && y.frequency == x.frequency ==> y.index <= x.index
    ensures SortedByPrecedence(Insert(s, x))
    decreases |s|
  {
    if |s| > 0 && s[0].frequency >= x.frequency {
      var rest := Insert(s[1..], x);
      InsertKeepsPrecedence(s[1..], x);
      InsertPermutes(s[1..], x);
      forall j | 0 <= j < |rest|
        ensures Precedes(s[0], rest[j])
      {
        assert rest[j] in multiset(rest);
        if rest[j] != x {
          assert rest[j] in multiset(s[1..]);
          var m :| 0 <= m < |s[1..]| && s[1..][m] == rest[j];
          assert s[m + 1] == rest[j];
        }
      }
    }
  }

  /** When equally frequent rows already stand in ascending index order, the stable sort
      orders rows by descending frequency and, among equals, by ascending index. */
  lemma {:induction false} SortedWhenTiesAscending(s: seq<Bucket>)
    requires TiesAscending(s)
    ensures SortedByPrecedence(SortByFrequency(s))
    decreases |s|
  {
    if |s| > 0 {
      var prefix := s[..|s| - 1];
      var x := s[|s| - 1];
      SortedWhenTiesAscending(prefix);
      var sorted := SortByFrequency(prefix);
      SortPermutes(prefix);
      forall y | y in sorted && y.frequency == x.frequency
        ensures y.index <= x.index
      {
        assert y in multiset(prefix);
        var m :| 0 <= m < |prefix| && prefix[m] == y;
        assert s[m] == y;
      }
      InsertKeepsPrecedence(sorted, x);
    }
  }

  /** Precedence is antisymmetric on rows: two rows that each may precede the other are equal. */
  lemma PrecedesAntisymmetric(a: Bucket, b: Bucket)
    requires Precedes(a, b) && Precedes(b, a)
    ensures a == b
  {
  }

  /** The head of a precedence-sorted sequence may precede every element of it. */
  lemma HeadPrecedesMembers(s: seq<Bucket>, y: Bucket)
    requires SortedByPrecedence(s)
    requires y in s
    ensures Precedes(s[0], y)
  {
    var m :| 0 <= m < |s| && s[m] == y;
    if m > 0 {
      assert Precedes(s[0], s[m]);
    }
  }

  /** Dropping the head of a precedence-sorted sequence leaves it sorted. */
  lemma TailSorted(s: seq<Bucket>)
    requires |s| > 0 && SortedByPrecedence(s)
    ensures SortedByPrecedence(s[1..])
  {
    forall i, j | 0 <= i < j < |s[1..]|
      ensures Precedes(s[1..][i], s[1..][j])
    {
      assert s[1..][i] == s[i + 1] && s[1..][j] == s[j + 1];
    }
  }

  /** Two precedence-sorted arrangements of the same rows are identical, so every stable
      sort of the aggregated rows yields the same processing order. */
  lemma {:induction false} SortedPermutationsAreEqual(s: seq<Bucket>, t: seq<Bucket>)
    requires multiset(s) == multiset(t)
    requires SortedByPrecedence(s) && SortedByPrecedence(t)
    ensures s == t
    decreases |s|
  {
    assert |s| == |multiset(s)| == |multiset(t)| == |t|;
    if |s| > 0 {
      assert s[0] in multiset(t) && t[0] in multiset(s);
      HeadPrecedesMembers(t, s[0]);
      HeadPrecedesMembers(s, t[0]);
      PrecedesAntisymmetric(s[0], t[0]);
      assert s == [s[0]] + s[1..] && t == [t[0]] + t[1..];
      assert multiset(s[1..]) == multiset(s) - multiset{s[0]};
      assert multiset(t[1..]) == multiset(t) - multiset{t[0]};
      TailSorted(s);
      TailSorted(t);
      SortedPermutationsAreEqual(s[1..], t[1..]);
    }
  }

  /** The aggregated rows satisfy the stable sort's tie condition: equally frequent rows are
      either used rows in ascending index order or unused rows, all `(0, 0)`. */
  lemma BucketsTiesAscending(symbols: seq<Symbol>, n: nat)
    ensures TiesAscending(Buckets(symbols, n))
  {
    var bs := Buckets(symbols, n);
    forall i, j | 0 <= i < j < |bs| && bs[i].frequency == bs[j].frequency
      ensures bs[i].index <= bs[j].index
    {
      FrequencyPositiveIffUsed(symbols, i);
      FrequencyPositiveIffUsed(symbols, j);
    }
  }
}
