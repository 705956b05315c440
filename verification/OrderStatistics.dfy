/** Order statistics of a sequence of samples, and the sort they are read from. */
module OrderStatistics {
  predicate IsSorted(s: seq<int>) {
    forall j, k | 0 <= j < k < |s| :: s[j] <= s[k]
  }

  lemma SplitLast(s: seq<int>)
    requires s != []
    ensures multiset(s) == multiset(s[..|s| - 1]) + multiset{s[|s| - 1]}
  {
    assert s == s[..|s| - 1] + [s[|s| - 1]];
  }

  lemma SortedSnoc(s: seq<int>, v: int)
    requires IsSorted(s) && (s == [] || s[|s| - 1] <= v)
    ensures IsSorted(s + [v]) && multiset(s + [v]) == multiset(s) + multiset{v}
  {
    assert forall j | 0 <= j < |s| :: s[j] <= s[|s| - 1];
  }

  lemma SortedFront(s: seq<int>)
    requires IsSorted(s) && s != []
    ensures IsSorted(s[..|s| - 1]) && (|s| > 1 ==> s[|s| - 2] <= s[|s| - 1])
  {
  }

  /** Putting the last entry back after inserting before it. */
  lemma LastPutBack(s: seq<int>, r: seq<int>, v: int)
    requires IsSorted(s) && s != [] && s[|s| - 1] > v && IsSorted(r) && r != []
    requires multiset(r) == multiset(s[..|s| - 1]) + multiset{v}
    requires r[|r| - 1] == v || (|s| > 1 && r[|r| - 1] == s[|s| - 2])
    ensures IsSorted(r + [s[|s| - 1]]) && multiset(r + [s[|s| - 1]]) == multiset(s) + multiset{v}
  {
    hide IsSorted;
    SortedFront(s);
    SplitLast(s);
    SortedSnoc(r, s[|s| - 1]);
  }

  function Insert(s: seq<int>, v: int): (r: seq<int>)
    requires IsSorted(s)
    ensures IsSorted(r) && multiset(r) == multiset(s) + multiset{v}
    ensures r != [] && r[|r| - 1] == if s == [] || s[|s| - 1] <= v then v else s[|s| - 1]
  {
    hide IsSorted;
    if s == [] || s[|s| - 1] <= v then
      SortedSnoc(s, v);
      s + [v]
    else
      SortedFront(s);
      var r := Insert(s[..|s| - 1], v);
      LastPutBack(s, r, v);
      r + [s[|s| - 1]]
  }

  /** `sort_unstable` on a copy. */
  function Sort(s: seq<int>): (r: seq<int>)
    ensures IsSorted(r) && multiset(r) == multiset(s) && |r| == |s|
  {
    if s == [] then [] else
    SplitLast(s);
    var r := Insert(Sort(s[..|s| - 1]), s[|s| - 1]);
    assert |multiset(r)| == |multiset(s)|;
    r
  }

  function CountBelow(s: seq<int>, v: int): (n: nat)
    ensures n <= |s|
  {
    if s == [] then 0 else CountBelow(s[..|s| - 1], v) + if s[|s| - 1] < v then 1 else 0
  }

  /** `v` is the sample of rank `k`: at most `k` samples are below it, and more than `k` are not
      above it. */
  predicate HasRank(s: seq<int>, k: nat, v: int) {
    CountBelow(s, v) <= k < CountBelow(s, v + 1)
  }

  lemma {:induction false} CountBelowMonotone(s: seq<int>, v: int, w: int)
    requires v <= w
    ensures CountBelow(s, v) <= CountBelow(s, w)
  {
    if s != [] {
      CountBelowMonotone(s[..|s| - 1], v, w);
    }
  }

  lemma RankUnique(s: seq<int>, k: nat, v: int, w: int)
    requires HasRank(s, k, v) && HasRank(s, k, w)
    ensures v == w
  {
    if v < w {
      CountBelowMonotone(s, v + 1, w);
    } else if w < v {
      CountBelowMonotone(s, w + 1, v);
    }
  }

  lemma {:induction false} CountBelowAppend(s: seq<int>, t: seq<int>, v: int)
    ensures CountBelow(s + t, v) == CountBelow(s, v) + CountBelow(t, v)
  {
    if t == [] {
      assert s + t == s;
    } else {
      assert (s + t)[..|s + t| - 1] == s + t[..|t| - 1];
      CountBelowAppend(s, t[..|t| - 1], v);
    }
  }

  lemma CountBelowRemove(s: seq<int>, j: nat, v: int)
    requires j < |s|
    ensures CountBelow(s, v) == CountBelow(s[..j] + s[j + 1..], v) + if s[j] < v then 1 else 0
  {
    assert s == s[..j] + ([s[j]] + s[j + 1..]);
    CountBelowAppend(s[..j], [s[j]] + s[j + 1..], v);
    CountBelowAppend([s[j]], s[j + 1..], v);
    CountBelowAppend(s[..j], s[j + 1..], v);
    assert [s[j]][..0] == [];
    assert CountBelow([s[j]], v) == if s[j] < v then 1 else 0;
  }

  /** Taking one sample away from a sequence takes it away from the multiset. */
  lemma WithoutOne(t: seq<int>, j: nat)
    requires j < |t|
    ensures multiset(t[..j] + t[j + 1..]) == multiset(t) - multiset{t[j]}
  {
    assert t == t[..j] + [t[j]] + t[j + 1..];
  }

  /** Counts depend on the samples only, not on their order. */
  lemma {:induction false} CountBelowPermuted(s: seq<int>, t: seq<int>, v: int)
    requires multiset(s) == multiset(t)
    ensures CountBelow(s, v) == CountBelow(t, v)
    decreases |s|
  {
    if s == [] {
      assert |multiset(t)| == 0;
    } else {
      var front, x := s[..|s| - 1], s[|s| - 1];
      assert front + s[|s|..] == front;
      WithoutOne(s, |s| - 1);
      assert x in multiset(t);
      var j :| 0 <= j < |t| && t[j] == x;
      WithoutOne(t, j);
      CountBelowPermuted(front, t[..j] + t[j + 1..], v);
      CountBelowRemove(t, j, v);
    }
  }

  lemma {:induction false} CountAll(s: seq<int>, v: int, all: bool)
    requires forall k | 0 <= k < |s| :: (s[k] < v) == all
    ensures CountBelow(s, v) == if all then |s| else 0
  {
    if s != [] {
      CountAll(s[..|s| - 1], v, all);
    }
  }

  lemma CountSplit(t: seq<int>, k: nat, v: int)
    requires k <= |t|
    ensures CountBelow(t, v) == CountBelow(t[..k], v) + CountBelow(t[k..], v)
  {
    assert t == t[..k] + t[k..];
    CountBelowAppend(t[..k], t[k..], v);
  }

  lemma SortedHasRank(t: seq<int>, k: nat)
    requires IsSorted(t) && k < |t|
    ensures HasRank(t, k, t[k])
  {
    hide CountBelow;
    var v := t[k];
    CountSplit(t, k, v);
    CountAll(t[k..], v, false);
    CountSplit(t, k + 1, v + 1);
    CountAll(t[..k + 1], v + 1, true);
  }

  /** The entry at `k` of the sorted copy is the sample of rank `k`. */
  lemma SortGivesRank(s: seq<int>, k: nat)
    requires k < |s|
    ensures HasRank(s, k, Sort(s)[k])
  {
    SortedHasRank(Sort(s), k);
    CountBelowPermuted(Sort(s), s, Sort(s)[k]);
    CountBelowPermuted(Sort(s), s, Sort(s)[k] + 1);
  }

  function PercentileIndex(n: nat, q: nat): (k: nat)
    requires n > 0
    ensures k < n && (q < 100 ==> k == n * q / 100)
  {
    assert q < 100 ==> n * q / 100 < n by {
      if q < 100 {
        assert n * q <= n * 99;
      }
    }
    if n * q / 100 < n - 1 then n * q / 100 else n - 1
  }
}
