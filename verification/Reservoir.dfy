/** The fixed ring of recent samples that percentiles are read from, used both for lead times and
    for shred races. It refines a sliding window over all samples ever pushed. */
module Reservoir {
  import opened Wrappers
  import opened OrderStatistics

  const RESERVOIR_CAP: nat := 4096

  function LastOf<T>(s: seq<T>, n: nat): (r: seq<T>)
    ensures |r| == if |s| < n then |s| else n
  {
    if |s| <= n then s else s[|s| - n..]
  }

  /** Read from `pos` on and around, the `len` used places of ring `b` are the window of `history`. */
  ghost predicate RingHolds(b: seq<int>, len: nat, pos: nat, history: seq<int>) {
    && |b| == RESERVOIR_CAP
    && len == |LastOf(history, RESERVOIR_CAP)| && pos == |history| % RESERVOIR_CAP && pos <= len
    && b[pos..len] + b[..pos] == LastOf(history, RESERVOIR_CAP)
  }

  lemma PushWhileFilling(b: seq<int>, len: nat, pos: nat, history: seq<int>, v: int)
    requires RingHolds(b, len, pos, history) && len < RESERVOIR_CAP
    ensures RingHolds(b[pos := v], len + 1, (pos + 1) % RESERVOIR_CAP, history + [v])
  {
    var c := b[pos := v];
    assert pos == len == |history|;
    assert b[pos..pos] + b[..pos] == b[..pos];
    assert c[..pos + 1] == b[..pos] + [v];
    if pos + 1 == RESERVOIR_CAP {
      assert c[0..pos + 1] + c[..0] == c[..pos + 1];
    } else {
      assert c[pos + 1..pos + 1] + c[..pos + 1] == c[..pos + 1];
    }
  }

  lemma PushWhenFull(b: seq<int>, pos: nat, history: seq<int>, v: int)
    requires RingHolds(b, RESERVOIR_CAP, pos, history)
    ensures RingHolds(b[pos := v], RESERVOIR_CAP, (pos + 1) % RESERVOIR_CAP, history + [v])
  {
    var c, was := b[pos := v], LastOf(history, RESERVOIR_CAP);
    assert LastOf(history + [v], RESERVOIR_CAP) == was[1..] + [v];
    assert c[pos + 1..] + c[..pos + 1] == was[1..] + [v] by {
      assert was[1..] == b[pos + 1..] + b[..pos];
      assert c[..pos + 1] == b[..pos] + [v];
    }
    if pos + 1 == RESERVOIR_CAP {
      assert c[0..RESERVOIR_CAP] + c[..0] == c[pos + 1..] + c[..pos + 1];
    }
  }

  class SampleRing {
    const buf: array<int>
    var len: nat
    var pos: nat
    ghost var history: seq<int>

    ghost function Window(): (r: seq<int>)
      reads this
    {
      LastOf(history, RESERVOIR_CAP)
    }

    ghost predicate Valid()
      reads this, buf
    {
      buf.Length == RESERVOIR_CAP && RingHolds(buf[..], len, pos, history)
    }

    constructor ()
      ensures Valid() && history == [] && fresh(buf)
    {
      buf := new int[RESERVOIR_CAP](_ => 0);
      len, pos := 0, 0;
      history := [];
    }

    method Push(v: int)
      requires Valid()
      modifies this, buf
      ensures Valid() && history == old(history) + [v]
    {
      ghost var before := buf[..];
      if len < RESERVOIR_CAP {
        PushWhileFilling(before, len, pos, history, v);
      } else {
        PushWhenFull(before, pos, history, v);
      }
      buf[pos] := v;
      assert buf[..] == before[pos := v];
      pos := (pos + 1) % RESERVOIR_CAP;
      if len < RESERVOIR_CAP {
        len := len + 1;
      }
      history := history + [v];
    }

    /** As a multiset, the ring is the last CAP samples. */
    lemma HoldsTheWindow()
      requires Valid()
      ensures multiset(buf[..len]) == multiset(Window())
      ensures |Window()| == (if |history| < 4096 then |history| else 4096) && Window() == history[|history| - |Window()|..]
    {
      assert buf[..len] == buf[..pos] + buf[pos..len];
      assert buf[..][pos..len] == buf[pos..len] && buf[..][..pos] == buf[..pos];
      assert multiset(buf[..len]) == multiset(buf[pos..len]) + multiset(buf[..pos]);
    }

    /** The three percentiles are the order statistics of rank floor(n*q/100) of the window. */
    method Percentiles() returns (r: Option<(int, int, int)>)
      requires Valid()
      ensures r.None? <==> history == []
      ensures r.Some? ==>
                var (p50, p95, p99) := r.value;
                var n := |Window()|;
                && HasRank(Window(), n * 50 / 100, p50) && HasRank(Window(), n * 95 / 100, p95)
                && HasRank(Window(), n * 99 / 100, p99) && p50 <= p95 <= p99
    {
      if len == 0 {
        return None;
      }
      var samples := buf[..len];
      var sorted := Sort(samples);
      var n := |sorted|;
      var i, j, k := PercentileIndex(n, 50), PercentileIndex(n, 95), PercentileIndex(n, 99);
      HoldsTheWindow();
      RankOfPermuted(samples, Window(), i);
      RankOfPermuted(samples, Window(), j);
      RankOfPermuted(samples, Window(), k);
      assert i <= j <= k;
      return Some((sorted[i], sorted[j], sorted[k]));
    }
  }

  lemma RankOfPermuted(s: seq<int>, t: seq<int>, k: nat)
    requires multiset(s) == multiset(t) && k < |s|
    ensures HasRank(t, k, Sort(s)[k])
  {
    SortGivesRank(s, k);
    CountBelowPermuted(s, t, Sort(s)[k]);
    CountBelowPermuted(s, t, Sort(s)[k] + 1);
  }
}
