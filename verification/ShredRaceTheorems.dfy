/** What the race tracker promises: a completed race is a full tournament in order of arrival, the
    pair counters are tallies of all results, a shred is raced at most once per entry, and no
    address wins more often than it was seen. */
module ShredRaceTheorems {
  import opened ShredRaceModel

  // ---- One completed race is a tournament -------------------------------------------------

  predicate DistinctSources(hits: seq<Hit>) {
    forall j, k | 0 <= j < k < |hits| :: hits[j].source != hits[k].source
  }

  function WinsIn(rs: seq<Result>, x: Name): (n: nat) {
    if rs == [] then 0 else WinsIn(rs[..|rs| - 1], x) + if rs[|rs| - 1].winner == x then 1 else 0
  }

  lemma {:induction false} WinsInAppend(a: seq<Result>, b: seq<Result>, x: Name)
    ensures WinsIn(a + b, x) == WinsIn(a, x) + WinsIn(b, x)
  {
    if b == [] {
      assert a + b == a;
    } else {
      assert (a + b)[..|a + b| - 1] == a + b[..|b| - 1];
      WinsInAppend(a, b[..|b| - 1], x);
    }
  }

  lemma {:induction false} RowShape(order: seq<Hit>, i: nat, hi: nat)
    requires i < hi <= |order|
    ensures |RowResults(order, i, hi)| == hi - 1 - i
    ensures forall m | 0 <= m < hi - 1 - i :: RowResults(order, i, hi)[m] == Outcome(order[i], order[i + 1 + m])
    decreases hi
  {
    if hi > i + 1 {
      RowShape(order, i, hi - 1);
    }
  }

  lemma {:induction false} RowWins(order: seq<Hit>, i: nat, hi: nat, x: Name)
    requires i < hi <= |order|
    ensures WinsIn(RowResults(order, i, hi), x) == if order[i].source == x then hi - 1 - i else 0
    decreases hi
  {
    if hi > i + 1 {
      RowWins(order, i, hi - 1, x);
    }
  }

  lemma RowAdds(n: nat, size: nat)
    requires 0 < n <= size
    ensures (n - 1) * (2 * size - n) + 2 * (size - n) == n * (2 * size - 1 - n)
  {
    assert n * (2 * size - 1 - n) == (n - 1) * (2 * size - 1 - n) + (2 * size - 1 - n);
    assert (n - 1) * (2 * size - n) == (n - 1) * (2 * size - 1 - n) + (n - 1);
  }

  /** The first `n` rows hold n * (2 * |order| - 1 - n) / 2 results. */
  lemma {:induction false} RowsCount(order: seq<Hit>, n: nat)
    requires n <= |order|
    ensures 2 * |ResultsUpTo(order, n)| == n * (2 * |order| - 1 - n)
  {
    if n > 0 {
      RowsCount(order, n - 1);
      RowShape(order, n - 1, |order|);
      RowAdds(n, |order|);
    }
  }

  lemma {:induction false} RowsWins(order: seq<Hit>, n: nat, i: nat)
    requires n <= |order| && i < |order| && DistinctSources(order)
    ensures WinsIn(ResultsUpTo(order, n), order[i].source) == if i < n then |order| - 1 - i else 0
  {
    hide RowResults;
    if n > 0 {
      var x, all := order[i].source, ResultsUpTo(order, n);
      assert order[n - 1].source == x <==> i == n - 1;
      RowsWins(order, n - 1, i);
      RowWins(order, n - 1, |order|, order[i].source);
      WinsInAppend(ResultsUpTo(order, n - 1), RowResults(order, n - 1, |order|), x);
      assert WinsIn(all, x) == WinsIn(ResultsUpTo(order, n - 1), x) + WinsIn(RowResults(order, n - 1, |order|), x);
    }
  }

  /** In a completed race of n feeds, n(n-1)/2 results are recorded and the feed of rank i, counted
      from 0, wins exactly n-1-i of them. */
  lemma TournamentWins(order: seq<Hit>, i: nat)
    requires i < |order| && DistinctSources(order)
    ensures 2 * |Results(order)| == |order| * (|order| - 1)
    ensures WinsIn(Results(order), order[i].source) == |order| - 1 - i
  {
    RowsCount(order, |order|);
    RowsWins(order, |order|, i);
  }

  lemma RowHolds(order: seq<Hit>, i: nat, r: Result)
    requires i < |order|
    ensures r in RowResults(order, i, |order|) <==> exists j :: i < j < |order| && r == Outcome(order[i], order[j])
  {
    var row := RowResults(order, i, |order|);
    RowShape(order, i, |order|);
    if r in row {
      var m :| 0 <= m < |row| && row[m] == r;
      assert r == Outcome(order[i], order[i + 1 + m]);
    }
    forall j | i < j < |order| && r == Outcome(order[i], order[j]) ensures r in row {
      assert row[j - i - 1] == r;
    }
  }

  predicate HoldsFrom(order: seq<Hit>, i: nat, r: Result) {
    i < |order| && exists j :: i < j < |order| && r == Outcome(order[i], order[j])
  }

  lemma RowHoldsFrom(order: seq<Hit>, i: nat, r: Result)
    requires i < |order|
    ensures r in RowResults(order, i, |order|) <==> HoldsFrom(order, i, r)
  {
    RowHolds(order, i, r);
  }

  lemma {:induction false} RowsHold(order: seq<Hit>, n: nat, r: Result)
    requires n <= |order|
    ensures r in ResultsUpTo(order, n) <==> exists i :: 0 <= i < n && HoldsFrom(order, i, r)
  {
    hide HoldsFrom, RowResults;
    if n > 0 {
      RowsHold(order, n - 1, r);
      RowHoldsFrom(order, n - 1, r);
      assert r in ResultsUpTo(order, n) <==> r in ResultsUpTo(order, n - 1) || HoldsFrom(order, n - 1, r);
    }
  }

  predicate Beats(rs: seq<Result>, x: Name, y: Name) {
    exists k :: 0 <= k < |rs| && rs[k].winner == x && rs[k].loser == y
  }

  /** Who beats whom is the order of arrival: exactly one of any two feeds, and transitively. */
  lemma TournamentIsOrder(order: seq<Hit>, i: nat, j: nat)
    requires i < |order| && j < |order| && DistinctSources(order)
    ensures Beats(Results(order), order[i].source, order[j].source) <==> i < j
  {
    var rs := Results(order);
    if i < j {
      RowsHold(order, |order|, Outcome(order[i], order[j]));
      assert HoldsFrom(order, i, Outcome(order[i], order[j]));
      var k :| 0 <= k < |rs| && rs[k] == Outcome(order[i], order[j]);
    }
    if Beats(rs, order[i].source, order[j].source) {
      var k :| 0 <= k < |rs| && rs[k].winner == order[i].source && rs[k].loser == order[j].source;
      RowsHold(order, |order|, rs[k]);
      var a :| 0 <= a < |order| && HoldsFrom(order, a, rs[k]);
      var b :| a < b < |order| && rs[k] == Outcome(order[a], order[b]);
      assert a == i && b == j;
    }
  }

  /** Every recorded lead is of a hit sorted before over one sorted after, and not negative. */
  lemma LeadsNonNegative(order: seq<Hit>, r: Result)
    requires SortedByNs(order) && r in Results(order)
    ensures r.leadUs >= 0
  {
    RowsHold(order, |order|, r);
    var i :| 0 <= i < |order| && HoldsFrom(order, i, r);
  }

  /** A lead over two steps exceeds the leads of the steps by what two roundings down lose: 0 or 1. */
  lemma LeadsNearlyAdd(a: Hit, b: Hit, c: Hit)
    requires a.ns <= b.ns <= c.ns
    ensures 0 <= Outcome(a, c).leadUs - (Outcome(a, b).leadUs + Outcome(b, c).leadUs) <= 1
  {
  }

  // ---- The order of arrival alone decides ---------------------------------------------------

  predicate DistinctTimes(hits: seq<Hit>) {
    forall j, k | 0 <= j < k < |hits| :: hits[j].ns != hits[k].ns
  }

  lemma SortedFirst(a: seq<Hit>, b: seq<Hit>)
    requires a != [] && multiset(a) == multiset(b) && SortedByNs(a) && SortedByNs(b) && DistinctTimes(a)
    ensures b != [] && a[0] == b[0]
  {
    assert |multiset(a)| == |a| && |multiset(b)| == |b|;
    assert a[0] in multiset(b) && b[0] in multiset(a);
    var i :| 0 <= i < |b| && b[i] == a[0];
    var j :| 0 <= j < |a| && a[j] == b[0];
    assert a[0].ns == a[j].ns;
  }

  lemma WithoutHead(a: seq<Hit>)
    requires a != []
    ensures multiset(a[1..]) == multiset(a) - multiset{a[0]} && a == [a[0]] + a[1..]
  {
    assert a == [a[0]] + a[1..];
  }

  lemma TailsKeep(a: seq<Hit>)
    requires a != []
    ensures SortedByNs(a) ==> SortedByNs(a[1..])
    ensures DistinctTimes(a) ==> DistinctTimes(a[1..])
  {
  }

  /** With distinct timestamps the sorted order, and so every recorded result, does not depend on the
      order of processing. */
  lemma {:induction false} OrderUnique(a: seq<Hit>, b: seq<Hit>)
    requires multiset(a) == multiset(b) && SortedByNs(a) && SortedByNs(b) && DistinctTimes(a)
    ensures a == b
    decreases |a|
  {
    if a == [] {
      assert |multiset(b)| == |b|;
    } else {
      SortedFirst(a, b);
      WithoutHead(a);
      WithoutHead(b);
      TailsKeep(a);
      TailsKeep(b);
      hide SortedByNs, DistinctTimes;
      OrderUnique(a[1..], b[1..]);
    }
  }

  // ---- Pair counters are tallies of all results ----------------------------------------------

  function CountFor(rs: seq<Result>, k: (Name, Name), aWon: bool): (n: nat) {
    if rs == [] then 0 else
    var r := rs[|rs| - 1];
    CountFor(rs[..|rs| - 1], k, aWon) +
      if Canonical(r.winner, r.loser) == k && (r.winner == k.0) == aWon then 1 else 0
  }

  function LeadsFor(rs: seq<Result>, k: (Name, Name)): (l: seq<int>) {
    if rs == [] then [] else
    var r := rs[|rs| - 1];
    LeadsFor(rs[..|rs| - 1], k) + if Canonical(r.winner, r.loser) == k then [r.leadUs] else []
  }

  function SumSeq(s: seq<int>): (n: int) {
    if s == [] then 0 else SumSeq(s[..|s| - 1]) + s[|s| - 1]
  }

  /** The counters of pair `k` are what the results `rs` make them. */
  ghost predicate Tallies(p: Pair, rs: seq<Result>, k: (Name, Name)) {
    && p.aWins == CountFor(rs, k, true) && p.bWins == CountFor(rs, k, false)
    && p.samples == LeadsFor(rs, k) && p.leadCount == |p.samples| && p.aWins + p.bWins == p.leadCount
    && p.leadSumUs == SumSeq(p.samples)
  }

  lemma SumSeqAppend(s: seq<int>, v: int)
    ensures SumSeq(s + [v]) == SumSeq(s) + v
  {
    assert (s + [v])[..|s + [v]| - 1] == s;
  }

  lemma CountsAppend(rs: seq<Result>, r: Result, k: (Name, Name))
    ensures var hit := Canonical(r.winner, r.loser) == k;
            && CountFor(rs + [r], k, true) == CountFor(rs, k, true) + (if hit && r.winner == k.0 then 1 else 0)
            && CountFor(rs + [r], k, false) == CountFor(rs, k, false) + (if hit && r.winner != k.0 then 1 else 0)
            && LeadsFor(rs + [r], k) == LeadsFor(rs, k) + if hit then [r.leadUs] else []
  {
    assert (rs + [r])[..|rs|] == rs;
  }

  lemma ResultTallies(pairs: map<(Name, Name), Pair>, rs: seq<Result>, r: Result, k: (Name, Name))
    requires Tallies(PairOf(pairs, k), rs, k)
    ensures Tallies(PairOf(RecordResult(pairs, r), k), rs + [r], k)
  {
    hide CountFor, LeadsFor, SumSeq;
    CountsAppend(rs, r, k);
    SumSeqAppend(PairOf(pairs, k).samples, r.leadUs);
  }

  lemma {:induction false} AllTallied(pairs: map<(Name, Name), Pair>, past: seq<Result>, rs: seq<Result>, k: (Name, Name))
    requires Tallies(PairOf(pairs, k), past, k)
    ensures Tallies(PairOf(RecordAll(pairs, rs), k), past + rs, k)
  {
    if rs == [] {
      assert past + rs == past;
    } else {
      var front, r := rs[..|rs| - 1], rs[|rs| - 1];
      AllTallied(pairs, past, front, k);
      ResultTallies(RecordAll(pairs, front), past + front, r, k);
      assert past + rs == past + front + [r];
    }
  }

  /** What an event records, and what a whole run has recorded. */
  function Recorded(cfg: Config, st: State, act: Act): (rs: seq<Result>) {
    if act.ev.TxRace? then [TxResult(cfg, act.ev.shredSource, act.ev.leadUs)]
    else if Completes(cfg, st, act.ev) then Results(act.order)
    else []
  }

  function RecordedBy(cfg: Config, acts: seq<Act>): (rs: seq<Result>) {
    if acts == [] then [] else
    var front := acts[..|acts| - 1];
    RecordedBy(cfg, front) + Recorded(cfg, Run(cfg, front), acts[|acts| - 1])
  }

  lemma StepPairs(cfg: Config, st: State, act: Act)
    ensures Step(cfg, st, act.ev, act.order).pairs == RecordAll(st.pairs, Recorded(cfg, st, act))
  {
    if act.ev.TxRace? {
      var r := TxResult(cfg, act.ev.shredSource, act.ev.leadUs);
      assert [r][..0] == [];
    }
  }

  /** Over every run, each pair's wins, lead count, lead sum and samples are exactly those of the
      results recorded for it; in particular a_wins + b_wins = lead_count. */
  lemma {:induction false} PairsTallyRun(cfg: Config, acts: seq<Act>, k: (Name, Name))
    ensures Tallies(PairOf(Run(cfg, acts).pairs, k), RecordedBy(cfg, acts), k)
  {
    if acts != [] {
      var front, act := acts[..|acts| - 1], acts[|acts| - 1];
      PairsTallyRun(cfg, front, k);
      StepPairs(cfg, Run(cfg, front), act);
      AllTallied(Run(cfg, front).pairs, RecordedBy(cfg, front), Recorded(cfg, Run(cfg, front), act), k);
    }
  }
}
