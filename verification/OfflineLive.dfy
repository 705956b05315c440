/** The live race over deliveries in order of time: it is the first-and-first-rival race of the analyzer,
    run over all shreds, data and coding. */
module OfflineLive {
  import opened Wrappers
  import opened Bytes
  import opened Clock
  import opened Sums
  import opened ShredWire
  import opened Frame
  import opened Analyze
  import opened ShredRaceModel
  import opened ShredRaceTheorems
  import opened ShredRaceLives

  /** One packet as the receiver sees it, and when and how the race thread processes it. */
  datatype Delivery = Delivery(group: Ipv4, port: nat, payload: seq<byte>, ns: Ns, ip: u32, now: nat, winnerOk: bool)

  /** Deliveries past the receiver's gate. */
  type Rx = p: Delivery | Gated(p.payload)
    witness Delivery([0, 0, 0, 0], 0, seq(CODE_HDR_END, _ => LEGACY_DATA_VARIANT), 0, 0, 0, true)

  function KeyOfRx(rx: Rx): (k: Key) {
    (LE64(rx.payload, SLOT_OFF), LE32(rx.payload, INDEX_OFF))
  }

  function SeenOf(feeds: Feeds, rx: Rx): (r: Seen) {
    Seen(feeds(rx.group), rx.ns)
  }

  // ---- Two ways to race the same deliveries --------------------------------------------------

  /** The analyzer's race if it were run over every delivery, data or coding. */
  function AllDuels(feeds: Feeds, rxs: seq<Rx>): (r: map<Key, Duel>) {
    if rxs == [] then map[] else
    Note(AllDuels(feeds, rxs[..|rxs| - 1]), KeyOfRx(rxs[|rxs| - 1]), SeenOf(feeds, rxs[|rxs| - 1]))
  }

  /** Without a leader cache nothing is filtered before the race. */
  function LiveEvent(feeds: Feeds, rx: Rx): (ev: Event) {
    Process(Arrival(feeds(rx.group), KeyOfRx(rx).0, KeyOfRx(rx).1, rx.ns, rx.ip), rx.now, true, rx.winnerOk)
  }

  function TwoFeeds(rpc: Name): (cfg: Config) {
    Config(2, rpc)
  }

  /** Shreds received at strictly increasing times, a shred's copies processed within ten seconds of each
      other. */
  ghost predicate Orderly(rxs: seq<Rx>) {
    && (forall i, j | 0 <= i < j < |rxs| :: rxs[i].ns < rxs[j].ns)
    && (forall i, j | 0 <= i < j < |rxs| && KeyOfRx(rxs[i]) == KeyOfRx(rxs[j]) :: rxs[j].now < rxs[i].now + STALE_NS)
  }

  ghost predicate LiveRun(feeds: Feeds, rpc: Name, rxs: seq<Rx>, acts: seq<Act>) {
    && |acts| == |rxs| && (forall i | 0 <= i < |rxs| :: acts[i].ev == LiveEvent(feeds, rxs[i]))
    && Proper(TwoFeeds(rpc), acts)
  }

  // ---- They stay in step -------------------------------------------------------------------

  predicate SameRace(d: Duel, r: Race) {
    && |r.hits| == (if d.second.Some? then 2 else 1)
    && r.hits[0].source == d.first.feed && r.hits[0].ns == d.first.ns
    && (d.second.Some? ==> r.hits[1].source == d.second.value.feed && r.hits[1].ns == d.second.value.ns)
  }

  /** The entry was inserted by a delivery of the shred. */
  predicate InsertedBy(rxs: seq<Rx>, k: Key, r: Race)
    requires r.hits != []
  {
    exists i :: 0 <= i < |rxs| && KeyOfRx(rxs[i]) == k && r.insertedNs == rxs[i].now && r.hits[0].ns == rxs[i].ns
  }

  ghost predicate InStep(rxs: seq<Rx>, duels: map<Key, Duel>, races: map<Key, Race>) {
    && duels.Keys == races.Keys
    && (forall k | k in duels :: SameRace(duels[k], races[k]) && InsertedBy(rxs, k, races[k]))
  }

  /** What the offline race makes of a matched shred. */
  function Verdict(d: Duel): (r: Result)
    requires d.second.Some?
  {
    Result(d.first.feed, d.second.value.feed, LeadNs(d) / 1000)
  }

  lemma PairOrder(order: seq<Hit>, hits: seq<Hit>)
    requires IsOrderOf(order, hits) && |hits| == 2 && hits[0].ns < hits[1].ns
    ensures Results(order) == [Outcome(hits[0], hits[1])]
  {
    OrderUnique(hits, order);
    assert RowResults(order, 0, 2) == RowResults(order, 0, 1) + [Outcome(order[0], order[1])];
    assert ResultsUpTo(order, 1) == ResultsUpTo(order, 0) + RowResults(order, 0, 2);
    assert ResultsUpTo(order, 2) == ResultsUpTo(order, 1) + RowResults(order, 1, 2);
  }

  lemma InsertedEarlier(rxs: seq<Rx>, rx: Rx, k: Key, r: Race)
    requires r.hits != [] && InsertedBy(rxs, k, r)
    ensures InsertedBy(rxs + [rx], k, r)
    ensures Orderly(rxs + [rx]) ==> r.hits[0].ns < rx.ns
    ensures Orderly(rxs + [rx]) && KeyOfRx(rx) == k ==> !IsStale(r, rx.now)
  {
    var all := rxs + [rx];
    var i :| 0 <= i < |rxs| && KeyOfRx(rxs[i]) == k && r.insertedNs == rxs[i].now && r.hits[0].ns == rxs[i].ns;
    assert all[i] == rxs[i] && all[|rxs|] == rx;
  }

  /** A delivery to a race in step: what it adds, and what it records. */
  lemma RaceInStep(feeds: Feeds, rpc: Name, rx: Rx, d: Duel, st: State, act: Act)
    requires act.ev == LiveEvent(feeds, rx) && ProperAct(TwoFeeds(rpc), st, act)
    requires KeyOfRx(rx) in st.races && SameRace(d, st.races[KeyOfRx(rx)]) && !IsStale(st.races[KeyOfRx(rx)], rx.now)
    requires d.first.ns < rx.ns
    ensures var k, cfg, joined := KeyOfRx(rx), TwoFeeds(rpc), d.second.None? && d.first.feed != feeds(rx.group);
            var next := if joined then d.(second := Some(Seen(feeds(rx.group), rx.ns))) else d;
            var races' := Step(cfg, st, act.ev, act.order).races;
            && races'.Keys == st.races.Keys && (forall j | j in st.races && j != k :: races'[j] == st.races[j])
            && SameRace(next, races'[k]) && races'[k].insertedNs == st.races[k].insertedNs
            && Recorded(cfg, st, act) == if joined then [Verdict(next)] else []
  {
    hide RecordAll, RecordArrival, RecordWin, Results, LE64, LE32, Gated;
    var cfg := TwoFeeds(rpc);
    var r := st.races[KeyOfRx(rx)];
    assert Joins(cfg, st, act.ev) <==> d.second.None? && d.first.feed != feeds(rx.group);
    if Joins(cfg, st, act.ev) {
      var hits := HitsAfter(st, act.ev.a);
      assert hits == r.hits + [HitOf(act.ev.a)];
      assert Completes(cfg, st, act.ev);
      PairOrder(act.order, hits);
    }
  }

  lemma SameInsertion(rxs: seq<Rx>, k: Key, r: Race, s: Race)
    requires r.hits != [] && s.hits != [] && r.insertedNs == s.insertedNs && r.hits[0].ns == s.hits[0].ns
    ensures InsertedBy(rxs, k, r) ==> InsertedBy(rxs, k, s)
  {
  }

  lemma NewRace(feeds: Feeds, rpc: Name, rxs: seq<Rx>, rx: Rx, st: State, act: Act)
    requires act.ev == LiveEvent(feeds, rx) && KeyOfRx(rx) !in st.races
    ensures var k, cfg := KeyOfRx(rx), TwoFeeds(rpc);
            var r := Race([HitOf(act.ev.a)], rx.now);
            && Step(cfg, st, act.ev, act.order).races == st.races[k := r]
            && InsertedBy(rxs + [rx], k, r) && Recorded(cfg, st, act) == []
  {
    hide LE64, LE32, Gated, RecordAll, RecordArrival, RecordWin, Results;
    assert (rxs + [rx])[|rxs|] == rx;
  }

  /** One delivery: the races stay in step, and the live race records a result exactly when the offline
      one finds a match, the same one. */
  lemma StepInStep(feeds: Feeds, rpc: Name, rxs: seq<Rx>, rx: Rx, duels: map<Key, Duel>, st: State, act: Act)
    requires Orderly(rxs + [rx]) && InStep(rxs, duels, st.races)
    requires act.ev == LiveEvent(feeds, rx) && ProperAct(TwoFeeds(rpc), st, act)
    ensures var k := KeyOfRx(rx);
            var next := Note(duels, k, Seen(feeds(rx.group), rx.ns));
            && InStep(rxs + [rx], next, Step(TwoFeeds(rpc), st, act.ev, act.order).races)
            && Recorded(TwoFeeds(rpc), st, act) ==
                 if k in duels && duels[k].second.None? && next[k].second.Some? then [Verdict(next[k])] else []
  {
    hide KeyOfRx, RecordAll, RecordArrival, RecordWin, Results, LE64, LE32, Gated, Orderly, Recorded, InsertedBy, Joins;
    var cfg, k, all := TwoFeeds(rpc), KeyOfRx(rx), rxs + [rx];
    forall j | j in st.races ensures InsertedBy(all, j, st.races[j]) {
      InsertedEarlier(rxs, rx, j, st.races[j]);
    }
    if k in duels {
      InsertedEarlier(rxs, rx, k, st.races[k]);
      RaceInStep(feeds, rpc, rx, duels[k], st, act);
      SameInsertion(all, k, st.races[k], Step(cfg, st, act.ev, act.order).races[k]);
    } else {
      NewRace(feeds, rpc, rxs, rx, st, act);
    }
  }

  // ---- Over whole runs ---------------------------------------------------------------------

  function Weigh(rs: seq<Result>, f: Result -> int): (n: int) {
    if rs == [] then 0 else Weigh(rs[..|rs| - 1], f) + f(rs[|rs| - 1])
  }

  lemma {:induction false} WeighAppend(a: seq<Result>, b: seq<Result>, f: Result -> int)
    ensures Weigh(a + b, f) == Weigh(a, f) + Weigh(b, f)
  {
    if b == [] {
      assert a + b == a;
    } else {
      assert (a + b)[..|a + b| - 1] == a + b[..|b| - 1];
      WeighAppend(a, b[..|b| - 1], f);
    }
  }

  function WeightOf(f: Result -> int): (w: Duel -> int) {
    (d: Duel) => if d.second.Some? then f(Verdict(d)) else 0
  }

  lemma OrderlyPrefix(rxs: seq<Rx>, n: nat)
    requires Orderly(rxs) && n <= |rxs|
    ensures Orderly(rxs[..n])
  {
    hide KeyOfRx, Gated, IsDataVariant;
    assert forall i | 0 <= i < n :: rxs[..n][i] == rxs[i];
  }

  lemma LiveRunPrefix(feeds: Feeds, rpc: Name, rxs: seq<Rx>, acts: seq<Act>)
    requires rxs != [] && LiveRun(feeds, rpc, rxs, acts)
    ensures var n := |rxs| - 1;
            && |acts| == |rxs| && LiveRun(feeds, rpc, rxs[..n], acts[..n]) && acts[n].ev == LiveEvent(feeds, rxs[n])
            && ProperAct(TwoFeeds(rpc), Run(TwoFeeds(rpc), acts[..n]), acts[n])
  {
    hide LiveEvent, ProperAct, Proper, Run;
    ProperPrefix(TwoFeeds(rpc), acts);
  }

  lemma NoteWeighs(duels: map<Key, Duel>, k: Key, seen: Seen, rs: seq<Result>, f: Result -> int)
    ensures var next := Note(duels, k, seen);
            var recorded := if k in duels && duels[k].second.None? && next[k].second.Some? then [Verdict(next[k])] else [];
            Weigh(rs + recorded, f) - Weigh(rs, f) == Total(next, WeightOf(f)) - Total(duels, WeightOf(f))
  {
    var next := Note(duels, k, seen);
    TotalPut(duels, WeightOf(f), k, next[k]);
    if k in duels && duels[k].second.None? && next[k].second.Some? {
      WeighAppend(rs, [Verdict(next[k])], f);
      assert [Verdict(next[k])][..0] == [];
    } else {
      assert rs + [] == rs;
      assert next == duels || (k !in duels && WeightOf(f)(next[k]) == 0);
    }
  }

  /** Whatever is added up over results: over all results the live race recorded it comes to the same
      as over all shreds delivered by two feeds. */
  lemma {:induction false} RacesAgree(feeds: Feeds, rpc: Name, rxs: seq<Rx>, acts: seq<Act>, f: Result -> int)
    requires Orderly(rxs) && LiveRun(feeds, rpc, rxs, acts)
    ensures var duels := AllDuels(feeds, rxs);
            && InStep(rxs, duels, Run(TwoFeeds(rpc), acts).races)
            && Weigh(RecordedBy(TwoFeeds(rpc), acts), f) == Total(duels, WeightOf(f))
    decreases |rxs|
  {
    hide LiveRun, Orderly, InStep, Step, Recorded, Weigh, Total, Note, LiveEvent, SeenOf, KeyOfRx, ProperAct;
    if rxs == [] {
      assert acts == [] by { NoLiveRun(feeds, rpc, acts); }
      NothingAgrees(f);
    } else {
      var n := |rxs| - 1;
      LiveRunPrefix(feeds, rpc, rxs, acts);
      OrderlyPrefix(rxs, n);
      RacesAgree(feeds, rpc, rxs[..n], acts[..n], f);
      assert rxs[..n] + [rxs[n]] == rxs && |acts| - 1 == n;
      OneMoreAgrees(feeds, rpc, rxs[..n], rxs[n], AllDuels(feeds, rxs[..n]), Run(TwoFeeds(rpc), acts[..n]), acts[n],
                    RecordedBy(TwoFeeds(rpc), acts[..n]), f);
    }
  }

  lemma NoLiveRun(feeds: Feeds, rpc: Name, acts: seq<Act>)
    requires LiveRun(feeds, rpc, [], acts)
    ensures acts == []
  {
  }

  lemma OneMoreAgrees(feeds: Feeds, rpc: Name, rxs: seq<Rx>, rx: Rx, duels: map<Key, Duel>, st: State, act: Act,
                      rs: seq<Result>, f: Result -> int)
    requires Orderly(rxs + [rx]) && InStep(rxs, duels, st.races)
    requires act.ev == LiveEvent(feeds, rx) && ProperAct(TwoFeeds(rpc), st, act)
    requires Weigh(rs, f) == Total(duels, WeightOf(f))
    ensures var next := Note(duels, KeyOfRx(rx), SeenOf(feeds, rx));
            && InStep(rxs + [rx], next, Step(TwoFeeds(rpc), st, act.ev, act.order).races)
            && Weigh(rs + Recorded(TwoFeeds(rpc), st, act), f) == Total(next, WeightOf(f))
  {
    hide Orderly, InStep, Step, Recorded, Weigh, Total, Note, LiveEvent, KeyOfRx, ProperAct;
    StepInStep(feeds, rpc, rxs, rx, duels, st, act);
    NoteWeighs(duels, KeyOfRx(rx), Seen(feeds(rx.group), rx.ns), rs, f);
  }

  lemma NothingAgrees(f: Result -> int)
    ensures InStep([], map[], Start.races) && Weigh([], f) == Total<Key, Duel>(map[], WeightOf(f))
  {
  }

  /** The shreds that `x` delivered first and `y` next. */
  function Beaten(duels: map<Key, Duel>, x: Name, y: Name): (r: set<Key>) {
    set k | k in duels && duels[k].second.Some? && duels[k].first.feed == x && duels[k].second.value.feed == y
  }

  /** The matched shreds with this winner, loser and lead. */
  function With(duels: map<Key, Duel>, r: Result): (s: set<Key>) {
    set k | k in duels && duels[k].second.Some? && Verdict(duels[k]) == r
  }

  function WinFor(k: (Name, Name), aWon: bool): (f: Result -> int) {
    (r: Result) => if Canonical(r.winner, r.loser) == k && (r.winner == k.0) == aWon then 1 else 0
  }

  function LeadFor(k: (Name, Name)): (f: Result -> int) {
    (r: Result) => if Canonical(r.winner, r.loser) == k then r.leadUs else 0
  }

  function IsResult(r: Result): (f: Result -> int) {
    (x: Result) => if x == r then 1 else 0
  }

  lemma {:induction false} CountWeighs(rs: seq<Result>, k: (Name, Name), aWon: bool)
    ensures CountFor(rs, k, aWon) == Weigh(rs, WinFor(k, aWon))
  {
    if rs != [] {
      CountWeighs(rs[..|rs| - 1], k, aWon);
    }
  }

  lemma {:induction false} LeadsWeigh(rs: seq<Result>, k: (Name, Name))
    ensures SumSeq(LeadsFor(rs, k)) == Weigh(rs, LeadFor(k))
  {
    if rs != [] {
      var front, r := rs[..|rs| - 1], rs[|rs| - 1];
      LeadsWeigh(front, k);
      SumSeqAppend(LeadsFor(front, k), r.leadUs);
      assert LeadsFor(front, k) + [] == LeadsFor(front, k);
    }
  }

  lemma {:induction false} MultiplicityWeighs(rs: seq<Result>, r: Result)
    ensures multiset(rs)[r] == Weigh(rs, IsResult(r))
  {
    if rs != [] {
      MultiplicityWeighs(rs[..|rs| - 1], r);
      assert rs == rs[..|rs| - 1] + [rs[|rs| - 1]];
    }
  }

  /** For every winner, loser and lead the live race records as many results as there are shreds delivered
      first by that winner and next by that loser, that lead in whole microseconds later. */
  lemma VerdictsAreRecorded(feeds: Feeds, rpc: Name, rxs: seq<Rx>, acts: seq<Act>, r: Result)
    requires Orderly(rxs) && LiveRun(feeds, rpc, rxs, acts)
    ensures multiset(RecordedBy(TwoFeeds(rpc), acts))[r] == |With(AllDuels(feeds, rxs), r)|
  {
    hide Orderly, LiveRun, InStep, AllDuels, Run, RecordedBy, Weigh, Total;
    var f := IsResult(r);
    var rs, duels := RecordedBy(TwoFeeds(rpc), acts), AllDuels(feeds, rxs);
    RacesAgree(feeds, rpc, rxs, acts, f);
    MultiplicityWeighs(rs, r);
    TotalIndicator(duels, WeightOf(f), With(duels, r));
  }

  function PairLead(a: Name, b: Name): (w: Duel -> int) {
    (d: Duel) => if d.second.Some? && Canonical(d.first.feed, d.second.value.feed) == (a, b) then LeadNs(d) / 1000 else 0
  }

  lemma WeightOfLead(d: Duel, a: Name, b: Name)
    ensures WeightOf(LeadFor((a, b)))(d) == PairLead(a, b)(d)
  {
    if d.second.Some? {
      assert WeightOf(LeadFor((a, b)))(d) == LeadFor((a, b))(Verdict(d));
    }
  }

  lemma WeightOfWin(d: Duel, a: Name, b: Name, aWon: bool)
    requires a < b
    ensures var x, y := if aWon then a else b, if aWon then b else a;
            WeightOf(WinFor((a, b), aWon))(d) ==
              if d.second.Some? && d.first.feed == x && d.second.value.feed == y then 1 else 0
  {
    if d.second.Some? {
      assert WeightOf(WinFor((a, b), aWon))(d) == WinFor((a, b), aWon)(Verdict(d));
    }
  }

  /** The live counters of every pair of feeds: wins of either feed over the other, races, and the sum of
      the leads in whole microseconds. */
  lemma LiveCounters(feeds: Feeds, rpc: Name, rxs: seq<Rx>, acts: seq<Act>, a: Name, b: Name)
    requires Orderly(rxs) && LiveRun(feeds, rpc, rxs, acts) && a < b
    ensures var duels, p := AllDuels(feeds, rxs), PairOf(Run(TwoFeeds(rpc), acts).pairs, (a, b));
            && p.aWins == |Beaten(duels, a, b)| && p.bWins == |Beaten(duels, b, a)|
            && p.leadCount == |Beaten(duels, a, b)| + |Beaten(duels, b, a)|
            && p.leadSumUs == Total(duels, PairLead(a, b))
  {
    hide Orderly, LiveRun, InStep, AllDuels, Run, RecordedBy, CountFor, LeadsFor, SumSeq, Weigh, Total;
    var cfg, k := TwoFeeds(rpc), (a, b);
    var rs, duels := RecordedBy(cfg, acts), AllDuels(feeds, rxs);
    PairsTallyRun(cfg, acts, k);
    WinsAgree(feeds, rpc, rxs, acts, a, b, true, Beaten(duels, a, b));
    WinsAgree(feeds, rpc, rxs, acts, a, b, false, Beaten(duels, b, a));
    var f := LeadFor(k);
    RacesAgree(feeds, rpc, rxs, acts, f);
    LeadsWeigh(rs, k);
    forall j | j in duels ensures WeightOf(f)(duels[j]) == PairLead(a, b)(duels[j]) {
      WeightOfLead(duels[j], a, b);
    }
    TotalEqual(duels, WeightOf(f), PairLead(a, b));
  }

  lemma WinsAgree(feeds: Feeds, rpc: Name, rxs: seq<Rx>, acts: seq<Act>, a: Name, b: Name, aWon: bool, won: set<Key>)
    requires Orderly(rxs) && LiveRun(feeds, rpc, rxs, acts) && a < b
    requires var duels := AllDuels(feeds, rxs); won == if aWon then Beaten(duels, a, b) else Beaten(duels, b, a)
    ensures CountFor(RecordedBy(TwoFeeds(rpc), acts), (a, b), aWon) == |won|
  {
    hide Orderly, LiveRun, InStep, AllDuels, Run, RecordedBy, CountFor, LeadsFor, SumSeq, Weigh, Total;
    var k := (a, b);
    var f := WinFor(k, aWon);
    var rs, duels := RecordedBy(TwoFeeds(rpc), acts), AllDuels(feeds, rxs);
    RacesAgree(feeds, rpc, rxs, acts, f);
    CountWeighs(rs, k, aWon);
    forall j | j in duels ensures WeightOf(f)(duels[j]) == if j in won then 1 else 0 {
      WeightOfWin(duels[j], a, b, aWon);
    }
    TotalIndicator(duels, WeightOf(f), won);
  }
}
