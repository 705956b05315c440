/** Race entries over their lifetimes, and wins against sightings per address. */
module ShredRaceLives {
  import opened Bytes
  import opened Sums
  import opened ShredRaceModel
  import opened ShredRaceTheorems

  // ---- Entries ---------------------------------------------------------------------------

  /** An entry holds distinct feeds, at least one and at most those expected. */
  predicate EntryOk(cfg: Config, r: Race) {
    DistinctSources(r.hits) && 1 <= |r.hits| && (|r.hits| <= cfg.expected || |r.hits| == 1)
  }

  ghost predicate EntriesOk(cfg: Config, st: State) {
    forall k | k in st.races :: EntryOk(cfg, st.races[k])
  }

  lemma {:induction false} RunEntriesOk(cfg: Config, acts: seq<Act>)
    ensures EntriesOk(cfg, Run(cfg, acts))
  {
    if acts != [] {
      RunEntriesOk(cfg, acts[..|acts| - 1]);
    }
  }

  /** A complete entry is not touched again until it is removed. */
  predicate Complete(cfg: Config, st: State, k: Key) {
    k in st.races && |st.races[k].hits| >= cfg.expected
  }

  lemma CompleteStays(cfg: Config, st: State, act: Act, k: Key)
    requires Complete(cfg, st, k)
    ensures var r := Step(cfg, st, act.ev, act.order); k in r.races ==> r.races[k] == st.races[k]
  {
  }

  lemma CompleteNotRecorded(cfg: Config, st: State, ev: Event, k: Key)
    ensures Complete(cfg, st, k) && ev.Process? && KeyOf(ev.a) == k ==> !Completes(cfg, st, ev)
  {
  }

  predicate RecordsFor(cfg: Config, acts: seq<Act>, i: nat, k: Key)
    requires i < |acts|
  {
    Completes(cfg, Run(cfg, acts[..i]), acts[i].ev) && KeyOf(acts[i].ev.a) == k
  }

  lemma RunStep(cfg: Config, acts: seq<Act>, i: nat)
    requires i < |acts|
    ensures Run(cfg, acts[..i + 1]) == Step(cfg, Run(cfg, acts[..i]), acts[i].ev, acts[i].order)
  {
    assert acts[..i + 1][..i] == acts[..i];
  }

  lemma RecordingCompletes(cfg: Config, acts: seq<Act>, i: nat, k: Key)
    requires i < |acts| && RecordsFor(cfg, acts, i, k)
    ensures Complete(cfg, Run(cfg, acts[..i + 1]), k)
  {
    RunStep(cfg, acts, i);
  }

  lemma {:induction false} StaysComplete(cfg: Config, acts: seq<Act>, i: nat, j: nat, k: Key)
    requires i <= j <= |acts| && Complete(cfg, Run(cfg, acts[..i]), k)
    requires forall m | i <= m <= j :: k in Run(cfg, acts[..m]).races
    ensures Complete(cfg, Run(cfg, acts[..j]), k)
    decreases j - i
  {
    if i < j {
      RunStep(cfg, acts, i);
      CompleteStays(cfg, Run(cfg, acts[..i]), acts[i], k);
      assert k in Run(cfg, acts[..i + 1]).races;
      StaysComplete(cfg, acts, i + 1, j, k);
    }
  }

  /** Each lifetime of an entry records its race at most once: between two recordings for one shred
      its entry was removed. */
  lemma OneRecordingPerLife(cfg: Config, acts: seq<Act>, i: nat, j: nat, k: Key)
    requires i < j < |acts| && RecordsFor(cfg, acts, i, k) && RecordsFor(cfg, acts, j, k)
    ensures exists m :: i < m <= j && k !in Run(cfg, acts[..m]).races
  {
    RecordingCompletes(cfg, acts, i, k);
    CompleteNotRecorded(cfg, Run(cfg, acts[..j]), acts[j].ev, k);
    if forall m | i < m <= j :: k in Run(cfg, acts[..m]).races {
      StaysComplete(cfg, acts, i + 1, j, k);
    }
  }

  lemma PermutedSources(order: seq<Hit>, hits: seq<Hit>)
    requires multiset(order) == multiset(hits) && DistinctSources(hits)
    ensures DistinctSources(order) && |order| == |hits|
    decreases |order|
  {
    assert |multiset(order)| == |order| && |multiset(hits)| == |hits|;
    forall j, k | 0 <= j < k < |order| ensures order[j].source != order[k].source {
      if order[j].source == order[k].source {
        SourceOnce(hits, order[j], order[k]);
        TwiceIn(order, j, k);
      }
    }
  }

  lemma SourceOnce(hits: seq<Hit>, a: Hit, b: Hit)
    requires DistinctSources(hits) && a in multiset(hits) && b in multiset(hits) && a.source == b.source
    ensures a == b && multiset(hits)[a] == 1
  {
    var i :| 0 <= i < |hits| && hits[i] == a;
    var j :| 0 <= j < |hits| && hits[j] == b;
    assert hits == hits[..i] + [a] + hits[i + 1..];
    assert a !in hits[..i] && a !in hits[i + 1..];
  }

  lemma TwiceIn(order: seq<Hit>, j: nat, k: nat)
    requires j < k < |order| && order[j] == order[k]
    ensures multiset(order)[order[j]] >= 2
  {
    assert order == order[..j] + [order[j]] + order[j + 1..k] + [order[k]] + order[k + 1..];
  }

  /** What a recording is of: exactly the expected number of feeds, all different, the last of them
      processed within ten seconds of the entry's insertion; every feed against every other. */
  lemma RecordingIsFullAndInTime(cfg: Config, acts: seq<Act>, i: nat, k: Key)
    requires Proper(cfg, acts) && i < |acts| && RecordsFor(cfg, acts, i, k)
    ensures k in Run(cfg, acts[..i]).races && acts[i].ev.now < Run(cfg, acts[..i]).races[k].insertedNs + STALE_NS
    ensures DistinctSources(acts[i].order) && |acts[i].order| == cfg.expected
    ensures 2 * |Recorded(cfg, Run(cfg, acts[..i]), acts[i])| == cfg.expected * (cfg.expected - 1)
  {
    var st, act := Run(cfg, acts[..i]), acts[i];
    RunEntriesOk(cfg, acts[..i]);
    assert ProperAct(cfg, st, act);
    var hits := HitsAfter(st, act.ev.a);
    assert DistinctSources(hits) && |hits| == cfg.expected;
    PermutedSources(act.order, hits);
    TournamentWins(act.order, 0);
  }

  // ---- Addresses -------------------------------------------------------------------------

  function CountIp(hits: seq<Hit>, ip: u32): (n: nat) {
    if hits == [] then 0 else CountIp(hits[..|hits| - 1], ip) + if hits[|hits| - 1].ip == ip then 1 else 0
  }

  lemma {:induction false} CountIpIn(hits: seq<Hit>, ip: u32, h: Hit)
    requires h in hits && h.ip == ip
    ensures CountIp(hits, ip) >= 1
  {
    if hits[|hits| - 1] != h {
      assert h in hits[..|hits| - 1];
      CountIpIn(hits[..|hits| - 1], ip, h);
    }
  }

  /** The arrivals from `ip` that wait in an incomplete race. */
  function Waiting(cfg: Config, r: Race, ip: u32): (n: nat) {
    if |r.hits| < cfg.expected then CountIp(r.hits, ip) else 0
  }

  function WaitingFrom(cfg: Config, ip: u32): (f: Race -> int) {
    (r: Race) => Waiting(cfg, r, ip)
  }

  ghost function Pending(cfg: Config, races: map<Key, Race>, ip: u32): (n: int) {
    Total(races, WaitingFrom(cfg, ip))
  }

  function WinsOf(ips: map<u32, IpStats>, ip: u32): (n: nat) { if ip in ips then ips[ip].wins else 0 }
  function SeenFrom(ips: map<u32, IpStats>, ip: u32): (n: nat) { if ip in ips then ips[ip].total else 0 }

  ghost predicate Backed(cfg: Config, st: State, ip: u32) {
    WinsOf(st.ips, ip) + Pending(cfg, st.races, ip) <= SeenFrom(st.ips, ip)
  }

  lemma PendingPut(cfg: Config, races: map<Key, Race>, k: Key, r: Race, ip: u32)
    ensures Pending(cfg, races[k := r], ip) ==
              Pending(cfg, races, ip) + Waiting(cfg, r, ip) - if k in races then Waiting(cfg, races[k], ip) else 0
  {
    TotalPut(races, WaitingFrom(cfg, ip), k, r);
  }

  lemma PendingOfSome(cfg: Config, races: map<Key, Race>, some: map<Key, Race>, ip: u32)
    requires forall k | k in some :: k in races && some[k] == races[k]
    ensures Pending(cfg, some, ip) <= Pending(cfg, races, ip)
  {
    TotalOfSome(races, some, WaitingFrom(cfg, ip));
  }

  lemma ArrivalSeen(ips: map<u32, IpStats>, at: u32, ns: nat, ip: u32)
    requires ip != 0
    ensures var r := RecordArrival(ips, at, ns);
            && WinsOf(r, ip) == WinsOf(ips, ip)
            && SeenFrom(r, ip) == SeenFrom(ips, ip) + if at == ip then 1 else 0
  {
  }

  lemma WinCounted(ips: map<u32, IpStats>, at: u32, ok: bool, ip: u32)
    ensures var r := RecordWin(ips, at, ok);
            && WinsOf(r, ip) <= WinsOf(ips, ip) + (if at == ip then 1 else 0)
            && SeenFrom(r, ip) == SeenFrom(ips, ip)
  {
  }

  lemma JoinKeepsBacked(cfg: Config, st: State, act: Act, ip: u32)
    requires ip != 0 && Backed(cfg, st, ip) && ProperAct(cfg, st, act)
    requires act.ev.Process? && Joins(cfg, st, act.ev) && !IsStale(st.races[KeyOf(act.ev.a)], act.ev.now)
    ensures Backed(cfg, Step(cfg, st, act.ev, act.order), ip)
  {
    var a, k := act.ev.a, KeyOf(act.ev.a);
    var hits := st.races[k].hits + [HitOf(a)];
    var race := st.races[k].(hits := hits);
    assert hits[..|hits| - 1] == st.races[k].hits;
    ArrivalSeen(st.ips, a.ip, a.ns, ip);
    PendingPut(cfg, st.races, k, race, ip);
    if |hits| >= cfg.expected {
      var order := act.order;
      assert |multiset(order)| == |order| && |multiset(hits)| == |hits|;
      assert order[0] in multiset(hits);
      WinCounted(RecordArrival(st.ips, a.ip, a.ns), order[0].ip, act.ev.winnerOk, ip);
      if order[0].ip == ip {
        CountIpIn(hits, ip, order[0]);
      }
    }
  }

  lemma StepKeepsBacked(cfg: Config, st: State, act: Act, ip: u32)
    requires ip != 0 && Backed(cfg, st, ip) && ProperAct(cfg, st, act)
    ensures Backed(cfg, Step(cfg, st, act.ev, act.order), ip)
  {
    match act.ev
    case Process(a, now, gate, winnerOk) =>
      var k := KeyOf(a);
      if Joins(cfg, st, act.ev) && !IsStale(st.races[k], now) {
        JoinKeepsBacked(cfg, st, act, ip);
      } else {
        ArrivalSeen(st.ips, a.ip, a.ns, ip);
        var alone := [HitOf(a)];
        assert alone[..0] == [] && CountIp(alone, ip) == if a.ip == ip then 1 else 0;
        PendingPut(cfg, st.races, k, Race(alone, now), ip);
        PendingOfSome(cfg, st.races, st.races - {k}, ip);
        assert Step(cfg, st, act.ev, act.order).ips == RecordArrival(st.ips, a.ip, a.ns);
      }
    case TxRace(_, _) =>
    case Sweep(cutoff, keys) =>
      PendingOfSome(cfg, st.races, Step(cfg, st, act.ev, act.order).races, ip);
  }

  /** Over every run, for every nonzero address, its wins and its arrivals still waiting in open races
      together never exceed the arrivals seen from it; so it never wins more often than it was
      seen. */
  lemma {:induction false} WinsAreBacked(cfg: Config, acts: seq<Act>, ip: u32)
    requires ip != 0 && Proper(cfg, acts)
    ensures Backed(cfg, Run(cfg, acts), ip)
    ensures WinsOf(Run(cfg, acts).ips, ip) <= SeenFrom(Run(cfg, acts).ips, ip)
  {
    if acts == [] {
      assert Pending(cfg, Start.races, ip) == 0;
    } else {
      var n := |acts| - 1;
      ProperPrefix(cfg, acts);
      WinsAreBacked(cfg, acts[..n], ip);
      StepKeepsBacked(cfg, Run(cfg, acts[..n]), acts[n], ip);
    }
    TotalNonNegative(Run(cfg, acts).races, WaitingFrom(cfg, ip));
  }

  lemma ProperPrefix(cfg: Config, acts: seq<Act>)
    requires Proper(cfg, acts) && acts != []
    ensures var n := |acts| - 1; Proper(cfg, acts[..n]) && ProperAct(cfg, Run(cfg, acts[..n]), acts[n])
  {
    var n := |acts| - 1;
    assert forall k | 0 <= k < n :: acts[..n][k] == acts[k] && acts[..n][..k] == acts[..k];
  }
}
