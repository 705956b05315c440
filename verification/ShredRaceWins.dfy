/** What the race tracker credits to whom, over every run: entries hold their feeds' first arrivals, a
    recorded race is a win for the address its earliest arrival came from, and a transaction race is won by
    the side that was first. */
module ShredRaceWins {
  import opened Bytes
  import opened ShredRaceModel
  import opened ShredRaceLives

  // ---- Entries and the arrivals they stand for ---------------------------------------------------

  predicate Reaches(ev: Event, k: Key) {
    ev.Process? && ev.gate && ev.a.slot == k.0 && ev.a.idx == k.1
  }

  /** The gated arrivals of a shred since its present entry was inserted. */
  function Since(cfg: Config, acts: seq<Act>, k: Key): (r: seq<Arrival>) {
    if acts == [] || k !in Run(cfg, acts).races then [] else
    var front, ev := acts[..|acts| - 1], acts[|acts| - 1].ev;
    Since(cfg, front, k) + if Reaches(ev, k) then [ev.a] else []
  }

  /** When the present entry was inserted. */
  function InsertedAt(cfg: Config, acts: seq<Act>, k: Key): (ns: nat) {
    if acts == [] then 0 else
    var front, ev := acts[..|acts| - 1], acts[|acts| - 1].ev;
    if Reaches(ev, k) && k !in Run(cfg, front).races then ev.now else InsertedAt(cfg, front, k)
  }

  predicate HasFeed(hits: seq<Hit>, feed: Name) {
    exists i :: 0 <= i < |hits| && hits[i].source == feed
  }

  /** The first arrival of each feed, in order, until all expected feeds are there. */
  function Field(cfg: Config, l: seq<Arrival>): (hits: seq<Hit>) {
    if l == [] then [] else
    var before, a := Field(cfg, l[..|l| - 1]), l[|l| - 1];
    if before != [] && (|before| >= cfg.expected || HasFeed(before, a.source)) then before
    else before + [Hit(a.source, a.ns, a.ip)]
  }

  ghost predicate Stands(cfg: Config, acts: seq<Act>, k: Key) {
    var st := Run(cfg, acts);
    k in st.races ==>
      && st.races[k].hits == Field(cfg, Since(cfg, acts, k)) && st.races[k].hits != []
      && st.races[k].insertedNs == InsertedAt(cfg, acts, k)
  }

  lemma OneMoreAct(cfg: Config, acts: seq<Act>)
    requires acts != []
    ensures var n := |acts| - 1; Run(cfg, acts) == Step(cfg, Run(cfg, acts[..n]), acts[n].ev, acts[n].order)
  {
  }

  /** How one step changes the entry of a shred. */
  lemma StepEntry(cfg: Config, st: State, ev: Event, order: seq<Hit>, k: Key)
    ensures var r := Step(cfg, st, ev, order).races;
            if Reaches(ev, k) then
              var h := Hit(ev.a.source, ev.a.ns, ev.a.ip);
              if k !in st.races then k in r && r[k] == Race([h], ev.now)
              else if |st.races[k].hits| >= cfg.expected || HasFeed(st.races[k].hits, ev.a.source) then k in r && r[k] == st.races[k]
              else if ev.now >= st.races[k].insertedNs + 10_000_000_000 then k !in r
              else k in r && r[k] == Race(st.races[k].hits + [h], st.races[k].insertedNs)
            else if ev.Sweep? then
              if k in st.races && !(k in ev.keys && st.races[k].insertedNs <= ev.cutoff) then k in r && r[k] == st.races[k] else k !in r
            else if k in st.races then k in r && r[k] == st.races[k] else k !in r
  {
    hide RecordArrival, RecordWin, RecordAll, TxResult, RecordResult;
  }

  lemma FieldGrows(cfg: Config, l: seq<Arrival>, a: Arrival)
    ensures var before := Field(cfg, l);
            Field(cfg, l + [a]) ==
              if before != [] && (|before| >= cfg.expected || HasFeed(before, a.source)) then before
              else before + [Hit(a.source, a.ns, a.ip)]
  {
    assert (l + [a])[..|l + [a]| - 1] == l;
  }

  lemma NoField(cfg: Config)
    ensures Field(cfg, []) == []
  {
  }

  lemma SinceGrows(cfg: Config, acts: seq<Act>, k: Key)
    requires acts != []
    ensures Since(cfg, acts, k) ==
              var n := |acts| - 1;
              if k !in Run(cfg, acts).races then []
              else Since(cfg, acts[..n], k) + if Reaches(acts[n].ev, k) then [acts[n].ev.a] else []
  {
  }

  lemma StandsOn(cfg: Config, acts: seq<Act>, k: Key)
    requires acts != [] && Stands(cfg, acts[..|acts| - 1], k)
    ensures Stands(cfg, acts, k)
  {
    hide Step, Since, Field, HasFeed;
    var n := |acts| - 1;
    var front, ev := acts[..n], acts[n].ev;
    SinceGrows(cfg, acts, k);
    OneMoreAct(cfg, acts);
    StepEntry(cfg, Run(cfg, front), ev, acts[n].order, k);
    NoneSince(cfg, front, k);
    if Reaches(ev, k) {
      FieldGrows(cfg, Since(cfg, front, k), ev.a);
      NoField(cfg);
    } else {
      assert Since(cfg, front, k) + [] == Since(cfg, front, k);
    }
  }

  /** In every reachable state every entry holds the first arrival of each feed since it was inserted, up to
      the number expected, and the time it was inserted. */
  lemma {:induction false} EntriesStand(cfg: Config, acts: seq<Act>, k: Key)
    ensures Stands(cfg, acts, k)
  {
    if acts == [] {
    } else {
      EntriesStand(cfg, acts[..|acts| - 1], k);
      StandsOn(cfg, acts, k);
    }
  }

  lemma NoneSince(cfg: Config, acts: seq<Act>, k: Key)
    ensures k !in Run(cfg, acts).races ==> Since(cfg, acts, k) == []
  {
  }

  /** An eviction takes an entry out exactly when it visits it and it was inserted at or before the cutoff;
      every other entry stays as it is. */
  lemma SweptExactly(cfg: Config, acts: seq<Act>, cutoff: nat, keys: set<Key>, k: Key)
    requires k in Run(cfg, acts).races
    ensures var st, r := Run(cfg, acts), Step(cfg, Run(cfg, acts), Sweep(cutoff, keys), []);
            && (k in r.races <==> k !in keys || InsertedAt(cfg, acts, k) > cutoff)
            && (k in r.races ==> r.races[k] == st.races[k]) && r.pairs == st.pairs && r.ips == st.ips
  {
    EntriesStand(cfg, acts, k);
  }

  // ---- Arrivals seen -------------------------------------------------------------------------------

  /** The arrivals from an address, whatever the leader cache says of them. */
  function ArrivalsFrom(acts: seq<Act>, ip: u32): (n: nat) {
    if acts == [] then 0 else
    var ev := acts[|acts| - 1].ev;
    ArrivalsFrom(acts[..|acts| - 1], ip) + if ev.Process? && ev.a.ip == ip then 1 else 0
  }

  function LastFrom(acts: seq<Act>, ip: u32): (ns: nat) {
    if acts == [] then 0 else
    var ev := acts[|acts| - 1].ev;
    if ev.Process? && ev.a.ip == ip then ev.a.ns else LastFrom(acts[..|acts| - 1], ip)
  }

  /** The win of a step, if it has one: the arrival completes its race and its winner is accepted. */
  predicate Awards(cfg: Config, st: State, ev: Event) {
    Completes(cfg, st, ev) && ev.winnerOk
  }

  lemma StepSeen(cfg: Config, st: State, ev: Event, order: seq<Hit>, ip: u32)
    ensures var r := Step(cfg, st, ev, order).ips;
            if ip != 0 && ev.Process? && ev.a.ip == ip then
              ip in r && r[ip].total == (if ip in st.ips then st.ips[ip].total else 0) + 1 && r[ip].lastSeenNs == ev.a.ns
            else (ip in r <==> ip in st.ips) && (ip in r ==> r[ip].total == st.ips[ip].total && r[ip].lastSeenNs == st.ips[ip].lastSeenNs)
  {
    hide RecordAll, TxResult, RecordResult, Joins;
  }

  /** Over every run, the tracker knows exactly the nonzero addresses that shreds arrived from, how many came
      from each, and when the last one came. */
  lemma {:induction false} SeenExactly(cfg: Config, acts: seq<Act>, ip: u32)
    ensures var ips := Run(cfg, acts).ips;
            && (ip in ips <==> ip != 0 && ArrivalsFrom(acts, ip) > 0)
            && (ip in ips ==> ips[ip].total == ArrivalsFrom(acts, ip) && ips[ip].lastSeenNs == LastFrom(acts, ip))
  {
    if acts != [] {
      hide Step;
      var n := |acts| - 1;
      SeenExactly(cfg, acts[..n], ip);
      OneMoreAct(cfg, acts);
      StepSeen(cfg, Run(cfg, acts[..n]), acts[n].ev, acts[n].order, ip);
    }
  }

  // ---- Wins ------------------------------------------------------------------------------------------

  /** No hit of the race is earlier. */
  predicate IsEarliest(hits: seq<Hit>, h: Hit) {
    h in hits && forall i | 0 <= i < |hits| :: h.ns <= hits[i].ns
  }

  /** Some earliest arrival of the race that the step records came from the address; and every one did. */
  ghost predicate MayWin(cfg: Config, st: State, ev: Event, ip: u32) {
    Awards(cfg, st, ev) && exists h :: IsEarliest(HitsAfter(st, ev.a), h) && h.ip == ip
  }

  ghost predicate MustWin(cfg: Config, st: State, ev: Event, ip: u32) {
    Awards(cfg, st, ev) && forall h | IsEarliest(HitsAfter(st, ev.a), h) :: h.ip == ip
  }

  ghost function MayWins(cfg: Config, acts: seq<Act>, ip: u32): (n: nat) {
    if acts == [] then 0 else
    var front := acts[..|acts| - 1];
    MayWins(cfg, front, ip) + if MayWin(cfg, Run(cfg, front), acts[|acts| - 1].ev, ip) then 1 else 0
  }

  ghost function MustWins(cfg: Config, acts: seq<Act>, ip: u32): (n: nat) {
    if acts == [] then 0 else
    var front := acts[..|acts| - 1];
    MustWins(cfg, front, ip) + if MustWin(cfg, Run(cfg, front), acts[|acts| - 1].ev, ip) then 1 else 0
  }

  /** The address of every hit in an open race is known. */
  ghost predicate HitsKnown(st: State) {
    forall k, i | k in st.races && 0 <= i < |st.races[k].hits| ::
      st.races[k].hits[i].ip == 0 || st.races[k].hits[i].ip in st.ips
  }

  lemma StepHitsKnown(cfg: Config, st: State, ev: Event, order: seq<Hit>)
    requires HitsKnown(st)
    ensures HitsKnown(Step(cfg, st, ev, order))
  {
    hide Step;
    var r := Step(cfg, st, ev, order);
    forall k, i | k in r.races && 0 <= i < |r.races[k].hits|
      ensures r.races[k].hits[i].ip == 0 || r.races[k].hits[i].ip in r.ips
    {
      StepEntry(cfg, st, ev, order, k);
      StepSeen(cfg, st, ev, order, r.races[k].hits[i].ip);
    }
  }

  lemma {:induction false} RunHitsKnown(cfg: Config, acts: seq<Act>)
    ensures HitsKnown(Run(cfg, acts))
  {
    if acts != [] {
      hide Step;
      var n := |acts| - 1;
      RunHitsKnown(cfg, acts[..n]);
      OneMoreAct(cfg, acts);
      StepHitsKnown(cfg, Run(cfg, acts[..n]), acts[n].ev, acts[n].order);
    }
  }

  lemma SortedFirst(order: seq<Hit>, hits: seq<Hit>)
    requires IsOrderOf(order, hits) && hits != []
    ensures order != [] && IsEarliest(hits, order[0])
  {
    assert |multiset(order)| == |order| && |multiset(hits)| == |hits|;
    assert order[0] in multiset(order);
    forall i | 0 <= i < |hits| ensures order[0].ns <= hits[i].ns {
      assert hits[i] in multiset(hits);
      var j :| 0 <= j < |order| && order[j] == hits[i];
    }
  }

  lemma CompletedWin(cfg: Config, st: State, act: Act, ip: u32)
    requires Completes(cfg, st, act.ev) && act.order != [] && ip != 0
    requires act.order[0].ip == 0 || act.order[0].ip == act.ev.a.ip || act.order[0].ip in st.ips
    ensures WinsOf(Step(cfg, st, act.ev, act.order).ips, ip) ==
              WinsOf(st.ips, ip) + if act.ev.winnerOk && act.order[0].ip == ip then 1 else 0
  {
  }

  lemma NoWin(cfg: Config, st: State, ev: Event, order: seq<Hit>, ip: u32)
    requires !Completes(cfg, st, ev)
    ensures WinsOf(Step(cfg, st, ev, order).ips, ip) == WinsOf(st.ips, ip)
  {
    hide TxResult, RecordResult;
  }

  /** One step: an earliest arrival of the recorded race wins, and no other address does. */
  lemma StepWins(cfg: Config, st: State, act: Act, ip: u32)
    requires HitsKnown(st) && ProperAct(cfg, st, act) && ip != 0
    ensures var was, now := WinsOf(st.ips, ip), WinsOf(Step(cfg, st, act.ev, act.order).ips, ip);
            && was <= now <= was + 1
            && (now > was ==> MayWin(cfg, st, act.ev, ip)) && (MustWin(cfg, st, act.ev, ip) ==> now > was)
  {
    hide Step, IsOrderOf, IsEarliest;
    if Completes(cfg, st, act.ev) {
      var hits := HitsAfter(st, act.ev.a);
      SortedFirst(act.order, hits);
      EarliestIsHit(hits, act.order[0]);
      CompletedWin(cfg, st, act, ip);
    } else {
      NoWin(cfg, st, act.ev, act.order, ip);
    }
  }

  lemma EarliestIsHit(hits: seq<Hit>, h: Hit)
    requires IsEarliest(hits, h)
    ensures exists i :: 0 <= i < |hits| && hits[i] == h
  {
  }

  /** Over every run, an address has won at least the recorded races all of whose earliest arrivals came from
      it, and at most those of which one did, the leader cache agreeing. */
  lemma {:induction false} RunWins(cfg: Config, acts: seq<Act>, ip: u32)
    requires Proper(cfg, acts) && ip != 0
    ensures MustWins(cfg, acts, ip) <= WinsOf(Run(cfg, acts).ips, ip) <= MayWins(cfg, acts, ip)
  {
    if acts != [] {
      hide Step, Proper, ProperAct, MayWin, MustWin;
      var n := |acts| - 1;
      ProperPrefix(cfg, acts);
      RunWins(cfg, acts[..n], ip);
      RunHitsKnown(cfg, acts[..n]);
      OneMoreAct(cfg, acts);
      StepWins(cfg, Run(cfg, acts[..n]), acts[n], ip);
      MustMay(cfg, Run(cfg, acts[..n]), acts[n].ev, ip);
    }
  }

  lemma EarliestExists(hits: seq<Hit>) returns (h: Hit)
    requires hits != []
    ensures IsEarliest(hits, h)
  {
    h := hits[0];
    if |hits| > 1 {
      var front := hits[..|hits| - 1];
      var g := EarliestExists(front);
      h := if g.ns <= hits[|hits| - 1].ns then g else hits[|hits| - 1];
    }
  }

  lemma MustMay(cfg: Config, st: State, ev: Event, ip: u32)
    ensures MustWin(cfg, st, ev, ip) ==> MayWin(cfg, st, ev, ip)
  {
    if MustWin(cfg, st, ev, ip) {
      var h := EarliestExists(HitsAfter(st, ev.a));
    }
  }

  /** The earliest arrivals of every recorded race came from one address. */
  ghost predicate NoTies(cfg: Config, acts: seq<Act>) {
    forall n, g, h | 0 <= n < |acts| && Awards(cfg, Run(cfg, acts[..n]), acts[n].ev)
      && IsEarliest(HitsAfter(Run(cfg, acts[..n]), acts[n].ev.a), g) && IsEarliest(HitsAfter(Run(cfg, acts[..n]), acts[n].ev.a), h)
      :: g.ip == h.ip
  }

  /** Where the earliest arrival is not tied, an address's wins are exactly the recorded races whose earliest
      arrival came from it. */
  lemma {:induction false} WinsExactly(cfg: Config, acts: seq<Act>, ip: u32)
    requires Proper(cfg, acts) && ip != 0 && NoTies(cfg, acts)
    ensures WinsOf(Run(cfg, acts).ips, ip) == MayWins(cfg, acts, ip)
  {
    RunWins(cfg, acts, ip);
    SameCounts(cfg, acts, ip);
  }

  lemma {:induction false} SameCounts(cfg: Config, acts: seq<Act>, ip: u32)
    requires NoTies(cfg, acts)
    ensures MustWins(cfg, acts, ip) == MayWins(cfg, acts, ip)
  {
    if acts != [] {
      hide Step, IsEarliest, Awards, Run;
      var n := |acts| - 1;
      var front := acts[..n];
      assert forall m | 0 <= m < n :: acts[..n][..m] == acts[..m] && front[m] == acts[m];
      SameCounts(cfg, front, ip);
      MustMay(cfg, Run(cfg, front), acts[n].ev, ip);
    }
  }

  // ---- Transaction races -------------------------------------------------------------------------------

  /** How often `x` beat `y`, by the counter of their pair, whose first name is the lesser. */
  function WinsOver(pairs: map<(Name, Name), Pair>, x: Name, y: Name): (n: nat) {
    if x <= y then if (x, y) in pairs then pairs[(x, y)].aWins else 0
    else if (y, x) in pairs then pairs[(y, x)].bWins else 0
  }

  function LeadSumBetween(pairs: map<(Name, Name), Pair>, x: Name, y: Name): (sum: int) {
    var k := if x <= y then (x, y) else (y, x);
    if k in pairs then pairs[k].leadSumUs else 0
  }

  /** A result is one more win of the winner over the loser, and its lead between them; nothing else. */
  lemma ResultCounted(pairs: map<(Name, Name), Pair>, r: Result, x: Name, y: Name)
    requires r.winner != r.loser && x != y
    ensures var now := RecordResult(pairs, r);
            && WinsOver(now, x, y) == WinsOver(pairs, x, y) + (if x == r.winner && y == r.loser then 1 else 0)
            && LeadSumBetween(now, x, y) == LeadSumBetween(pairs, x, y) +
                 if (x == r.winner && y == r.loser) || (x == r.loser && y == r.winner) then r.leadUs else 0
  {
  }

  /** A transaction race of shred source `s`: a lead that is not negative is a win of `s` over the RPC, a
      negative one a win of the RPC over `s`; their lead sum grows by its size, and nothing between other
      feeds changes. */
  lemma TxRaceWinner(cfg: Config, st: State, s: Name, leadUs: int, x: Name, y: Name)
    requires s != cfg.rpc && x != y
    ensures var was, now := st.pairs, Step(cfg, st, TxRace(s, leadUs), []).pairs;
            && WinsOver(now, s, cfg.rpc) == WinsOver(was, s, cfg.rpc) + (if leadUs >= 0 then 1 else 0)
            && WinsOver(now, cfg.rpc, s) == WinsOver(was, cfg.rpc, s) + (if leadUs < 0 then 1 else 0)
            && LeadSumBetween(now, s, cfg.rpc) == LeadSumBetween(was, s, cfg.rpc) + (if leadUs < 0 then -leadUs else leadUs)
            && ((x != s && x != cfg.rpc) || (y != s && y != cfg.rpc) ==>
                  WinsOver(now, x, y) == WinsOver(was, x, y) && LeadSumBetween(now, x, y) == LeadSumBetween(was, x, y))
  {
    hide RecordResult, WinsOver, LeadSumBetween;
    var r := TxResult(cfg, s, leadUs);
    ResultCounted(st.pairs, r, s, cfg.rpc);
    ResultCounted(st.pairs, r, cfg.rpc, s);
    ResultCounted(st.pairs, r, x, y);
  }
}
