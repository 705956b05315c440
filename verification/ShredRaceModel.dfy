/** The shred race tracker: which feed delivers each shred first, once every expected feed has. A
    run is any interleaving of processed arrivals, transaction races and eviction steps. */
module ShredRaceModel {
  import opened Bytes
  import opened Clock

  /** Feed names enter only through equality and their alphabetical order. */
  type Name = nat

  const STALE_NS: nat := 10_000_000_000

  datatype Arrival = Arrival(source: Name, slot: u64, idx: u32, ns: Ns, ip: u32)

  datatype Hit = Hit(source: Name, ns: Ns, ip: u32)

  type Key = (u64, u32)

  datatype Race = Race(hits: seq<Hit>, insertedNs: nat)

  /** `samples` is every lead ever pushed to the pair's reservoir. */
  datatype Pair = Pair(aWins: nat, bWins: nat, leadSumUs: int, leadCount: nat, samples: seq<int>)

  datatype IpStats = IpStats(total: nat, wins: nat, lastSeenNs: nat)

  /** `expected` feeds must deliver a shred before its race is recorded; `rpc` is the name under
      which the RPC competes. */
  datatype Config = Config(expected: nat, rpc: Name)

  datatype State = State(races: map<Key, Race>, pairs: map<(Name, Name), Pair>, ips: map<u32, IpStats>)

  const Start: State := State(map[], map[], map[])

  /** `gate` and `winnerOk` are the leader cache's answers for the arrival and, should its race
      complete, for the winner; both are true without a cache. `Sweep` is the part of an eviction
      pass that visits the given keys. */
  datatype Event =
    | Process(a: Arrival, now: nat, gate: bool, winnerOk: bool)
    | TxRace(shredSource: Name, leadUs: int)
    | Sweep(cutoff: nat, keys: set<Key>)

  // ---- Results -------------------------------------------------------------------------

  datatype Result = Result(winner: Name, loser: Name, leadUs: int)

  function Canonical(a: Name, b: Name): (r: (Name, Name)) {
    if a <= b then (a, b) else (b, a)
  }

  const NoPair: Pair := Pair(0, 0, 0, 0, [])

  function RecordPair(p: Pair, winnerIsA: bool, leadUs: int): (r: Pair) {
    p.(aWins := p.aWins + if winnerIsA then 1 else 0, bWins := p.bWins + if winnerIsA then 0 else 1,
       leadSumUs := p.leadSumUs + leadUs, leadCount := p.leadCount + 1, samples := p.samples + [leadUs])
  }

  function PairOf(pairs: map<(Name, Name), Pair>, k: (Name, Name)): (r: Pair) {
    if k in pairs then pairs[k] else NoPair
  }

  function RecordResult(pairs: map<(Name, Name), Pair>, r: Result): (s: map<(Name, Name), Pair>) {
    var k := Canonical(r.winner, r.loser);
    pairs[k := RecordPair(PairOf(pairs, k), r.winner == k.0, r.leadUs)]
  }

  function RecordAll(pairs: map<(Name, Name), Pair>, rs: seq<Result>): (s: map<(Name, Name), Pair>) {
    if rs == [] then pairs else RecordResult(RecordAll(pairs, rs[..|rs| - 1]), rs[|rs| - 1])
  }

  function Outcome(fast: Hit, slow: Hit): (r: Result) {
    Result(fast.source, slow.source, LeadUs(slow.ns, fast.ns))
  }

  /** The results of the hit at `i` against those at `i + 1` to `hi - 1`. */
  function RowResults(order: seq<Hit>, i: nat, hi: nat): (r: seq<Result>)
    requires i < hi <= |order|
    decreases hi
  {
    if hi == i + 1 then [] else RowResults(order, i, hi - 1) + [Outcome(order[i], order[hi - 1])]
  }

  /** The results of the first `n` hits against all later ones. */
  function ResultsUpTo(order: seq<Hit>, n: nat): (r: seq<Result>)
    requires n <= |order|
  {
    if n == 0 then [] else ResultsUpTo(order, n - 1) + RowResults(order, n - 1, |order|)
  }

  function Results(order: seq<Hit>): (r: seq<Result>) {
    ResultsUpTo(order, |order|)
  }

  // ---- The step ------------------------------------------------------------------------

  predicate SortedByNs(hits: seq<Hit>) {
    forall j, k | 0 <= j < k < |hits| :: hits[j].ns <= hits[k].ns
  }

  /** What `sort_unstable_by_key` may make of `hits`. */
  predicate IsOrderOf(order: seq<Hit>, hits: seq<Hit>) {
    SortedByNs(order) && multiset(order) == multiset(hits)
  }

  function RecordArrival(ips: map<u32, IpStats>, ip: u32, ns: nat): (r: map<u32, IpStats>) {
    if ip == 0 then ips else
    var s := if ip in ips then ips[ip] else IpStats(0, 0, ns);
    ips[ip := s.(total := s.total + 1, lastSeenNs := ns)]
  }

  function RecordWin(ips: map<u32, IpStats>, ip: u32, ok: bool): (r: map<u32, IpStats>) {
    if ip == 0 || !ok || ip !in ips then ips else ips[ip := ips[ip].(wins := ips[ip].wins + 1)]
  }

  function HitOf(a: Arrival): (r: Hit) {
    Hit(a.source, a.ns, a.ip)
  }

  function KeyOf(a: Arrival): (r: Key) {
    (a.slot, a.idx)
  }

  predicate IsStale(r: Race, now: nat) {
    now >= r.insertedNs + STALE_NS
  }

  /** The arrival is another feed's, of a shred whose race is still open. */
  predicate Joins(cfg: Config, st: State, ev: Event) {
    && ev.Process? && ev.gate && KeyOf(ev.a) in st.races
    && var r := st.races[KeyOf(ev.a)];
    && |r.hits| < cfg.expected
    && (forall k | 0 <= k < |r.hits| :: r.hits[k].source != ev.a.source)
  }

  /** It is the last feed expected, in time: the race is recorded. */
  predicate Completes(cfg: Config, st: State, ev: Event) {
    && Joins(cfg, st, ev)
    && !IsStale(st.races[KeyOf(ev.a)], ev.now) && |st.races[KeyOf(ev.a)].hits| + 1 >= cfg.expected
  }

  /** `order` is the order the hits were sorted into, if the event completes a race. */
  function Step(cfg: Config, st: State, ev: Event, order: seq<Hit>): (r: State) {
    match ev
    case Process(a, now, gate, winnerOk) =>
      var k, st1 := KeyOf(a), st.(ips := RecordArrival(st.ips, a.ip, a.ns));
      if !gate then st1
      else if k !in st.races then st1.(races := st.races[k := Race([HitOf(a)], now)])
      else if !Joins(cfg, st, ev) then st1
      else if IsStale(st.races[k], now) then st1.(races := st.races - {k})
      else
        var hits := st.races[k].hits + [HitOf(a)];
        var st2 := st1.(races := st.races[k := st.races[k].(hits := hits)]);
        if |hits| < cfg.expected || order == [] then st2
        else st2.(ips := RecordWin(st1.ips, order[0].ip, winnerOk), pairs := RecordAll(st.pairs, Results(order)))
    case TxRace(s, lead) => st.(pairs := RecordResult(st.pairs, TxResult(cfg, s, lead)))
    case Sweep(cutoff, keys) => st.(races := map k | k in st.races && (k !in keys || st.races[k].insertedNs > cutoff) :: st.races[k])
  }

  /** `record_tx_race`: the shred source wins a lead that is not negative. */
  function TxResult(cfg: Config, s: Name, leadUs: int): (r: Result) {
    if leadUs >= 0 then Result(s, cfg.rpc, leadUs) else Result(cfg.rpc, s, -leadUs)
  }

  datatype Act = Act(ev: Event, order: seq<Hit>)

  function Run(cfg: Config, acts: seq<Act>): (r: State) {
    if acts == [] then Start
    else Step(cfg, Run(cfg, acts[..|acts| - 1]), acts[|acts| - 1].ev, acts[|acts| - 1].order)
  }

  /** The hits that a completing arrival sorts. */
  function HitsAfter(st: State, a: Arrival): (r: seq<Hit>) {
    (if KeyOf(a) in st.races then st.races[KeyOf(a)].hits else []) + [HitOf(a)]
  }

  ghost predicate ProperAct(cfg: Config, st: State, act: Act) {
    Completes(cfg, st, act.ev) ==> IsOrderOf(act.order, HitsAfter(st, act.ev.a))
  }

  /** Every completed race was sorted by arrival time. */
  ghost predicate Proper(cfg: Config, acts: seq<Act>) {
    forall k | 0 <= k < |acts| :: ProperAct(cfg, Run(cfg, acts[..k]), acts[k])
  }
}
