/** Fan-in of all sources: deduplication by signature, and the lead of the fastest shred over the
    RPC. The relay threads of the sources and the eviction thread visit the shared map one entry
    at a time, so a run is any interleaving of their visits. */
module FanInModel {
  import opened Wrappers
  import opened Clock
  import opened Metrics

  type Source = nat
  type Sig = nat
  type Key = nat

  /** `filter` is the program filter; shred-tier deliveries must match it unless it is empty. */
  datatype Config = Config(isRpc: Source -> bool, filter: set<Key>)

  datatype Delivery = Delivery(src: Source, sig: Option<Sig>, keys: seq<Key>, ns: Ns)

  datatype CrossTier = CrossTier(rpcNs: Ns, oldLeadUs: int, shredSource: Source)

  datatype Entry = FirstArrival(recvNs: Ns, isRpc: bool, src: Source, cross: Option<CrossTier>)

  datatype Tally = Tally(first: nat, duplicate: nat, leads: Leads)

  const NoTally: Tally := Tally(0, 0, NoLeads)

  /** `offered` are the deliveries forwarded downstream, `races` the calls that record a race of a
      shred source against the RPC. */
  datatype State = State(
    dedup: map<Sig, Entry>, tallies: map<Source, Tally>, offered: seq<Delivery>, races: seq<(Source, int)>)

  const Init: State := State(map[], map[], [], [])

  /** `Evict` is the part of an eviction pass that visits the given signatures. */
  datatype Event = Arrive(d: Delivery) | Evict(cutoff: Ns, sigs: set<Sig>)

  predicate Accepted(cfg: Config, d: Delivery) {
    && d.sig.Some?
    && (cfg.filter == {} || cfg.isRpc(d.src) || exists k :: k in d.keys && k in cfg.filter)
  }

  function TallyOf(st: State, s: Source): (r: Tally) {
    if s in st.tallies then st.tallies[s] else NoTally
  }

  function SetTally(st: State, s: Source, t: Tally): (r: State) {
    st.(tallies := st.tallies[s := t])
  }

  function SetLeads(st: State, s: Source, l: Leads): (r: State) {
    SetTally(st, s, TallyOf(st, s).(leads := l))
  }

  /** The lead of a source that loses a measurement to a faster one. */
  function Withdraw(l: Leads, oldLeadUs: int): (r: Leads) {
    l.(sumUs := l.sumUs - oldLeadUs, wins := l.wins - if oldLeadUs > 0 then 1 else 0)
  }

  /** The lead of the source that takes it over. */
  function TakeOver(l: Leads, newLeadUs: int): (r: Leads) {
    l.(sumUs := l.sumUs + newLeadUs, wins := l.wins + (if newLeadUs > 0 then 1 else 0), samples := l.samples + [newLeadUs])
  }

  /** A faster shred than the stored one; a lead measured against the RPC moves to its source. */
  function Improve(st: State, sig: Sig, e: Entry, d: Delivery): (r: State) {
    var st1 := if e.cross.None? then st else
                 var ct := e.cross.value;
                 var lead := LeadUs(ct.rpcNs, d.ns);
                 var w := SetLeads(st, e.src, Withdraw(TallyOf(st, e.src).leads, ct.oldLeadUs));
                 SetLeads(w, d.src, TakeOver(TallyOf(w, d.src).leads, lead)).(races := st.races + [(ct.shredSource, lead)]);
    st1.(dedup := st.dedup[sig := e.(recvNs := d.ns, src := d.src)])
  }

  /** One shred-tier and one RPC-tier delivery: a lead is measured for the shred's source. */
  function Measure(st: State, sig: Sig, e: Entry, d: Delivery): (r: State) {
    var (rpcNs, shredNs, who) := if e.isRpc then (e.recvNs, d.ns, d.src) else (d.ns, e.recvNs, e.src);
    var lead := LeadUs(rpcNs, shredNs);
    var st1 := SetLeads(st, who, RecordLead(TallyOf(st, who).leads, lead)).(races := st.races + [(who, lead)]);
    if e.isRpc then st1 else st1.(dedup := st.dedup[sig := e.(cross := Some(CrossTier(rpcNs, lead, who)))])
  }

  function Relay(cfg: Config, st: State, d: Delivery): (r: State) {
    if !Accepted(cfg, d) then st else
    var sig, t := d.sig.value, TallyOf(st, d.src);
    if sig !in st.dedup then
      SetTally(st, d.src, t.(first := t.first + 1))
        .(dedup := st.dedup[sig := FirstArrival(d.ns, cfg.isRpc(d.src), d.src, None)], offered := st.offered + [d])
    else
      var e := st.dedup[sig];
      var st1 := SetTally(st, d.src, t.(duplicate := t.duplicate + 1));
      if cfg.isRpc(d.src) != e.isRpc then Measure(st1, sig, e, d)
      else if !e.isRpc && d.ns < e.recvNs then Improve(st1, sig, e, d)
      else st1
  }

  function Step(cfg: Config, st: State, ev: Event): (r: State) {
    match ev
    case Arrive(d) => Relay(cfg, st, d)
    case Evict(cutoff, sigs) => st.(dedup := map s | s in st.dedup && (s !in sigs || st.dedup[s].recvNs > cutoff) :: st.dedup[s])
  }

  function Run(cfg: Config, evs: seq<Event>): (r: State) {
    if evs == [] then Init else Step(cfg, Run(cfg, evs[..|evs| - 1]), evs[|evs| - 1])
  }
}
