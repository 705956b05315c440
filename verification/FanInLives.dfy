/** What the dedup map remembers of each entry's lifetime, over every interleaving of relay and
    eviction steps; and that every accepted delivery is counted once. */
module FanInLives {
  import opened Wrappers
  import opened Metrics
  import opened Clock
  import opened FanInModel
  import opened Sums

  /** The earliest shred-tier delivery of a list; the first of them when several tie. */
  function Fastest(cfg: Config, l: seq<Delivery>): (r: Option<Delivery>) {
    if l == [] then None else
    var f, d := Fastest(cfg, l[..|l| - 1]), l[|l| - 1];
    if cfg.isRpc(d.src) then f else if f.None? || d.ns < f.value.ns then Some(d) else f
  }

  function LastRpc(cfg: Config, l: seq<Delivery>): (r: Option<Delivery>) {
    if l == [] then None else
    if cfg.isRpc(l[|l| - 1].src) then Some(l[|l| - 1]) else LastRpc(cfg, l[..|l| - 1])
  }

  lemma {:induction false} FastestIsEarliest(cfg: Config, l: seq<Delivery>)
    ensures Fastest(cfg, l).Some? <==> exists k :: 0 <= k < |l| && !cfg.isRpc(l[k].src)
    ensures Fastest(cfg, l).Some? ==>
              && Fastest(cfg, l).value in l && !cfg.isRpc(Fastest(cfg, l).value.src)
              && forall k | 0 <= k < |l| && !cfg.isRpc(l[k].src) :: Fastest(cfg, l).value.ns <= l[k].ns
  {
    if l != [] {
      var front, d := l[..|l| - 1], l[|l| - 1];
      FastestIsEarliest(cfg, front);
      assert d == l[|l| - 1] && d in l;
      if Fastest(cfg, front).Some? {
        var k :| 0 <= k < |front| && !cfg.isRpc(front[k].src);
        assert !cfg.isRpc(l[k].src);
      }
      forall k | 0 <= k < |l| && !cfg.isRpc(l[k].src)
        ensures Fastest(cfg, l).Some? && Fastest(cfg, l).value.ns <= l[k].ns
      {
        assert k < |front| ==> front[k] == l[k];
      }
    }
  }

  predicate IsFor(cfg: Config, ev: Event, sig: Sig) {
    ev.Arrive? && Accepted(cfg, ev.d) && ev.d.sig == Some(sig)
  }

  /** The accepted deliveries of a signature since its present entry was created. */
  function Life(cfg: Config, evs: seq<Event>, sig: Sig): (r: seq<Delivery>) {
    if evs == [] || sig !in Run(cfg, evs).dedup then [] else
    var before, ev := Life(cfg, evs[..|evs| - 1], sig), evs[|evs| - 1];
    if IsFor(cfg, ev, sig) then before + [ev.d] else before
  }

  /** An entry is of the tier of its first delivery. A shred-tier entry holds the earliest shred of
      its lifetime and the latest RPC delivery a lead was measured against; an RPC-tier entry holds
      its first delivery. */
  ghost predicate Remembers(cfg: Config, e: Entry, l: seq<Delivery>) {
    && l != [] && e.isRpc == cfg.isRpc(l[0].src)
    && if e.isRpc then
         e.recvNs == l[0].ns && e.src == l[0].src && e.cross.None?
       else
         && Fastest(cfg, l).Some?
         && e.recvNs == Fastest(cfg, l).value.ns && e.src == Fastest(cfg, l).value.src
         && (e.cross.None? <==> LastRpc(cfg, l).None?)
         && (e.cross.Some? ==> e.cross.value.rpcNs == LastRpc(cfg, l).value.ns)
  }

  lemma RelayOthers(cfg: Config, st: State, d: Delivery, sig: Sig)
    requires !IsFor(cfg, Arrive(d), sig)
    ensures var r := Relay(cfg, st, d).dedup;
            (sig in r <==> sig in st.dedup) && (sig in r ==> r[sig] == st.dedup[sig])
  {
  }

  lemma RelayRemembers(cfg: Config, st: State, d: Delivery, sig: Sig, l: seq<Delivery>)
    requires IsFor(cfg, Arrive(d), sig)
    requires if sig in st.dedup then Remembers(cfg, st.dedup[sig], l) else l == []
    ensures sig in Relay(cfg, st, d).dedup && Remembers(cfg, Relay(cfg, st, d).dedup[sig], l + [d])
  {
    assert (l + [d])[..|l + [d]| - 1] == l;
    assert l != [] ==> (l + [d])[0] == l[0];
    if sig !in st.dedup {
      assert Fastest(cfg, []).None? && LastRpc(cfg, []).None?;
    }
  }

  /** In every reachable state, every entry remembers its lifetime. */
  lemma {:induction false} EntriesRemember(cfg: Config, evs: seq<Event>, sig: Sig)
    ensures sig in Run(cfg, evs).dedup ==> Remembers(cfg, Run(cfg, evs).dedup[sig], Life(cfg, evs, sig))
  {
    if evs != [] {
      var front, ev := evs[..|evs| - 1], evs[|evs| - 1];
      EntriesRemember(cfg, front, sig);
      if IsFor(cfg, ev, sig) {
        RelayRemembers(cfg, Run(cfg, front), ev.d, sig, Life(cfg, front, sig));
      } else if ev.Arrive? {
        RelayOthers(cfg, Run(cfg, front), ev.d, sig);
      }
    }
  }

  // ---- Counting --------------------------------------------------------------------------

  function AcceptedCount(cfg: Config, evs: seq<Event>): (n: nat) {
    if evs == [] then 0 else
    AcceptedCount(cfg, evs[..|evs| - 1]) +
      if evs[|evs| - 1].Arrive? && Accepted(cfg, evs[|evs| - 1].d) then 1 else 0
  }

  function FirstOf(t: Tally): (r: int) { t.first }
  function DuplicateOf(t: Tally): (r: int) { t.duplicate }

  /** All firsts and duplicates, and the offers. */
  ghost predicate CountedOnce(st: State, accepted: nat) {
    && Total(st.tallies, FirstOf) == |st.offered|
    && Total(st.tallies, FirstOf) + Total(st.tallies, DuplicateOf) == accepted
  }

  lemma SetTallyTotals(st: State, s: Source, t: Tally)
    ensures Total(SetTally(st, s, t).tallies, FirstOf) == Total(st.tallies, FirstOf) + t.first - TallyOf(st, s).first
    ensures Total(SetTally(st, s, t).tallies, DuplicateOf) ==
              Total(st.tallies, DuplicateOf) + t.duplicate - TallyOf(st, s).duplicate
  {
    TotalPut(st.tallies, FirstOf, s, t);
    TotalPut(st.tallies, DuplicateOf, s, t);
  }

  lemma MeasureKeepsCount(st: State, sig: Sig, e: Entry, d: Delivery, n: nat)
    requires CountedOnce(st, n)
    ensures CountedOnce(Measure(st, sig, e, d), n)
  {
    var who := if e.isRpc then d.src else e.src;
    var lead := if e.isRpc then LeadUs(e.recvNs, d.ns) else LeadUs(d.ns, e.recvNs);
    SetTallyTotals(st, who, TallyOf(st, who).(leads := RecordLead(TallyOf(st, who).leads, lead)));
  }

  lemma ImproveKeepsCount(st: State, sig: Sig, e: Entry, d: Delivery, n: nat)
    requires CountedOnce(st, n)
    ensures CountedOnce(Improve(st, sig, e, d), n)
  {
    if e.cross.Some? {
      var ct := e.cross.value;
      var out := Withdraw(TallyOf(st, e.src).leads, ct.oldLeadUs);
      var w := SetLeads(st, e.src, out);
      SetTallyTotals(st, e.src, TallyOf(st, e.src).(leads := out));
      SetTallyTotals(w, d.src, TallyOf(w, d.src).(leads := TakeOver(TallyOf(w, d.src).leads, LeadUs(ct.rpcNs, d.ns))));
    }
  }

  lemma RelayCounts(cfg: Config, st: State, d: Delivery, n: nat)
    requires CountedOnce(st, n)
    ensures CountedOnce(Relay(cfg, st, d), n + if Accepted(cfg, d) then 1 else 0)
  {
    if Accepted(cfg, d) {
      hide Measure, Improve;
      var sig, t := d.sig.value, TallyOf(st, d.src);
      SetTallyTotals(st, d.src, t.(first := t.first + 1));
      SetTallyTotals(st, d.src, t.(duplicate := t.duplicate + 1));
      if sig in st.dedup {
        var st1 := SetTally(st, d.src, t.(duplicate := t.duplicate + 1));
        MeasureKeepsCount(st1, sig, st.dedup[sig], d, n + 1);
        ImproveKeepsCount(st1, sig, st.dedup[sig], d, n + 1);
      }
    }
  }

  /** On every run each accepted delivery is counted exactly once, as a first or as a duplicate, and
      there are as many downstream offers as firsts. */
  lemma {:induction false} EveryDeliveryCountedOnce(cfg: Config, evs: seq<Event>)
    ensures CountedOnce(Run(cfg, evs), AcceptedCount(cfg, evs))
  {
    if evs != [] {
      var front, ev := evs[..|evs| - 1], evs[|evs| - 1];
      EveryDeliveryCountedOnce(cfg, front);
      if ev.Arrive? {
        RelayCounts(cfg, Run(cfg, front), ev.d, AcceptedCount(cfg, front));
      }
    }
  }

  /** How often an entry for `sig` came to be. */
  function Creations(cfg: Config, evs: seq<Event>, sig: Sig): (n: nat) {
    if evs == [] then 0 else
    var front := evs[..|evs| - 1];
    Creations(cfg, front, sig) + if sig !in Run(cfg, front).dedup && sig in Run(cfg, evs).dedup then 1 else 0
  }

  function OffersOf(offered: seq<Delivery>, sig: Sig): (n: nat) {
    if offered == [] then 0 else
    OffersOf(offered[..|offered| - 1], sig) + if offered[|offered| - 1].sig == Some(sig) then 1 else 0
  }

  lemma RelayOffers(cfg: Config, st: State, d: Delivery, sig: Sig)
    ensures var r := Relay(cfg, st, d);
            && OffersOf(r.offered, sig) == OffersOf(st.offered, sig) + (if sig !in st.dedup && sig in r.dedup then 1 else 0)
            && (sig in st.dedup ==> sig in r.dedup)
  {
    assert (st.offered + [d])[..|st.offered + [d]| - 1] == st.offered;
  }

  /** Each lifetime of an entry has exactly one downstream offer: its creation. */
  lemma {:induction false} OneOfferPerLife(cfg: Config, evs: seq<Event>, sig: Sig)
    ensures OffersOf(Run(cfg, evs).offered, sig) == Creations(cfg, evs, sig)
  {
    if evs != [] {
      var front, ev := evs[..|evs| - 1], evs[|evs| - 1];
      OneOfferPerLife(cfg, front, sig);
      if ev.Arrive? {
        RelayOffers(cfg, Run(cfg, front), ev.d, sig);
      }
    }
  }

  // ---- All lifetimes of a run --------------------------------------------------------------

  /** The entry of a signature that was created as its n-th, counted from 1. */
  type LifeId = (Sig, nat)

  function Lifetime(cfg: Config, evs: seq<Event>, id: LifeId): (r: seq<Delivery>) {
    if evs == [] then [] else
    var before, ev := Lifetime(cfg, evs[..|evs| - 1], id), evs[|evs| - 1];
    if IsFor(cfg, ev, id.0) && Creations(cfg, evs, id.0) == id.1 then before + [ev.d] else before
  }

  function Lives(cfg: Config, evs: seq<Event>): (r: set<LifeId>) {
    if evs == [] then {} else
    var ev := evs[|evs| - 1];
    Lives(cfg, evs[..|evs| - 1]) +
      if ev.Arrive? && Accepted(cfg, ev.d) then {(ev.d.sig.value, Creations(cfg, evs, ev.d.sig.value))} else {}
  }

  lemma {:induction false} LivesHaveDeliveries(cfg: Config, evs: seq<Event>, id: LifeId)
    ensures id in Lives(cfg, evs) <==> Lifetime(cfg, evs, id) != []
  {
    if evs != [] {
      LivesHaveDeliveries(cfg, evs[..|evs| - 1], id);
    }
  }

  /** The present entry's lifetime is the last one. */
  lemma {:induction false} PresentLife(cfg: Config, evs: seq<Event>, sig: Sig)
    ensures sig in Run(cfg, evs).dedup ==> Life(cfg, evs, sig) == Lifetime(cfg, evs, (sig, Creations(cfg, evs, sig)))
    ensures forall n | n > Creations(cfg, evs, sig) :: Lifetime(cfg, evs, (sig, n)) == []
  {
    if evs != [] {
      var front, ev := evs[..|evs| - 1], evs[|evs| - 1];
      PresentLife(cfg, front, sig);
      if ev.Arrive? && !IsFor(cfg, ev, sig) {
        RelayOthers(cfg, Run(cfg, front), ev.d, sig);
      }
    }
  }
}
