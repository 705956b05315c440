/** The relay and eviction loops' bodies over the shared map and counters. */
module FanIns {
  import opened Wrappers
  import opened Metrics
  import opened Clock
  import opened FanInModel

  class FanIn {
    const cfg: Config
    var dedup: map<Sig, Entry>
    var tallies: map<Source, Tally>
    var offered: seq<Delivery>
    var races: seq<(Source, int)>

    ghost function Model(): (r: State)
      reads this
    {
      State(dedup, tallies, offered, races)
    }

    constructor (cfg: Config)
      ensures this.cfg == cfg && Model() == Init
    {
      this.cfg, dedup, tallies, offered, races := cfg, map[], map[], [], [];
    }

    method Tally(s: Source) returns (t: FanInModel.Tally)
      ensures t == TallyOf(Model(), s)
    {
      t := if s in tallies then tallies[s] else NoTally;
    }

    /** Record the lead of shred source `who` over the RPC. */
    method RecordLeadOf(who: Source, leadUs: int)
      modifies this`tallies, this`races
      ensures tallies == old(SetLeads(Model(), who, RecordLead(TallyOf(Model(), who).leads, leadUs))).tallies
      ensures races == old(races) + [(who, leadUs)]
    {
      var t := Tally(who);
      tallies := tallies[who := t.(leads := RecordLead(t.leads, leadUs))];
      races := races + [(who, leadUs)];
    }

    method WithdrawFrom(who: Source, oldLeadUs: int)
      modifies this`tallies
      ensures Model() == old(SetLeads(Model(), who, Withdraw(TallyOf(Model(), who).leads, oldLeadUs)))
    {
      var t := Tally(who);
      var l := t.leads;
      l := l.(sumUs := l.sumUs - oldLeadUs);
      if oldLeadUs > 0 {
        l := l.(wins := l.wins - 1);
      }
      tallies := tallies[who := t.(leads := l)];
    }

    method GiveTo(who: Source, newLeadUs: int)
      modifies this`tallies
      ensures Model() == old(SetLeads(Model(), who, TakeOver(TallyOf(Model(), who).leads, newLeadUs)))
    {
      var t := Tally(who);
      var l := t.leads;
      l := l.(sumUs := l.sumUs + newLeadUs);
      if newLeadUs > 0 {
        l := l.(wins := l.wins + 1);
      }
      l := l.(samples := l.samples + [newLeadUs]);
      tallies := tallies[who := t.(leads := l)];
    }

    /** A faster shred than the stored one: correct the measurement made with the stored one. */
    method Correct(sig: Sig, e: Entry, d: Delivery)
      modifies this`tallies, this`races, this`dedup
      ensures Model() == Improve(old(Model()), sig, e, d)
    {
      hide LeadUs, Withdraw, TakeOver;
      if e.cross.Some? {
        var ct := e.cross.value;
        var newLeadUs := LeadUs(ct.rpcNs, d.ns);
        WithdrawFrom(e.src, ct.oldLeadUs);
        GiveTo(d.src, newLeadUs);
        races := races + [(ct.shredSource, newLeadUs)];
      }
      dedup := dedup[sig := e.(recvNs := d.ns, src := d.src)];
    }

    /** One visit of a relay thread to the entry of a delivery's signature. */
    method Relay(d: Delivery)
      modifies this
      ensures Model() == FanInModel.Relay(cfg, old(Model()), d)
    {
      if cfg.filter != {} && !cfg.isRpc(d.src) {
        if !exists k :: k in d.keys && k in cfg.filter {
          return;
        }
      }
      if d.sig.None? {
        return;
      }
      var sig := d.sig.value;
      var t := Tally(d.src);
      if sig !in dedup {
        tallies := tallies[d.src := t.(first := t.first + 1)];
        dedup := dedup[sig := FirstArrival(d.ns, cfg.isRpc(d.src), d.src, None)];
        offered := offered + [d];
        return;
      }
      tallies := tallies[d.src := t.(duplicate := t.duplicate + 1)];
      var e := dedup[sig];
      if cfg.isRpc(d.src) == e.isRpc {
        if !cfg.isRpc(d.src) && d.ns < e.recvNs {
          Correct(sig, e, d);
        }
        return;
      }
      var shredNs, rpcNs, who := e.recvNs, d.ns, e.src;
      if e.isRpc {
        shredNs, rpcNs, who := d.ns, e.recvNs, d.src;
      }
      var leadUs := LeadUs(rpcNs, shredNs);
      RecordLeadOf(who, leadUs);
      if !e.isRpc {
        dedup := dedup[sig := e.(cross := Some(CrossTier(rpcNs, leadUs, who)))];
      }
    }

    /** The part of an eviction pass that visits `sigs`. */
    method EvictOld(cutoff: Ns, sigs: set<Sig>)
      modifies this`dedup
      ensures Model() == Step(cfg, old(Model()), Evict(cutoff, sigs))
    {
      var todo := sigs;
      while todo != {}
        invariant todo <= sigs && dedup.Keys <= old(dedup).Keys
        invariant forall s | s in old(dedup) :: s in dedup <==> s !in sigs || s in todo || old(dedup)[s].recvNs > cutoff
        invariant forall s | s in dedup :: dedup[s] == old(dedup)[s]
        decreases todo
      {
        var s :| s in todo;
        todo := todo - {s};
        if s in dedup && dedup[s].recvNs <= cutoff {
          dedup := dedup - {s};
        }
      }
    }
  }
}
