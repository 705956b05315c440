/** Everything the fan-in counts, over every run and whichever tier began an entry, in terms of the
    deliveries' own sources and timestamps. */
module FanInCalls {
  import opened Wrappers
  import opened Clock
  import opened Metrics
  import opened FanInModel
  import opened FanInLives

  /** The shred that was the fastest when the last RPC delivery came. */
  function Stood(cfg: Config, l: seq<Delivery>): (r: Option<Delivery>) {
    if l == [] then None else
    var front, d := l[..|l| - 1], l[|l| - 1];
    if cfg.isRpc(d.src) then Fastest(cfg, front) else Stood(cfg, front)
  }

  /** What a delivery has counted: a lead measured for a source, or a lead taken from one source and
      given, corrected, to another. `named` is the source the race against the RPC is recorded under. */
  datatype Call =
    | Measured(who: Source, us: int)
    | Corrected(loser: Source, oldUs: int, gainer: Source, newUs: int, named: Source)

  /** What delivery `d` has counted when it comes after the deliveries `l` of the same entry. An entry begun
      by the RPC measures every shred against that first delivery; an entry begun by a shred measures its
      fastest shred against every RPC delivery, and corrects the last measurement for a faster shred. */
  function CallsOf(cfg: Config, l: seq<Delivery>, d: Delivery): (r: seq<Call>) {
    if l == [] then [] else
    if cfg.isRpc(l[0].src) then
      if cfg.isRpc(d.src) then [] else [Measured(d.src, LeadUs(l[0].ns, d.ns))]
    else
      var fast, rpc, stood := Fastest(cfg, l), LastRpc(cfg, l), Stood(cfg, l);
      if fast.None? then [] else
      if cfg.isRpc(d.src) then [Measured(fast.value.src, LeadUs(d.ns, fast.value.ns))]
      else if rpc.None? || stood.None? || d.ns >= fast.value.ns then []
      else [Corrected(fast.value.src, LeadUs(rpc.value.ns, stood.value.ns), d.src, LeadUs(rpc.value.ns, d.ns), stood.value.src)]
  }

  function Calls(cfg: Config, evs: seq<Event>): (r: seq<Call>) {
    if evs == [] then [] else
    var front, ev := evs[..|evs| - 1], evs[|evs| - 1];
    Calls(cfg, front) +
      if ev.Arrive? && Accepted(cfg, ev.d) then CallsOf(cfg, Life(cfg, front, ev.d.sig.value), ev.d) else []
  }

  // ---- What the calls come to --------------------------------------------------------------

  predicate Counts(us: int) {
    -500_000 <= us <= 2_000_000
  }

  function SumBy(calls: seq<Call>, x: Source): (r: int) {
    if calls == [] then 0 else
    SumBy(calls[..|calls| - 1], x) +
      match calls[|calls| - 1]
      case Measured(who, us) => if who == x && Counts(us) then us else 0
      case Corrected(loser, oldUs, gainer, newUs, _) => (if gainer == x then newUs else 0) - (if loser == x then oldUs else 0)
  }

  function WinsBy(calls: seq<Call>, x: Source): (r: int) {
    if calls == [] then 0 else
    WinsBy(calls[..|calls| - 1], x) +
      match calls[|calls| - 1]
      case Measured(who, us) => if who == x && 0 < us <= 2_000_000 then 1 else 0
      case Corrected(loser, oldUs, gainer, newUs, _) =>
        (if gainer == x && newUs > 0 then 1 else 0) - (if loser == x && oldUs > 0 then 1 else 0)
  }

  function CountBy(calls: seq<Call>, x: Source): (r: nat) {
    if calls == [] then 0 else
    var c := calls[|calls| - 1];
    CountBy(calls[..|calls| - 1], x) + if c.Measured? && c.who == x && Counts(c.us) then 1 else 0
  }

  function BackfillBy(calls: seq<Call>, x: Source): (r: nat) {
    if calls == [] then 0 else
    var c := calls[|calls| - 1];
    BackfillBy(calls[..|calls| - 1], x) + if c.Measured? && c.who == x && c.us > 2_000_000 then 1 else 0
  }

  function SamplesBy(calls: seq<Call>, x: Source): (r: seq<int>) {
    if calls == [] then [] else
    SamplesBy(calls[..|calls| - 1], x) +
      match calls[|calls| - 1]
      case Measured(who, us) => if who == x && Counts(us) then [us] else []
      case Corrected(_, _, gainer, newUs, _) => if gainer == x then [newUs] else []
  }

  function RacesBy(calls: seq<Call>): (r: seq<(Source, int)>) {
    if calls == [] then [] else
    RacesBy(calls[..|calls| - 1]) +
      match calls[|calls| - 1]
      case Measured(who, us) => [(who, us)]
      case Corrected(_, _, _, newUs, named) => [(named, newUs)]
  }

  /** Every lead counter of source `x` is what the calls make it. */
  ghost predicate LeadsTell(l: Leads, calls: seq<Call>, x: Source) {
    && l.sumUs == SumBy(calls, x) && l.wins == WinsBy(calls, x)
    && l.count == CountBy(calls, x) && l.backfill == BackfillBy(calls, x) && l.samples == SamplesBy(calls, x)
  }

  lemma LastCall(calls: seq<Call>, c: Call)
    ensures (calls + [c])[..|calls + [c]| - 1] == calls && (calls + [c])[|calls + [c]| - 1] == c
  {
  }

  // ---- What an entry knows -------------------------------------------------------------------

  /** The record of the last measurement in an entry begun by a shred. */
  ghost predicate Knows(cfg: Config, e: Entry, l: seq<Delivery>) {
    && Remembers(cfg, e, l)
    && (e.cross.Some? ==>
          && Stood(cfg, l).Some? && LastRpc(cfg, l).Some?
          && e.cross.value.oldLeadUs == LeadUs(LastRpc(cfg, l).value.ns, Stood(cfg, l).value.ns)
          && e.cross.value.shredSource == Stood(cfg, l).value.src)
  }

  lemma RelayKnows(cfg: Config, st: State, d: Delivery, sig: Sig, l: seq<Delivery>)
    requires IsFor(cfg, Arrive(d), sig)
    requires if sig in st.dedup then Knows(cfg, st.dedup[sig], l) else l == []
    ensures sig in Relay(cfg, st, d).dedup && Knows(cfg, Relay(cfg, st, d).dedup[sig], l + [d])
  {
    hide LeadUs;
    RelayRemembers(cfg, st, d, sig, l);
    assert (l + [d])[..|l + [d]| - 1] == l;
  }

  lemma {:induction false} EntriesKnow(cfg: Config, evs: seq<Event>, sig: Sig)
    ensures sig in Run(cfg, evs).dedup ==> Knows(cfg, Run(cfg, evs).dedup[sig], Life(cfg, evs, sig))
    ensures sig !in Run(cfg, evs).dedup <==> Life(cfg, evs, sig) == []
  {
    if evs != [] {
      hide Knows, Relay;
      var front, ev := evs[..|evs| - 1], evs[|evs| - 1];
      EntriesKnow(cfg, front, sig);
      if IsFor(cfg, ev, sig) {
        RelayKnows(cfg, Run(cfg, front), ev.d, sig, Life(cfg, front, sig));
      } else if ev.Arrive? {
        RelayOthers(cfg, Run(cfg, front), ev.d, sig);
      }
      EntriesRemember(cfg, evs, sig);
    }
  }

  // ---- One delivery -----------------------------------------------------------------------------

  /** The lead counters of source `x` grow by what the calls come to. */
  ghost predicate Adds(was: Leads, now: Leads, cs: seq<Call>, x: Source) {
    && now.sumUs == was.sumUs + SumBy(cs, x) && now.wins == was.wins + WinsBy(cs, x)
    && now.count == was.count + CountBy(cs, x) && now.backfill == was.backfill + BackfillBy(cs, x)
    && now.samples == was.samples + SamplesBy(cs, x)
  }

  lemma Alone(c: Call)
    ensures [c][..0] == [] && [c][0] == c && RacesBy([c]) == [if c.Measured? then (c.who, c.us) else (c.named, c.newUs)]
  {
  }

  lemma NoneAdds(was: Leads, x: Source)
    ensures Adds(was, was, [], x) && RacesBy([]) == []
  {
  }

  lemma MeasuredAdds(was: Leads, who: Source, us: int, x: Source)
    ensures Adds(was, if who == x then RecordLead(was, us) else was, [Measured(who, us)], x)
  {
    Alone(Measured(who, us));
  }

  lemma CorrectedAdds(was: Leads, c: Call, x: Source)
    requires c.Corrected?
    ensures var out := if c.loser == x then Withdraw(was, c.oldUs) else was;
            Adds(was, if c.gainer == x then TakeOver(out, c.newUs) else out, [c], x)
  {
    Alone(c);
  }

  lemma MeasureCalls(st: State, sig: Sig, e: Entry, d: Delivery, x: Source)
    ensures var c := if e.isRpc then Measured(d.src, LeadUs(e.recvNs, d.ns)) else Measured(e.src, LeadUs(d.ns, e.recvNs));
            var r := Measure(st, sig, e, d);
            Adds(TallyOf(st, x).leads, TallyOf(r, x).leads, [c], x) && r.races == st.races + RacesBy([c])
    ensures var r := Measure(st, sig, e, d);
            TallyOf(r, x).first == TallyOf(st, x).first && TallyOf(r, x).duplicate == TallyOf(st, x).duplicate
  {
    hide LeadUs, RecordLead, Adds;
    var c := if e.isRpc then Measured(d.src, LeadUs(e.recvNs, d.ns)) else Measured(e.src, LeadUs(d.ns, e.recvNs));
    MeasuredAdds(TallyOf(st, x).leads, c.who, c.us, x);
    Alone(c);
  }

  lemma ImproveCalls(st: State, sig: Sig, e: Entry, d: Delivery, x: Source)
    ensures var r := Improve(st, sig, e, d);
            var cs := if e.cross.None? then [] else
                        var ct := e.cross.value;
                        [Corrected(e.src, ct.oldLeadUs, d.src, LeadUs(ct.rpcNs, d.ns), ct.shredSource)];
            Adds(TallyOf(st, x).leads, TallyOf(r, x).leads, cs, x) && r.races == st.races + RacesBy(cs)
    ensures var r := Improve(st, sig, e, d);
            TallyOf(r, x).first == TallyOf(st, x).first && TallyOf(r, x).duplicate == TallyOf(st, x).duplicate
  {
    hide LeadUs, Withdraw, TakeOver, Adds;
    if e.cross.None? {
      NoneAdds(TallyOf(st, x).leads, x);
    } else {
      var ct := e.cross.value;
      var c := Corrected(e.src, ct.oldLeadUs, d.src, LeadUs(ct.rpcNs, d.ns), ct.shredSource);
      CorrectedAdds(TallyOf(st, x).leads, c, x);
      Alone(c);
    }
  }

  /** The call of an entry that knows its deliveries. */
  lemma EntryCalls(cfg: Config, e: Entry, l: seq<Delivery>, d: Delivery)
    requires Knows(cfg, e, l)
    ensures l != []
    ensures CallsOf(cfg, l, d) ==
              if cfg.isRpc(d.src) != e.isRpc then
                [if e.isRpc then Measured(d.src, LeadUs(e.recvNs, d.ns)) else Measured(e.src, LeadUs(d.ns, e.recvNs))]
              else if !e.isRpc && d.ns < e.recvNs && e.cross.Some? then
                var ct := e.cross.value;
                [Corrected(e.src, ct.oldLeadUs, d.src, LeadUs(ct.rpcNs, d.ns), ct.shredSource)]
              else []
  {
    hide LeadUs, Fastest, LastRpc, Stood;
  }

  /** An accepted delivery counts as a first or a duplicate of its own source, is offered if it is a first,
      and counts and races exactly the calls that its entry's deliveries call for. */
  lemma RelayCalls(cfg: Config, st: State, d: Delivery, l: seq<Delivery>, x: Source)
    requires Accepted(cfg, d) && var sig := d.sig.value; if sig in st.dedup then Knows(cfg, st.dedup[sig], l) else l == []
    ensures var r, cs := Relay(cfg, st, d), CallsOf(cfg, l, d);
            && r.races == st.races + RacesBy(cs)
            && TallyOf(r, x).first == TallyOf(st, x).first + (if l == [] && d.src == x then 1 else 0)
            && TallyOf(r, x).duplicate == TallyOf(st, x).duplicate + (if l != [] && d.src == x then 1 else 0)
            && Adds(TallyOf(st, x).leads, TallyOf(r, x).leads, cs, x)
  {
    hide LeadUs, Adds, CallsOf, Measure, Improve, Remembers, RacesBy;
    NoneAdds(TallyOf(st, x).leads, x);
    var sig, t := d.sig.value, TallyOf(st, d.src);
    if sig in st.dedup {
      var e, st1 := st.dedup[sig], SetTally(st, d.src, t.(duplicate := t.duplicate + 1));
      EntryCalls(cfg, e, l, d);
      MeasureCalls(st1, sig, e, d, x);
      ImproveCalls(st1, sig, e, d, x);
    } else {
      NoCalls(cfg, d);
    }
  }

  lemma NoCalls(cfg: Config, d: Delivery)
    ensures CallsOf(cfg, [], d) == []
  {
  }
  // ---- The whole run ------------------------------------------------------------------------------

  /** The accepted deliveries of source `x` that began an entry, and those that did not. */
  function FirstsBy(cfg: Config, evs: seq<Event>, x: Source): (n: nat) {
    if evs == [] then 0 else
    var front, ev := evs[..|evs| - 1], evs[|evs| - 1];
    FirstsBy(cfg, front, x) +
      if ev.Arrive? && Accepted(cfg, ev.d) && ev.d.src == x && Life(cfg, front, ev.d.sig.value) == [] then 1 else 0
  }

  function DuplicatesBy(cfg: Config, evs: seq<Event>, x: Source): (n: nat) {
    if evs == [] then 0 else
    var front, ev := evs[..|evs| - 1], evs[|evs| - 1];
    DuplicatesBy(cfg, front, x) +
      if ev.Arrive? && Accepted(cfg, ev.d) && ev.d.src == x && Life(cfg, front, ev.d.sig.value) != [] then 1 else 0
  }

  /** The deliveries that began an entry, in order. */
  function Beginners(cfg: Config, evs: seq<Event>): (r: seq<Delivery>) {
    if evs == [] then [] else
    var front, ev := evs[..|evs| - 1], evs[|evs| - 1];
    Beginners(cfg, front) +
      if ev.Arrive? && Accepted(cfg, ev.d) && Life(cfg, front, ev.d.sig.value) == [] then [ev.d] else []
  }

  lemma OneMoreCall(calls: seq<Call>, cs: seq<Call>, was: Leads, now: Leads, x: Source)
    requires LeadsTell(was, calls, x) && Adds(was, now, cs, x) && |cs| <= 1
    ensures LeadsTell(now, calls + cs, x)
  {
    if cs == [] {
      assert calls + cs == calls;
    } else {
      var c := cs[0];
      assert cs == [c] && calls + cs == calls + [c] && cs[..|cs| - 1] == [];
      NothingTold(x);
      LastCall(calls, c);
    }
  }

  lemma OneMoreRace(calls: seq<Call>, cs: seq<Call>)
    requires |cs| <= 1
    ensures RacesBy(calls + cs) == RacesBy(calls) + RacesBy(cs)
  {
    if cs == [] {
      assert calls + cs == calls;
    } else {
      var c := cs[0];
      assert cs == [c] && calls + cs == calls + [c];
      Alone(c);
      LastCall(calls, c);
    }
  }

  lemma AtMostOneCall(cfg: Config, l: seq<Delivery>, d: Delivery)
    ensures |CallsOf(cfg, l, d)| <= 1
  {
  }

  lemma EvictKeeps(cfg: Config, st: State, ev: Event)
    requires ev.Evict? || !Accepted(cfg, ev.d)
    ensures var r := Step(cfg, st, ev); r.tallies == st.tallies && r.races == st.races && r.offered == st.offered
  {
  }

  lemma RelayOffersFirsts(cfg: Config, st: State, d: Delivery)
    requires Accepted(cfg, d)
    ensures Relay(cfg, st, d).offered == st.offered + if d.sig.value in st.dedup then [] else [d]
  {
  }

  /** Over every run, whichever tier began an entry and however often either delivered: every lead counter of
      every source is what the calls of all deliveries come to. */
  lemma {:induction false} RunLeads(cfg: Config, evs: seq<Event>, x: Source)
    ensures LeadsTell(TallyOf(Run(cfg, evs), x).leads, Calls(cfg, evs), x)
  {
    hide LeadsTell, Adds, CallsOf, Relay, Knows, Life;
    if evs == [] {
      assert LeadsTell(NoLeads, [], x) by {
        NothingTold(x);
      }
    } else {
      var front, ev := evs[..|evs| - 1], evs[|evs| - 1];
      RunLeads(cfg, front, x);
      if ev.Evict? || !Accepted(cfg, ev.d) {
        EvictKeeps(cfg, Run(cfg, front), ev);
        assert Calls(cfg, front) + [] == Calls(cfg, front);
      } else {
        var l := Life(cfg, front, ev.d.sig.value);
        EntriesKnow(cfg, front, ev.d.sig.value);
        RelayCalls(cfg, Run(cfg, front), ev.d, l, x);
        AtMostOneCall(cfg, l, ev.d);
        OneMoreCall(Calls(cfg, front), CallsOf(cfg, l, ev.d), TallyOf(Run(cfg, front), x).leads, TallyOf(Run(cfg, evs), x).leads, x);
      }
    }
  }

  lemma NothingTold(x: Source)
    ensures LeadsTell(NoLeads, [], x)
  {
  }

  /** The races recorded against the RPC are those calls too, each under the source of the shred that was
      measured, with the lead measured or corrected. */
  lemma {:induction false} RunRaces(cfg: Config, evs: seq<Event>)
    ensures Run(cfg, evs).races == RacesBy(Calls(cfg, evs))
  {
    hide CallsOf, Relay, Knows, Life, Adds;
    if evs != [] {
      var front, ev := evs[..|evs| - 1], evs[|evs| - 1];
      RunRaces(cfg, front);
      if ev.Evict? || !Accepted(cfg, ev.d) {
        EvictKeeps(cfg, Run(cfg, front), ev);
        assert Calls(cfg, front) + [] == Calls(cfg, front);
      } else {
        var l := Life(cfg, front, ev.d.sig.value);
        EntriesKnow(cfg, front, ev.d.sig.value);
        RelayCalls(cfg, Run(cfg, front), ev.d, l, 0);
        AtMostOneCall(cfg, l, ev.d);
        OneMoreRace(Calls(cfg, front), CallsOf(cfg, l, ev.d));
      }
    }
  }

  /** Every source's firsts are its deliveries that began an entry, its duplicates all its other accepted
      deliveries; and exactly the deliveries that began an entry are offered downstream, in order. */
  lemma {:induction false} RunFirsts(cfg: Config, evs: seq<Event>, x: Source)
    ensures TallyOf(Run(cfg, evs), x).first == FirstsBy(cfg, evs, x)
    ensures TallyOf(Run(cfg, evs), x).duplicate == DuplicatesBy(cfg, evs, x)
    ensures Run(cfg, evs).offered == Beginners(cfg, evs)
  {
    hide CallsOf, Relay, Knows, Life, Adds;
    if evs != [] {
      var front, ev := evs[..|evs| - 1], evs[|evs| - 1];
      RunFirsts(cfg, front, x);
      if ev.Evict? || !Accepted(cfg, ev.d) {
        EvictKeeps(cfg, Run(cfg, front), ev);
      } else {
        EntriesKnow(cfg, front, ev.d.sig.value);
        RelayCalls(cfg, Run(cfg, front), ev.d, Life(cfg, front, ev.d.sig.value), x);
        RelayOffersFirsts(cfg, Run(cfg, front), ev.d);
      }
    }
  }

  // ---- Entries begun by the RPC ---------------------------------------------------------------------

  /** When the RPC delivered first, each shred is measured for its own source against that first delivery: the
      source's sum falls by how much later the shred came, in whole microseconds, and no other source's sum
      or wins change. A shred dated at least a microsecond before the RPC is a win. */
  lemma RpcFirstMeasures(cfg: Config, evs: seq<Event>, d: Delivery, x: Source)
    requires Accepted(cfg, d) && !cfg.isRpc(d.src)
    requires var l := Life(cfg, evs, d.sig.value); l != [] && cfg.isRpc(l[0].src)
    ensures var was, now := TallyOf(Run(cfg, evs), x).leads, TallyOf(Run(cfg, evs + [Arrive(d)]), x).leads;
            var first := Life(cfg, evs, d.sig.value)[0];
            && (x != d.src ==> now == was)
            && (x == d.src && d.ns >= first.ns ==>
                  var late := (d.ns - first.ns) / 1000;
                  now.wins == was.wins && now.sumUs == was.sumUs - if late <= 500_000 then late else 0)
            && (x == d.src && d.ns < first.ns ==>
                  var early := (first.ns - d.ns) / 1000;
                  && now.wins == was.wins + (if 0 < early <= 2_000_000 then 1 else 0)
                  && now.sumUs == was.sumUs + if early <= 2_000_000 then early else 0)
  {
    var all := evs + [Arrive(d)];
    assert all[..|all| - 1] == evs && all[|all| - 1] == Arrive(d);
    EntriesKnow(cfg, evs, d.sig.value);
  }

  // ---- What is let through, and what is evicted ---------------------------------------------------------

  /** A delivery leaves no trace exactly when it carries no signature, or is a shred-tier delivery none of
      whose keys the filter holds. */
  lemma IgnoredExactly(cfg: Config, st: State, d: Delivery)
    ensures Relay(cfg, st, d) == st <==>
              d.sig.None? || (!cfg.isRpc(d.src) && cfg.filter != {} && cfg.filter !! (set k | k in d.keys))
  {
    var keys := set k | k in d.keys;
    assert cfg.filter !! keys <==> !exists k :: k in d.keys && k in cfg.filter by {
      if k :| k in d.keys && k in cfg.filter {
        assert k in cfg.filter * keys;
      }
    }
    if Accepted(cfg, d) {
      AcceptedLeavesTrace(cfg, st, d);
    }
  }

  lemma AcceptedLeavesTrace(cfg: Config, st: State, d: Delivery)
    requires Accepted(cfg, d)
    ensures Relay(cfg, st, d) != st
  {
    hide LeadUs, RecordLead, Withdraw, TakeOver;
    assert TallyOf(Relay(cfg, st, d), d.src).first + TallyOf(Relay(cfg, st, d), d.src).duplicate
        == TallyOf(st, d.src).first + TallyOf(st, d.src).duplicate + 1;
  }

  /** An eviction takes an entry out exactly when it visits it and the time it remembers is not after the
      cutoff: its first delivery's if the RPC began it, its earliest shred's if a shred did. Every other entry
      stays as it is. */
  lemma EvictedExactly(cfg: Config, evs: seq<Event>, cutoff: Ns, sigs: set<Sig>, sig: Sig)
    requires sig in Run(cfg, evs).dedup
    ensures var l, before, after := Life(cfg, evs, sig), Run(cfg, evs).dedup, Step(cfg, Run(cfg, evs), Evict(cutoff, sigs)).dedup;
            && l != [] && (!cfg.isRpc(l[0].src) ==> Fastest(cfg, l).Some?)
            && var since := if cfg.isRpc(l[0].src) then l[0].ns else Fastest(cfg, l).value.ns;
            && (sig in after <==> sig !in sigs || since > cutoff) && (sig in after ==> after[sig] == before[sig])
  {
    EntriesRemember(cfg, evs, sig);
  }
}
