/** The lead of the fastest shred over the RPC. The program measures when the RPC's delivery comes,
    and moves the measurement when a faster shred comes later. Over a run, with evictions, in which
    every entry is created by a shred feed and sees the RPC at most once, the counters of every source
    are sums over the lifetimes of entries. */
module FanInLeads {
  import opened Wrappers
  import opened Metrics
  import opened Clock
  import opened FanInModel
  import opened FanInLives
  import opened Sums

  /** The deliveries of one lifetime: shred first, at most one RPC delivery. */
  ghost predicate Orderly(cfg: Config, l: seq<Delivery>) {
    && (l != [] ==> !cfg.isRpc(l[0].src))
    && forall k | 0 <= k < |l| && cfg.isRpc(l[k].src) :: LastRpc(cfg, l[..k]).None?
  }

  predicate Matched(cfg: Config, l: seq<Delivery>) {
    Fastest(cfg, l).Some? && LastRpc(cfg, l).Some?
  }

  /** The lead of the lifetime's fastest shred. */
  function TrueLead(cfg: Config, l: seq<Delivery>): (r: int)
    requires Matched(cfg, l)
  {
    LeadUs(LastRpc(cfg, l).value.ns, Fastest(cfg, l).value.ns)
  }

  /** A lead counts only within the recorded range. */
  function Due(us: int): (r: int) {
    if LeadInRange(us) then us else 0
  }

  function One(b: bool): (r: int) { if b then 1 else 0 }
  function Win(us: int): (r: int) { One(us > 0) }
  function DueWin(us: int): (r: int) { Win(Due(us)) }

  /** What source `x` should be credited with: the true lead if its shred is the fastest. */
  function Credit(cfg: Config, l: seq<Delivery>, x: Source): (r: int) {
    if Matched(cfg, l) && Fastest(cfg, l).value.src == x then Due(TrueLead(cfg, l)) else 0
  }

  function WinCredit(cfg: Config, l: seq<Delivery>, x: Source): (r: int) {
    if Matched(cfg, l) && Fastest(cfg, l).value.src == x then DueWin(TrueLead(cfg, l)) else 0
  }

  /** The lead first measured, which the stored record keeps from then on. */
  function MeasuredLead(cfg: Config, l: seq<Delivery>): (r: int) {
    if l == [] then 0 else
    var front, d := l[..|l| - 1], l[|l| - 1];
    if cfg.isRpc(d.src) && Fastest(cfg, front).Some? then LeadUs(d.ns, Fastest(cfg, front).value.ns)
    else MeasuredLead(cfg, front)
  }

  /** Delivery `d` after `l` is a faster shred than the one measured. */
  predicate Corrects(cfg: Config, l: seq<Delivery>, d: Delivery) {
    !cfg.isRpc(d.src) && Matched(cfg, l) && d.ns < Fastest(cfg, l).value.ns
  }

  /** The lead that delivery `d` measures after `l`, or takes over. */
  function NewLead(cfg: Config, l: seq<Delivery>, d: Delivery): (r: int)
    requires Fastest(cfg, l).Some? && (cfg.isRpc(d.src) || Corrects(cfg, l, d))
  {
    if cfg.isRpc(d.src) then LeadUs(d.ns, Fastest(cfg, l).value.ns) else LeadUs(LastRpc(cfg, l).value.ns, d.ns)
  }

  /** What one more delivery adds to a quantity of source `x`: what `measured` makes of a measured
      lead; in a correction, what `moved` makes of the new lead for the new source, less what it makes
      of the lead first measured for the old one. */
  function Change(cfg: Config, l: seq<Delivery>, d: Delivery, x: Source, measured: int -> int, moved: int -> int): (r: int) {
    if cfg.isRpc(d.src) then
      if Fastest(cfg, l).Some? && Fastest(cfg, l).value.src == x then measured(NewLead(cfg, l, d)) else 0
    else if Corrects(cfg, l, d) then
      (if d.src == x then moved(NewLead(cfg, l, d)) else 0)
      - (if Fastest(cfg, l).value.src == x then moved(MeasuredLead(cfg, l)) else 0)
    else 0
  }

  /** The part of source `x`'s lead sum that the lifetime accounts for. */
  function Held(cfg: Config, l: seq<Delivery>, x: Source): (r: int) {
    if l == [] then 0 else
    var front, d := l[..|l| - 1], l[|l| - 1];
    Held(cfg, front, x) + Change(cfg, front, d, x, Due, us => us)
  }

  /** And of its wins. */
  function WinsHeld(cfg: Config, l: seq<Delivery>, x: Source): (r: int) {
    if l == [] then 0 else
    var front, d := l[..|l| - 1], l[|l| - 1];
    WinsHeld(cfg, front, x) + Change(cfg, front, d, x, DueWin, Win)
  }

  lemma Snoc(l: seq<Delivery>, d: Delivery)
    ensures (l + [d])[..|l + [d]| - 1] == l && (l + [d])[|l + [d]| - 1] == d
    ensures forall k | 0 <= k <= |l| :: (l + [d])[..k] == l[..k]
  {
  }

  lemma OrderlyPrefix(cfg: Config, l: seq<Delivery>, d: Delivery)
    requires Orderly(cfg, l + [d])
    ensures Orderly(cfg, l) && (l != [] <==> Fastest(cfg, l).Some?) && (l == [] ==> LastRpc(cfg, l).None?)
    ensures cfg.isRpc(d.src) ==> l != [] && LastRpc(cfg, l).None?
  {
    Snoc(l, d);
    assert l[..|l|] == l;
    assert forall k | 0 <= k < |l| :: (l + [d])[k] == l[k];
    assert (l + [d])[|l|] == d;
    FastestIsEarliest(cfg, l);
    assert l == [] ==> (l + [d])[0] == d;
  }

  /** The stored record of an orderly entry. */
  ghost predicate RecordsLead(cfg: Config, e: Entry, l: seq<Delivery>) {
    !e.isRpc && (e.cross.Some? ==> e.cross.value.oldLeadUs == MeasuredLead(cfg, l))
  }

  lemma RelayRecordsLead(cfg: Config, st: State, d: Delivery, sig: Sig, l: seq<Delivery>)
    requires IsFor(cfg, Arrive(d), sig) && Orderly(cfg, l + [d])
    requires if sig in st.dedup then Remembers(cfg, st.dedup[sig], l) && RecordsLead(cfg, st.dedup[sig], l) else l == []
    ensures RecordsLead(cfg, Relay(cfg, st, d).dedup[sig], l + [d])
  {
    Snoc(l, d);
    OrderlyPrefix(cfg, l, d);
    assert l == [] ==> !cfg.isRpc((l + [d])[0].src);
  }

  // ---- One delivery ----------------------------------------------------------------------

  function SumOf(st: State, x: Source): (r: int) { TallyOf(st, x).leads.sumUs }
  function WinsOf(st: State, x: Source): (r: int) { TallyOf(st, x).leads.wins }

  /** How one more delivery changes the summaries of a list. */
  lemma Summaries(cfg: Config, l: seq<Delivery>, d: Delivery)
    ensures Fastest(cfg, l + [d]) ==
              if cfg.isRpc(d.src) then Fastest(cfg, l)
              else if Fastest(cfg, l).None? || d.ns < Fastest(cfg, l).value.ns then Some(d) else Fastest(cfg, l)
    ensures LastRpc(cfg, l + [d]) == if cfg.isRpc(d.src) then Some(d) else LastRpc(cfg, l)
    ensures MeasuredLead(cfg, l + [d]) ==
              if cfg.isRpc(d.src) && Fastest(cfg, l).Some? then LeadUs(d.ns, Fastest(cfg, l).value.ns)
              else MeasuredLead(cfg, l)
  {
    Snoc(l, d);
  }

  /** The entry of `sig` is as its deliveries `l` make it. */
  ghost predicate Tracks(cfg: Config, st: State, sig: Sig, l: seq<Delivery>) {
    if sig in st.dedup then Remembers(cfg, st.dedup[sig], l) && RecordsLead(cfg, st.dedup[sig], l) else l == []
  }

  /** What a delivery does to the lead counters of source `x`. */
  lemma RelayLeads(cfg: Config, st: State, d: Delivery, sig: Sig, l: seq<Delivery>, x: Source)
    requires IsFor(cfg, Arrive(d), sig) && Orderly(cfg, l + [d]) && Tracks(cfg, st, sig, l)
    ensures var was, now := TallyOf(st, x).leads, TallyOf(Relay(cfg, st, d), x).leads;
            if cfg.isRpc(d.src) then
              && Matched(cfg, l + [d]) && !Matched(cfg, l)
              && now == if Fastest(cfg, l).value.src == x then RecordLead(was, TrueLead(cfg, l + [d])) else was
            else if Corrects(cfg, l, d) then
              var out := if Fastest(cfg, l).value.src == x then Withdraw(was, MeasuredLead(cfg, l)) else was;
              now == if d.src == x then TakeOver(out, TrueLead(cfg, l + [d])) else out
            else now == was
  {
    Summaries(cfg, l, d);
    OrderlyPrefix(cfg, l, d);
  }

  lemma RelaySum(cfg: Config, st: State, d: Delivery, sig: Sig, l: seq<Delivery>, x: Source)
    requires IsFor(cfg, Arrive(d), sig) && Orderly(cfg, l + [d]) && Tracks(cfg, st, sig, l)
    ensures SumOf(Relay(cfg, st, d), x) - SumOf(st, x) == Held(cfg, l + [d], x) - Held(cfg, l, x)
  {
    hide Relay, Fastest, LastRpc, MeasuredLead, Remembers, RecordsLead;
    RelayLeads(cfg, st, d, sig, l, x);
    Summaries(cfg, l, d);
    Snoc(l, d);
    OrderlyPrefix(cfg, l, d);
  }

  lemma RelayWins(cfg: Config, st: State, d: Delivery, sig: Sig, l: seq<Delivery>, x: Source)
    requires IsFor(cfg, Arrive(d), sig) && Orderly(cfg, l + [d]) && Tracks(cfg, st, sig, l)
    ensures WinsOf(Relay(cfg, st, d), x) - WinsOf(st, x) == WinsHeld(cfg, l + [d], x) - WinsHeld(cfg, l, x)
  {
    hide Relay, Fastest, LastRpc, MeasuredLead, Remembers, RecordsLead;
    RelayLeads(cfg, st, d, sig, l, x);
    Summaries(cfg, l, d);
    Snoc(l, d);
    OrderlyPrefix(cfg, l, d);
  }

  // ---- The whole run ---------------------------------------------------------------------

  /** A run whose entries' lifetimes are all orderly. */
  ghost predicate OrderlyRun(cfg: Config, evs: seq<Event>) {
    forall id: LifeId :: Orderly(cfg, Lifetime(cfg, evs, id))
  }

  lemma RunStep(cfg: Config, evs: seq<Event>, ev: Event)
    ensures Run(cfg, evs + [ev]) == Step(cfg, Run(cfg, evs), ev)
  {
    var all := evs + [ev];
    assert all[..|all| - 1] == evs && all[|all| - 1] == ev;
  }

  /** The lifetime that an event belongs to, if any. */
  predicate Extends(cfg: Config, evs: seq<Event>, ev: Event, id: LifeId) {
    IsFor(cfg, ev, id.0) && Creations(cfg, evs + [ev], id.0) == id.1
  }

  lemma LifeStep(cfg: Config, evs: seq<Event>, ev: Event, id: LifeId)
    ensures Lifetime(cfg, evs + [ev], id) ==
              if Extends(cfg, evs, ev, id) then Lifetime(cfg, evs, id) + [ev.d] else Lifetime(cfg, evs, id)
  {
    var all := evs + [ev];
    assert all[..|all| - 1] == evs && all[|all| - 1] == ev;
  }

  lemma LivesStep(cfg: Config, evs: seq<Event>, ev: Event)
    ensures Lives(cfg, evs + [ev]) == Lives(cfg, evs) +
              if ev.Arrive? && Accepted(cfg, ev.d) then {(ev.d.sig.value, Creations(cfg, evs + [ev], ev.d.sig.value))} else {}
  {
    var all := evs + [ev];
    assert all[..|all| - 1] == evs && all[|all| - 1] == ev;
  }

  lemma NoEntryNoLife(cfg: Config, evs: seq<Event>, sig: Sig)
    ensures sig !in Run(cfg, evs).dedup ==> Life(cfg, evs, sig) == []
  {
  }

  /** A delivery continues the present entry's lifetime, or begins one. */
  lemma ArrivalContinues(cfg: Config, evs: seq<Event>, d: Delivery)
    requires Accepted(cfg, d)
    ensures var sig := d.sig.value;
            Lifetime(cfg, evs, (sig, Creations(cfg, evs + [Arrive(d)], sig))) == Life(cfg, evs, sig)
  {
    var sig, all := d.sig.value, evs + [Arrive(d)];
    assert all[..|all| - 1] == evs && all[|all| - 1] == Arrive(d);
    PresentLife(cfg, evs, sig);
    NoEntryNoLife(cfg, evs, sig);
    RunStep(cfg, evs, Arrive(d));
  }

  lemma OrderlyRunPrefix(cfg: Config, evs: seq<Event>, ev: Event)
    requires OrderlyRun(cfg, evs + [ev])
    ensures OrderlyRun(cfg, evs)
  {
    forall id: LifeId ensures Orderly(cfg, Lifetime(cfg, evs, id)) {
      LifeStep(cfg, evs, ev, id);
      if Extends(cfg, evs, ev, id) {
        OrderlyPrefix(cfg, Lifetime(cfg, evs, id), ev.d);
      }
    }
  }

  lemma StepRecordsLead(cfg: Config, evs: seq<Event>, ev: Event, sig: Sig)
    requires OrderlyRun(cfg, evs + [ev]) && Tracks(cfg, Run(cfg, evs), sig, Life(cfg, evs, sig))
    ensures var st, all := Run(cfg, evs + [ev]), evs + [ev];
            sig in st.dedup ==> RecordsLead(cfg, st.dedup[sig], Life(cfg, all, sig))
  {
    hide Orderly, Remembers, RecordsLead, Relay;
    var all := evs + [ev];
    assert all[..|all| - 1] == evs && all[|all| - 1] == ev;
    RunStep(cfg, evs, ev);
    if IsFor(cfg, ev, sig) {
      ArrivalContinues(cfg, evs, ev.d);
      LifeStep(cfg, evs, ev, (sig, Creations(cfg, all, sig)));
      RelayRecordsLead(cfg, Run(cfg, evs), ev.d, sig, Life(cfg, evs, sig));
    } else if ev.Arrive? {
      RelayOthers(cfg, Run(cfg, evs), ev.d, sig);
    }
  }

  lemma {:induction false} RunTracks(cfg: Config, evs: seq<Event>, sig: Sig)
    requires OrderlyRun(cfg, evs)
    ensures Tracks(cfg, Run(cfg, evs), sig, Life(cfg, evs, sig))
  {
    NoEntryNoLife(cfg, evs, sig);
    EntriesRemember(cfg, evs, sig);
    if evs != [] {
      var front, ev := evs[..|evs| - 1], evs[|evs| - 1];
      assert evs == front + [ev];
      OrderlyRunPrefix(cfg, front, ev);
      RunTracks(cfg, front, sig);
      StepRecordsLead(cfg, front, ev, sig);
    }
  }

  ghost function PerLife(cfg: Config, evs: seq<Event>, v: seq<Delivery> -> int): (r: LifeId -> int) {
    (id: LifeId) => v(Lifetime(cfg, evs, id))
  }

  /** Each delivery changes the quantity `q` by as much as it changes the value `v` of its
      lifetime's deliveries; nothing else changes it. */
  ghost predicate Follows(cfg: Config, q: State -> int, v: seq<Delivery> -> int) {
    && q(Init) == 0 && v([]) == 0
    && (forall st: State, d: Delivery {:trigger q(Relay(cfg, st, d))} :: !Accepted(cfg, d) ==> q(Relay(cfg, st, d)) == q(st))
    && (forall st: State, cutoff: Ns, sigs: set<Sig> {:trigger q(Step(cfg, st, Evict(cutoff, sigs)))} ::
          q(Step(cfg, st, Evict(cutoff, sigs))) == q(st))
    && forall st: State, d: Delivery, sig: Sig, l: seq<Delivery> {:trigger q(Relay(cfg, st, d)), v(l), Tracks(cfg, st, sig, l)} ::
         IsFor(cfg, Arrive(d), sig) && Orderly(cfg, l + [d]) && Tracks(cfg, st, sig, l) ==>
           q(Relay(cfg, st, d)) - q(st) == v(l + [d]) - v(l)
  }

  lemma AcceptedStep(cfg: Config, evs: seq<Event>, d: Delivery, q: State -> int, v: seq<Delivery> -> int)
    requires OrderlyRun(cfg, evs + [Arrive(d)]) && Follows(cfg, q, v) && Accepted(cfg, d)
    requires q(Run(cfg, evs)) == Sum(Lives(cfg, evs), PerLife(cfg, evs, v))
    ensures var all := evs + [Arrive(d)];
            q(Run(cfg, all)) == Sum(Lives(cfg, all), PerLife(cfg, all, v))
  {
    hide Relay, Run, Life, Lifetime, Lives, Creations, Orderly;
    var sig, all := d.sig.value, evs + [Arrive(d)];
    var id: LifeId := (sig, Creations(cfg, all, sig));
    var l := Life(cfg, evs, sig);
    OrderlyRunPrefix(cfg, evs, Arrive(d));
    RunTracks(cfg, evs, sig);
    RunStep(cfg, evs, Arrive(d));
    ArrivalContinues(cfg, evs, d);
    LifeStep(cfg, evs, Arrive(d), id);
    LivesStep(cfg, evs, Arrive(d));
    LivesHaveDeliveries(cfg, evs, id);
    assert Orderly(cfg, Lifetime(cfg, all, id));
    forall other: LifeId | other != id ensures PerLife(cfg, evs, v)(other) == PerLife(cfg, all, v)(other) {
      LifeStep(cfg, evs, Arrive(d), other);
    }
    SumUpdate(Lives(cfg, evs), PerLife(cfg, evs, v), PerLife(cfg, all, v), id);
    assert q(Relay(cfg, Run(cfg, evs), d)) - q(Run(cfg, evs)) == v(l + [d]) - v(l);
  }

  lemma QuietStep(cfg: Config, evs: seq<Event>, ev: Event, q: State -> int, v: seq<Delivery> -> int)
    requires Follows(cfg, q, v) && (ev.Arrive? ==> !Accepted(cfg, ev.d))
    requires q(Run(cfg, evs)) == Sum(Lives(cfg, evs), PerLife(cfg, evs, v))
    ensures q(Run(cfg, evs + [ev])) == Sum(Lives(cfg, evs + [ev]), PerLife(cfg, evs + [ev], v))
  {
    hide Relay, Run, Lifetime, Lives, Creations;
    RunStep(cfg, evs, ev);
    LivesStep(cfg, evs, ev);
    assert Lives(cfg, evs + [ev]) == Lives(cfg, evs);
    forall id: LifeId ensures PerLife(cfg, evs, v)(id) == PerLife(cfg, evs + [ev], v)(id) {
      LifeStep(cfg, evs, ev, id);
    }
    SumEqual(Lives(cfg, evs), PerLife(cfg, evs, v), PerLife(cfg, evs + [ev], v));
    match ev
    case Arrive(d) => assert q(Relay(cfg, Run(cfg, evs), d)) == q(Run(cfg, evs));
    case Evict(cutoff, sigs) =>
      assert q(Step(cfg, Run(cfg, evs), Evict(cutoff, sigs))) == q(Run(cfg, evs));
  }

  /** Over an orderly run, such a quantity is the sum of the values of all lifetimes. */
  lemma {:induction false} SumsOverLives(cfg: Config, evs: seq<Event>, q: State -> int, v: seq<Delivery> -> int)
    requires OrderlyRun(cfg, evs) && Follows(cfg, q, v)
    ensures q(Run(cfg, evs)) == Sum(Lives(cfg, evs), PerLife(cfg, evs, v))
  {
    if evs != [] {
      hide Follows, OrderlyRun;
      var front, ev := evs[..|evs| - 1], evs[|evs| - 1];
      assert evs == front + [ev];
      OrderlyRunPrefix(cfg, front, ev);
      SumsOverLives(cfg, front, q, v);
      if ev.Arrive? && Accepted(cfg, ev.d) {
        AcceptedStep(cfg, front, ev.d, q, v);
      } else {
        QuietStep(cfg, front, ev, q, v);
      }
    }
  }

  // ---- Sums, wins and the number of measurements ---------------------------------------------

  function SumAt(x: Source): (q: State -> int) { (st: State) => SumOf(st, x) }
  function WinsAt(x: Source): (q: State -> int) { (st: State) => WinsOf(st, x) }
  function HeldBy(cfg: Config, x: Source): (v: seq<Delivery> -> int) { (l: seq<Delivery>) => Held(cfg, l, x) }
  function WinsHeldBy(cfg: Config, x: Source): (v: seq<Delivery> -> int) { (l: seq<Delivery>) => WinsHeld(cfg, l, x) }

  lemma SumFollows(cfg: Config, x: Source)
    ensures Follows(cfg, SumAt(x), HeldBy(cfg, x))
  {
    var q, v := SumAt(x), HeldBy(cfg, x);
    forall st: State, d: Delivery, sig: Sig, l: seq<Delivery>
      | IsFor(cfg, Arrive(d), sig) && Orderly(cfg, l + [d]) && Tracks(cfg, st, sig, l)
      ensures q(Relay(cfg, st, d)) - q(st) == v(l + [d]) - v(l)
    {
      RelaySum(cfg, st, d, sig, l, x);
    }
  }

  lemma WinsFollow(cfg: Config, x: Source)
    ensures Follows(cfg, WinsAt(x), WinsHeldBy(cfg, x))
  {
    var q, v := WinsAt(x), WinsHeldBy(cfg, x);
    forall st: State, d: Delivery, sig: Sig, l: seq<Delivery>
      | IsFor(cfg, Arrive(d), sig) && Orderly(cfg, l + [d]) && Tracks(cfg, st, sig, l)
      ensures q(Relay(cfg, st, d)) - q(st) == v(l + [d]) - v(l)
    {
      RelayWins(cfg, st, d, sig, l, x);
    }
  }

  /** Over every orderly run, the lead sum and the wins of every source are the sums, over all
      lifetimes, of what each accounts for. */
  lemma LeadSums(cfg: Config, evs: seq<Event>, x: Source)
    requires OrderlyRun(cfg, evs)
    ensures SumOf(Run(cfg, evs), x) == Sum(Lives(cfg, evs), PerLife(cfg, evs, HeldBy(cfg, x)))
    ensures WinsOf(Run(cfg, evs), x) == Sum(Lives(cfg, evs), PerLife(cfg, evs, WinsHeldBy(cfg, x)))
  {
    SumFollows(cfg, x);
    WinsFollow(cfg, x);
    SumsOverLives(cfg, evs, SumAt(x), HeldBy(cfg, x));
    SumsOverLives(cfg, evs, WinsAt(x), WinsHeldBy(cfg, x));
  }

  function CountOf(t: Tally): (r: int) { t.leads.count }

  /** All lead measurements of all sources. */
  ghost function Measurements(st: State): (r: int) {
    Total(st.tallies, CountOf)
  }

  lemma SetTallyCount(st: State, s: Source, t: Tally)
    ensures Measurements(SetTally(st, s, t)) == Measurements(st) + t.leads.count - TallyOf(st, s).leads.count
  {
    TotalPut(st.tallies, CountOf, s, t);
  }

  lemma ImproveCount(st: State, sig: Sig, e: Entry, d: Delivery)
    ensures Measurements(Improve(st, sig, e, d)) == Measurements(st)
  {
    if e.cross.Some? {
      var out := Withdraw(TallyOf(st, e.src).leads, e.cross.value.oldLeadUs);
      var w := SetLeads(st, e.src, out);
      SetTallyCount(st, e.src, TallyOf(st, e.src).(leads := out));
      SetTallyCount(w, d.src, TallyOf(w, d.src).(leads := TakeOver(TallyOf(w, d.src).leads, LeadUs(e.cross.value.rpcNs, d.ns))));
    }
  }

  lemma MeasureCount(st: State, sig: Sig, e: Entry, d: Delivery)
    requires !e.isRpc
    ensures Measurements(Measure(st, sig, e, d)) == Measurements(st) + One(LeadInRange(LeadUs(d.ns, e.recvNs)))
  {
    SetTallyCount(st, e.src, TallyOf(st, e.src).(leads := RecordLead(TallyOf(st, e.src).leads, LeadUs(d.ns, e.recvNs))));
  }

  predicate Counted(cfg: Config, l: seq<Delivery>) {
    Matched(cfg, l) && LeadInRange(MeasuredLead(cfg, l))
  }

  lemma RelayCount(cfg: Config, st: State, d: Delivery, sig: Sig, l: seq<Delivery>)
    requires IsFor(cfg, Arrive(d), sig) && Orderly(cfg, l + [d]) && Tracks(cfg, st, sig, l)
    ensures Measurements(Relay(cfg, st, d)) - Measurements(st) == One(Counted(cfg, l + [d])) - One(Counted(cfg, l))
  {
    hide Improve, Measure, Fastest, LastRpc, MeasuredLead;
    Summaries(cfg, l, d);
    OrderlyPrefix(cfg, l, d);
    var t := TallyOf(st, d.src);
    SetTallyCount(st, d.src, t.(first := t.first + 1));
    SetTallyCount(st, d.src, t.(duplicate := t.duplicate + 1));
    if sig in st.dedup {
      var st1 := SetTally(st, d.src, t.(duplicate := t.duplicate + 1));
      ImproveCount(st1, sig, st.dedup[sig], d);
      MeasureCount(st1, sig, st.dedup[sig], d);
    }
  }

  /** And as many measurements were made as lifetimes saw both tiers with the measured lead in range. */
  lemma MeasurementCount(cfg: Config, evs: seq<Event>)
    requires OrderlyRun(cfg, evs)
    ensures Measurements(Run(cfg, evs)) ==
              Sum(Lives(cfg, evs), PerLife(cfg, evs, (l: seq<Delivery>) => One(Counted(cfg, l))))
  {
    var q, v := (st: State) => Measurements(st), (l: seq<Delivery>) => One(Counted(cfg, l));
    assert Follows(cfg, q, v) by {
      forall st: State, d: Delivery, sig: Sig, l: seq<Delivery>
        | IsFor(cfg, Arrive(d), sig) && Orderly(cfg, l + [d]) && Tracks(cfg, st, sig, l)
        ensures q(Relay(cfg, st, d)) - q(st) == v(l + [d]) - v(l)
      {
        RelayCount(cfg, st, d, sig, l);
      }
    }
    SumsOverLives(cfg, evs, q, v);
  }
}
