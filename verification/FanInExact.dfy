/** When the lead counters are what they should be: the lead of each lifetime's fastest shred, counted
    within the recorded range. */
module FanInExact {
  import opened Wrappers
  import opened Metrics
  import opened Clock
  import opened FanInModel
  import opened FanInLives
  import opened FanInLeads
  import opened Sums

  // ---- Clean corrections -----------------------------------------------------------------

  /** A correction after which lead sums are still what they should be: the lead held is still the lead
      first measured, and it and the new lead are in range; or the lead first measured was out of range
      and its source only repeats it. */
  predicate Clean(cfg: Config, l: seq<Delivery>, d: Delivery)
    requires Corrects(cfg, l, d)
  {
    && TrueLead(cfg, l) == MeasuredLead(cfg, l)
    && if LeadInRange(MeasuredLead(cfg, l)) then LeadInRange(NewLead(cfg, l, d))
       else d.src == Fastest(cfg, l).value.src && NewLead(cfg, l, d) == MeasuredLead(cfg, l)
  }

  /** The same for wins: the lead held and the lead first measured have the same direction, and the new
      lead is not beyond the cap; or the lead first measured was, and stays with its source. */
  predicate WinClean(cfg: Config, l: seq<Delivery>, d: Delivery)
    requires Corrects(cfg, l, d)
  {
    if MeasuredLead(cfg, l) > LEAD_TIME_MAX_US then d.src == Fastest(cfg, l).value.src
    else NewLead(cfg, l, d) <= LEAD_TIME_MAX_US && (TrueLead(cfg, l) > 0 <==> MeasuredLead(cfg, l) > 0)
  }

  ghost predicate CleanLife(cfg: Config, l: seq<Delivery>) {
    forall k | 0 <= k < |l| && Corrects(cfg, l[..k], l[k]) :: Clean(cfg, l[..k], l[k])
  }

  ghost predicate WinCleanLife(cfg: Config, l: seq<Delivery>) {
    forall k | 0 <= k < |l| && Corrects(cfg, l[..k], l[k]) :: WinClean(cfg, l[..k], l[k])
  }

  lemma CleanPrefix(cfg: Config, l: seq<Delivery>, d: Delivery)
    ensures CleanLife(cfg, l + [d]) <==> CleanLife(cfg, l) && (Corrects(cfg, l, d) ==> Clean(cfg, l, d))
    ensures WinCleanLife(cfg, l + [d]) <==> WinCleanLife(cfg, l) && (Corrects(cfg, l, d) ==> WinClean(cfg, l, d))
  {
    hide Corrects, Clean, WinClean;
    var all := l + [d];
    assert all[..|l|] == l && all[|l|] == d;
    assert forall k | 0 <= k < |l| :: all[k] == l[k] && all[..k] == l[..k];
    if CleanLife(cfg, all) {
      assert Corrects(cfg, all[..|l|], all[|l|]) == Corrects(cfg, l, d);
      forall k | 0 <= k < |l| && Corrects(cfg, l[..k], l[k]) ensures Clean(cfg, l[..k], l[k]) {
        assert Corrects(cfg, all[..k], all[k]);
      }
    }
    if WinCleanLife(cfg, all) {
      assert Corrects(cfg, all[..|l|], all[|l|]) == Corrects(cfg, l, d);
      forall k | 0 <= k < |l| && Corrects(cfg, l[..k], l[k]) ensures WinClean(cfg, l[..k], l[k]) {
        assert Corrects(cfg, all[..k], all[k]);
      }
    }
  }

  /** The measured lead is never above the true one: corrections only make shreds earlier. */
  lemma {:induction false} LeadOnlyGrows(cfg: Config, l: seq<Delivery>)
    requires Orderly(cfg, l) && Matched(cfg, l)
    ensures MeasuredLead(cfg, l) <= TrueLead(cfg, l)
  {
    var front, d := l[..|l| - 1], l[|l| - 1];
    assert l == front + [d];
    OrderlyPrefix(cfg, front, d);
    Summaries(cfg, front, d);
    if !cfg.isRpc(d.src) {
      LeadOnlyGrows(cfg, front);
      if d.ns < Fastest(cfg, front).value.ns {
        LeadMonotone(LastRpc(cfg, front).value.ns, d.ns, Fastest(cfg, front).value.ns);
      }
    }
  }

  lemma NewLeadGrows(cfg: Config, l: seq<Delivery>, d: Delivery)
    requires Orderly(cfg, l) && Corrects(cfg, l, d)
    ensures MeasuredLead(cfg, l) <= TrueLead(cfg, l) <= NewLead(cfg, l, d)
  {
    LeadOnlyGrows(cfg, l);
    LeadMonotone(LastRpc(cfg, l).value.ns, d.ns, Fastest(cfg, l).value.ns);
  }

  /** What one more delivery leaves of a lifetime's summaries and parts. */
  lemma OneMore(cfg: Config, l: seq<Delivery>, d: Delivery, x: Source)
    requires Orderly(cfg, l + [d])
    ensures Orderly(cfg, l) && (Matched(cfg, l) ==> !cfg.isRpc(d.src))
    ensures Matched(cfg, l + [d]) <==> Matched(cfg, l) || cfg.isRpc(d.src)
    ensures Matched(cfg, l) ==> MeasuredLead(cfg, l + [d]) == MeasuredLead(cfg, l)
    ensures Corrects(cfg, l, d) ==> TrueLead(cfg, l + [d]) == NewLead(cfg, l, d) && Fastest(cfg, l + [d]) == Some(d)
    ensures Matched(cfg, l) && !Corrects(cfg, l, d) ==>
              TrueLead(cfg, l + [d]) == TrueLead(cfg, l) && Fastest(cfg, l + [d]) == Fastest(cfg, l)
    ensures cfg.isRpc(d.src) ==>
              && Fastest(cfg, l).Some? && Fastest(cfg, l + [d]) == Fastest(cfg, l)
              && MeasuredLead(cfg, l + [d]) == TrueLead(cfg, l + [d]) == NewLead(cfg, l, d)
    ensures Held(cfg, l + [d], x) == Held(cfg, l, x) + Change(cfg, l, d, x, Due, us => us)
    ensures WinsHeld(cfg, l + [d], x) == WinsHeld(cfg, l, x) + Change(cfg, l, d, x, DueWin, Win)
  {
    Snoc(l, d);
    OrderlyPrefix(cfg, l, d);
    Summaries(cfg, l, d);
    assert (l + [d])[|l|] == d;
  }

  // ---- One lifetime ----------------------------------------------------------------------

  /** Sums are exact up to here, and the lead held is in range exactly when the one first measured is. */
  ghost predicate Balanced(cfg: Config, l: seq<Delivery>, x: Source) {
    && Held(cfg, l, x) == Credit(cfg, l, x)
    && (Matched(cfg, l) ==>
          if LeadInRange(MeasuredLead(cfg, l)) then LeadInRange(TrueLead(cfg, l)) else TrueLead(cfg, l) == MeasuredLead(cfg, l))
  }

  lemma StaysBalanced(cfg: Config, l: seq<Delivery>, d: Delivery, x: Source)
    requires Orderly(cfg, l + [d]) && Balanced(cfg, l, x) && (Corrects(cfg, l, d) ==> Clean(cfg, l, d))
    ensures Balanced(cfg, l + [d], x)
  {
    hide Orderly, CleanLife, Held, Fastest, LastRpc, MeasuredLead, LeadUs, NewLead, TrueLead;
    OneMore(cfg, l, d, x);
  }

  lemma {:induction false} CleanHolds(cfg: Config, l: seq<Delivery>, x: Source)
    requires Orderly(cfg, l) && CleanLife(cfg, l)
    ensures Balanced(cfg, l, x)
  {
    if l != [] {
      var front, d := l[..|l| - 1], l[|l| - 1];
      assert l == front + [d];
      CleanPrefix(cfg, front, d);
      OrderlyPrefix(cfg, front, d);
      CleanHolds(cfg, front, x);
      StaysBalanced(cfg, front, d, x);
    }
  }

  ghost predicate WinBalanced(cfg: Config, l: seq<Delivery>, x: Source) {
    && WinsHeld(cfg, l, x) == WinCredit(cfg, l, x)
    && (Matched(cfg, l) ==> (MeasuredLead(cfg, l) > LEAD_TIME_MAX_US <==> TrueLead(cfg, l) > LEAD_TIME_MAX_US))
  }

  lemma StaysWinBalanced(cfg: Config, l: seq<Delivery>, d: Delivery, x: Source)
    requires Orderly(cfg, l + [d]) && WinBalanced(cfg, l, x) && (Corrects(cfg, l, d) ==> WinClean(cfg, l, d))
    ensures WinBalanced(cfg, l + [d], x)
  {
    hide Orderly, WinCleanLife, WinsHeld, Fastest, LastRpc, MeasuredLead, LeadUs, NewLead, TrueLead;
    OneMore(cfg, l, d, x);
    if Corrects(cfg, l, d) {
      NewLeadGrows(cfg, l, d);
    }
  }

  lemma {:induction false} WinCleanHolds(cfg: Config, l: seq<Delivery>, x: Source)
    requires Orderly(cfg, l) && WinCleanLife(cfg, l)
    ensures WinBalanced(cfg, l, x)
  {
    if l != [] {
      var front, d := l[..|l| - 1], l[|l| - 1];
      assert l == front + [d];
      CleanPrefix(cfg, front, d);
      OrderlyPrefix(cfg, front, d);
      WinCleanHolds(cfg, front, x);
      StaysWinBalanced(cfg, front, d, x);
    }
  }

  /** The first correction that is not clean shows at one of its two sources. */
  lemma UncleanShows(cfg: Config, l: seq<Delivery>, d: Delivery) returns (x: Source)
    requires Orderly(cfg, l + [d]) && CleanLife(cfg, l) && Corrects(cfg, l, d) && !Clean(cfg, l, d)
    ensures Held(cfg, l + [d], x) != Credit(cfg, l + [d], x)
  {
    hide Orderly, CleanLife, Held, Fastest, LastRpc, MeasuredLead, LeadUs, NewLead, TrueLead;
    var measured := MeasuredLead(cfg, l);
    x := if LeadInRange(measured) && TrueLead(cfg, l) == measured then d.src else Fastest(cfg, l).value.src;
    OneMore(cfg, l, d, x);
    CleanHolds(cfg, l, x);
    NewLeadGrows(cfg, l, d);
  }

  lemma WinUncleanShows(cfg: Config, l: seq<Delivery>, d: Delivery) returns (x: Source)
    requires Orderly(cfg, l + [d]) && WinCleanLife(cfg, l) && Corrects(cfg, l, d) && !WinClean(cfg, l, d)
    ensures WinsHeld(cfg, l + [d], x) != WinCredit(cfg, l + [d], x)
  {
    hide Orderly, WinCleanLife, WinsHeld, Fastest, LastRpc, MeasuredLead, LeadUs, NewLead, TrueLead;
    var measured := MeasuredLead(cfg, l);
    x := if measured <= LEAD_TIME_MAX_US && (TrueLead(cfg, l) > 0 <==> measured > 0) then d.src else Fastest(cfg, l).value.src;
    OneMore(cfg, l, d, x);
    WinCleanHolds(cfg, l, x);
    NewLeadGrows(cfg, l, d);
  }

  // ---- At the end of a run, measured in range ----------------------------------------------

  /** The lead was measured within the range, so it was counted. */
  predicate InRange(cfg: Config, l: seq<Delivery>) {
    Matched(cfg, l) ==> LeadInRange(MeasuredLead(cfg, l))
  }

  function Top(cfg: Config, l: seq<Delivery>, x: Source): (r: int) {
    if Matched(cfg, l) && Fastest(cfg, l).value.src == x then TrueLead(cfg, l) else 0
  }

  lemma NothingHeld(cfg: Config, x: Source)
    ensures Held(cfg, [], x) == Top(cfg, [], x) == Credit(cfg, [], x) == 0
    ensures WinsHeld(cfg, [], x) == Win(Top(cfg, [], x)) == WinCredit(cfg, [], x) == 0
  {
  }

  /** One more delivery leaves the true lead at least as large as the measured one. */
  lemma LeadAfter(cfg: Config, l: seq<Delivery>, d: Delivery)
    requires Orderly(cfg, l + [d]) && Matched(cfg, l)
    ensures MeasuredLead(cfg, l) <= TrueLead(cfg, l)
    ensures Corrects(cfg, l, d) ==> TrueLead(cfg, l) <= NewLead(cfg, l, d)
  {
    hide Orderly, Fastest, LastRpc, MeasuredLead, LeadUs, NewLead, TrueLead;
    OrderlyPrefix(cfg, l, d);
    LeadOnlyGrows(cfg, l);
    if Corrects(cfg, l, d) {
      NewLeadGrows(cfg, l, d);
    }
  }

  lemma HeldStaysAtLeast(cfg: Config, l: seq<Delivery>, d: Delivery, x: Source)
    requires Orderly(cfg, l + [d]) && InRange(cfg, l + [d]) && Held(cfg, l, x) >= Top(cfg, l, x)
    ensures Held(cfg, l + [d], x) >= Top(cfg, l + [d], x)
  {
    hide Orderly, Held, WinsHeld, Fastest, LastRpc, MeasuredLead, LeadUs, NewLead, TrueLead, DueWin;
    OneMore(cfg, l, d, x);
    if Matched(cfg, l) {
      LeadAfter(cfg, l, d);
    }
  }

  lemma WinsStayAtLeast(cfg: Config, l: seq<Delivery>, d: Delivery, x: Source)
    requires Orderly(cfg, l + [d]) && InRange(cfg, l + [d]) && WinsHeld(cfg, l, x) >= Win(Top(cfg, l, x))
    ensures WinsHeld(cfg, l + [d], x) >= Win(Top(cfg, l + [d], x))
  {
    hide Orderly, Held, WinsHeld, Fastest, LastRpc, MeasuredLead, LeadUs, NewLead, TrueLead;
    OneMore(cfg, l, d, x);
    if Matched(cfg, l) {
      LeadAfter(cfg, l, d);
    }
  }

  lemma TopAtLeastCredit(cfg: Config, l: seq<Delivery>, x: Source)
    requires Orderly(cfg, l) && InRange(cfg, l)
    ensures Top(cfg, l, x) >= Credit(cfg, l, x) && Win(Top(cfg, l, x)) >= WinCredit(cfg, l, x)
  {
    hide Orderly, Fastest, MeasuredLead, TrueLead;
    if Matched(cfg, l) {
      LeadOnlyGrows(cfg, l);
    }
  }

  lemma {:induction false} HeldAtLeast(cfg: Config, l: seq<Delivery>, x: Source)
    requires Orderly(cfg, l) && InRange(cfg, l)
    ensures Held(cfg, l, x) >= Top(cfg, l, x) >= Credit(cfg, l, x)
    ensures WinsHeld(cfg, l, x) >= Win(Top(cfg, l, x)) >= WinCredit(cfg, l, x)
  {
    hide Orderly, Held, WinsHeld, Top, Credit, WinCredit, MeasuredLead;
    TopAtLeastCredit(cfg, l, x);
    if l == [] {
      NothingHeld(cfg, x);
    } else {
      var front, d := l[..|l| - 1], l[|l| - 1];
      assert l == front + [d];
      OneMore(cfg, front, d, x);
      HeldAtLeast(cfg, front, x);
      HeldStaysAtLeast(cfg, front, d, x);
      WinsStayAtLeast(cfg, front, d, x);
    }
  }

  lemma {:induction false} UnmatchedIsClean(cfg: Config, l: seq<Delivery>)
    requires Orderly(cfg, l)
    ensures !Matched(cfg, l) ==> CleanLife(cfg, l) && WinCleanLife(cfg, l)
  {
    if l != [] {
      var front, d := l[..|l| - 1], l[|l| - 1];
      assert l == front + [d];
      hide Orderly, Fastest, LastRpc;
      OneMore(cfg, front, d, 0);
      CleanPrefix(cfg, front, d);
      UnmatchedIsClean(cfg, front);
    }
  }

  lemma UncleanNow(cfg: Config, l: seq<Delivery>, d: Delivery) returns (x: Source)
    requires Orderly(cfg, l + [d]) && InRange(cfg, l) && Corrects(cfg, l, d) && !Clean(cfg, l, d)
    ensures Held(cfg, l + [d], x) > Credit(cfg, l + [d], x)
  {
    hide Orderly, CleanLife, Held, Fastest, LastRpc, MeasuredLead, LeadUs, NewLead, TrueLead;
    x := if TrueLead(cfg, l) != MeasuredLead(cfg, l) then Fastest(cfg, l).value.src else d.src;
    OneMore(cfg, l, d, x);
    NewLeadGrows(cfg, l, d);
    HeldAtLeast(cfg, l, x);
  }

  lemma UncleanLater(cfg: Config, l: seq<Delivery>, d: Delivery, x: Source)
    requires Orderly(cfg, l + [d]) && Matched(cfg, l) && InRange(cfg, l) && (Corrects(cfg, l, d) ==> Clean(cfg, l, d))
    requires Held(cfg, l, x) > Credit(cfg, l, x)
    ensures Held(cfg, l + [d], x) > Credit(cfg, l + [d], x)
  {
    hide Orderly, CleanLife, Held, Fastest, LastRpc, MeasuredLead, LeadUs, NewLead, TrueLead;
    OneMore(cfg, l, d, x);
  }

  lemma {:induction false} UncleanStays(cfg: Config, l: seq<Delivery>) returns (x: Source)
    requires Orderly(cfg, l) && InRange(cfg, l) && !CleanLife(cfg, l)
    ensures Held(cfg, l, x) > Credit(cfg, l, x)
  {
    var front, d := l[..|l| - 1], l[|l| - 1];
    assert l == front + [d];
    hide Orderly, CleanLife, Held, Credit, Clean, Corrects;
    OneMore(cfg, front, d, 0);
    CleanPrefix(cfg, front, d);
    UnmatchedIsClean(cfg, front);
    if Corrects(cfg, front, d) && !Clean(cfg, front, d) {
      CorrectsMatched(cfg, front, d);
      x := UncleanNow(cfg, front, d);
    } else {
      x := UncleanStays(cfg, front);
      UncleanLater(cfg, front, d, x);
    }
  }

  lemma CorrectsMatched(cfg: Config, l: seq<Delivery>, d: Delivery)
    ensures Corrects(cfg, l, d) ==> Matched(cfg, l)
  {
  }

  lemma WinUncleanNow(cfg: Config, l: seq<Delivery>, d: Delivery) returns (x: Source)
    requires Orderly(cfg, l + [d]) && InRange(cfg, l) && Corrects(cfg, l, d) && !WinClean(cfg, l, d)
    ensures WinsHeld(cfg, l + [d], x) > WinCredit(cfg, l + [d], x)
  {
    hide Orderly, WinCleanLife, WinsHeld, Fastest, LastRpc, MeasuredLead, LeadUs, NewLead, TrueLead;
    x := if TrueLead(cfg, l) > 0 <==> MeasuredLead(cfg, l) > 0 then d.src else Fastest(cfg, l).value.src;
    OneMore(cfg, l, d, x);
    NewLeadGrows(cfg, l, d);
    HeldAtLeast(cfg, l, x);
  }

  lemma WinUncleanLater(cfg: Config, l: seq<Delivery>, d: Delivery, x: Source)
    requires Orderly(cfg, l + [d]) && Matched(cfg, l) && InRange(cfg, l) && (Corrects(cfg, l, d) ==> WinClean(cfg, l, d))
    requires WinsHeld(cfg, l, x) > WinCredit(cfg, l, x)
    ensures WinsHeld(cfg, l + [d], x) > WinCredit(cfg, l + [d], x)
  {
    hide Orderly, WinCleanLife, WinsHeld, Fastest, LastRpc, MeasuredLead, LeadUs, NewLead, TrueLead;
    OneMore(cfg, l, d, x);
    HeldAtLeast(cfg, l, x);
    if Corrects(cfg, l, d) {
      NewLeadGrows(cfg, l, d);
    }
  }

  lemma {:induction false} WinUncleanStays(cfg: Config, l: seq<Delivery>) returns (x: Source)
    requires Orderly(cfg, l) && InRange(cfg, l) && !WinCleanLife(cfg, l)
    ensures WinsHeld(cfg, l, x) > WinCredit(cfg, l, x)
  {
    var front, d := l[..|l| - 1], l[|l| - 1];
    assert l == front + [d];
    hide Orderly, WinCleanLife, WinsHeld, WinCredit, WinClean, Corrects;
    OneMore(cfg, front, d, 0);
    CleanPrefix(cfg, front, d);
    UnmatchedIsClean(cfg, front);
    if Corrects(cfg, front, d) && !WinClean(cfg, front, d) {
      CorrectsMatched(cfg, front, d);
      x := WinUncleanNow(cfg, front, d);
    } else {
      x := WinUncleanStays(cfg, front);
      WinUncleanLater(cfg, front, d, x);
    }
  }

  // ---- A whole run -----------------------------------------------------------------------

  /** The quantity is what the values of all lifetimes come to. */
  ghost predicate IsExact(cfg: Config, evs: seq<Event>, q: State -> int, v: seq<Delivery> -> int) {
    q(Run(cfg, evs)) == Sum(Lives(cfg, evs), PerLife(cfg, evs, v))
  }

  ghost predicate AllLives(cfg: Config, evs: seq<Event>, p: seq<Delivery> -> bool) {
    forall id: LifeId :: p(Lifetime(cfg, evs, id))
  }

  lemma {:induction false} OrderlyPrefixRun(cfg: Config, evs: seq<Event>, n: nat)
    requires OrderlyRun(cfg, evs) && n <= |evs|
    ensures OrderlyRun(cfg, evs[..n])
  {
    if n < |evs| {
      var m := |evs| - 1;
      assert evs == evs[..m] + [evs[m]] && evs[..m][..n] == evs[..n];
      OrderlyRunPrefix(cfg, evs[..m], evs[m]);
      OrderlyPrefixRun(cfg, evs[..m], n);
    } else {
      assert evs[..n] == evs;
    }
  }

  lemma {:induction false} PrefixAllLives(cfg: Config, evs: seq<Event>, p: seq<Delivery> -> bool, n: nat)
    requires AllLives(cfg, evs, p) && n <= |evs|
    requires forall l: seq<Delivery>, d: Delivery {:trigger p(l + [d])} :: p(l + [d]) ==> p(l)
    ensures AllLives(cfg, evs[..n], p)
  {
    if n < |evs| {
      var m := |evs| - 1;
      assert evs == evs[..m] + [evs[m]] && evs[..m][..n] == evs[..n];
      forall id: LifeId ensures p(Lifetime(cfg, evs[..m], id)) {
        LifeStep(cfg, evs[..m], evs[m], id);
        assert p(Lifetime(cfg, evs, id));
      }
      PrefixAllLives(cfg, evs[..m], p, n);
    } else {
      assert evs[..n] == evs;
    }
  }

  lemma LastEventFails(cfg: Config, evs: seq<Event>, ev: Event, p: seq<Delivery> -> bool) returns (id: LifeId)
    requires AllLives(cfg, evs, p) && !AllLives(cfg, evs + [ev], p)
    ensures ev.Arrive? && !p(Lifetime(cfg, evs + [ev], id)) && Lifetime(cfg, evs + [ev], id) == Lifetime(cfg, evs, id) + [ev.d]
    ensures forall other: LifeId | other != id :: Lifetime(cfg, evs + [ev], other) == Lifetime(cfg, evs, other)
  {
    hide Lifetime, Creations;
    id :| !p(Lifetime(cfg, evs + [ev], id));
    LifeStep(cfg, evs, ev, id);
    forall other: LifeId | other != id ensures Lifetime(cfg, evs + [ev], other) == Lifetime(cfg, evs, other) {
      LifeStep(cfg, evs, ev, other);
    }
    assert p(Lifetime(cfg, evs, id));
  }

  lemma NoEventsNoFailure(cfg: Config, p: seq<Delivery> -> bool)
    requires p([])
    ensures AllLives(cfg, [], p)
  {
  }

  /** The first event after which not all lifetimes satisfy `p`. */
  lemma {:induction false} FirstFailure(cfg: Config, evs: seq<Event>, p: seq<Delivery> -> bool) returns (n: nat, id: LifeId)
    requires p([]) && !AllLives(cfg, evs, p)
    ensures n < |evs| && AllLives(cfg, evs[..n], p) && !p(Lifetime(cfg, evs[..n + 1], id))
    ensures evs[n].Arrive? && Lifetime(cfg, evs[..n + 1], id) == Lifetime(cfg, evs[..n], id) + [evs[n].d]
    ensures forall other: LifeId | other != id :: Lifetime(cfg, evs[..n + 1], other) == Lifetime(cfg, evs[..n], other)
  {
    hide AllLives, Lifetime;
    NoEventsNoFailure(cfg, p);
    var m := |evs| - 1;
    var front := evs[..m];
    assert evs == front + [evs[m]];
    if !AllLives(cfg, front, p) {
      n, id := FirstFailure(cfg, front, p);
      assert front[..n] == evs[..n] && front[..n + 1] == evs[..n + 1];
    } else {
      n := m;
      assert evs[..n + 1] == evs;
      id := LastEventFails(cfg, front, evs[m], p);
    }
  }

  /** Sums that differ at one lifetime only. */
  lemma DifferAtOne(cfg: Config, evs: seq<Event>, v: seq<Delivery> -> int, w: seq<Delivery> -> int, id: LifeId)
    requires v(Lifetime(cfg, evs, id)) != w(Lifetime(cfg, evs, id)) && Lifetime(cfg, evs, id) != []
    requires forall other: LifeId | other != id :: v(Lifetime(cfg, evs, other)) == w(Lifetime(cfg, evs, other))
    ensures Sum(Lives(cfg, evs), PerLife(cfg, evs, v)) != Sum(Lives(cfg, evs), PerLife(cfg, evs, w))
  {
    var keys := Lives(cfg, evs);
    LivesHaveDeliveries(cfg, evs, id);
    SumPick(keys, PerLife(cfg, evs, v), id);
    SumPick(keys, PerLife(cfg, evs, w), id);
    SumEqual(keys - {id}, PerLife(cfg, evs, v), PerLife(cfg, evs, w));
  }

  function CreditOf(cfg: Config, x: Source): (v: seq<Delivery> -> int) { (l: seq<Delivery>) => Credit(cfg, l, x) }
  function WinCreditOf(cfg: Config, x: Source): (v: seq<Delivery> -> int) { (l: seq<Delivery>) => WinCredit(cfg, l, x) }
  ghost function CleanLives(cfg: Config): (p: seq<Delivery> -> bool) { (l: seq<Delivery>) => CleanLife(cfg, l) }
  ghost function WinCleanLives(cfg: Config): (p: seq<Delivery> -> bool) { (l: seq<Delivery>) => WinCleanLife(cfg, l) }

  /** Source `x` is credited with exactly the leads, within the range, of the lifetimes whose fastest
      shred it delivered. */
  ghost predicate SumIsExact(cfg: Config, evs: seq<Event>, x: Source) {
    IsExact(cfg, evs, SumAt(x), CreditOf(cfg, x))
  }

  /** And with a win for each such lead that is positive. */
  ghost predicate WinsAreExact(cfg: Config, evs: seq<Event>, x: Source) {
    IsExact(cfg, evs, WinsAt(x), WinCreditOf(cfg, x))
  }

  ghost predicate CleanRun(cfg: Config, evs: seq<Event>) { AllLives(cfg, evs, CleanLives(cfg)) }
  ghost predicate WinCleanRun(cfg: Config, evs: seq<Event>) { AllLives(cfg, evs, WinCleanLives(cfg)) }

  lemma CleanIsExact(cfg: Config, evs: seq<Event>, x: Source)
    requires OrderlyRun(cfg, evs)
    ensures CleanRun(cfg, evs) ==> SumIsExact(cfg, evs, x)
    ensures WinCleanRun(cfg, evs) ==> WinsAreExact(cfg, evs, x)
  {
    LeadSums(cfg, evs, x);
    if CleanRun(cfg, evs) {
      forall id: LifeId ensures HeldBy(cfg, x)(Lifetime(cfg, evs, id)) == CreditOf(cfg, x)(Lifetime(cfg, evs, id)) {
        assert CleanLives(cfg)(Lifetime(cfg, evs, id));
        CleanHolds(cfg, Lifetime(cfg, evs, id), x);
      }
      SumEqual(Lives(cfg, evs), PerLife(cfg, evs, HeldBy(cfg, x)), PerLife(cfg, evs, CreditOf(cfg, x)));
    }
    if WinCleanRun(cfg, evs) {
      forall id: LifeId ensures WinsHeldBy(cfg, x)(Lifetime(cfg, evs, id)) == WinCreditOf(cfg, x)(Lifetime(cfg, evs, id)) {
        assert WinCleanLives(cfg)(Lifetime(cfg, evs, id));
        WinCleanHolds(cfg, Lifetime(cfg, evs, id), x);
      }
      SumEqual(Lives(cfg, evs), PerLife(cfg, evs, WinsHeldBy(cfg, x)), PerLife(cfg, evs, WinCreditOf(cfg, x)));
    }
  }

  /** The event whose correction is not clean makes some source's sum wrong. */
  lemma UncleanRunShows(cfg: Config, evs: seq<Event>) returns (n: nat, x: Source)
    requires OrderlyRun(cfg, evs) && !CleanRun(cfg, evs)
    ensures n <= |evs| && !SumIsExact(cfg, evs[..n], x)
  {
    var k, id := FirstFailure(cfg, evs, CleanLives(cfg));
    n := k + 1;
    var before, now := Lifetime(cfg, evs[..k], id), Lifetime(cfg, evs[..n], id);
    OrderlyPrefixRun(cfg, evs, n);
    assert Orderly(cfg, now);
    assert CleanLives(cfg)(before);
    CleanPrefix(cfg, before, evs[k].d);
    x := UncleanShows(cfg, before, evs[k].d);
    LeadSums(cfg, evs[..n], x);
    forall other: LifeId | other != id
      ensures HeldBy(cfg, x)(Lifetime(cfg, evs[..n], other)) == CreditOf(cfg, x)(Lifetime(cfg, evs[..n], other))
    {
      assert CleanLives(cfg)(Lifetime(cfg, evs[..k], other));
      CleanHolds(cfg, Lifetime(cfg, evs[..n], other), x);
    }
    DifferAtOne(cfg, evs[..n], HeldBy(cfg, x), CreditOf(cfg, x), id);
  }

  lemma WinUncleanRunShows(cfg: Config, evs: seq<Event>) returns (n: nat, x: Source)
    requires OrderlyRun(cfg, evs) && !WinCleanRun(cfg, evs)
    ensures n <= |evs| && !WinsAreExact(cfg, evs[..n], x)
  {
    var k, id := FirstFailure(cfg, evs, WinCleanLives(cfg));
    n := k + 1;
    var before, now := Lifetime(cfg, evs[..k], id), Lifetime(cfg, evs[..n], id);
    OrderlyPrefixRun(cfg, evs, n);
    assert Orderly(cfg, now);
    assert WinCleanLives(cfg)(before);
    CleanPrefix(cfg, before, evs[k].d);
    x := WinUncleanShows(cfg, before, evs[k].d);
    LeadSums(cfg, evs[..n], x);
    forall other: LifeId | other != id
      ensures WinsHeldBy(cfg, x)(Lifetime(cfg, evs[..n], other)) == WinCreditOf(cfg, x)(Lifetime(cfg, evs[..n], other))
    {
      assert WinCleanLives(cfg)(Lifetime(cfg, evs[..k], other));
      WinCleanHolds(cfg, Lifetime(cfg, evs[..n], other), x);
    }
    DifferAtOne(cfg, evs[..n], WinsHeldBy(cfg, x), WinCreditOf(cfg, x), id);
  }

  lemma PrefixClean(cfg: Config, evs: seq<Event>, n: nat)
    requires n <= |evs|
    ensures CleanRun(cfg, evs) ==> CleanRun(cfg, evs[..n])
    ensures WinCleanRun(cfg, evs) ==> WinCleanRun(cfg, evs[..n])
  {
    forall l: seq<Delivery>, d: Delivery
      ensures CleanLives(cfg)(l + [d]) ==> CleanLives(cfg)(l)
      ensures WinCleanLives(cfg)(l + [d]) ==> WinCleanLives(cfg)(l)
    {
      CleanPrefix(cfg, l, d);
    }
    if CleanRun(cfg, evs) {
      PrefixAllLives(cfg, evs, CleanLives(cfg), n);
    }
    if WinCleanRun(cfg, evs) {
      PrefixAllLives(cfg, evs, WinCleanLives(cfg), n);
    }
  }

  /** Over an orderly run, the lead sums of all sources are exact throughout if and only if every
      correction is clean. */
  lemma SumsExactly(cfg: Config, evs: seq<Event>)
    requires OrderlyRun(cfg, evs)
    ensures (forall n, x: Source | 0 <= n <= |evs| :: SumIsExact(cfg, evs[..n], x)) <==> CleanRun(cfg, evs)
  {
    if CleanRun(cfg, evs) {
      forall n, x: Source | 0 <= n <= |evs| ensures SumIsExact(cfg, evs[..n], x) {
        PrefixClean(cfg, evs, n);
        OrderlyPrefixRun(cfg, evs, n);
        CleanIsExact(cfg, evs[..n], x);
      }
    } else {
      var n, x := UncleanRunShows(cfg, evs);
    }
  }

  /** And their wins are if and only if every correction is clean for wins. */
  lemma WinsExactly(cfg: Config, evs: seq<Event>)
    requires OrderlyRun(cfg, evs)
    ensures (forall n, x: Source | 0 <= n <= |evs| :: WinsAreExact(cfg, evs[..n], x)) <==> WinCleanRun(cfg, evs)
  {
    if WinCleanRun(cfg, evs) {
      forall n, x: Source | 0 <= n <= |evs| ensures WinsAreExact(cfg, evs[..n], x) {
        PrefixClean(cfg, evs, n);
        OrderlyPrefixRun(cfg, evs, n);
        CleanIsExact(cfg, evs[..n], x);
      }
    } else {
      var n, x := WinUncleanRunShows(cfg, evs);
    }
  }

  /** Sums that exceed each other at one lifetime. */
  lemma ExceedsAtOne(cfg: Config, evs: seq<Event>, v: seq<Delivery> -> int, w: seq<Delivery> -> int, id: LifeId)
    requires v(Lifetime(cfg, evs, id)) > w(Lifetime(cfg, evs, id)) && Lifetime(cfg, evs, id) != []
    requires forall other: LifeId :: v(Lifetime(cfg, evs, other)) >= w(Lifetime(cfg, evs, other))
    ensures Sum(Lives(cfg, evs), PerLife(cfg, evs, v)) > Sum(Lives(cfg, evs), PerLife(cfg, evs, w))
  {
    LivesHaveDeliveries(cfg, evs, id);
    SumLess(Lives(cfg, evs), PerLife(cfg, evs, w), PerLife(cfg, evs, v), id);
  }

  /** If every lead was first measured in range, nothing cancels: sums and wins exact at the end of the
      run are enough. */
  lemma ExactAtEnd(cfg: Config, evs: seq<Event>)
    requires OrderlyRun(cfg, evs) && forall id: LifeId :: InRange(cfg, Lifetime(cfg, evs, id))
    ensures (forall x: Source :: SumIsExact(cfg, evs, x)) <==> CleanRun(cfg, evs)
    ensures (forall x: Source :: WinsAreExact(cfg, evs, x)) <==> WinCleanRun(cfg, evs)
  {
    forall x: Source
      ensures CleanRun(cfg, evs) ==> SumIsExact(cfg, evs, x)
      ensures WinCleanRun(cfg, evs) ==> WinsAreExact(cfg, evs, x)
    {
      CleanIsExact(cfg, evs, x);
    }
    if !CleanRun(cfg, evs) {
      var id: LifeId :| !CleanLives(cfg)(Lifetime(cfg, evs, id));
      var x := UncleanStays(cfg, Lifetime(cfg, evs, id));
      forall other: LifeId ensures HeldBy(cfg, x)(Lifetime(cfg, evs, other)) >= CreditOf(cfg, x)(Lifetime(cfg, evs, other)) {
        HeldAtLeast(cfg, Lifetime(cfg, evs, other), x);
      }
      LeadSums(cfg, evs, x);
      ExceedsAtOne(cfg, evs, HeldBy(cfg, x), CreditOf(cfg, x), id);
      assert !SumIsExact(cfg, evs, x);
    }
    if !WinCleanRun(cfg, evs) {
      var id: LifeId :| !WinCleanLives(cfg)(Lifetime(cfg, evs, id));
      var x := WinUncleanStays(cfg, Lifetime(cfg, evs, id));
      forall other: LifeId
        ensures WinsHeldBy(cfg, x)(Lifetime(cfg, evs, other)) >= WinCreditOf(cfg, x)(Lifetime(cfg, evs, other))
      {
        HeldAtLeast(cfg, Lifetime(cfg, evs, other), x);
      }
      LeadSums(cfg, evs, x);
      ExceedsAtOne(cfg, evs, WinsHeldBy(cfg, x), WinCreditOf(cfg, x), id);
      assert !WinsAreExact(cfg, evs, x);
    }
  }

  // ---- At most one correction ----------------------------------------------------------------

  lemma {:induction false} UncorrectedIsFresh(cfg: Config, l: seq<Delivery>, k: nat)
    requires Orderly(cfg, l) && k <= |l| && Matched(cfg, l[..k])
    requires forall j | 0 <= j < k :: !Corrects(cfg, l[..j], l[j])
    ensures TrueLead(cfg, l[..k]) == MeasuredLead(cfg, l[..k])
    decreases k
  {
    var front, d := l[..k - 1], l[k - 1];
    assert l[..k] == front + [d];
    assert Orderly(cfg, l[..k]) by {
      assert forall j | 0 <= j < k :: l[..k][j] == l[j] && l[..k][..j] == l[..j];
    }
    OrderlyPrefix(cfg, front, d);
    Summaries(cfg, front, d);
    if !cfg.isRpc(d.src) {
      UncorrectedIsFresh(cfg, l, k - 1);
    }
  }

  /** When at most one shred improves on a measurement, sums and wins are exact if its lead and the
      measured one are in range. */
  lemma OneCorrectionIsClean(cfg: Config, l: seq<Delivery>)
    requires Orderly(cfg, l)
    requires forall j, k | 0 <= j < k < |l| :: !(Corrects(cfg, l[..j], l[j]) && Corrects(cfg, l[..k], l[k]))
    requires forall k | 0 <= k < |l| && Corrects(cfg, l[..k], l[k]) ::
               LeadInRange(MeasuredLead(cfg, l[..k])) && LeadInRange(NewLead(cfg, l[..k], l[k]))
    ensures CleanLife(cfg, l) && WinCleanLife(cfg, l)
  {
    forall k | 0 <= k < |l| && Corrects(cfg, l[..k], l[k])
      ensures Clean(cfg, l[..k], l[k]) && WinClean(cfg, l[..k], l[k])
    {
      UncorrectedIsFresh(cfg, l, k);
    }
  }

  // ---- Order independence ----------------------------------------------------------------

  /** No two shreds of the signature carry the same timestamp. */
  ghost predicate DistinctShreds(cfg: Config, l: seq<Delivery>) {
    forall j, k | 0 <= j < |l| && 0 <= k < |l| && !cfg.isRpc(l[j].src) && !cfg.isRpc(l[k].src) && l[j].ns == l[k].ns :: l[j] == l[k]
  }

  lemma {:induction false} LastRpcIs(cfg: Config, l: seq<Delivery>)
    ensures LastRpc(cfg, l).Some? ==> LastRpc(cfg, l).value in l && cfg.isRpc(LastRpc(cfg, l).value.src)
    ensures LastRpc(cfg, l).None? ==> forall d | d in l :: !cfg.isRpc(d.src)
  {
    if l != [] {
      LastRpcIs(cfg, l[..|l| - 1]);
      assert l == l[..|l| - 1] + [l[|l| - 1]];
    }
  }

  lemma OnlyRpc(cfg: Config, l: seq<Delivery>, d: Delivery)
    requires Orderly(cfg, l) && d in l && cfg.isRpc(d.src)
    ensures LastRpc(cfg, l) == Some(d)
  {
    LastRpcIs(cfg, l);
    var k :| 0 <= k < |l| && l[k] == d;
    var j :| 0 <= j < |l| && l[j] == LastRpc(cfg, l).value;
    LastRpcIs(cfg, l[..k]);
    LastRpcIs(cfg, l[..j]);
    forall i | 0 <= i < k ensures l[i] in l[..k] {
      assert l[..k][i] == l[i];
    }
    forall i | 0 <= i < j ensures l[i] in l[..j] {
      assert l[..j][i] == l[i];
    }
  }

  lemma SameFastest(cfg: Config, l: seq<Delivery>, m: seq<Delivery>)
    requires DistinctShreds(cfg, l) && (forall d :: d in l <==> d in m)
    ensures Fastest(cfg, l) == Fastest(cfg, m)
  {
    hide Fastest;
    FastestIsEarliest(cfg, l);
    FastestIsEarliest(cfg, m);
    if k :| 0 <= k < |m| && !cfg.isRpc(m[k].src) {
      assert m[k] in l;
    }
    if Fastest(cfg, l).Some? {
      var a := Fastest(cfg, l).value;
      var k :| 0 <= k < |l| && l[k] == a;
      var i :| 0 <= i < |m| && m[i] == a;
      var b := Fastest(cfg, m).value;
      var j :| 0 <= j < |l| && l[j] == b;
      assert a.ns == b.ns;
    }
  }

  /** The summaries of orderly deliveries do not depend on their order. */
  lemma SameSummaries(cfg: Config, l: seq<Delivery>, m: seq<Delivery>)
    requires Orderly(cfg, l) && Orderly(cfg, m) && multiset(l) == multiset(m) && DistinctShreds(cfg, l)
    ensures Fastest(cfg, l) == Fastest(cfg, m) && LastRpc(cfg, l) == LastRpc(cfg, m)
  {
    hide Orderly, Fastest, LastRpc, DistinctShreds;
    forall d ensures d in l <==> d in m {
      assert d in l <==> d in multiset(l);
      assert d in m <==> d in multiset(m);
    }
    LastRpcIs(cfg, l);
    LastRpcIs(cfg, m);
    if LastRpc(cfg, l).Some? {
      OnlyRpc(cfg, m, LastRpc(cfg, l).value);
    }
    SameFastest(cfg, l, m);
  }

  /** Both runs delivered the same, lifetime by lifetime, in whatever order. */
  ghost predicate SameDeliveries(cfg: Config, es: seq<Event>, fs: seq<Event>) {
    forall id: LifeId :: multiset(Lifetime(cfg, es, id)) == multiset(Lifetime(cfg, fs, id))
  }

  /** Over clean runs the lead sums and wins of every source and the number of measurements are the
      same whether a lifetime's fastest shred was processed before or after its RPC delivery, and indeed
      in whatever order its deliveries were processed. */
  lemma OrderDoesNotMatter(cfg: Config, es: seq<Event>, fs: seq<Event>, x: Source)
    requires OrderlyRun(cfg, es) && OrderlyRun(cfg, fs)
    requires CleanRun(cfg, es) && CleanRun(cfg, fs) && WinCleanRun(cfg, es) && WinCleanRun(cfg, fs)
    requires SameDeliveries(cfg, es, fs) && forall id: LifeId :: DistinctShreds(cfg, Lifetime(cfg, es, id))
    ensures SumOf(Run(cfg, es), x) == SumOf(Run(cfg, fs), x)
    ensures WinsOf(Run(cfg, es), x) == WinsOf(Run(cfg, fs), x)
    ensures Measurements(Run(cfg, es)) == Measurements(Run(cfg, fs))
  {
    SameLives(cfg, es, fs);
    var keys := Lives(cfg, es);
    forall id: LifeId
      ensures var l, m := Lifetime(cfg, es, id), Lifetime(cfg, fs, id);
              && Credit(cfg, l, x) == Credit(cfg, m, x) && WinCredit(cfg, l, x) == WinCredit(cfg, m, x)
              && Counted(cfg, l) == Counted(cfg, m)
    {
      var l, m := Lifetime(cfg, es, id), Lifetime(cfg, fs, id);
      SameSummaries(cfg, l, m);
      assert CleanLives(cfg)(l) && CleanLives(cfg)(m);
      CleanHolds(cfg, l, x);
      CleanHolds(cfg, m, x);
    }
    CleanIsExact(cfg, es, x);
    CleanIsExact(cfg, fs, x);
    SumEqual(keys, PerLife(cfg, es, CreditOf(cfg, x)), PerLife(cfg, fs, CreditOf(cfg, x)));
    SumEqual(keys, PerLife(cfg, es, WinCreditOf(cfg, x)), PerLife(cfg, fs, WinCreditOf(cfg, x)));
    MeasurementCount(cfg, es);
    MeasurementCount(cfg, fs);
    SumEqual(keys, PerLife(cfg, es, (l: seq<Delivery>) => One(Counted(cfg, l))),
             PerLife(cfg, fs, (l: seq<Delivery>) => One(Counted(cfg, l))));
  }

  lemma SameLives(cfg: Config, es: seq<Event>, fs: seq<Event>)
    requires SameDeliveries(cfg, es, fs)
    ensures Lives(cfg, es) == Lives(cfg, fs)
  {
    forall id: LifeId ensures id in Lives(cfg, es) <==> id in Lives(cfg, fs) {
      LivesHaveDeliveries(cfg, es, id);
      LivesHaveDeliveries(cfg, fs, id);
      var l, m := Lifetime(cfg, es, id), Lifetime(cfg, fs, id);
      assert multiset(l) == multiset(m) && |multiset(l)| == |l| && |multiset(m)| == |m|;
    }
  }

  // ---- Runs that are not exact -----------------------------------------------------------

  const RpcIsZero: Config := Config((s: Source) => s == 0, {})

  function Of(src: Source, ns: Ns): (r: Delivery) {
    Delivery(src, Some(1), [], ns)
  }

  /** Two shreds improve on one measurement: 1 us measured, then 2 us, then 5 us. The second
      correction withdraws the 1 us first measured, so the source of the second shred keeps 1 us. */
  lemma TwoCorrectionsAreStale()
    ensures var l := [Of(1, 9_000), Of(0, 10_000), Of(2, 8_000), Of(3, 5_000)];
            Orderly(RpcIsZero, l) && Held(RpcIsZero, l, 2) == 1 && Credit(RpcIsZero, l, 2) == 0
  {
    var cfg, none: seq<Delivery> := RpcIsZero, [];
    var a, b, c, d := [Of(1, 9_000)], [Of(1, 9_000), Of(0, 10_000)],
      [Of(1, 9_000), Of(0, 10_000), Of(2, 8_000)], [Of(1, 9_000), Of(0, 10_000), Of(2, 8_000), Of(3, 5_000)];
    assert a == none + [Of(1, 9_000)] && b == a + [Of(0, 10_000)] && c == b + [Of(2, 8_000)] && d == c + [Of(3, 5_000)];
    Summaries(cfg, none, Of(1, 9_000));
    Summaries(cfg, a, Of(0, 10_000));
    Summaries(cfg, b, Of(2, 8_000));
    Summaries(cfg, c, Of(3, 5_000));
    assert d[..1] == a;
    assert Orderly(cfg, d);
    hide Fastest, LastRpc, MeasuredLead, Orderly;
    OneMore(cfg, c, Of(3, 5_000), 2);
    OneMore(cfg, b, Of(2, 8_000), 2);
    OneMore(cfg, a, Of(0, 10_000), 2);
    OneMore(cfg, none, Of(1, 9_000), 2);
  }

  /** A lead beyond the recorded range is not counted as a win, yet a later correction withdraws one:
      the counter goes below zero, that is, wraps. */
  lemma OutOfRangeLeadUnderflowsWins()
    ensures var evs := [Arrive(Of(1, 1_000)), Arrive(Of(0, 3_000_001_000)), Arrive(Of(2, 0))];
            WinsOf(Run(RpcIsZero, evs), 1) == -1
  {
    var cfg, slow, rpc, fast := RpcIsZero, Of(1, 1_000), Of(0, 3_000_001_000), Of(2, 0);
    ThreeSteps(cfg, Arrive(slow), Arrive(rpc), Arrive(fast));
    var s1 := Relay(cfg, Init, slow);
    assert s1.dedup[1] == FirstArrival(1_000, false, 1, None);
    var s2 := Relay(cfg, s1, rpc);
    assert s2.dedup[1] == FirstArrival(1_000, false, 1, Some(CrossTier(3_000_001_000, 3_000_000, 1)));
    assert WinsOf(s2, 1) == 0;
  }

  lemma ThreeSteps(cfg: Config, a: Event, b: Event, c: Event)
    ensures Run(cfg, [a, b, c]) == Step(cfg, Step(cfg, Step(cfg, Init, a), b), c)
  {
    hide Step;
    assert [] + [a] == [a] && [a] + [b] == [a, b] && [a, b] + [c] == [a, b, c];
    RunStep(cfg, [], a);
    RunStep(cfg, [a], b);
    RunStep(cfg, [a, b], c);
  }

  lemma CappedLate()
    ensures var evs := [Arrive(Of(1, 200_000_000)), Arrive(Of(0, 2_100_000_000)), Arrive(Of(2, 0))];
            SumOf(Run(RpcIsZero, evs), 2) == 2_100_000 && WinsOf(Run(RpcIsZero, evs), 2) == 1
  {
    var cfg, slow, rpc, fast := RpcIsZero, Of(1, 200_000_000), Of(0, 2_100_000_000), Of(2, 0);
    ThreeSteps(cfg, Arrive(slow), Arrive(rpc), Arrive(fast));
    var s1 := Relay(cfg, Init, slow);
    assert s1.dedup[1] == FirstArrival(200_000_000, false, 1, None);
    var s2 := Relay(cfg, s1, rpc);
    assert s2.dedup[1] == FirstArrival(200_000_000, false, 1, Some(CrossTier(2_100_000_000, 1_900_000, 1)));
    assert SumOf(s2, 2) == 0 && WinsOf(s2, 2) == 0;
  }

  lemma CappedEarly()
    ensures var evs := [Arrive(Of(1, 200_000_000)), Arrive(Of(2, 0)), Arrive(Of(0, 2_100_000_000))];
            SumOf(Run(RpcIsZero, evs), 2) == 0 && WinsOf(Run(RpcIsZero, evs), 2) == 0
  {
    var cfg, slow, rpc, fast := RpcIsZero, Of(1, 200_000_000), Of(0, 2_100_000_000), Of(2, 0);
    ThreeSteps(cfg, Arrive(slow), Arrive(fast), Arrive(rpc));
    var s1 := Relay(cfg, Init, slow);
    assert s1.dedup[1] == FirstArrival(200_000_000, false, 1, None);
    var s2 := Relay(cfg, s1, fast);
    assert s2.dedup[1] == FirstArrival(0, false, 2, None);
    assert SumOf(s2, 2) == 0 && WinsOf(s2, 2) == 0;
  }

  /** A correction is never held against the cap: 2.1 s are recorded when the fastest shred comes after
      the RPC, and nothing when it comes before. */
  lemma CapDependsOnOrder()
    ensures var late := [Arrive(Of(1, 200_000_000)), Arrive(Of(0, 2_100_000_000)), Arrive(Of(2, 0))];
            var early := [Arrive(Of(1, 200_000_000)), Arrive(Of(2, 0)), Arrive(Of(0, 2_100_000_000))];
            && SumOf(Run(RpcIsZero, late), 2) == 2_100_000 && WinsOf(Run(RpcIsZero, late), 2) == 1
            && SumOf(Run(RpcIsZero, early), 2) == 0 && WinsOf(Run(RpcIsZero, early), 2) == 0
  {
    hide Run, SumOf, WinsOf;
    CappedLate();
    CappedEarly();
  }
}
