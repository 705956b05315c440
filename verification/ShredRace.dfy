/** The tracker itself: arrivals, pairs and addresses updated in place. */
module ShredRaces {
  import opened Bytes
  import opened Clock
  import opened ShredRaceModel

  lemma InsertedSorted(order: seq<Hit>, at: nat, h: Hit, r: seq<Hit>)
    requires SortedByNs(order) && at <= |order| && |r| == |order| + 1
    requires (at > 0 ==> order[at - 1].ns <= h.ns) && (at < |order| ==> h.ns <= order[at].ns)
    requires forall k | 0 <= k < at :: r[k] == order[k]
    requires r[at] == h && forall k | at < k < |r| :: r[k] == order[k - 1]
    ensures SortedByNs(r)
  {
    forall j, k | 0 <= j < k < |r| ensures r[j].ns <= r[k].ns {
      if j < at {
        assert r[j].ns <= h.ns by {
          assert j == at - 1 || order[j].ns <= order[at - 1].ns;
        }
      }
      if k > at {
        assert h.ns <= r[k].ns by {
          assert k == at + 1 || order[at].ns <= order[k - 1].ns;
        }
      }
    }
  }

  lemma Spliced(order: seq<Hit>, at: nat, h: Hit)
    requires at <= |order|
    ensures var r := order[..at] + [h] + order[at..];
            && |r| == |order| + 1 && r[at] == h
            && (forall k | 0 <= k < at :: r[k] == order[k])
            && (forall k | at < k < |r| :: r[k] == order[k - 1])
  {
  }

  lemma InsertAt(order: seq<Hit>, at: nat, h: Hit)
    requires SortedByNs(order) && at <= |order|
    requires (at > 0 ==> order[at - 1].ns <= h.ns) && (at < |order| ==> h.ns <= order[at].ns)
    ensures SortedByNs(order[..at] + [h] + order[at..])
    ensures multiset(order[..at] + [h] + order[at..]) == multiset(order) + multiset{h}
  {
    hide SortedByNs;
    var r := order[..at] + [h] + order[at..];
    assert SortedByNs(r) by {
      Spliced(order, at, h);
      InsertedSorted(order, at, h, r);
    }
    SplicedMultiset(order, at, h);
  }

  lemma SplicedMultiset(order: seq<Hit>, at: nat, h: Hit)
    requires at <= |order|
    ensures multiset(order[..at] + [h] + order[at..]) == multiset(order) + multiset{h}
  {
    assert order == order[..at] + order[at..];
  }

  /** Sort a copy of the hits by receive time. */
  method SortByNs(hits: seq<Hit>) returns (order: seq<Hit>)
    ensures IsOrderOf(order, hits)
  {
    order := [];
    for n := 0 to |hits|
      invariant SortedByNs(order) && multiset(order) == multiset(hits[..n])
    {
      var at := |order|;
      while at > 0 && order[at - 1].ns > hits[n].ns
        invariant 0 <= at <= |order|
        invariant forall k | at <= k < |order| :: hits[n].ns < order[k].ns
      {
        at := at - 1;
      }
      assert hits[..n + 1] == hits[..n] + [hits[n]];
      InsertAt(order, at, hits[n]);
      order := order[..at] + [hits[n]] + order[at..];
    }
    assert hits[..|hits|] == hits;
  }

  lemma {:induction false} RecordAllAppend(pairs: map<(Name, Name), Pair>, a: seq<Result>, b: seq<Result>)
    ensures RecordAll(pairs, a + b) == RecordAll(RecordAll(pairs, a), b)
  {
    if b == [] {
      assert a + b == a;
    } else {
      assert (a + b)[..|a + b| - 1] == a + b[..|b| - 1];
      RecordAllAppend(pairs, a, b[..|b| - 1]);
    }
  }

  class ShredRaceTracker {
    const cfg: Config
    var races: map<Key, Race>
    var pairs: map<(Name, Name), Pair>
    var ips: map<u32, IpStats>

    ghost function Model(): (r: State)
      reads this
    {
      State(races, pairs, ips)
    }

    constructor (cfg: Config)
      ensures this.cfg == cfg && Model() == Start
    {
      this.cfg, races, pairs, ips := cfg, map[], map[], map[];
    }

    method RecordSeen(ip: u32, ns: nat)
      modifies this`ips
      ensures ips == RecordArrival(old(ips), ip, ns)
    {
      if ip == 0 {
        return;
      }
      var s := if ip in ips then ips[ip] else IpStats(0, 0, ns);
      ips := ips[ip := s.(total := s.total + 1, lastSeenNs := ns)];
    }

    method RecordWinOf(ip: u32, ok: bool)
      modifies this`ips
      ensures ips == RecordWin(old(ips), ip, ok)
    {
      if ip == 0 || !ok {
        return;
      }
      if ip in ips {
        ips := ips[ip := ips[ip].(wins := ips[ip].wins + 1)];
      }
    }

    /** Record that `winner` beat `loser` by `leadUs`, under their canonical key. */
    method Record(winner: Name, loser: Name, leadUs: int)
      modifies this`pairs
      ensures pairs == RecordResult(old(pairs), Result(winner, loser, leadUs))
    {
      var key := if winner <= loser then (winner, loser) else (loser, winner);
      if key !in pairs {
        pairs := pairs[key := NoPair];
      }
      var p := pairs[key];
      if winner == key.0 {
        p := p.(aWins := p.aWins + 1);
      } else {
        p := p.(bWins := p.bWins + 1);
      }
      p := p.(leadSumUs := p.leadSumUs + leadUs);
      p := p.(leadCount := p.leadCount + 1);
      p := p.(samples := p.samples + [leadUs]);
      pairs := pairs[key := p];
    }

    /** The results of the hit at `i` against all later ones. */
    method RecordRow(order: seq<Hit>, i: nat)
      requires i < |order|
      modifies this`pairs
      ensures pairs == RecordAll(old(pairs), RowResults(order, i, |order|))
    {
      var j := i + 1;
      while j < |order|
        invariant i < j <= |order|
        invariant pairs == RecordAll(old(pairs), RowResults(order, i, j))
      {
        var leadUs := LeadUs(order[j].ns, order[i].ns);
        Record(order[i].source, order[j].source, leadUs);
        j := j + 1;
      }
    }

    /** All pairwise results of a completed race. */
    method RecordRace(order: seq<Hit>)
      modifies this`pairs
      ensures pairs == RecordAll(old(pairs), Results(order))
    {
      hide RowResults, RecordResult;
      var i := 0;
      assert RecordAll(pairs, []) == pairs;
      while i < |order|
        invariant i <= |order|
        invariant pairs == RecordAll(old(pairs), ResultsUpTo(order, i))
      {
        assert ResultsUpTo(order, i + 1) == ResultsUpTo(order, i) + RowResults(order, i, |order|);
        RecordAllAppend(old(pairs), ResultsUpTo(order, i), RowResults(order, i, |order|));
        RecordRow(order, i);
        i := i + 1;
      }
    }

    /** One arrival; `order` is what the hits were sorted into if it completed its race. */
    method ProcessArrival(a: Arrival, now: nat, gate: bool, winnerOk: bool) returns (ghost order: seq<Hit>)
      modifies this
      ensures Model() == Step(cfg, old(Model()), Process(a, now, gate, winnerOk), order)
      ensures ProperAct(cfg, old(Model()), Act(Process(a, now, gate, winnerOk), order))
    {
      order := [];
      RecordSeen(a.ip, a.ns);
      if !gate {
        return;
      }
      var key := KeyOf(a);
      if key !in races {
        races := races[key := Race([HitOf(a)], now)];
        return;
      }
      var r := races[key];
      if |r.hits| >= cfg.expected {
        return;
      }
      if exists k | 0 <= k < |r.hits| :: r.hits[k].source == a.source {
        return;
      }
      if now >= r.insertedNs + STALE_NS {
        races := races - {key};
        return;
      }
      r := r.(hits := r.hits + [HitOf(a)]);
      races := races[key := r];
      if |r.hits| >= cfg.expected {
        var sorted := SortByNs(r.hits);
        order := sorted;
        assert |multiset(sorted)| == |sorted| && |multiset(r.hits)| == |r.hits|;
        RecordWinOf(sorted[0].ip, winnerOk);
        RecordRace(sorted);
      }
    }

    method RecordTxRace(shredSource: Name, leadUs: int)
      modifies this`pairs
      ensures Model() == Step(cfg, old(Model()), TxRace(shredSource, leadUs), [])
    {
      if leadUs >= 0 {
        Record(shredSource, cfg.rpc, leadUs);
      } else {
        Record(cfg.rpc, shredSource, -leadUs);
      }
    }

    /** The part of an eviction pass that visits `keys`. */
    method SweepOld(cutoff: nat, keys: set<Key>)
      modifies this`races
      ensures Model() == Step(cfg, old(Model()), Sweep(cutoff, keys), [])
    {
      var todo := keys;
      while todo != {}
        invariant todo <= keys && races.Keys <= old(races).Keys
        invariant forall k | k in old(races) :: k in races <==> k !in keys || k in todo || old(races)[k].insertedNs > cutoff
        invariant forall k | k in races :: races[k] == old(races)[k]
        decreases todo
      {
        var k :| k in todo;
        todo := todo - {k};
        if k in races && races[k].insertedNs <= cutoff {
          races := races - {k};
        }
      }
    }
  }
}
