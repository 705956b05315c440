/** The offline analyzer: which feed's copy of a shred came first in a capture. Over data shreds it
    agrees with the live tracker that waits for two feeds. */
module Analyze {
  import opened Wrappers
  import opened OrderStatistics
  import opened Frame
  import opened ShredRaceModel

  datatype Seen = Seen(feed: Name, ns: nat)

  /** The first arrival of a shred, and the first from another feed. */
  datatype Duel = Duel(first: Seen, second: Option<Seen>)

  function Note(duels: map<Key, Duel>, key: Key, s: Seen): (r: map<Key, Duel>) {
    if key !in duels then duels[key := Duel(s, None)]
    else if duels[key].second.None? && duels[key].first.feed != s.feed then duels[key := duels[key].(second := Some(s))]
    else duels
  }

  /** The feed of a group address: its given name, or the address itself. */
  type Feeds = Ipv4 -> Name

  function NotePacket(feeds: Feeds, duels: map<Key, Duel>, p: PcapPacket): (r: map<Key, Duel>) {
    var f := ReadFrame(p.frame);
    if f.None? || !IsDataShred(f.value.1) then duels else
    Note(duels, ParseSlotIndex(f.value.1).value, Seen(feeds(f.value.0), AsNanos(p)))
  }

  function Duels(feeds: Feeds, ps: seq<PcapPacket>): (r: map<Key, Duel>) {
    if ps == [] then map[] else NotePacket(feeds, Duels(feeds, ps[..|ps| - 1]), ps[|ps| - 1])
  }

  function Matched(duels: map<Key, Duel>): (r: set<Key>) {
    set k | k in duels && duels[k].second.Some?
  }

  function WonBy(duels: map<Key, Duel>, feed: Name): (r: set<Key>) {
    set k | k in duels && duels[k].second.Some? && duels[k].first.feed == feed
  }

  /** `saturating_sub` of the timestamps; 0 while there is no second arrival. */
  function LeadNs(d: Duel): (r: nat) {
    if d.second.Some? && d.second.value.ns >= d.first.ns then d.second.value.ns - d.first.ns else 0
  }

  function WonWith(duels: map<Key, Duel>, feed: Name, leadNs: nat): (r: set<Key>) {
    set k | k in WonBy(duels, feed) && LeadNs(duels[k]) == leadNs
  }

  /** The feed took part in a matched shred. */
  predicate Competed(duels: map<Key, Duel>, feed: Name) {
    exists k :: k in Matched(duels) && feed in {duels[k].first.feed, duels[k].second.value.feed}
  }

  /** Read the capture. */
  method ReadCapture(feeds: Feeds, ps: seq<PcapPacket>) returns (duels: map<Key, Duel>)
    ensures duels == Duels(feeds, ps)
  {
    duels := map[];
    for i := 0 to |ps|
      invariant duels == Duels(feeds, ps[..i])
    {
      assert ps[..i + 1][..i] == ps[..i];
      var f := ReadFrame(ps[i].frame);
      if f.Some? && IsDataShred(f.value.1) {
        var key, s := ParseSlotIndex(f.value.1).value, Seen(feeds(f.value.0), AsNanos(ps[i]));
        if key !in duels {
          duels := duels[key := Duel(s, None)];
        } else if duels[key].second.None? && duels[key].first.feed != s.feed {
          duels := duels[key := duels[key].(second := Some(s))];
        }
      }
    }
    assert ps[..|ps|] == ps;
  }

  type Wins = map<Name, nat>
  type Leads = map<Name, multiset<nat>>

  /** What the report rests on: the shreds matched, every competing feed's number of shreds delivered
      first, and every lead as often as the feed won with it. */
  ghost predicate Tallied(duels: map<Key, Duel>, pairsMatched: nat, wins: Wins, leads: Leads) {
    && pairsMatched == |Matched(duels)|
    && (forall f :: f in wins <==> Competed(duels, f))
    && (forall f | f in wins :: wins[f] == |WonBy(duels, f)|)
    && (forall f :: f in leads <==> WonBy(duels, f) != {})
    && (forall f, v | f in leads :: leads[f][v] == |WonWith(duels, f, v)|)
  }

  function AddWin(wins: Wins, d: Duel): (r: Wins)
    requires d.second.Some?
  {
    var w := wins[d.first.feed := (if d.first.feed in wins then wins[d.first.feed] else 0) + 1];
    if d.second.value.feed in w then w else w[d.second.value.feed := 0]
  }

  function AddLead(leads: Leads, d: Duel): (r: Leads) {
    leads[d.first.feed := (if d.first.feed in leads then leads[d.first.feed] else multiset{}) + multiset{LeadNs(d)}]
  }

  lemma MatchSets(duels: map<Key, Duel>, k: Key, d: Duel, f: Name, v: nat)
    requires k !in duels && d.second.Some?
    ensures WonBy(duels[k := d], f) == WonBy(duels, f) + if d.first.feed == f then {k} else {}
    ensures WonWith(duels[k := d], f, v) == WonWith(duels, f, v) + if d.first.feed == f && LeadNs(d) == v then {k} else {}
    ensures k !in WonBy(duels, f) && k !in WonWith(duels, f, v)
  {
  }

  lemma MatchCompeted(duels: map<Key, Duel>, k: Key, d: Duel, f: Name)
    requires k !in duels && d.second.Some?
    ensures Competed(duels[k := d], f) <==> Competed(duels, f) || f in {d.first.feed, d.second.value.feed}
    ensures Matched(duels[k := d]) == Matched(duels) + {k}
  {
    var next := duels[k := d];
    assert Matched(next) == Matched(duels) + {k};
    assert next[k] == d;
    if Competed(duels, f) {
      var j :| j in Matched(duels) && f in {duels[j].first.feed, duels[j].second.value.feed};
      assert j in Matched(next) && next[j] == duels[j];
    }
  }

  lemma WinnersCompeted(duels: map<Key, Duel>, f: Name)
    ensures WonBy(duels, f) != {} ==> Competed(duels, f)
  {
    if k :| k in WonBy(duels, f) {
      assert k in Matched(duels);
    }
  }

  /** One more win for the first feed; no more than an appearance for the second. */
  lemma WinAdded(wins: Wins, d: Duel, f: Name)
    requires d.second.Some?
    ensures f in AddWin(wins, d) <==> f in wins || f in {d.first.feed, d.second.value.feed}
    ensures f in AddWin(wins, d) ==>
              AddWin(wins, d)[f] == (if f in wins then wins[f] else 0) + if f == d.first.feed then 1 else 0
  {
  }

  lemma WinsMatched(duels: map<Key, Duel>, k: Key, d: Duel, wins: Wins, f: Name)
    requires k !in duels && d.second.Some?
    requires f in wins <==> Competed(duels, f)
    requires f in wins ==> wins[f] == |WonBy(duels, f)|
    ensures f in AddWin(wins, d) <==> Competed(duels[k := d], f)
    ensures f in AddWin(wins, d) ==> AddWin(wins, d)[f] == |WonBy(duels[k := d], f)|
  {
    hide Competed, WonBy, WonWith, Matched, AddWin, LeadNs;
    WinAdded(wins, d, f);
    MatchCompeted(duels, k, d, f);
    MatchSets(duels, k, d, f, 0);
    WinnersCompeted(duels, f);
    OneMoreSize(WonBy(duels, f), k);
  }

  lemma OneMoreSize(s: set<Key>, k: Key)
    requires k !in s
    ensures |s + {k}| == |s| + 1
  {
  }

  lemma LeadsMatched(duels: map<Key, Duel>, k: Key, d: Duel, leads: Leads, f: Name, v: nat)
    requires k !in duels && d.second.Some?
    requires forall g :: g in leads <==> WonBy(duels, g) != {}
    requires forall g, w | g in leads :: leads[g][w] == |WonWith(duels, g, w)|
    ensures f in AddLead(leads, d) <==> WonBy(duels[k := d], f) != {}
    ensures f in AddLead(leads, d) ==> AddLead(leads, d)[f][v] == |WonWith(duels[k := d], f, v)|
  {
    MatchSets(duels, k, d, f, v);
    assert WonWith(duels, f, v) <= WonBy(duels, f);
    hide WonWith, WonBy;
  }

  lemma MatchTallied(duels: map<Key, Duel>, k: Key, d: Duel, pairsMatched: nat, wins: Wins, leads: Leads)
    requires Tallied(duels, pairsMatched, wins, leads) && k !in duels && d.second.Some?
    ensures Tallied(duels[k := d], pairsMatched + 1, AddWin(wins, d), AddLead(leads, d))
  {
    hide WonWith, WonBy, Competed;
    MatchCompeted(duels, k, d, d.first.feed);
    forall f
      ensures f in AddWin(wins, d) <==> Competed(duels[k := d], f)
      ensures f in AddWin(wins, d) ==> AddWin(wins, d)[f] == |WonBy(duels[k := d], f)|
    {
      WinsMatched(duels, k, d, wins, f);
    }
    forall f ensures f in AddLead(leads, d) <==> WonBy(duels[k := d], f) != {} {
      LeadsMatched(duels, k, d, leads, f, 0);
    }
    forall f, v: nat | f in AddLead(leads, d) ensures AddLead(leads, d)[f][v] == |WonWith(duels[k := d], f, v)| {
      LeadsMatched(duels, k, d, leads, f, v);
    }
  }

  lemma Unmatched(duels: map<Key, Duel>, k: Key, d: Duel, f: Name, v: nat)
    requires k !in duels && d.second.None?
    ensures var next := duels[k := d];
            && Matched(next) == Matched(duels) && WonBy(next, f) == WonBy(duels, f)
            && WonWith(next, f, v) == WonWith(duels, f, v) && (Competed(next, f) <==> Competed(duels, f))
  {
    var next := duels[k := d];
    assert Matched(next) == Matched(duels);
    assert WonBy(next, f) == WonBy(duels, f);
    assert forall j | j in Matched(duels) :: next[j] == duels[j];
  }

  lemma UnmatchedTallied(duels: map<Key, Duel>, k: Key, d: Duel, pairsMatched: nat, wins: Wins, leads: Leads)
    requires Tallied(duels, pairsMatched, wins, leads) && k !in duels && d.second.None?
    ensures Tallied(duels[k := d], pairsMatched, wins, leads)
  {
    hide Matched, WonWith, WonBy, Competed;
    var next := duels[k := d];
    forall f ensures WonBy(next, f) == WonBy(duels, f) && (Competed(next, f) <==> Competed(duels, f)) {
      Unmatched(duels, k, d, f, 0);
    }
    forall f, v: nat ensures WonWith(next, f, v) == WonWith(duels, f, v) {
      Unmatched(duels, k, d, f, v);
    }
    Unmatched(duels, k, d, 0, 0);
  }

  /** Aggregate the matched shreds, in whatever order the map yields them. */
  method Aggregate(duels: map<Key, Duel>) returns (pairsMatched: nat, wins: Wins, leads: Leads)
    ensures Tallied(duels, pairsMatched, wins, leads)
  {
    pairsMatched, wins, leads := 0, map[], map[];
    var todo := duels.Keys;
    ghost var done: map<Key, Duel> := map[];
    while todo != {}
      invariant todo <= duels.Keys && done == duels - todo
      invariant Tallied(done, pairsMatched, wins, leads)
      decreases todo
    {
      var k :| k in todo;
      var d := duels[k];
      todo := todo - {k};
      assert duels - todo == done[k := d];
      if d.second.Some? {
        MatchTallied(done, k, d, pairsMatched, wins, leads);
        pairsMatched := pairsMatched + 1;
        wins := wins[d.first.feed := (if d.first.feed in wins then wins[d.first.feed] else 0) + 1];
        leads := leads[d.first.feed := (if d.first.feed in leads then leads[d.first.feed] else multiset{}) + multiset{LeadNs(d)}];
        if d.second.value.feed !in wins {
          wins := wins[d.second.value.feed := 0];
        }
      } else {
        UnmatchedTallied(done, k, d, pairsMatched, wins, leads);
      }
      done := done[k := d];
    }
    assert done == duels;
  }

  /** `percentile` of a sorted list: the sample of rank floor(n * pct / 100), the last one beyond, 0 of an
      empty list. */
  function Percentile(sorted: seq<int>, pct: nat): (v: int)
    ensures sorted != [] && IsSorted(sorted) && pct < 100 ==> HasRank(sorted, |sorted| * pct / 100, v)
    ensures sorted != [] && pct >= 100 ==> v == sorted[|sorted| - 1]
    ensures sorted == [] ==> v == 0
  {
    if sorted == [] then 0 else
    RankBelow(|sorted|, pct);
    var i := if |sorted| * pct / 100 < |sorted| - 1 then |sorted| * pct / 100 else |sorted| - 1;
    assert IsSorted(sorted) ==> HasRank(sorted, i, sorted[i]) by {
      if IsSorted(sorted) {
        SortedHasRank(sorted, i);
      }
    }
    sorted[i]
  }

  lemma RankBelow(n: nat, pct: nat)
    requires n > 0
    ensures pct < 100 ==> n * pct / 100 <= n - 1
    ensures pct >= 100 ==> n * pct / 100 >= n
  {
    if pct < 100 {
      assert n * pct <= n * 99;
    } else {
      assert n * pct >= n * 100;
    }
  }
}
