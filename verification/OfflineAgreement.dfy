/** The analyzer's race over a capture against the live race over the same deliveries. The analyzer skips
    coding shreds, the live race does not: they agree on a shred exactly when no coding shred decides
    it. */
module OfflineAgreement {
  import opened Wrappers
  import opened Bytes
  import opened Sums
  import opened ShredWire
  import opened Frame
  import opened Analyze
  import CaptureModel
  import opened ShredRaceModel
  import opened ShredRaceTheorems
  import opened OfflineLive

  function InCapture(rx: Rx): (p: PcapPacket) {
    PacketOf(rx.ns, rx.group, rx.port, rx.payload)
  }

  function CaptureOf(rxs: seq<Rx>): (ps: seq<PcapPacket>)
    ensures |ps| == |rxs| && forall i | 0 <= i < |rxs| :: ps[i] == InCapture(rxs[i])
  {
    seq(|rxs|, i requires 0 <= i < |rxs| => InCapture(rxs[i]))
  }

  predicate IsData(rx: Rx) {
    IsDataVariant(rx.payload[VARIANT_OFF])
  }

  lemma ReadBack(feeds: Feeds, duels: map<Key, Duel>, rx: Rx)
    ensures NotePacket(feeds, duels, InCapture(rx)) ==
              if IsData(rx) then Note(duels, KeyOfRx(rx), SeenOf(feeds, rx)) else duels
  {
    hide BuildFrame, PacketOf, ReadFrame, AsNanos, LE64, LE32;
    CaptureRoundTrip(rx.ns, rx.group, rx.port, rx.payload);
  }

  /** What the analyzer makes of the deliveries: data shreds only. */
  function Offline(feeds: Feeds, rxs: seq<Rx>): (r: map<Key, Duel>) {
    Duels(feeds, CaptureOf(rxs))
  }

  lemma OfflineStep(feeds: Feeds, rxs: seq<Rx>)
    requires rxs != []
    ensures var n := |rxs| - 1;
            var before := Offline(feeds, rxs[..n]);
            Offline(feeds, rxs) == if IsData(rxs[n]) then Note(before, KeyOfRx(rxs[n]), SeenOf(feeds, rxs[n])) else before
  {
    hide InCapture, NotePacket, Note, IsData, KeyOfRx;
    assert CaptureOf(rxs)[..|rxs| - 1] == CaptureOf(rxs[..|rxs| - 1]);
    ReadBack(feeds, Offline(feeds, rxs[..|rxs| - 1]), rxs[|rxs| - 1]);
  }

  lemma NothingOffline(feeds: Feeds)
    ensures Offline(feeds, []) == map[]
  {
  }

  // ---- Which deliveries decide a shred -------------------------------------------------------

  /** The first delivery of the shred. */
  predicate IsFirst(rxs: seq<Rx>, k: Key, i: int) {
    0 <= i < |rxs| && KeyOfRx(rxs[i]) == k && forall j | 0 <= j < i :: KeyOfRx(rxs[j]) != k
  }

  /** The first delivery of the shred from a feed other than the first's. */
  predicate IsRival(feeds: Feeds, rxs: seq<Rx>, k: Key, i: int) {
    && 0 <= i < |rxs| && KeyOfRx(rxs[i]) == k
    && exists f :: 0 <= f < i && IsFirst(rxs, k, f) && feeds(rxs[i].group) != feeds(rxs[f].group)
                   && forall j | 0 <= j < i && KeyOfRx(rxs[j]) == k :: feeds(rxs[j].group) == feeds(rxs[f].group)
  }

  predicate Decides(feeds: Feeds, rxs: seq<Rx>, k: Key, i: int) {
    IsFirst(rxs, k, i) || IsRival(feeds, rxs, k, i)
  }

  /** What the race over all deliveries says of a shred. */
  ghost predicate Tells(feeds: Feeds, rxs: seq<Rx>, k: Key, duels: map<Key, Duel>) {
    if k !in duels then forall j | 0 <= j < |rxs| :: KeyOfRx(rxs[j]) != k
    else
      && (exists f :: 0 <= f < |rxs| && IsFirst(rxs, k, f) && duels[k].first == SeenOf(feeds, rxs[f]))
      && if duels[k].second.None? then
           forall j | 0 <= j < |rxs| && KeyOfRx(rxs[j]) == k :: feeds(rxs[j].group) == duels[k].first.feed
         else
           exists r :: 0 <= r < |rxs| && IsRival(feeds, rxs, k, r) && duels[k].second == Some(SeenOf(feeds, rxs[r]))
  }

  lemma FirstStays(rxs: seq<Rx>, rx: Rx, k: Key, i: int)
    requires 0 <= i < |rxs|
    ensures IsFirst(rxs + [rx], k, i) <==> IsFirst(rxs, k, i)
  {
    hide KeyOfRx;
    assert forall j | 0 <= j < |rxs| :: (rxs + [rx])[j] == rxs[j];
  }

  lemma RivalStays(feeds: Feeds, rxs: seq<Rx>, rx: Rx, k: Key, i: int)
    requires 0 <= i < |rxs|
    ensures IsRival(feeds, rxs + [rx], k, i) <==> IsRival(feeds, rxs, k, i)
  {
    hide KeyOfRx, IsFirst;
    var all := rxs + [rx];
    assert forall j | 0 <= j < |rxs| :: all[j] == rxs[j];
    forall f | 0 <= f < i ensures IsFirst(all, k, f) <==> IsFirst(rxs, k, f) {
      FirstStays(rxs, rx, k, f);
    }
  }

  /** Another delivery of the shred: it is noted exactly when it decides. */
  lemma NotedDecides(feeds: Feeds, rxs: seq<Rx>, rx: Rx, k: Key, duels: map<Key, Duel>)
    requires Tells(feeds, rxs, k, duels) && KeyOfRx(rx) == k
    ensures var all := rxs + [rx];
            if k !in duels then IsFirst(all, k, |rxs|)
            else if duels[k].second.None? && duels[k].first.feed != feeds(rx.group) then IsRival(feeds, all, k, |rxs|)
            else !Decides(feeds, all, k, |rxs|)
  {
    hide KeyOfRx;
    var all, n := rxs + [rx], |rxs|;
    assert all[n] == rx && forall j | 0 <= j < n :: all[j] == rxs[j];
    if k in duels {
      var f :| 0 <= f < |rxs| && IsFirst(rxs, k, f) && duels[k].first == SeenOf(feeds, rxs[f]);
      FirstStays(rxs, rx, k, f);
      assert !IsFirst(all, k, n);
      if duels[k].second.Some? {
        var r :| 0 <= r < |rxs| && IsRival(feeds, rxs, k, r) && duels[k].second == Some(SeenOf(feeds, rxs[r]));
        RivalFeed(feeds, rxs, k, f, r);
        NoSecondRival(feeds, all, k, r, n, f);
      } else if duels[k].first.feed == feeds(rx.group) {
        OnlyOneFeed(feeds, all, k, f);
      }
    }
  }

  lemma RivalFeed(feeds: Feeds, rxs: seq<Rx>, k: Key, f: int, r: int)
    requires IsFirst(rxs, k, f) && IsRival(feeds, rxs, k, r)
    ensures f < r && feeds(rxs[r].group) != feeds(rxs[f].group)
  {
    hide KeyOfRx;
  }

  lemma NoSecondRival(feeds: Feeds, rxs: seq<Rx>, k: Key, r: int, n: int, f: int)
    requires 0 <= f < r < n < |rxs| && IsFirst(rxs, k, f) && KeyOfRx(rxs[r]) == k && feeds(rxs[r].group) != feeds(rxs[f].group)
    ensures !IsRival(feeds, rxs, k, n)
  {
    hide KeyOfRx;
  }

  lemma OnlyOneFeed(feeds: Feeds, rxs: seq<Rx>, k: Key, f: int)
    requires rxs != [] && IsFirst(rxs, k, f) && feeds(rxs[|rxs| - 1].group) == feeds(rxs[f].group)
    ensures !IsRival(feeds, rxs, k, |rxs| - 1)
  {
    hide KeyOfRx;
  }

  lemma OtherTells(feeds: Feeds, rxs: seq<Rx>, rx: Rx, k: Key, duels: map<Key, Duel>, next: map<Key, Duel>)
    requires Tells(feeds, rxs, k, duels) && (k in next <==> k in duels) && (k in duels ==> next[k] == duels[k])
    requires KeyOfRx(rx) != k || (k in duels && (duels[k].second.Some? || duels[k].first.feed == feeds(rx.group)))
    ensures Tells(feeds, rxs + [rx], k, next)
  {
    hide KeyOfRx, IsFirst, IsRival, SeenOf;
    var all := rxs + [rx];
    assert all[|rxs|] == rx && forall j | 0 <= j < |rxs| :: all[j] == rxs[j];
    if k in duels {
      var f :| 0 <= f < |rxs| && IsFirst(rxs, k, f) && duels[k].first == SeenOf(feeds, rxs[f]);
      FirstStays(rxs, rx, k, f);
      if duels[k].second.Some? {
        var r :| 0 <= r < |rxs| && IsRival(feeds, rxs, k, r) && duels[k].second == Some(SeenOf(feeds, rxs[r]));
        RivalStays(feeds, rxs, rx, k, r);
      }
    }
  }

  lemma NotedTells(feeds: Feeds, rxs: seq<Rx>, rx: Rx, k: Key, duels: map<Key, Duel>)
    requires Tells(feeds, rxs, k, duels)
    ensures Tells(feeds, rxs + [rx], k, Note(duels, KeyOfRx(rx), SeenOf(feeds, rx)))
  {
    hide KeyOfRx, IsFirst, IsRival;
    var all, next := rxs + [rx], Note(duels, KeyOfRx(rx), SeenOf(feeds, rx));
    assert all[|rxs|] == rx;
    if KeyOfRx(rx) != k || (k in duels && (duels[k].second.Some? || duels[k].first.feed == feeds(rx.group))) {
      OtherTells(feeds, rxs, rx, k, duels, next);
    } else {
      NotedDecides(feeds, rxs, rx, k, duels);
      if k in duels {
        var f :| 0 <= f < |rxs| && IsFirst(rxs, k, f) && duels[k].first == SeenOf(feeds, rxs[f]);
        FirstStays(rxs, rx, k, f);
        assert all[f] == rxs[f];
      }
    }
  }

  lemma {:induction false} AllDuelsTell(feeds: Feeds, rxs: seq<Rx>, k: Key)
    ensures Tells(feeds, rxs, k, AllDuels(feeds, rxs))
  {
    if rxs != [] {
      hide Note, KeyOfRx, IsFirst, IsRival, SeenOf;
      var front, rx := rxs[..|rxs| - 1], rxs[|rxs| - 1];
      assert rxs == front + [rx];
      AllDuelsTell(feeds, front, k);
      NotedTells(feeds, front, rx, k, AllDuels(feeds, front));
    }
  }

  // ---- When they agree -----------------------------------------------------------------------

  ghost predicate Agree(d: map<Key, Duel>, e: map<Key, Duel>, k: Key) {
    (k in d <==> k in e) && (k in d ==> d[k] == e[k])
  }

  /** No coding shred decides the shred. */
  ghost predicate DataDecides(feeds: Feeds, rxs: seq<Rx>, k: Key) {
    forall i | 0 <= i < |rxs| && Decides(feeds, rxs, k, i) :: IsData(rxs[i])
  }

  lemma DataDecidesBefore(feeds: Feeds, rxs: seq<Rx>, rx: Rx, k: Key)
    requires DataDecides(feeds, rxs + [rx], k)
    ensures DataDecides(feeds, rxs, k) && (Decides(feeds, rxs + [rx], k, |rxs|) ==> IsData(rx))
  {
    hide KeyOfRx, IsFirst, IsRival, IsData;
    var all := rxs + [rx];
    assert all[|rxs|] == rx && forall j | 0 <= j < |rxs| :: all[j] == rxs[j];
    forall i | 0 <= i < |rxs| && Decides(feeds, rxs, k, i) ensures IsData(rxs[i]) {
      FirstStays(rxs, rx, k, i);
      RivalStays(feeds, rxs, rx, k, i);
      assert Decides(feeds, all, k, i);
    }
  }

  lemma {:induction false} DataAgrees(feeds: Feeds, rxs: seq<Rx>, k: Key)
    requires DataDecides(feeds, rxs, k)
    ensures Agree(Offline(feeds, rxs), AllDuels(feeds, rxs), k)
    decreases |rxs|
  {
    if rxs != [] {
      hide Offline, KeyOfRx, Decides, IsData, SeenOf, DataDecides;
      var front, rx := rxs[..|rxs| - 1], rxs[|rxs| - 1];
      assert rxs == front + [rx];
      DataDecidesBefore(feeds, front, rx, k);
      DataAgrees(feeds, front, k);
      OfflineStep(feeds, rxs);
      AllDuelsTell(feeds, front, k);
      SameNote(feeds, front, rx, k, Offline(feeds, front), AllDuels(feeds, front));
    } else {
      NothingOffline(feeds);
    }
  }

  lemma SameNote(feeds: Feeds, rxs: seq<Rx>, rx: Rx, k: Key, d: map<Key, Duel>, e: map<Key, Duel>)
    requires Agree(d, e, k) && Tells(feeds, rxs, k, e) && (Decides(feeds, rxs + [rx], k, |rxs|) ==> IsData(rx))
    ensures Agree(if IsData(rx) then Note(d, KeyOfRx(rx), SeenOf(feeds, rx)) else d, Note(e, KeyOfRx(rx), SeenOf(feeds, rx)), k)
  {
    hide KeyOfRx, IsFirst, IsRival, IsData, Tells;
    if KeyOfRx(rx) == k {
      NotedDecides(feeds, rxs, rx, k, e);
    }
  }

  /** Whatever the analyzer saw was a data shred. */
  ghost predicate FromData(feeds: Feeds, rxs: seq<Rx>, s: Seen) {
    exists i :: 0 <= i < |rxs| && IsData(rxs[i]) && s == SeenOf(feeds, rxs[i])
  }

  lemma FromDataStays(feeds: Feeds, rxs: seq<Rx>, rx: Rx, s: Seen)
    ensures FromData(feeds, rxs, s) ==> FromData(feeds, rxs + [rx], s)
    ensures IsData(rx) ==> FromData(feeds, rxs + [rx], SeenOf(feeds, rx))
  {
    hide IsData, SeenOf;
    var all := rxs + [rx];
    assert all[|rxs|] == rx && forall j | 0 <= j < |rxs| :: all[j] == rxs[j];
  }

  lemma {:induction false} OfflineFromData(feeds: Feeds, rxs: seq<Rx>, k: Key)
    requires k in Offline(feeds, rxs)
    ensures var d := Offline(feeds, rxs)[k];
            FromData(feeds, rxs, d.first) && (d.second.Some? ==> FromData(feeds, rxs, d.second.value))
    decreases |rxs|
  {
    hide Offline, KeyOfRx, IsData, SeenOf, FromData;
    NothingOffline(feeds);
    if rxs != [] {
      var front, rx := rxs[..|rxs| - 1], rxs[|rxs| - 1];
      assert rxs == front + [rx];
      OfflineStep(feeds, rxs);
      if k in Offline(feeds, front) {
        OfflineFromData(feeds, front, k);
        var d := Offline(feeds, front)[k];
        FromDataStays(feeds, front, rx, d.first);
        if d.second.Some? {
          FromDataStays(feeds, front, rx, d.second.value);
        }
      }
      FromDataStays(feeds, front, rx, SeenOf(feeds, rx));
    }
  }

  /** A coding shred that decides was noted by the race over all deliveries, and by its time can be told
      from whatever the analyzer noted. */
  lemma CodeDisagrees(feeds: Feeds, rxs: seq<Rx>, k: Key, i: nat)
    requires Orderly(rxs) && i < |rxs| && Decides(feeds, rxs, k, i) && !IsData(rxs[i])
    ensures !Agree(Offline(feeds, rxs), AllDuels(feeds, rxs), k)
  {
    hide Offline, AllDuels, IsData, KeyOfRx;
    AllDuelsTell(feeds, rxs, k);
    var e := AllDuels(feeds, rxs);
    NotedByAll(feeds, rxs, k, i, e);
    if Agree(Offline(feeds, rxs), e, k) {
      OfflineFromData(feeds, rxs, k);
      if e[k].first == SeenOf(feeds, rxs[i]) {
        NotFromData(feeds, rxs, i);
      } else {
        NotFromData(feeds, rxs, i);
      }
    }
  }

  lemma NotFromData(feeds: Feeds, rxs: seq<Rx>, i: nat)
    requires Orderly(rxs) && i < |rxs| && !IsData(rxs[i])
    ensures !FromData(feeds, rxs, SeenOf(feeds, rxs[i]))
  {
    hide IsData, KeyOfRx;
    forall j | 0 <= j < |rxs| && j != i ensures rxs[j].ns != rxs[i].ns {
      assert i < j ==> rxs[i].ns < rxs[j].ns;
      assert j < i ==> rxs[j].ns < rxs[i].ns;
    }
  }

  lemma OneRival(feeds: Feeds, rxs: seq<Rx>, k: Key, i: int, r: int, f: int)
    requires IsFirst(rxs, k, f) && IsRival(feeds, rxs, k, i) && IsRival(feeds, rxs, k, r)
    ensures i == r
  {
    hide KeyOfRx, IsFirst;
    RivalFeed(feeds, rxs, k, f, i);
    RivalFeed(feeds, rxs, k, f, r);
    if r < i {
      RivalAfter(feeds, rxs, k, f, r);
      NoSecondRival(feeds, rxs, k, r, i, f);
    } else if i < r {
      RivalAfter(feeds, rxs, k, f, i);
      NoSecondRival(feeds, rxs, k, i, r, f);
    }
  }

  lemma RivalAfter(feeds: Feeds, rxs: seq<Rx>, k: Key, f: int, r: int)
    requires IsFirst(rxs, k, f) && IsRival(feeds, rxs, k, r)
    ensures 0 <= f < |rxs| && 0 <= r < |rxs| && KeyOfRx(rxs[r]) == k
  {
  }

  lemma OneFirst(rxs: seq<Rx>, k: Key, i: int, f: int)
    requires IsFirst(rxs, k, i) && IsFirst(rxs, k, f)
    ensures i == f
  {
    hide KeyOfRx;
  }

  lemma DecidesIts(feeds: Feeds, rxs: seq<Rx>, k: Key, i: nat)
    requires i < |rxs| && Decides(feeds, rxs, k, i)
    ensures KeyOfRx(rxs[i]) == k
  {
  }

  lemma RivalIsOther(feeds: Feeds, rxs: seq<Rx>, k: Key, i: nat, f: int)
    requires i < |rxs| && 0 <= f < |rxs| && IsFirst(rxs, k, f) && IsRival(feeds, rxs, k, i)
    ensures feeds(rxs[i].group) != feeds(rxs[f].group) && KeyOfRx(rxs[i]) == k
  {
    RivalFeed(feeds, rxs, k, f, i);
  }

  lemma NotedByAll(feeds: Feeds, rxs: seq<Rx>, k: Key, i: nat, e: map<Key, Duel>)
    requires Tells(feeds, rxs, k, e) && i < |rxs| && Decides(feeds, rxs, k, i)
    ensures k in e && (e[k].first == SeenOf(feeds, rxs[i]) || e[k].second == Some(SeenOf(feeds, rxs[i])))
  {
    hide KeyOfRx, IsFirst, IsRival;
    DecidesIts(feeds, rxs, k, i);
    var f :| 0 <= f < |rxs| && IsFirst(rxs, k, f) && e[k].first == SeenOf(feeds, rxs[f]);
    if IsFirst(rxs, k, i) {
      OneFirst(rxs, k, i, f);
    } else {
      RivalIsOther(feeds, rxs, k, i, f);
      var r :| 0 <= r < |rxs| && IsRival(feeds, rxs, k, r) && e[k].second == Some(SeenOf(feeds, rxs[r]));
      OneRival(feeds, rxs, k, i, r, f);
    }
  }

  /** The analyzer's entry for a shred is the live one. */
  ghost predicate SameEntry(duels: map<Key, Duel>, races: map<Key, Race>, k: Key) {
    (k in duels <==> k in races) && (k in duels ==> SameRace(duels[k], races[k]))
  }

  /** The live race and the analyzer hold the same about a shred if and only if neither its first delivery
      nor the first from another feed is a coding shred. */
  lemma AgreesExactly(feeds: Feeds, rpc: Name, rxs: seq<Rx>, acts: seq<Act>, k: Key)
    requires Orderly(rxs) && LiveRun(feeds, rpc, rxs, acts)
    ensures SameEntry(Offline(feeds, rxs), Run(TwoFeeds(rpc), acts).races, k) <==> DataDecides(feeds, rxs, k)
  {
    hide Orderly, LiveRun, Run, Offline, AllDuels, Decides, IsData, Weigh, Total;
    RacesAgree(feeds, rpc, rxs, acts, r => 0);
    if DataDecides(feeds, rxs, k) {
      DataAgrees(feeds, rxs, k);
    } else {
      var i :| 0 <= i < |rxs| && Decides(feeds, rxs, k, i) && !IsData(rxs[i]);
      CodeDisagrees(feeds, rxs, k, i);
    }
  }

  // ---- Reports -------------------------------------------------------------------------------

  ghost predicate DataDecidesAll(feeds: Feeds, rxs: seq<Rx>) {
    forall k: Key :: DataDecides(feeds, rxs, k)
  }

  lemma OfflineIsAll(feeds: Feeds, rxs: seq<Rx>)
    requires DataDecidesAll(feeds, rxs)
    ensures Offline(feeds, rxs) == AllDuels(feeds, rxs)
  {
    hide Offline, AllDuels, DataDecides;
    var d, e := Offline(feeds, rxs), AllDuels(feeds, rxs);
    forall k: Key ensures (k in d <==> k in e) && (k in d ==> d[k] == e[k]) {
      DataAgrees(feeds, rxs, k);
    }
  }

  /** If data shreds decide, the live counters of every pair of feeds are the offline ones. */
  lemma OfflineAgreesWithLive(feeds: Feeds, rpc: Name, rxs: seq<Rx>, acts: seq<Act>, a: Name, b: Name)
    requires Orderly(rxs) && LiveRun(feeds, rpc, rxs, acts) && DataDecidesAll(feeds, rxs) && a < b
    ensures var duels, p := Offline(feeds, rxs), PairOf(Run(TwoFeeds(rpc), acts).pairs, (a, b));
            && p.aWins == |Beaten(duels, a, b)| && p.bWins == |Beaten(duels, b, a)|
            && p.leadCount == |Beaten(duels, a, b)| + |Beaten(duels, b, a)|
            && p.leadSumUs == Total(duels, PairLead(a, b))
  {
    hide Orderly, LiveRun, Run, Offline, AllDuels, DataDecidesAll, Total;
    OfflineIsAll(feeds, rxs);
    LiveCounters(feeds, rpc, rxs, acts, a, b);
  }

  ghost predicate Between(duels: map<Key, Duel>, a: Name, b: Name) {
    forall k | k in duels ::
      && duels[k].first.feed in {a, b}
      && (duels[k].second.Some? ==> duels[k].second.value.feed in {a, b} && duels[k].second.value.feed != duels[k].first.feed)
  }

  lemma {:induction false} DuelsBetween(feeds: Feeds, rxs: seq<Rx>, a: Name, b: Name)
    requires forall i | 0 <= i < |rxs| :: feeds(rxs[i].group) in {a, b}
    ensures Between(Offline(feeds, rxs), a, b)
    decreases |rxs|
  {
    NothingOffline(feeds);
    if rxs != [] {
      OfflineStep(feeds, rxs);
      hide Offline, KeyOfRx, IsData;
      DuelsBetween(feeds, rxs[..|rxs| - 1], a, b);
    }
  }

  /** With two feeds on the wire, the analyzer's report and the live pair agree: both feeds' wins, and
      the number of shreds matched. */
  lemma TwoFeedReportAgrees(feeds: Feeds, rpc: Name, rxs: seq<Rx>, acts: seq<Act>, a: Name, b: Name)
    requires Orderly(rxs) && LiveRun(feeds, rpc, rxs, acts) && DataDecidesAll(feeds, rxs) && a < b
    requires forall i | 0 <= i < |rxs| :: feeds(rxs[i].group) in {a, b}
    ensures var duels, p := Offline(feeds, rxs), PairOf(Run(TwoFeeds(rpc), acts).pairs, (a, b));
            && p.aWins == |WonBy(duels, a)| && p.bWins == |WonBy(duels, b)| && p.leadCount == |Matched(duels)|
  {
    hide Orderly, LiveRun, Offline, DataDecidesAll, Run;
    var duels := Offline(feeds, rxs);
    OfflineAgreesWithLive(feeds, rpc, rxs, acts, a, b);
    DuelsBetween(feeds, rxs, a, b);
    assert WonBy(duels, a) == Beaten(duels, a, b) && WonBy(duels, b) == Beaten(duels, b, a);
    assert Matched(duels) == Beaten(duels, a, b) + Beaten(duels, b, a);
    assert Beaten(duels, a, b) !! Beaten(duels, b, a);
  }

  // ---- From the ring -------------------------------------------------------------------------

  /** The ring holds the packets of the deliveries from the `m`-th on. */
  predicate HoldsFrom(ringCfg: CaptureModel.Config, rxs: seq<Rx>, m: nat)
    requires m <= |rxs|
  {
    var r := CaptureModel.Run(ringCfg, CaptureOf(rxs));
    CaptureModel.Readable(r) && CaptureModel.Contents(r) == CaptureOf(rxs[m..])
  }

  lemma CaptureSuffix(rxs: seq<Rx>, m: nat)
    requires m <= |rxs|
    ensures CaptureOf(rxs)[m..] == CaptureOf(rxs[m..])
  {
    hide InCapture;
  }

  /** It always does, for some `m`. */
  lemma RingHolds(ringCfg: CaptureModel.Config, rxs: seq<Rx>) returns (m: nat)
    ensures m <= |rxs| && HoldsFrom(ringCfg, rxs, m)
  {
    hide CaptureModel.Run, CaptureModel.CutUp, CaptureModel.Readable, CaptureModel.Contents, CaptureModel.Flat, CaptureModel.LostOf, InCapture;
    var stream := CaptureOf(rxs);
    var r, c := CaptureModel.Run(ringCfg, stream), CaptureModel.CutUp(ringCfg.maxBytes, stream);
    CaptureModel.RingKeepsSuffix(ringCfg, stream);
    m := |CaptureModel.Flat(CaptureModel.LostOf(r, c))|;
    assert stream[m..] == CaptureModel.Contents(r);
    CaptureSuffix(rxs, m);
  }

  /** The report on the files of the ring, read in order, is that of a live race of the deliveries still
      in it. */
  lemma RingReportAgrees(feeds: Feeds, rpc: Name, ringCfg: CaptureModel.Config, rxs: seq<Rx>, m: nat, acts: seq<Act>, a: Name, b: Name)
    requires m <= |rxs| && HoldsFrom(ringCfg, rxs, m) && a < b
    requires Orderly(rxs[m..]) && LiveRun(feeds, rpc, rxs[m..], acts) && DataDecidesAll(feeds, rxs[m..])
    ensures var duels := Duels(feeds, CaptureModel.Contents(CaptureModel.Run(ringCfg, CaptureOf(rxs))));
            var p := PairOf(Run(TwoFeeds(rpc), acts).pairs, (a, b));
            && p.aWins == |Beaten(duels, a, b)| && p.bWins == |Beaten(duels, b, a)|
            && p.leadCount == |Beaten(duels, a, b)| + |Beaten(duels, b, a)| && p.leadSumUs == Total(duels, PairLead(a, b))
  {
    hide Orderly, LiveRun, DataDecidesAll, Run, CaptureModel.Run, CaptureModel.Contents, CaptureModel.Readable, Total, Duels, CaptureOf;
    OfflineAgreesWithLive(feeds, rpc, rxs[m..], acts, a, b);
  }

  // ---- Coding shreds -------------------------------------------------------------------------

  /** One feed's coding shred and the other's data shred with the same slot and index are a finished race
      live and nothing offline. */
  lemma CodingShredsRaceLiveOnly(feeds: Feeds, rpc: Name, code: Rx, data: Rx)
    requires !IsData(code) && IsData(data) && KeyOfRx(code) == KeyOfRx(data) && feeds(code.group) != feeds(data.group)
    requires code.ns < data.ns && data.now < code.now + STALE_NS
    ensures var h1, h2 := HitOf(LiveEvent(feeds, code).a), HitOf(LiveEvent(feeds, data).a);
            var acts := [Act(LiveEvent(feeds, code), []), Act(LiveEvent(feeds, data), [h1, h2])];
            && Proper(TwoFeeds(rpc), acts) && RecordedBy(TwoFeeds(rpc), acts) == [Outcome(h1, h2)]
    ensures Matched(Offline(feeds, [code, data])) == {}
  {
    hide KeyOfRx, IsData, Proper, RecordedBy, Offline;
    LiveDuel(TwoFeeds(rpc), LiveEvent(feeds, code), LiveEvent(feeds, data));
    var rxs := [code, data];
    assert rxs[..1] == [code] && [code][..0] == [];
    OfflineStep(feeds, rxs);
    OfflineStep(feeds, [code]);
    NothingOffline(feeds);
  }

  /** Two arrivals of one shred from different feeds, in time. */
  lemma LiveDuel(cfg: Config, a: Event, b: Event)
    requires cfg.expected == 2 && a.Process? && b.Process? && a.gate && b.gate && KeyOf(a.a) == KeyOf(b.a)
    requires a.a.source != b.a.source && a.a.ns < b.a.ns && b.now < a.now + STALE_NS
    ensures var acts := [Act(a, []), Act(b, [HitOf(a.a), HitOf(b.a)])];
            Proper(cfg, acts) && RecordedBy(cfg, acts) == [Outcome(HitOf(a.a), HitOf(b.a))]
  {
    hide RecordAll, RecordArrival, RecordWin, Results;
    var hits := [HitOf(a.a), HitOf(b.a)];
    var acts := [Act(a, []), Act(b, hits)];
    var one := [Act(a, [])];
    assert acts[..0] == [] && acts[..1] == one && one[..|one| - 1] == [];
    var st := Run(cfg, one);
    assert Run(cfg, one[..0]) == Start;
    assert one[|one| - 1] == Act(a, []);
    assert st == Step(cfg, Start, a, []);
    assert st.races == map[KeyOf(a.a) := Race([HitOf(a.a)], a.now)];
    assert HitsAfter(st, b.a) == hits;
    assert Completes(cfg, st, b);
    PairOrder(hits, hits);
    assert !Completes(cfg, Start, a);
    assert RecordedBy(cfg, one) == [];
    assert RecordedBy(cfg, acts) == [] + Results(hits);
  }
}
