/** What the decoder reports about slots, over every run: coverage, the outcomes in its log, and the counters
    behind them; and which packets move the window or leave no trace. */
module DecoderReports {
  import opened Bytes
  import opened ShredWire
  import opened SlotModel
  import opened FecModel
  import opened DecoderModel
  import opened DecoderLives
  import opened DecoderCounts
  import opened Sums

  // ---- The window ------------------------------------------------------------------------------

  /** A packet raises the highest slot to its own if that is later, unless it is more than 1000 slots ahead of
      a highest slot already set. */
  lemma HighestExactly(env: Env, st: Dec, p: Packet)
    ensures Step(env, st, p).highest ==
              if p.slot > st.highest && (st.highest == 0 || p.slot <= st.highest + 1000) then p.slot else st.highest
  {
    hide FecOnCode, FecOnData, SlotOnRows, SlotOnData;
  }

  /** When it is raised, exactly the slots more than 32 behind it go, for numbers that do not wrap. */
  lemma ExpiredExactly(st: Dec, slot: u64, s: u64)
    requires s in st.slots.live && s + 32 < U64_SIZE
    ensures var a := Advance(st, slot);
            && (s in a.slots.live <==> a.highest == st.highest || s + 32 >= a.highest)
            && (s in a.slots.live ==> a.slots.live[s] == st.slots.live[s])
            && (s !in a.slots.live ==> s in a.slots.retired && a.slots.retired[s] == st.slots.live[s])
  {
    hide OutcomesAfter;
  }

  lemma SetExpiredExactly(st: Dec, slot: u64, k: FecKey)
    requires k in st.fecs.live && k.0 + 32 < U64_SIZE
    ensures var a := Advance(st, slot);
            && (k in a.fecs.live <==> a.highest == st.highest || k.0 + 32 >= a.highest)
            && (k in a.fecs.live ==> a.fecs.live[k] == st.fecs.live[k])
  {
    hide OutcomesAfter;
  }

  /** Apart from the window, these packets leave no trace: of a slot more than 32 behind, neither data nor
      coding shreds, and coding shreds whose position or dimensions do not fit their set. */
  predicate NoTrace(st: Dec, p: Packet) {
    || st.highest > p.slot + 32
    || p.body.Other?
    || (p.body.Code? && p.body.header.position >= p.body.header.numCoding)
    || (p.body.Code? && (p.slot, p.fecSet) in st.fecs.live
          && (st.fecs.live[(p.slot, p.fecSet)].numData != p.body.header.numData
              || st.fecs.live[(p.slot, p.fecSet)].numCoding != p.body.header.numCoding))
  }

  lemma NoTraceLeft(env: Env, st: Dec, p: Packet)
    requires NoTrace(Advance(st, p.slot), p)
    ensures Step(env, st, p) == Advance(st, p.slot)
  {
    hide Advance, SlotOnData, FecOnData, Solve, Hold;
  }

  /** And every other packet does: a data shred is counted, a coding shred is in its set's dimensions. */
  lemma TraceLeft(env: Env, st: Dec, p: Packet)
    requires !NoTrace(Advance(st, p.slot), p)
    ensures var a, r := Advance(st, p.slot), Step(env, st, p);
            match p.body
            case Data(_) => r.slots.coverageSeen == a.slots.coverageSeen + 1 && p.slot in r.slots.live
            case Code(h) => (p.slot, p.fecSet) in r.fecs.live && var f := r.fecs.live[(p.slot, p.fecSet)];
              f.numData == h.numData && f.numCoding == h.numCoding
            case Other => false
  {
    hide Advance, Deliver, SlotOnRows, FecOnData, Reconstructed, CompletionStats;
  }

  /** If set `k` is still there, row `i` is still the one it was, or the set was recovered and let all rows go. */
  ghost predicate KeepsRow(live: map<FecKey, Fec>, r: map<FecKey, Fec>, k: FecKey, i: nat)
    requires k in live && i in live[k].shards
  {
    k in r ==>
      if r[k].recovered && !live[k].recovered then r[k].shards == map[]
      else i in r[k].shards && r[k].shards[i] == live[k].shards[i]
  }

  lemma DataKeepsRow(fs: FecSide, p: Packet, k: FecKey, i: nat)
    requires k in fs.live && i in fs.live[k].shards
    ensures KeepsRow(fs.live, FecOnData(fs, p).live, k, i)
  {
  }

  lemma SolveKeepsRow(code: Code, fs: FecSide, key: FecKey, k: FecKey, i: nat)
    requires k in fs.live && i in fs.live[k].shards && key in fs.live
    ensures KeepsRow(fs.live, Solve(code, fs, key).0.live, k, i)
  {
    hide Reconstructed;
  }

  lemma CodeKeepsRow(code: Code, fs: FecSide, p: Packet, h: CodeHeader, k: FecKey, i: nat)
    requires k in fs.live && i in fs.live[k].shards
    ensures KeepsRow(fs.live, FecOnCode(code, fs, p, h).0.live, k, i)
  {
    hide Solve;
    var key := (p.slot, p.fecSet);
    var made := Create(fs, key, h);
    var held := made.(live := made.live[key := Hold(made.live[key], h.numData + h.position, p.shard)]);
    SolveKeepsRow(code, held, key, k, i);
  }

  lemma AdvanceKeepsRow(st: Dec, slot: u64, k: FecKey)
    requires k in st.fecs.live
    ensures var r := Advance(st, slot).fecs.live; k in r ==> r[k] == st.fecs.live[k]
  {
    hide OutcomesAfter, RetiredAfter, Lost, LostPartial;
  }

  /** A row that a set holds stays the one that came first, until the set is recovered and lets all go. */
  lemma HeldRowsStay(env: Env, st: Dec, p: Packet, k: FecKey, i: nat)
    requires k in st.fecs.live && i in st.fecs.live[k].shards
    ensures k in Advance(st, p.slot).fecs.live ==> KeepsRow(st.fecs.live, Step(env, st, p).fecs.live, k, i)
  {
    hide Advance, FecOnCode, FecOnData, SlotOnRows, SlotOnData;
    var a := Advance(st, p.slot);
    AdvanceKeepsRow(st, p.slot, k);
    if k in a.fecs.live {
      match p.body
      case Code(h) => CodeKeepsRow(env.code, a.fecs, p, h, k, i);
      case Data(_) => DataKeepsRow(a.fecs, p, k, i);
      case Other =>
    }
  }

  // ---- Coverage ----------------------------------------------------------------------------------

  /** The data shreds that came while their slot was not more than 32 behind. */
  function DataHandled(env: Env, ps: seq<Packet>): (n: nat) {
    if ps == [] then 0 else
    var p := ps[|ps| - 1];
    DataHandled(env, ps[..|ps| - 1]) + if p.body.Data? && Run(env, ps).highest <= p.slot + 32 then 1 else 0
  }

  lemma ActCovers(env: Env, st: Dec, p: Packet)
    ensures var r := Act(env, st, p);
            && r.highest == st.highest
            && r.slots.coverageSeen - r.slots.fecRecovered ==
                 st.slots.coverageSeen - st.slots.fecRecovered + if p.body.Data? then 1 else 0
  {
    hide Deliver, Recover, FecOnCode, FecOnData, CompletionStats;
  }

  lemma AdvanceCoversSame(st: Dec, slot: u64)
    ensures var a := Advance(st, slot); a.slots.coverageSeen == st.slots.coverageSeen && a.slots.fecRecovered == st.slots.fecRecovered
  {
    hide OutcomesAfter, RetiredAfter;
  }

  /** Over every run, the shreds counted for coverage are the data shreds handled and those recovered. */
  lemma {:induction false} RunCoverage(env: Env, ps: seq<Packet>)
    ensures Run(env, ps).slots.coverageSeen == DataHandled(env, ps) + Run(env, ps).slots.fecRecovered
  {
    if ps != [] {
      hide Act, Advance;
      var front, p := ps[..|ps| - 1], ps[|ps| - 1];
      RunCoverage(env, front);
      AdvanceCoversSame(Run(env, front), p.slot);
      ActCovers(env, Advance(Run(env, front), p.slot), p);
    }
  }

  // ---- Outcomes ------------------------------------------------------------------------------------

  /** What the log gets when the slot is complete: the shreds counted with the packet that completed it, and the
      transactions decoded before. */
  function CompletionOf(env: Env, ps: seq<Packet>, s: u64): (r: seq<SlotStats>) {
    if ps == [] then [] else
    var front := ps[..|ps| - 1];
    var before, after := SlotEver(Run(env, front).slots, s), SlotEver(Run(env, ps).slots, s);
    CompletionOf(env, front, s) +
      if after.counted && !before.counted
      then [SlotStats(s, after.shredsSeen, after.fecRecovered, before.txsDecoded, Complete)] else []
  }

  /** And when it expires first: what it had counted, as partial if it had decoded any transaction. */
  function ExpiryOf(ss: SlotSide, s: u64): (r: seq<SlotStats>) {
    if s in ss.retired && !ss.retired[s].counted then
      var x := ss.retired[s];
      [SlotStats(s, x.shredsSeen, x.fecRecovered, x.txsDecoded, if x.txsDecoded > 0 then Partial else Dropped)]
    else []
  }

  lemma RetiredAs(ss: SlotSide, gone: set<u64>, s: u64)
    ensures s in Retire(ss, gone).retired <==> s in ss.retired || (s in gone && s in ss.live)
    ensures s in Retire(ss, gone).retired ==>
              Retire(ss, gone).retired[s] == if s in gone && s in ss.live then ss.live[s] else ss.retired[s]
  {
    hide OutcomesAfter, Lost, LostPartial;
  }

  lemma RetireReports(ss: SlotSide, gone: set<u64>, s: u64)
    requires s in ss.live ==> s !in ss.retired && (!ss.live[s].counted ==> OutcomesOf(ss, s) == [])
    ensures var r := Retire(ss, gone);
            if ExpiryOf(ss, s) == [] then OutcomesOf(r, s) == OutcomesOf(ss, s) + ExpiryOf(r, s)
            else OutcomesOf(r, s) == OutcomesOf(ss, s) && ExpiryOf(r, s) == ExpiryOf(ss, s)
  {
    hide Retire;
    OutcomesOfRetired(ss, gone, s);
    RetiredAs(ss, gone, s);
  }

  lemma AdvanceReports(st: Dec, slot: u64, s: u64)
    requires OneLife(st.slots, st.highest, s)
    ensures var a := Advance(st, slot);
            if ExpiryOf(st.slots, s) == [] then OutcomesOf(a.slots, s) == OutcomesOf(st.slots, s) + ExpiryOf(a.slots, s)
            else OutcomesOf(a.slots, s) == OutcomesOf(st.slots, s) && ExpiryOf(a.slots, s) == ExpiryOf(st.slots, s)
  {
    hide Retire, ExpiryOf, OutcomesOf;
    RetireReports(st.slots, Gone(st.slots.live, slot), s);
  }

  lemma ActReportsOthers(env: Env, st: Dec, p: Packet, s: u64)
    requires p.slot != s
    ensures var r := Act(env, st, p);
            OutcomesOf(r.slots, s) == OutcomesOf(st.slots, s) && ExpiryOf(r.slots, s) == ExpiryOf(st.slots, s)
  {
    hide Deliver, Recover, FecOnCode, FecOnData, CompletionStats, ExpiryStats;
  }

  lemma ActReportsOwn(env: Env, st: Dec, p: Packet)
    requires p.slot !in st.slots.retired
    ensures var r, s := Act(env, st, p), p.slot;
            && ExpiryOf(r.slots, s) == ExpiryOf(st.slots, s) == []
            && var before, after := SlotEver(st.slots, s), SlotEver(r.slots, s);
            && OutcomesOf(r.slots, s) == OutcomesOf(st.slots, s) +
                 if after.counted && !before.counted
                 then [SlotStats(s, after.shredsSeen, after.fecRecovered, before.txsDecoded, Complete)] else []
  {
    hide Deliver, Recover, FecOnCode, FecOnData;
    ActOnEver(env, st, p);
  }

  lemma LivesBeforeAct(env: Env, front: seq<Packet>, slot: u64, s: u64)
    requires NoWrap(s)
    ensures var st, a := Run(env, front), Advance(Run(env, front), slot);
            OneLife(st.slots, st.highest, s) && OneLife(a.slots, a.highest, s) && SlotEver(a.slots, s) == SlotEver(st.slots, s)
  {
    hide OneLife, Advance, SlotEver;
    var st := Run(env, front);
    RunAccounted(env, front);
    assert OneLife(st.slots, st.highest, s);
    AdvanceAccounted(st, slot);
    assert OneLife(Advance(st, slot).slots, Advance(st, slot).highest, s);
    AdvanceKeepsEver(st, slot, s);
  }

  /** Over every run, each slot number that does not wrap has in the log exactly its completion, if it was ever
      complete, or else, once expired, its expiry. */
  lemma {:induction false} RunReports(env: Env, ps: seq<Packet>, s: u64)
    requires NoWrap(s)
    ensures OutcomesOf(Run(env, ps).slots, s) == CompletionOf(env, ps, s) + ExpiryOf(Run(env, ps).slots, s)
  {
    hide Act, Advance, OutcomesOf, ExpiryOf, OneLife, SlotEver, NoWrap;
    if ps == [] {
      NothingReported(s);
    } else {
      var front, p := ps[..|ps| - 1], ps[|ps| - 1];
      var st := Run(env, front);
      var a := Advance(st, p.slot);
      RunReports(env, front, s);
      LivesBeforeAct(env, front, p.slot, s);
      AdvanceReports(st, p.slot, s);
      if !TooOld(a.highest, p.slot) {
        if p.slot == s {
          NotRetired(a.slots, a.highest, s);
          ActReportsOwn(env, a, p);
        } else {
          ActReportsOthers(env, a, p, s);
          ActKeepsOthers(env, a, p, s);
        }
      }
    }
  }

  lemma NothingReported(s: u64)
    ensures OutcomesOf(Init.slots, s) == [] && ExpiryOf(Init.slots, s) == []
  {
  }

  // ---- The counters behind the log -----------------------------------------------------------------

  function IsComplete(s: Slot): (r: int) { if s.counted then 1 else 0 }
  function IsPartial(s: Slot): (r: int) { if !s.counted && s.txsDecoded > 0 then 1 else 0 }
  function IsDropped(s: Slot): (r: int) { if !s.counted && s.txsDecoded == 0 then 1 else 0 }

  /** The counters are the slots of each kind: attempted ones, complete ones, and those that expired without
      being complete, with and without transactions. */
  ghost predicate KindsCounted(ss: SlotSide) {
    && ss.live.Keys !! ss.retired.Keys
    && ss.attempted == |ss.live| + |ss.retired|
    && ss.complete == Total(ss.live, IsComplete) + Total(ss.retired, IsComplete)
    && ss.partial == Total(ss.retired, IsPartial) && ss.dropped == Total(ss.retired, IsDropped)
  }

  function Moving(live: map<u64, Slot>, gone: set<u64>): (m: map<u64, Slot>) {
    map s | s in gone && s in live :: live[s]
  }

  lemma MovedTotals(live: map<u64, Slot>, retired: map<u64, Slot>, gone: set<u64>, f: Slot -> int)
    requires live.Keys !! retired.Keys && gone <= live.Keys
    ensures Total(RetiredAfter(live, retired, gone), f) == Total(retired, f) + Total(Moving(live, gone), f)
    ensures Total(live - gone, f) == Total(live, f) - Total(Moving(live, gone), f)
  {
    var none: map<u64, Slot> := map[];
    assert retired + Moving(live, gone) == RetiredAfter(live, retired, gone);
    assert none + Moving(live, gone) == Moving(live, gone) && Total(none, f) == 0;
    TotalMove(live, retired, gone, f);
    TotalMove(live, none, gone, f);
  }

  lemma MovingKinds(live: map<u64, Slot>, gone: set<u64>)
    ensures Total(Moving(live, gone), IsPartial) == |LostPartial(live, gone)|
    ensures Total(Moving(live, gone), IsDropped) == |Lost(live, gone) - LostPartial(live, gone)|
  {
    TotalIndicator(Moving(live, gone), IsPartial, LostPartial(live, gone));
    TotalIndicator(Moving(live, gone), IsDropped, Lost(live, gone) - LostPartial(live, gone));
  }

  lemma RetireCounts(ss: SlotSide, gone: set<u64>)
    requires KindsCounted(ss) && gone <= ss.live.Keys
    ensures KindsCounted(Retire(ss, gone))
  {
    hide RetiredAfter, OutcomesAfter, Lost, LostPartial, Moving, IsComplete, IsPartial, IsDropped;
    MovedTotals(ss.live, ss.retired, gone, IsComplete);
    MovedTotals(ss.live, ss.retired, gone, IsPartial);
    MovedTotals(ss.live, ss.retired, gone, IsDropped);
    MovingKinds(ss.live, gone);
    RetiredSizes(ss.live, ss.retired, gone);
  }

  lemma RetiredSizes(live: map<u64, Slot>, retired: map<u64, Slot>, gone: set<u64>)
    requires live.Keys !! retired.Keys && gone <= live.Keys
    ensures (live - gone).Keys !! RetiredAfter(live, retired, gone).Keys
    ensures |live - gone| + |RetiredAfter(live, retired, gone)| == |live| + |retired|
  {
    var left, right := live - gone, RetiredAfter(live, retired, gone);
    assert left.Keys == live.Keys - gone && right.Keys == retired.Keys + gone;
    assert |left| == |left.Keys| && |right| == |right.Keys| && |live| == |live.Keys| && |retired| == |retired.Keys|;
  }

  lemma PutCounts(ss: SlotSide, s: u64, after: Slot)
    requires KindsCounted(ss) && s !in ss.retired && (SlotOf(ss, s).counted ==> after.counted)
    ensures KindsCounted(PutSlot(ss, s, after))
  {
    hide CompletionStats;
    TotalPut(ss.live, IsComplete, s, after);
    assert ss.live[s := after].Keys == ss.live.Keys + {s};
    assert |ss.live[s := after]| == |ss.live[s := after].Keys| && |ss.live| == |ss.live.Keys|;
  }

  lemma ActCountsKinds(env: Env, st: Dec, p: Packet)
    requires KindsCounted(st.slots) && p.slot !in st.slots.retired
    ensures KindsCounted(Act(env, st, p).slots)
  {
    hide PutSlot, Deliver, Recover, FecOnCode, FecOnData, Direct;
    var ss, s := st.slots, SlotOf(st.slots, p.slot);
    match p.body
    case Code(h) =>
      var rows := FecOnCode(env.code, st.fecs, p, h).1;
      var n := AcceptRows(s, p.fecSet, rows).1;
      RecoverTallies(env.txLen, s, p.fecSet, rows);
      PutCounts(Cover(ss, n, n), p.slot, Recover(env.txLen, s, p.fecSet, rows));
    case Data(part) =>
      DeliverCounted(env, s, p.index, part);
      PutCounts(Cover(ss, 1, 0), p.slot, Deliver(env.txLen, s, p.index, part.payload, part.last));
    case Other =>
  }

  lemma DeliverCounted(env: Env, s: Slot, i: u32, part: DataPart)
    ensures s.counted ==> Deliver(env.txLen, s, i, part.payload, part.last).counted
  {
    SettleTallies(env.txLen, Direct(s, i, part.payload, part.last));
  }

  /** Over every run of numbers that do not wrap, the counters of attempted, complete, partial and dropped slots
      are the numbers of slots of each kind. */
  lemma {:induction false} RunCountsKinds(env: Env, ps: seq<Packet>)
    requires NoWraps(ps)
    ensures KindsCounted(Run(env, ps).slots)
  {
    hide Act, KindsCounted, Retire, OneLife;
    if ps == [] {
      NoKinds();
    } else {
      var front, p := ps[..|ps| - 1], ps[|ps| - 1];
      assert forall k | 0 <= k < |front| :: front[k] == ps[k];
      RunCountsKinds(env, front);
      var st := Run(env, front);
      RetireCounts(st.slots, Gone(st.slots.live, p.slot));
      LivesBeforeAct(env, front, p.slot, p.slot);
      var a := Advance(st, p.slot);
      if !TooOld(a.highest, p.slot) {
        NotRetired(a.slots, a.highest, p.slot);
        ActCountsKinds(env, a, p);
      }
    }
  }

  lemma NoKinds()
    ensures KindsCounted(Init.slots)
  {
  }
}
