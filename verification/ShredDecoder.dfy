/** The decoder itself: maps of mutable slot states and FEC sets, updated packet by packet. Every
    method is proved against the state machine of module DecoderModel. */
module ShredDecoders {
  import opened Bytes
  import opened EntryCodec
  import opened ShredWire
  import opened SlotModel
  import opened SlotStates
  import opened FecModel
  import opened FecSets
  import opened DecoderModel
  import opened DecoderLives
  import opened Sums
  import opened Metrics

  /** `r` is `ss` with slot `s` put, when its parts are; `mid` is the slot before it was settled. */
  lemma PutInParts(ss: SlotSide, s: u64, mid: Slot, after: Slot, r: SlotSide)
    requires mid.counted == SlotOf(ss, s).counted && mid.txsDecoded == SlotOf(ss, s).txsDecoded
    requires r.live == ss.live[s := after] && r.retired == ss.retired
    requires r.attempted == ss.attempted + if s in ss.live then 0 else 1
    requires r.partial == ss.partial && r.dropped == ss.dropped
    requires r.coverageSeen == ss.coverageSeen && r.fecRecovered == ss.fecRecovered
    requires r.txsDecoded == ss.txsDecoded + after.txsDecoded - mid.txsDecoded
    requires var done := after.counted && !mid.counted;
             && r.complete == ss.complete + (if done then 1 else 0)
             && r.outcomes == if done then ss.outcomes[s := OutcomesOf(ss, s) + [CompletionStats(s, mid, after)]] else ss.outcomes
    ensures r == PutSlot(ss, s, after)
  {
  }

  function Opened(ss: SlotSide, s: u64): (r: SlotSide) {
    ss.(attempted := ss.attempted + if s in ss.live then 0 else 1)
  }

  lemma PutUnsettled(ss: SlotSide, s: u64, mid: Slot, r: SlotSide)
    requires mid.counted == SlotOf(ss, s).counted && mid.txsDecoded == SlotOf(ss, s).txsDecoded
    requires r == Opened(ss, s).(live := ss.live[s := mid])
    ensures r == PutSlot(Cover(ss, 0, 0), s, mid)
  {
  }

  lemma OutcomesNone(live: map<u64, Slot>, outcomes: map<u64, seq<SlotStats>>)
    ensures OutcomesAfter(live, outcomes, {}) == outcomes
  {
  }

  lemma OutcomesSingle(live: map<u64, Slot>, outcomes: map<u64, seq<SlotStats>>, s: u64)
    requires s in live
    ensures OutcomesAfter(live, outcomes, {s}) ==
              if live[s].counted then outcomes
              else outcomes[s := (if s in outcomes then outcomes[s] else []) + [ExpiryStats(s, live[s])]]
  {
    LostSingle(live, s);
  }

  lemma RetiredSingle(live: map<u64, Slot>, retired: map<u64, Slot>, s: u64)
    requires s in live
    ensures RetiredAfter(live, retired, {s}) == retired[s := live[s]]
  {
  }

  lemma RetireNone(ss: SlotSide)
    ensures Retire(ss, {}) == ss
  {
    hide RetiredAfter, OutcomesAfter;
    assert Lost(ss.live, {}) == {} && LostPartial(ss.live, {}) == {};
    assert RetiredAfter(ss.live, ss.retired, {}) == ss.retired by {
      RetiredNone(ss.live, ss.retired);
    }
    OutcomesNone(ss.live, ss.outcomes);
    assert ss.live - {} == ss.live;
  }

  lemma RetiredNone(live: map<u64, Slot>, retired: map<u64, Slot>)
    ensures RetiredAfter(live, retired, {}) == retired
  {
  }

  lemma LostSingle(live: map<u64, Slot>, s: u64)
    requires s in live
    ensures Lost(live, {s}) == if live[s].counted then {} else {s}
    ensures LostPartial(live, {s}) == if !live[s].counted && live[s].txsDecoded > 0 then {s} else {}
  {
  }

  /** What retiring a single slot comes to. */
  lemma RetireSingle(ss: SlotSide, s: u64, r: SlotSide)
    requires s in ss.live
    requires r.live == ss.live - {s} && r.retired == ss.retired[s := ss.live[s]]
    requires r == ss.(live := r.live, partial := r.partial, dropped := r.dropped, retired := r.retired, outcomes := r.outcomes)
    requires if ss.live[s].counted then r.partial == ss.partial && r.dropped == ss.dropped && r.outcomes == ss.outcomes
             else r.outcomes == ss.outcomes[s := OutcomesOf(ss, s) + [ExpiryStats(s, ss.live[s])]]
                  && r.partial == ss.partial + (if ss.live[s].txsDecoded > 0 then 1 else 0)
                  && r.dropped == ss.dropped + (if ss.live[s].txsDecoded > 0 then 0 else 1)
    ensures r == Retire(ss, {s})
  {
    hide Lost, LostPartial, RetiredAfter, OutcomesAfter;
    LostSingle(ss.live, s);
    RetiredSingle(ss.live, ss.retired, s);
    OutcomesSingle(ss.live, ss.outcomes, s);
  }

  lemma LostSplit(live: map<u64, Slot>, gone: set<u64>, s: u64)
    requires s in live && s !in gone
    ensures |Lost(live, gone + {s})| == |Lost(live, gone)| + |Lost(live - gone, {s})|
    ensures |LostPartial(live, gone + {s})| == |LostPartial(live, gone)| + |LostPartial(live - gone, {s})|
  {
    assert Lost(live, gone + {s}) == Lost(live, gone) + Lost(live - gone, {s});
    assert LostPartial(live, gone + {s}) == LostPartial(live, gone) + LostPartial(live - gone, {s});
  }

  lemma LostMinusPartial(live: map<u64, Slot>, gone: set<u64>)
    ensures |Lost(live, gone) - LostPartial(live, gone)| == |Lost(live, gone)| - |LostPartial(live, gone)|
  {
    assert LostPartial(live, gone) <= Lost(live, gone);
  }

  lemma RetiredSplit(live: map<u64, Slot>, retired: map<u64, Slot>, gone: set<u64>, s: u64)
    requires s in live && s !in gone
    ensures RetiredAfter(live - gone, RetiredAfter(live, retired, gone), {s}) == RetiredAfter(live, retired, gone + {s})
  {
    MoveOneMore(live, retired, gone, s);
  }

  lemma LostIn(live: map<u64, Slot>, gone: set<u64>, s: u64, t: u64)
    requires s in live && s !in gone
    ensures t in Lost(live, gone + {s}) <==> t in Lost(live, gone) || t in Lost(live - gone, {s})
    ensures (t in Lost(live, gone) ==> t in gone) && (t in Lost(live - gone, {s}) ==> t == s)
  {
  }

  lemma OutcomesSplit(live: map<u64, Slot>, outcomes: map<u64, seq<SlotStats>>, gone: set<u64>, s: u64)
    requires s in live && s !in gone
    ensures OutcomesAfter(live - gone, OutcomesAfter(live, outcomes, gone), {s}) == OutcomesAfter(live, outcomes, gone + {s})
  {
    hide ExpiryStats, Lost;
    var once := OutcomesAfter(live, outcomes, gone);
    var twice, both := OutcomesAfter(live - gone, once, {s}), OutcomesAfter(live, outcomes, gone + {s});
    forall t: u64 ensures (t in twice <==> t in both) && (t in both ==> twice[t] == both[t]) {
      LostIn(live, gone, s, t);
    }
  }

  /** Slots can be retired one after the other. */
  lemma RetireSplit(ss: SlotSide, gone: set<u64>, s: u64)
    requires s in ss.live && s !in gone
    ensures s in Retire(ss, gone).live
    ensures Retire(Retire(ss, gone), {s}) == Retire(ss, gone + {s})
  {
    hide Lost, LostPartial, RetiredAfter, OutcomesAfter;
    LostSplit(ss.live, gone, s);
    LostMinusPartial(ss.live, gone);
    LostMinusPartial(ss.live - gone, {s});
    LostMinusPartial(ss.live, gone + {s});
    RetiredSplit(ss.live, ss.retired, gone, s);
    OutcomesSplit(ss.live, ss.outcomes, gone, s);
    assert (ss.live - gone) - {s} == ss.live - (gone + {s});
  }

  /** A slot flushed and marked, not yet deserialized. */
  function Marked(m: Slot): (r: Slot) {
    Flush(m).(counted := Flush(m).counted || ReadyToComplete(Flush(m)))
  }

  lemma SettleInParts(txLen: TxLen, m: Slot, s: u64)
    ensures var f, c, r := Flush(m), Marked(m), Settle(txLen, m);
            && r == Deserialize(txLen, c) && f.counted == m.counted
            && r.counted == (m.counted || ReadyToComplete(f)) && (ReadyToComplete(f) ==> !m.counted)
            && r.txsDecoded == m.txsDecoded + |Pending(txLen, c).txs| && c.txsDecoded == m.txsDecoded
            && CompletionStats(s, m, r) == SlotStats(s, f.shredsSeen, f.fecRecovered, f.txsDecoded, Complete)
  {
    FlushFrame(m);
  }

  lemma {:induction false} AcceptRowsKeepsTxs(s: Slot, fecSet: nat, rows: seq<Row>)
    ensures AcceptRows(s, fecSet, rows).0.txsDecoded == s.txsDecoded
  {
    if rows != [] {
      AcceptRowsKeepsTxs(s, fecSet, rows[..|rows| - 1]);
    }
  }

  lemma DeliverInParts(txLen: TxLen, s: Slot, i: nat, part: DataPart)
    ensures var d := Direct(s, i, part.payload, part.last);
            && d.counted == s.counted && d.txsDecoded == s.txsDecoded
            && Deliver(txLen, s, i, part.payload, part.last) == Settle(txLen, d)
  {
  }

  lemma RecoverInParts(txLen: TxLen, s: Slot, fecSet: nat, rows: seq<Row>)
    ensures var (t, n) := AcceptRows(s, fecSet, rows);
            && t.counted == s.counted && t.txsDecoded == s.txsDecoded && CountRows(t, 0) == t
            && Recover(txLen, s, fecSet, rows) == if n == 0 then t else Settle(txLen, CountRows(t, n))
  {
    AcceptRowsTallies(s, fecSet, rows);
    AcceptRowsKeepsTxs(s, fecSet, rows);
  }

  class ShredDecoder {
    const env: Env
    const metrics: SourceMetrics
    var slots: map<u64, Slot>
    var fecSets: map<FecKey, Fec>
    var highestSlot: u64

    // History.
    ghost var retired: map<u64, Slot>
    ghost var outcomes: map<u64, seq<SlotStats>>
    ghost var retiredFecs: map<FecKey, Fec>
    ghost var created: multiset<FecKey>
    ghost var reconstructed: multiset<FecKey>

    /** The rolling log is up to date, and its history is the outcomes of every slot. */
    ghost predicate Valid()
      reads this`outcomes, metrics`slotLog, metrics`slotHistory
    {
      && metrics.LogValid()
      && forall s: u64 :: OutcomesIn(metrics.slotHistory, s) == if s in outcomes then outcomes[s] else []
    }

    ghost function Slots(): (r: SlotSide)
      reads this, metrics
    {
      SlotSide(slots, metrics.slotsAttempted, metrics.slotsComplete, metrics.slotsPartial, metrics.slotsDropped,
               metrics.coverageShredsSeen, metrics.fecRecoveredShreds, metrics.txsDecoded, retired, outcomes)
    }

    ghost function Fecs(): (r: FecSide)
      reads this, metrics
    {
      FecSide(fecSets, metrics.coverageShredsExpected, retiredFecs, created, reconstructed)
    }

    ghost function Model(): (r: Dec)
      reads this, metrics
    {
      Dec(Slots(), Fecs(), highestSlot)
    }

    constructor (env: Env)
      ensures this.env == env && Valid() && Model() == Init && fresh(metrics)
    {
      this.env, slots, fecSets, highestSlot := env, map[], map[], 0;
      retired, outcomes, retiredFecs, created, reconstructed := map[], map[], map[], multiset{}, multiset{};
      metrics := new SourceMetrics();
    }

    method LogOutcome(s: u64, stats: SlotStats)
      requires Valid() && stats.slot == s
      modifies this`outcomes, metrics`slotLog, metrics`slotHistory
      ensures Valid() && outcomes == old(outcomes)[s := old(OutcomesOf(Slots(), s)) + [stats]]
    {
      ghost var log, given := metrics.slotHistory, OutcomesOf(Slots(), s);
      metrics.PushSlotStats(stats);
      outcomes := outcomes[s := given + [stats]];
      forall t: u64 ensures OutcomesIn(metrics.slotHistory, t) == if t in outcomes then outcomes[t] else [] {
        OutcomesInAppend(log, stats, t);
      }
    }

    /** Flush, mark complete when due, decode and count what decoded. */
    method SettleSlot(s: u64, state: SlotState)
      requires Valid() && state.Valid()
      modifies state, this`outcomes, metrics`slotLog, metrics`slotHistory, metrics`slotsComplete, metrics`txsDecoded
      ensures Valid() && state.Valid()
      ensures var m, r := old(state.Model()), Settle(env.txLen, old(state.Model()));
              var done := r.counted && !m.counted;
              && state.Model() == r
              && metrics.slotsComplete == old(metrics.slotsComplete) + (if done then 1 else 0)
              && metrics.txsDecoded == old(metrics.txsDecoded) + r.txsDecoded - m.txsDecoded
              && outcomes == if done
                             then old(outcomes)[s := old(OutcomesOf(Slots(), s)) + [CompletionStats(s, m, r)]]
                             else old(outcomes)
    {
      hide Settle, Flush, Deserialize, Pending, Locate, Greedy, OutcomesIn;
      ghost var m := state.Model();
      SettleInParts(env.txLen, m, s);
      state.FlushContiguous();
      if state.lastSeen && state.nextContiguous > state.maxIndex && !state.counted {
        metrics.slotsComplete := metrics.slotsComplete + 1;
        state.counted := true;
        LogOutcome(s, SlotStats(s, state.shredsSeen, state.fecRecoveredCount, state.txsDecoded, Complete));
      }
      ghost var c := state.Model();
      assert c == Marked(m);
      var txs := state.TryDeserialize(env.txLen);
      state.txsDecoded := state.txsDecoded + |txs|;
      metrics.txsDecoded := metrics.txsDecoded + |txs|;
      assert state.Model() == Deserialize(env.txLen, c);
    }

    /** The state of a slot, created if need be. */
    method Open(s: u64) returns (state: SlotState)
      modifies metrics`slotsAttempted
      ensures fresh(state) && state.Valid() && state.Model() == SlotOf(old(Slots()), s)
      ensures Slots() == Opened(old(Slots()), s)
    {
      if s in slots {
        state := new SlotState(slots[s]);
      } else {
        metrics.slotsAttempted := metrics.slotsAttempted + 1;
        state := new SlotState(Empty);
      }
    }

    /** Count the data shreds that entered, settle the slot, and put it back into the map. */
    method Close(s: u64, state: SlotState, seen: nat, recovered: nat, ghost was: SlotSide)
      requires Valid() && state.Valid() && Slots() == Opened(was, s)
      requires state.counted == SlotOf(was, s).counted && state.txsDecoded == SlotOf(was, s).txsDecoded
      modifies state, this`slots, this`outcomes
      modifies metrics`slotsComplete, metrics`coverageShredsSeen, metrics`txsDecoded
      modifies metrics`slotLog, metrics`slotHistory, metrics`fecRecoveredShreds
      ensures Valid()
      ensures Slots() == PutSlot(Cover(was, seen, recovered), s, Settle(env.txLen, old(state.Model())))
    {
      hide Settle, PutSlot, CompletionStats, OutcomesIn, Retire, Run, Step;
      ghost var mid := state.Model();
      metrics.coverageShredsSeen := metrics.coverageShredsSeen + seen;
      metrics.fecRecoveredShreds := metrics.fecRecoveredShreds + recovered;
      SettleSlot(s, state);
      slots := slots[s := state.Model()];
      PutInParts(Cover(was, seen, recovered), s, mid, state.Model(), Slots());
    }

    /** The data shred path, as far as slots go. */
    method DeliverData(p: Packet, part: DataPart)
      requires Valid()
      modifies this`slots, this`outcomes
      modifies metrics`slotsAttempted, metrics`slotsComplete, metrics`coverageShredsSeen, metrics`txsDecoded
      modifies metrics`slotLog, metrics`slotHistory, metrics`fecRecoveredShreds
      ensures Valid() && Slots() == SlotOnData(env.txLen, old(Slots()), p, part)
    {
      hide Settle, Direct, Deliver, PutSlot, CompletionStats, OutcomesIn, Retire, Run, Step;
      ghost var was := Slots();
      DeliverInParts(env.txLen, SlotOf(was, p.slot), p.index, part);
      var state := Open(p.slot);
      state.InsertDirect(p.index, part);
      Close(p.slot, state, 1, 0, was);
    }

    /** Enter recovered rows into a slot, skipping indices it holds and rows that do not parse. */
    method InsertRows(state: SlotState, fecSet: u32, rows: seq<Row>) returns (n: nat)
      requires state.Valid()
      modifies state
      ensures state.Valid() && (state.Model(), n) == AcceptRows(old(state.Model()), fecSet, rows)
    {
      n := 0;
      for k := 0 to |rows|
        invariant state.Valid() && (state.Model(), n) == AcceptRows(old(state.Model()), fecSet, rows[..k])
      {
        assert rows[..k + 1][..k] == rows[..k];
        var i := GlobalIndex(fecSet, rows[k].position);
        if i !in state.dataPayloads {
          var part := ParseData(rows[k].shard);
          if part.Some? {
            state.Insert(i, part.value);
            n := n + 1;
          }
        }
      }
      assert rows[..|rows|] == rows;
    }

    /** The recovery path: what a reconstructed FEC set gives to its slot. */
    method DeliverRows(p: Packet, rows: seq<Row>)
      requires Valid()
      modifies this`slots, this`outcomes
      modifies metrics`slotsAttempted, metrics`slotsComplete, metrics`coverageShredsSeen, metrics`txsDecoded
      modifies metrics`slotLog, metrics`slotHistory, metrics`fecRecoveredShreds
      ensures Valid() && Slots() == SlotOnRows(env.txLen, old(Slots()), p, rows)
    {
      hide Settle, AcceptRows, Recover, PutSlot, CompletionStats, OutcomesIn, Retire, Run, Step;
      if rows == [] {
        return;
      }
      ghost var was := Slots();
      RecoverInParts(env.txLen, SlotOf(was, p.slot), p.fecSet, rows);
      var state := Open(p.slot);
      var n := InsertRows(state, p.fecSet, rows);
      if n == 0 {
        slots := slots[p.slot := state.Model()];
        PutUnsettled(was, p.slot, state.Model(), Slots());
      } else {
        state.shredsSeen := state.shredsSeen + n;
        state.fecRecoveredCount := state.fecRecoveredCount + n;
        Close(p.slot, state, n, n, was);
      }
    }

    /** Drop one expired slot. */
    method Drop(s: u64)
      requires Valid() && s in slots
      modifies this`slots, this`retired, this`outcomes
      modifies metrics`slotsPartial, metrics`slotsDropped, metrics`slotLog, metrics`slotHistory
      ensures Valid() && Slots() == Retire(old(Slots()), {s}) && slots == old(slots) - {s}
    {
      ghost var was := Slots();
      var state := slots[s];
      if !state.counted {
        if state.txsDecoded > 0 {
          metrics.slotsPartial := metrics.slotsPartial + 1;
          LogOutcome(s, SlotStats(s, state.shredsSeen, state.fecRecovered, state.txsDecoded, Partial));
        } else {
          metrics.slotsDropped := metrics.slotsDropped + 1;
          LogOutcome(s, SlotStats(s, state.shredsSeen, state.fecRecovered, 0, Dropped));
        }
      }
      slots := slots - {s};
      retired := retired[s := state];
      RetireSingle(was, s, Slots());
    }

    /** Keep the slots still within the window, in whatever order the map yields them. */
    method RetainSlots()
      requires Valid()
      modifies this`slots, this`retired, this`outcomes
      modifies metrics`slotsPartial, metrics`slotsDropped, metrics`slotLog, metrics`slotHistory
      ensures Valid() && Slots() == ExpireSlots(old(Slots()), highestSlot)
    {
      hide Retire, OutcomesIn, Run, Step;
      ghost var was := Slots();
      var todo := slots.Keys;
      ghost var gone: set<u64> := {};
      RetireNone(was);
      while todo != {}
        invariant Valid() && Slots() == Retire(was, gone)
        invariant todo <= slots.Keys && gone !! todo
        invariant forall s | s in was.live :: s in todo || (s in gone <==> !Keeps(s, highestSlot))
        invariant forall s | s in gone :: s in was.live
        decreases todo
      {
        var s :| s in todo;
        todo := todo - {s};
        if !Keeps(s, highestSlot) {
          RetireSplit(was, gone, s);
          Drop(s);
          gone := gone + {s};
        }
      }
      assert gone == Gone(was.live, highestSlot);
    }

    method RetainFecSets()
      modifies this`fecSets, this`retiredFecs
      ensures Fecs() == ExpireFecs(old(Fecs()), highestSlot)
    {
      ghost var gone := GoneFecs(fecSets, highestSlot);
      retiredFecs := retiredFecs + (map k | k in gone && k in fecSets :: fecSets[k]);
      fecSets := map k | k in fecSets && Keeps(k.0, highestSlot) :: fecSets[k];
      assert fecSets == old(fecSets) - gone;
    }

    /** A data shred adds its row to its FEC set if that set exists. */
    method HoldData(p: Packet)
      modifies this`fecSets
      ensures Fecs() == FecOnData(old(Fecs()), p)
    {
      var key := (p.slot, p.fecSet);
      if p.index >= p.fecSet && key in fecSets {
        var fec := new FecSet(fecSets[key]);
        fec.Add(p.index - p.fecSet, p.shard);
        fecSets := fecSets[key := fec.Model()];
      }
    }

    /** Reconstruct a FEC set that holds enough rows, once, and release its rows. */
    method TrySolve(key: FecKey) returns (rows: seq<Row>)
      requires key in fecSets
      modifies this`fecSets, this`reconstructed
      ensures (Fecs(), rows) == Solve(env.code, old(Fecs()), key)
    {
      hide Reconstructed;
      var fec := new FecSet(fecSets[key]);
      var ready := fec.ReadyToRecover();
      if !ready {
        return [];
      }
      rows := fec.Reconstruct(env.code);
      fec.shards := map[];
      reconstructed := reconstructed + multiset{key};
      fecSets := fecSets[key := fec.Model()];
    }

    /** A coding shred creates its FEC set if need be, adds its row, and reconstructs the set once it
        holds enough rows. */
    method HoldCode(p: Packet, h: CodeHeader) returns (rows: seq<Row>)
      modifies this`fecSets, this`created, this`reconstructed, metrics`coverageShredsExpected
      ensures (Fecs(), rows) == FecOnCode(env.code, old(Fecs()), p, h)
    {
      hide Solve;
      if h.position >= h.numCoding {
        return [];
      }
      var key := (p.slot, p.fecSet);
      if key !in fecSets {
        metrics.coverageShredsExpected := metrics.coverageShredsExpected + h.numData;
        fecSets := fecSets[key := NewFec(h.numData, h.numCoding)];
        created := created + multiset{key};
      }
      var fec := new FecSet(fecSets[key]);
      if fec.numData != h.numData || fec.numCoding != h.numCoding {
        return [];
      }
      fec.Add(h.numData + h.position, p.shard);
      fecSets := fecSets[key := fec.Model()];
      rows := TrySolve(key);
    }

    /** Raise the highest slot, unless the jump is implausible, and expire what falls behind. */
    method MoveWindow(slot: u64)
      requires Valid()
      modifies this`highestSlot, this`slots, this`retired, this`outcomes, this`fecSets, this`retiredFecs
      modifies metrics`slotsPartial, metrics`slotsDropped, metrics`slotLog, metrics`slotHistory
      ensures Valid() && Model() == Advance(old(Model()), slot)
    {
      hide Retire, OutcomesIn;
      if slot > highestSlot && (highestSlot == 0 || slot - highestSlot <= MAX_SLOT_JUMP) {
        highestSlot := slot;
        RetainSlots();
        RetainFecSets();
      }
    }

    /** What a packet does once the window has moved. */
    method Dispatch(p: Packet)
      requires Valid()
      modifies this, metrics
      ensures Valid() && Model() == Act(env, old(Model()), p)
    {
      hide SlotOnRows, SlotOnData, FecOnCode, FecOnData, OutcomesIn, OutcomesOf;
      match p.body
      case Code(h) =>
        var rows := HoldCode(p, h);
        DeliverRows(p, rows);
      case Data(part) =>
        HoldData(p);
        DeliverData(p, part);
      case Other =>
    }

    /** One packet, parsed. */
    method Handle(p: Packet)
      requires Valid()
      modifies this, metrics
      ensures Valid() && Model() == Step(env, old(Model()), p)
    {
      hide Act, OutcomesIn, Advance, OutcomesOf;
      MoveWindow(p.slot);
      if highestSlot > p.slot + SLOT_EXPIRY_DISTANCE {
        return;
      }
      Dispatch(p);
    }

    /** One received shred, raw. */
    method Receive(raw: seq<byte>)
      requires Valid()
      modifies this, metrics
      ensures Valid()
      ensures Model() == if Parse(raw).None? then old(Model()) else Step(env, old(Model()), Parse(raw).value)
    {
      var p := Parse(raw);
      if p.Some? {
        Handle(p.value);
      }
    }
  }
}
