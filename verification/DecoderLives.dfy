/** Over a whole run, every slot number and every FEC set has one life: it is created at most once,
    ends at most once, and the counters are totals over all lives. This needs slot numbers whose
    expiry distance does not wrap around u64; one that wraps can be given two outcomes. */
module DecoderLives {
  import opened Bytes
  import opened EntryCodec
  import opened ShredWire
  import opened SlotModel
  import opened SlotTheorems
  import opened FecModel
  import opened DecoderModel
  import opened DecoderInvariant
  import opened Sums

  predicate NoWrap(s: u64) {
    s + SLOT_EXPIRY_DISTANCE < U64_SIZE
  }

  // ---- What one slot operation leaves alone ---------------------------------------------

  lemma SettleTallies(txLen: TxLen, s: Slot)
    ensures var r := Settle(txLen, s);
            && (s.counted ==> r.counted) && r.fecRecovered == s.fecRecovered && r.shredsSeen == s.shredsSeen
            && r.hist.accepted == s.hist.accepted && r.hist.anchor == s.hist.anchor
  {
    FlushFrame(s);
    SettleFrame(txLen, s);
    DeserializeFrame(txLen, Flush(s).(counted := Flush(s).counted || ReadyToComplete(Flush(s))));
  }

  lemma {:induction false} AcceptRowsTallies(s: Slot, fecSet: nat, rows: seq<Row>)
    ensures var t := AcceptRows(s, fecSet, rows).0;
            && t.counted == s.counted && t.fecRecovered == s.fecRecovered && s.hist.accepted <= t.hist.accepted
            && (s.hist.anchor.Some? ==> t.hist.anchor == s.hist.anchor)
  {
    if rows != [] {
      AcceptRowsTallies(s, fecSet, rows[..|rows| - 1]);
    }
  }

  lemma RecoverTallies(txLen: TxLen, s: Slot, fecSet: nat, rows: seq<Row>)
    ensures var r := Recover(txLen, s, fecSet, rows);
            && (s.counted ==> r.counted)
            && r.fecRecovered == s.fecRecovered + AcceptRows(s, fecSet, rows).1
            && r.hist.accepted == AcceptRows(s, fecSet, rows).0.hist.accepted
            && r.hist.anchor == AcceptRows(s, fecSet, rows).0.hist.anchor
  {
    var (t, n) := AcceptRows(s, fecSet, rows);
    AcceptRowsTallies(s, fecSet, rows);
    SettleTallies(txLen, CountRows(t, n));
  }

  // ---- Slots ---------------------------------------------------------------------------

  /** A slot number is live or expired or neither, never two of them; it has one outcome once it
      is complete or expired, and none before. */
  ghost predicate OneLife(ss: SlotSide, highest: u64, s: u64) {
    if s in ss.live then s !in ss.retired && |OutcomesOf(ss, s)| == (if ss.live[s].counted then 1 else 0)
    else if s in ss.retired then s + SLOT_EXPIRY_DISTANCE < highest && |OutcomesOf(ss, s)| == 1
    else OutcomesOf(ss, s) == []
  }

  lemma OutcomesOfRetired(ss: SlotSide, gone: set<u64>, s: u64)
    ensures OutcomesOf(Retire(ss, gone), s) ==
              OutcomesOf(ss, s) + if s in Lost(ss.live, gone) then [ExpiryStats(s, ss.live[s])] else []
  {
  }

  lemma RetiredHas(ss: SlotSide, gone: set<u64>, s: u64)
    ensures s in Retire(ss, gone).retired <==> s in ss.retired || (s in gone && s in ss.live)
  {
  }

  lemma ExpireKeepsLife(ss: SlotSide, before: u64, highest: u64, s: u64)
    requires OneLife(ss, before, s) && NoWrap(s) && before <= highest
    ensures OneLife(ExpireSlots(ss, highest), highest, s)
  {
    hide RetiredAfter, OutcomesAfter;
    OutcomesOfRetired(ss, Gone(ss.live, highest), s);
    RetiredHas(ss, Gone(ss.live, highest), s);
  }

  lemma PutSlotKeepsLife(ss: SlotSide, highest: u64, at: u64, after: Slot, s: u64)
    requires OneLife(ss, highest, s) && !TooOld(highest, at) && (SlotOf(ss, at).counted ==> after.counted)
    ensures OneLife(PutSlot(ss, at, after), highest, s)
  {
  }

  /** Conservation and, for each slot number that does not wrap, one life. */
  ghost predicate SlotsAccounted(ss: SlotSide, highest: u64) {
    Conserved(ss) && forall s: u64 | NoWrap(s) :: OneLife(ss, highest, s)
  }

  lemma PutSlotAccounted(ss: SlotSide, highest: u64, at: u64, after: Slot)
    requires SlotsAccounted(ss, highest) && !TooOld(highest, at) && (SlotOf(ss, at).counted ==> after.counted)
    ensures SlotsAccounted(PutSlot(ss, at, after), highest)
  {
    PutSlotConserves(ss, at, after);
    forall s: u64 | NoWrap(s) ensures OneLife(PutSlot(ss, at, after), highest, s) {
      PutSlotKeepsLife(ss, highest, at, after, s);
    }
  }

  lemma AdvanceAccounted(st: Dec, slot: u64)
    requires SlotsAccounted(st.slots, st.highest)
    ensures SlotsAccounted(Advance(st, slot).slots, Advance(st, slot).highest)
  {
    var a := Advance(st, slot);
    if a.highest != st.highest {
      ExpireConserves(st.slots, slot);
      forall s: u64 | NoWrap(s) ensures OneLife(a.slots, a.highest, s) {
        ExpireKeepsLife(st.slots, st.highest, slot, s);
      }
    }
  }

  lemma CoverAccounted(ss: SlotSide, highest: u64, seen: nat, recovered: nat)
    requires SlotsAccounted(ss, highest)
    ensures SlotsAccounted(Cover(ss, seen, recovered), highest)
  {
    forall s: u64 | NoWrap(s) ensures OneLife(Cover(ss, seen, recovered), highest, s) {
      assert OneLife(ss, highest, s);
    }
  }

  lemma OnDataAccounted(txLen: TxLen, ss: SlotSide, highest: u64, p: Packet, part: DataPart)
    requires SlotsAccounted(ss, highest) && !TooOld(highest, p.slot)
    ensures SlotsAccounted(SlotOnData(txLen, ss, p, part), highest)
  {
    var s := SlotOf(ss, p.slot);
    SettleTallies(txLen, Direct(s, p.index, part.payload, part.last));
    CoverAccounted(ss, highest, 1, 0);
    PutSlotAccounted(Cover(ss, 1, 0), highest, p.slot, Deliver(txLen, s, p.index, part.payload, part.last));
  }

  lemma OnRowsAccounted(txLen: TxLen, ss: SlotSide, highest: u64, p: Packet, rows: seq<Row>)
    requires SlotsAccounted(ss, highest) && !TooOld(highest, p.slot)
    ensures SlotsAccounted(SlotOnRows(txLen, ss, p, rows), highest)
  {
    var s := SlotOf(ss, p.slot);
    var n := AcceptRows(s, p.fecSet, rows).1;
    RecoverTallies(txLen, s, p.fecSet, rows);
    CoverAccounted(ss, highest, n, n);
    PutSlotAccounted(Cover(ss, n, n), highest, p.slot, Recover(txLen, s, p.fecSet, rows));
  }

  lemma StepAccounted(env: Env, st: Dec, p: Packet)
    requires SlotsAccounted(st.slots, st.highest)
    ensures SlotsAccounted(Step(env, st, p).slots, Step(env, st, p).highest)
  {
    AdvanceAccounted(st, p.slot);
    var a := Advance(st, p.slot);
    if !TooOld(a.highest, p.slot) {
      match p.body
      case Code(h) => OnRowsAccounted(env.txLen, a.slots, a.highest, p, FecOnCode(env.code, a.fecs, p, h).1);
      case Data(part) => OnDataAccounted(env.txLen, a.slots, a.highest, p, part);
      case Other =>
    }
  }

  /** In every reachable state, attempted slots are the complete, partial, dropped and live
      uncounted ones; and no slot number below the wrap ever gets a second outcome or a second
      life. */
  lemma {:induction false} RunAccounted(env: Env, ps: seq<Packet>)
    ensures SlotsAccounted(Run(env, ps).slots, Run(env, ps).highest)
  {
    if ps == [] {
      assert Uncounted(Init.slots.live) == {};
    } else {
      RunAccounted(env, ps[..|ps| - 1]);
      StepAccounted(env, Run(env, ps[..|ps| - 1]), ps[|ps| - 1]);
    }
  }

  // ---- Totals over all lives -------------------------------------------------------------

  predicate NoWraps(ps: seq<Packet>) {
    forall k | 0 <= k < |ps| :: NoWrap(ps[k].slot)
  }

  ghost predicate KeysNoWrap(st: Dec) {
    && (forall s | s in st.slots.live || s in st.slots.retired :: NoWrap(s))
    && (forall k | k in st.fecs.live || k in st.fecs.retired :: NoWrap(k.0))
  }

  function Recovered(s: Slot): (r: int) { s.fecRecovered }
  function Decoded(s: Slot): (r: int) { s.txsDecoded }
  function DataRows(f: Fec): (r: int) { f.numData }

  ghost predicate SlotTotals(ss: SlotSide) {
    && ss.live.Keys !! ss.retired.Keys
    && ss.fecRecovered == Total(ss.live, Recovered) + Total(ss.retired, Recovered)
    && ss.txsDecoded == Total(ss.live, Decoded) + Total(ss.retired, Decoded)
  }

  lemma ExpireKeepsSlotTotals(ss: SlotSide, highest: u64)
    requires SlotTotals(ss)
    ensures SlotTotals(ExpireSlots(ss, highest))
  {
    TotalMove(ss.live, ss.retired, Gone(ss.live, highest), Recovered);
    TotalMove(ss.live, ss.retired, Gone(ss.live, highest), Decoded);
  }

  lemma PutSlotKeepsSlotTotals(ss: SlotSide, s: u64, seen: nat, after: Slot)
    requires SlotTotals(ss) && s !in ss.retired && after.fecRecovered >= SlotOf(ss, s).fecRecovered
    ensures SlotTotals(PutSlot(Cover(ss, seen, after.fecRecovered - SlotOf(ss, s).fecRecovered), s, after))
  {
    TotalPut(ss.live, Recovered, s, after);
    TotalPut(ss.live, Decoded, s, after);
  }

  lemma OnDataKeepsSlotTotals(txLen: TxLen, ss: SlotSide, p: Packet, part: DataPart)
    requires SlotTotals(ss) && p.slot !in ss.retired
    ensures SlotTotals(SlotOnData(txLen, ss, p, part))
  {
    var s := SlotOf(ss, p.slot);
    SettleTallies(txLen, Direct(s, p.index, part.payload, part.last));
    PutSlotKeepsSlotTotals(ss, p.slot, 1, Deliver(txLen, s, p.index, part.payload, part.last));
  }

  lemma OnRowsKeepsSlotTotals(txLen: TxLen, ss: SlotSide, p: Packet, rows: seq<Row>)
    requires SlotTotals(ss) && p.slot !in ss.retired
    ensures SlotTotals(SlotOnRows(txLen, ss, p, rows))
  {
    var s := SlotOf(ss, p.slot);
    RecoverTallies(txLen, s, p.fecSet, rows);
    PutSlotKeepsSlotTotals(ss, p.slot, AcceptRows(s, p.fecSet, rows).1, Recover(txLen, s, p.fecSet, rows));
  }

  // ---- FEC sets --------------------------------------------------------------------------

  predicate IsRecovered(fs: FecSide, k: FecKey) {
    (k in fs.live && fs.live[k].recovered) || (k in fs.retired && fs.retired[k].recovered)
  }

  /** A FEC set was created once if it is live or expired and never otherwise, and reconstructed
      once if it is marked recovered and never otherwise. */
  ghost predicate FecOneLife(fs: FecSide, highest: u64, k: FecKey) {
    && !(k in fs.live && k in fs.retired)
    && (k in fs.retired ==> k.0 + SLOT_EXPIRY_DISTANCE < highest)
    && fs.created[k] == (if k in fs.live || k in fs.retired then 1 else 0)
    && fs.reconstructed[k] == (if IsRecovered(fs, k) then 1 else 0)
  }

  lemma ExpireKeepsFecLife(fs: FecSide, before: u64, highest: u64, k: FecKey)
    requires FecOneLife(fs, before, k) && NoWrap(k.0) && before <= highest
    ensures FecOneLife(ExpireFecs(fs, highest), highest, k)
  {
  }

  lemma CreateKeepsFecLife(fs: FecSide, highest: u64, at: FecKey, h: CodeHeader, k: FecKey)
    requires FecOneLife(fs, highest, k) && !TooOld(highest, at.0)
    ensures FecOneLife(Create(fs, at, h), highest, k)
  {
  }

  lemma HoldKeepsFecLife(fs: FecSide, highest: u64, at: FecKey, f: Fec, k: FecKey)
    requires FecOneLife(fs, highest, k) && at in fs.live && f.recovered == fs.live[at].recovered
    ensures FecOneLife(fs.(live := fs.live[at := f]), highest, k)
  {
  }

  lemma SolveKeepsFecLife(code: Code, fs: FecSide, highest: u64, at: FecKey, k: FecKey)
    requires FecOneLife(fs, highest, k) && at in fs.live
    ensures FecOneLife(Solve(code, fs, at).0, highest, k)
  {
  }

  lemma OnCodeKeepsFecLife(code: Code, fs: FecSide, highest: u64, p: Packet, h: CodeHeader, k: FecKey)
    requires FecOneLife(fs, highest, k) && !TooOld(highest, p.slot)
    ensures FecOneLife(FecOnCode(code, fs, p, h).0, highest, k)
  {
    hide FecOneLife, Solve;
    var key := (p.slot, p.fecSet);
    var made := Create(fs, key, h);
    CreateKeepsFecLife(fs, highest, key, h, k);
    var f := Hold(made.live[key], h.numData + h.position, p.shard);
    HoldKeepsFecLife(made, highest, key, f, k);
    SolveKeepsFecLife(code, made.(live := made.live[key := f]), highest, key, k);
  }

  lemma OnDataKeepsFecLife(fs: FecSide, highest: u64, p: Packet, k: FecKey)
    requires FecOneLife(fs, highest, k)
    ensures FecOneLife(FecOnData(fs, p), highest, k)
  {
  }

  lemma StepKeepsFecLife(env: Env, st: Dec, p: Packet, k: FecKey)
    requires FecOneLife(st.fecs, st.highest, k) && NoWrap(k.0)
    ensures FecOneLife(Step(env, st, p).fecs, Step(env, st, p).highest, k)
  {
    var a := Advance(st, p.slot);
    if a.highest != st.highest {
      ExpireKeepsFecLife(st.fecs, st.highest, p.slot, k);
    }
    if !TooOld(a.highest, p.slot) {
      match p.body
      case Code(h) => OnCodeKeepsFecLife(env.code, a.fecs, a.highest, p, h, k);
      case Data(part) => OnDataKeepsFecLife(a.fecs, a.highest, p, k);
      case Other =>
    }
  }

  /** Whatever is sent, a FEC set of a slot that does not wrap is created at most once and
      reconstructed at most once in the whole run. */
  lemma {:induction false} EachFecSetOnce(env: Env, ps: seq<Packet>, k: FecKey)
    requires NoWrap(k.0)
    ensures FecOneLife(Run(env, ps).fecs, Run(env, ps).highest, k)
    ensures Run(env, ps).fecs.created[k] <= 1 && Run(env, ps).fecs.reconstructed[k] <= 1
  {
    if ps != [] {
      EachFecSetOnce(env, ps[..|ps| - 1], k);
      StepKeepsFecLife(env, Run(env, ps[..|ps| - 1]), ps[|ps| - 1], k);
    }
  }

  ghost predicate FecTotals(fs: FecSide) {
    fs.coverageExpected == Total(fs.live, DataRows) + Total(fs.retired, DataRows)
  }

  lemma ExpireKeepsFecTotals(fs: FecSide, highest: u64)
    requires FecTotals(fs) && fs.live.Keys !! fs.retired.Keys
    ensures FecTotals(ExpireFecs(fs, highest))
  {
    TotalMove(fs.live, fs.retired, GoneFecs(fs.live, highest), DataRows);
  }

  /** Replacing a set by one with the same number of data rows. */
  lemma ReplaceKeepsFecTotals(fs: FecSide, k: FecKey, f: Fec)
    requires FecTotals(fs) && k in fs.live && f.numData == fs.live[k].numData
    ensures FecTotals(fs.(live := fs.live[k := f]))
  {
    TotalPut(fs.live, DataRows, k, f);
  }

  lemma CreateKeepsFecTotals(fs: FecSide, key: FecKey, h: CodeHeader)
    requires FecTotals(fs)
    ensures FecTotals(Create(fs, key, h))
  {
    TotalPut(fs.live, DataRows, key, NewFec(h.numData, h.numCoding));
  }

  lemma SolveKeepsFecTotals(code: Code, fs: FecSide, key: FecKey)
    requires FecTotals(fs) && key in fs.live
    ensures FecTotals(Solve(code, fs, key).0)
  {
    hide Reconstructed;
    ReplaceKeepsFecTotals(fs, key, fs.live[key].(shards := map[], recovered := true));
  }

  lemma OnCodeKeepsFecTotals(code: Code, fs: FecSide, p: Packet, h: CodeHeader)
    requires FecTotals(fs)
    ensures FecTotals(FecOnCode(code, fs, p, h).0)
  {
    hide FecTotals, Solve;
    var key := (p.slot, p.fecSet);
    var made := Create(fs, key, h);
    CreateKeepsFecTotals(fs, key, h);
    var f := Hold(made.live[key], h.numData + h.position, p.shard);
    ReplaceKeepsFecTotals(made, key, f);
    SolveKeepsFecTotals(code, made.(live := made.live[key := f]), key);
  }

  ghost predicate Totals(st: Dec) {
    SlotTotals(st.slots) && FecTotals(st.fecs) && KeysNoWrap(st)
  }

  lemma AdvanceKeepsTotals(env: Env, ps: seq<Packet>, slot: u64)
    requires Totals(Run(env, ps))
    ensures Totals(Advance(Run(env, ps), slot))
  {
    var st := Run(env, ps);
    forall k | k in st.fecs.live ensures k !in st.fecs.retired {
      EachFecSetOnce(env, ps, k);
    }
    ExpireKeepsSlotTotals(st.slots, slot);
    ExpireKeepsFecTotals(st.fecs, slot);
  }

  lemma OnCodeKeepsFecKeys(code: Code, fs: FecSide, p: Packet, h: CodeHeader)
    requires NoWrap(p.slot) && forall k | k in fs.live || k in fs.retired :: NoWrap(k.0)
    ensures var r := FecOnCode(code, fs, p, h).0; forall k | k in r.live || k in r.retired :: NoWrap(k.0)
  {
    FecOnCodeAdds(code, fs, p, h);
    assert FecOnCode(code, fs, p, h).0.retired == fs.retired;
  }

  lemma ActKeepsKeys(env: Env, st: Dec, p: Packet)
    requires KeysNoWrap(st) && NoWrap(p.slot)
    ensures KeysNoWrap(Act(env, st, p))
  {
    if p.body.Code? {
      OnCodeKeepsFecKeys(env.code, st.fecs, p, p.body.header);
    }
  }

  lemma OnDataKeepsFecTotals(fs: FecSide, p: Packet)
    requires FecTotals(fs)
    ensures FecTotals(FecOnData(fs, p))
  {
    var key := (p.slot, p.fecSet);
    if key in fs.live && p.index >= p.fecSet {
      ReplaceKeepsFecTotals(fs, key, Hold(fs.live[key], p.index - p.fecSet, p.shard));
    }
  }

  lemma ActKeepsTotals(env: Env, st: Dec, p: Packet)
    requires Totals(st) && NoWrap(p.slot) && p.slot !in st.slots.retired
    ensures Totals(Act(env, st, p))
  {
    ActKeepsKeys(env, st, p);
    match p.body
    case Code(h) =>
      OnRowsKeepsSlotTotals(env.txLen, st.slots, p, FecOnCode(env.code, st.fecs, p, h).1);
      OnCodeKeepsFecTotals(env.code, st.fecs, p, h);
    case Data(part) =>
      OnDataKeepsSlotTotals(env.txLen, st.slots, p, part);
      OnDataKeepsFecTotals(st.fecs, p);
    case Other =>
  }

  /** Over a run without wrapping slots: the coverage denominator is the number of data rows of all
      FEC sets ever created, and the recovered and decoded counters are the sums over all slots
      ever attempted. */
  lemma {:induction false} RunTotals(env: Env, ps: seq<Packet>)
    requires NoWraps(ps)
    ensures Totals(Run(env, ps))
  {
    if ps != [] {
      var front, p := ps[..|ps| - 1], ps[|ps| - 1];
      RunTotals(env, front);
      AdvanceKeepsTotals(env, front, p.slot);
      var a := Advance(Run(env, front), p.slot);
      if !TooOld(a.highest, p.slot) {
        RunAccounted(env, front);
        AdvanceAccounted(Run(env, front), p.slot);
        assert OneLife(a.slots, a.highest, p.slot);
        ActKeepsTotals(env, a, p);
      }
    }
  }
}
