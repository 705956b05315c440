/** Recovery succeeds: once enough rows of a FEC set have come, counted from its first coding shred on, all
    of its data shreds are accepted. */
module DecoderRecovery {
  import opened Wrappers
  import opened Bytes
  import opened EntryCodec
  import opened ShredWire
  import opened SlotModel
  import opened SlotTheorems
  import opened FecModel
  import opened DecoderModel
  import opened DecoderInvariant
  import opened DecoderLives
  import opened DecoderCounts
  import opened DecoderHonest
  import opened DecoderEndToEnd

  predicate IsCodeOf(p: Packet, s: u64, f: u32) {
    p.slot == s && p.fecSet == f && p.body.Code? && p.body.header.position < p.body.header.numCoding
  }

  /** The row of set `f` that a packet carries. */
  function RowOf(p: Packet, s: u64, f: u32): (r: set<nat>) {
    if p.slot != s || p.fecSet != f then {} else
    match p.body
    case Data(_) => if p.index >= f then {p.index - f} else {}
    case Code(h) => if h.position < h.numCoding then {h.numData + h.position} else {}
    case Other => {}
  }

  function RowsOf(ps: seq<Packet>, s: u64, f: u32): (r: set<nat>) {
    if ps == [] then {} else RowsOf(ps[..|ps| - 1], s, f) + RowOf(ps[|ps| - 1], s, f)
  }

  // ---- What a live set says about its slot ---------------------------------------------------

  /** The data shred at position `i` of set `f` was accepted. */
  ghost predicate HasRow(ss: SlotSide, s: u64, f: u32, i: nat) {
    HasAccepted(ss, s, f + i)
  }

  /** The data rows that the set holds were accepted, and all of them once it is recovered. */
  ghost predicate Served(ss: SlotSide, fec: Fec, s: u64, f: u32) {
    forall i: nat | i < fec.numData && (i in fec.shards || fec.recovered) :: HasRow(ss, s, f, i)
  }

  /** Nothing accepted is taken back. */
  ghost predicate Keeping(ss: SlotSide, r: SlotSide, s: u64) {
    forall f: u32, i: nat | HasRow(ss, s, f, i) :: HasRow(r, s, f, i)
  }

  ghost predicate AllServed(st: Dec, s: u64) {
    forall f: u32 | (s, f) in st.fecs.live :: Served(st.slots, st.fecs.live[(s, f)], s, f)
  }

  /** The slot is still in the window. */
  predicate Current(st: Dec, s: u64) {
    NoWrap(s) && st.highest <= s + SLOT_EXPIRY_DISTANCE
  }

  lemma AdvanceKeepsServed(st: Dec, slot: u64, s: u64)
    requires AllServed(st, s) && Current(Advance(st, slot), s)
    ensures var a := Advance(st, slot);
            && AllServed(a, s) && (forall f: u32 :: (s, f) in a.fecs.live <==> (s, f) in st.fecs.live)
            && (forall f: u32 | (s, f) in st.fecs.live :: a.fecs.live[(s, f)] == st.fecs.live[(s, f)])
  {
    hide HasAccepted, ExpireSlots;
    var a := Advance(st, slot);
    assert Keeps(s, a.highest);
    forall f: u32, i: nat | HasRow(st.slots, s, f, i) ensures HasRow(a.slots, s, f, i) {
      AdvanceKeepsAccepted(st, slot, s, f + i);
    }
  }

  lemma ServedStays(ss: SlotSide, r: SlotSide, fec: Fec, s: u64, f: u32)
    requires Served(ss, fec, s, f) && Keeping(ss, r, s)
    ensures Served(r, fec, s, f)
  {
    hide HasRow;
  }

  lemma ActKeeping(env: Env, st: Dec, p: Packet, s: u64)
    ensures Keeping(st.slots, Act(env, st, p).slots, s)
  {
    hide HasAccepted, Act;
    forall f: u32, i: nat | HasRow(st.slots, s, f, i) ensures HasRow(Act(env, st, p).slots, s, f, i) {
      ActAccepts(env, st, p, s, f + i);
    }
  }

  // ---- A recovered set -----------------------------------------------------------------------

  lemma RowsEnter(txLen: TxLen, ss: SlotSide, p: Packet, rows: seq<Row>, k: nat)
    requires SeenCovers(SlotOf(ss, p.slot)) && k < |rows| && ParseData(rows[k].shard).Some?
    ensures HasAccepted(SlotOnRows(txLen, ss, p, rows), p.slot, GlobalIndex(p.fecSet, rows[k].position))
  {
    hide Settle, AcceptRows, ParseData, GlobalIndex, CompletionStats;
    var slot := SlotOf(ss, p.slot);
    AcceptRowsEntered(slot, p.fecSet, rows);
    RecoverTallies(txLen, slot, p.fecSet, rows);
    assert Enters(p.fecSet, rows, GlobalIndex(p.fecSet, rows[k].position));
  }

  /** Every data row is held, or among those recovered. */
  lemma RecoveredOrHeld(code: Code, blk: Block, f: u32, fec: Fec, i: nat) returns (k: nat)
    requires Lawful(code) && BlockOk(code, blk) && FecOfBlock(blk, f, fec) && |fec.shards| >= fec.numData
    requires i < fec.numData && i !in fec.shards
    ensures var rows := Reconstructed(code, fec);
            k < |rows| && ParseData(rows[k].shard).Some? && GlobalIndex(f, rows[k].position) == f + i
  {
    hide ParseData, Reconstructed, Lawful;
    var c, rows := blk.sets[f], Reconstructed(code, fec);
    assert SetOfBlock(code, blk, f, c);
    AllInside(fec, c.word);
    ReconstructionIsExact(code, fec, c.word);
    k :| 0 <= k < |rows| && rows[k].position == i;
  }

  /** The set as a coding shred leaves it, before it is solved. */
  function Held(fs: FecSide, p: Packet, h: CodeHeader): (r: FecSide)
    requires h.position < h.numCoding
  {
    var made := Create(fs, (p.slot, p.fecSet), h);
    made.(live := made.live[(p.slot, p.fecSet) := Hold(made.live[(p.slot, p.fecSet)], h.numData + h.position, p.shard)])
  }

  lemma CodeSolves(code: Code, blk: Block, fs: FecSide, p: Packet, h: CodeHeader)
    requires FecsOfBlock(blk, p.slot, fs) && p.body == Code(h) && OfBlock(blk, p) && h.position < h.numCoding
    ensures FecOnCode(code, fs, p, h) == Solve(code, Held(fs, p, h), (p.slot, p.fecSet))
    ensures FecOfBlock(blk, p.fecSet, Held(fs, p, h).live[(p.slot, p.fecSet)])
  {
    hide Solve;
    HeldOfBlock(blk, fs, p, h);
  }

  lemma SolvedServed(env: Env, blk: Block, st: Dec, p: Packet, fec: Fec)
    requires Lawful(env.code) && BlockOk(env.code, blk) && FecOfBlock(blk, p.fecSet, fec) && |fec.shards| >= fec.numData
    requires Served(st.slots, fec, p.slot, p.fecSet) && SeenCovers(SlotOf(st.slots, p.slot))
    ensures Served(SlotOnRows(env.txLen, st.slots, p, Reconstructed(env.code, fec)), fec.(shards := map[], recovered := true), p.slot, p.fecSet)
  {
    hide HasAccepted, Reconstructed, SlotOnRows, Lawful, BlockOk, FecOfBlock, SeenCovers, ParseData, GlobalIndex;
    var rows := Reconstructed(env.code, fec);
    forall i: nat | i < fec.numData ensures HasRow(SlotOnRows(env.txLen, st.slots, p, rows), p.slot, p.fecSet, i) {
      if i in fec.shards {
        assert HasRow(st.slots, p.slot, p.fecSet, i);
        RowsKeepAccepted(env.txLen, st.slots, p, rows, p.slot, p.fecSet + i);
      } else {
        var k := RecoveredOrHeld(env.code, blk, p.fecSet, fec, i);
        RowsEnter(env.txLen, st.slots, p, rows, k);
      }
    }
  }

  lemma HeldServed(ss: SlotSide, fs: FecSide, p: Packet, h: CodeHeader)
    requires h.position < h.numCoding
    requires (p.slot, p.fecSet) in fs.live ==> h.numData == fs.live[(p.slot, p.fecSet)].numData && Served(ss, fs.live[(p.slot, p.fecSet)], p.slot, p.fecSet)
    ensures Served(ss, Held(fs, p, h).live[(p.slot, p.fecSet)], p.slot, p.fecSet)
  {
    hide HasRow;
  }

  lemma OwnCodeServes(env: Env, blk: Block, st: Dec, p: Packet, h: CodeHeader)
    requires Lawful(env.code) && BlockOk(env.code, blk) && DecOfBlock(blk, p.slot, st) && OfBlock(blk, p) && p.body == Code(h)
    requires AllServed(st, p.slot) && SeenCovers(SlotOf(st.slots, p.slot)) && h.position < h.numCoding
    ensures var r, key := Act(env, st, p), (p.slot, p.fecSet); key in r.fecs.live && Served(r.slots, r.fecs.live[key], p.slot, p.fecSet)
  {
    hide HasRow, Reconstructed, SlotOnRows, Lawful, BlockOk, SeenCovers, Hold, FecOnCode, SlotsOfBlock, Served;
    var key := (p.slot, p.fecSet);
    DimensionsAgree(blk, st.fecs, p, h);
    HeldServed(st.slots, st.fecs, p, h);
    CodeSolves(env.code, blk, st.fecs, p, h);
    var fec, rows := Held(st.fecs, p, h).live[key], FecOnCode(env.code, st.fecs, p, h).1;
    if Ready(fec) {
      SolvedServed(env, blk, st, p, fec);
    } else {
      ActKeeping(env, st, p, p.slot);
      ServedStays(st.slots, SlotOnRows(env.txLen, st.slots, p, rows), fec, p.slot, p.fecSet);
    }
  }

  lemma DimensionsAgree(blk: Block, fs: FecSide, p: Packet, h: CodeHeader)
    requires FecsOfBlock(blk, p.slot, fs) && OfBlock(blk, p) && p.body == Code(h)
    ensures (p.slot, p.fecSet) in fs.live ==> h.numData == fs.live[(p.slot, p.fecSet)].numData && h.numCoding == fs.live[(p.slot, p.fecSet)].numCoding
  {
    if (p.slot, p.fecSet) in fs.live {
      assert FecOfBlock(blk, p.fecSet, fs.live[(p.slot, p.fecSet)]);
    }
  }

  lemma OwnDataServes(env: Env, st: Dec, p: Packet, part: DataPart)
    requires p.body == Data(part) && AllServed(st, p.slot)
    ensures var r, key := Act(env, st, p), (p.slot, p.fecSet); key in r.fecs.live ==> Served(r.slots, r.fecs.live[key], p.slot, p.fecSet)
  {
    hide HasAccepted, SlotOnData;
    var r := Act(env, st, p);
    ActKeeping(env, st, p, p.slot);
    if p.index >= p.fecSet {
      ActAccepts(env, st, p, p.slot, p.index);
      assert HasRow(r.slots, p.slot, p.fecSet, p.index - p.fecSet);
    }
  }

  lemma CodeKeepsOtherSets(code: Code, fs: FecSide, p: Packet, h: CodeHeader, k: FecKey)
    requires k != (p.slot, p.fecSet)
    ensures var r := FecOnCode(code, fs, p, h).0.live; (k in r <==> k in fs.live) && (k in r ==> r[k] == fs.live[k])
  {
    hide Reconstructed, Hold, NewFec, Ready;
  }

  lemma DataKeepsOtherSets(fs: FecSide, p: Packet, k: FecKey)
    requires k != (p.slot, p.fecSet)
    ensures var r := FecOnData(fs, p).live; (k in r <==> k in fs.live) && (k in r ==> r[k] == fs.live[k])
  {
    hide Hold;
  }

  lemma ActKeepsOtherSets(env: Env, st: Dec, p: Packet, k: FecKey)
    requires k != (p.slot, p.fecSet)
    ensures var r := Act(env, st, p).fecs.live; (k in r <==> k in st.fecs.live) && (k in r ==> r[k] == st.fecs.live[k])
  {
    hide FecOnCode, FecOnData, SlotOnRows, SlotOnData;
    match p.body
    case Code(h) => CodeKeepsOtherSets(env.code, st.fecs, p, h, k);
    case Data(_) => DataKeepsOtherSets(st.fecs, p, k);
    case Other =>
  }

  lemma ActKeepsServed(env: Env, blk: Block, s: u64, st: Dec, p: Packet)
    requires Lawful(env.code) && BlockOk(env.code, blk) && DecOfBlock(blk, s, st) && (p.slot == s ==> OfBlock(blk, p))
    requires AllServed(st, s) && AllCover(st.slots)
    ensures AllServed(Act(env, st, p), s)
  {
    hide HasRow, Act, Lawful, BlockOk, DecOfBlock, OfBlock, SeenCovers, Served;
    var r := Act(env, st, p);
    forall f: u32 | (s, f) in r.fecs.live ensures Served(r.slots, r.fecs.live[(s, f)], s, f) {
      ActKeeping(env, st, p, s);
      if (s, f) != (p.slot, p.fecSet) {
        ActKeepsOtherSets(env, st, p, (s, f));
        ServedStays(st.slots, r.slots, st.fecs.live[(s, f)], s, f);
      } else {
        OwnSetServed(env, blk, st, p);
      }
    }
  }

  lemma OwnSetServed(env: Env, blk: Block, st: Dec, p: Packet)
    requires Lawful(env.code) && BlockOk(env.code, blk) && DecOfBlock(blk, p.slot, st) && OfBlock(blk, p)
    requires AllServed(st, p.slot) && AllCover(st.slots)
    ensures var r, key := Act(env, st, p), (p.slot, p.fecSet); key in r.fecs.live ==> Served(r.slots, r.fecs.live[key], p.slot, p.fecSet)
  {
    hide HasAccepted, Lawful, BlockOk, OfBlock, Served, SlotOnRows, SlotOnData, DecOfBlock;
    SlotCovered(st.slots, p.slot);
    match p.body
    case Code(h) =>
      if h.position < h.numCoding {
        OwnCodeServes(env, blk, st, p, h);
      } else {
        NothingDone(env, st, p, h);
      }
    case Data(part) => OwnDataServes(env, st, p, part);
    case Other =>
  }

  lemma SlotCovered(ss: SlotSide, s: u64)
    requires AllCover(ss)
    ensures SeenCovers(SlotOf(ss, s))
  {
  }

  lemma NothingDone(env: Env, st: Dec, p: Packet, h: CodeHeader)
    requires p.body == Code(h) && h.position >= h.numCoding
    ensures Act(env, st, p) == st
  {
  }

  /** While the slot is current, every live set of a broadcast block is served. */
  lemma {:induction false} RunServes(env: Env, blk: Block, s: u64, ps: seq<Packet>)
    requires Broadcast(env, blk, s, ps) && Current(Run(env, ps), s)
    ensures AllServed(Run(env, ps), s)
  {
    if ps != [] {
      var front, p := ps[..|ps| - 1], ps[|ps| - 1];
      CurrentBefore(env, blk, s, ps);
      RunServes(env, blk, s, front);
      CurrentStep(env, blk, s, ps);
    }
  }

  lemma CurrentBefore(env: Env, blk: Block, s: u64, ps: seq<Packet>)
    requires ps != [] && Broadcast(env, blk, s, ps) && Current(Run(env, ps), s)
    ensures var front := ps[..|ps| - 1]; Broadcast(env, blk, s, front) && Current(Run(env, front), s)
    ensures var p := ps[|ps| - 1]; p.slot == s ==> OfBlock(blk, p)
  {
    hide OfBlock, Step, SelfDelimiting, Lawful, BlockOk;
    HighestSlot(env, Run(env, ps[..|ps| - 1]), ps[|ps| - 1]);
  }

  /** The window has moved for the last packet of the run. */
  function Moved(env: Env, ps: seq<Packet>): (a: Dec)
    requires ps != []
  {
    Advance(Run(env, ps[..|ps| - 1]), ps[|ps| - 1].slot)
  }

  lemma MovedFacts(env: Env, blk: Block, s: u64, ps: seq<Packet>)
    requires ps != [] && Broadcast(env, blk, s, ps) && Current(Run(env, ps), s)
    ensures var a, p := Moved(env, ps), ps[|ps| - 1];
            && Current(a, s) && DecOfBlock(blk, s, a) && AllCover(a.slots)
            && (p.slot == s ==> !TooOld(a.highest, s))
            && Run(env, ps) == if TooOld(a.highest, p.slot) then a else Act(env, a, p)
  {
    hide DecOfBlock, SelfDelimiting, Lawful, BlockOk, OfBlock, SeenCovers, Act;
    var front, p := ps[..|ps| - 1], ps[|ps| - 1];
    CurrentBefore(env, blk, s, ps);
    RunKeepsBlock(env, blk, s, front);
    RunSeenCovers(env, front);
    AdvanceOfBlock(blk, s, Run(env, front), p.slot);
    HighestAct(env, Moved(env, ps), p);
  }

  lemma HighestAct(env: Env, st: Dec, p: Packet)
    ensures Act(env, st, p).highest == st.highest
  {
  }

  lemma AdvanceOfBlock(blk: Block, s: u64, st: Dec, slot: u64)
    requires DecOfBlock(blk, s, st) && AllCover(st.slots)
    ensures DecOfBlock(blk, s, Advance(st, slot)) && AllCover(Advance(st, slot).slots)
  {
    hide SlotOfBlock, FecOfBlock, SeenCovers, Advance;
    AdvanceMoves(st, slot);
  }

  /** When the window moves, slots stay or retire as they are, and sets stay or go. */
  lemma AdvanceMoves(st: Dec, slot: u64)
    ensures var a := Advance(st, slot);
            && (forall t | t in a.slots.live :: t in st.slots.live && a.slots.live[t] == st.slots.live[t])
            && (forall t | t in a.slots.retired :: (t in st.slots.retired && a.slots.retired[t] == st.slots.retired[t])
                  || (t in st.slots.live && a.slots.retired[t] == st.slots.live[t]))
            && (forall k | k in a.fecs.live :: k in st.fecs.live && a.fecs.live[k] == st.fecs.live[k])
  {
    hide OutcomesAfter, Lost, LostPartial, Keeps;
  }

  lemma CurrentStep(env: Env, blk: Block, s: u64, ps: seq<Packet>)
    requires ps != [] && Broadcast(env, blk, s, ps) && Current(Run(env, ps), s) && AllServed(Run(env, ps[..|ps| - 1]), s)
    ensures AllServed(Moved(env, ps), s) && AllServed(Run(env, ps), s)
  {
    hide DecOfBlock, OfBlock, SeenCovers, Act, AllServed, Advance, Run, AllCover, Lawful, BlockOk, SelfDelimiting;
    var p := ps[|ps| - 1];
    MovedFacts(env, blk, s, ps);
    CurrentBefore(env, blk, s, ps);
    AdvanceKeepsServed(Run(env, ps[..|ps| - 1]), p.slot, s);
    if !TooOld(Moved(env, ps).highest, p.slot) {
      ActKeepsServed(env, blk, s, Moved(env, ps), p);
    }
  }

  // ---- Enough rows -----------------------------------------------------------------------

  /** The set is there and holds at least these rows, or is recovered. */
  ghost predicate Gathered(st: Dec, s: u64, f: u32, rows: set<nat>) {
    (s, f) in st.fecs.live && (st.fecs.live[(s, f)].recovered || rows <= st.fecs.live[(s, f)].shards.Keys)
  }

  ghost predicate IsRecoveredSet(st: Dec, s: u64, f: u32) {
    (s, f) in st.fecs.live && st.fecs.live[(s, f)].recovered
  }

  lemma AdvanceKeepsSets(st: Dec, slot: u64, s: u64, f: u32, rows: set<nat>)
    requires Current(Advance(st, slot), s) && Gathered(st, s, f, rows)
    ensures Gathered(Advance(st, slot), s, f, rows)
  {
    hide ExpireSlots;
    assert Keeps(s, Advance(st, slot).highest);
  }

  lemma {:induction false} SubsetSize(a: set<nat>, b: set<nat>)
    requires a <= b
    ensures |a| <= |b|
  {
    if a != {} {
      var x :| x in a;
      SubsetSize(a - {x}, b - {x});
    }
  }

  lemma SolveGathers(code: Code, fs: FecSide, key: FecKey, rows: set<nat>)
    requires key in fs.live && (fs.live[key].recovered || rows <= fs.live[key].shards.Keys)
    ensures var r := Solve(code, fs, key).0.live;
            && key in r && (r[key].recovered || rows <= r[key].shards.Keys)
            && (|rows| >= fs.live[key].numData ==> r[key].recovered)
  {
    hide Reconstructed;
    if !fs.live[key].recovered {
      SubsetSize(rows, fs.live[key].shards.Keys);
    }
  }

  lemma CodeGathers(env: Env, blk: Block, st: Dec, p: Packet, h: CodeHeader, rows: set<nat>)
    requires DecOfBlock(blk, p.slot, st) && OfBlock(blk, p) && p.body == Code(h) && h.position < h.numCoding
    requires Gathered(st, p.slot, p.fecSet, rows) || rows == {}
    ensures var r, all := Act(env, st, p), rows + {h.numData + h.position};
            && Gathered(r, p.slot, p.fecSet, all)
            && (|all| >= blk.sets[p.fecSet].numData ==> IsRecoveredSet(r, p.slot, p.fecSet))
  {
    hide Solve, FecOnCode, SlotOnRows, SlotsOfBlock;
    CodeSolves(env.code, blk, st.fecs, p, h);
    SolveGathers(env.code, Held(st.fecs, p, h), (p.slot, p.fecSet), rows + {h.numData + h.position});
  }

  lemma DataGathers(env: Env, st: Dec, p: Packet, part: DataPart, f: u32, rows: set<nat>)
    requires p.body == Data(part) && Gathered(st, p.slot, f, rows)
    ensures Gathered(Act(env, st, p), p.slot, f, rows + RowOf(p, p.slot, f))
  {
    hide SlotOnData;
  }

  lemma ActGathers(env: Env, blk: Block, s: u64, f: u32, st: Dec, p: Packet, rows: set<nat>)
    requires DecOfBlock(blk, s, st) && (p.slot == s ==> OfBlock(blk, p)) && f in blk.sets
    requires Gathered(st, s, f, rows) || (rows == {} && IsCodeOf(p, s, f))
    ensures var r, all := Act(env, st, p), rows + RowOf(p, s, f);
            && Gathered(r, s, f, all)
            && (IsCodeOf(p, s, f) && |all| >= blk.sets[f].numData ==> IsRecoveredSet(r, s, f))
  {
    hide Act, DecOfBlock, OfBlock;
    if (s, f) != (p.slot, p.fecSet) {
      ActKeepsOtherSets(env, st, p, (s, f));
    } else {
      match p.body
      case Code(h) =>
        if h.position < h.numCoding {
          CodeGathers(env, blk, st, p, h, rows);
        } else {
          NothingDone(env, st, p, h);
        }
      case Data(part) => DataGathers(env, st, p, part, f, rows);
      case Other => OtherDoesNothing(env, st, p);
    }
  }

  lemma OtherDoesNothing(env: Env, st: Dec, p: Packet)
    requires p.body.Other?
    ensures Act(env, st, p) == st
  {
  }

  lemma {:induction false} RunGathers(env: Env, blk: Block, s: u64, f: u32, early: seq<Packet>, late: seq<Packet>)
    requires Broadcast(env, blk, s, early + late) && Current(Run(env, early + late), s) && f in blk.sets
    requires late != [] && IsCodeOf(late[0], s, f)
    ensures Gathered(Run(env, early + late), s, f, RowsOf(late, s, f))
    ensures IsCodeOf(late[|late| - 1], s, f) && |RowsOf(late, s, f)| >= blk.sets[f].numData ==>
              IsRecoveredSet(Run(env, early + late), s, f)
    decreases |late|
  {
    hide Broadcast, Run, Act, Advance, RowOf, Gathered, IsRecoveredSet, DecOfBlock, OfBlock, AllCover, IsCodeOf;
    var all, front, p := early + late, late[..|late| - 1], late[|late| - 1];
    assert all[..|all| - 1] == early + front && all[|all| - 1] == p;
    CurrentBefore(env, blk, s, all);
    MovedFacts(env, blk, s, all);
    if front != [] {
      RunGathers(env, blk, s, f, early, front);
      AdvanceKeepsSets(Run(env, early + front), p.slot, s, f, RowsOf(front, s, f));
    }
    if TooOld(Moved(env, all).highest, p.slot) {
      OtherSlotRow(p, s, f);
      assert RowsOf(front, s, f) + {} == RowsOf(front, s, f);
    } else {
      ActGathers(env, blk, s, f, Moved(env, all), p, RowsOf(front, s, f));
    }
  }

  lemma OtherSlotRow(p: Packet, s: u64, f: u32)
    requires p.slot != s
    ensures RowOf(p, s, f) == {} && !IsCodeOf(p, s, f)
  {
  }

  /** While the slot is current: if among the packets from a coding shred of the set on, as many different
      rows of it came as it has data shreds, and the last of them with a coding shred, then all its data
      shreds are accepted. */
  lemma RecoverySucceeds(env: Env, blk: Block, s: u64, f: u32, early: seq<Packet>, late: seq<Packet>)
    requires Broadcast(env, blk, s, early + late) && Current(Run(env, early + late), s) && f in blk.sets
    requires late != [] && IsCodeOf(late[0], s, f) && IsCodeOf(late[|late| - 1], s, f)
    requires |RowsOf(late, s, f)| >= blk.sets[f].numData
    ensures forall i: nat | i < blk.sets[f].numData :: HasRow(Run(env, early + late).slots, s, f, i)
  {
    hide Run, RowsOf, HasRow, OfBlock, SelfDelimiting, Lawful;
    var st := Run(env, early + late);
    RunGathers(env, blk, s, f, early, late);
    RunServes(env, blk, s, early + late);
    RunKeepsBlock(env, blk, s, early + late);
    assert FecOfBlock(blk, f, st.fecs.live[(s, f)]);
  }

  // ---- Delivered, one way or the other -----------------------------------------------------

  /** Enough rows of the set came in packets `a` to `b - 1`. */
  ghost predicate Recoverable(blk: Block, ps: seq<Packet>, s: u64, f: u32, a: nat, b: nat) {
    && a < b <= |ps| && f in blk.sets && IsCodeOf(ps[a], s, f) && IsCodeOf(ps[b - 1], s, f)
    && |RowsOf(ps[a..b], s, f)| >= blk.sets[f].numData
  }

  /** The index was sent directly, or enough rows of its set were. */
  ghost predicate Delivered(blk: Block, ps: seq<Packet>, s: u64, i: nat) {
    || SentDirectly(ps, s, i)
    || exists f: u32, a: nat, b: nat :: Recoverable(blk, ps, s, f, a, b) && f <= i < f + blk.sets[f].numData
  }

  lemma BroadcastPrefix(env: Env, blk: Block, s: u64, ps: seq<Packet>, n: nat)
    requires Broadcast(env, blk, s, ps) && n <= |ps|
    ensures Broadcast(env, blk, s, ps[..n])
  {
    hide OfBlock, SelfDelimiting, Lawful, BlockOk;
  }

  /** What was accepted stays so, and was accepted while the slot was current. */
  lemma {:induction false} AcceptedStays(env: Env, s: u64, ps: seq<Packet>, n: nat)
    requires Current(Run(env, ps), s) && n <= |ps|
    ensures Current(Run(env, ps[..n]), s)
    ensures forall i | HasAccepted(Run(env, ps[..n]).slots, s, i) :: HasAccepted(Run(env, ps).slots, s, i)
    decreases |ps|
  {
    hide Step, HasAccepted;
    if n == |ps| {
      assert ps[..n] == ps;
    } else {
      var front, p := ps[..|ps| - 1], ps[|ps| - 1];
      HighestSlot(env, Run(env, front), p);
      AcceptedStays(env, s, front, n);
      assert front[..n] == ps[..n];
      forall i | HasAccepted(Run(env, ps[..n]).slots, s, i) ensures HasAccepted(Run(env, ps).slots, s, i) {
        StepAccepts(env, Run(env, front), p, s, i);
      }
    }
  }

  /** Every delivered index is accepted. */
  lemma EveryDeliveredAccepted(env: Env, blk: Block, s: u64, ps: seq<Packet>, i: nat)
    requires Broadcast(env, blk, s, ps) && Current(Run(env, ps), s) && Delivered(blk, ps, s, i)
    ensures HasAccepted(Run(env, ps).slots, s, i)
  {
    hide Broadcast, Run, HasAccepted, RowsOf, IsCodeOf;
    if SentDirectly(ps, s, i) {
      EveryDirectShredAccepted(env, s, ps, i);
    } else {
      var f: u32, a: nat, b: nat :| Recoverable(blk, ps, s, f, a, b) && f <= i < f + blk.sets[f].numData;
      AcceptedStays(env, s, ps, b);
      BroadcastPrefix(env, blk, s, ps, b);
      assert ps[..a] + ps[a..b] == ps[..b];
      RecoverySucceeds(env, blk, s, f, ps[..a], ps[a..b]);
      assert HasRow(Run(env, ps[..b]).slots, s, f, i - f);
    }
  }

  // ---- Where a slot is anchored --------------------------------------------------------------

  /** The first packet with which the slot accepts anything has it accept index 0, directly or by recovery. */
  ghost predicate StartsAtZero(env: Env, s: u64, ps: seq<Packet>) {
    exists k :: 0 <= k < |ps| && IsFirst(env, s, ps, k)
  }

  ghost predicate IsFirst(env: Env, s: u64, ps: seq<Packet>, k: nat)
    requires k < |ps|
  {
    (forall i :: !HasAccepted(Run(env, ps[..k]).slots, s, i)) && HasAccepted(Run(env, ps[..k + 1]).slots, s, 0)
  }

  ghost predicate AnchoredAtZero(ss: SlotSide, s: u64) {
    s in ss.live && ss.live[s].hist.anchor == Some(0)
  }

  /** A slot has an anchor once it has accepted something. */
  ghost predicate AnchorsTell(ss: SlotSide) {
    forall s | s in ss.live :: AnchorTells(ss.live[s])
  }

  lemma {:induction false} AcceptRowsAnchor(s: Slot, fecSet: nat, rows: seq<Row>)
    requires s.hist.anchor.None? <==> s.hist.accepted == {}
    ensures var t := AcceptRows(s, fecSet, rows).0; t.hist.anchor.None? <==> t.hist.accepted == {}
  {
    hide ParseData;
    if rows != [] {
      AcceptRowsAnchor(s, fecSet, rows[..|rows| - 1]);
    }
  }

  lemma {:induction false} RowsAtIncrease(all: seq<Shard>, positions: seq<nat>)
    requires forall j, k | 0 <= j < k < |positions| :: positions[j] < positions[k]
    ensures Increasing(RowsAt(all, positions))
    ensures forall k | 0 <= k < |RowsAt(all, positions)| :: RowsAt(all, positions)[k].position in positions
  {
    if positions != [] {
      RowsAtIncrease(all, positions[..|positions| - 1]);
    }
  }

  /** Rows are recovered in increasing order, whatever the erasure code answers. */
  lemma ReconstructedIncreases(code: Code, f: Fec)
    ensures Increasing(Reconstructed(code, f))
  {
    hide RowsAt;
    forall all: seq<Shard> ensures Increasing(RowsAt(all, Missing(f.shards, f.numData))) {
      RowsAtIncrease(all, Missing(f.shards, f.numData));
    }
  }

  /** The first row to enter an empty slot has the least index. */
  lemma {:induction false} LeastAnchors(s: Slot, fecSet: nat, rows: seq<Row>)
    requires s.hist.accepted == {} && s.hist.anchor.None? && Increasing(rows)
    ensures var t := AcceptRows(s, fecSet, rows).0;
            forall i | i in t.hist.accepted :: t.hist.anchor.Some? && t.hist.anchor.value <= i
              && rows != [] && i <= GlobalIndex(fecSet, rows[|rows| - 1].position)
  {
    hide ParseData;
    if rows != [] {
      LeastAnchors(s, fecSet, rows[..|rows| - 1]);
      AcceptRowsAnchor(s, fecSet, rows[..|rows| - 1]);
    }
  }

  predicate AnchorTells(s: Slot) {
    s.hist.anchor.None? <==> s.hist.accepted == {}
  }

  lemma RecoverAnchors(txLen: TxLen, s: Slot, fecSet: nat, rows: seq<Row>)
    requires AnchorTells(s)
    ensures var r := Recover(txLen, s, fecSet, rows);
            && AnchorTells(r) && (s.hist.anchor.Some? ==> r.hist.anchor == s.hist.anchor)
            && (s.hist.accepted == {} && Increasing(rows) && 0 in r.hist.accepted ==> r.hist.anchor == Some(0))
  {
    hide Settle, AcceptRows, Increasing;
    if s.hist.accepted == {} && Increasing(rows) {
      LeastAnchors(s, fecSet, rows);
    }
    AcceptRowsAnchor(s, fecSet, rows);
    AcceptRowsTallies(s, fecSet, rows);
    RecoverTallies(txLen, s, fecSet, rows);
  }

  lemma DeliverAnchors(txLen: TxLen, s: Slot, i: nat, payload: seq<byte>, last: bool)
    requires AnchorTells(s)
    ensures var r := Deliver(txLen, s, i, payload, last);
            && AnchorTells(r) && r.hist.accepted == s.hist.accepted + {i}
            && r.hist.anchor == if s.hist.accepted == {} then Some(i) else s.hist.anchor
  {
    hide Settle;
    SettleTallies(txLen, Direct(s, i, payload, last));
    assert i in s.hist.accepted + {i};
  }

  lemma ActAnchors(env: Env, st: Dec, p: Packet, s: u64)
    requires AnchorsTell(st.slots)
    ensures var r := Act(env, st, p);
            && AnchorsTell(r.slots) && (AnchoredAtZero(st.slots, s) ==> AnchoredAtZero(r.slots, s))
            && ((forall i :: !HasAccepted(st.slots, s, i)) && HasAccepted(r.slots, s, 0) ==> AnchoredAtZero(r.slots, s))
  {
    hide Deliver, Recover, FecOnCode, FecOnData, CompletionStats, Increasing;
    var slot := SlotOf(st.slots, p.slot);
    assert AnchorTells(slot);
    if forall i :: !HasAccepted(st.slots, s, i) {
      NothingAccepted(st.slots, s);
    }
    match p.body
    case Code(h) =>
      CodeIncreases(env.code, st.fecs, p, h);
      RecoverAnchors(env.txLen, slot, p.fecSet, FecOnCode(env.code, st.fecs, p, h).1);
    case Data(part) => DeliverAnchors(env.txLen, slot, p.index, part.payload, part.last);
    case Other =>
  }

  lemma CodeIncreases(code: Code, fs: FecSide, p: Packet, h: CodeHeader)
    ensures Increasing(FecOnCode(code, fs, p, h).1)
  {
    hide Reconstructed, Hold, NewFec, Ready;
    forall f: Fec ensures Increasing(Reconstructed(code, f)) {
      ReconstructedIncreases(code, f);
    }
  }

  lemma NothingAccepted(ss: SlotSide, s: u64)
    requires forall i :: !HasAccepted(ss, s, i)
    ensures SlotOf(ss, s).hist.accepted == {}
  {
    forall i ensures i !in SlotOf(ss, s).hist.accepted {
      assert !HasAccepted(ss, s, i);
    }
  }

  lemma {:induction false} RunAnchors(env: Env, s: u64, ps: seq<Packet>)
    requires Current(Run(env, ps), s)
    ensures AnchorsTell(Run(env, ps).slots)
    ensures StartsAtZero(env, s, ps) ==> AnchoredAtZero(Run(env, ps).slots, s)
  {
    hide Act, HasAccepted, AnchorsTell, AnchoredAtZero, StartsAtZero, IsFirst, Advance;
    if ps != [] {
      var n := |ps| - 1;
      var st, p := Run(env, ps[..n]), ps[n];
      HighestSlot(env, st, p);
      RunAnchors(env, s, ps[..n]);
      StartsEarlier(env, s, ps);
      if IsFirst(env, s, ps, n) {
        FirstAnchors(env, s, ps);
      }
      AdvanceAnchors(st, p.slot, s);
      HighestAct(env, Advance(st, p.slot), p);
      if !TooOld(Advance(st, p.slot).highest, p.slot) {
        ActAnchors(env, Advance(st, p.slot), p, s);
      }
    } else {
      NothingStarts(env, s);
    }
  }

  lemma NothingStarts(env: Env, s: u64)
    ensures AnchorsTell(Init.slots) && !StartsAtZero(env, s, [])
  {
  }

  lemma FirstAnchors(env: Env, s: u64, ps: seq<Packet>)
    requires ps != [] && IsFirst(env, s, ps, |ps| - 1) && AnchorsTell(Run(env, ps[..|ps| - 1]).slots)
    ensures AnchoredAtZero(Run(env, ps).slots, s)
  {
    hide Act, HasAccepted, AnchorsTell, AnchoredAtZero, Advance;
    var n := |ps| - 1;
    var st, p := Run(env, ps[..n]), ps[n];
    assert ps[..n + 1] == ps;
    AdvanceAnchors(st, p.slot, s);
    if !TooOld(Advance(st, p.slot).highest, p.slot) {
      ActAnchors(env, Advance(st, p.slot), p, s);
    }
  }

  lemma StartsEarlier(env: Env, s: u64, ps: seq<Packet>)
    requires ps != []
    ensures StartsAtZero(env, s, ps) ==> StartsAtZero(env, s, ps[..|ps| - 1]) || IsFirst(env, s, ps, |ps| - 1)
  {
    hide HasAccepted, Run;
    var n := |ps| - 1;
    if k :| 0 <= k < n && IsFirst(env, s, ps, k) {
      assert ps[..n][..k] == ps[..k] && ps[..n][..k + 1] == ps[..k + 1];
      assert IsFirst(env, s, ps[..n], k);
    }
  }

  lemma AdvanceAnchors(st: Dec, slot: u64, s: u64)
    requires AnchorsTell(st.slots)
    ensures var a := Advance(st, slot);
            && AnchorsTell(a.slots) && (Current(a, s) && AnchoredAtZero(st.slots, s) ==> AnchoredAtZero(a.slots, s))
            && forall i | HasAccepted(a.slots, s, i) :: HasAccepted(st.slots, s, i)
  {
    hide OutcomesAfter, Lost, LostPartial;
    if Current(Advance(st, slot), s) {
      assert Keeps(s, Advance(st, slot).highest);
    }
  }

  /** If a slot starts with index 0 and every index below `n` was delivered, directly or by
      enough rows of its set, then all of them have been parsed, in whatever order and however often their
      shreds came. */
  lemma DeliveryDecodesAll(env: Env, blk: Block, s: u64, ps: seq<Packet>, n: nat)
    requires Broadcast(env, blk, s, ps) && Current(Run(env, ps), s) && StartsAtZero(env, s, ps)
    requires forall i | 0 <= i < n :: Delivered(blk, ps, s, i)
    ensures s in Run(env, ps).slots.live
    ensures var slot := Run(env, ps).slots.live[s];
            n <= slot.next && slot.hist.emitted == Greedy(env.txLen, Concat(blk.payload, 0, slot.next)).txs
  {
    hide Broadcast, Run, Delivered, StartsAtZero, Concat, Greedy;
    RunAnchors(env, s, ps);
    var slot := Run(env, ps).slots.live[s];
    EmittedIsParseOfContiguousRun(env, blk, s, ps, slot);
    if slot.next < n {
      EveryDeliveredAccepted(env, blk, s, ps, slot.next);
    }
  }
}
