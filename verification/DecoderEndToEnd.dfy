/** The decoder's promise for one slot of one block, in terms of the packets alone. */
module DecoderEndToEnd {
  import opened Wrappers
  import opened Bytes
  import opened EntryCodec
  import opened ShredWire
  import opened SlotModel
  import opened SlotTheorems
  import opened FecModel
  import opened DecoderModel
  import opened DecoderInvariant
  import opened DecoderLives
  import opened DecoderTheorems
  import opened DecoderHonest

  // ---- Accepted indices and the packets sent ---------------------------------------------

  predicate IsDataOf(p: Packet, s: u64) {
    p.slot == s && p.body.Data?
  }

  /** Some data shred with this index was sent for slot `s`. */
  ghost predicate SentDirectly(ps: seq<Packet>, s: u64, i: nat) {
    exists k :: 0 <= k < |ps| && IsDataOf(ps[k], s) && ps[k].index == i
  }

  ghost predicate HasAccepted(ss: SlotSide, s: u64, i: nat) {
    s in ss.live && i in ss.live[s].hist.accepted
  }

  lemma RowsKeepAccepted(txLen: TxLen, ss: SlotSide, p: Packet, rows: seq<Row>, s: u64, i: nat)
    requires HasAccepted(ss, s, i)
    ensures HasAccepted(SlotOnRows(txLen, ss, p, rows), s, i)
  {
    RecoverTallies(txLen, SlotOf(ss, p.slot), p.fecSet, rows);
    AcceptRowsTallies(SlotOf(ss, p.slot), p.fecSet, rows);
  }

  lemma DataAccepts(txLen: TxLen, ss: SlotSide, p: Packet, part: DataPart, s: u64, i: nat)
    requires HasAccepted(ss, s, i) || (p.slot == s && p.index == i)
    ensures HasAccepted(SlotOnData(txLen, ss, p, part), s, i)
  {
    hide Settle;
    SettleTallies(txLen, Direct(SlotOf(ss, p.slot), p.index, part.payload, part.last));
  }

  /** A packet never takes back an accepted index, and accepts its own. */
  lemma ActAccepts(env: Env, st: Dec, p: Packet, s: u64, i: nat)
    requires HasAccepted(st.slots, s, i) || (IsDataOf(p, s) && p.index == i)
    ensures HasAccepted(Act(env, st, p).slots, s, i)
  {
    match p.body
    case Code(h) => RowsKeepAccepted(env.txLen, st.slots, p, FecOnCode(env.code, st.fecs, p, h).1, s, i);
    case Data(part) => DataAccepts(env.txLen, st.slots, p, part, s, i);
    case Other =>
  }

  lemma AdvanceKeepsAccepted(st: Dec, slot: u64, s: u64, i: nat)
    requires NoWrap(s) && Advance(st, slot).highest <= s + SLOT_EXPIRY_DISTANCE && HasAccepted(st.slots, s, i)
    ensures HasAccepted(Advance(st, slot).slots, s, i)
  {
    assert Keeps(s, Advance(st, slot).highest);
  }

  lemma StepAccepts(env: Env, st: Dec, p: Packet, s: u64, i: nat)
    requires NoWrap(s) && Step(env, st, p).highest <= s + SLOT_EXPIRY_DISTANCE
    requires HasAccepted(st.slots, s, i) || (IsDataOf(p, s) && p.index == i)
    ensures HasAccepted(Step(env, st, p).slots, s, i)
  {
    var a := Advance(st, p.slot);
    if HasAccepted(st.slots, s, i) {
      AdvanceKeepsAccepted(st, p.slot, s, i);
    }
    if !TooOld(a.highest, p.slot) {
      ActAccepts(env, a, p, s, i);
    }
  }

  /** As long as the slot is not too old, every data shred sent for it so far was accepted. */
  lemma {:induction false} EveryDirectShredAccepted(env: Env, s: u64, ps: seq<Packet>, i: nat)
    requires NoWrap(s) && Run(env, ps).highest <= s + SLOT_EXPIRY_DISTANCE && SentDirectly(ps, s, i)
    ensures HasAccepted(Run(env, ps).slots, s, i)
  {
    var k :| 0 <= k < |ps| && IsDataOf(ps[k], s) && ps[k].index == i;
    var n := |ps| - 1;
    var st, p := Run(env, ps[..n]), ps[n];
    assert st.highest <= Run(env, ps).highest by {
      HighestSlot(env, st, p);
    }
    if k < n {
      assert ps[..n][k] == ps[k] && SentDirectly(ps[..n], s, i);
      EveryDirectShredAccepted(env, s, ps[..n], i);
    }
    StepAccepts(env, st, p, s, i);
  }

  /** Packet `p` could have made index `i` of slot `s` accepted: it is that data shred, or a coding
      shred of a FEC set whose data rows include it. */
  predicate Offers(p: Packet, s: u64, i: nat) {
    && p.slot == s
    && match p.body
       case Data(_) => p.index == i
       case Code(h) => exists pos: nat :: pos < h.numData && GlobalIndex(p.fecSet, pos) == i
       case Other => false
  }

  lemma {:induction false} RowsAtPositions(all: seq<Shard>, positions: seq<nat>)
    ensures forall k | 0 <= k < |RowsAt(all, positions)| :: RowsAt(all, positions)[k].position in positions
  {
    if positions != [] {
      RowsAtPositions(all, positions[..|positions| - 1]);
    }
  }

  lemma ReconstructedPositions(code: Code, f: Fec)
    ensures forall k | 0 <= k < |Reconstructed(code, f)| :: Reconstructed(code, f)[k].position < f.numData
  {
    var solved := code.solve(f.numData, f.numCoding, InRange(f.shards, f.numData + f.numCoding));
    if solved.Some? {
      RowsAtPositions(solved.value, Missing(f.shards, f.numData));
    }
  }

  lemma SolvedPositions(code: Code, fs: FecSide, key: FecKey)
    requires key in fs.live
    ensures var rows := Solve(code, fs, key).1;
            forall k | 0 <= k < |rows| :: rows[k].position < fs.live[key].numData
  {
    ReconstructedPositions(code, fs.live[key]);
  }

  lemma RecoveredPositions(code: Code, fs: FecSide, p: Packet, h: CodeHeader)
    ensures var rows := FecOnCode(code, fs, p, h).1;
            forall k | 0 <= k < |rows| :: rows[k].position < h.numData
  {
    var key := (p.slot, p.fecSet);
    var made := Create(fs, key, h);
    var f := made.live[key];
    var held := made.(live := made.live[key := Hold(f, h.numData + h.position, p.shard)]);
    if h.position < h.numCoding && f.numData == h.numData && f.numCoding == h.numCoding {
      assert FecOnCode(code, fs, p, h) == Solve(code, held, key);
      SolvedPositions(code, held, key);
    }
  }

  lemma {:induction false} AcceptRowsFrom(s: Slot, fecSet: nat, rows: seq<Row>, i: nat)
    requires i in AcceptRows(s, fecSet, rows).0.hist.accepted && i !in s.hist.accepted
    ensures exists k :: 0 <= k < |rows| && GlobalIndex(fecSet, rows[k].position) == i
  {
    var front := rows[..|rows| - 1];
    if i in AcceptRows(s, fecSet, front).0.hist.accepted {
      AcceptRowsFrom(s, fecSet, front, i);
      var k :| 0 <= k < |front| && GlobalIndex(fecSet, front[k].position) == i;
      assert rows[k] == front[k];
    } else {
      assert GlobalIndex(fecSet, rows[|rows| - 1].position) == i;
    }
  }

  lemma RowsInventNothing(env: Env, st: Dec, p: Packet, h: CodeHeader, s: u64, i: nat)
    requires p.body == Code(h)
    requires HasAccepted(SlotOnRows(env.txLen, st.slots, p, FecOnCode(env.code, st.fecs, p, h).1), s, i)
    requires !HasAccepted(st.slots, s, i)
    ensures Offers(p, s, i)
  {
    var before, rows := SlotOf(st.slots, p.slot), FecOnCode(env.code, st.fecs, p, h).1;
    RecoverTallies(env.txLen, before, p.fecSet, rows);
    assert p.slot == s && i !in before.hist.accepted;
    AcceptRowsFrom(before, p.fecSet, rows, i);
    RecoveredPositions(env.code, st.fecs, p, h);
  }

  lemma DataInventsNothing(txLen: TxLen, ss: SlotSide, p: Packet, part: DataPart, s: u64, i: nat)
    requires HasAccepted(SlotOnData(txLen, ss, p, part), s, i) && !HasAccepted(ss, s, i)
    ensures p.slot == s && p.index == i
  {
    hide Settle;
    SettleTallies(txLen, Direct(SlotOf(ss, p.slot), p.index, part.payload, part.last));
  }

  lemma ActInventsNothing(env: Env, st: Dec, p: Packet, s: u64, i: nat)
    requires HasAccepted(Act(env, st, p).slots, s, i) && !HasAccepted(st.slots, s, i)
    ensures Offers(p, s, i)
  {
    match p.body
    case Code(h) =>
      assert Act(env, st, p).slots == SlotOnRows(env.txLen, st.slots, p, FecOnCode(env.code, st.fecs, p, h).1);
      RowsInventNothing(env, st, p, h, s, i);
    case Data(part) =>
      DataInventsNothing(env.txLen, st.slots, p, part, s, i);
    case Other =>
  }

  /** Every accepted index was offered by some packet: sent directly, or among the data rows of a
      FEC set of which a coding shred was sent. */
  lemma {:induction false} AcceptedWasOffered(env: Env, s: u64, ps: seq<Packet>, i: nat)
    requires HasAccepted(Run(env, ps).slots, s, i)
    ensures exists k :: 0 <= k < |ps| && Offers(ps[k], s, i)
  {
    var n := |ps| - 1;
    var st, p := Run(env, ps[..n]), ps[n];
    var a := Advance(st, p.slot);
    if HasAccepted(st.slots, s, i) {
      AcceptedWasOffered(env, s, ps[..n], i);
      var k :| 0 <= k < n && Offers(ps[..n][k], s, i);
      assert Offers(ps[k], s, i);
    } else {
      assert !HasAccepted(a.slots, s, i);
      ActInventsNothing(env, a, p, s, i);
      assert Offers(ps[n], s, i);
    }
  }

  // ---- The theorems ----------------------------------------------------------------------

  /** What it takes to speak about slot `s` of a block after a run. */
  ghost predicate Broadcast(env: Env, blk: Block, s: u64, ps: seq<Packet>) {
    SelfDelimiting(env.txLen) && Lawful(env.code) && BlockOk(env.code, blk) && RunOfBlock(blk, s, ps)
  }

  lemma BroadcastSlot(env: Env, blk: Block, s: u64, ps: seq<Packet>, slot: Slot)
    requires Broadcast(env, blk, s, ps)
    requires var ss := Run(env, ps).slots;
             (s in ss.live && slot == ss.live[s]) || (s in ss.retired && slot == ss.retired[s])
    ensures Sound(env.txLen, slot) && Honest(slot, blk.payload) && Bounded(slot)
  {
    RunKeepsBlock(env, blk, s, ps);
    RunAllKept(env, ps);
    assert Kept(env.txLen, slot);
    BelowIsBounded(slot);
  }

  /** After any sequence of direct, duplicated, out-of-order, recovered and unrelated shreds, the
      transactions a live or expired slot anchored at index 0 has emitted are the greedy Entry parse
      of the payloads of the maximal contiguous run of accepted indices from 0. */
  lemma EmittedIsParseOfContiguousRun(env: Env, blk: Block, s: u64, ps: seq<Packet>, slot: Slot)
    requires Broadcast(env, blk, s, ps) && slot.hist.anchor == Some(0)
    requires var ss := Run(env, ps).slots;
             (s in ss.live && slot == ss.live[s]) || (s in ss.retired && slot == ss.retired[s])
    ensures MaximalRun(slot.hist.accepted, 0, slot.next)
    ensures slot.hist.emitted == Greedy(env.txLen, Concat(blk.payload, 0, slot.next)).txs
  {
    BroadcastSlot(env, blk, s, ps, slot);
    EmittedIsGreedyParse(env.txLen, slot, blk.payload);
  }

  /** Two runs over one block that accepted the same indices from the same anchor hold the same
      bytes, and have emitted the same transactions if they fixed the same Entry boundary, which
      anchor 0 always does: arrival order, duplicates and the recovery path do not show. */
  lemma RunsAgree(env: Env, blk: Block, s: u64, ps: seq<Packet>, qs: seq<Packet>)
    requires Broadcast(env, blk, s, ps) && Broadcast(env, blk, s, qs)
    requires s in Run(env, ps).slots.live && s in Run(env, qs).slots.live
    requires var a, b := Run(env, ps).slots.live[s], Run(env, qs).slots.live[s];
             a.hist.anchor == b.hist.anchor && a.hist.accepted == b.hist.accepted
    ensures var a, b := Run(env, ps).slots.live[s], Run(env, qs).slots.live[s];
            && a.buf == b.buf && a.next == b.next && a.maxIndex == b.maxIndex
            && (a.hist.anchor == Some(0) || (a.scanned == b.scanned && a.hist.boundary == b.hist.boundary) ==>
                  a.hist.emitted == b.hist.emitted && a.consumed == b.consumed)
  {
    var a, b := Run(env, ps).slots.live[s], Run(env, qs).slots.live[s];
    BroadcastSlot(env, blk, s, ps, a);
    BroadcastSlot(env, blk, s, qs, b);
    PathIndependent(env.txLen, a, b, blk.payload);
  }

  // ---- From raw bytes --------------------------------------------------------------------

  /** Raw shreds of the block: a data shred is, up to padding, the data row of its index. */
  ghost predicate RawOfBlock(blk: Block, raw: seq<byte>, p: Packet) {
    && Parse(raw) == Some(p)
    && match p.body
       case Data(part) =>
         && p.fecSet in blk.sets && p.fecSet <= p.index < p.fecSet + blk.sets[p.fecSet].numData
         && LE16(raw, SIZE_OFF) <= SHRED_RS_SIZE
         && p.index - p.fecSet < |blk.sets[p.fecSet].word|
         && ToShard(raw) == blk.sets[p.fecSet].word[p.index - p.fecSet]
       case Code(h) => OfBlock(blk, p)
       case Other => true
  }

  /** Because padding is transparent, such a raw shred delivers directly the very payload that
      recovery of its row would. */
  lemma RawShredsAreOfBlock(code: Code, blk: Block, raw: seq<byte>, p: Packet)
    requires BlockOk(code, blk) && RawOfBlock(blk, raw, p)
    ensures OfBlock(blk, p)
    ensures p.body.Data? ==>
              ParseData(blk.sets[p.fecSet].word[p.index - p.fecSet]) == Some(p.body.part)
  {
    if p.body.Data? {
      assert SetOfBlock(code, blk, p.fecSet, blk.sets[p.fecSet]);
      PaddingTransparent(raw);
    }
  }
}
