/** The decoder end to end for one slot of one block: the payload of an index is the same wherever
    it comes from, and the rows of a FEC set are those of one codeword. Packets of other slots are
    arbitrary. */
module DecoderHonest {
  import opened Bytes
  import opened EntryCodec
  import opened ShredWire
  import opened SlotModel
  import opened SlotTheorems
  import opened FecModel
  import opened DecoderModel
  import opened DecoderInvariant
  import opened DecoderLives
  import opened DecoderTheorems

  datatype CodedSet = CodedSet(numData: nat, numCoding: nat, word: seq<Shard>)

  /** What was broadcast for one slot. */
  datatype Block = Block(payload: nat -> seq<byte>, sets: map<u32, CodedSet>)

  /** The data rows of a set are data shreds carrying the payloads of its indices. */
  ghost predicate SetOfBlock(code: Code, blk: Block, f: u32, c: CodedSet) {
    && code.supports(c.numData, c.numCoding) && c.numData > 0 && c.numCoding > 0
    && |c.word| == c.numData + c.numCoding && code.isCodeword(c.numData, c.numCoding, c.word)
    && f + c.numData < UNSET
    && forall i | 0 <= i < c.numData ::
         ParseData(c.word[i]).Some? && ParseData(c.word[i]).value.payload == blk.payload(f + i)
  }

  ghost predicate BlockOk(code: Code, blk: Block) {
    forall f | f in blk.sets :: SetOfBlock(code, blk, f, blk.sets[f])
  }

  /** A packet of the block: a data shred carries the payload of its index, a coding shred the
      dimensions of its set, and both a row of the set's codeword. */
  ghost predicate OfBlock(blk: Block, p: Packet) {
    match p.body
    case Data(part) =>
      && p.index < UNSET - 1 && part.payload == blk.payload(p.index)
      && (p.fecSet in blk.sets && p.index >= p.fecSet ==>
            var c := blk.sets[p.fecSet];
            p.index - p.fecSet < |c.word| && p.shard == c.word[p.index - p.fecSet])
    case Code(h) =>
      && p.fecSet in blk.sets
      && var c := blk.sets[p.fecSet];
      && h.numData == c.numData && h.numCoding == c.numCoding
      && (h.position < h.numCoding ==> h.numData + h.position < |c.word| && p.shard == c.word[h.numData + h.position])
    case Other => true
  }

  ghost predicate FecOfBlock(blk: Block, f: u32, fec: Fec) {
    && f in blk.sets
    && fec.numData == blk.sets[f].numData && fec.numCoding == blk.sets[f].numCoding
    && Agrees(fec.shards, blk.sets[f].word)
  }

  ghost predicate FecsOfBlock(blk: Block, s: u64, fs: FecSide) {
    forall f: u32 | (s, f) in fs.live :: FecOfBlock(blk, f, fs.live[(s, f)])
  }

  /** No accepted index is next to the sentinel. */
  ghost predicate Below(s: Slot) {
    (forall i | i in s.hist.accepted :: i < UNSET - 1) && (s.hist.anchor.Some? ==> s.hist.anchor.value < UNSET - 1)
  }

  lemma BelowIsBounded(s: Slot)
    requires Below(s)
    ensures Bounded(s)
  {
    assert UNSET - 1 !in s.hist.accepted;
  }

  ghost predicate SlotOfBlock(blk: Block, s: Slot) {
    Below(s) && Honest(s, blk.payload)
  }

  ghost predicate SlotsOfBlock(blk: Block, s: u64, ss: SlotSide) {
    && (s in ss.live ==> SlotOfBlock(blk, ss.live[s]))
    && (s in ss.retired ==> SlotOfBlock(blk, ss.retired[s]))
  }

  // ---- FEC sets hold rows of the block ---------------------------------------------------

  /** What a set of the block recovers are rows of the block, at indices below the sentinel. */
  lemma RecoveredRowsOfBlock(code: Code, blk: Block, f: u32, fec: Fec)
    requires Lawful(code) && BlockOk(code, blk) && FecOfBlock(blk, f, fec) && |fec.shards| >= fec.numData
    ensures var rows := Reconstructed(code, fec);
            && HonestRows(f, rows, blk.payload)
            && (forall k | 0 <= k < |rows| :: GlobalIndex(f, rows[k].position) < UNSET - 1)
  {
    var c := blk.sets[f];
    assert SetOfBlock(code, blk, f, c);
    AllInside(fec, c.word);
    ReconstructionIsExact(code, fec, c.word);
  }

  lemma ReplaceOfBlock(blk: Block, s: u64, fs: FecSide, r: FecSide, key: FecKey, f: Fec)
    requires FecsOfBlock(blk, s, fs) && r.live == fs.live[key := f]
    requires key.0 == s ==> FecOfBlock(blk, key.1, f)
    ensures FecsOfBlock(blk, s, r)
  {
  }

  lemma HeldOfBlock(blk: Block, fs: FecSide, p: Packet, h: CodeHeader)
    requires FecsOfBlock(blk, p.slot, fs) && p.body == Code(h) && OfBlock(blk, p) && h.position < h.numCoding
    ensures var made := Create(fs, (p.slot, p.fecSet), h);
            FecsOfBlock(blk, p.slot, made)
            && FecOfBlock(blk, p.fecSet, Hold(made.live[(p.slot, p.fecSet)], h.numData + h.position, p.shard))
  {
    var key := (p.slot, p.fecSet);
    if key !in fs.live {
      ReplaceOfBlock(blk, p.slot, fs, Create(fs, key, h), key, NewFec(h.numData, h.numCoding));
    }
  }

  lemma SolveOfBlock(code: Code, blk: Block, s: u64, fs: FecSide, key: FecKey)
    requires Lawful(code) && BlockOk(code, blk) && FecsOfBlock(blk, s, fs) && key in fs.live && key.0 == s
    ensures var (r, rows) := Solve(code, fs, key);
            && FecsOfBlock(blk, s, r) && HonestRows(key.1, rows, blk.payload)
            && (forall k | 0 <= k < |rows| :: GlobalIndex(key.1, rows[k].position) < UNSET - 1)
  {
    var f := fs.live[key];
    assert FecOfBlock(blk, key.1, f);
    if Ready(f) {
      RecoveredRowsOfBlock(code, blk, key.1, f);
      ReplaceOfBlock(blk, s, fs, Solve(code, fs, key).0, key, f.(shards := map[], recovered := true));
    }
  }

  lemma FecOnCodeOfBlock(code: Code, blk: Block, fs: FecSide, p: Packet, h: CodeHeader)
    requires Lawful(code) && BlockOk(code, blk) && FecsOfBlock(blk, p.slot, fs)
    requires p.body == Code(h) && OfBlock(blk, p)
    ensures var (r, rows) := FecOnCode(code, fs, p, h);
            && FecsOfBlock(blk, p.slot, r) && HonestRows(p.fecSet, rows, blk.payload)
            && (forall k | 0 <= k < |rows| :: GlobalIndex(p.fecSet, rows[k].position) < UNSET - 1)
  {
    hide FecsOfBlock, Solve, BlockOk;
    if h.position < h.numCoding {
      var key := (p.slot, p.fecSet);
      var made := Create(fs, key, h);
      HeldOfBlock(blk, fs, p, h);
      var f := Hold(made.live[key], h.numData + h.position, p.shard);
      var held := made.(live := made.live[key := f]);
      ReplaceOfBlock(blk, p.slot, made, held, key, f);
      SolveOfBlock(code, blk, p.slot, held, key);
      assert FecOnCode(code, fs, p, h) == Solve(code, held, key) by {
        assert made.live[key].numData == h.numData && made.live[key].numCoding == h.numCoding;
      }
    }
  }

  lemma FecOnDataOfBlock(blk: Block, fs: FecSide, p: Packet)
    requires FecsOfBlock(blk, p.slot, fs) && p.body.Data? && OfBlock(blk, p)
    ensures FecsOfBlock(blk, p.slot, FecOnData(fs, p))
  {
    var key := (p.slot, p.fecSet);
    if p.index >= p.fecSet && key in fs.live {
      assert FecOfBlock(blk, p.fecSet, fs.live[key]);
      ReplaceOfBlock(blk, p.slot, fs, FecOnData(fs, p), key, Hold(fs.live[key], p.index - p.fecSet, p.shard));
    }
  }

  // ---- Slots hold payloads of the block --------------------------------------------------

  lemma {:induction false} AcceptRowsBelow(s: Slot, f: nat, rows: seq<Row>)
    requires Below(s) && forall k | 0 <= k < |rows| :: GlobalIndex(f, rows[k].position) < UNSET - 1
    ensures Below(AcceptRows(s, f, rows).0)
  {
    if rows != [] {
      AcceptRowsBelow(s, f, rows[..|rows| - 1]);
    }
  }

  lemma RecoverOfBlock(txLen: TxLen, blk: Block, s: Slot, f: nat, rows: seq<Row>)
    requires Kept(txLen, s) && SlotOfBlock(blk, s) && HonestRows(f, rows, blk.payload)
    requires forall k | 0 <= k < |rows| :: GlobalIndex(f, rows[k].position) < UNSET - 1
    ensures SlotOfBlock(blk, Recover(txLen, s, f, rows))
  {
    hide Settle, Honest, HonestRows, Sound;
    BelowIsBounded(s);
    AcceptRowsBelow(s, f, rows);
    BelowIsBounded(AcceptRows(s, f, rows).0);
    RecoverTallies(txLen, s, f, rows);
    RecoverHonest(txLen, s, f, rows, blk.payload);
  }

  lemma DeliverOfBlock(txLen: TxLen, blk: Block, s: Slot, i: nat, last: bool)
    requires Kept(txLen, s) && SlotOfBlock(blk, s) && i < UNSET - 1
    ensures SlotOfBlock(blk, Deliver(txLen, s, i, blk.payload(i), last))
  {
    hide Settle, Honest, Sound;
    BelowIsBounded(s);
    BelowIsBounded(Direct(s, i, blk.payload(i), last));
    SettleTallies(txLen, Direct(s, i, blk.payload(i), last));
    DeliverHonest(txLen, s, i, blk.payload(i), last, blk.payload);
  }

  // ---- The run ---------------------------------------------------------------------------

  /** All the run's packets of slot `s` are of the block. */
  ghost predicate RunOfBlock(blk: Block, s: u64, ps: seq<Packet>) {
    forall k | 0 <= k < |ps| && ps[k].slot == s :: OfBlock(blk, ps[k])
  }

  ghost predicate DecOfBlock(blk: Block, s: u64, st: Dec) {
    SlotsOfBlock(blk, s, st.slots) && FecsOfBlock(blk, s, st.fecs)
  }

  lemma OwnPacketOfBlock(env: Env, blk: Block, st: Dec, p: Packet)
    requires Lawful(env.code) && BlockOk(env.code, blk)
    requires DecOfBlock(blk, p.slot, st) && OfBlock(blk, p) && AllKept(env.txLen, st.slots)
    ensures DecOfBlock(blk, p.slot, Act(env, st, p))
  {
    EmptyIsSound(env.txLen);
    var s := SlotOf(st.slots, p.slot);
    assert Kept(env.txLen, s) && SlotOfBlock(blk, s);
    match p.body
    case Code(h) =>
      FecOnCodeOfBlock(env.code, blk, st.fecs, p, h);
      RecoverOfBlock(env.txLen, blk, s, p.fecSet, FecOnCode(env.code, st.fecs, p, h).1);
    case Data(part) =>
      FecOnDataOfBlock(blk, st.fecs, p);
      DeliverOfBlock(env.txLen, blk, s, p.index, part.last);
    case Other =>
  }

  lemma OtherCodeKeepsFecs(code: Code, blk: Block, s: u64, fs: FecSide, p: Packet, h: CodeHeader)
    requires FecsOfBlock(blk, s, fs) && p.slot != s
    ensures FecsOfBlock(blk, s, FecOnCode(code, fs, p, h).0)
  {
    var r := FecOnCode(code, fs, p, h).0;
    FecOnCodeAdds(code, fs, p, h);
    assert forall f: u32 | (s, f) in r.live :: (s, f) in fs.live && r.live[(s, f)] == fs.live[(s, f)];
  }

  /** A packet of another slot leaves slot `s` and its FEC sets alone. */
  lemma OtherPacketKeeps(env: Env, blk: Block, s: u64, st: Dec, p: Packet)
    requires DecOfBlock(blk, s, st) && p.slot != s
    ensures DecOfBlock(blk, s, Act(env, st, p))
  {
    if p.body.Code? {
      OtherCodeKeepsFecs(env.code, blk, s, st.fecs, p, p.body.header);
    }
  }

  lemma {:induction false} RunKeepsBlock(env: Env, blk: Block, s: u64, ps: seq<Packet>)
    requires SelfDelimiting(env.txLen) && Lawful(env.code) && BlockOk(env.code, blk) && RunOfBlock(blk, s, ps)
    ensures DecOfBlock(blk, s, Run(env, ps))
  {
    if ps != [] {
      var front, p := ps[..|ps| - 1], ps[|ps| - 1];
      var st := Run(env, front);
      RunKeepsBlock(env, blk, s, front);
      RunAllKept(env, front);
      StepAllKept(env, st, p);
      var a := Advance(st, p.slot);
      assert DecOfBlock(blk, s, a);
      if !TooOld(a.highest, p.slot) {
        if p.slot == s {
          OwnPacketOfBlock(env, blk, a, p);
        } else {
          OtherPacketKeeps(env, blk, s, a, p);
        }
      }
    }
  }
}
