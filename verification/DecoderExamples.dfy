/** Runs over received bytes that show where the theorems' premises are met, and where they are needed. */
module DecoderExamples {
  import opened Wrappers
  import opened Bytes
  import opened EntryCodec
  import opened ShredWire
  import opened ShredBytes
  import opened SlotModel
  import opened SlotTheorems
  import opened FecModel
  import opened DecoderModel
  import opened DecoderLives
  import opened DecoderCounts
  import opened DecoderHonest
  import opened DecoderEndToEnd

  lemma ParsedAgain(raw: seq<byte>, part: DataPart)
    requires ParseData(raw) == Some(part) && |part.payload| <= SHRED_RS_SIZE - DATA_OFF
    ensures ParseData(ToShard(raw)) == Some(part)
  {
    PaddingTransparent(raw);
  }

  // ---- Recovered and delivered -------------------------------------------------------------

  /** A set of one data shred, at index 0, and one coding shred. */
  const OneOfOne: CodeHeader := CodeHeader(1, 1, 0)

  function DataRaw(s: u64, part: DataPart): (raw: seq<byte>)
    requires |part.payload| <= SHRED_RS_SIZE - DATA_OFF
  {
    DataShred(s, 0, 0, part)
  }

  function CodeRaw(s: u64): (raw: seq<byte>) {
    CodeShred(s, 0, 0, OneOfOne)
  }

  function DataPacket(s: u64, part: DataPart): (p: Packet)
    requires |part.payload| <= SHRED_RS_SIZE - DATA_OFF
  {
    Packet(s, 0, 0, Data(part), ToShard(DataRaw(s, part)))
  }

  function CodePacket(s: u64): (p: Packet) {
    Packet(s, 0, 0, Code(OneOfOne), ToShard(CodeRaw(s)))
  }

  /** The code in which the coding shred is the coding row of the data shred. */
  ghost function OneCode(s: u64, part: DataPart): (c: FecModel.Code)
    requires |part.payload| <= SHRED_RS_SIZE - DATA_OFF
  {
    ShiftCode(SubBytes(ToShard(CodeRaw(s)), ToShard(DataRaw(s, part))))
  }

  ghost function OneEnv(s: u64, part: DataPart): (env: Env)
    requires |part.payload| <= SHRED_RS_SIZE - DATA_OFF
  {
    Env(LengthPrefixed, OneCode(s, part))
  }

  function OneBlock(s: u64, part: DataPart): (blk: Block)
    requires |part.payload| <= SHRED_RS_SIZE - DATA_OFF
  {
    Block(_ => part.payload, map[0 := CodedSet(1, 1, [ToShard(DataRaw(s, part)), ToShard(CodeRaw(s))])])
  }

  lemma OneParsed(s: u64, part: DataPart)
    requires |part.payload| <= SHRED_RS_SIZE - DATA_OFF
    ensures Parse(DataRaw(s, part)) == Some(DataPacket(s, part)) && Parse(CodeRaw(s)) == Some(CodePacket(s))
    ensures ParseData(DataPacket(s, part).shard) == Some(part)
  {
    hide ParseData, Parse, DataShred, CodeShred;
    DataRoundTrip(s, 0, 0, part);
    CodeRoundTrip(s, 0, 0, OneOfOne);
    ParsedAgain(DataRaw(s, part), part);
  }

  lemma OneWord(s: u64, part: DataPart)
    requires |part.payload| <= SHRED_RS_SIZE - DATA_OFF
    ensures var row, parity := DataPacket(s, part).shard, CodePacket(s).shard;
            AreShifted(SubBytes(parity, row), [row, parity])
  {
    hide ToShard, DataShred, CodeShred;
    var row, parity := DataPacket(s, part).shard, CodePacket(s).shard;
    var key := SubBytes(parity, row);
    assert AddBytes(row, key) == parity;
  }

  lemma OneIsBroadcast(s: u64, part: DataPart)
    requires |part.payload| <= SHRED_RS_SIZE - DATA_OFF
    ensures RawOfBlock(OneBlock(s, part), DataRaw(s, part), DataPacket(s, part))
    ensures RawOfBlock(OneBlock(s, part), CodeRaw(s), CodePacket(s))
    ensures Broadcast(OneEnv(s, part), OneBlock(s, part), s, [DataPacket(s, part)])
    ensures Broadcast(OneEnv(s, part), OneBlock(s, part), s, [CodePacket(s)])
    ensures Broadcast(OneEnv(s, part), OneBlock(s, part), s, [DataPacket(s, part), CodePacket(s)])
  {
    hide ParseData, Parse, ToShard, DataShred, CodeShred, AreShifted, Unshift;
    LengthPrefixedIsSelfDelimiting();
    ShiftIsLawful(SubBytes(CodePacket(s).shard, DataPacket(s, part).shard));
    OneParsed(s, part);
    OneWord(s, part);
    SizeOfData(s, part);
  }

  lemma SizeOfData(s: u64, part: DataPart)
    requires |part.payload| <= SHRED_RS_SIZE - DATA_OFF
    ensures |DataRaw(s, part)| >= DATA_OFF && LE16(DataRaw(s, part), SIZE_OFF) <= SHRED_RS_SIZE
  {
    DataRoundTrip(s, 0, 0, part);
  }

  lemma OnlyFirstMissing(row: Shard, parity: Shard)
    ensures Missing(map[1 := parity], 1) == [0] && RowsAt([row, parity], [0]) == [Row(0, row)]
  {
    assert Missing(map[1 := parity], 0) == [];
    assert [0][..0] == [];
  }

  lemma OneRowRecovered(s: u64, part: DataPart)
    requires |part.payload| <= SHRED_RS_SIZE - DATA_OFF
    ensures var row, parity := DataPacket(s, part).shard, CodePacket(s).shard;
            Reconstructed(OneCode(s, part), Fec(1, 1, map[1 := parity], false)) == [Row(0, row)]
  {
    hide ToShard, DataShred, CodeShred, Missing, RowsAt, Unshift, AreShifted, InRange, Lawful;
    var row, parity := DataPacket(s, part).shard, CodePacket(s).shard;
    var f, word := Fec(1, 1, map[1 := parity], false), [row, parity];
    OnlyFirstMissing(row, parity);
    OneWord(s, part);
    assert Agrees(f.shards, word) && |f.shards| == 1;
    ShiftIsLawful(SubBytes(parity, row));
    AllInside(f, word);
    SolvedInRange(OneCode(s, part), f, word);
  }

  lemma CodeRecovers(s: u64, part: DataPart, fs: FecSide)
    requires |part.payload| <= SHRED_RS_SIZE - DATA_OFF && (s, 0) !in fs.live
    ensures FecOnCode(OneCode(s, part), fs, CodePacket(s), OneOfOne).1 == [Row(0, DataPacket(s, part).shard)]
  {
    hide Reconstructed, ToShard, DataShred, CodeShred;
    OneRowRecovered(s, part);
    assert map[][1 := CodePacket(s).shard] == map[1 := CodePacket(s).shard];
  }

  /** A first shred, received or recovered. */
  lemma FirstRow(txLen: TxLen, row: Shard, part: DataPart)
    requires ParseData(row) == Some(part)
    ensures var direct, recovered := Deliver(txLen, Empty, 0, part.payload, part.last), Recover(txLen, Empty, 0, [Row(0, row)]);
            && direct.hist.anchor == recovered.hist.anchor == Some(0)
            && direct.hist.accepted == recovered.hist.accepted == {0}
            && direct.shredsSeen == 1 && direct.fecRecovered == 0 && direct.payloads == map[]
  {
    hide Settle, ParseData;
    var first := Accept(Empty, 0, part.payload, part.last);
    var t := CountRows(first, 1);
    assert [Row(0, row)][..0] == [];
    assert AcceptRows(Empty, 0, [Row(0, row)]) == (first, 1);
    var d := Direct(Empty, 0, part.payload, part.last);
    SettleTallies(txLen, d);
    SettleTallies(txLen, t);
    SettleFrame(txLen, d);
    assert d.payloads == map[0 := part.payload];
    FlushOnlyHeld(d, part.payload);
  }

  lemma FirstPacket(env: Env, p: Packet)
    requires p.slot > 0
    ensures Run(env, [p]) == Act(env, Init.(highest := p.slot), p)
  {
    assert [p][..0] == [];
    assert Advance(Init, p.slot) == Init.(highest := p.slot);
  }

  /** Both ways the slot is live, anchored at 0, and has accepted index 0: what `RunsAgree` compares. */
  lemma RecoveredMeetsDirect(s: u64, part: DataPart)
    requires |part.payload| <= SHRED_RS_SIZE - DATA_OFF && s > 0
    ensures var env, blk := OneEnv(s, part), OneBlock(s, part);
            forall p | p in {CodePacket(s), DataPacket(s, part)} ::
              && Broadcast(env, blk, s, [p]) && s in Run(env, [p]).slots.live
              && var slot := Run(env, [p]).slots.live[s]; slot.hist.anchor == Some(0) && slot.hist.accepted == {0}
    ensures RawOfBlock(OneBlock(s, part), DataRaw(s, part), DataPacket(s, part))
    ensures RawOfBlock(OneBlock(s, part), CodeRaw(s), CodePacket(s))
  {
    var env, coded, direct := OneEnv(s, part), CodePacket(s), DataPacket(s, part);
    hide Broadcast, RawOfBlock, Deliver, Recover, FecOnCode, FecOnData, Advance, ParseData, Parse, CompletionStats, ToShard, OneCode;
    OneIsBroadcast(s, part);
    OneParsed(s, part);
    FirstRow(env.txLen, direct.shard, part);
    FirstPacket(env, coded);
    FirstPacket(env, direct);
    CodeRecovers(s, part, Init.fecs);
    assert Run(env, [direct]).slots.live[s] == Deliver(env.txLen, Empty, 0, part.payload, part.last);
    assert Run(env, [coded]).slots.live[s] == Recover(env.txLen, Empty, 0, [Row(0, direct.shard)]);
  }

  // ---- Recovered after it was flushed ------------------------------------------------------

  lemma NextPacket(env: Env, ps: seq<Packet>, p: Packet)
    ensures Run(env, ps + [p]) == Step(env, Run(env, ps), p)
  {
    assert (ps + [p])[..|ps|] == ps;
  }

  lemma CurrentPacket(env: Env, st: Dec, p: Packet)
    requires p.slot == st.highest
    ensures Step(env, st, p) == Act(env, st, p)
  {
    assert Advance(st, p.slot) == st;
  }

  /** A recovery of the only row of a slot that was already flushed. */
  lemma RecoveredAgain(txLen: TxLen, row: Shard, part: DataPart)
    requires ParseData(row) == Some(part)
    ensures var r := Recover(txLen, Deliver(txLen, Empty, 0, part.payload, part.last), 0, [Row(0, row)]);
            r.hist.accepted == {0} && r.shredsSeen == 2 && r.fecRecovered == 1
  {
    hide Settle, ParseData, Accept, Deliver;
    var d, rows := Deliver(txLen, Empty, 0, part.payload, part.last), [Row(0, row)];
    FirstRow(txLen, row, part);
    assert rows[..0] == [];
    assert AcceptRows(d, 0, rows) == (Accept(d, 0, part.payload, part.last), 1);
    AcceptedZero(d, part);
    RecoverTallies(txLen, d, 0, rows);
    RecoveredExactly(txLen, d, 0, rows);
    assert SeenCovers(d);
    AcceptRowsEntered(d, 0, rows);
  }

  lemma AcceptedZero(d: Slot, part: DataPart)
    requires d.hist.accepted == {0}
    ensures Accept(d, 0, part.payload, part.last).hist.accepted == {0}
  {
  }

  /** Nothing was lost: the data shred came, and then its set's only coding shred. The set never held the
      data shred, so it is "recovered": two shreds are counted, one of them as recovered, of one index. */
  lemma RecoveredThoughReceived(s: u64, part: DataPart)
    requires |part.payload| <= SHRED_RS_SIZE - DATA_OFF && s > 0
    ensures var env, ps := OneEnv(s, part), [DataPacket(s, part), CodePacket(s)];
            && s in Run(env, ps).slots.live
            && var slot := Run(env, ps).slots.live[s];
            slot.hist.accepted == {0} && slot.shredsSeen == 2 && slot.fecRecovered == 1
    ensures Parse(DataRaw(s, part)) == Some(DataPacket(s, part)) && Parse(CodeRaw(s)) == Some(CodePacket(s))
  {
    var env, direct, coded := OneEnv(s, part), DataPacket(s, part), CodePacket(s);
    hide Run, Deliver, Recover, ParseData, Parse, ToShard, OneEnv, CodePacket, DataPacket;
    OneParsed(s, part);
    DirectThenCoded(s, part);
    RecoveredAgain(env.txLen, direct.shard, part);
  }

  lemma DirectOnly(s: u64, part: DataPart)
    requires |part.payload| <= SHRED_RS_SIZE - DATA_OFF && s > 0
    ensures var env := OneEnv(s, part); var st := Run(env, [DataPacket(s, part)]);
            && st.highest == s && s in st.slots.live && (s, 0) !in st.fecs.live
            && st.slots.live[s] == Deliver(env.txLen, Empty, 0, part.payload, part.last)
  {
    hide Deliver, CompletionStats, ToShard, OneCode;
    FirstPacket(OneEnv(s, part), DataPacket(s, part));
  }

  lemma DirectThenCoded(s: u64, part: DataPart)
    requires |part.payload| <= SHRED_RS_SIZE - DATA_OFF && s > 0
    ensures var env := OneEnv(s, part); var st := Run(env, [DataPacket(s, part), CodePacket(s)]);
            && s in st.slots.live
            && st.slots.live[s] == Recover(env.txLen, Deliver(env.txLen, Empty, 0, part.payload, part.last), 0, [Row(0, DataPacket(s, part).shard)])
  {
    hide Run, Step, Deliver, Recover, FecOnCode, CompletionStats, ToShard, OneCode, OutcomesOf;
    var env, direct, coded := OneEnv(s, part), DataPacket(s, part), CodePacket(s);
    DirectOnly(s, part);
    assert [direct] + [coded] == [direct, coded];
    NextPacket(env, [direct], coded);
    CurrentPacket(env, Run(env, [direct]), coded);
    CodeRecovers(s, part, Run(env, [direct]).fecs);
  }

  // ---- Runs of data shreds of one slot -----------------------------------------------------

  /** The shred with index `i` and the given payload, not the last, outside any set. */
  function Sent(s: u64, i: u32, payload: seq<byte>): (p: Packet)
    requires |payload| <= 1000
  {
    Packet(s, i, 0, Data(DataPart(false, payload)), ToShard(DataShred(s, i, 0, DataPart(false, payload))))
  }

  lemma SentIsReceived(s: u64, i: u32, payload: seq<byte>)
    requires |payload| <= 1000
    ensures Parse(DataShred(s, i, 0, DataPart(false, payload))) == Some(Sent(s, i, payload))
  {
    DataRoundTrip(s, i, 0, DataPart(false, payload));
  }

  lemma SentFirst(env: Env, s: u64, i: u32, x: seq<byte>)
    requires |x| <= 1000 && s > 0
    ensures var st := Run(env, [Sent(s, i, x)]);
            st.highest == s && s in st.slots.live && st.slots.live[s] == Deliver(env.txLen, Empty, i, x, false)
  {
    hide Deliver, CompletionStats, ToShard, Advance;
    FirstPacket(env, Sent(s, i, x));
  }

  lemma SentNext(env: Env, s: u64, ps: seq<Packet>, i: u32, x: seq<byte>)
    requires |x| <= 1000
    requires var st := Run(env, ps); st.highest == s && s in st.slots.live
    ensures var st, r := Run(env, ps), Run(env, ps + [Sent(s, i, x)]);
            r.highest == s && s in r.slots.live && r.slots.live[s] == Deliver(env.txLen, st.slots.live[s], i, x, false)
  {
    hide Deliver, CompletionStats, ToShard, Advance, Run, Step;
    NextPacket(env, ps, Sent(s, i, x));
    CurrentPacket(env, Run(env, ps), Sent(s, i, x));
  }

  // ---- The sentinel ------------------------------------------------------------------------

  /** A slot whose only held payload is the next one. */
  lemma DeliverNext(txLen: TxLen, s: Slot, i: u32, x: seq<byte>)
    requires s.payloads == map[] && (s.next == i || s.next == UNSET)
    ensures var r := Deliver(txLen, s, i, x, false);
            r.payloads == map[] && r.next == (if i == UNSET then 0 else i + 1) && r.buf == s.buf + x
  {
    hide Settle, Flush, Direct;
    var d := Direct(s, i, x, false);
    DirectNext(s, i, x);
    SettleFrame(txLen, d);
    FlushOnlyHeld(d, x);
  }

  lemma DirectNext(s: Slot, i: nat, x: seq<byte>)
    requires s.payloads == map[] && (s.next == i || s.next == UNSET)
    ensures var d := Direct(s, i, x, false); d.payloads == map[i := x] && d.next == i && d.buf == s.buf
  {
  }

  /** The index before the sentinel, and then any other: its bytes are appended as if they followed. */
  lemma SentinelReanchors(env: Env, s: u64, i: u32, x: seq<byte>, y: seq<byte>)
    requires |x| <= 1000 && |y| <= 1000 && s > 0
    ensures var ps := [Sent(s, UNSET - 1, x), Sent(s, i, y)];
            s in Run(env, ps).slots.live && Run(env, ps).slots.live[s].buf == x + y
  {
    hide Run, Deliver, Sent;
    var p, q := Sent(s, UNSET - 1, x), Sent(s, i, y);
    SentFirst(env, s, UNSET - 1, x);
    SentNext(env, s, [p], i, y);
    assert [p] + [q] == [p, q] && [] + x == x;
    DeliverNext(env.txLen, Empty, UNSET - 1, x);
    DeliverNext(env.txLen, Deliver(env.txLen, Empty, UNSET - 1, x, false), i, y);
  }

  /** The sentinel itself as the first index: the next index wraps, and index 0 is appended. */
  lemma SentinelWraps(env: Env, s: u64, x: seq<byte>, y: seq<byte>)
    requires |x| <= 1000 && |y| <= 1000 && s > 0
    ensures var ps := [Sent(s, UNSET, x), Sent(s, 0, y)];
            s in Run(env, ps).slots.live && Run(env, ps).slots.live[s].buf == x + y
  {
    hide Run, Deliver, Sent;
    var p, q := Sent(s, UNSET, x), Sent(s, 0, y);
    SentFirst(env, s, UNSET, x);
    SentNext(env, s, [p], 0, y);
    assert [p] + [q] == [p, q] && [] + x == x;
    DeliverNext(env.txLen, Empty, UNSET, x);
    DeliverNext(env.txLen, Deliver(env.txLen, Empty, UNSET, x, false), 0, y);
  }

  // ---- The boundary in mid-stream ------------------------------------------------------------

  /** 49 bytes that end within an Entry of two transactions; from the second byte on they are a whole Entry
      without transactions. */
  function Torn(): (b: seq<byte>) {
    Zeros(40) + [2] + Zeros(8)
  }

  function Zeros(n: nat): (b: seq<byte>)
    ensures |b| == n && forall i | 0 <= i < n :: b[i] == 0
  {
    if n == 0 then [] else Zeros(n - 1) + [0]
  }

  lemma TornBytes()
    ensures |Torn()| == 49 && Torn()[48..] == [0]
    ensures LE64(Torn(), 40) == 2 && LE64(Torn()[1..], 40) == 0 && |Torn()[1..]| == 48
    ensures LE64(Torn() + [0], 40) == 2 && (Torn() + [0])[48..] == [0, 0] && (Torn() + [0])[49..] == [0]
  {
    var whole := Torn() + [0];
    assert LE64(Torn(), 40) == 2 && LE64(whole, 40) == 2;
    var tail := Torn()[1..];
    assert forall i | 0 <= i < 48 :: tail[i] == if i == 39 then 2 else 0;
    assert LE64(tail, 40) == 0;
  }

  lemma TwoShortTxs()
    ensures ParseTxs(LengthPrefixed, [0], 2).None?
    ensures ParseTxs(LengthPrefixed, [0, 0], 2) == Some(Parsed([[0], [0]], 2))
  {
    var one, two: seq<byte> := [0], [0, 0];
    assert one[1..] == [] && two[1..] == one && two[..1] == one && one[..1] == one;
    assert ParseTxs(LengthPrefixed, [], 1).None?;
    assert ParseTxs(LengthPrefixed, one, 1) == Some(Parsed([one], 1)) by {
      assert ParseTxs(LengthPrefixed, [], 0) == Some(Parsed([], 0));
      assert [one] + [] == [one];
    }
    assert [one] + [one] == [one, one];
  }

  lemma TornAloneScans()
    ensures ScanFrom(LengthPrefixed, Torn(), 0) == Some(1) && Greedy(LengthPrefixed, Torn()[1..]) == Parsed([], 48)
  {
    hide LE64, LengthPrefixed, Torn;
    var b := Torn();
    TornBytes();
    TwoShortTxs();
    WholeOf(b);
    AtOffset(b, 1);
    assert ParseEntry(LengthPrefixed, b).None?;
    assert b[1..][48..] == [];
    assert ParseEntry(LengthPrefixed, b[1..]) == Some(Parsed([], 48));
    assert Greedy(LengthPrefixed, []) == Parsed([], 0);
  }

  lemma TornWholeScans()
    ensures ScanFrom(LengthPrefixed, Torn() + [0], 0) == Some(0) && Greedy(LengthPrefixed, Torn() + [0]) == Parsed([[0], [0]], 50)
  {
    hide LE64, LengthPrefixed, Torn;
    var whole := Torn() + [0];
    TornBytes();
    TwoShortTxs();
    WholeOf(whole);
    assert ParseEntry(LengthPrefixed, whole) == Some(Parsed([[0], [0]], 50));
    assert whole[50..] == [];
    assert Greedy(LengthPrefixed, []) == Parsed([], 0);
  }

  /** Scanned as it is, the boundary is the second byte; with one more byte, it is the first. */
  lemma TornScans()
    ensures ScanFrom(LengthPrefixed, Torn(), 0) == Some(1) && Greedy(LengthPrefixed, Torn()[1..]) == Parsed([], 48)
    ensures ScanFrom(LengthPrefixed, Torn() + [0], 0) == Some(0) && Greedy(LengthPrefixed, Torn() + [0]) == Parsed([[0], [0]], 50)
  {
    hide ScanFrom, Greedy, Torn;
    TornAloneScans();
    TornWholeScans();
    TornBytes();
  }

  lemma AtOffset(b: seq<byte>, o: nat)
    requires o + ENTRY_HEADER <= |b|
    ensures LE64(b, o + TX_COUNT_OFF) == LE64(b[o..], TX_COUNT_OFF)
  {
  }

  /** What settling emits: nothing while no boundary is found, then the parse from there. */
  lemma SettleEmits(txLen: TxLen, m: Slot)
    ensures var f, r := Flush(m), Settle(txLen, m);
            && r.buf == f.buf && r.next == f.next && r.payloads == f.payloads
            && r.hist.anchor == m.hist.anchor && r.hist.accepted == m.hist.accepted
            && if m.scanned then
                 && r.scanned && m.consumed <= |f.buf| && r.hist.emitted == m.hist.emitted + Greedy(txLen, f.buf[m.consumed..]).txs
               else
                 && m.consumed <= |f.buf|
                 && match ScanFrom(txLen, f.buf[m.consumed..], 0)
                    case None => !r.scanned && r.consumed == m.consumed && r.hist.emitted == m.hist.emitted
                    case Some(at) =>
                      && r.scanned && m.consumed + at <= |f.buf|
                      && var got := Greedy(txLen, f.buf[m.consumed + at..]);
                      r.hist.emitted == m.hist.emitted + got.txs && r.consumed == m.consumed + at + got.size
  {
    hide Greedy, ScanFrom, Flush;
    FlushFrame(m);
  }

  /** The fields of a slot that decide what it emits next. */
  ghost predicate Standing(s: Slot, next: nat, buf: seq<byte>, payloads: map<nat, seq<byte>>, scanned: bool, consumed: nat, emitted: seq<Tx>, accepted: set<nat>) {
    && s.next == next && s.buf == buf && s.payloads == payloads && s.scanned == scanned && s.consumed == consumed
    && s.hist.emitted == emitted && s.hist.anchor == Some(1) && s.hist.accepted == accepted
  }

  lemma NothingScanned()
    ensures ScanFrom(LengthPrefixed, [], 0).None?
  {
  }

  lemma TornFirst()
    ensures Standing(Deliver(LengthPrefixed, Empty, 1, [], false), 2, [], map[], false, 0, [], {1})
  {
    hide Settle, LengthPrefixed;
    var d := Direct(Empty, 1, [], false);
    DirectNext(Empty, 1, []);
    FlushOnlyHeld(d, []);
    NothingScanned();
    SettleEmits(LengthPrefixed, d);
    assert Flush(d).buf == [] && Flush(d).buf[0..] == [];
  }

  lemma DirectFrame(s: Slot, i: nat, x: seq<byte>)
    requires s.hist.anchor == Some(1) && s.next < UNSET
    ensures var d := Direct(s, i, x, false);
            && d.scanned == s.scanned && d.consumed == s.consumed && d.hist.emitted == s.hist.emitted
            && d.hist.anchor == Some(1) && d.hist.accepted == s.hist.accepted + {i}
  {
  }

  lemma WholeOf(b: seq<byte>)
    ensures [] + b == b && b[0..] == b
  {
  }

  lemma TornAlone(s: Slot)
    requires Standing(s, 2, [], map[], false, 0, [], {1})
    ensures Standing(Deliver(LengthPrefixed, s, 2, Torn(), false), 3, Torn(), map[], true, 49, [], {1, 2})
  {
    hide Settle, LengthPrefixed, Flush, Direct, Torn, Greedy, ScanFrom;
    var d := Direct(s, 2, Torn(), false);
    DirectNext(s, 2, Torn());
    DirectFrame(s, 2, Torn());
    FlushOnlyHeld(d, Torn());
    TornScans();
    SettleEmits(LengthPrefixed, d);
    WholeOf(Torn());
    assert Flush(d).buf == Torn() && d.consumed == 0 && !d.scanned;
  }

  lemma TooShort()
    ensures Greedy(LengthPrefixed, [0]) == Parsed([], 0)
  {
  }

  lemma TornThenOne(t: Slot)
    requires Standing(t, 3, Torn(), map[], true, 49, [], {1, 2})
    ensures var r := Deliver(LengthPrefixed, t, 3, [0], false);
            r.hist.emitted == [] && r.hist.anchor == Some(1) && r.hist.accepted == {1, 2, 3}
  {
    hide Settle, LengthPrefixed, Flush, Direct, Torn, Greedy, ScanFrom;
    var e := Direct(t, 3, [0], false);
    TooShort();
    DirectNext(t, 3, [0]);
    DirectFrame(t, 3, [0]);
    FlushOnlyHeld(e, [0]);
    TornBytes();
    SettleEmits(LengthPrefixed, e);
    assert {1, 2} + {3} == {1, 2, 3};
  }

  /** Index 2, then index 3: the torn bytes are scanned alone. */
  lemma TornInOrder(s: Slot)
    requires Standing(s, 2, [], map[], false, 0, [], {1})
    ensures var r := Deliver(LengthPrefixed, Deliver(LengthPrefixed, s, 2, Torn(), false), 3, [0], false);
            r.hist.emitted == [] && r.hist.anchor == Some(1) && r.hist.accepted == {1, 2, 3}
  {
    hide Deliver, Standing, LengthPrefixed, Torn;
    TornAlone(s);
    TornThenOne(Deliver(LengthPrefixed, s, 2, Torn(), false));
  }

  lemma FirstOfTwo(d: Slot, n: nat, x: seq<byte>, y: seq<byte>)
    requires d.next == n < UNSET && d.payloads == map[n := x, n + 1 := y]
    ensures var f := FlushOne(d); f.payloads == map[n + 1 := y] && f.next == n + 1 && f.buf == d.buf + x
  {
    hide Flush;
    assert (n + 1) % U32_SIZE == n + 1;
  }

  lemma FlushTwoHeld(d: Slot, x: seq<byte>, y: seq<byte>)
    requires d.next < UNSET && d.payloads == map[d.next := x, d.next + 1 := y]
    ensures Flush(d).buf == (d.buf + x) + y && Flush(d).payloads == map[]
  {
    hide FlushOne;
    FirstOfTwo(d, d.next, x, y);
    FlushOnlyHeld(FlushOne(d), y);
    assert d.next in d.payloads;
  }

  lemma TornHeld(s: Slot)
    requires Standing(s, 2, [], map[], false, 0, [], {1})
    ensures Standing(Deliver(LengthPrefixed, s, 3, [0], false), 2, [], map[3 := [0]], false, 0, [], {1, 3})
  {
    hide Settle, LengthPrefixed;
    var d := Direct(s, 3, [0], false);
    assert d.payloads == map[3 := [0]] && d.next == 2 && Flush(d) == d;
    NothingScanned();
    SettleEmits(LengthPrefixed, d);
    assert d.buf[0..] == [];
  }

  lemma TornDirect(t: Slot)
    requires Standing(t, 2, [], map[3 := [0]], false, 0, [], {1, 3})
    ensures var e := Direct(t, 2, Torn(), false);
            && e.payloads == map[2 := Torn(), 3 := [0]] && e.next == 2 && e.buf == [] && !e.scanned && e.consumed == 0
            && e.hist.emitted == [] && e.hist.anchor == Some(1) && e.hist.accepted == {1, 2, 3}
  {
  }

  lemma TornBoth(t: Slot)
    requires Standing(t, 2, [], map[3 := [0]], false, 0, [], {1, 3})
    ensures var r := Deliver(LengthPrefixed, t, 2, Torn(), false);
            r.hist.emitted == [[0], [0]] && r.hist.anchor == Some(1) && r.hist.accepted == {1, 2, 3}
  {
    hide Settle, LengthPrefixed, Flush, Direct, Torn, Greedy, ScanFrom;
    var e, whole := Direct(t, 2, Torn(), false), Torn() + [0];
    TornDirect(t);
    FlushTwoHeld(e, Torn(), [0]);
    WholeOf(Torn());
    TornScans();
    SettleEmits(LengthPrefixed, e);
    WholeOf(whole);
  }

  /** Index 3, held, then index 2: both are scanned at once. */
  lemma TornOutOfOrder(s: Slot)
    requires Standing(s, 2, [], map[], false, 0, [], {1})
    ensures var r := Deliver(LengthPrefixed, Deliver(LengthPrefixed, s, 3, [0], false), 2, Torn(), false);
            r.hist.emitted == [[0], [0]] && r.hist.anchor == Some(1) && r.hist.accepted == {1, 2, 3}
  {
    hide Deliver, Standing, LengthPrefixed, Torn;
    TornHeld(s);
    TornBoth(Deliver(LengthPrefixed, s, 3, [0], false));
  }

  ghost function TornEnv(): (env: Env) { Env(LengthPrefixed, ShiftCode([])) }

  function TornPayload(i: nat): (b: seq<byte>) {
    if i == 2 then Torn() else if i == 3 then [0] else []
  }

  function TornBlock(): (blk: Block) {
    Block(TornPayload, map[])
  }

  function TornSent(s: u64, i: u32): (p: Packet)
    requires i in {1, 2, 3}
  {
    Sent(s, i, TornPayload(i))
  }

  lemma TornBroadcast(s: u64, i: u32, j: u32)
    requires {i, j} == {2, 3}
    ensures Broadcast(TornEnv(), TornBlock(), s, [TornSent(s, 1), TornSent(s, i), TornSent(s, j)])
  {
    hide ToShard;
    LengthPrefixedIsSelfDelimiting();
    ShiftIsLawful([]);
  }

  lemma TornRun(s: u64, i: u32, j: u32)
    requires s > 0 && {i, j} == {2, 3}
    ensures var txLen, x, y := LengthPrefixed, TornPayload(i), TornPayload(j);
            var st := Run(TornEnv(), [TornSent(s, 1), TornSent(s, i), TornSent(s, j)]);
            && s in st.slots.live
            && st.slots.live[s] == Deliver(txLen, Deliver(txLen, Deliver(txLen, Empty, 1, [], false), i, x, false), j, y, false)
  {
    hide Run, Deliver, Sent;
    var env, p, q, r := TornEnv(), TornSent(s, 1), TornSent(s, i), TornSent(s, j);
    SentFirst(env, s, 1, []);
    SentNext(env, s, [p], i, TornPayload(i));
    assert [p] + [q] == [p, q] && [p, q] + [r] == [p, q, r];
    SentNext(env, s, [p, q], j, TornPayload(j));
  }

  /** Two runs over one block with the same anchor and the same accepted indices, delivered in another
      order, that emit different transactions: off anchor 0, `RunsAgree` needs its boundaries equal. */
  lemma BoundaryDependsOnOrder(s: u64)
    requires s > 0
    ensures var env, blk := TornEnv(), TornBlock();
            var ps, qs := [TornSent(s, 1), TornSent(s, 2), TornSent(s, 3)], [TornSent(s, 1), TornSent(s, 3), TornSent(s, 2)];
            && Broadcast(env, blk, s, ps) && Broadcast(env, blk, s, qs)
            && s in Run(env, ps).slots.live && s in Run(env, qs).slots.live
            && var a, b := Run(env, ps).slots.live[s], Run(env, qs).slots.live[s];
            && a.hist.anchor == b.hist.anchor && a.hist.accepted == b.hist.accepted
            && a.hist.emitted == [] && b.hist.emitted == [[0], [0]]
  {
    hide Run, Deliver, Broadcast, TornSent, LengthPrefixed;
    TornBroadcast(s, 2, 3);
    TornBroadcast(s, 3, 2);
    TornRun(s, 2, 3);
    TornRun(s, 3, 2);
    TornFirst();
    TornInOrder(Deliver(LengthPrefixed, Empty, 1, [], false));
    TornOutOfOrder(Deliver(LengthPrefixed, Empty, 1, [], false));
  }
}
