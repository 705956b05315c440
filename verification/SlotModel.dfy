/** The value a slot's reassembly state denotes, its transitions, and what they keep. */
module SlotModel {
  import opened Wrappers
  import opened Bytes
  import opened EntryCodec
  import opened ShredWire

  /** The value of `next_contiguous` that means "no shred yet". */
  const UNSET: nat := 0xFFFF_FFFF

  /** History of a slot that the program does not store: the first accepted index, the set of
      accepted indices, those marked last in slot, the payloads flushed in order, where the
      Entry boundary was put and how many bytes were there at the time, and all transactions
      emitted. */
  datatype History = History(
    anchor: Option<nat>, accepted: set<nat>, lasts: set<nat>, chunks: seq<seq<byte>>,
    boundary: nat, scanLen: nat, emitted: seq<Tx>)

  datatype RawSlot = RawSlot(
    payloads: map<nat, seq<byte>>, next: nat, buf: seq<byte>, consumed: nat, maxIndex: nat,
    lastSeen: bool, txsDecoded: nat, shredsSeen: nat, fecRecovered: nat, counted: bool,
    scanned: bool, hist: History)

  type Slot = s: RawSlot | s.consumed <= |s.buf|
    witness Empty

  const Empty: RawSlot :=
    RawSlot(map[], UNSET, [], 0, 0, false, 0, 0, 0, false, false,
            History(None, {}, {}, [], 0, 0, []))

  function SetFirst(s: Slot, i: nat): (r: Slot) {
    var h := if s.hist.anchor.None? then s.hist.(anchor := Some(i)) else s.hist;
    if s.next == UNSET then s.(next := i, scanned := i == 0, hist := h) else s.(hist := h)
  }

  /** One data shred enters the slot, whether received or recovered. */
  function Accept(s: Slot, i: nat, payload: seq<byte>, last: bool): (r: Slot) {
    var a := SetFirst(s, i);
    a.(payloads := a.payloads[i := payload],
       maxIndex := if i > a.maxIndex then i else a.maxIndex,
       lastSeen := a.lastSeen || last,
       hist := a.hist.(accepted := a.hist.accepted + {i},
                       lasts := if last then a.hist.lasts + {i} else a.hist.lasts))
  }

  /** Move the payload at the next index into the buffer. The index wraps as a u32. */
  function FlushOne(s: Slot): (r: Slot)
    requires s.next in s.payloads
    ensures |r.payloads| < |s.payloads|
  {
    assert (s.payloads - {s.next}).Keys == s.payloads.Keys - {s.next};
    s.(payloads := s.payloads - {s.next}, buf := s.buf + s.payloads[s.next], next := (s.next + 1) % U32_SIZE,
       hist := s.hist.(chunks := s.hist.chunks + [s.payloads[s.next]]))
  }

  function Flush(s: Slot): (r: Slot)
    decreases |s.payloads|
  {
    if s.next in s.payloads then Flush(FlushOne(s)) else s
  }

  /** Find the first Entry boundary, once. */
  function Locate(txLen: TxLen, s: Slot): (r: Slot) {
    if s.scanned then s else
    var off := ScanFrom(txLen, s.buf[s.consumed..], 0);
    if off.None? then s else
    s.(consumed := s.consumed + off.value, scanned := true,
       hist := s.hist.(boundary := s.consumed + off.value, scanLen := |s.buf|))
  }

  /** What one call of the deserializer decodes. */
  function Pending(txLen: TxLen, s: Slot): (r: Parsed)
    ensures r.size <= |Locate(txLen, s).buf| - Locate(txLen, s).consumed
  {
    var l := Locate(txLen, s);
    if !l.scanned then Parsed([], 0) else Greedy(txLen, l.buf[l.consumed..])
  }

  function Deserialize(txLen: TxLen, s: Slot): (r: Slot) {
    var l, got := Locate(txLen, s), Pending(txLen, s);
    l.(consumed := l.consumed + got.size, txsDecoded := l.txsDecoded + |got.txs|,
       hist := l.hist.(emitted := l.hist.emitted + got.txs))
  }

  predicate ReadyToComplete(s: Slot) {
    s.lastSeen && s.next > s.maxIndex && !s.counted
  }

  /** Flush, mark complete when due, deserialize: what follows every acceptance. */
  function Settle(txLen: TxLen, s: Slot): (r: Slot) {
    var f := Flush(s);
    Deserialize(txLen, f.(counted := f.counted || ReadyToComplete(f)))
  }

  /** A shred delivered directly. A held index is replaced without being counted again. */
  function Direct(s: Slot, i: nat, payload: seq<byte>, last: bool): (r: Slot) {
    Accept(s, i, payload, last).(shredsSeen := s.shredsSeen + if i in s.payloads then 0 else 1)
  }

  function GlobalIndex(fecSet: nat, position: nat): (r: nat) {
    if fecSet + position > UNSET then UNSET else fecSet + position
  }

  datatype Row = Row(position: nat, shard: Shard)

  /** Recovered rows enter the slot in order; a row whose index is held or that is no data shred
      is skipped. The number entered is returned too. */
  function AcceptRows(s: Slot, fecSet: nat, rows: seq<Row>): (r: (Slot, nat)) {
    if rows == [] then (s, 0) else
    var (t, n) := AcceptRows(s, fecSet, rows[..|rows| - 1]);
    var row := rows[|rows| - 1];
    var i, data := GlobalIndex(fecSet, row.position), ParseData(row.shard);
    if i in t.payloads || data.None? then (t, n)
    else (Accept(t, i, data.value.payload, data.value.last), n + 1)
  }

  function CountRows(s: Slot, n: nat): (r: Slot) {
    s.(shredsSeen := s.shredsSeen + n, fecRecovered := s.fecRecovered + n)
  }

  /** The slot's part of one recovery. */
  function Recover(txLen: TxLen, s: Slot, fecSet: nat, rows: seq<Row>): (r: Slot) {
    var (t, n) := AcceptRows(s, fecSet, rows);
    if n == 0 then t else Settle(txLen, CountRows(t, n))
  }

  /** The slot's part of one direct delivery. */
  function Deliver(txLen: TxLen, s: Slot, i: nat, payload: seq<byte>, last: bool): (r: Slot) {
    Settle(txLen, Direct(s, i, payload, last))
  }

  // ---- What every slot keeps ----------------------------------------------------------

  /** The run from the first accepted index stops short of the sentinel: it does not start there, and
      an index before it is missing. */
  ghost predicate Bounded(s: Slot) {
    s.hist.anchor.Some? ==>
      s.hist.anchor.value < UNSET && exists i :: s.hist.anchor.value <= i < UNSET && i !in s.hist.accepted
  }

  /** The fields that summarise the accepted indices do so. */
  ghost predicate Tallied(s: Slot) {
    && s.payloads.Keys <= s.hist.accepted
    && s.hist.lasts <= s.hist.accepted
    && (s.lastSeen <==> s.hist.lasts != {})
    && (forall i | i in s.hist.accepted :: i <= s.maxIndex)
    && (if s.hist.accepted == {} then s.maxIndex == 0 else s.maxIndex in s.hist.accepted)
  }

  /** The flushed indices are exactly a contiguous run from the anchor, and every accepted one
      outside the run is still held. */
  ghost predicate InRun(s: Slot) {
    && s.buf == Flatten(s.hist.chunks)
    && match s.hist.anchor
       case None => s.hist.accepted == {} && s.next == UNSET && s.hist.chunks == [] && !s.scanned
       case Some(a) =>
         && a in s.hist.accepted && a <= s.next < UNSET && |s.hist.chunks| == s.next - a
         && (forall i | a <= i < s.next :: i in s.hist.accepted)
         && (forall i | i in s.hist.accepted && !(a <= i < s.next) :: i in s.payloads)
  }

  ghost predicate Indexed(s: Slot) {
    Bounded(s) && Tallied(s) && InRun(s)
  }

  ghost predicate Core(s: Slot) {
    Indexed(s) && s.shredsSeen >= |s.hist.accepted|
  }

  /** The transactions emitted are the greedy parse of `b` from the boundary. */
  ghost predicate Streaming(txLen: TxLen, s: Slot, b: seq<byte>) {
    && s.scanned && s.hist.boundary <= |b|
    && s.consumed == s.hist.boundary + Greedy(txLen, b[s.hist.boundary..]).size
    && s.hist.emitted == Greedy(txLen, b[s.hist.boundary..]).txs
  }

  /** The boundary is 0 for a slot anchored at index 0; otherwise it is the least position that
      decoded in the buffer present when it was fixed. */
  ghost predicate BoundaryFixed(txLen: TxLen, s: Slot, b: seq<byte>) {
    if s.hist.anchor == Some(0) then s.hist.boundary == 0 else
    s.hist.scanLen <= |b| && ScanFrom(txLen, b[..s.hist.scanLen], 0) == Some(s.hist.boundary)
  }

  /** No position has decoded yet and nothing was emitted. */
  ghost predicate Waiting(txLen: TxLen, s: Slot, b: seq<byte>) {
    && !s.scanned && s.hist.anchor != Some(0)
    && s.consumed == 0 && s.hist.boundary == 0 && s.hist.emitted == [] && ScanFrom(txLen, b, 0).None?
  }

  ghost predicate ParsedUpTo(txLen: TxLen, s: Slot, b: seq<byte>) {
    b <= s.buf && (Waiting(txLen, s, b) || (Streaming(txLen, s, b) && BoundaryFixed(txLen, s, b)))
  }

  /** What holds between two packets. */
  ghost predicate Sound(txLen: TxLen, s: Slot) {
    Core(s) && s.next !in s.payloads && ParsedUpTo(txLen, s, s.buf) && s.txsDecoded == |s.hist.emitted|
  }

  /** Held and flushed payloads are those of one block. */
  ghost predicate Honest(s: Slot, payload: nat -> seq<byte>) {
    && (forall i | i in s.payloads :: s.payloads[i] == payload(i))
    && (s.hist.anchor.Some? ==>
          forall k | 0 <= k < |s.hist.chunks| :: s.hist.chunks[k] == payload(s.hist.anchor.value + k))
  }

  lemma EmptyIsSound(txLen: TxLen)
    ensures Sound(txLen, Empty)
  {
  }

  lemma AcceptKeepsTallied(s: Slot, i: nat, payload: seq<byte>, last: bool)
    requires Tallied(s)
    ensures Tallied(Accept(s, i, payload, last))
  {
    var r := Accept(s, i, payload, last);
    assert r.payloads.Keys == s.payloads.Keys + {i};
    assert last ==> i in r.hist.lasts;
  }

  lemma AcceptKeepsRun(s: Slot, i: nat, payload: seq<byte>, last: bool)
    requires InRun(s) && Bounded(Accept(s, i, payload, last))
    ensures InRun(Accept(s, i, payload, last))
  {
  }

  /** A slot that is bounded was so with fewer indices. */
  lemma BoundedBefore(s: Slot, t: Slot)
    requires Bounded(t) && s.hist.accepted <= t.hist.accepted
    requires s.hist.anchor.Some? ==> t.hist.anchor == s.hist.anchor
    ensures Bounded(s)
  {
  }

  lemma FlushOneKeepsCore(s: Slot)
    requires Core(s) && s.hist.anchor.Some? && s.next in s.payloads
    ensures Core(FlushOne(s))
  {
    var r := FlushOne(s);
    assert r.hist.chunks[..|r.hist.chunks| - 1] == s.hist.chunks;
    assert r.payloads.Keys == s.payloads.Keys - {s.next};
  }

  /** Flushing touches nothing but the held payloads, the buffer and the next index. */
  ghost predicate OnlyFlushed(s: Slot, f: Slot) {
    && f == s.(payloads := f.payloads, next := f.next, buf := f.buf, hist := f.hist)
    && f.hist == s.hist.(chunks := f.hist.chunks)
    && s.buf <= f.buf
  }

  lemma {:induction false} FlushFrame(s: Slot)
    ensures OnlyFlushed(s, Flush(s)) && Flush(s).next !in Flush(s).payloads
    decreases |s.payloads|
  {
    if s.next in s.payloads {
      FlushFrame(FlushOne(s));
    }
  }

  lemma {:induction false} FlushKeeps(s: Slot)
    requires Core(s) && s.hist.anchor.Some?
    ensures Core(Flush(s))
    decreases |s.payloads|
  {
    if s.next in s.payloads {
      FlushOneKeepsCore(s);
      FlushKeeps(FlushOne(s));
    }
  }

  lemma FlushOneKeepsHonest(s: Slot, payload: nat -> seq<byte>)
    requires Core(s) && s.hist.anchor.Some? && s.next in s.payloads && Honest(s, payload)
    ensures Honest(FlushOne(s), payload)
  {
    hide Tallied, Bounded, Flatten;
  }

  lemma {:induction false} FlushKeepsHonest(s: Slot, payload: nat -> seq<byte>)
    requires Core(s) && s.hist.anchor.Some? && Honest(s, payload)
    ensures Honest(Flush(s), payload)
    decreases |s.payloads|
  {
    if s.next in s.payloads {
      FlushOneKeepsCore(s);
      FlushOneKeepsHonest(s, payload);
      FlushKeepsHonest(FlushOne(s), payload);
    }
  }

  lemma ScanCatchesUp(txLen: TxLen, s: Slot, b: seq<byte>)
    requires Waiting(txLen, s, b)
    ensures var l := Locate(txLen, s);
            Waiting(txLen, l, s.buf) || (BoundaryFixed(txLen, l, s.buf) && l.scanned && l.consumed == l.hist.boundary)
    ensures Locate(txLen, s).hist.emitted == []
  {
    assert s.buf[0..] == s.buf && s.buf[..|s.buf|] == s.buf;
  }

  lemma StreamCatchesUp(txLen: TxLen, s: Slot, b: seq<byte>)
    requires SelfDelimiting(txLen) && b <= s.buf && Streaming(txLen, s, b)
    ensures Streaming(txLen, Deserialize(txLen, s), s.buf)
  {
    var h := s.hist.boundary;
    var first := Greedy(txLen, b[h..]);
    var second := Greedy(txLen, s.buf[s.consumed..]);
    assert Greedy(txLen, s.buf[h..]) == first.Then(second) by {
      GreedyResumes(txLen, b, s.buf, h);
    }
    assert Pending(txLen, s) == second;
  }

  lemma BoundaryStays(txLen: TxLen, s: Slot, b: seq<byte>)
    requires b <= s.buf && s.scanned && BoundaryFixed(txLen, s, b)
    ensures BoundaryFixed(txLen, Deserialize(txLen, s), s.buf)
  {
    if s.hist.anchor != Some(0) {
      assert s.buf[..s.hist.scanLen] == b[..s.hist.scanLen];
    }
  }

  lemma ScannedCatchesUp(txLen: TxLen, s: Slot, b: seq<byte>)
    requires SelfDelimiting(txLen) && ParsedUpTo(txLen, s, b) && s.scanned
    ensures ParsedUpTo(txLen, Deserialize(txLen, s), s.buf)
  {
    hide Streaming, BoundaryFixed, Greedy, ScanFrom;
    StreamCatchesUp(txLen, s, b);
    BoundaryStays(txLen, s, b);
  }

  lemma WaitingCatchesUp(txLen: TxLen, s: Slot, b: seq<byte>)
    requires ParsedUpTo(txLen, s, b) && !s.scanned
    ensures ParsedUpTo(txLen, Deserialize(txLen, s), s.buf)
  {
    hide Greedy, ScanFrom;
    ScanCatchesUp(txLen, s, b);
  }

  /** Deserializing with the buffer grown to `s.buf` since the last parse at `b`. */
  lemma DeserializeCatchesUp(txLen: TxLen, s: Slot, b: seq<byte>)
    requires SelfDelimiting(txLen) && ParsedUpTo(txLen, s, b)
    ensures ParsedUpTo(txLen, Deserialize(txLen, s), s.buf)
  {
    if s.scanned {
      ScannedCatchesUp(txLen, s, b);
    } else {
      WaitingCatchesUp(txLen, s, b);
    }
  }

  lemma DeserializeKeepsCore(txLen: TxLen, s: Slot)
    requires Core(s) && (s.scanned ==> s.hist.anchor.Some?)
    requires s.hist.anchor.Some? && s.txsDecoded == |s.hist.emitted|
    ensures var d := Deserialize(txLen, s);
            Core(d) && d.payloads == s.payloads && d.next == s.next && d.txsDecoded == |d.hist.emitted|
  {
  }

  lemma MarkingKeeps(txLen: TxLen, s: Slot, b: seq<byte>, counted: bool)
    requires Core(s) && ParsedUpTo(txLen, s, b)
    ensures Core(s.(counted := counted)) && ParsedUpTo(txLen, s.(counted := counted), b)
  {
  }

  lemma FlushKeepsParse(txLen: TxLen, s: Slot, b: seq<byte>)
    requires Core(s) && s.hist.anchor.Some? && ParsedUpTo(txLen, s, b)
    ensures ParsedUpTo(txLen, Flush(s), b)
  {
    FlushFrame(s);
  }

  /** Ready to be settled: an index was accepted since the buffer was parsed up to `b`. */
  ghost predicate Unsettled(txLen: TxLen, s: Slot, b: seq<byte>) {
    Core(s) && s.hist.anchor.Some? && ParsedUpTo(txLen, s, b) && s.txsDecoded == |s.hist.emitted|
  }

  /** Everything that follows an acceptance re-establishes what holds between packets. */
  lemma SettleSound(txLen: TxLen, s: Slot, b: seq<byte>)
    requires SelfDelimiting(txLen) && Unsettled(txLen, s, b)
    ensures Sound(txLen, Settle(txLen, s))
  {
    var f := Flush(s);
    FlushKeeps(s);
    FlushFrame(s);
    FlushKeepsParse(txLen, s, b);
    MarkingKeeps(txLen, f, b, f.counted || ReadyToComplete(f));
    var c: Slot := f.(counted := f.counted || ReadyToComplete(f));
    DeserializeCatchesUp(txLen, c, b);
    DeserializeKeepsCore(txLen, c);
  }

  lemma AcceptKeepsParse(txLen: TxLen, s: Slot, b: seq<byte>, i: nat, payload: seq<byte>, last: bool)
    requires InRun(s) && ParsedUpTo(txLen, s, b)
    ensures ParsedUpTo(txLen, Accept(s, i, payload, last), b)
  {
    if s.hist.anchor.None? {
      assert s.buf == [] && b == [];
    }
  }

  lemma DirectKeepsCore(s: Slot, i: nat, payload: seq<byte>, last: bool)
    requires Core(s) && Bounded(Direct(s, i, payload, last))
    ensures Core(Direct(s, i, payload, last))
  {
    AcceptKeepsTallied(s, i, payload, last);
    AcceptKeepsRun(s, i, payload, last);
    assert i in s.payloads ==> s.hist.accepted + {i} == s.hist.accepted;
  }

  lemma DirectKeepsParse(txLen: TxLen, s: Slot, i: nat, payload: seq<byte>, last: bool)
    requires Core(s) && ParsedUpTo(txLen, s, s.buf) && s.txsDecoded == |s.hist.emitted|
    ensures var d := Direct(s, i, payload, last);
            ParsedUpTo(txLen, d, s.buf) && d.hist.anchor.Some? && d.txsDecoded == |d.hist.emitted|
  {
    AcceptKeepsParse(txLen, s, s.buf, i, payload, last);
  }

  lemma DirectUnsettled(txLen: TxLen, s: Slot, i: nat, payload: seq<byte>, last: bool)
    requires Sound(txLen, s) && Bounded(Direct(s, i, payload, last))
    ensures Unsettled(txLen, Direct(s, i, payload, last), s.buf)
  {
    hide Core, ParsedUpTo, Direct, Bounded;
    DirectKeepsCore(s, i, payload, last);
    DirectKeepsParse(txLen, s, i, payload, last);
  }

  /** A direct delivery keeps a slot sound as long as its run stops short of the sentinel. */
  lemma DeliverSound(txLen: TxLen, s: Slot, i: nat, payload: seq<byte>, last: bool)
    requires SelfDelimiting(txLen) && Sound(txLen, s) && Bounded(Direct(s, i, payload, last))
    ensures Sound(txLen, Deliver(txLen, s, i, payload, last))
  {
    DirectUnsettled(txLen, s, i, payload, last);
    SettleSound(txLen, Direct(s, i, payload, last), s.buf);
  }

  /** Between two rows of one recovery of `s`, `n` of them entered. */
  ghost predicate MidRecovery(txLen: TxLen, s: Slot, t: Slot, n: nat) {
    && Indexed(t) && ParsedUpTo(txLen, t, s.buf)
    && |t.hist.accepted| <= |s.hist.accepted| + n
    && t.shredsSeen == s.shredsSeen && t.txsDecoded == |t.hist.emitted|
    && (n == 0 ==> t == s) && (n > 0 ==> t.hist.anchor.Some?)
  }

  lemma AcceptKeepsMidRecovery(txLen: TxLen, s: Slot, t: Slot, n: nat, i: nat, data: DataPart)
    requires MidRecovery(txLen, s, t, n) && Bounded(Accept(t, i, data.payload, data.last))
    ensures MidRecovery(txLen, s, Accept(t, i, data.payload, data.last), n + 1)
  {
    AcceptKeepsTallied(t, i, data.payload, data.last);
    AcceptKeepsRun(t, i, data.payload, data.last);
    AcceptKeepsParse(txLen, t, s.buf, i, data.payload, data.last);
  }

  lemma RecoveryBegins(txLen: TxLen, s: Slot)
    requires Sound(txLen, s)
    ensures MidRecovery(txLen, s, s, 0)
  {
  }

  lemma BoundedUntil(t: Slot, i: nat, payload: seq<byte>, last: bool)
    requires Bounded(Accept(t, i, payload, last))
    ensures Bounded(t)
  {
    BoundedBefore(t, Accept(t, i, payload, last));
  }

  lemma {:induction false} AcceptRowsKeeps(txLen: TxLen, s: Slot, fecSet: nat, rows: seq<Row>)
    requires Sound(txLen, s) && Bounded(AcceptRows(s, fecSet, rows).0)
    ensures MidRecovery(txLen, s, AcceptRows(s, fecSet, rows).0, AcceptRows(s, fecSet, rows).1)
  {
    hide Bounded, MidRecovery, Sound, Accept, GlobalIndex, ParseData;
    if rows == [] {
      RecoveryBegins(txLen, s);
    } else {
      var (t, n) := AcceptRows(s, fecSet, rows[..|rows| - 1]);
      var row := rows[|rows| - 1];
      var i, data := GlobalIndex(fecSet, row.position), ParseData(row.shard);
      if i !in t.payloads && data.Some? {
        BoundedUntil(t, i, data.value.payload, data.value.last);
      }
      AcceptRowsKeeps(txLen, s, fecSet, rows[..|rows| - 1]);
      if i !in t.payloads && data.Some? {
        AcceptKeepsMidRecovery(txLen, s, t, n, i, data.value);
      }
    }
  }

  lemma CountRowsUnsettled(txLen: TxLen, s: Slot, t: Slot, n: nat)
    requires Sound(txLen, s) && MidRecovery(txLen, s, t, n) && n > 0
    ensures Unsettled(txLen, CountRows(t, n), s.buf)
  {
    assert ParsedUpTo(txLen, CountRows(t, n), s.buf);
    assert Core(CountRows(t, n));
  }

  /** A recovery keeps a slot sound as long as its run stops short of the sentinel. */
  lemma RecoverSound(txLen: TxLen, s: Slot, fecSet: nat, rows: seq<Row>)
    requires SelfDelimiting(txLen) && Sound(txLen, s) && Bounded(AcceptRows(s, fecSet, rows).0)
    ensures Sound(txLen, Recover(txLen, s, fecSet, rows))
  {
    var (t, n) := AcceptRows(s, fecSet, rows);
    AcceptRowsKeeps(txLen, s, fecSet, rows);
    if n > 0 {
      CountRowsUnsettled(txLen, s, t, n);
      SettleSound(txLen, CountRows(t, n), s.buf);
    }
  }
}
