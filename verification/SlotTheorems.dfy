/** What the reassembly of one slot promises. */
module SlotTheorems {
  import opened Wrappers
  import opened Bytes
  import opened EntryCodec
  import opened ShredWire
  import opened SlotModel

  /** The payloads of the indices from `a` up to `b`, concatenated. */
  function Concat(payload: nat -> seq<byte>, a: nat, b: nat): (r: seq<byte>)
    decreases b
  {
    if a >= b then [] else Concat(payload, a, b - 1) + payload(b - 1)
  }

  lemma {:induction false} FlattenIsConcat(payload: nat -> seq<byte>, chunks: seq<seq<byte>>, a: nat)
    requires forall k | 0 <= k < |chunks| :: chunks[k] == payload(a + k)
    ensures Flatten(chunks) == Concat(payload, a, a + |chunks|)
  {
    if chunks != [] {
      FlattenIsConcat(payload, chunks[..|chunks| - 1], a);
    }
  }

  /** The run of accepted indices that starts at `a` ends before `end`, and cannot be extended. */
  ghost predicate MaximalRun(accepted: set<nat>, a: nat, end: nat) {
    a <= end && (forall i | a <= i < end :: i in accepted) && end !in accepted
  }

  lemma MaximalRunUnique(accepted: set<nat>, a: nat, e1: nat, e2: nat)
    requires MaximalRun(accepted, a, e1) && MaximalRun(accepted, a, e2)
    ensures e1 == e2
  {
  }

  /** Between packets, the flushed bytes are the payloads of the maximal contiguous run of accepted
      indices from the anchor, each once and in order. */
  lemma BufferIsMaximalRun(txLen: TxLen, s: Slot, payload: nat -> seq<byte>)
    requires Sound(txLen, s) && Honest(s, payload) && s.hist.anchor.Some?
    ensures MaximalRun(s.hist.accepted, s.hist.anchor.value, s.next)
    ensures s.buf == Concat(payload, s.hist.anchor.value, s.next)
  {
    FlattenIsConcat(payload, s.hist.chunks, s.hist.anchor.value);
  }

  /** Between packets, a slot anchored at index 0 has emitted exactly the greedy parse of the
      payloads of the maximal contiguous run from 0. */
  lemma EmittedIsGreedyParse(txLen: TxLen, s: Slot, payload: nat -> seq<byte>)
    requires Sound(txLen, s) && Honest(s, payload) && s.hist.anchor == Some(0)
    ensures MaximalRun(s.hist.accepted, 0, s.next)
    ensures Parsed(s.hist.emitted, s.consumed) == Greedy(txLen, Concat(payload, 0, s.next))
  {
    BufferIsMaximalRun(txLen, s, payload);
    assert s.buf[0..] == s.buf;
  }

  /** Order, duplication and the recovery path leave no trace: two slots of one block with the same
      anchor and the same accepted indices hold the same buffer and, when they agree on the
      boundary (always at anchor 0), have emitted the same transactions. */
  lemma PathIndependent(txLen: TxLen, s: Slot, t: Slot, payload: nat -> seq<byte>)
    requires Sound(txLen, s) && Sound(txLen, t) && Honest(s, payload) && Honest(t, payload)
    requires s.hist.anchor == t.hist.anchor && s.hist.accepted == t.hist.accepted
    ensures s.next == t.next && s.buf == t.buf && s.maxIndex == t.maxIndex
    ensures s.scanned == t.scanned && s.hist.boundary == t.hist.boundary ==>
              s.hist.emitted == t.hist.emitted && s.consumed == t.consumed
    ensures s.hist.anchor == Some(0) ==> s.hist.emitted == t.hist.emitted && s.consumed == t.consumed
  {
    if s.hist.anchor.Some? {
      BufferIsMaximalRun(txLen, s, payload);
      BufferIsMaximalRun(txLen, t, payload);
      MaximalRunUnique(s.hist.accepted, s.hist.anchor.value, s.next, t.next);
    } else {
      assert s.buf == [] && t.buf == [];
    }
  }

  /** A shred marked last was accepted, and no index is missing from the anchor to the highest
      accepted index. */
  ghost predicate NothingMissing(s: Slot) {
    && s.hist.anchor.Some? && s.hist.lasts != {}
    && forall i, j | s.hist.anchor.value <= i <= j && j in s.hist.accepted :: i in s.hist.accepted
  }

  lemma DeserializeFrame(txLen: TxLen, s: Slot)
    ensures var r := Deserialize(txLen, s);
            && r == s.(consumed := r.consumed, scanned := r.scanned, txsDecoded := r.txsDecoded, hist := r.hist)
            && r.hist == s.hist.(boundary := r.hist.boundary, scanLen := r.hist.scanLen, emitted := r.hist.emitted)
  {
  }

  /** What settling leaves to the deserializer and what only flushing decides. */
  lemma SettleFrame(txLen: TxLen, s: Slot)
    ensures var f, r := Flush(s), Settle(txLen, s);
            && r.payloads == f.payloads && r.next == f.next && r.buf == f.buf && r.maxIndex == f.maxIndex
            && r.lastSeen == f.lastSeen && r.counted == (f.counted || ReadyToComplete(f))
            && r.hist.anchor == f.hist.anchor && r.hist.accepted == f.hist.accepted
            && r.hist.lasts == f.hist.lasts && r.hist.chunks == f.hist.chunks
  {
    var f := Flush(s);
    DeserializeFrame(txLen, f.(counted := f.counted || ReadyToComplete(f)));
  }

  lemma NothingMissingMeansRunReachesEnd(s: Slot)
    requires Indexed(s) && s.next !in s.payloads && s.hist.anchor.Some?
    ensures NothingMissing(s) <==> s.lastSeen && s.next > s.maxIndex
    ensures NothingMissing(s) ==> s.next == s.maxIndex + 1
  {
    var a := s.hist.anchor.value;
    if s.next > s.maxIndex {
      assert s.next == a || s.next - 1 in s.hist.accepted;
    } else {
      assert s.next !in s.hist.accepted && s.maxIndex in s.hist.accepted;
    }
  }

  /** A slot is marked complete exactly when nothing is missing. Then the flushed run ends at the
      highest accepted index and nothing at or after its end is still held. */
  lemma CompleteExactly(txLen: TxLen, s: Slot, b: seq<byte>)
    requires SelfDelimiting(txLen) && Unsettled(txLen, s, b)
    ensures var r := Settle(txLen, s);
            && r.counted == (s.counted || NothingMissing(r))
            && (NothingMissing(r) ==>
                  && r.next == r.maxIndex + 1 && r.maxIndex in r.hist.accepted
                  && |r.hist.chunks| == r.maxIndex + 1 - r.hist.anchor.value
                  && (forall i | i in r.hist.accepted :: i <= r.maxIndex)
                  && (forall i | i in r.payloads :: i < r.next))
  {
    FlushKeeps(s);
    FlushFrame(s);
    SettleFrame(txLen, s);
    NothingMissingMeansRunReachesEnd(Flush(s));
  }

  // ---- Payloads of one block stay payloads of that block ---------------------------------

  lemma AcceptKeepsHonest(s: Slot, i: nat, data: seq<byte>, last: bool, payload: nat -> seq<byte>)
    requires InRun(s) && Honest(s, payload) && data == payload(i)
    ensures Honest(Accept(s, i, data, last), payload)
  {
  }

  lemma DirectHonest(s: Slot, i: nat, data: seq<byte>, last: bool, payload: nat -> seq<byte>)
    requires InRun(s) && Honest(s, payload) && data == payload(i)
    ensures Honest(Direct(s, i, data, last), payload)
  {
    AcceptKeepsHonest(s, i, data, last, payload);
    hide Accept;
  }

  lemma SettleKeepsHonest(txLen: TxLen, s: Slot, b: seq<byte>, payload: nat -> seq<byte>)
    requires Unsettled(txLen, s, b) && Honest(s, payload)
    ensures Honest(Settle(txLen, s), payload)
  {
    hide Flush, Deserialize, Core, ParsedUpTo;
    FlushKeepsHonest(s, payload);
    SettleFrame(txLen, s);
  }

  lemma DeliverHonest(txLen: TxLen, s: Slot, i: nat, data: seq<byte>, last: bool, payload: nat -> seq<byte>)
    requires Sound(txLen, s) && Bounded(Direct(s, i, data, last)) && Honest(s, payload) && data == payload(i)
    ensures Honest(Deliver(txLen, s, i, data, last), payload)
  {
    DirectHonest(s, i, data, last, payload);
    DirectUnsettled(txLen, s, i, data, last);
    SettleKeepsHonest(txLen, Direct(s, i, data, last), s.buf, payload);
  }

  /** Every row that is a data shred carries the payload of its index. */
  ghost predicate HonestRows(fecSet: nat, rows: seq<Row>, payload: nat -> seq<byte>) {
    forall k | 0 <= k < |rows| && ParseData(rows[k].shard).Some? ::
      ParseData(rows[k].shard).value.payload == payload(GlobalIndex(fecSet, rows[k].position))
  }

  lemma {:induction false} AcceptRowsHonest(txLen: TxLen, s: Slot, fecSet: nat, rows: seq<Row>, payload: nat -> seq<byte>)
    requires Sound(txLen, s) && Bounded(AcceptRows(s, fecSet, rows).0)
    requires Honest(s, payload) && HonestRows(fecSet, rows, payload)
    ensures Honest(AcceptRows(s, fecSet, rows).0, payload)
  {
    if rows != [] {
      var front := rows[..|rows| - 1];
      var (t, n) := AcceptRows(s, fecSet, front);
      assert t.hist.accepted <= AcceptRows(s, fecSet, rows).0.hist.accepted;
      AcceptRowsHonest(txLen, s, fecSet, front, payload);
      AcceptRowsKeeps(txLen, s, fecSet, front);
      var row := rows[|rows| - 1];
      var i, data := GlobalIndex(fecSet, row.position), ParseData(row.shard);
      if i !in t.payloads && data.Some? {
        AcceptKeepsHonest(t, i, data.value.payload, data.value.last, payload);
      }
    }
  }

  lemma CountRowsKeepsHonest(s: Slot, n: nat, payload: nat -> seq<byte>)
    requires Honest(s, payload)
    ensures Honest(CountRows(s, n), payload)
  {
  }

  lemma RecoverHonest(txLen: TxLen, s: Slot, fecSet: nat, rows: seq<Row>, payload: nat -> seq<byte>)
    requires Sound(txLen, s) && Bounded(AcceptRows(s, fecSet, rows).0)
    requires Honest(s, payload) && HonestRows(fecSet, rows, payload)
    ensures Honest(Recover(txLen, s, fecSet, rows), payload)
  {
    hide AcceptRows, Settle, Honest, HonestRows, Bounded, ParsedUpTo, Core, Indexed;
    var (t, n) := AcceptRows(s, fecSet, rows);
    AcceptRowsHonest(txLen, s, fecSet, rows, payload);
    AcceptRowsKeeps(txLen, s, fecSet, rows);
    if n == 0 {
      assert Recover(txLen, s, fecSet, rows) == s;
    } else {
      CountRowsUnsettled(txLen, s, t, n);
      CountRowsKeepsHonest(t, n, payload);
      SettleKeepsHonest(txLen, CountRows(t, n), s.buf, payload);
    }
  }

  // ---- The sentinel ----------------------------------------------------------------------

  /** Flushing takes the next index to the sentinel, and perhaps on, wrapping. */
  ghost predicate ReachesSentinel(s: Slot) {
    |Flush(s).hist.chunks| - |s.hist.chunks| >= UNSET - s.next
  }

  lemma {:induction false} FlushReaches(s: Slot)
    requires s.next <= UNSET
    ensures |Flush(s).hist.chunks| >= |s.hist.chunks|
    ensures ReachesSentinel(s) <==> forall i | s.next <= i < UNSET :: i in s.payloads
    ensures !ReachesSentinel(s) ==> Flush(s).next == s.next + (|Flush(s).hist.chunks| - |s.hist.chunks|) < UNSET
    decreases |s.payloads|
  {
    if s.next in s.payloads {
      if s.next < UNSET {
        FlushReaches(FlushOne(s));
        assert forall i | s.next < i < UNSET :: i in s.payloads <==> i in FlushOne(s).payloads;
      } else {
        FlushFromSentinel(s);
      }
    }
  }

  lemma FlushFromSentinel(s: Slot)
    requires s.next == UNSET
    ensures |Flush(s).hist.chunks| >= |s.hist.chunks|
  {
    FlushAdds(s);
  }

  lemma {:induction false} FlushAdds(s: Slot)
    ensures |Flush(s).hist.chunks| >= |s.hist.chunks|
    decreases |s.payloads|
  {
    if s.next in s.payloads {
      FlushAdds(FlushOne(s));
    }
  }

  /** An index was just accepted: as in a run, except that the first may be the sentinel. */
  ghost predicate Accepting(s: Slot) {
    && s.hist.anchor.Some? && s.payloads.Keys <= s.hist.accepted
    && var a := s.hist.anchor.value;
    && a in s.hist.accepted && a <= s.next <= UNSET && (s.next == UNSET ==> a == UNSET)
    && (forall i | a <= i < s.next :: i in s.hist.accepted)
    && (forall i | i in s.hist.accepted && !(a <= i < s.next) :: i in s.payloads)
  }

  /** `next` reaches the sentinel exactly when the first accepted index is the sentinel, or every index
      from it to the sentinel is accepted: when the slot is not bounded. */
  lemma SentinelExactly(s: Slot)
    requires Accepting(s)
    ensures ReachesSentinel(s) <==>
              s.hist.anchor.value == UNSET || forall i | s.hist.anchor.value <= i < UNSET :: i in s.hist.accepted
    ensures ReachesSentinel(s) <==> !Bounded(s)
  {
    FlushReaches(s);
  }

  lemma AcceptAccepting(txLen: TxLen, s: Slot, i: u32, payload: seq<byte>, last: bool)
    requires (s.hist.anchor.None? && Sound(txLen, s)) || (Accepting(s) && s.next != UNSET) || (Indexed(s) && s.hist.anchor.Some?)
    ensures Accepting(Accept(s, i, payload, last))
  {
  }

  /** A direct delivery to a sound slot takes `next` to the sentinel exactly when it completes the run up
      to there. */
  lemma DeliveryReachesExactly(txLen: TxLen, s: Slot, i: u32, payload: seq<byte>, last: bool)
    requires Sound(txLen, s)
    ensures ReachesSentinel(Direct(s, i, payload, last)) <==> !Bounded(Direct(s, i, payload, last))
  {
    hide Flush;
    AcceptAccepting(txLen, s, i, payload, last);
    SentinelExactly(Direct(s, i, payload, last));
  }

  predicate Increasing(rows: seq<Row>) {
    forall j, k | 0 <= j < k < |rows| :: rows[j].position < rows[k].position
  }

  /** While rows enter, in increasing order. */
  ghost predicate Entering(s: Slot, t: Slot, fecSet: nat, rows: seq<Row>, n: nat) {
    && (n == 0 ==> t == s) && (n > 0 ==> Accepting(t))
    && (n > 0 && t.next == UNSET ==> UNSET in t.payloads && rows != [] && GlobalIndex(fecSet, rows[|rows| - 1].position) == UNSET)
  }

  lemma RowEntering(txLen: TxLen, s: Slot, t: Slot, fecSet: u32, rows: seq<Row>, n: nat, row: Row)
    requires Sound(txLen, s) && Entering(s, t, fecSet, rows, n)
    requires rows != [] ==> rows[|rows| - 1].position < row.position
    ensures var i, data := GlobalIndex(fecSet, row.position), ParseData(row.shard);
            if i in t.payloads || data.None? then Entering(s, t, fecSet, rows + [row], n)
            else Entering(s, Accept(t, i, data.value.payload, data.value.last), fecSet, rows + [row], n + 1)
  {
    hide ParseData, Accepting, Accept, Bounded, Tallied, ParsedUpTo;
    var i, data := GlobalIndex(fecSet, row.position), ParseData(row.shard);
    if i !in t.payloads && data.Some? {
      AcceptedNext(t, i, data.value.payload, data.value.last);
      SoundNext(txLen, s);
      AcceptAccepting(txLen, t, i, data.value.payload, data.value.last);
    }
  }

  lemma SoundNext(txLen: TxLen, s: Slot)
    requires Sound(txLen, s)
    ensures Indexed(s) && (s.hist.anchor.Some? ==> s.next < UNSET)
  {
  }

  lemma AcceptedNext(t: Slot, i: u32, payload: seq<byte>, last: bool)
    ensures var r := Accept(t, i, payload, last);
            r.next == (if t.next == UNSET then i else t.next) && i in r.payloads
  {
  }

  lemma {:induction false} RowsAccepting(txLen: TxLen, s: Slot, fecSet: u32, rows: seq<Row>)
    requires Sound(txLen, s) && Increasing(rows)
    ensures Entering(s, AcceptRows(s, fecSet, rows).0, fecSet, rows, AcceptRows(s, fecSet, rows).1)
  {
    if rows != [] {
      hide ParseData, Entering, Sound;
      var front, row := rows[..|rows| - 1], rows[|rows| - 1];
      RowsAccepting(txLen, s, fecSet, front);
      var (t, n) := AcceptRows(s, fecSet, front);
      assert rows == front + [row] && (front != [] ==> front[|front| - 1].position < row.position);
      RowEntering(txLen, s, t, fecSet, front, n, row);
    }
  }

  /** And so does a recovery. */
  lemma RecoveryReachesExactly(txLen: TxLen, s: Slot, fecSet: u32, rows: seq<Row>)
    requires Sound(txLen, s) && Increasing(rows)
    ensures var (t, n) := AcceptRows(s, fecSet, rows); n > 0 ==> (ReachesSentinel(CountRows(t, n)) <==> !Bounded(t))
  {
    hide Flush, AcceptRows;
    var (t, n) := AcceptRows(s, fecSet, rows);
    RowsAccepting(txLen, s, fecSet, rows);
    if n > 0 {
      SentinelExactly(CountRows(t, n));
    }
  }

  lemma HeldAlone(i: nat, x: seq<byte>)
    ensures map[i := x] - {i} == map[]
  {
  }

  lemma FlushOnlyHeld(s: Slot, x: seq<byte>)
    requires s.next <= UNSET && s.payloads == map[s.next := x]
    ensures var f := Flush(s);
            f.payloads == map[] && f.next == (if s.next == UNSET then 0 else s.next + 1) && f.buf == s.buf + x
  {
    var f := FlushOne(s);
    HeldAlone(s.next, x);
    assert Flush(f) == f;
  }
}
