/** What the decoder emits over a whole run: however a slot's shreds arrive, and whether they are
    received or recovered, its transactions are the greedy parse of the contiguous run. */
module DecoderTheorems {
  import opened Bytes
  import opened EntryCodec
  import opened ShredWire
  import opened SlotModel
  import opened SlotTheorems
  import opened DecoderModel
  import opened DecoderLives

  // ---- Every slot stays sound ------------------------------------------------------------

  /** A slot none of whose indices reaches the sentinel is sound, and marked when nothing is
      missing. */
  ghost predicate Kept(txLen: TxLen, s: Slot) {
    Bounded(s) ==> Sound(txLen, s) && (NothingMissing(s) ==> s.counted)
  }

  lemma DirectFrame(s: Slot, i: nat, payload: seq<byte>, last: bool)
    ensures var d := Direct(s, i, payload, last);
            && d.counted == s.counted && d.hist.accepted == s.hist.accepted + {i}
            && (s.hist.anchor.Some? ==> d.hist.anchor == s.hist.anchor)
  {
  }

  lemma DeliverKept(txLen: TxLen, s: Slot, i: nat, payload: seq<byte>, last: bool)
    requires SelfDelimiting(txLen) && Kept(txLen, s)
    ensures var r := Deliver(txLen, s, i, payload, last);
            Kept(txLen, r) && (Bounded(r) && r.counted && !s.counted ==> NothingMissing(r))
  {
    hide Settle, Direct, Sound, Bounded, NothingMissing, Core;
    var d := Direct(s, i, payload, last);
    DirectFrame(s, i, payload, last);
    SettleTallies(txLen, d);
    if Bounded(Deliver(txLen, s, i, payload, last)) {
      BoundedBefore(d, Settle(txLen, d));
      BoundedBefore(s, d);
      DirectUnsettled(txLen, s, i, payload, last);
      SettleSound(txLen, d, s.buf);
      CompleteExactly(txLen, d, s.buf);
    }
  }

  lemma RecoverKept(txLen: TxLen, s: Slot, fecSet: nat, rows: seq<Row>)
    requires SelfDelimiting(txLen) && Kept(txLen, s)
    ensures var r := Recover(txLen, s, fecSet, rows);
            Kept(txLen, r) && (Bounded(r) && r.counted && !s.counted ==> NothingMissing(r))
  {
    var (t, n) := AcceptRows(s, fecSet, rows);
    RecoverTallies(txLen, s, fecSet, rows);
    AcceptRowsTallies(s, fecSet, rows);
    if Bounded(Recover(txLen, s, fecSet, rows)) {
      BoundedBefore(t, Recover(txLen, s, fecSet, rows));
      BoundedBefore(s, t);
      AcceptRowsKeeps(txLen, s, fecSet, rows);
      if n == 0 {
        assert Recover(txLen, s, fecSet, rows) == s;
      } else {
        CountRowsUnsettled(txLen, s, t, n);
        SettleSound(txLen, CountRows(t, n), s.buf);
        CompleteExactly(txLen, CountRows(t, n), s.buf);
      }
    }
  }

  ghost predicate AllKept(txLen: TxLen, ss: SlotSide) {
    && (forall s | s in ss.live :: Kept(txLen, ss.live[s]))
    && (forall s | s in ss.retired :: Kept(txLen, ss.retired[s]))
  }

  lemma EmptyIsKept(txLen: TxLen)
    ensures Kept(txLen, Empty)
  {
    EmptyIsSound(txLen);
  }

  /** What a packet makes of its own slot. */
  lemma ActOnOwnSlot(env: Env, st: Dec, p: Packet)
    requires SelfDelimiting(env.txLen) && AllKept(env.txLen, st.slots)
    ensures var r := Act(env, st, p).slots;
            var before, after := SlotOf(st.slots, p.slot), SlotOf(r, p.slot);
            && Kept(env.txLen, after)
            && (Bounded(after) && after.counted && !before.counted ==> p.slot in r.live && NothingMissing(after))
            && r.complete == st.slots.complete + (if after.counted && !before.counted then 1 else 0)
            && r.retired == st.slots.retired
            && (forall s | s in r.live && s != p.slot :: s in st.slots.live && r.live[s] == st.slots.live[s])
  {
    hide Recover, Deliver, Kept, NothingMissing, Bounded, FecOnCode, FecOnData, CompletionStats;
    var s := SlotOf(st.slots, p.slot);
    EmptyIsKept(env.txLen);
    assert Kept(env.txLen, s);
    match p.body
    case Code(h) => RecoverKept(env.txLen, s, p.fecSet, FecOnCode(env.code, st.fecs, p, h).1);
    case Data(part) => DeliverKept(env.txLen, s, p.index, part.payload, part.last);
    case Other =>
  }

  lemma StepAllKept(env: Env, st: Dec, p: Packet)
    requires SelfDelimiting(env.txLen) && AllKept(env.txLen, st.slots)
    ensures AllKept(env.txLen, Advance(st, p.slot).slots) && AllKept(env.txLen, Step(env, st, p).slots)
  {
    var a := Advance(st, p.slot);
    assert AllKept(env.txLen, a.slots);
    if !TooOld(a.highest, p.slot) {
      ActOnOwnSlot(env, a, p);
    }
  }

  /** Whatever is sent, every slot, live or expired, whose accepted indices stay below the sentinel
      is sound; in particular it is marked complete when nothing is missing. */
  lemma {:induction false} RunAllKept(env: Env, ps: seq<Packet>)
    requires SelfDelimiting(env.txLen)
    ensures AllKept(env.txLen, Run(env, ps).slots)
  {
    if ps != [] {
      RunAllKept(env, ps[..|ps| - 1]);
      StepAllKept(env, Run(env, ps[..|ps| - 1]), ps[|ps| - 1]);
    }
  }

  /** When a packet makes the decoder count a slot complete, a shred marked last was seen, no index
      is missing from the anchor to the highest accepted one, and nothing at or after the end of
      the flushed run is held. */
  lemma CompleteIsSound(env: Env, ps: seq<Packet>, p: Packet)
    requires SelfDelimiting(env.txLen)
    requires var st := Run(env, ps); Step(env, st, p).slots.complete != st.slots.complete
    requires var r := Step(env, Run(env, ps), p); p.slot in r.slots.live ==> Bounded(r.slots.live[p.slot])
    ensures var st, r := Run(env, ps), Step(env, Run(env, ps), p);
            && p.slot in r.slots.live
            && var s := r.slots.live[p.slot];
            && r.slots.complete == st.slots.complete + 1
            && NothingMissing(s) && s.next == s.maxIndex + 1
            && (forall i | i in s.payloads :: i < s.next)
  {
    var st := Run(env, ps);
    var a := Advance(st, p.slot);
    RunAllKept(env, ps);
    StepAllKept(env, st, p);
    ActOnOwnSlot(env, a, p);
    var after := SlotOf(Act(env, a, p).slots, p.slot);
    assert Sound(env.txLen, after);
    NothingMissingMeansRunReachesEnd(after);
  }
}
