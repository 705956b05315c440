/** Shreds counted against distinct indices. A shred that was flushed is forgotten; received or recovered
    again it is counted again. */
module DecoderCounts {
  import opened Bytes
  import opened EntryCodec
  import opened ShredWire
  import opened SlotModel
  import opened SlotTheorems
  import opened DecoderModel
  import opened DecoderLives

  // ---- One slot --------------------------------------------------------------------------

  /** The index was accepted and is no longer held. */
  predicate Forgotten(s: Slot, i: nat) {
    i in s.hist.accepted && i !in s.payloads
  }

  /** Those are the indices of the flushed run that are not held again. */
  lemma ForgottenIsBehind(s: Slot, i: nat)
    requires Indexed(s)
    ensures Forgotten(s, i) <==> s.hist.anchor.Some? && s.hist.anchor.value <= i < s.next && i !in s.payloads
  {
  }

  /** Some recovered row is a data shred of such an index. */
  predicate HasForgotten(s: Slot, fecSet: nat, rows: seq<Row>) {
    exists k :: 0 <= k < |rows| && ParseData(rows[k].shard).Some? && Forgotten(s, GlobalIndex(fecSet, rows[k].position))
  }

  predicate Enters(fecSet: nat, rows: seq<Row>, i: nat) {
    exists k :: 0 <= k < |rows| && ParseData(rows[k].shard).Some? && GlobalIndex(fecSet, rows[k].position) == i
  }

  lemma EntersOneMore(fecSet: nat, rows: seq<Row>, row: Row, i: nat)
    ensures Enters(fecSet, rows + [row], i) <==>
              Enters(fecSet, rows, i) || (ParseData(row.shard).Some? && GlobalIndex(fecSet, row.position) == i)
  {
    hide ParseData, GlobalIndex;
    var all := rows + [row];
    assert all[|rows|] == row && forall k | 0 <= k < |rows| :: all[k] == rows[k];
  }

  lemma HasForgottenOneMore(s: Slot, fecSet: nat, rows: seq<Row>, row: Row)
    ensures HasForgotten(s, fecSet, rows + [row]) <==>
              HasForgotten(s, fecSet, rows) || (ParseData(row.shard).Some? && Forgotten(s, GlobalIndex(fecSet, row.position)))
  {
    hide ParseData, GlobalIndex, Forgotten;
    var all := rows + [row];
    assert all[|rows|] == row && forall k | 0 <= k < |rows| :: all[k] == rows[k];
  }

  lemma ForgottenEnters(s: Slot, fecSet: nat, rows: seq<Row>, i: nat)
    ensures Enters(fecSet, rows, i) && Forgotten(s, i) ==> HasForgotten(s, fecSet, rows)
  {
  }

  /** `t` is `s` after rows whose indices `Enters` tells, `n` of which entered. */
  ghost predicate Entered(s: Slot, t: Slot, fecSet: nat, rows: seq<Row>, n: nat) {
    && t.payloads.Keys <= t.hist.accepted && t.shredsSeen == s.shredsSeen
    && (forall i: nat :: i in t.payloads <==> i in s.payloads || Enters(fecSet, rows, i))
    && (forall i: nat :: i in t.hist.accepted <==> i in s.hist.accepted || Enters(fecSet, rows, i))
    && n >= |t.hist.accepted| - |s.hist.accepted|
    && (n != |t.hist.accepted| - |s.hist.accepted| <==> HasForgotten(s, fecSet, rows))
  }

  lemma AcceptAdds(t: Slot, i: nat, payload: seq<byte>, last: bool)
    ensures var r := Accept(t, i, payload, last);
            && r.payloads.Keys == t.payloads.Keys + {i} && r.hist.accepted == t.hist.accepted + {i}
            && r.shredsSeen == t.shredsSeen
            && |r.hist.accepted| == |t.hist.accepted| + if i in t.hist.accepted then 0 else 1
  {
    hide Accept;
    AcceptedFields(t, i, payload, last);
    OneMoreHeld(t.payloads, i, payload);
    OneMoreOf(t.hist.accepted, i);
  }

  lemma AcceptedFields(t: Slot, i: nat, payload: seq<byte>, last: bool)
    ensures var r := Accept(t, i, payload, last);
            && r.payloads == t.payloads[i := payload] && r.hist.accepted == t.hist.accepted + {i}
            && r.shredsSeen == t.shredsSeen
  {
  }

  lemma OneMoreHeld(m: map<nat, seq<byte>>, i: nat, x: seq<byte>)
    ensures m[i := x].Keys == m.Keys + {i}
  {
  }

  lemma OneMoreOf(s: set<nat>, i: nat)
    ensures |s + {i}| == |s| + if i in s then 0 else 1
  {
    assert i in s ==> s + {i} == s;
  }

  /** A row that is no data shred, or whose index is held, changes nothing that counts. */
  lemma RowSkipped(s: Slot, t: Slot, fecSet: nat, rows: seq<Row>, n: nat, row: Row)
    requires Entered(s, t, fecSet, rows, n)
    requires GlobalIndex(fecSet, row.position) in t.payloads || ParseData(row.shard).None?
    ensures Entered(s, t, fecSet, rows + [row], n)
  {
    hide ParseData, GlobalIndex, Enters, HasForgotten;
    forall j: nat ensures Enters(fecSet, rows + [row], j) <==>
        Enters(fecSet, rows, j) || (ParseData(row.shard).Some? && GlobalIndex(fecSet, row.position) == j) {
      EntersOneMore(fecSet, rows, row, j);
    }
    HasForgottenOneMore(s, fecSet, rows, row);
    ForgottenEnters(s, fecSet, rows, GlobalIndex(fecSet, row.position));
  }

  lemma RowEntered(s: Slot, t: Slot, fecSet: nat, rows: seq<Row>, n: nat, row: Row)
    requires Entered(s, t, fecSet, rows, n)
    requires GlobalIndex(fecSet, row.position) !in t.payloads && ParseData(row.shard).Some?
    ensures var data := ParseData(row.shard).value;
            Entered(s, Accept(t, GlobalIndex(fecSet, row.position), data.payload, data.last), fecSet, rows + [row], n + 1)
  {
    hide ParseData, GlobalIndex, Enters, HasForgotten, Accept;
    var i, data := GlobalIndex(fecSet, row.position), ParseData(row.shard).value;
    forall j: nat ensures Enters(fecSet, rows + [row], j) <==> Enters(fecSet, rows, j) || i == j {
      EntersOneMore(fecSet, rows, row, j);
    }
    HasForgottenOneMore(s, fecSet, rows, row);
    AcceptAdds(t, i, data.payload, data.last);
  }

  lemma NoneEntered(s: Slot, fecSet: nat)
    requires s.payloads.Keys <= s.hist.accepted
    ensures Entered(s, s, fecSet, [], 0)
  {
  }

  lemma {:induction false} AcceptRowsEntered(s: Slot, fecSet: nat, rows: seq<Row>)
    requires s.payloads.Keys <= s.hist.accepted
    ensures var (t, n) := AcceptRows(s, fecSet, rows); Entered(s, t, fecSet, rows, n)
  {
    hide Entered, Accept, ParseData, GlobalIndex;
    if rows == [] {
      NoneEntered(s, fecSet);
    } else {
      var front, row := rows[..|rows| - 1], rows[|rows| - 1];
      AcceptRowsEntered(s, fecSet, front);
      var (t, n) := AcceptRows(s, fecSet, front);
      assert rows == front + [row];
      if GlobalIndex(fecSet, row.position) in t.payloads || ParseData(row.shard).None? {
        RowSkipped(s, t, fecSet, front, n, row);
      } else {
        RowEntered(s, t, fecSet, front, n, row);
      }
    }
  }

  /** `shreds_seen` is at least the number of distinct accepted indices. */
  ghost predicate SeenCovers(s: Slot) {
    s.payloads.Keys <= s.hist.accepted && |s.hist.accepted| <= s.shredsSeen
  }

  /** How much more was counted than distinct indices were accepted. */
  function Surplus(s: Slot): (n: int) { s.shredsSeen - |s.hist.accepted| }

  lemma {:induction false} FlushOnlyTakes(s: Slot)
    ensures Flush(s).payloads.Keys <= s.payloads.Keys
    decreases |s.payloads|
  {
    if s.next in s.payloads {
      FlushOnlyTakes(FlushOne(s));
    }
  }

  lemma SettleKeepsSurplus(txLen: TxLen, s: Slot)
    ensures var r := Settle(txLen, s); Surplus(r) == Surplus(s) && (SeenCovers(s) ==> SeenCovers(r))
  {
    SettleTallies(txLen, s);
    SettleFrame(txLen, s);
    FlushOnlyTakes(s);
  }

  /** A direct delivery is counted without a new index exactly when its index was forgotten. */
  lemma DeliveredExactly(txLen: TxLen, s: Slot, i: nat, data: seq<byte>, last: bool)
    requires SeenCovers(s)
    ensures var r := Deliver(txLen, s, i, data, last);
            SeenCovers(r) && Surplus(r) >= Surplus(s) && (Surplus(r) != Surplus(s) <==> Forgotten(s, i))
  {
    hide Settle;
    assert i in s.hist.accepted ==> s.hist.accepted + {i} == s.hist.accepted;
    SettleKeepsSurplus(txLen, Direct(s, i, data, last));
  }

  /** A recovery is, exactly when one of its rows is a data shred of a forgotten index. Whatever it counts
      as seen it counts as recovered. */
  lemma RecoveredExactly(txLen: TxLen, s: Slot, fecSet: nat, rows: seq<Row>)
    requires SeenCovers(s)
    ensures var r := Recover(txLen, s, fecSet, rows);
            && SeenCovers(r) && Surplus(r) >= Surplus(s)
            && (Surplus(r) != Surplus(s) <==> HasForgotten(s, fecSet, rows))
            && r.fecRecovered - s.fecRecovered == r.shredsSeen - s.shredsSeen
  {
    hide Settle, AcceptRows;
    var (t, n) := AcceptRows(s, fecSet, rows);
    AcceptRowsEntered(s, fecSet, rows);
    AcceptRowsTallies(s, fecSet, rows);
    SettleKeepsSurplus(txLen, CountRows(t, n));
    SettleTallies(txLen, CountRows(t, n));
    NoRowsEntered(s, fecSet, rows);
  }

  lemma {:induction false} NoRowsEntered(s: Slot, fecSet: nat, rows: seq<Row>)
    ensures AcceptRows(s, fecSet, rows).1 == 0 ==> AcceptRows(s, fecSet, rows).0 == s
  {
    if rows != [] {
      NoRowsEntered(s, fecSet, rows[..|rows| - 1]);
    }
  }

  // ---- A whole run -----------------------------------------------------------------------

  ghost predicate AllCover(ss: SlotSide) {
    (forall s | s in ss.live :: SeenCovers(ss.live[s])) && (forall s | s in ss.retired :: SeenCovers(ss.retired[s]))
  }

  /** The packet counts a shred whose index its slot forgot. */
  predicate Recounts(env: Env, st: Dec, p: Packet) {
    match p.body
    case Code(h) => HasForgotten(SlotOf(st.slots, p.slot), p.fecSet, FecOnCode(env.code, st.fecs, p, h).1)
    case Data(part) => Forgotten(SlotOf(st.slots, p.slot), p.index)
    case Other => false
  }

  lemma ActCounts(env: Env, st: Dec, p: Packet)
    requires AllCover(st.slots)
    ensures var r := Act(env, st, p);
            && AllCover(r.slots)
            && (Surplus(SlotOf(r.slots, p.slot)) != Surplus(SlotOf(st.slots, p.slot)) <==> Recounts(env, st, p))
            && Surplus(SlotOf(r.slots, p.slot)) >= Surplus(SlotOf(st.slots, p.slot))
  {
    hide Deliver, Recover, FecOnCode, FecOnData, CompletionStats, SeenCovers, Forgotten, Surplus;
    var s := SlotOf(st.slots, p.slot);
    assert SeenCovers(Empty) by { EmptyCovers(); }
    match p.body
    case Code(h) =>
      var rows := FecOnCode(env.code, st.fecs, p, h).1;
      RecoveredExactly(env.txLen, s, p.fecSet, rows);
    case Data(part) =>
      DeliveredExactly(env.txLen, s, p.index, part.payload, part.last);
    case Other =>
  }

  lemma EmptyCovers()
    ensures SeenCovers(Empty) && Surplus(Empty) == 0
  {
  }

  /** The slot, live or expired. */
  function SlotEver(ss: SlotSide, s: u64): (r: Slot) {
    if s in ss.live then ss.live[s] else if s in ss.retired then ss.retired[s] else Empty
  }

  lemma AdvanceKeepsEver(st: Dec, slot: u64, s: u64)
    requires OneLife(st.slots, st.highest, s)
    ensures var a := Advance(st, slot); SlotEver(a.slots, s) == SlotEver(st.slots, s)
    ensures AllCover(st.slots) ==> AllCover(Advance(st, slot).slots)
  {
    hide OutcomesAfter, SeenCovers, OutcomesOf;
  }

  lemma ActKeepsOthers(env: Env, st: Dec, p: Packet, s: u64)
    requires p.slot != s
    ensures SlotEver(Act(env, st, p).slots, s) == SlotEver(st.slots, s)
  {
    hide Deliver, Recover, FecOnCode, FecOnData, CompletionStats, OutcomesOf;
  }

  lemma ActOnEver(env: Env, st: Dec, p: Packet)
    requires p.slot !in st.slots.retired
    ensures SlotEver(Act(env, st, p).slots, p.slot) == SlotOf(Act(env, st, p).slots, p.slot)
    ensures SlotEver(st.slots, p.slot) == SlotOf(st.slots, p.slot)
  {
    hide Deliver, Recover, FecOnCode, FecOnData, CompletionStats, OutcomesOf;
  }

  /** Over every run, every slot has counted at least as many shreds as it accepted distinct
      indices. */
  lemma {:induction false} RunSeenCovers(env: Env, ps: seq<Packet>)
    ensures AllCover(Run(env, ps).slots)
  {
    if ps != [] {
      var front, p := ps[..|ps| - 1], ps[|ps| - 1];
      RunSeenCovers(env, front);
      var a := Advance(Run(env, front), p.slot);
      assert AllCover(a.slots);
      if !TooOld(a.highest, p.slot) {
        ActCounts(env, a, p);
      }
    }
  }

  /** The packet at `k` of the run recounts a shred of its slot. */
  predicate RecountsAt(env: Env, ps: seq<Packet>, k: nat)
    requires k < |ps|
  {
    var a := Advance(Run(env, ps[..k]), ps[k].slot);
    !TooOld(a.highest, ps[k].slot) && Recounts(env, a, ps[k])
  }

  ghost predicate NoRecount(env: Env, s: u64, ps: seq<Packet>) {
    forall k | 0 <= k < |ps| && ps[k].slot == s :: !RecountsAt(env, ps, k)
  }

  lemma NoRecountOneMore(env: Env, s: u64, ps: seq<Packet>, p: Packet)
    ensures NoRecount(env, s, ps + [p]) <==> NoRecount(env, s, ps) && (p.slot == s ==> !RecountsAt(env, ps + [p], |ps|))
  {
    hide Run, Advance, Recounts;
    var all := ps + [p];
    assert all[|ps|] == p;
    assert forall k | 0 <= k < |ps| :: all[k] == ps[k] && all[..k] == ps[..k];
    assert forall k | 0 <= k < |ps| :: RecountsAt(env, all, k) == RecountsAt(env, ps, k);
  }

  /** One more packet of the slot itself. */
  lemma OwnPacketCounts(env: Env, front: seq<Packet>, p: Packet)
    requires NoWrap(p.slot)
    ensures var before, after := Run(env, front).slots, Run(env, front + [p]).slots;
            && Surplus(SlotEver(after, p.slot)) >= Surplus(SlotEver(before, p.slot))
            && (Surplus(SlotEver(after, p.slot)) != Surplus(SlotEver(before, p.slot)) <==> RecountsAt(env, front + [p], |front|))
  {
    hide Act, Advance, Recounts, OneLife, Surplus, SeenCovers;
    var all := front + [p];
    assert all[..|all| - 1] == front && all[|front|] == p && all[..|front|] == front;
    var st := Run(env, front);
    RunSeenCovers(env, front);
    RunAccounted(env, front);
    assert OneLife(st.slots, st.highest, p.slot);
    AdvanceKeepsEver(st, p.slot, p.slot);
    AdvanceAccounted(st, p.slot);
    var a := Advance(st, p.slot);
    assert OneLife(a.slots, a.highest, p.slot);
    if !TooOld(a.highest, p.slot) {
      NotRetired(a.slots, a.highest, p.slot);
      ActOnEver(env, a, p);
      ActCounts(env, a, p);
    }
  }

  lemma NotRetired(ss: SlotSide, highest: u64, s: u64)
    requires OneLife(ss, highest, s) && !TooOld(highest, s)
    ensures s !in ss.retired
  {
  }

  /** Over every run, a slot has counted exactly the distinct indices it accepted if and only if no packet
      of it recounted a forgotten one. */
  lemma {:induction false} RunSeenExactly(env: Env, ps: seq<Packet>, s: u64)
    requires NoWrap(s)
    ensures var slot := SlotEver(Run(env, ps).slots, s);
            Surplus(slot) >= 0 && (slot.shredsSeen == |slot.hist.accepted| <==> NoRecount(env, s, ps))
  {
    if ps == [] {
      EmptyCovers();
    } else {
      var front, p := ps[..|ps| - 1], ps[|ps| - 1];
      assert ps == front + [p];
      RunSeenExactly(env, front, s);
      NoRecountOneMore(env, s, front, p);
      hide RecountsAt, NoRecount, Act, Advance, OneLife;
      if p.slot == s {
        OwnPacketCounts(env, front, p);
      } else {
        var st := Run(env, front);
        RunAccounted(env, front);
        AdvanceKeepsEver(st, p.slot, s);
        ActKeepsOthers(env, Advance(st, p.slot), p, s);
      }
    }
  }
}
