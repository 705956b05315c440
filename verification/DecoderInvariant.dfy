/** What every packet keeps, whatever was sent: the slot window, the conservation of slot
    outcomes, one outcome per slot number, and one life per FEC set. */
module DecoderInvariant {
  import opened Bytes
  import opened ShredWire
  import opened SlotModel
  import opened FecModel
  import opened DecoderModel
  import opened Sums

  // ---- The window ----------------------------------------------------------------------

  ghost predicate SlotsInWindow(ss: SlotSide, highest: u64) {
    forall s | s in ss.live :: s + SLOT_EXPIRY_DISTANCE >= highest
  }

  ghost predicate FecsInWindow(fs: FecSide, highest: u64) {
    forall k | k in fs.live :: k.0 + SLOT_EXPIRY_DISTANCE >= highest
  }

  /** Every live slot and FEC set is within the expiry distance of the highest slot. */
  ghost predicate InWindow(st: Dec) {
    SlotsInWindow(st.slots, st.highest) && FecsInWindow(st.fecs, st.highest)
  }

  /** No set leaves, and at most the packet's own set is new. */
  ghost predicate OnlyAdds(fs: FecSide, r: FecSide, key: FecKey) {
    && (forall k | k in fs.live :: k in r.live)
    && (forall k | k in r.live :: k in fs.live || k == key)
  }

  lemma FecOnCodeAdds(code: Code, fs: FecSide, p: Packet, h: CodeHeader)
    ensures OnlyAdds(fs, FecOnCode(code, fs, p, h).0, (p.slot, p.fecSet))
  {
    var key := (p.slot, p.fecSet);
    var made := Create(fs, key, h);
    assert OnlyAdds(fs, made, key);
    var f := made.live[key];
    var held := made.(live := made.live[key := Hold(f, h.numData + h.position, p.shard)]);
    assert OnlyAdds(made, held, key);
    assert OnlyAdds(held, Solve(code, held, key).0, key);
  }

  lemma ExpireInWindow(ss: SlotSide, fs: FecSide, highest: u64)
    ensures SlotsInWindow(ExpireSlots(ss, highest), highest)
    ensures FecsInWindow(ExpireFecs(fs, highest), highest)
  {
    hide RetiredAfter, OutcomesAfter, Lost, LostPartial;
    assert forall s | s in ss.live && s !in Gone(ss.live, highest) :: Keeps(s, highest);
    assert forall k | k in fs.live && k !in GoneFecs(fs.live, highest) :: Keeps(k.0, highest);
  }

  lemma AdvanceInWindow(st: Dec, slot: u64)
    requires InWindow(st)
    ensures InWindow(Advance(st, slot))
  {
    ExpireInWindow(st.slots, st.fecs, slot);
  }

  lemma ActInWindow(env: Env, st: Dec, p: Packet)
    requires InWindow(st) && !TooOld(st.highest, p.slot)
    ensures InWindow(Act(env, st, p))
  {
    if p.body.Code? {
      FecOnCodeAdds(env.code, st.fecs, p, p.body.header);
      assert FecsInWindow(Act(env, st, p).fecs, st.highest);
    }
  }

  lemma StepKeepsWindow(env: Env, st: Dec, p: Packet)
    requires InWindow(st)
    ensures InWindow(Step(env, st, p))
  {
    AdvanceInWindow(st, p.slot);
    if !TooOld(Advance(st, p.slot).highest, p.slot) {
      ActInWindow(env, Advance(st, p.slot), p);
    }
  }

  lemma {:induction false} RunInWindow(env: Env, ps: seq<Packet>)
    ensures InWindow(Run(env, ps))
  {
    if ps != [] {
      RunInWindow(env, ps[..|ps| - 1]);
      StepKeepsWindow(env, Run(env, ps[..|ps| - 1]), ps[|ps| - 1]);
    }
  }

  /** The highest slot never decreases; once set it rises by at most MAX_SLOT_JUMP per packet; a
      farther jump is ignored; and a packet that does not raise it evicts nothing. */
  lemma HighestSlot(env: Env, st: Dec, p: Packet)
    ensures var r := Step(env, st, p);
            && st.highest <= r.highest
            && (st.highest != 0 ==> r.highest <= st.highest + MAX_SLOT_JUMP)
            && (st.highest != 0 && p.slot > st.highest + MAX_SLOT_JUMP ==> r.highest == st.highest)
            && (r.highest == st.highest ==> forall s | s in st.slots.live :: s in r.slots.live)
            && (r.highest == st.highest ==> forall k | k in st.fecs.live :: k in r.fecs.live)
  {
    if p.body.Code? {
      FecOnCodeAdds(env.code, Advance(st, p.slot).fecs, p, p.body.header);
    }
  }

  ghost predicate NoneAhead(st: Dec) {
    forall s | s in st.slots.live :: s <= st.highest
  }

  lemma AdvanceNoneAhead(st: Dec, slot: u64)
    requires NoneAhead(st) && (st.highest == 0 || slot <= st.highest + MAX_SLOT_JUMP)
    ensures NoneAhead(Advance(st, slot)) && slot <= Advance(st, slot).highest
  {
  }

  lemma ActNoneAhead(env: Env, st: Dec, p: Packet)
    requires NoneAhead(st) && p.slot <= st.highest
    ensures NoneAhead(Act(env, st, p))
  {
    var r := Act(env, st, p);
    assert r.highest == st.highest;
    assert forall s | s in r.slots.live :: s in st.slots.live || s == p.slot;
  }

  lemma StepNoneAhead(env: Env, st: Dec, p: Packet)
    requires NoneAhead(st) && (st.highest == 0 || p.slot <= st.highest + MAX_SLOT_JUMP)
    ensures NoneAhead(Step(env, st, p))
  {
    var a := Advance(st, p.slot);
    AdvanceNoneAhead(st, p.slot);
    if !TooOld(a.highest, p.slot) {
      ActNoneAhead(env, a, p);
    }
  }

  lemma WindowSize(st: Dec)
    requires InWindow(st) && NoneAhead(st)
    ensures |st.slots.live| <= SLOT_EXPIRY_DISTANCE + 1
  {
    var lo := if st.highest >= SLOT_EXPIRY_DISTANCE then st.highest - SLOT_EXPIRY_DISTANCE else 0;
    var keys: set<nat> := st.slots.live.Keys;
    BoundedSetSize(keys, lo, SLOT_EXPIRY_DISTANCE + 1);
    assert |st.slots.live| == |st.slots.live.Keys|;
  }

  /** No packet of the run is ignored by the jump guard. */
  ghost predicate NoFarJump(env: Env, ps: seq<Packet>) {
    forall k | 0 <= k < |ps| ::
      Run(env, ps[..k]).highest == 0 || ps[k].slot <= Run(env, ps[..k]).highest + MAX_SLOT_JUMP
  }

  lemma {:induction false} RunNoneAhead(env: Env, ps: seq<Packet>)
    requires NoFarJump(env, ps)
    ensures NoneAhead(Run(env, ps))
  {
    if ps != [] {
      var n := |ps| - 1;
      assert forall k | 0 <= k < n :: ps[..n][..k] == ps[..k];
      RunNoneAhead(env, ps[..n]);
      StepNoneAhead(env, Run(env, ps[..n]), ps[n]);
    }
  }

  /** Without far jumps no live slot is ahead of the highest, so at most 33 are live. */
  lemma LiveSlotsBounded(env: Env, ps: seq<Packet>)
    requires NoFarJump(env, ps)
    ensures var st := Run(env, ps);
            && (forall s | s in st.slots.live :: s <= st.highest <= s + SLOT_EXPIRY_DISTANCE)
            && |st.slots.live| <= SLOT_EXPIRY_DISTANCE + 1
  {
    RunInWindow(env, ps);
    RunNoneAhead(env, ps);
    WindowSize(Run(env, ps));
  }

  // ---- Conservation --------------------------------------------------------------------

  ghost function Uncounted(live: map<u64, Slot>): (r: set<u64>) {
    set s | s in live && !live[s].counted
  }

  /** Every slot ever attempted has one outcome counted, or is live and has none yet. */
  ghost predicate Conserved(ss: SlotSide) {
    ss.attempted == ss.complete + ss.partial + ss.dropped + |Uncounted(ss.live)|
  }

  lemma ExpireConserves(ss: SlotSide, highest: u64)
    requires Conserved(ss)
    ensures Conserved(ExpireSlots(ss, highest))
  {
    var gone := Gone(ss.live, highest);
    var lost, partial := Lost(ss.live, gone), LostPartial(ss.live, gone);
    var kept := Uncounted(ss.live - Gone(ss.live, highest));
    assert Uncounted(ss.live) == kept + lost && kept !! lost;
    assert lost == partial + (lost - partial);
  }

  lemma PutSlotConserves(ss: SlotSide, s: u64, after: Slot)
    requires Conserved(ss) && (SlotOf(ss, s).counted ==> after.counted)
    ensures Conserved(PutSlot(ss, s, after))
  {
    var before, now := Uncounted(ss.live), Uncounted(ss.live[s := after]);
    if after.counted {
      assert now == before - {s};
    } else {
      assert now == before + {s};
      if s in before {
        assert now == before;
      } else {
        assert s !in ss.live;
      }
    }
  }
}
