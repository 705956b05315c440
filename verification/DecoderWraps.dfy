/** Numbers whose expiry distance wraps: the only ones that can live twice. */
module DecoderWraps {
  import opened Bytes
  import opened ShredWire
  import opened ShredBytes
  import opened SlotModel
  import opened SlotTheorems
  import opened FecModel
  import opened DecoderModel
  import opened DecoderLives

  /** A shred that only moves the window. */
  function Mark(slot: u64): (r: Packet) {
    Packet(slot, 0, 0, Other, ToShard(CodeShred(slot, 0, 0, CodeHeader(0, 0, 0))))
  }

  function FirstShred(slot: u64): (r: Packet) {
    Packet(slot, 0, 0, Data(DataPart(false, [])), ToShard(DataShred(slot, 0, 0, DataPart(false, []))))
  }

  /** A coding shred of a set of two data shreds. */
  function FirstCode(k: FecKey): (r: Packet) {
    Packet(k.0, 0, k.1, Code(CodeHeader(2, 1, 0)), ToShard(CodeShred(k.0, 0, k.1, CodeHeader(2, 1, 0))))
  }

  lemma TheseAreReceived(slot: u64, k: FecKey)
    ensures Received([Mark(slot)]) && Received([FirstShred(slot)]) && Received([FirstCode(k)])
  {
    hide Parse, ToShard, DataShred, CodeShred;
    EmptySetIsOther(slot, 0, 0);
    DataRoundTrip(slot, 0, 0, DataPart(false, []));
    CodeRoundTrip(k.0, 0, k.1, CodeHeader(2, 1, 0));
  }

  lemma ReceivedAppend(ps: seq<Packet>, qs: seq<Packet>)
    requires Received(ps) && Received(qs)
    ensures Received(ps + qs)
  {
    hide IsReceived;
  }

  lemma RunAppend(env: Env, ps: seq<Packet>, p: Packet)
    ensures Run(env, ps + [p]) == Step(env, Run(env, ps), p)
  {
    assert (ps + [p])[..|ps + [p]| - 1] == ps;
  }

  lemma MarkOnlyAdvances(env: Env, st: Dec, slot: u64)
    ensures Step(env, st, Mark(slot)) == Advance(st, slot)
  {
    hide ToShard, CodeShred;
  }

  /** What a number that wraps does in a state where it is not in use. */
  predicate Early(st: Dec) {
    100 <= st.highest < 1000
  }

  // ---- Slots -----------------------------------------------------------------------------

  lemma StrayShredEnters(env: Env, st: Dec, s: u64)
    requires !NoWrap(s) && s !in st.slots.live && Early(st)
    ensures var r := Step(env, st, FirstShred(s));
            && r.highest == st.highest && r.slots.outcomes == st.slots.outcomes
            && s in r.slots.live && !r.slots.live[s].counted
  {
    hide ToShard, DataShred;
    var d := Direct(Empty, 0, [], false);
    FlushFrame(d);
    SettleFrame(env.txLen, d);
  }

  lemma ExpiryGivesOutcome(ss: SlotSide, highest: u64, s: u64)
    requires s in ss.live && !ss.live[s].counted && !Keeps(s, highest)
    ensures var r := ExpireSlots(ss, highest);
            |OutcomesOf(r, s)| == |OutcomesOf(ss, s)| + 1 && s !in r.live
  {
    assert s in Lost(ss.live, Gone(ss.live, highest));
  }

  lemma MarkExpiresIt(env: Env, st: Dec, s: u64)
    requires !NoWrap(s) && s in st.slots.live && !st.slots.live[s].counted && Early(st)
    ensures var r := Step(env, st, Mark(st.highest + 1));
            && |OutcomesOf(r.slots, s)| == |OutcomesOf(st.slots, s)| + 1
            && s !in r.slots.live && r.highest == st.highest + 1
  {
    hide OutcomesOf, ExpireSlots, ExpireFecs, Mark, Step;
    var h: u64 := st.highest + 1;
    MarkOnlyAdvances(env, st, h);
    ExpiryGivesOutcome(st.slots, h, s);
  }

  /** A slot number whose expiry distance wraps is created by a stray shred and given an outcome by
      the next packet that raises the highest slot. */
  lemma StrayShredExpires(env: Env, ps: seq<Packet>, s: u64)
    requires !NoWrap(s) && s !in Run(env, ps).slots.live && Early(Run(env, ps))
    ensures var st := Run(env, ps);
            var r := Run(env, ps + [FirstShred(s)] + [Mark(st.highest + 1)]);
            && |OutcomesOf(r.slots, s)| == |OutcomesOf(st.slots, s)| + 1
            && s !in r.slots.live && r.highest == st.highest + 1
  {
    hide Run, Step, Mark, FirstShred;
    var h := Run(env, ps).highest;
    RunAppend(env, ps, FirstShred(s));
    RunAppend(env, ps + [FirstShred(s)], Mark(h + 1));
    StrayShredEnters(env, Run(env, ps), s);
    MarkExpiresIt(env, Run(env, ps + [FirstShred(s)]), s);
  }

  lemma MarkedStart(env: Env)
    ensures var st := Run(env, [Mark(100)]); st.highest == 100 && st.slots.live == map[] && st.fecs.live == map[]
  {
    hide Mark, Step;
    RunAppend(env, [], Mark(100));
    assert [] + [Mark(100)] == [Mark(100)];
    MarkOnlyAdvances(env, Init, 100);
    assert Run(env, []) == Init;
  }

  ghost predicate AtMostOneOutcome(env: Env, s: u64) {
    forall ps: seq<Packet> | Received(ps) :: |OutcomesOf(Run(env, ps).slots, s)| <= 1
  }

  lemma SecondOutcome(env: Env, s: u64) returns (ps: seq<Packet>)
    requires !NoWrap(s)
    ensures Received(ps) && |OutcomesOf(Run(env, ps).slots, s)| >= 2
  {
    hide Run, OutcomesOf, Mark, FirstShred, Received;
    var start, stray := [Mark(100)], [FirstShred(s)];
    MarkedStart(env);
    StrayShredExpires(env, start, s);
    var once := start + stray + [Mark(101)];
    StrayShredExpires(env, once, s);
    ps := once + stray + [Mark(102)];
    TheseAreReceived(100, (s, 0));
    TheseAreReceived(s, (s, 0));
    TheseAreReceived(101, (s, 0));
    TheseAreReceived(102, (s, 0));
    ReceivedAppend(start, stray);
    ReceivedAppend(start + stray, [Mark(101)]);
    ReceivedAppend(once, stray);
    ReceivedAppend(once + stray, [Mark(102)]);
  }

  /** No run of received packets gives a slot number two outcomes if and only if its expiry distance does
      not wrap. */
  lemma OneOutcomeExactly(env: Env, s: u64)
    ensures AtMostOneOutcome(env, s) <==> NoWrap(s)
  {
    if NoWrap(s) {
      forall ps: seq<Packet> ensures |OutcomesOf(Run(env, ps).slots, s)| <= 1 {
        RunAccounted(env, ps);
        assert OneLife(Run(env, ps).slots, Run(env, ps).highest, s);
      }
    } else {
      var ps := SecondOutcome(env, s);
    }
  }

  // ---- FEC sets --------------------------------------------------------------------------

  lemma StraySetEnters(env: Env, st: Dec, k: FecKey)
    requires !NoWrap(k.0) && k !in st.fecs.live && Early(st)
    ensures var r := Step(env, st, FirstCode(k));
            r.highest == st.highest && k in r.fecs.live && r.fecs.created == st.fecs.created + multiset{k}
  {
    hide ToShard, CodeShred, Reconstructed, SlotOnRows;
  }

  lemma MarkExpiresSet(env: Env, st: Dec, k: FecKey)
    requires !NoWrap(k.0) && k in st.fecs.live && Early(st)
    ensures var r := Step(env, st, Mark(st.highest + 1));
            k !in r.fecs.live && r.fecs.created == st.fecs.created && r.highest == st.highest + 1
  {
    hide ExpireSlots, Mark, Step;
    MarkOnlyAdvances(env, st, st.highest + 1);
    assert !Keeps(k.0, st.highest + 1);
  }

  lemma StraySetExpires(env: Env, ps: seq<Packet>, k: FecKey)
    requires !NoWrap(k.0) && k !in Run(env, ps).fecs.live && Early(Run(env, ps))
    ensures var st := Run(env, ps);
            var r := Run(env, ps + [FirstCode(k)] + [Mark(st.highest + 1)]);
            r.fecs.created == st.fecs.created + multiset{k} && k !in r.fecs.live && r.highest == st.highest + 1
  {
    hide Run, Step, Mark, FirstCode;
    var h := Run(env, ps).highest;
    RunAppend(env, ps, FirstCode(k));
    RunAppend(env, ps + [FirstCode(k)], Mark(h + 1));
    StraySetEnters(env, Run(env, ps), k);
    MarkExpiresSet(env, Run(env, ps + [FirstCode(k)]), k);
  }

  ghost predicate AtMostOneCreation(env: Env, k: FecKey) {
    forall ps: seq<Packet> | Received(ps) :: Run(env, ps).fecs.created[k] <= 1
  }

  lemma SecondCreation(env: Env, k: FecKey) returns (ps: seq<Packet>)
    requires !NoWrap(k.0)
    ensures Received(ps) && Run(env, ps).fecs.created[k] >= 2
  {
    hide Run, Mark, FirstCode, Received;
    var start, stray := [Mark(100)], [FirstCode(k)];
    MarkedStart(env);
    StraySetExpires(env, start, k);
    var once := start + stray + [Mark(101)];
    StraySetExpires(env, once, k);
    ps := once + stray + [Mark(102)];
    TheseAreReceived(100, k);
    TheseAreReceived(101, k);
    TheseAreReceived(102, k);
    ReceivedAppend(start, stray);
    ReceivedAppend(start + stray, [Mark(101)]);
    ReceivedAppend(once, stray);
    ReceivedAppend(once + stray, [Mark(102)]);
  }

  /** No run of received packets creates a FEC set twice if and only if its slot's expiry distance does not
      wrap. */
  lemma OneCreationExactly(env: Env, k: FecKey)
    ensures AtMostOneCreation(env, k) <==> NoWrap(k.0)
  {
    if NoWrap(k.0) {
      forall ps: seq<Packet> ensures Run(env, ps).fecs.created[k] <= 1 {
        EachFecSetOnce(env, ps, k);
      }
    } else {
      var ps := SecondCreation(env, k);
    }
  }
}
