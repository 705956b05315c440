/** What the decoder is for, in the sender's terms: a block's Entries are encoded, cut into shreds and
    sent, and their transactions come out in order. */
module DecoderEntries {
  import opened Bytes
  import opened EntryCodec
  import opened ShredWire
  import opened SlotTheorems
  import opened DecoderModel
  import opened DecoderHonest
  import opened DecoderEndToEnd
  import opened DecoderRecovery
  import opened EntryEncoding

  lemma {:induction false} ConcatSplits(payload: nat -> seq<byte>, n: nat, m: nat)
    requires n <= m
    ensures Concat(payload, 0, m) == Concat(payload, 0, n) + Concat(payload, n, m)
    decreases m
  {
    if n < m {
      ConcatSplits(payload, n, m - 1);
    }
  }

  /** If the payloads below `n` begin with encoded Entries and were all delivered, directly or by enough rows
      of their sets, then the slot has emitted the Entries' transactions first, in order. */
  lemma EntriesAreEmitted(env: Env, blk: Block, s: u64, ps: seq<Packet>, n: nat, es: seq<EntryData>)
    requires Broadcast(env, blk, s, ps) && Current(Run(env, ps), s) && StartsAtZero(env, s, ps)
    requires forall i | 0 <= i < n :: Delivered(blk, ps, s, i)
    requires AllEncodable(env.txLen, es) && EncodeAll(es) <= Concat(blk.payload, 0, n)
    ensures s in Run(env, ps).slots.live && AllTxs(es) <= Run(env, ps).slots.live[s].hist.emitted
  {
    hide Broadcast, Run, Delivered, StartsAtZero, Concat, Greedy, Current, EncodeAll;
    DeliveryDecodesAll(env, blk, s, ps, n);
    BroadcastDelimits(env, blk, s, ps);
    var next := Run(env, ps).slots.live[s].next;
    ConcatSplits(blk.payload, n, next);
    var all := Concat(blk.payload, 0, next);
    assert EncodeAll(es) <= all;
    assert all == EncodeAll(es) + all[|EncodeAll(es)|..];
    StreamRoundTrip(env.txLen, es, all[|EncodeAll(es)|..]);
  }

  /** If they are the whole block of `n` shreds, the slot has emitted exactly the block's transactions. */
  lemma BlockIsEmitted(env: Env, blk: Block, s: u64, ps: seq<Packet>, n: nat, es: seq<EntryData>)
    requires Broadcast(env, blk, s, ps) && Current(Run(env, ps), s) && StartsAtZero(env, s, ps)
    requires forall i | 0 <= i < n :: Delivered(blk, ps, s, i)
    requires forall k, i: nat | 0 <= k < |ps| && Offers(ps[k], s, i) :: i < n
    requires AllEncodable(env.txLen, es) && Concat(blk.payload, 0, n) == EncodeAll(es)
    ensures s in Run(env, ps).slots.live && Run(env, ps).slots.live[s].hist.emitted == AllTxs(es)
  {
    hide Broadcast, Run, Delivered, StartsAtZero, Concat, EncodeAll, Offers, Current;
    DeliveryDecodesAll(env, blk, s, ps, n);
    RunEndsBy(env, blk, s, ps, n);
    BroadcastDelimits(env, blk, s, ps);
    StreamRoundTrip(env.txLen, es, []);
    assert EncodeAll(es) + [] == EncodeAll(es);
    assert Greedy(env.txLen, []) == Parsed([], 0);
  }

  lemma RunEndsBy(env: Env, blk: Block, s: u64, ps: seq<Packet>, n: nat)
    requires Broadcast(env, blk, s, ps) && Current(Run(env, ps), s) && StartsAtZero(env, s, ps)
    requires forall k, i: nat | 0 <= k < |ps| && Offers(ps[k], s, i) :: i < n
    requires s in Run(env, ps).slots.live
    ensures Run(env, ps).slots.live[s].next <= n
  {
    hide Broadcast, Run, StartsAtZero, Concat, Offers, Current, Greedy;
    var slot := Run(env, ps).slots.live[s];
    RunAnchors(env, s, ps);
    EmittedIsParseOfContiguousRun(env, blk, s, ps, slot);
    if slot.next > n {
      assert HasAccepted(Run(env, ps).slots, s, n);
      AcceptedWasOffered(env, s, ps, n);
    }
  }

  lemma BroadcastDelimits(env: Env, blk: Block, s: u64, ps: seq<Packet>)
    requires Broadcast(env, blk, s, ps)
    ensures SelfDelimiting(env.txLen)
  {
  }
}
