/** The mutable reassembly state of one slot. */
module SlotStates {
  import opened Wrappers
  import opened Bytes
  import opened EntryCodec
  import opened ShredWire
  import opened SlotModel

  class SlotState {
    var dataPayloads: map<nat, seq<byte>>
    var nextContiguous: nat
    var entryBuf: seq<byte>
    var consumed: nat
    var maxIndex: nat
    var lastSeen: bool
    var txsDecoded: nat
    var shredsSeen: nat
    var fecRecoveredCount: nat
    var counted: bool
    var boundaryScanned: bool
    /** History, never read by the program. */
    var hist: History

    ghost predicate Valid()
      reads this
    {
      consumed <= |entryBuf|
    }

    /** The slot as a value: what the map of slots holds when no packet is being processed. */
    function Model(): (r: Slot)
      requires Valid()
      reads this
    {
      RawSlot(dataPayloads, nextContiguous, entryBuf, consumed, maxIndex, lastSeen, txsDecoded, shredsSeen,
              fecRecoveredCount, counted, boundaryScanned, hist)
    }

    /** The state taken out of the map of slots to be worked on. */
    constructor (s: Slot)
      ensures Valid() && Model() == s
    {
      dataPayloads, nextContiguous, entryBuf, consumed, maxIndex := s.payloads, s.next, s.buf, s.consumed, s.maxIndex;
      lastSeen, txsDecoded, shredsSeen, fecRecoveredCount := s.lastSeen, s.txsDecoded, s.shredsSeen, s.fecRecovered;
      counted, boundaryScanned, hist := s.counted, s.scanned, s.hist;
    }

    method SetFirstIndex(idx: nat)
      requires Valid()
      modifies this
      ensures Valid() && Model() == SetFirst(old(Model()), idx)
    {
      hist := if hist.anchor.None? then hist.(anchor := Some(idx)) else hist;
      if nextContiguous == UNSET {
        nextContiguous := idx;
        boundaryScanned := idx == 0;
      }
    }

    /** The steps by which a shred enters the slot, shared by both delivery paths. */
    method Insert(idx: nat, part: DataPart)
      requires Valid()
      modifies this
      ensures Valid() && Model() == Accept(old(Model()), idx, part.payload, part.last)
    {
      SetFirstIndex(idx);
      if idx > maxIndex {
        maxIndex := idx;
      }
      if part.last {
        lastSeen := true;
      }
      dataPayloads := dataPayloads[idx := part.payload];
      hist := hist.(accepted := hist.accepted + {idx}, lasts := if part.last then hist.lasts + {idx} else hist.lasts);
    }

    /** A data shred received directly. */
    method InsertDirect(idx: nat, part: DataPart)
      requires Valid()
      modifies this
      ensures Valid() && Model() == Direct(old(Model()), idx, part.payload, part.last)
    {
      var held := idx in dataPayloads;
      Insert(idx, part);
      if !held {
        shredsSeen := shredsSeen + 1;
      }
    }

    method FlushContiguous()
      requires Valid()
      modifies this
      ensures Valid() && Model() == Flush(old(Model()))
    {
      while nextContiguous in dataPayloads
        invariant Valid() && Flush(Model()) == Flush(old(Model()))
        decreases |dataPayloads|
      {
        FlushNext();
      }
    }

    /** The loop's body. */
    method FlushNext()
      requires Valid() && nextContiguous in dataPayloads
      modifies this
      ensures Valid() && Model() == FlushOne(old(Model()))
      ensures |dataPayloads| < |old(dataPayloads)|
    {
      ghost var one := FlushOne(Model());
      hist := hist.(chunks := hist.chunks + [dataPayloads[nextContiguous]]);
      entryBuf := entryBuf + dataPayloads[nextContiguous];
      dataPayloads := dataPayloads - {nextContiguous};
      nextContiguous := (nextContiguous + 1) % U32_SIZE;
      assert Model() == one;
    }

    /** Phase 1: locate the first Entry boundary. */
    method LocateBoundary(txLen: TxLen) returns (located: bool)
      requires Valid()
      modifies this
      ensures Valid() && Model() == Locate(txLen, old(Model())) && located == boundaryScanned
    {
      hide ScanFrom;
      if boundaryScanned {
        return true;
      }
      var off := FindBoundary(txLen, entryBuf[consumed..]);
      if off.None? {
        return false;
      }
      consumed := consumed + off.value;
      boundaryScanned := true;
      hist := hist.(boundary := consumed, scanLen := |entryBuf|);
      return true;
    }

    /** Locate the boundary if need be, then decode every whole Entry from where the last call
        stopped. */
    method TryDeserialize(txLen: TxLen) returns (txs: seq<Tx>)
      requires Valid()
      modifies this
      ensures Valid() && txs == Pending(txLen, old(Model())).txs
      ensures Model() == Deserialize(txLen, old(Model())).(txsDecoded := old(txsDecoded))
    {
      hide ScanFrom, Greedy;
      ghost var before := Model();
      var located := LocateBoundary(txLen);
      txs := [];
      if !located {
        assert Pending(txLen, before) == Parsed([], 0);
        assert hist.emitted + [] == hist.emitted;
        return;
      }
      var decoded := DecodeEntries(txLen, entryBuf[consumed..]);
      txs := decoded.txs;
      consumed := consumed + decoded.size;
      hist := hist.(emitted := hist.emitted + txs);
    }
  }

  lemma ScanOne(txLen: TxLen, b: seq<byte>, off: nat)
    ensures off + ENTRY_HEADER > |b| ==> ScanFrom(txLen, b, off) == None
    ensures Decodes(txLen, b, off) ==> ScanFrom(txLen, b, off) == Some(off)
    ensures off + ENTRY_HEADER <= |b| && !Decodes(txLen, b, off) ==> ScanFrom(txLen, b, off) == ScanFrom(txLen, b, off + 1)
  {
    hide ParseEntry, LE64;
  }

  /** The least position with a plausible transaction count at which an Entry decodes. */
  method FindBoundary(txLen: TxLen, buf: seq<byte>) returns (at: Option<nat>)
    ensures at == ScanFrom(txLen, buf, 0)
  {
    hide ScanFrom, ParseEntry, LE64;
    var off := 0;
    while off + ENTRY_HEADER <= |buf|
      invariant ScanFrom(txLen, buf, 0) == ScanFrom(txLen, buf, off)
      decreases |buf| - off
    {
      ScanOne(txLen, buf, off);
      if LE64(buf, off + TX_COUNT_OFF) <= MAX_SCAN_TX_COUNT && ParseEntry(txLen, buf[off..]).Some? {
        return Some(off);
      }
      off := off + 1;
    }
    ScanOne(txLen, buf, off);
    return None;
  }

  /** Phase 2: decode whole Entries until one does not decode. */
  method DecodeEntries(txLen: TxLen, buf: seq<byte>) returns (decoded: Parsed)
    ensures decoded == Greedy(txLen, buf)
  {
    decoded := Parsed([], 0);
    var left := buf;
    var entry := ParseEntry(txLen, left);
    EmptyThen(Greedy(txLen, buf));
    while entry.Some?
      invariant entry == ParseEntry(txLen, left)
      invariant Greedy(txLen, buf) == decoded.Then(Greedy(txLen, left))
      decreases |left|
    {
      DecodedOne(txLen, left, decoded);
      decoded := decoded.Then(entry.value);
      left := left[entry.value.size..];
      entry := ParseEntry(txLen, left);
    }
    GreedyStuck(txLen, left, Parsed([], 0));
    ThenEmpty(decoded);
  }

  lemma EmptyThen(p: Parsed)
    ensures Parsed([], 0).Then(p) == p
  {
  }

  lemma ThenEmpty(p: Parsed)
    ensures p.Then(Parsed([], 0)) == p
  {
  }

  /** One more Entry moves from what is left to parse to what is parsed. */
  lemma DecodedOne(txLen: TxLen, left: seq<byte>, done: Parsed)
    requires ParseEntry(txLen, left).Some?
    ensures var e := ParseEntry(txLen, left).value;
            done.Then(Greedy(txLen, left)) == done.Then(e).Then(Greedy(txLen, left[e.size..]))
  {
    var e := ParseEntry(txLen, left).value;
    GreedyStep(txLen, left, e);
    ThenAssociative(done, e, Greedy(txLen, left[e.size..]));
  }
}
