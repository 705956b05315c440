/** Entries as bytes: the encoding that the greedy parse undoes. It is written without the parser, so
    that it fixes what is decoded, and in which order. */
module EntryEncoding {
  import opened Wrappers
  import opened Bytes
  import opened EntryCodec
  import opened ShredBytes

  /** `head` is the hash count and the hash. */
  datatype EntryData = EntryData(head: seq<byte>, txs: seq<Tx>)

  predicate WellFormed(e: EntryData) {
    |e.head| == 40 && |e.txs| < U64_SIZE
  }

  /** The head, the number of transactions as a little-endian u64, and the transactions one after the
      other. */
  function Encode(e: EntryData): (b: seq<byte>)
    requires WellFormed(e)
    ensures |b| == 48 + |Flatten(e.txs)|
  {
    e.head + ToLE64(|e.txs|) + Flatten(e.txs)
  }

  function EncodeAll(es: seq<EntryData>): (b: seq<byte>)
    requires forall e | e in es :: WellFormed(e)
  {
    if es == [] then [] else Encode(es[0]) + EncodeAll(es[1..])
  }

  /** All transactions of the entries, in order. */
  function AllTxs(es: seq<EntryData>): (txs: seq<Tx>) {
    if es == [] then [] else es[0].txs + AllTxs(es[1..])
  }

  /** The transaction decodes from exactly its own bytes. */
  predicate IsWhole(txLen: TxLen, t: Tx) {
    txLen(t) == Some(|t|)
  }

  predicate AllWhole(txLen: TxLen, txs: seq<Tx>) {
    forall t | t in txs :: IsWhole(txLen, t)
  }

  lemma {:induction false} FlattenFirst(txs: seq<Tx>)
    requires txs != []
    ensures Flatten(txs) == txs[0] + Flatten(txs[1..])
  {
    if |txs| == 1 {
      assert txs[..0] == [] && txs[1..] == [];
    } else {
      var front, last := txs[..|txs| - 1], txs[|txs| - 1];
      FlattenFirst(front);
      assert txs[1..][..|txs| - 2] == front[1..] && txs[1..][|txs| - 2] == last;
      assert txs[0] + Flatten(front[1..]) + last == txs[0] + (Flatten(front[1..]) + last);
    }
  }

  lemma HeadStays(t: Tx, more: seq<byte>)
    ensures (t + more)[..|t|] == t && (t + more)[|t|..] == more
  {
  }

  lemma WholeIsRead(txLen: TxLen, t: Tx, more: seq<byte>)
    requires SelfDelimiting(txLen) && IsWhole(txLen, t)
    ensures txLen(t + more) == Some(|t|)
  {
    HeadStays(t, more);
    assert txLen((t + more)[..|t|]).Some?;
  }

  /** Whole transactions are decoded one by one, in order. */
  lemma {:induction false} TxsRoundTrip(txLen: TxLen, txs: seq<Tx>, rest: seq<byte>)
    requires SelfDelimiting(txLen) && AllWhole(txLen, txs)
    ensures ParseTxs(txLen, Flatten(txs) + rest, |txs|) == Some(Parsed(txs, |Flatten(txs)|))
  {
    hide SelfDelimiting, Flatten, IsWhole;
    if txs == [] {
      NothingFlattened(rest);
    } else {
      var t, more := txs[0], Flatten(txs[1..]) + rest;
      FlattenFirst(txs);
      assert Flatten(txs) + rest == t + more;
      HeadStays(t, more);
      assert t in txs;
      WholeIsRead(txLen, t, more);
      TxsRoundTrip(txLen, txs[1..], rest);
      assert [t] + txs[1..] == txs;
    }
  }

  lemma NothingFlattened(rest: seq<byte>)
    ensures Flatten([]) == [] && Flatten([]) + rest == rest
  {
  }

  lemma CountAt(e: EntryData, rest: seq<byte>)
    requires WellFormed(e)
    ensures LE64(Encode(e) + rest, TX_COUNT_OFF) == |e.txs|
    ensures (Encode(e) + rest)[ENTRY_HEADER..] == Flatten(e.txs) + rest
  {
    hide LE64, ToLE64;
    var b := Encode(e) + rest;
    assert b[40..48] == ToLE64(|e.txs|);
    LE64At(b, 40, ToLE64(|e.txs|));
  }

  /** An encoded Entry is decoded, whatever follows it. */
  lemma EntryRoundTrip(txLen: TxLen, e: EntryData, rest: seq<byte>)
    requires SelfDelimiting(txLen) && WellFormed(e) && AllWhole(txLen, e.txs)
    ensures ParseEntry(txLen, Encode(e) + rest) == Some(Parsed(e.txs, |Encode(e)|))
  {
    hide LE64, ToLE64, ParseTxs;
    CountAt(e, rest);
    TxsRoundTrip(txLen, e.txs, rest);
  }

  /** One more Entry in front of bytes whose greedy parse is known. */
  lemma EntryInFront(txLen: TxLen, e: EntryData, code: seq<byte>, txs: seq<Tx>, rest: seq<byte>)
    requires SelfDelimiting(txLen) && WellFormed(e) && AllWhole(txLen, e.txs)
    requires Greedy(txLen, code + rest) == Parsed(txs, |code|).Then(Greedy(txLen, rest))
    ensures Greedy(txLen, (Encode(e) + code) + rest) ==
              Parsed(e.txs + txs, |Encode(e) + code|).Then(Greedy(txLen, rest))
  {
    hide Encode, ParseEntry, SelfDelimiting, AllWhole, Greedy;
    var more := code + rest;
    EntryRoundTrip(txLen, e, more);
    assert (Encode(e) + code) + rest == Encode(e) + more;
    HeadStays(Encode(e), more);
    GreedyStep(txLen, Encode(e) + more, Parsed(e.txs, |Encode(e)|));
    ThenAssociative(Parsed(e.txs, |Encode(e)|), Parsed(txs, |code|), Greedy(txLen, rest));
  }

  predicate AllEncodable(txLen: TxLen, es: seq<EntryData>) {
    forall e | e in es :: WellFormed(e) && AllWhole(txLen, e.txs)
  }

  /** The greedy parse of encoded Entries, and whatever follows them, gives all their transactions in
      order, and goes on behind them. */
  lemma {:induction false} StreamRoundTrip(txLen: TxLen, es: seq<EntryData>, rest: seq<byte>)
    requires SelfDelimiting(txLen) && AllEncodable(txLen, es)
    ensures Greedy(txLen, EncodeAll(es) + rest) ==
              Parsed(AllTxs(es), |EncodeAll(es)|).Then(Greedy(txLen, rest))
  {
    hide Encode, Greedy, WellFormed, AllWhole, SelfDelimiting;
    if es == [] {
      assert [] + rest == rest;
      assert Parsed([], 0).Then(Greedy(txLen, rest)) == Greedy(txLen, rest);
    } else {
      assert es[0] in es;
      StreamRoundTrip(txLen, es[1..], rest);
      EntryInFront(txLen, es[0], EncodeAll(es[1..]), AllTxs(es[1..]), rest);
    }
  }

  // ---- And back: what is decoded is an encoding -------------------------------------------------

  lemma {:induction false} TxsAreTheBytes(txLen: TxLen, b: seq<byte>, count: nat)
    requires ParseTxs(txLen, b, count).Some?
    ensures var p := ParseTxs(txLen, b, count).value; |p.txs| == count && Flatten(p.txs) == b[..p.size]
  {
    hide Flatten;
    if count == 0 {
      NothingFlattened([]);
    } else {
      var n := txLen(b).value;
      var rest := ParseTxs(txLen, b[n..], count - 1).value;
      TxsAreTheBytes(txLen, b[n..], count - 1);
      FirstAndRest(b[..n], rest.txs);
      TakeThenDrop(b, n, rest.size);
    }
  }

  lemma FirstAndRest(t: Tx, txs: seq<Tx>)
    ensures Flatten([t] + txs) == t + Flatten(txs)
  {
    FlattenFirst([t] + txs);
    assert ([t] + txs)[1..] == txs;
  }

  lemma TakeThenDrop(b: seq<byte>, n: nat, m: nat)
    requires n + m <= |b|
    ensures b[..n] + b[n..][..m] == b[..n + m] && b[n..][m..] == b[n + m..]
  {
  }

  lemma LE16Back(b: seq<byte>)
    requires |b| == 2
    ensures ToLE16(LE16(b, 0)) == b
  {
  }

  lemma LE32Back(b: seq<byte>)
    requires |b| == 4
    ensures ToLE32(LE32(b, 0)) == b
  {
    hide LE16, ToLE16;
    LE16At(b, 0, b[..2]);
    LE16At(b, 2, b[2..]);
    LE16Back(b[..2]);
    LE16Back(b[2..]);
    assert b == b[..2] + b[2..];
  }

  lemma LE64Back(b: seq<byte>)
    requires |b| == 8
    ensures ToLE64(LE64(b, 0)) == b
  {
    hide LE32, ToLE32;
    LE32At(b, 0, b[..4]);
    LE32At(b, 4, b[4..]);
    LE32Back(b[..4]);
    LE32Back(b[4..]);
    assert b == b[..4] + b[4..];
  }

  /** An Entry that decodes is the encoding of its head and the transactions decoded. */
  lemma EntryIsEncoding(txLen: TxLen, b: seq<byte>)
    requires ParseEntry(txLen, b).Some?
    ensures var p := ParseEntry(txLen, b).value; var e := EntryData(b[..40], p.txs);
            WellFormed(e) && Encode(e) == b[..p.size]
  {
    hide LE64, ToLE64, ParseTxs;
    var p := ParseEntry(txLen, b).value;
    TxsAreTheBytes(txLen, b[ENTRY_HEADER..], LE64(b, TX_COUNT_OFF));
    LE64At(b, 40, b[40..48]);
    LE64Back(b[40..48]);
    assert b[..p.size] == b[..40] + b[40..48] + b[ENTRY_HEADER..][..p.size - ENTRY_HEADER];
  }

  /** The greedy parse takes a whole number of encoded Entries off the buffer, reports exactly their
      transactions, and stops where no Entry decodes. */
  lemma {:induction false} GreedyIsEncoding(txLen: TxLen, b: seq<byte>) returns (es: seq<EntryData>)
    ensures forall e | e in es :: WellFormed(e)
    ensures var p := Greedy(txLen, b);
            EncodeAll(es) == b[..p.size] && AllTxs(es) == p.txs && ParseEntry(txLen, b[p.size..]).None?
    decreases |b|
  {
    hide Encode, ParseEntry;
    var p := ParseEntry(txLen, b);
    if p.None? {
      es := [];
      assert b[0..] == b;
    } else {
      var n, first := p.value.size, EntryData(b[..40], p.value.txs);
      EntryIsEncoding(txLen, b);
      var more := GreedyIsEncoding(txLen, b[n..]);
      es := [first] + more;
      assert es[1..] == more;
      GreedyStep(txLen, b, p.value);
      TakeThenDrop(b, n, Greedy(txLen, b[n..]).size);
    }
  }

  /** Transactions that decode from exactly their own bytes exist. */
  lemma WholeExist(t: Tx)
    ensures IsWhole(LengthPrefixed, t) <==> t != [] && |t| == 1 + t[0] as int
  {
  }

  // ---- The boundary scan -------------------------------------------------------------------------

  /** The scan takes an encoded Entry of up to 512 transactions for one, and never a longer one. */
  lemma PlausibleExactly(txLen: TxLen, before: seq<byte>, e: EntryData, rest: seq<byte>)
    requires SelfDelimiting(txLen) && WellFormed(e) && AllWhole(txLen, e.txs)
    ensures Decodes(txLen, before + (Encode(e) + rest), |before|) <==> |e.txs| <= 512
  {
    hide LE64, ToLE64, ParseEntry;
    var b := before + (Encode(e) + rest);
    assert b[|before|..] == Encode(e) + rest;
    EntryRoundTrip(txLen, e, rest);
    CountAt(e, rest);
    LE64At(b, |before| + 40, (Encode(e) + rest)[40..48]);
    LE64At(Encode(e) + rest, 40, (Encode(e) + rest)[40..48]);
    assert b[|before| + 40..|before| + 48] == (Encode(e) + rest)[40..48];
  }
}
