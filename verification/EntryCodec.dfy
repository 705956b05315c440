/** The Entry stream inside a slot: an Entry is a u64 hash count, a 32-byte hash and a u64
    transaction count, followed by that many transactions. How long a transaction is comes
    from a length function `txLen`, of which only self-delimitation is ever used. */
module EntryCodec {
  import opened Wrappers
  import opened Bytes

  /** A transaction is identified with its wire bytes. */
  type Tx = seq<byte>

  /** The length of the transaction at the head of a buffer, None when none decodes there. */
  type TxLen = seq<byte> -> Option<nat>

  const ENTRY_HEADER: nat := 48
  const TX_COUNT_OFF: nat := 40
  const MAX_SCAN_TX_COUNT: nat := 512

  /** A decoded transaction is non-empty, lies inside the buffer, and decodes the same
      however many bytes follow it. */
  ghost predicate SelfDelimiting(txLen: TxLen) {
    forall b: seq<byte>, k: nat {:trigger txLen(b[..k])} | k <= |b| && txLen(b[..k]).Some? ::
      0 < txLen(b[..k]).value <= k && txLen(b) == txLen(b[..k])
  }

  datatype Parsed = Parsed(txs: seq<Tx>, size: nat) {
    /** One parse followed by another. */
    function Then(q: Parsed): (r: Parsed)
    {
      Parsed(txs + q.txs, size + q.size)
    }
  }

  lemma ThenAssociative(p: Parsed, q: Parsed, r: Parsed)
    ensures p.Then(q).Then(r) == p.Then(q.Then(r))
  {
    assert (p.txs + q.txs) + r.txs == p.txs + (q.txs + r.txs);
  }

  function ParseTxs(txLen: TxLen, b: seq<byte>, count: nat): (r: Option<Parsed>)
    ensures r.Some? ==> r.value.size <= |b| && |r.value.txs| == count
    decreases count
  {
    if count == 0 then Some(Parsed([], 0)) else
    var n := txLen(b);
    if n.None? || n.value > |b| then None else
    var rest := ParseTxs(txLen, b[n.value..], count - 1);
    if rest.None? then None else
    Some(Parsed([b[..n.value]] + rest.value.txs, n.value + rest.value.size))
  }

  function ParseEntry(txLen: TxLen, b: seq<byte>): (r: Option<Parsed>)
    ensures r.Some? ==> ENTRY_HEADER <= r.value.size <= |b|
  {
    if |b| < ENTRY_HEADER then None else
    var body := ParseTxs(txLen, b[ENTRY_HEADER..], LE64(b, TX_COUNT_OFF));
    if body.None? then None else
    Some(Parsed(body.value.txs, ENTRY_HEADER + body.value.size))
  }

  /** The greedy parse: as many whole Entries as the buffer starts with, in order. */
  function Greedy(txLen: TxLen, b: seq<byte>): (r: Parsed)
    ensures r.size <= |b|
    decreases |b|
  {
    var e := ParseEntry(txLen, b);
    if e.None? then Parsed([], 0) else
    e.value.Then(Greedy(txLen, b[e.value.size..]))
  }

  lemma {:induction false} ParseTxsPrefixStable(txLen: TxLen, b: seq<byte>, k: nat, count: nat)
    requires SelfDelimiting(txLen) && k <= |b|
    requires ParseTxs(txLen, b[..k], count).Some?
    ensures ParseTxs(txLen, b, count) == ParseTxs(txLen, b[..k], count)
    decreases count
  {
    if count == 0 {
    } else {
      var n := txLen(b[..k]).value;
      assert b[..k][n..] == b[n..][..k - n];
      assert b[..k][..n] == b[..n];
      ParseTxsPrefixStable(txLen, b[n..], k - n, count - 1);
    }
  }

  /** An Entry that decodes from a prefix decodes identically from the longer buffer. */
  lemma ParseEntryPrefixStable(txLen: TxLen, b: seq<byte>, k: nat)
    requires SelfDelimiting(txLen) && k <= |b|
    requires ParseEntry(txLen, b[..k]).Some?
    ensures ParseEntry(txLen, b) == ParseEntry(txLen, b[..k])
  {
    assert LE64(b[..k], TX_COUNT_OFF) == LE64(b, TX_COUNT_OFF);
    assert b[..k][ENTRY_HEADER..] == b[ENTRY_HEADER..][..k - ENTRY_HEADER];
    ParseTxsPrefixStable(txLen, b[ENTRY_HEADER..], k - ENTRY_HEADER, LE64(b, TX_COUNT_OFF));
  }

  lemma ParseEntryExtends(txLen: TxLen, b: seq<byte>, more: seq<byte>)
    requires SelfDelimiting(txLen) && ParseEntry(txLen, b).Some?
    ensures ParseEntry(txLen, b + more) == ParseEntry(txLen, b)
  {
    assert (b + more)[..|b|] == b;
    ParseEntryPrefixStable(txLen, b + more, |b|);
  }

  lemma DropOfAppend(b: seq<byte>, more: seq<byte>, n: nat)
    requires n <= |b|
    ensures (b + more)[n..] == b[n..] + more
  {
  }

  /** What the greedy parse leaves. */
  function Rest(txLen: TxLen, b: seq<byte>): (r: seq<byte>) {
    b[Greedy(txLen, b).size..]
  }

  lemma GreedyStep(txLen: TxLen, b: seq<byte>, e: Parsed)
    requires ParseEntry(txLen, b) == Some(e)
    ensures Greedy(txLen, b) == e.Then(Greedy(txLen, b[e.size..]))
    ensures Rest(txLen, b) == Rest(txLen, b[e.size..])
  {
  }

  lemma GreedyStuck(txLen: TxLen, b: seq<byte>, p: Parsed)
    requires ParseEntry(txLen, b).None?
    ensures Greedy(txLen, b) == Parsed([], 0) && Rest(txLen, b) == b && Greedy(txLen, b).Then(p) == p
  {
  }

  /** Parsing a buffer and then, from where that stopped, the buffer with more bytes
      gives what one parse of everything gives. */
  lemma {:induction false} GreedyChunkIndependent(txLen: TxLen, b: seq<byte>, more: seq<byte>)
    requires SelfDelimiting(txLen)
    ensures Greedy(txLen, b + more) == Greedy(txLen, b).Then(Greedy(txLen, Rest(txLen, b) + more))
    decreases |b|
  {
    var e := ParseEntry(txLen, b);
    if e.None? {
      GreedyStuck(txLen, b, Greedy(txLen, b + more));
    } else {
      var tail := b[e.value.size..];
      ParseEntryExtends(txLen, b, more);
      GreedyStep(txLen, b, e.value);
      GreedyStep(txLen, b + more, e.value);
      DropOfAppend(b, more, e.value.size);
      GreedyChunkIndependent(txLen, tail, more);
      ThenAssociative(e.value, Greedy(txLen, tail), Greedy(txLen, Rest(txLen, tail) + more));
    }
  }

  lemma GreedyJoins(txLen: TxLen, part: seq<byte>, more: seq<byte>)
    requires SelfDelimiting(txLen)
    ensures Greedy(txLen, part + more) ==
              Greedy(txLen, part).Then(Greedy(txLen, part[Greedy(txLen, part).size..] + more))
  {
    GreedyChunkIndependent(txLen, part, more);
  }

  lemma Offsets(b: seq<byte>, all: seq<byte>, from: nat, n: nat)
    requires b <= all && from + n <= |b|
    ensures all[from..] == b[from..] + all[|b|..]
    ensures all[from + n..] == b[from..][n..] + all[|b|..]
  {
  }

  /** The same for a parse that starts inside the buffer. */
  lemma GreedyResumes(txLen: TxLen, b: seq<byte>, all: seq<byte>, from: nat)
    requires SelfDelimiting(txLen) && b <= all && from <= |b|
    ensures var first := Greedy(txLen, b[from..]);
            Greedy(txLen, all[from..]) == first.Then(Greedy(txLen, all[from + first.size..]))
  {
    GreedyJoins(txLen, b[from..], all[|b|..]);
    Offsets(b, all, from, Greedy(txLen, b[from..]).size);
  }

  /** Any number of chunks, parsed as they arrive from where the last parse stopped. */
  function Streamed(txLen: TxLen, chunks: seq<seq<byte>>): (r: Parsed)
    ensures r.size <= |Flatten(chunks)|
  {
    if chunks == [] then Parsed([], 0) else
    var before := Streamed(txLen, chunks[..|chunks| - 1]);
    before.Then(Greedy(txLen, Flatten(chunks)[before.size..]))
  }

  lemma {:induction false} StreamedIsGreedy(txLen: TxLen, chunks: seq<seq<byte>>)
    requires SelfDelimiting(txLen)
    ensures Streamed(txLen, chunks) == Greedy(txLen, Flatten(chunks))
  {
    if chunks != [] {
      var front, last := chunks[..|chunks| - 1], chunks[|chunks| - 1];
      StreamedIsGreedy(txLen, front);
      assert Flatten(chunks) == Flatten(front) + last;
      GreedyChunkIndependent(txLen, Flatten(front), last);
      DropOfAppend(Flatten(front), last, Greedy(txLen, Flatten(front)).size);
    }
  }

  /** A buffer position the boundary scan accepts: a plausible transaction count and an
      Entry that decodes. */
  predicate Decodes(txLen: TxLen, b: seq<byte>, off: nat) {
    && off + ENTRY_HEADER <= |b|
    && LE64(b, off + TX_COUNT_OFF) <= MAX_SCAN_TX_COUNT
    && ParseEntry(txLen, b[off..]).Some?
  }

  /** The least position from `off` on that the boundary scan accepts. */
  function ScanFrom(txLen: TxLen, b: seq<byte>, off: nat): (r: Option<nat>)
    ensures r.Some? ==> off <= r.value && Decodes(txLen, b, r.value)
    ensures forall o :: off <= o && (r.Some? ==> o < r.value) ==> !Decodes(txLen, b, o)
    decreases |b| - off
  {
    if off + ENTRY_HEADER > |b| then None
    else if Decodes(txLen, b, off) then Some(off)
    else ScanFrom(txLen, b, off + 1)
  }

  /** A position that decodes keeps decoding as bytes are appended. */
  lemma DecodesMonotone(txLen: TxLen, b: seq<byte>, more: seq<byte>, off: nat)
    requires SelfDelimiting(txLen) && Decodes(txLen, b, off)
    ensures Decodes(txLen, b + more, off)
    ensures ParseEntry(txLen, (b + more)[off..]) == ParseEntry(txLen, b[off..])
  {
    assert (b + more)[off..][..|b| - off] == b[off..];
    ParseEntryPrefixStable(txLen, (b + more)[off..], |b| - off);
    assert LE64(b + more, off + TX_COUNT_OFF) == LE64(b, off + TX_COUNT_OFF);
  }

  // ---- Where a longer buffer moves the boundary ----------------------------------------------

  /** How far `count` transactions decode: the bytes from which the next does not, and how many are
      then left. */
  function Stalled(txLen: TxLen, b: seq<byte>, count: nat): (r: (seq<byte>, nat))
    ensures r.1 <= count && (r.1 > 0 ==> txLen(r.0).None? || txLen(r.0).value > |r.0|)
    decreases count
  {
    if count == 0 then (b, 0) else
    var n := txLen(b);
    if n.None? || n.value > |b| then (b, count) else Stalled(txLen, b[n.value..], count - 1)
  }

  /** More bytes complete the transactions exactly when they complete those left. */
  lemma {:induction false} ParseResumes(txLen: TxLen, b: seq<byte>, more: seq<byte>, count: nat)
    requires SelfDelimiting(txLen)
    ensures var (rest, left) := Stalled(txLen, b, count);
            && (ParseTxs(txLen, b, count).Some? <==> left == 0)
            && (ParseTxs(txLen, b + more, count).Some? <==> ParseTxs(txLen, rest + more, left).Some?)
    decreases count
  {
    if count > 0 && txLen(b).Some? && txLen(b).value <= |b| {
      var n := txLen(b).value;
      assert (b + more)[..|b|] == b && (b + more)[n..] == b[n..] + more;
      ParseResumes(txLen, b[n..], more, count - 1);
    }
  }

  /** An Entry header at `o` is whole and plausible, and `more` completes the transactions it still
      lacks. */
  predicate Completes(txLen: TxLen, b: seq<byte>, more: seq<byte>, o: nat)
    requires o + ENTRY_HEADER <= |b|
  {
    && LE64(b, o + TX_COUNT_OFF) <= MAX_SCAN_TX_COUNT
    && var (rest, left) := Stalled(txLen, b[o + ENTRY_HEADER..], LE64(b, o + TX_COUNT_OFF));
    left > 0 && ParseTxs(txLen, rest + more, left).Some?
  }

  lemma DecodesLater(txLen: TxLen, b: seq<byte>, more: seq<byte>, o: nat)
    requires SelfDelimiting(txLen) && o + ENTRY_HEADER <= |b| && !Decodes(txLen, b, o)
    ensures Decodes(txLen, b + more, o) <==> Completes(txLen, b, more, o)
  {
    var count, body := LE64(b, o + TX_COUNT_OFF), b[o + ENTRY_HEADER..];
    assert LE64(b + more, o + TX_COUNT_OFF) == count;
    assert LE64(b[o..], TX_COUNT_OFF) == count && LE64((b + more)[o..], TX_COUNT_OFF) == count;
    assert b[o..][ENTRY_HEADER..] == body && (b + more)[o..][ENTRY_HEADER..] == body + more;
    hide LE64, ParseTxs, Stalled;
    ParseResumes(txLen, body, more, count);
  }

  /** In mid-stream, a scan of the longer buffer finds another boundary than the scan before exactly when
      the new bytes complete an Entry whose plausible header stands, whole, at an earlier position. */
  lemma BoundaryMovesExactly(txLen: TxLen, b: seq<byte>, more: seq<byte>, at: nat)
    requires SelfDelimiting(txLen) && ScanFrom(txLen, b, 0) == Some(at)
    ensures ScanFrom(txLen, b + more, 0) != Some(at) <==> exists o :: 0 <= o < at && Completes(txLen, b, more, o)
  {
    hide Decodes, Completes, ScanFrom;
    DecodesInside(txLen, b, at);
    var r := ScanFrom(txLen, b + more, 0);
    DecodesMonotone(txLen, b, more, at);
    forall o | 0 <= o < at ensures Decodes(txLen, b + more, o) <==> Completes(txLen, b, more, o) {
      DecodesLater(txLen, b, more, o);
    }
    assert r.Some? && r.value <= at && Decodes(txLen, b + more, r.value);
  }

  lemma DecodesInside(txLen: TxLen, b: seq<byte>, o: nat)
    ensures Decodes(txLen, b, o) ==> o + ENTRY_HEADER <= |b|
  {
  }

  /** One length byte, then that many bytes: a transaction codec meeting the law. */
  function LengthPrefixed(b: seq<byte>): (r: Option<nat>) {
    if |b| == 0 || b[0] as nat >= |b| then None else Some(1 + b[0] as nat)
  }

  lemma LengthPrefixedIsSelfDelimiting()
    ensures SelfDelimiting(LengthPrefixed)
  {
  }
}
