/** Shreds as bytes: the encoding that the decoder's parsers undo. */
module ShredBytes {
  import opened Wrappers
  import opened Bytes
  import opened ShredWire

  const MERKLE_CODE_VARIANT: byte := 0x40

  /** Signature, variant, slot, index, version and FEC set. */
  function CommonHeader(variant: byte, slot: u64, index: u32, fecSet: u32): (r: seq<byte>)
    ensures |r| == CODE_NUM_DATA_OFF
  {
    seq(64, _ => 0 as byte) + [variant] + ToLE64(slot) + ToLE32(index) + [0, 0] + ToLE32(fecSet)
  }

  function DataShred(slot: u64, index: u32, fecSet: u32, part: DataPart): (r: seq<byte>)
    requires DATA_OFF + |part.payload| < U16_SIZE
    ensures |r| == DATA_OFF + |part.payload|
  {
    CommonHeader(LEGACY_DATA_VARIANT, slot, index, fecSet) + [0, 0, if part.last then 1 else 0]
    + ToLE16(DATA_OFF + |part.payload|) + part.payload
  }

  function CodeShred(slot: u64, index: u32, fecSet: u32, h: CodeHeader): (r: seq<byte>)
    requires h.numData < U16_SIZE && h.numCoding < U16_SIZE && h.position < U16_SIZE
    ensures |r| == CODE_HDR_END
  {
    CommonHeader(MERKLE_CODE_VARIANT, slot, index, fecSet) + ToLE16(h.numData) + ToLE16(h.numCoding) + ToLE16(h.position)
  }

  lemma LE16At(b: seq<byte>, off: nat, v: seq<byte>)
    requires off + 2 <= |b| && |v| == 2 && b[off..off + 2] == v
    ensures LE16(b, off) == LE16(v, 0)
  {
    assert b[off] == b[off..off + 2][0] && b[off + 1] == b[off..off + 2][1];
  }

  lemma LE32At(b: seq<byte>, off: nat, v: seq<byte>)
    requires off + 4 <= |b| && |v| == 4 && b[off..off + 4] == v
    ensures LE32(b, off) == LE32(v, 0)
  {
    hide LE16;
    assert b[off..off + 2] == v[..2] && b[off + 2..off + 4] == v[2..4];
    LE16At(b, off, v[..2]);
    LE16At(v, 0, v[..2]);
    LE16At(b, off + 2, v[2..4]);
    LE16At(v, 2, v[2..4]);
  }

  lemma LE64At(b: seq<byte>, off: nat, v: seq<byte>)
    requires off + 8 <= |b| && |v| == 8 && b[off..off + 8] == v
    ensures LE64(b, off) == LE64(v, 0)
  {
    hide LE32;
    assert b[off..off + 4] == v[..4] && b[off + 4..off + 8] == v[4..8];
    LE32At(b, off, v[..4]);
    LE32At(v, 0, v[..4]);
    LE32At(b, off + 4, v[4..8]);
    LE32At(v, 4, v[4..8]);
  }

  lemma HeaderAt(raw: seq<byte>, variant: byte, slot: u64, index: u32, fecSet: u32)
    requires |raw| >= CODE_NUM_DATA_OFF && raw[..CODE_NUM_DATA_OFF] == CommonHeader(variant, slot, index, fecSet)
    ensures raw[VARIANT_OFF] == variant && LE64(raw, SLOT_OFF) == slot
    ensures LE32(raw, INDEX_OFF) == index && LE32(raw, FEC_SET_INDEX_OFF) == fecSet
  {
    hide LE64, LE32, ToLE64, ToLE32;
    var h := CommonHeader(variant, slot, index, fecSet);
    assert raw[VARIANT_OFF] == raw[..CODE_NUM_DATA_OFF][VARIANT_OFF];
    assert raw[65..73] == h[65..73] == ToLE64(slot);
    assert raw[73..77] == h[73..77] == ToLE32(index);
    assert raw[79..83] == h[79..83] == ToLE32(fecSet);
    LE64At(raw, 65, ToLE64(slot));
    LE32At(raw, 73, ToLE32(index));
    LE32At(raw, 79, ToLE32(fecSet));
  }

  /** A data shred is parsed back, whatever it carries. */
  lemma DataRoundTrip(slot: u64, index: u32, fecSet: u32, part: DataPart)
    requires DATA_OFF + |part.payload| < U16_SIZE
    ensures var raw := DataShred(slot, index, fecSet, part);
            ParseData(raw) == Some(part) && Parse(raw) == Some(Packet(slot, index, fecSet, Data(part), ToShard(raw)))
  {
    hide CommonHeader, LE64, LE32, LE16, ToLE16;
    var raw, size := DataShred(slot, index, fecSet, part), DATA_OFF + |part.payload|;
    HeaderAt(raw, LEGACY_DATA_VARIANT, slot, index, fecSet);
    assert raw[FLAGS_OFF] == if part.last then 1 else 0;
    assert raw[86..88] == ToLE16(size);
    LE16At(raw, 86, ToLE16(size));
    assert raw[DATA_OFF..size] == part.payload;
    DataAndCodeDisjoint(raw);
  }

  /** And so is a coding shred of a set with rows of both kinds. */
  lemma CodeRoundTrip(slot: u64, index: u32, fecSet: u32, h: CodeHeader)
    requires 0 < h.numData < U16_SIZE && 0 < h.numCoding < U16_SIZE && h.position < U16_SIZE
    ensures var raw := CodeShred(slot, index, fecSet, h);
            Parse(raw) == Some(Packet(slot, index, fecSet, Code(h), ToShard(raw)))
  {
    hide CommonHeader, LE64, LE32, LE16, ToLE16;
    var raw := CodeShred(slot, index, fecSet, h);
    HeaderAt(raw, MERKLE_CODE_VARIANT, slot, index, fecSet);
    assert raw[83..85] == ToLE16(h.numData) && raw[85..87] == ToLE16(h.numCoding) && raw[87..89] == ToLE16(h.position);
    LE16At(raw, 83, ToLE16(h.numData));
    LE16At(raw, 85, ToLE16(h.numCoding));
    LE16At(raw, 87, ToLE16(h.position));
  }

  /** A coding shred of an empty set is neither, and skipped. */
  lemma EmptySetIsOther(slot: u64, index: u32, fecSet: u32)
    ensures var raw := CodeShred(slot, index, fecSet, CodeHeader(0, 0, 0));
            Parse(raw) == Some(Packet(slot, index, fecSet, Other, ToShard(raw)))
  {
    hide CommonHeader, LE64, LE32, LE16, ToLE16;
    var raw := CodeShred(slot, index, fecSet, CodeHeader(0, 0, 0));
    HeaderAt(raw, MERKLE_CODE_VARIANT, slot, index, fecSet);
    assert raw[83..85] == ToLE16(0);
    LE16At(raw, 83, ToLE16(0));
  }

  /** The packet is the parse of some bytes. */
  ghost predicate IsReceived(p: Packet) {
    exists raw :: Parse(raw) == Some(p)
  }

  ghost predicate Received(ps: seq<Packet>) {
    forall k | 0 <= k < |ps| :: IsReceived(ps[k])
  }

  /** Both pass the receiver's gate if they fit a packet. */
  lemma EncodedAreGated(slot: u64, index: u32, fecSet: u32, part: DataPart, h: CodeHeader)
    requires h.numData < U16_SIZE && h.numCoding < U16_SIZE && h.position < U16_SIZE
    requires 1 <= |part.payload| <= 1500 - DATA_OFF
    ensures Gated(DataShred(slot, index, fecSet, part)) && Gated(CodeShred(slot, index, fecSet, h))
  {
    hide CommonHeader;
    HeaderAt(DataShred(slot, index, fecSet, part), LEGACY_DATA_VARIANT, slot, index, fecSet);
    HeaderAt(CodeShred(slot, index, fecSet, h), MERKLE_CODE_VARIANT, slot, index, fecSet);
  }
}
