/** The binary shred header, as the decoder reads it. */
module ShredWire {
  import opened Wrappers
  import opened Bytes

  const VARIANT_OFF: nat := 64
  const SLOT_OFF: nat := 65
  const INDEX_OFF: nat := 73
  const FEC_SET_INDEX_OFF: nat := 79
  const FLAGS_OFF: nat := 85
  const SIZE_OFF: nat := 86
  const DATA_OFF: nat := 88
  const LEGACY_DATA_VARIANT: byte := 0xa5
  const LEGACY_CODE_VARIANT: byte := 0x5a
  const CODE_NUM_DATA_OFF: nat := 83
  const CODE_NUM_CODE_OFF: nat := 85
  const CODE_POSITION_OFF: nat := 87
  const CODE_HDR_END: nat := 89

  /** Width of one Reed-Solomon symbol row: every shard is cut or padded to it. */
  const SHRED_RS_SIZE: nat := 1228

  type Shard = seq<byte>

  predicate IsDataVariant(v: byte) {
    v == LEGACY_DATA_VARIANT || HighNibble(v) in {0x80, 0x90, 0xa0, 0xb0}
  }

  predicate IsCodeVariant(v: byte) {
    HighNibble(v) in {0x40, 0x50, 0x60, 0x70} && v != LEGACY_CODE_VARIANT
  }

  /** The variants as ranges: data shreds are 0x80 to 0xbf, among them the legacy 0xa5; coding shreds are 0x40 to
      0x7f without the legacy 0x5a. */
  lemma VariantRanges(v: byte)
    ensures IsDataVariant(v) <==> 0x80 <= v < 0xc0
    ensures IsCodeVariant(v) <==> 0x40 <= v < 0x80 && v != 0x5a
  {
  }

  /** What the receiver lets through to the decoder. */
  predicate Gated(b: seq<byte>) {
    CODE_HDR_END <= |b| <= 1500 && (IsDataVariant(b[VARIANT_OFF]) || IsCodeVariant(b[VARIANT_OFF]))
  }

  /** The gate: 89 to 1500 bytes, of either variant. */
  lemma GatedExactly(b: seq<byte>)
    ensures Gated(b) <==> 89 <= |b| <= 1500 && 0x40 <= b[64] < 0xc0 && b[64] != 0x5a
  {
    if |b| >= 89 {
      VariantRanges(b[64]);
    }
  }

  datatype Position = Position(slot: u64, index: u32, fecSet: u32)

  function ParsePosition(b: seq<byte>): (r: Option<Position>)
    ensures r.None? <==> |b| < FEC_SET_INDEX_OFF + 4
  {
    if |b| < FEC_SET_INDEX_OFF + 4 then None else
    Some(Position(LE64(b, SLOT_OFF), LE32(b, INDEX_OFF), LE32(b, FEC_SET_INDEX_OFF)))
  }

  datatype CodeHeader = CodeHeader(numData: nat, numCoding: nat, position: nat)

  function ParseCodeHeader(b: seq<byte>): (r: Option<CodeHeader>)
    ensures r.Some? ==> 0 < r.value.numData < U16_SIZE && 0 < r.value.numCoding < U16_SIZE
  {
    if |b| < CODE_HDR_END || !IsCodeVariant(b[VARIANT_OFF]) then None else
    var h := CodeHeader(LE16(b, CODE_NUM_DATA_OFF), LE16(b, CODE_NUM_CODE_OFF), LE16(b, CODE_POSITION_OFF));
    if h.numData == 0 || h.numCoding == 0 then None else Some(h)
  }

  datatype DataPart = DataPart(last: bool, payload: seq<byte>)

  function ParseData(b: seq<byte>): (r: Option<DataPart>)
    ensures r.Some? ==> |b| >= DATA_OFF && IsDataVariant(b[VARIANT_OFF])
  {
    if |b| < DATA_OFF || !IsDataVariant(b[VARIANT_OFF]) then None else
    var size := LE16(b, SIZE_OFF);
    if size < DATA_OFF || size > |b| then None else
    Some(DataPart(b[FLAGS_OFF] % 2 == 1, b[DATA_OFF..size]))
  }

  /** Field by field: a data shred is read exactly when its variant is one and its declared size covers its
      header and lies within it; the payload is what lies between, and the last shred has bit 0 of byte 85. */
  lemma DataReadExactly(b: seq<byte>, part: DataPart)
    ensures ParseData(b) == Some(part) <==>
              && |b| >= 88 && 0x80 <= b[64] < 0xc0
              && var size := b[86] as int + 0x100 * b[87] as int;
              && 88 <= size <= |b| && part.payload == b[88..size]
              && (b[85] as int) == 2 * (b[85] as int / 2) + if part.last then 1 else 0
  {
    if |b| >= 88 {
      VariantRanges(b[64]);
    }
  }

  lemma CodeReadExactly(b: seq<byte>, h: CodeHeader)
    ensures ParseCodeHeader(b) == Some(h) <==>
              && |b| >= 89 && 0x40 <= b[64] < 0x80 && b[64] != 0x5a
              && h.numData == b[83] as int + 0x100 * b[84] as int && h.numCoding == b[85] as int + 0x100 * b[86] as int
              && h.position == b[87] as int + 0x100 * b[88] as int && h.numData > 0 && h.numCoding > 0
  {
    if |b| >= 89 {
      VariantRanges(b[64]);
    }
  }

  /** `resize(SHRED_RS_SIZE, 0)`. */
  function ToShard(b: seq<byte>): (r: Shard)
    ensures |r| == SHRED_RS_SIZE == 1228
    ensures forall i :: 0 <= i < SHRED_RS_SIZE ==> r[i] == if i < |b| then b[i] else 0
  {
    if |b| >= SHRED_RS_SIZE then b[..SHRED_RS_SIZE] else b + seq(SHRED_RS_SIZE - |b|, _ => 0)
  }

  /** Turning a parseable data shred into a shard leaves its parse unchanged exactly when the
      declared end of its data lies within the shard. */
  lemma PaddingTransparent(b: seq<byte>)
    requires ParseData(b).Some?
    ensures ParseData(ToShard(b)) == ParseData(b) <==> LE16(b, SIZE_OFF) <= SHRED_RS_SIZE
  {
    var s := ToShard(b);
    assert LE16(s, SIZE_OFF) == LE16(b, SIZE_OFF);
    var size := LE16(b, SIZE_OFF);
    if size <= SHRED_RS_SIZE {
      assert s[DATA_OFF..size] == b[DATA_OFF..size];
    }
  }

  /** A data shred and a coding shred are never confused. */
  lemma DataAndCodeDisjoint(b: seq<byte>)
    ensures !(ParseData(b).Some? && ParseCodeHeader(b).Some?)
  {
  }

  datatype Body = Code(header: CodeHeader) | Data(part: DataPart) | Other

  /** One received shred, parsed: where it belongs, what it carries, and the row it
      contributes to its FEC set. */
  datatype Packet = Packet(slot: u64, index: u32, fecSet: u32, body: Body, shard: Shard)

  function Parse(b: seq<byte>): (r: Option<Packet>)
  {
    var pos := ParsePosition(b);
    if pos.None? then None else
    var code := ParseCodeHeader(b);
    var data := ParseData(b);
    var body := if code.Some? then Code(code.value) else if data.Some? then Data(data.value) else Other;
    Some(Packet(pos.value.slot, pos.value.index, pos.value.fecSet, body, ToShard(b)))
  }

  /** Every gated packet is a coding shred, a data shred, or a shred the decoder skips for one
      of three reasons: zero set dimensions, or a data end before or behind its bytes. */
  lemma GatedPacketBody(b: seq<byte>)
    requires Gated(b)
    ensures Parse(b).Some?
    ensures Parse(b).value.body.Other? <==>
              if IsCodeVariant(b[VARIANT_OFF])
              then LE16(b, CODE_NUM_DATA_OFF) == 0 || LE16(b, CODE_NUM_CODE_OFF) == 0
              else LE16(b, SIZE_OFF) < DATA_OFF || LE16(b, SIZE_OFF) > |b|
  {
  }
}
