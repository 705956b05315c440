/** The whole decoder as a state machine over parsed packets. Its state has two sides, the slots
    with their counters and the FEC sets with theirs; a coding shred hands recovered rows from
    the second to the first. */
module DecoderModel {
  import opened Bytes
  import opened EntryCodec
  import opened ShredWire
  import opened SlotModel
  import opened FecModel

  const SLOT_EXPIRY_DISTANCE: nat := 32
  const MAX_SLOT_JUMP: nat := 1000

  datatype Outcome = Complete | Partial | Dropped
  datatype SlotStats = SlotStats(slot: nat, shredsSeen: nat, fecRecovered: nat, txsDecoded: nat, outcome: Outcome)

  datatype Env = Env(txLen: TxLen, code: Code)

  /** The live slots and the counters about slots. `retired` and `outcomes` are history that the
      program does not store: the slots that expired, and the outcomes each slot number got. */
  datatype SlotSide = SlotSide(
    live: map<u64, Slot>, attempted: nat, complete: nat, partial: nat, dropped: nat,
    coverageSeen: nat, fecRecovered: nat, txsDecoded: int,
    retired: map<u64, Slot>, outcomes: map<u64, seq<SlotStats>>)

  /** A FEC set is named by its slot and its set index. */
  type FecKey = (u64, u32)

  /** The live FEC sets and the coverage denominator. `retired`, `created` and `reconstructed` are
      history: the sets that expired, and how often each was created and reconstructed. */
  datatype FecSide = FecSide(
    live: map<FecKey, Fec>, coverageExpected: nat,
    retired: map<FecKey, Fec>, created: multiset<FecKey>, reconstructed: multiset<FecKey>)

  datatype Dec = Dec(slots: SlotSide, fecs: FecSide, highest: u64)

  const Init: Dec :=
    Dec(SlotSide(map[], 0, 0, 0, 0, 0, 0, 0, map[], map[]), FecSide(map[], 0, map[], multiset{}, multiset{}), 0)

  // ---- Expiry --------------------------------------------------------------------------

  /** The expiry test, in u64 arithmetic. */
  predicate Keeps(s: u64, highest: u64) {
    WrappingAdd(s, SLOT_EXPIRY_DISTANCE) >= highest
  }

  function OutcomesOf(ss: SlotSide, s: u64): (r: seq<SlotStats>) {
    if s in ss.outcomes then ss.outcomes[s] else []
  }

  function ExpiryStats(s: u64, state: Slot): (r: SlotStats) {
    if state.txsDecoded > 0
    then SlotStats(s, state.shredsSeen, state.fecRecovered, state.txsDecoded, Partial)
    else SlotStats(s, state.shredsSeen, state.fecRecovered, 0, Dropped)
  }

  function Gone(live: map<u64, Slot>, highest: u64): (r: set<u64>) {
    set s | s in live && !Keeps(s, highest)
  }

  /** The slots among `gone` that never completed, and those of them with decoded transactions. */
  function Lost(live: map<u64, Slot>, gone: set<u64>): (r: set<u64>) {
    set s | s in gone && s in live && !live[s].counted
  }

  function LostPartial(live: map<u64, Slot>, gone: set<u64>): (r: set<u64>) {
    set s | s in gone && s in live && !live[s].counted && live[s].txsDecoded > 0
  }

  function RetiredAfter(live: map<u64, Slot>, retired: map<u64, Slot>, gone: set<u64>): (r: map<u64, Slot>) {
    retired + (map s | s in gone && s in live :: live[s])
  }

  function OutcomesAfter(live: map<u64, Slot>, outcomes: map<u64, seq<SlotStats>>, gone: set<u64>)
    : (r: map<u64, seq<SlotStats>>)
  {
    map s | s in outcomes.Keys + Lost(live, gone) ::
      var given := if s in outcomes then outcomes[s] else [];
      if s in Lost(live, gone) then given + [ExpiryStats(s, live[s])] else given
  }

  /** Drop the slots in `gone`; those that never completed get an outcome. */
  function Retire(ss: SlotSide, gone: set<u64>): (r: SlotSide) {
    var lost, partial := Lost(ss.live, gone), LostPartial(ss.live, gone);
    ss.(live := ss.live - gone,
        partial := ss.partial + |partial|,
        dropped := ss.dropped + |lost - partial|,
        retired := RetiredAfter(ss.live, ss.retired, gone),
        outcomes := OutcomesAfter(ss.live, ss.outcomes, gone))
  }

  function ExpireSlots(ss: SlotSide, highest: u64): (r: SlotSide) {
    Retire(ss, Gone(ss.live, highest))
  }

  function GoneFecs(live: map<FecKey, Fec>, highest: u64): (r: set<FecKey>) {
    set k | k in live && !Keeps(k.0, highest)
  }

  function ExpireFecs(fs: FecSide, highest: u64): (r: FecSide) {
    var gone := GoneFecs(fs.live, highest);
    fs.(live := fs.live - gone, retired := fs.retired + (map k | k in gone && k in fs.live :: fs.live[k]))
  }

  /** Raise the highest slot, unless the jump is implausible, and expire what falls behind. */
  function Advance(st: Dec, slot: u64): (r: Dec) {
    if slot > st.highest && (st.highest == 0 || slot - st.highest <= MAX_SLOT_JUMP)
    then Dec(ExpireSlots(st.slots, slot), ExpireFecs(st.fecs, slot), slot) else st
  }

  // ---- Slots ---------------------------------------------------------------------------

  function SlotOf(ss: SlotSide, s: u64): (r: Slot) {
    if s in ss.live then ss.live[s] else Empty
  }

  function CompletionStats(s: u64, before: Slot, after: Slot): (r: SlotStats) {
    SlotStats(s, after.shredsSeen, after.fecRecovered, before.txsDecoded, Complete)
  }

  /** Slot `s` becomes `after`; creation, completion and decoded transactions are counted. */
  function PutSlot(ss: SlotSide, s: u64, after: Slot): (r: SlotSide) {
    var before := SlotOf(ss, s);
    var done := after.counted && !before.counted;
    ss.(live := ss.live[s := after],
        attempted := ss.attempted + if s in ss.live then 0 else 1,
        complete := ss.complete + if done then 1 else 0,
        txsDecoded := ss.txsDecoded + after.txsDecoded - before.txsDecoded,
        outcomes := if done then ss.outcomes[s := OutcomesOf(ss, s) + [CompletionStats(s, before, after)]] else ss.outcomes)
  }

  /** Count data shreds seen, some of them recovered. */
  function Cover(ss: SlotSide, seen: nat, recovered: nat): (r: SlotSide) {
    ss.(coverageSeen := ss.coverageSeen + seen, fecRecovered := ss.fecRecovered + recovered)
  }

  function SlotOnData(txLen: TxLen, ss: SlotSide, p: Packet, part: DataPart): (r: SlotSide) {
    PutSlot(Cover(ss, 1, 0), p.slot,
            Deliver(txLen, SlotOf(ss, p.slot), p.index, part.payload, part.last))
  }

  /** Recovered rows enter their slot, which is created only when there are any. */
  function SlotOnRows(txLen: TxLen, ss: SlotSide, p: Packet, rows: seq<Row>): (r: SlotSide) {
    if rows == [] then ss else
    var n := AcceptRows(SlotOf(ss, p.slot), p.fecSet, rows).1;
    PutSlot(Cover(ss, n, n), p.slot,
            Recover(txLen, SlotOf(ss, p.slot), p.fecSet, rows))
  }

  // ---- FEC sets ------------------------------------------------------------------------

  /** A data shred adds its row to its set if that set exists. */
  function FecOnData(fs: FecSide, p: Packet): (r: FecSide) {
    var key := (p.slot, p.fecSet);
    if p.index >= p.fecSet && key in fs.live
    then fs.(live := fs.live[key := Hold(fs.live[key], p.index - p.fecSet, p.shard)]) else fs
  }

  function Create(fs: FecSide, key: FecKey, h: CodeHeader): (r: FecSide) {
    if key in fs.live then fs else
    fs.(live := fs.live[key := NewFec(h.numData, h.numCoding)],
        coverageExpected := fs.coverageExpected + h.numData, created := fs.created + multiset{key})
  }

  /** A set that can be reconstructed is, once; its rows are released. */
  function Solve(code: Code, fs: FecSide, key: FecKey): (r: (FecSide, seq<Row>))
    requires key in fs.live
  {
    var f := fs.live[key];
    if !Ready(f) then (fs, []) else
    (fs.(live := fs.live[key := f.(shards := map[], recovered := true)],
         reconstructed := fs.reconstructed + multiset{key}),
     Reconstructed(code, f))
  }

  /** A coding shred creates its set if need be and adds its row when the dimensions match; the
      rows this lets the set recover are returned. */
  function FecOnCode(code: Code, fs: FecSide, p: Packet, h: CodeHeader): (r: (FecSide, seq<Row>)) {
    if h.position >= h.numCoding then (fs, []) else
    var key := (p.slot, p.fecSet);
    var made := Create(fs, key, h);
    var f := made.live[key];
    if f.numData != h.numData || f.numCoding != h.numCoding then (made, []) else
    Solve(code, made.(live := made.live[key := Hold(f, h.numData + h.position, p.shard)]), key)
  }

  // ---- The step ------------------------------------------------------------------------

  /** What a packet does once the window has moved. */
  function Act(env: Env, st: Dec, p: Packet): (r: Dec) {
    match p.body
    case Code(h) =>
      var (fs, rows) := FecOnCode(env.code, st.fecs, p, h);
      st.(fecs := fs, slots := SlotOnRows(env.txLen, st.slots, p, rows))
    case Data(part) =>
      st.(fecs := FecOnData(st.fecs, p), slots := SlotOnData(env.txLen, st.slots, p, part))
    case Other => st
  }

  /** The packet's slot is too far behind the highest slot. */
  predicate TooOld(highest: u64, slot: u64) {
    highest > slot + SLOT_EXPIRY_DISTANCE
  }

  function Step(env: Env, st: Dec, p: Packet): (r: Dec) {
    var a := Advance(st, p.slot);
    if TooOld(a.highest, p.slot) then a else Act(env, a, p)
  }

  /** The state after a whole run. */
  function Run(env: Env, ps: seq<Packet>): (r: Dec) {
    if ps == [] then Init else Step(env, Run(env, ps[..|ps| - 1]), ps[|ps| - 1])
  }
}
