/** The capture ring: an active file and the last archived ones. Its contents are compared with a
    plain reference, the whole record stream cut into generations. */
module CaptureModel {
  import opened Frame

  type Record = PcapPacket

  datatype Path = Active | Archive(gen: nat)

  datatype Config = Config(maxBytes: nat, ringFiles: nat)

  /** The capture directory and the rotation state. */
  datatype Ring = Ring(files: map<Path, seq<Record>>, ring: seq<nat>, nextGen: nat, currentBytes: nat)

  const Fresh: Ring := Ring(map[Active := []], [], 1, 0)

  /** `ring_files_for`: as many files as fit the size given, but at least two. */
  function RingFilesFor(maxMb: nat, rotateMb: nat): (r: nat)
    requires rotateMb > 0
    ensures maxMb >= 2 * rotateMb ==> r >= 2 && r * rotateMb <= maxMb < r * rotateMb + rotateMb
    ensures maxMb < 2 * rotateMb ==> r == 2
  {
    FilesThatFit(maxMb, rotateMb);
    if maxMb / rotateMb > 2 then maxMb / rotateMb else 2
  }

  lemma FilesThatFit(maxMb: nat, rotateMb: nat)
    requires rotateMb > 0
    ensures var q := maxMb / rotateMb;
            q * rotateMb <= maxMb < q * rotateMb + rotateMb && (maxMb >= 2 * rotateMb <==> q >= 2)
  {
    var q := maxMb / rotateMb;
    assert maxMb == q * rotateMb + maxMb % rotateMb;
    if q >= 2 {
      assert q * rotateMb >= 2 * rotateMb;
    } else {
      assert q * rotateMb <= 1 * rotateMb;
    }
  }

  function ShouldRotate(cfg: Config, r: Ring, incoming: nat): (b: bool) {
    r.currentBytes + incoming > cfg.maxBytes
  }

  /** Rename the active file to the next archive, and delete the oldest archive beyond the ring. */
  function Rotate(cfg: Config, r: Ring): (s: Ring) {
    var moved := if Active in r.files then (r.files - {Active})[Archive(r.nextGen) := r.files[Active]] else r.files;
    var ring := r.ring + [r.nextGen];
    if |ring| > cfg.ringFiles
    then Ring(moved - {Archive(ring[0])}, ring[1..], r.nextGen + 1, 0)
    else Ring(moved, ring, r.nextGen + 1, 0)
  }

  function OpenActive(r: Ring): (s: Ring) {
    r.(files := r.files[Active := []])
  }

  function Append(r: Ring, rec: Record): (s: Ring) {
    var content := if Active in r.files then r.files[Active] else [];
    r.(files := r.files[Active := content + [rec]], currentBytes := r.currentBytes + |rec.frame|)
  }

  function Write(cfg: Config, r: Ring, rec: Record): (s: Ring) {
    Append(if ShouldRotate(cfg, r, |rec.frame|) then OpenActive(Rotate(cfg, r)) else r, rec)
  }

  function Run(cfg: Config, stream: seq<Record>): (r: Ring) {
    if stream == [] then Fresh else Write(cfg, Run(cfg, stream[..|stream| - 1]), stream[|stream| - 1])
  }

  // ---- The reference: the stream cut into generations -----------------------------------

  function TotalBytes(recs: seq<Record>): (n: nat) {
    if recs == [] then 0 else TotalBytes(recs[..|recs| - 1]) + |recs[|recs| - 1].frame|
  }

  function Flat(gens: seq<seq<Record>>): (s: seq<Record>) {
    if gens == [] then [] else Flat(gens[..|gens| - 1]) + gens[|gens| - 1]
  }

  /** All closed generations, and the records since. */
  datatype Cut = Cut(closed: seq<seq<Record>>, open: seq<Record>)

  /** Closing the open generation. */
  function Close(c: Cut): (d: Cut) {
    Cut(c.closed + [c.open], [])
  }

  /** A generation is closed when the next record would take it beyond `maxBytes`. */
  function CutNext(maxBytes: nat, c: Cut, rec: Record): (d: Cut)
    ensures Flat(d.closed) + d.open == Flat(c.closed) + c.open + [rec]
  {
    if TotalBytes(c.open) + |rec.frame| > maxBytes then
      assert Close(c).closed[..|c.closed|] == c.closed;
      Close(c).(open := [rec])
    else
      c.(open := c.open + [rec])
  }

  function CutUp(maxBytes: nat, stream: seq<Record>): (c: Cut)
    ensures Flat(c.closed) + c.open == stream
  {
    if stream == [] then Cut([], []) else
    hide CutNext, Flat;
    assert stream == stream[..|stream| - 1] + [stream[|stream| - 1]];
    CutNext(maxBytes, CutUp(maxBytes, stream[..|stream| - 1]), stream[|stream| - 1])
  }

  /** The oldest generation still archived. */
  function Oldest(r: Ring): (g: int) {
    r.nextGen - |r.ring|
  }

  /** The ring holds the open generation and the last `ringFiles` closed ones, numbered from 1. */
  ghost predicate Mirrors(cfg: Config, r: Ring, c: Cut) {
    && r.nextGen == |c.closed| + 1
    && |r.ring| == (if |c.closed| < cfg.ringFiles then |c.closed| else cfg.ringFiles)
    && (forall i | 0 <= i < |r.ring| :: r.ring[i] == Oldest(r) + i)
    && (forall p :: p in r.files <==> p == Active || Oldest(r) <= p.gen < r.nextGen)
    && r.files[Active] == c.open && r.currentBytes == TotalBytes(c.open)
    && (forall g: nat | Oldest(r) <= g < r.nextGen :: r.files[Archive(g)] == c.closed[g - 1])
  }

  lemma RotateMirrors(cfg: Config, r: Ring, c: Cut)
    requires Mirrors(cfg, r, c)
    ensures Mirrors(cfg, OpenActive(Rotate(cfg, r)), Close(c))
  {
    RotatedRing(cfg, r, c);
    RotatedFiles(cfg, r, c);
  }

  lemma RotatedRing(cfg: Config, r: Ring, c: Cut)
    requires Mirrors(cfg, r, c)
    ensures var s := OpenActive(Rotate(cfg, r));
            && s.nextGen == |c.closed| + 2
            && |s.ring| == (if |c.closed| + 1 < cfg.ringFiles then |c.closed| + 1 else cfg.ringFiles)
            && (forall i | 0 <= i < |s.ring| :: s.ring[i] == Oldest(s) + i)
  {
    var ring := r.ring + [r.nextGen];
    assert forall i | 0 <= i < |ring| :: ring[i] == Oldest(r) + i;
  }

  lemma RotatedFiles(cfg: Config, r: Ring, c: Cut)
    requires Mirrors(cfg, r, c)
    ensures var s, d := OpenActive(Rotate(cfg, r)), Close(c);
            && (forall p :: p in s.files <==> p == Active || Oldest(s) <= p.gen < s.nextGen)
            && s.files[Active] == [] && (forall g: nat | Oldest(s) <= g < s.nextGen :: s.files[Archive(g)] == d.closed[g - 1])
  {
    var ring, d := r.ring + [r.nextGen], Close(c);
    assert ring[0] == Oldest(r);
    assert forall g | 0 <= g < |c.closed| :: d.closed[g] == c.closed[g];
    assert d.closed[r.nextGen - 1] == c.open;
  }

  lemma AppendMirrors(cfg: Config, r: Ring, c: Cut, rec: Record)
    requires Mirrors(cfg, r, c)
    ensures Mirrors(cfg, Append(r, rec), c.(open := c.open + [rec]))
  {
    assert (c.open + [rec])[..|c.open|] == c.open;
  }

  lemma WriteMirrors(cfg: Config, r: Ring, c: Cut, rec: Record)
    requires Mirrors(cfg, r, c)
    ensures Mirrors(cfg, Write(cfg, r, rec), CutNext(cfg.maxBytes, c, rec))
  {
    if ShouldRotate(cfg, r, |rec.frame|) {
      RotateMirrors(cfg, r, c);
      AppendMirrors(cfg, OpenActive(Rotate(cfg, r)), Close(c), rec);
    } else {
      AppendMirrors(cfg, r, c, rec);
    }
  }

  /** After any stream the ring is what the reference says. */
  lemma {:induction false} RingMirrorsStream(cfg: Config, stream: seq<Record>)
    ensures Mirrors(cfg, Run(cfg, stream), CutUp(cfg.maxBytes, stream))
  {
    if stream != [] {
      hide Mirrors;
      RingMirrorsStream(cfg, stream[..|stream| - 1]);
      WriteMirrors(cfg, Run(cfg, stream[..|stream| - 1]), CutUp(cfg.maxBytes, stream[..|stream| - 1]), stream[|stream| - 1]);
    }
  }

  // ---- What is kept ----------------------------------------------------------------------

  /** The records of the `n` oldest archives. */
  function Kept(r: Ring, n: nat): (s: seq<Record>)
    requires n <= |r.ring| && forall i | 0 <= i < n :: Archive(r.ring[i]) in r.files
  {
    if n == 0 then [] else Kept(r, n - 1) + r.files[Archive(r.ring[n - 1])]
  }

  /** Every file of the ring is there. */
  predicate Readable(r: Ring) {
    Active in r.files && forall i | 0 <= i < |r.ring| :: Archive(r.ring[i]) in r.files
  }

  function Contents(r: Ring): (s: seq<Record>)
    requires Readable(r)
  {
    Kept(r, |r.ring|) + r.files[Active]
  }

  lemma {:induction false} FlatAppend(a: seq<seq<Record>>, b: seq<seq<Record>>)
    ensures Flat(a + b) == Flat(a) + Flat(b)
  {
    if b == [] {
      assert a + b == a;
    } else {
      var front, last := b[..|b| - 1], b[|b| - 1];
      assert (a + b)[..|a + b| - 1] == a + front && (a + b)[|a + b| - 1] == last;
      FlatAppend(a, front);
      assert Flat(a) + Flat(front) + last == Flat(a) + (Flat(front) + last);
    }
  }

  lemma ArchiveHolds(cfg: Config, r: Ring, c: Cut, i: nat)
    requires Mirrors(cfg, r, c) && i < |r.ring|
    ensures 1 <= Oldest(r) && Oldest(r) - 1 + |r.ring| == |c.closed|
    ensures Archive(r.ring[i]) in r.files && r.files[Archive(r.ring[i])] == c.closed[Oldest(r) - 1 + i]
  {
    assert r.ring[i] == Oldest(r) + i;
  }

  lemma FlatOneMore(gens: seq<seq<Record>>, lo: nat, n: nat)
    requires lo + n < |gens|
    ensures Flat(gens[lo..lo + n + 1]) == Flat(gens[lo..lo + n]) + gens[lo + n]
  {
    assert gens[lo..lo + n + 1][..n] == gens[lo..lo + n];
  }

  lemma {:induction false} KeptIsLastGenerations(r: Ring, gens: seq<seq<Record>>, lo: nat, n: nat)
    requires n <= |r.ring| && lo + |r.ring| <= |gens|
    requires forall i | 0 <= i < |r.ring| :: Archive(r.ring[i]) in r.files && r.files[Archive(r.ring[i])] == gens[lo + i]
    ensures Kept(r, n) == Flat(gens[lo..lo + n])
  {
    if n == 0 {
      assert gens[lo..lo] == [];
    } else {
      KeptIsLastGenerations(r, gens, lo, n - 1);
      hide Flat;
      FlatOneMore(gens, lo, n - 1);
    }
  }

  /** The closed generations no longer in the ring, and those still there. */
  function LostOf(r: Ring, c: Cut): (g: seq<seq<Record>>)
    requires |r.ring| <= |c.closed|
  {
    c.closed[..|c.closed| - |r.ring|]
  }

  function ArchivedOf(r: Ring, c: Cut): (g: seq<seq<Record>>)
    requires |r.ring| <= |c.closed|
  {
    c.closed[|c.closed| - |r.ring|..]
  }

  lemma MirrorFacts(cfg: Config, r: Ring, c: Cut)
    requires Mirrors(cfg, r, c)
    ensures |r.ring| <= |c.closed| && |r.ring| <= cfg.ringFiles && Oldest(r) - 1 == |c.closed| - |r.ring|
    ensures Active in r.files && r.files[Active] == c.open && r.currentBytes == TotalBytes(c.open)
    ensures forall i | 0 <= i < |r.ring| :: Archive(r.ring[i]) in r.files
  {
  }

  lemma KeptIsArchived(cfg: Config, r: Ring, c: Cut)
    requires Mirrors(cfg, r, c) && |r.ring| <= |c.closed|
    requires forall i | 0 <= i < |r.ring| :: Archive(r.ring[i]) in r.files
    ensures Kept(r, |r.ring|) == Flat(ArchivedOf(r, c))
  {
    MirrorFacts(cfg, r, c);
    var lo := |c.closed| - |r.ring|;
    forall i | 0 <= i < |r.ring| ensures r.files[Archive(r.ring[i])] == c.closed[lo + i] {
      ArchiveHolds(cfg, r, c, i);
    }
    hide Mirrors, Flat, Kept;
    KeptIsLastGenerations(r, c.closed, lo, |r.ring|);
    assert lo + |r.ring| == |c.closed| && c.closed[lo..|c.closed|] == c.closed[lo..];
  }

  lemma CutAtOldest(maxBytes: nat, stream: seq<Record>, r: Ring)
    requires |r.ring| <= |CutUp(maxBytes, stream).closed|
    ensures var c := CutUp(maxBytes, stream); stream == Flat(LostOf(r, c)) + (Flat(ArchivedOf(r, c)) + c.open)
  {
    hide CutNext, Flat;
    var c := CutUp(maxBytes, stream);
    assert c.closed == LostOf(r, c) + ArchivedOf(r, c);
    FlatAppend(LostOf(r, c), ArchivedOf(r, c));
    assert stream == (Flat(LostOf(r, c)) + Flat(ArchivedOf(r, c))) + c.open;
  }

  /** The directory always holds a suffix of the record stream, and what is lost is whole generations,
      the oldest ones. */
  lemma RingKeepsSuffix(cfg: Config, stream: seq<Record>)
    ensures var r, c := Run(cfg, stream), CutUp(cfg.maxBytes, stream);
            |r.ring| <= |c.closed| && Readable(r) && stream == Flat(LostOf(r, c)) + Contents(r)
  {
    hide Mirrors, CutUp, Run, Flat, Kept;
    var r, c := Run(cfg, stream), CutUp(cfg.maxBytes, stream);
    RingMirrorsStream(cfg, stream);
    MirrorFacts(cfg, r, c);
    KeptIsArchived(cfg, r, c);
    CutAtOldest(cfg.maxBytes, stream, r);
  }

  // ---- Bounds ----------------------------------------------------------------------------

  ghost predicate AllWithin(stream: seq<Record>, largest: nat) {
    forall k | 0 <= k < |stream| :: |stream[k].frame| <= largest
  }

  ghost predicate SizedWithin(maxBytes: nat, c: Cut, largest: nat) {
    && TotalBytes(c.open) <= maxBytes
    && forall g | 0 <= g < |c.closed| :: maxBytes - largest < TotalBytes(c.closed[g]) <= maxBytes
  }

  lemma NextSized(maxBytes: nat, c: Cut, rec: Record, largest: nat)
    requires SizedWithin(maxBytes, c, largest) && |rec.frame| <= largest <= maxBytes
    ensures SizedWithin(maxBytes, CutNext(maxBytes, c, rec), largest)
  {
    var alone: seq<Record> := [rec];
    assert alone[..0] == [] && (c.open + [rec])[..|c.open|] == c.open;
  }

  lemma {:induction false} GenerationSizes(maxBytes: nat, stream: seq<Record>, largest: nat)
    requires AllWithin(stream, largest) && largest <= maxBytes
    ensures SizedWithin(maxBytes, CutUp(maxBytes, stream), largest)
  {
    if stream != [] {
      GenerationSizes(maxBytes, stream[..|stream| - 1], largest);
      NextSized(maxBytes, CutUp(maxBytes, stream[..|stream| - 1]), stream[|stream| - 1], largest);
    }
  }

  /** The bytes accounted to the files of generations `closed`. */
  function BytesOf(closed: seq<seq<Record>>): (n: nat) {
    if closed == [] then 0 else BytesOf(closed[..|closed| - 1]) + TotalBytes(closed[|closed| - 1])
  }

  lemma OneMoreTimes(n: nat, v: int)
    ensures (n + 1) * v == n * v + v
  {
  }

  lemma {:induction false} BytesBounds(closed: seq<seq<Record>>, lo: int, hi: nat)
    requires forall g | 0 <= g < |closed| :: lo < TotalBytes(closed[g]) <= hi
    ensures BytesOf(closed) <= |closed| * hi
    ensures closed != [] ==> |closed| * lo < BytesOf(closed)
  {
    hide TotalBytes;
    if closed != [] {
      var n := |closed| - 1;
      BytesBounds(closed[..n], lo, hi);
      OneMoreTimes(n, lo);
      OneMoreTimes(n, hi);
      assert lo < TotalBytes(closed[n]) <= hi;
    }
  }

  /** If no record exceeds `largest` <= `maxBytes`, the directory's accounted bytes are at most
      (ringFiles + 1) * maxBytes, and the archives of a full ring keep more than
      ringFiles * (maxBytes - largest). */
  lemma RingBounds(cfg: Config, stream: seq<Record>, largest: nat)
    requires AllWithin(stream, largest) && largest <= cfg.maxBytes && cfg.ringFiles > 0
    ensures var r, c := Run(cfg, stream), CutUp(cfg.maxBytes, stream);
            && |r.ring| <= |c.closed|
            && BytesOf(ArchivedOf(r, c)) + r.currentBytes <= (cfg.ringFiles + 1) * cfg.maxBytes
            && (|r.ring| == cfg.ringFiles ==> BytesOf(ArchivedOf(r, c)) > cfg.ringFiles * (cfg.maxBytes - largest))
  {
    hide Mirrors, CutUp, Run, BytesOf;
    var r, c := Run(cfg, stream), CutUp(cfg.maxBytes, stream);
    RingMirrorsStream(cfg, stream);
    MirrorFacts(cfg, r, c);
    GenerationSizes(cfg.maxBytes, stream, largest);
    assert |r.ring| <= cfg.ringFiles && r.currentBytes <= cfg.maxBytes;
    BytesBounds(ArchivedOf(r, c), cfg.maxBytes - largest, cfg.maxBytes);
    Distributes(|r.ring|, cfg.ringFiles, cfg.maxBytes);
  }

  lemma Distributes(n: nat, m: nat, b: nat)
    requires n <= m
    ensures n * b + b <= (m + 1) * b
  {
    assert (m + 1) * b == m * b + b && n * b <= m * b;
  }
}
