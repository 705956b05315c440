/** Captured packets as Ethernet frames: how they are built, and how the analyzer reads them. */
module Frame {
  import opened Wrappers
  import opened Bytes
  import opened ShredWire

  const MIN_SHRED_LEN: nat := 77
  const MIN_FRAME_LEN: nat := 119
  const NS_PER_S: nat := 1_000_000_000

  type Ipv4 = s: seq<byte> | |s| == 4
    witness [0, 0, 0, 0]

  function EthernetHeader(dstIp: Ipv4): (r: seq<byte>)
    ensures |r| == 14
  {
    [0x01, 0x00, 0x5e, dstIp[1] % 128, dstIp[2], dstIp[3], 0, 0, 0, 0, 0, 0, 0x08, 0x00]
  }

  function IpHeader(dstIp: Ipv4, payloadLen: nat): (r: seq<byte>)
    ensures |r| == 20
  {
    [0x45, 0x00] + ToBE16(20 + 8 + payloadLen) + [0, 0, 0, 0, 64, 0x11, 0, 0, 0, 0, 0, 0] + dstIp
  }

  function UdpHeader(dstPort: nat, payloadLen: nat): (r: seq<byte>)
    ensures |r| == 8
  {
    [0, 0] + ToBE16(dstPort) + ToBE16(8 + payloadLen) + [0, 0]
  }

  function BuildFrame(dstIp: Ipv4, dstPort: nat, payload: seq<byte>): (r: seq<byte>) {
    EthernetHeader(dstIp) + IpHeader(dstIp, |payload|) + UdpHeader(dstPort, |payload|) + payload
  }

  /** A packet of a capture file with nanosecond timestamps. */
  datatype PcapPacket = PcapPacket(secs: nat, nanos: nat, frame: seq<byte>)

  /** `write_shred`: the packet written for a shred received at `ns`. */
  function PacketOf(ns: nat, dstIp: Ipv4, dstPort: nat, payload: seq<byte>): (p: PcapPacket)
    ensures p.nanos < NS_PER_S
  {
    PcapPacket(ns / NS_PER_S, ns % NS_PER_S, BuildFrame(dstIp, dstPort, payload))
  }

  /** `as_nanos` of the packet's timestamp. */
  function AsNanos(p: PcapPacket): (ns: nat) {
    p.secs * NS_PER_S + p.nanos
  }

  /** The analyzer's own test for data shreds. */
  predicate IsDataShred(b: seq<byte>) {
    |b| >= MIN_SHRED_LEN
    && !(b[VARIANT_OFF] == LEGACY_CODE_VARIANT || HighNibble(b[VARIANT_OFF]) in {0x40, 0x50, 0x60, 0x70})
  }

  function ParseSlotIndex(b: seq<byte>): (r: Option<(u64, u32)>) {
    if |b| < MIN_SHRED_LEN then None else Some((LE64(b, SLOT_OFF), LE32(b, INDEX_OFF)))
  }

  /** What the analyzer takes from a frame: the group address and the UDP payload. */
  function ReadFrame(data: seq<byte>): (r: Option<(Ipv4, seq<byte>)>) {
    if |data| < MIN_FRAME_LEN || data[12] != 0x08 || data[13] != 0x00 || data[23] != 0x11 then None
    else Some((data[30..34], data[42..]))
  }

  lemma Layout(dstIp: Ipv4, dstPort: nat, payload: seq<byte>)
    ensures var f := BuildFrame(dstIp, dstPort, payload);
            && |f| == 42 + |payload| && f[42..] == payload
            && f[..14] == EthernetHeader(dstIp) && f[14..34] == IpHeader(dstIp, |payload|)
            && f[34..42] == UdpHeader(dstPort, |payload|)
  {
    hide EthernetHeader, IpHeader, UdpHeader;
  }

  lemma Inside(f: seq<byte>, lo: nat, hi: nat, i: nat, j: nat)
    requires lo + i <= lo + j <= hi <= |f|
    ensures f[lo + i..lo + j] == f[lo..hi][i..j]
  {
    var part := f[lo..hi];
    forall k | 0 <= k < j - i ensures f[lo + i..lo + j][k] == part[i..j][k] {
      assert part[i + k] == f[lo + (i + k)];
    }
  }

  lemma FrameBytes(dstIp: Ipv4, dstPort: nat, payload: seq<byte>)
    ensures var f := BuildFrame(dstIp, dstPort, payload);
            && |f| == 42 + |payload| && f[42..] == payload && f[30..34] == dstIp
            && f[..6] == [0x01, 0x00, 0x5e, dstIp[1] % 128, dstIp[2], dstIp[3]] && f[6..12] == [0, 0, 0, 0, 0, 0]
            && f[12..16] == [0x08, 0x00, 0x45, 0x00] && f[18..30] == [0, 0, 0, 0, 64, 0x11, 0, 0, 0, 0, 0, 0]
            && f[34..36] == [0, 0] && f[40..42] == [0, 0]
            && BE16(f, 16) == (28 + |payload|) % U16_SIZE && BE16(f, 36) == dstPort % U16_SIZE
            && BE16(f, 38) == (8 + |payload|) % U16_SIZE
  {
    hide BuildFrame;
    var f := BuildFrame(dstIp, dstPort, payload);
    Layout(dstIp, dstPort, payload);
    Inside(f, 0, 14, 0, 6);
    Inside(f, 0, 14, 6, 12);
    Inside(f, 0, 14, 12, 14);
    Inside(f, 14, 34, 0, 2);
    Inside(f, 14, 34, 4, 16);
    Inside(f, 14, 34, 16, 20);
    Inside(f, 34, 42, 0, 2);
    Inside(f, 34, 42, 6, 8);
    var ip, udp := f[14..34], f[34..42];
    assert f[12..16] == f[12..14] + f[14..16];
    assert f[16] == ip[2] && f[17] == ip[3] && f[36] == udp[2] && f[37] == udp[3] && f[38] == udp[4] && f[39] == udp[5];
  }

  /** Whatever the receiver lets through is read back from its packet: the same group address, the same
      payload, with it the same slot and index, and the same nanosecond; and the analyzer takes it for
      a data shred exactly when the receiver did. */
  lemma CaptureRoundTrip(ns: nat, dstIp: Ipv4, dstPort: nat, payload: seq<byte>)
    requires Gated(payload)
    ensures var p := PacketOf(ns, dstIp, dstPort, payload);
            ReadFrame(p.frame) == Some((dstIp, payload)) && AsNanos(p) == ns
    ensures ParseSlotIndex(payload) == Some((ParsePosition(payload).value.slot, ParsePosition(payload).value.index))
    ensures IsDataShred(payload) <==> IsDataVariant(payload[VARIANT_OFF])
  {
    FrameBytes(dstIp, dstPort, payload);
    var f := BuildFrame(dstIp, dstPort, payload);
    assert f[12] == f[12..16][0] && f[13] == f[12..16][1] && f[23] == f[18..30][5];
  }

  /** The analyzer reads a frame exactly if it is long enough for a shred, of the IPv4 ethertype and of the UDP
      protocol, takes its group from the destination address and its payload behind the three headers; and it
      takes whatever is no coding variant, legacy or not, for a data shred. */
  lemma ReadExactly(data: seq<byte>, group: Ipv4, b: seq<byte>)
    ensures ReadFrame(data) == Some((group, b)) <==>
              |data| >= 119 && data[12..14] == [0x08, 0x00] && data[23] == 17 && group == data[30..34] && b == data[42..]
    ensures IsDataShred(b) <==> |b| >= 77 && !(0x40 <= b[64] < 0x80)
    ensures ParseSlotIndex(b).Some? <==> |b| >= 77
  {
    if |data| >= 119 {
      assert data[12..14] == [data[12], data[13]];
    }
  }

  /** The IPv4 total length (section 3.1 of RFC 791) and the UDP length (RFC 768) end at the frame's
      last byte exactly when the payload fits one datagram. */
  lemma LengthFieldsExactly(dstIp: Ipv4, dstPort: nat, payload: seq<byte>)
    ensures var f := BuildFrame(dstIp, dstPort, payload);
            (14 + BE16(f, 16) == |f| && 34 + BE16(f, 38) == |f|) <==> |payload| <= 65507
  {
    FrameBytes(dstIp, dstPort, payload);
  }

  lemma Remainder(q: nat, r: nat)
    requires r < 0x80_0000
    ensures (0x80_0000 * q + r) % 0x80_0000 == r
  {
  }

  lemma Low23Bits(a: nat, b: nat, low: nat)
    requires b < 0x100 && low < 0x1_0000
    ensures (0x1_0000 * (0x100 * a + b) + low) % 0x80_0000 == 0x1_0000 * (b % 128) + low
  {
    var high := b / 128;
    assert b == 128 * high + b % 128;
    Remainder(2 * a + high, 0x1_0000 * (b % 128) + low);
  }

  /** The group MAC carries the low 23 bits of the group address after 01-00-5E (section 6.4 of
      RFC 1112). */
  lemma GroupMac(dstIp: Ipv4, dstPort: nat, payload: seq<byte>)
    ensures var f := BuildFrame(dstIp, dstPort, payload);
            && f[0] == 0x01 && f[1] == 0x00 && f[2] == 0x5e
            && 0x1_0000 * f[3] as nat + BE16(f, 4) == BE32(dstIp, 0) % 0x80_0000
  {
    FrameBytes(dstIp, dstPort, payload);
    var f := BuildFrame(dstIp, dstPort, payload);
    assert forall i | 0 <= i < 6 :: f[i] == f[..6][i];
    assert BE16(f, 4) == BE16(dstIp, 2);
    Low23Bits(dstIp[0] as nat, dstIp[1] as nat, BE16(dstIp, 2));
  }
}
