/** The pcap capture writer and its rotation state. */
module Captures {
  import opened Bytes
  import opened Frame
  import opened CaptureModel

  class PcapCaptureWriter {
    const cfg: Config
    /** The capture directory. */
    var files: map<Path, seq<Record>>
    var currentBytes: nat
    var nextGen: nat
    var ring: seq<nat>

    ghost function Model(): (r: Ring)
      reads this
    {
      Ring(files, ring, nextGen, currentBytes)
    }

    constructor (cfg: Config)
      ensures this.cfg == cfg && Model() == Fresh
    {
      this.cfg, files, currentBytes, nextGen, ring := cfg, map[Active := []], 0, 1, [];
    }

    method ShouldRotate(incoming: nat) returns (b: bool)
      ensures b == CaptureModel.ShouldRotate(cfg, Model(), incoming)
    {
      b := currentBytes + incoming > cfg.maxBytes;
    }

    method Rotate()
      modifies this
      ensures Model() == CaptureModel.Rotate(cfg, old(Model()))
    {
      var archive := Archive(nextGen);
      if Active in files {
        var content := files[Active];
        files := files - {Active};
        files := files[archive := content];
      }
      ring := ring + [nextGen];
      nextGen := nextGen + 1;
      currentBytes := 0;
      if |ring| > cfg.ringFiles {
        var oldest := ring[0];
        ring := ring[1..];
        files := files - {Archive(oldest)};
      }
    }

    method Account(n: nat)
      modifies this`currentBytes
      ensures currentBytes == old(currentBytes) + n
    {
      currentBytes := currentBytes + n;
    }

    /** Frame a shred and append it to the active file, rotating first when it would overflow. */
    method WriteShred(ns: nat, dstIp: Ipv4, dstPort: nat, payload: seq<byte>)
      modifies this
      ensures Model() == Write(cfg, old(Model()), PacketOf(ns, dstIp, dstPort, payload))
    {
      var frame := BuildFrame(dstIp, dstPort, payload);
      var full := ShouldRotate(|frame|);
      if full {
        Rotate();
        files := files[Active := []];
      }
      var content := if Active in files then files[Active] else [];
      files := files[Active := content + [PcapPacket(ns / NS_PER_S, ns % NS_PER_S, frame)]];
      Account(|frame|);
    }
  }
}
