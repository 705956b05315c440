/** The mutable state of one FEC set. */
module FecSets {
  import opened ShredWire
  import opened SlotModel
  import opened FecModel

  lemma MissingNext(shards: map<nat, Shard>, i: nat)
    ensures Missing(shards, 0) == []
    ensures Missing(shards, i + 1) == if i in shards then Missing(shards, i) else Missing(shards, i) + [i]
  {
  }

  lemma RowsNext(all: seq<Shard>, positions: seq<nat>, k: nat)
    requires k < |positions|
    ensures RowsAt(all, positions[..0]) == []
    ensures var rows, i := RowsAt(all, positions[..k]), positions[k];
            RowsAt(all, positions[..k + 1]) == if i < |all| then rows + [Row(i, all[i])] else rows
  {
    assert positions[..k + 1][..k] == positions[..k];
  }

  class FecSet {
    const numData: nat
    const numCoding: nat
    var shards: map<nat, Shard>
    var recovered: bool

    /** The set as a value. */
    function Model(): (r: Fec)
      reads this
    {
      Fec(numData, numCoding, shards, recovered)
    }

    /** The set taken out of the map of FEC sets to be worked on. */
    constructor (f: Fec)
      ensures Model() == f
    {
      numData, numCoding, shards, recovered := f.numData, f.numCoding, f.shards, f.recovered;
    }

    method ReadyToRecover() returns (r: bool)
      ensures r == Ready(Model())
    {
      r := !recovered && |shards| >= numData;
    }

    /** Keep the row of a position not held yet. */
    method Add(pos: nat, shard: Shard)
      modifies this`shards
      ensures Model() == Hold(old(Model()), pos, shard)
    {
      if pos !in shards {
        shards := shards[pos := shard];
      }
    }

    method Reconstruct(code: Code) returns (rows: seq<Row>)
      modifies this`recovered
      ensures recovered && rows == Reconstructed(code, old(Model()))
    {
      hide Missing, RowsAt;
      recovered := true;
      var total := numData + numCoding;
      if numData == 0 || numCoding == 0 {
        return [];
      }
      var present: map<nat, Shard> := map i | i in shards && i < total :: shards[i];
      assert present == InRange(shards, total);
      var missing := [];
      MissingNext(shards, 0);
      for i := 0 to numData
        invariant recovered
        invariant missing == Missing(shards, i)
      {
        MissingNext(shards, i);
        if i !in shards {
          missing := missing + [i];
        }
      }
      if missing == [] || !code.supports(numData, numCoding) {
        return [];
      }
      var solved := code.solve(numData, numCoding, present);
      if solved.None? {
        return [];
      }
      rows := [];
      RowsNext(solved.value, missing, 0);
      for k := 0 to |missing|
        invariant recovered
        invariant rows == RowsAt(solved.value, missing[..k])
      {
        RowsNext(solved.value, missing, k);
        if missing[k] < |solved.value| {
          rows := rows + [Row(missing[k], solved.value[missing[k]])];
        }
      }
      assert missing[..|missing|] == missing;
    }
  }
}
