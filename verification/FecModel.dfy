/** One FEC set, and the erasure code it relies on. The code is a parameter of which only the
    law below is used: enough rows of a codeword determine all of them. */
module FecModel {
  import opened Wrappers
  import opened Bytes
  import opened ShredWire
  import opened SlotModel

  /** `supports(n, m)`: an instance with n data and m coding rows exists.
      `solve(n, m, present)`: all n + m rows from those present, None when the library fails. */
  datatype Code = ErasureCode(
    supports: (nat, nat) -> bool,
    isCodeword: (nat, nat, seq<Shard>) -> bool,
    solve: (nat, nat, map<nat, Shard>) -> Option<seq<Shard>>)

  /** The rows present are rows of `word`. */
  ghost predicate Agrees(present: map<nat, Shard>, word: seq<Shard>) {
    forall i | i in present :: i < |word| && present[i] == word[i]
  }

  /** Any n rows of a codeword of n data rows determine the codeword. */
  ghost predicate Lawful(code: Code) {
    forall n: nat, m: nat, word: seq<Shard>, present: map<nat, Shard>
      {:trigger code.isCodeword(n, m, word), code.solve(n, m, present)} ::
      code.supports(n, m) && |word| == n + m && code.isCodeword(n, m, word)
      && Agrees(present, word) && |present| >= n
      ==> code.solve(n, m, present) == Some(word)
  }

  datatype Fec = Fec(numData: nat, numCoding: nat, shards: map<nat, Shard>, recovered: bool)

  function NewFec(numData: nat, numCoding: nat): (r: Fec) {
    Fec(numData, numCoding, map[], false)
  }

  /** `entry(pos).or_insert`: a position already held keeps its row. */
  function Hold(f: Fec, pos: nat, shard: Shard): (r: Fec) {
    if pos in f.shards then f else f.(shards := f.shards[pos := shard])
  }

  predicate Ready(f: Fec) {
    !f.recovered && |f.shards| >= f.numData
  }

  /** The data positions below `n` that are not held, in increasing order. */
  function Missing(shards: map<nat, Shard>, n: nat): (r: seq<nat>)
    ensures forall i: nat :: i in r <==> i < n && i !in shards
    ensures forall j, k | 0 <= j < k < |r| :: r[j] < r[k]
  {
    if n == 0 then [] else
    var before := Missing(shards, n - 1);
    assert forall j | 0 <= j < |before| :: before[j] in before;
    if n - 1 in shards then before else before + [n - 1]
  }

  /** The rows of `all` at the given positions; a position outside is skipped. */
  function RowsAt(all: seq<Shard>, positions: seq<nat>): (r: seq<Row>) {
    if positions == [] then [] else
    var k := positions[|positions| - 1];
    RowsAt(all, positions[..|positions| - 1]) + if k < |all| then [Row(k, all[k])] else []
  }

  function InRange(shards: map<nat, Shard>, total: nat): (r: map<nat, Shard>) {
    map i | i in shards && i < total :: shards[i]
  }

  function Reconstructed(code: Code, f: Fec): (r: seq<Row>) {
    var missing := Missing(f.shards, f.numData);
    if f.numData == 0 || f.numCoding == 0 || missing == [] || !code.supports(f.numData, f.numCoding) then [] else
    var solved := code.solve(f.numData, f.numCoding, InRange(f.shards, f.numData + f.numCoding));
    if solved.None? then [] else RowsAt(solved.value, missing)
  }

  lemma LastRow(all: seq<Shard>, positions: seq<nat>)
    requires positions != [] && positions[|positions| - 1] < |all|
    ensures var k := positions[|positions| - 1];
            RowsAt(all, positions) == RowsAt(all, positions[..|positions| - 1]) + [Row(k, all[k])]
  {
  }

  lemma {:induction false} RowsAtInside(all: seq<Shard>, positions: seq<nat>)
    requires forall k | 0 <= k < |positions| :: positions[k] < |all|
    ensures |RowsAt(all, positions)| == |positions|
    ensures forall k | 0 <= k < |positions| :: RowsAt(all, positions)[k] == Row(positions[k], all[positions[k]])
  {
    if positions == [] {
      assert RowsAt(all, []) == [];
    } else {
      var n := |positions| - 1;
      var front := positions[..n];
      RowsAtInside(all, front);
      LastRow(all, positions);
      assert forall k | 0 <= k < n :: front[k] == positions[k];
    }
  }

  /** Exactly the data rows of `word` that `f` does not hold, in increasing order. */
  ghost predicate ExactlyMissing(f: Fec, word: seq<Shard>, rows: seq<Row>) {
    && (forall k | 0 <= k < |rows| ::
          rows[k].position < f.numData && rows[k].position < |word| && rows[k].position !in f.shards
          && rows[k].shard == word[rows[k].position])
    && (forall j, k | 0 <= j < k < |rows| :: rows[j].position < rows[k].position)
    && (forall i: nat | i < f.numData && i !in f.shards :: exists k :: 0 <= k < |rows| && rows[k].position == i)
  }

  lemma RowsAreExact(f: Fec, word: seq<Shard>, missing: seq<nat>, rows: seq<Row>)
    requires |missing| == |rows| && missing == Missing(f.shards, f.numData)
    requires forall k | 0 <= k < |rows| :: missing[k] < |word| && rows[k] == Row(missing[k], word[missing[k]])
    ensures ExactlyMissing(f, word, rows)
  {
    forall k | 0 <= k < |rows| ensures rows[k].position < f.numData && rows[k].position !in f.shards {
      assert missing[k] in missing;
    }
    forall i: nat | i < f.numData && i !in f.shards
      ensures exists k :: 0 <= k < |rows| && rows[k].position == i
    {
      assert i in missing;
      var k :| 0 <= k < |missing| && missing[k] == i;
      assert rows[k].position == i;
    }
  }

  lemma MissingRowsExact(f: Fec, word: seq<Shard>)
    requires f.numData <= |word|
    ensures ExactlyMissing(f, word, RowsAt(word, Missing(f.shards, f.numData)))
  {
    var missing := Missing(f.shards, f.numData);
    forall k | 0 <= k < |missing| ensures missing[k] < |word| {
      assert missing[k] in missing;
    }
    RowsAtInside(word, missing);
    RowsAreExact(f, word, missing, RowsAt(word, missing));
  }

  /** A set whose rows at positions of a codeword agree with it; rows behind its end do not matter. */
  ghost predicate Consistent(code: Code, f: Fec, word: seq<Shard>) {
    && code.supports(f.numData, f.numCoding) && f.numData > 0 && f.numCoding > 0
    && |word| == f.numData + f.numCoding && code.isCodeword(f.numData, f.numCoding, word)
    && (forall i | i in f.shards && i < |word| :: f.shards[i] == word[i])
  }

  /** Enough of its rows are inside. */
  ghost predicate HasEnough(f: Fec) {
    |set i | i in f.shards && i < f.numData + f.numCoding| >= f.numData
  }

  lemma AllInside(f: Fec, word: seq<Shard>)
    requires Agrees(f.shards, word) && |word| == f.numData + f.numCoding && |f.shards| >= f.numData
    ensures HasEnough(f)
  {
    assert (set i | i in f.shards && i < f.numData + f.numCoding) == f.shards.Keys;
    assert |f.shards| == |f.shards.Keys|;
  }

  /** Such a set with enough rows: reconstruction returns exactly the data positions not held, in
      increasing order, with the codeword's rows. */
  lemma ReconstructionIsExact(code: Code, f: Fec, word: seq<Shard>)
    requires Lawful(code) && Consistent(code, f, word) && HasEnough(f)
    ensures ExactlyMissing(f, word, Reconstructed(code, f))
  {
    hide ExactlyMissing, Missing;
    assert RowsAt(word, []) == [];
    MissingRowsExact(f, word);
    SolvedInRange(code, f, word);
    hide InRange, Lawful, Consistent, RowsAt;
  }

  lemma SolvedInRange(code: Code, f: Fec, word: seq<Shard>)
    requires Lawful(code) && Consistent(code, f, word) && HasEnough(f)
    ensures code.solve(f.numData, f.numCoding, InRange(f.shards, f.numData + f.numCoding)) == Some(word)
    ensures f.numData > 0 && f.numCoding > 0 && code.supports(f.numData, f.numCoding)
  {
    var inside := InRange(f.shards, f.numData + f.numCoding);
    assert inside.Keys == set i | i in f.shards && i < f.numData + f.numCoding;
    assert |inside| == |inside.Keys| && Agrees(inside, word);
    assert code.solve(f.numData, f.numCoding, inside) == Some(word);
  }

  // ---- The law can be met ------------------------------------------------------------------

  function AddBytes(a: seq<byte>, b: seq<byte>): (r: seq<byte>)
    requires |a| == |b|
    ensures |r| == |a|
  {
    seq(|a|, i requires 0 <= i < |a| => ((a[i] as int + b[i] as int) % 256) as byte)
  }

  function SubBytes(a: seq<byte>, b: seq<byte>): (r: seq<byte>)
    requires |a| == |b|
    ensures |r| == |a| && AddBytes(r, b) == a
  {
    seq(|a|, i requires 0 <= i < |a| => ((a[i] as int - b[i] as int) % 256) as byte)
  }

  lemma SubAfterAdd(a: seq<byte>, b: seq<byte>)
    requires |a| == |b|
    ensures SubBytes(AddBytes(a, b), b) == a
  {
  }

  predicate AreShifted(key: seq<byte>, word: seq<Shard>) {
    && word != [] && |word[0]| == |key|
    && forall i | 1 <= i < |word| :: word[i] == AddBytes(word[0], key)
  }

  ghost function Unshift(key: seq<byte>, n: nat, m: nat, present: map<nat, Shard>): (r: Option<seq<Shard>>) {
    if present == map[] || n + m == 0 || (exists i :: i in present && |present[i]| != |key|) then None else
    var row := if 0 in present then present[0] else var i :| i in present; SubBytes(present[i], key);
    Some([row] + seq(n + m - 1, _ => AddBytes(row, key)))
  }

  /** A code of one data row: every coding row is the data row shifted, byte by byte, by a key. */
  ghost function ShiftCode(key: seq<byte>): (c: Code) {
    ErasureCode((n, m) => n == 1, (n, m, word) => AreShifted(key, word), (n, m, present) => Unshift(key, n, m, present))
  }

  lemma ShiftIsLawful(key: seq<byte>)
    ensures Lawful(ShiftCode(key))
  {
    forall n: nat, m: nat, word: seq<Shard>, present: map<nat, Shard>
      | n == 1 && |word| == n + m && AreShifted(key, word) && Agrees(present, word) && |present| >= n
      ensures Unshift(key, n, m, present) == Some(word)
    {
      SubAfterAdd(word[0], key);
      assert [word[0]] + seq(n + m - 1, _ => AddBytes(word[0], key)) == word;
    }
  }
}
