/** The leader cache: whether a packet's source address belongs to the validator scheduled for a slot.
    It is filled from a leader schedule, the cluster's node list and the overlay network's user
    accounts. */
module LeaderCaches {
  import opened Wrappers
  import opened Bytes

  /** 32 key bytes enter only through equality. */
  type Pubkey = seq<byte>

  datatype Gossip = V4(ip: u32) | V6

  datatype Node = Node(pubkey: string, gossip: Option<Gossip>)

  /** An account's data, if it could be decoded. */
  type Account = Option<seq<byte>>

  /** Relative slots by validator. */
  type Schedule = map<string, seq<nat>>

  /** The base-58 reading of a public key. */
  type Decoder = string -> Option<Pubkey>

  const DZ_CLIENT_IP_OFFSET: nat := 116
  const DZ_DZ_IP_OFFSET: nat := 120

  datatype Cache = Cache(leaders: map<u64, Pubkey>, gossips: map<u32, Pubkey>, clients: map<u32, u32>)

  // ---- Lookups ---------------------------------------------------------------------------

  function Resolve(c: Cache, ip: u32): (r: u32) {
    if ip in c.clients then c.clients[ip] else ip
  }

  predicate IsLeader(c: Cache, slot: u64, ip: u32) {
    && slot in c.leaders && Resolve(c, ip) in c.gossips
    && c.gossips[Resolve(c, ip)] == c.leaders[slot]
  }

  // ---- What a list of entries makes of a map ------------------------------------------------

  /** Each element inserts a key and a value, or nothing. */
  function Fill<T, K, V>(xs: seq<T>, entry: T -> Option<(K, V)>): (m: map<K, V>) {
    if xs == [] then map[] else
    var m, e := Fill(xs[..|xs| - 1], entry), entry(xs[|xs| - 1]);
    if e.None? then m else m[e.value.0 := e.value.1]
  }

  /** The element at `i` is the last one to insert key `k`. */
  ghost predicate LastInserts<T, K, V>(xs: seq<T>, entry: T -> Option<(K, V)>, i: int, k: K) {
    && 0 <= i < |xs| && entry(xs[i]).Some? && entry(xs[i]).value.0 == k
    && forall j | i < j < |xs| && entry(xs[j]).Some? :: entry(xs[j]).value.0 != k
  }

  /** The last insertion of a key wins. */
  lemma {:induction false} FillIsLast<T, K, V>(xs: seq<T>, entry: T -> Option<(K, V)>, k: K)
    ensures k in Fill(xs, entry) <==> exists i :: LastInserts(xs, entry, i, k)
    ensures forall i | LastInserts(xs, entry, i, k) :: Fill(xs, entry)[k] == entry(xs[i]).value.1
  {
    if xs != [] {
      var n := |xs| - 1;
      FillIsLast(xs[..n], entry, k);
      if entry(xs[n]).Some? && entry(xs[n]).value.0 == k {
        assert LastInserts(xs, entry, n, k);
      } else {
        forall i ensures LastInserts(xs, entry, i, k) <==> LastInserts(xs[..n], entry, i, k) {
          assert forall j | 0 <= j < n :: xs[..n][j] == xs[j];
        }
      }
    }
  }

  // ---- Refresh -------------------------------------------------------------------------------

  function KeyEntry(decode: Decoder): (f: Node -> Option<(string, Pubkey)>) {
    (n: Node) => if decode(n.pubkey).Some? then Some((n.pubkey, decode(n.pubkey).value)) else None
  }

  function GossipEntry(decode: Decoder): (f: Node -> Option<(u32, Pubkey)>) {
    (n: Node) => if decode(n.pubkey).Some? && n.gossip.Some? && n.gossip.value.V4?
                 then Some((n.gossip.value.ip, decode(n.pubkey).value)) else None
  }

  function UserEntry(a: Account): (r: Option<(u32, u32)>) {
    if a.None? || |a.value| < DZ_DZ_IP_OFFSET + 4 then None else
    var clientIp, dzIp := BE32(a.value, DZ_CLIENT_IP_OFFSET), BE32(a.value, DZ_DZ_IP_OFFSET);
    if dzIp == 0 || clientIp == 0 then None else Some((dzIp, clientIp))
  }

  /** Rust's unsigned arithmetic, which wraps. */
  function SlotAt(absoluteSlot: u64, slotIndex: u64, rel: nat): (r: u64) {
    (absoluteSlot - slotIndex + rel) % U64_SIZE
  }

  /** What one refresh works on: the current slot is `absoluteSlot`, the epoch's slot `slotIndex`. */
  datatype Epoch = Epoch(schedule: Schedule, nodes: seq<Node>, absoluteSlot: u64, slotIndex: u64)

  /** Relative slot `rel` of the epoch is `slot`, counted from the current slot and modulo 2^64. */
  predicate Falls(e: Epoch, rel: nat, slot: u64) {
    (slot + e.slotIndex - e.absoluteSlot - rel) % U64_SIZE == 0
  }

  lemma SameModulo(a: int, b: int, n: nat)
    requires n > 0 && (a - b) % n == 0 && 0 <= a < n && 0 <= b < n
    ensures a == b
  {
  }

  /** The program's slot number is the only one on which the relative slot falls. */
  lemma SlotAtFalls(e: Epoch, rel: nat, slot: u64)
    ensures Falls(e, rel, slot) <==> slot == SlotAt(e.absoluteSlot, e.slotIndex, rel)
  {
    var exact := e.absoluteSlot - e.slotIndex + rel;
    var q, r := exact / U64_SIZE, exact % U64_SIZE;
    assert exact == q * U64_SIZE + r;
    assert slot + e.slotIndex - e.absoluteSlot - rel == (slot - r) + (-q) * U64_SIZE;
    ShiftModulo(slot - r, -q, U64_SIZE);
    if Falls(e, rel, slot) {
      SameModulo(slot, r, U64_SIZE);
    }
  }

  lemma ShiftModulo(a: int, q: int, n: nat)
    requires n > 0
    ensures (a + q * n) % n == a % n
  {
    var x, y := (a + q * n) % n, a % n;
    assert a + q * n == ((a + q * n) / n) * n + x && a == (a / n) * n + y;
    var d := (a + q * n) / n - a / n - q;
    assert d * n == y - x;
    AtLeastOnce(d, n);
  }

  lemma AtLeastOnce(d: int, n: int)
    requires n > 0
    ensures (d > 0 ==> d * n >= n) && (d < 0 ==> d * n <= -n)
  {
  }

  /** Where nothing overflows, relative slots are counted from the epoch's first slot, and the current slot
      is the one at `slotIndex`. */
  lemma FallsExactly(e: Epoch, rel: nat, slot: u64)
    requires e.slotIndex <= e.absoluteSlot && e.absoluteSlot - e.slotIndex + rel < U64_SIZE
    ensures Falls(e, rel, slot) <==> slot + e.slotIndex == e.absoluteSlot + rel
    ensures rel == e.slotIndex ==> (Falls(e, rel, slot) <==> slot == e.absoluteSlot)
  {
    if Falls(e, rel, slot) {
      SameModulo(slot, e.absoluteSlot - e.slotIndex + rel, U64_SIZE);
    }
  }

  /** A listed validator with a readable key is scheduled for the slot. */
  ghost predicate Leads(decode: Decoder, e: Epoch, v: string, slot: u64) {
    && v in e.schedule && (exists i :: 0 <= i < |e.nodes| && e.nodes[i].pubkey == v) && decode(v).Some?
    && exists j :: 0 <= j < |e.schedule[v]| && Falls(e, e.schedule[v][j], slot)
  }

  ghost predicate IsLeaderMap(decode: Decoder, e: Epoch, leaders: map<u64, Pubkey>) {
    && (forall v, slot: u64 | Leads(decode, e, v, slot) :: slot in leaders)
    && (forall slot | slot in leaders :: exists v :: Leads(decode, e, v, slot) && decode(v) == Some(leaders[slot]))
  }

  /** What a refresh makes of the cache; without the accounts it keeps the old client addresses. */
  ghost predicate Refreshed(decode: Decoder, e: Epoch, accounts: Option<seq<Account>>, before: Cache, after: Cache) {
    && IsLeaderMap(decode, e, after.leaders)
    && after.gossips == Fill(e.nodes, GossipEntry(decode))
    && after.clients == if accounts.Some? then Fill(accounts.value, UserEntry) else before.clients
  }

  lemma KeysKnown(decode: Decoder, nodes: seq<Node>, v: string)
    ensures var keys := Fill(nodes, KeyEntry(decode));
            && (v in keys <==> decode(v).Some? && exists i :: 0 <= i < |nodes| && nodes[i].pubkey == v)
            && (v in keys ==> decode(v) == Some(keys[v]))
  {
    FillIsLast(nodes, KeyEntry(decode), v);
    if i :| 0 <= i < |nodes| && nodes[i].pubkey == v && decode(v).Some? {
      InsertedIn(nodes, KeyEntry(decode), i, v);
    }
  }

  lemma {:induction false} InsertedIn<T, K, V>(xs: seq<T>, entry: T -> Option<(K, V)>, i: nat, k: K)
    requires i < |xs| && entry(xs[i]).Some? && entry(xs[i]).value.0 == k
    ensures k in Fill(xs, entry)
  {
    if i < |xs| - 1 {
      InsertedIn(xs[..|xs| - 1], entry, i, k);
    }
  }

  // ---- What the lists say, entry by entry ----------------------------------------------------

  /** The node has a readable key and this IPv4 gossip address. */
  predicate ListedAt(decode: Decoder, n: Node, ip: u32) {
    decode(n.pubkey).Some? && n.gossip == Some(V4(ip))
  }

  ghost predicate LastListed(decode: Decoder, e: Epoch, i: int, ip: u32) {
    0 <= i < |e.nodes| && ListedAt(decode, e.nodes[i], ip) && forall j | i < j < |e.nodes| :: !ListedAt(decode, e.nodes[j], ip)
  }

  /** The account is long enough and, at its bytes 120 to 123 and 116 to 119, gives this overlay address a
      client address; neither is zero. */
  predicate Gives(a: Account, overlay: u32, client: u32) {
    && a.Some? && |a.value| >= 124
    && overlay != 0 && BE32(a.value, 120) == overlay && client != 0 && BE32(a.value, 116) == client
  }

  ghost predicate LastGives(accounts: seq<Account>, i: int, overlay: u32, client: u32) {
    && 0 <= i < |accounts| && Gives(accounts[i], overlay, client)
    && forall j, c: u32 | i < j < |accounts| :: !Gives(accounts[j], overlay, c)
  }

  lemma ListedIsInserted(decode: Decoder, n: Node, ip: u32)
    ensures var entry := GossipEntry(decode)(n);
            ListedAt(decode, n, ip) <==> entry.Some? && entry.value.0 == ip
    ensures ListedAt(decode, n, ip) ==> GossipEntry(decode)(n) == Some((ip, decode(n.pubkey).value))
  {
  }

  /** The gossip map has the key of the node listed last under each address. */
  lemma GossipsTell(decode: Decoder, e: Epoch, ip: u32)
    ensures var m := Fill(e.nodes, GossipEntry(decode));
            && (ip in m <==> exists i :: LastListed(decode, e, i, ip))
            && (forall i | LastListed(decode, e, i, ip) :: decode(e.nodes[i].pubkey) == Some(m[ip]))
  {
    hide ListedAt, Fill, GossipEntry;
    FillIsLast(e.nodes, GossipEntry(decode), ip);
    forall i | 0 <= i < |e.nodes|
      ensures ListedAt(decode, e.nodes[i], ip) <==>
                GossipEntry(decode)(e.nodes[i]).Some? && GossipEntry(decode)(e.nodes[i]).value.0 == ip
      ensures ListedAt(decode, e.nodes[i], ip) ==>
                && decode(e.nodes[i].pubkey).Some?
                && GossipEntry(decode)(e.nodes[i]) == Some((ip, decode(e.nodes[i].pubkey).value))
    {
      ListedIsInserted(decode, e.nodes[i], ip);
      ListedHasKey(decode, e.nodes[i], ip);
    }
    forall i ensures LastInserts(e.nodes, GossipEntry(decode), i, ip) <==> LastListed(decode, e, i, ip) {
    }
  }

  lemma ListedHasKey(decode: Decoder, n: Node, ip: u32)
    ensures ListedAt(decode, n, ip) ==> decode(n.pubkey).Some?
  {
  }

  lemma GivenIsInserted(a: Account, overlay: u32)
    ensures forall client: u32 :: Gives(a, overlay, client) <==> UserEntry(a) == Some((overlay, client))
  {
  }

  /** Some validator scheduled for the slot has the key under which the last node is listed at the
      resolved address. */
  ghost predicate ListedLeader(decode: Decoder, e: Epoch, after: Cache, slot: u64, ip: u32) {
    exists v, i :: Leads(decode, e, v, slot) && LastListed(decode, e, i, Resolve(after, ip))
                   && decode(e.nodes[i].pubkey) == decode(v)
  }

  /** After a refresh: a packet is its slot leader's only if it comes from a listed leader; and exactly then
      if the validators scheduled for the slot, normally one, have one key. */
  lemma LeaderExactly(decode: Decoder, e: Epoch, accounts: Option<seq<Account>>, before: Cache, after: Cache, slot: u64, ip: u32)
    requires Refreshed(decode, e, accounts, before, after)
    ensures IsLeader(after, slot, ip) ==> ListedLeader(decode, e, after, slot, ip)
    ensures (forall v, w | Leads(decode, e, v, slot) && Leads(decode, e, w, slot) :: decode(v) == decode(w)) ==>
              (IsLeader(after, slot, ip) <==> ListedLeader(decode, e, after, slot, ip))
  {
    hide Leads, ListedAt, Fill, Resolve;
    var at := Resolve(after, ip);
    GossipsTell(decode, e, at);
    if IsLeader(after, slot, ip) {
      var v :| Leads(decode, e, v, slot) && decode(v) == Some(after.leaders[slot]);
      var i :| LastListed(decode, e, i, at);
      assert decode(e.nodes[i].pubkey) == decode(v);
    }
    if v, i :| Leads(decode, e, v, slot) && LastListed(decode, e, i, at) && decode(e.nodes[i].pubkey) == decode(v) {
      var w :| Leads(decode, e, w, slot) && decode(w) == Some(after.leaders[slot]);
    }
  }

  /** After a refresh the cache has a leader for a slot exactly when a listed validator's relative slot lies as
      far from the epoch's slot index as the slot lies from the current one, and the current slot's leader is
      the validator scheduled at the slot index. */
  lemma SlotsFollowEpoch(decode: Decoder, e: Epoch, accounts: Option<seq<Account>>, before: Cache, after: Cache,
                         v: string, j: nat, slot: u64)
    requires Refreshed(decode, e, accounts, before, after) && e.slotIndex <= e.absoluteSlot
    requires v in e.schedule && j < |e.schedule[v]| && e.absoluteSlot - e.slotIndex + e.schedule[v][j] < U64_SIZE
    requires decode(v).Some? && exists i :: 0 <= i < |e.nodes| && e.nodes[i].pubkey == v
    ensures slot + e.slotIndex == e.absoluteSlot + e.schedule[v][j] ==>
              slot in after.leaders && (OnlyLeader(decode, e, v, slot) ==> after.leaders[slot] == decode(v).value)
    ensures e.schedule[v][j] == e.slotIndex ==> e.absoluteSlot in after.leaders
  {
    hide Falls;
    FallsExactly(e, e.schedule[v][j], slot);
    FallsExactly(e, e.schedule[v][j], e.absoluteSlot);
    if slot + e.slotIndex == e.absoluteSlot + e.schedule[v][j] {
      assert Leads(decode, e, v, slot);
    }
    if e.schedule[v][j] == e.slotIndex {
      assert Leads(decode, e, v, e.absoluteSlot);
    }
  }

  /** No other listed validator is scheduled at the slot's place in the epoch. */
  ghost predicate OnlyLeader(decode: Decoder, e: Epoch, v: string, slot: u64) {
    forall w | w in e.schedule && Leads(decode, e, w, slot) :: w == v
  }

  /** And it has none that no listed validator is scheduled for. */
  lemma OnlyScheduledSlots(decode: Decoder, e: Epoch, accounts: Option<seq<Account>>, before: Cache, after: Cache, slot: u64)
    requires Refreshed(decode, e, accounts, before, after) && e.slotIndex <= e.absoluteSlot && slot in after.leaders
    requires forall v, j | v in e.schedule && 0 <= j < |e.schedule[v]| :: e.absoluteSlot - e.slotIndex + e.schedule[v][j] < U64_SIZE
    ensures exists v, i, j ::
              && v in e.schedule && 0 <= j < |e.schedule[v]| && slot + e.slotIndex == e.absoluteSlot + e.schedule[v][j]
              && 0 <= i < |e.nodes| && e.nodes[i].pubkey == v && decode(v) == Some(after.leaders[slot])
  {
    hide Falls;
    var v :| Leads(decode, e, v, slot) && decode(v) == Some(after.leaders[slot]);
    var i :| 0 <= i < |e.nodes| && e.nodes[i].pubkey == v;
    var j :| 0 <= j < |e.schedule[v]| && Falls(e, e.schedule[v][j], slot);
    FallsExactly(e, e.schedule[v][j], slot);
  }

  /** The client address that the last usable account gives for an overlay address; any other address
      stands for itself. */
  lemma ResolvesToLastClient(decode: Decoder, e: Epoch, accounts: seq<Account>, before: Cache, after: Cache, ip: u32)
    requires Refreshed(decode, e, Some(accounts), before, after)
    ensures forall i, client | LastGives(accounts, i, ip, client) :: Resolve(after, ip) == client
    ensures (forall i, client :: !LastGives(accounts, i, ip, client)) ==> Resolve(after, ip) == ip
  {
    hide Fill, Gives, UserEntry;
    FillIsLast(accounts, UserEntry, ip);
    forall a ensures forall client: u32 :: Gives(a, ip, client) <==> UserEntry(a) == Some((ip, client)) {
      GivenIsInserted(a, ip);
    }
    forall i, client | LastGives(accounts, i, ip, client) ensures LastInserts(accounts, UserEntry, i, ip) {
    }
    if ip in after.clients {
      var i :| LastInserts(accounts, UserEntry, i, ip);
      assert LastGives(accounts, i, ip, UserEntry(accounts[i]).value.1);
    }
  }

  /** Without the accounts, addresses resolve as they did before. */
  lemma ResolvesAsBefore(decode: Decoder, e: Epoch, before: Cache, after: Cache, ip: u32)
    requires Refreshed(decode, e, None, before, after)
    ensures Resolve(after, ip) == Resolve(before, ip)
  {
  }

  // ---- The address handed to the cache -----------------------------------------------------

  type Octets = s: seq<byte> | |s| == 4
    witness [0, 0, 0, 0]

  /** The single-packet receive path converts the sender's octets. */
  function FromOctets(octets: Octets): (ip: u32) {
    BE32(octets, 0)
  }

  /** The batched path takes `s_addr` as it lies in memory; on a little-endian host. */
  function FromSockaddr(octets: Octets): (ip: u32) {
    LE32(octets, 0)
  }

  /** The batched path hands over the address under which the cache knows the sender exactly when the
      address reads the same backwards. */
  lemma PathsAgreeExactly(octets: Octets)
    ensures FromSockaddr(octets) == FromOctets(octets) <==> octets[0] == octets[3] && octets[1] == octets[2]
  {
  }

  // ---- The cache itself ----------------------------------------------------------------------

  class LeaderCache {
    var slotToPubkey: map<u64, Pubkey>
    var gossipIpToPubkey: map<u32, Pubkey>
    var dzIpToClientIp: map<u32, u32>

    ghost function Model(): (c: Cache)
      reads this
    {
      Cache(slotToPubkey, gossipIpToPubkey, dzIpToClientIp)
    }

    constructor ()
      ensures Model() == Cache(map[], map[], map[])
    {
      slotToPubkey, gossipIpToPubkey, dzIpToClientIp := map[], map[], map[];
    }

    predicate IsLeaderOf(slot: u64, ip: u32)
      reads this
      ensures IsLeaderOf(slot, ip) == IsLeader(Model(), slot, ip)
    {
      if slot !in slotToPubkey then false else
      var resolved := if ip in dzIpToClientIp then dzIpToClientIp[ip] else ip;
      resolved in gossipIpToPubkey && gossipIpToPubkey[resolved] == slotToPubkey[slot]
    }

    /** Refresh from what could be fetched; nothing changes unless both schedule and nodes could. */
    method Refresh(decode: Decoder, schedule: Option<Schedule>, nodes: Option<seq<Node>>, accounts: Option<seq<Account>>,
                   absoluteSlot: u64, slotIndex: u64) returns (ok: bool)
      modifies this
      ensures ok <==> schedule.Some? && nodes.Some?
      ensures !ok ==> Model() == old(Model())
      ensures ok ==> Refreshed(decode, Epoch(schedule.value, nodes.value, absoluteSlot, slotIndex), accounts, old(Model()), Model())
    {
      if schedule.None? || nodes.None? {
        return false;
      }
      var keys, gossips := ReadNodes(decode, nodes.value);
      slotToPubkey := ReadSchedule(decode, Epoch(schedule.value, nodes.value, absoluteSlot, slotIndex), keys);
      gossipIpToPubkey := gossips;
      if accounts.Some? {
        dzIpToClientIp := ReadUsers(accounts.value);
      }
      return true;
    }
  }

  method ReadNodes(decode: Decoder, nodes: seq<Node>) returns (keys: map<string, Pubkey>, gossips: map<u32, Pubkey>)
    ensures keys == Fill(nodes, KeyEntry(decode)) && gossips == Fill(nodes, GossipEntry(decode))
  {
    keys, gossips := map[], map[];
    for i := 0 to |nodes|
      invariant keys == Fill(nodes[..i], KeyEntry(decode)) && gossips == Fill(nodes[..i], GossipEntry(decode))
    {
      assert nodes[..i + 1][..i] == nodes[..i];
      var n := nodes[i];
      var pk := decode(n.pubkey);
      if pk.Some? {
        keys := keys[n.pubkey := pk.value];
        if n.gossip.Some? && n.gossip.value.V4? {
          gossips := gossips[n.gossip.value.ip := pk.value];
        }
      }
    }
    assert nodes[..|nodes|] == nodes;
  }

  lemma LeadersScheduled(decode: Decoder, e: Epoch)
    ensures forall v, slot: u64 | Leads(decode, e, v, slot) :: v in e.schedule
  {
    hide SlotAt;
  }

  lemma LeadsOnly(decode: Decoder, e: Epoch, v: string, leaders: map<u64, Pubkey>)
    requires v in e.schedule
    requires forall m | 0 <= m < |e.schedule[v]| :: SlotAt(e.absoluteSlot, e.slotIndex, e.schedule[v][m]) in leaders
    ensures forall slot: u64 | Leads(decode, e, v, slot) :: slot in leaders
  {
    hide SlotAt, Falls;
    forall slot: u64 | Leads(decode, e, v, slot) ensures slot in leaders {
      var j :| 0 <= j < |e.schedule[v]| && Falls(e, e.schedule[v][j], slot);
      SlotAtFalls(e, e.schedule[v][j], slot);
    }
  }

  lemma LeadsAt(decode: Decoder, e: Epoch, keys: map<string, Pubkey>, v: string)
    requires keys == Fill(e.nodes, KeyEntry(decode)) && v in e.schedule
    ensures v !in keys ==> forall slot: u64 :: !Leads(decode, e, v, slot)
    ensures v in keys ==> decode(v) == Some(keys[v]) && forall j | 0 <= j < |e.schedule[v]| ::
              Leads(decode, e, v, SlotAt(e.absoluteSlot, e.slotIndex, e.schedule[v][j]))
  {
    hide SlotAt, Falls;
    KeysKnown(decode, e.nodes, v);
    forall j | 0 <= j < |e.schedule[v]|
      ensures Falls(e, e.schedule[v][j], SlotAt(e.absoluteSlot, e.slotIndex, e.schedule[v][j]))
    {
      SlotAtFalls(e, e.schedule[v][j], SlotAt(e.absoluteSlot, e.slotIndex, e.schedule[v][j]));
    }
  }

  /** The schedule, validator by validator in whatever order the map yields them. */
  method ReadSchedule(decode: Decoder, e: Epoch, keys: map<string, Pubkey>) returns (leaders: map<u64, Pubkey>)
    requires keys == Fill(e.nodes, KeyEntry(decode))
    ensures IsLeaderMap(decode, e, leaders)
  {
    hide Leads, SlotAt;
    leaders := map[];
    var todo := e.schedule.Keys;
    while todo != {}
      invariant todo <= e.schedule.Keys
      invariant forall v, slot: u64 | v in e.schedule && v !in todo && Leads(decode, e, v, slot) :: slot in leaders
      invariant forall slot | slot in leaders :: exists v :: Leads(decode, e, v, slot) && decode(v) == Some(leaders[slot])
      decreases todo
    {
      var v :| v in todo;
      todo := todo - {v};
      LeadsAt(decode, e, keys, v);
      if v in keys {
        for j := 0 to |e.schedule[v]|
          invariant forall w, slot: u64 | w in e.schedule && w !in todo && w != v && Leads(decode, e, w, slot) :: slot in leaders
          invariant forall m | 0 <= m < j :: SlotAt(e.absoluteSlot, e.slotIndex, e.schedule[v][m]) in leaders
          invariant forall slot | slot in leaders :: exists w :: Leads(decode, e, w, slot) && decode(w) == Some(leaders[slot])
        {
          var slot := SlotAt(e.absoluteSlot, e.slotIndex, e.schedule[v][j]);
          assert Leads(decode, e, v, slot);
          leaders := leaders[slot := keys[v]];
        }
        LeadsOnly(decode, e, v, leaders);
      }
    }
    LeadersScheduled(decode, e);
  }

  method ReadUsers(accounts: seq<Account>) returns (clients: map<u32, u32>)
    ensures clients == Fill(accounts, UserEntry)
  {
    clients := map[];
    for i := 0 to |accounts|
      invariant clients == Fill(accounts[..i], UserEntry)
    {
      assert accounts[..i + 1][..i] == accounts[..i];
      var data := accounts[i];
      if data.Some? && |data.value| >= DZ_DZ_IP_OFFSET + 4 {
        var clientIp, dzIp := BE32(data.value, DZ_CLIENT_IP_OFFSET), BE32(data.value, DZ_DZ_IP_OFFSET);
        if dzIp != 0 && clientIp != 0 {
          clients := clients[dzIp := clientIp];
        }
      }
    }
    assert accounts[..|accounts|] == accounts;
  }
}
