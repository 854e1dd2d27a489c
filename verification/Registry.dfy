/** The rlcore daemon's tables: who registered for which topic, under which addresses, with which roles and names, and
    who joined a topic's relay group; each kept alive by repetition and pruned when stale. */
module Registry {
  import opened Options
  import opened Wire
  import opened Order
  import Directory
  import Register

  const REGISTRATION_TTL := 3.0
  const RELAY_TTL := 30.0

  datatype Peer = Peer(ip: u32, port: u16)

  /** A topic and a peer. */
  type Key = (u32, Peer)

  datatype Tables = Tables(
    table: map<u32, set<Peer>>,
    lanOf: map<Peer, Peer>,
    lastSeen: map<Key, real>,
    roleTable: map<Key, byte>,
    roleLastSeen: map<Key, real>,
    relayGroups: map<u32, map<Peer, real>>,
    topicNames: map<u32, Bytes>)

  const EMPTY := Tables(map[], map[], map[], map[], map[], map[], map[])

  /** A packet routed to its branch. Queries and data frames to forward change no table. */
  datatype Event =
    | Nothing
    | Registers(self: Peer, lan: Peer, topics: seq<u32>)
    | Names(names: seq<(u32, Bytes)>)
    | NameQuery
    | Roles(from: Peer, roles: seq<(u32, byte)>)
    | RoleQuery
    | Joins(from: Peer, topic: u32)
    | Forwards(from: Peer, topic: u32)

  /** One turn of the main loop: the clock is read once to prune and once to stamp. */
  datatype Turn = Turn(pruned: real, stamped: real, event: Event)

  // ----- What a turn does to the tables -----

  predicate Recent(seen: real, now: real, ttl: real)
  {
    now - seen <= ttl
  }

  function Kept<K>(seen: map<K, real>, now: real, ttl: real): map<K, real>
  {
    map k | k in seen && Recent(seen[k], now, ttl) :: seen[k]
  }

  function LivePeers(tb: Tables, t: u32, now: real): set<Peer>
    requires t in tb.table
  {
    set p | p in tb.table[t] && (t, p) in tb.lastSeen && Recent(tb.lastSeen[(t, p)], now, REGISTRATION_TTL)
  }

  function PrunedTable(tb: Tables, now: real): map<u32, set<Peer>>
  {
    map t | t in tb.table && LivePeers(tb, t, now) != {} :: LivePeers(tb, t, now)
  }

  function PrunedGroups(groups: map<u32, map<Peer, real>>, now: real): map<u32, map<Peer, real>>
  {
    map t | t in groups && Kept(groups[t], now, RELAY_TTL) != map[] :: Kept(groups[t], now, RELAY_TTL)
  }

  function Pruned(tb: Tables, now: real, relay: bool): Tables
  {
    var roles := Kept(tb.roleLastSeen, now, REGISTRATION_TTL);
    tb.(table := PrunedTable(tb, now),
        lastSeen := Kept(tb.lastSeen, now, REGISTRATION_TTL),
        roleLastSeen := roles,
        roleTable := map k | k in tb.roleTable && k in roles :: tb.roleTable[k],
        relayGroups := if relay then PrunedGroups(tb.relayGroups, now) else tb.relayGroups)
  }

  function PeersAt(table: map<u32, set<Peer>>, t: u32): set<Peer>
  {
    if t in table then table[t] else {}
  }

  function MembersAt(groups: map<u32, map<Peer, real>>, t: u32): map<Peer, real>
  {
    if t in groups then groups[t] else map[]
  }

  function WithTopic(tb: Tables, self: Peer, t: u32, now: real): Tables
  {
    tb.(table := tb.table[t := PeersAt(tb.table, t) + {self}], lastSeen := tb.lastSeen[(t, self) := now])
  }

  function WithTopics(tb: Tables, self: Peer, topics: seq<u32>, now: real): Tables
    decreases |topics|
  {
    if topics == [] then tb
    else
      WithTopic(WithTopics(tb, self, topics[..|topics| - 1], now), self, topics[|topics| - 1], now)
  }

  function WithNames(topicNames: map<u32, Bytes>, names: seq<(u32, Bytes)>): map<u32, Bytes>
    decreases |names|
  {
    if names == [] then topicNames
    else
      var n := |names| - 1;
      WithNames(topicNames, names[..n])[names[n].0 := names[n].1]
  }

  function WithRoles(tb: Tables, from: Peer, roles: seq<(u32, byte)>, now: real): Tables
    decreases |roles|
  {
    if roles == [] then tb
    else
      var n := |roles| - 1;
      var front, key := WithRoles(tb, from, roles[..n], now), (roles[n].0, from);
      front.(roleTable := front.roleTable[key := roles[n].1], roleLastSeen := front.roleLastSeen[key := now])
  }

  function Handled(tb: Tables, event: Event, now: real): Tables
  {
    match event
    case Registers(self, lan, topics) => WithTopics(tb.(lanOf := tb.lanOf[self := lan]), self, topics, now)
    case Names(names) => tb.(topicNames := WithNames(tb.topicNames, names))
    case Roles(from, roles) => WithRoles(tb, from, roles, now)
    case Joins(from, t) =>
      tb.(relayGroups := tb.relayGroups[t := MembersAt(tb.relayGroups, t)[from := now]])
    case _ => tb
  }

  function After(tb: Tables, turn: Turn, relay: bool): Tables
  {
    Handled(Pruned(tb, turn.pruned, relay), turn.event, turn.stamped)
  }

  function Run(h: seq<Turn>, relay: bool): Tables
    decreases |h|
  {
    if h == [] then EMPTY else After(Run(h[..|h| - 1], relay), h[|h| - 1], relay)
  }

  // ----- Consistency -----

  ghost predicate Consistent(tb: Tables)
  {
    && (forall t :: t in tb.table ==> tb.table[t] != {})
    && (forall t: u32, p: Peer :: p in PeersAt(tb.table, t) <==> (t, p) in tb.lastSeen)
    && (forall t: u32, p: Peer :: (t, p) in tb.lastSeen ==> p in tb.lanOf)
    && tb.roleTable.Keys == tb.roleLastSeen.Keys
    && (forall t :: t in tb.relayGroups ==> tb.relayGroups[t] != map[])
  }

  lemma PrunedConsistent(tb: Tables, now: real, relay: bool)
    requires Consistent(tb)
    ensures Consistent(Pruned(tb, now, relay))
  {
    var tb' := Pruned(tb, now, relay);
    forall t: u32, p: Peer
      ensures p in PeersAt(tb'.table, t) <==> (t, p) in tb'.lastSeen
    {
      assert p in PeersAt(tb.table, t) <==> (t, p) in tb.lastSeen;
      if t in tb.table {
        assert p in LivePeers(tb, t, now) <==> (t, p) in tb'.lastSeen;
      }
    }
    assert tb'.roleTable.Keys == tb'.roleLastSeen.Keys;
  }

  lemma {:induction false} WithTopicsConsistent(tb: Tables, self: Peer, topics: seq<u32>, now: real)
    requires Consistent(tb) && self in tb.lanOf
    ensures var tb' := WithTopics(tb, self, topics, now); Consistent(tb') && tb'.lanOf == tb.lanOf
    decreases |topics|
  {
    hide Consistent, WithTopic;
    if topics != [] {
      var n := |topics| - 1;
      WithTopicsConsistent(tb, self, topics[..n], now);
      WithTopicConsistent(WithTopics(tb, self, topics[..n], now), self, topics[n], now);
    }
  }

  lemma WithTopicConsistent(tb: Tables, self: Peer, t: u32, now: real)
    requires Consistent(tb) && self in tb.lanOf
    ensures var tb' := WithTopic(tb, self, t, now); Consistent(tb') && tb'.lanOf == tb.lanOf
  {}

  lemma {:induction false} WithRolesConsistent(tb: Tables, from: Peer, roles: seq<(u32, byte)>, now: real)
    requires Consistent(tb)
    ensures Consistent(WithRoles(tb, from, roles, now))
    decreases |roles|
  {
    if roles != [] {
      WithRolesConsistent(tb, from, roles[..|roles| - 1], now);
    }
  }

  lemma HandledConsistent(tb: Tables, event: Event, now: real)
    requires Consistent(tb)
    ensures Consistent(Handled(tb, event, now))
  {
    match event
    case Registers(self, lan, topics) =>
      WithTopicsConsistent(tb.(lanOf := tb.lanOf[self := lan]), self, topics, now);
    case Roles(from, roles) => WithRolesConsistent(tb, from, roles, now);
    case Joins(from, t) => assert from in MembersAt(tb.relayGroups, t)[from := now];
    case _ =>
  }

  /** In every reachable state: the two registration tables hold the same pairs, no topic has an empty set, every
      registered peer has a LAN address, the two role tables share their keys, and no relay group is empty. */
  lemma {:induction false} AlwaysConsistent(h: seq<Turn>, relay: bool)
    ensures Consistent(Run(h, relay))
    decreases |h|
  {
    hide Consistent, Pruned, Handled;
    if h == [] {
      EmptyConsistent();
    } else {
      var before, turn := Run(h[..|h| - 1], relay), h[|h| - 1];
      AlwaysConsistent(h[..|h| - 1], relay);
      PrunedConsistent(before, turn.pruned, relay);
      HandledConsistent(Pruned(before, turn.pruned, relay), turn.event, turn.stamped);
    }
  }

  lemma EmptyConsistent()
    ensures Consistent(EMPTY)
  {}

  // ----- The history, read directly -----

  ghost predicate Monotone(h: seq<Turn>)
  {
    && (forall i :: 0 <= i < |h| ==> h[i].pruned <= h[i].stamped)
    && (forall i, j :: 0 <= i < j < |h| ==> h[i].stamped <= h[j].pruned)
  }

  /** What the daemon can be asked to know. */
  datatype Fact = Registered(key: Key) | LanOf(peer: Peer) | RoleOf(key: Key) | Joined(key: Key) | NameOf(topic: u32)

  datatype Value = Present | Address(peer: Peer) | Role(role: byte) | Text(name: Bytes)

  /** A value and, for facts that expire, when it was learned. */
  datatype Told = Told(value: Value, at: real)

  predicate Expires(q: Fact)
  {
    q.Registered? || q.RoleOf? || q.Joined?
  }

  function Ttl(q: Fact): real
  {
    if q.Joined? then RELAY_TTL else REGISTRATION_TTL
  }

  /** The last value a list of pairs gives for a topic. */
  function LastIn<V>(pairs: seq<(u32, V)>, t: u32): Option<V>
    decreases |pairs|
  {
    if pairs == [] then None
    else if pairs[|pairs| - 1].0 == t then Some(pairs[|pairs| - 1].1)
    else LastIn(pairs[..|pairs| - 1], t)
  }

  /** What a packet says about a fact, if anything. */
  function Tells(event: Event, q: Fact): Option<Value>
  {
    match q
    case Registered(k) => if event.Registers? && event.self == k.1 && k.0 in event.topics then Some(Present) else None
    case LanOf(p) => if event.Registers? && event.self == p then Some(Address(event.lan)) else None
    case RoleOf(k) =>
      var role := if event.Roles? && event.from == k.1 then LastIn(event.roles, k.0) else None;
      if role.Some? then Some(Role(role.value)) else None
    case Joined(k) => if event == Joins(k.1, k.0) then Some(Present) else None
    case NameOf(t) =>
      var name := if event.Names? then LastIn(event.names, t) else None;
      if name.Some? then Some(Text(name.value)) else None
  }

  /** The latest word on a fact in a whole history. */
  function Latest(h: seq<Turn>, q: Fact): Option<Told>
    decreases |h|
  {
    if h == [] then None
    else
      var turn := h[|h| - 1];
      var told := Tells(turn.event, q);
      if told.Some? then Some(Told(told.value, if Expires(q) then turn.stamped else 0.0)) else Latest(h[..|h| - 1], q)
  }

  /** What the tables say about a fact. */
  function Held(tb: Tables, q: Fact): Option<Told>
  {
    match q
    case Registered(k) => if k in tb.lastSeen then Some(Told(Present, tb.lastSeen[k])) else None
    case LanOf(p) => if p in tb.lanOf then Some(Told(Address(tb.lanOf[p]), 0.0)) else None
    case RoleOf(k) =>
      if k in tb.roleTable && k in tb.roleLastSeen then Some(Told(Role(tb.roleTable[k]), tb.roleLastSeen[k])) else None
    case Joined(k) =>
      var members := MembersAt(tb.relayGroups, k.0);
      if k.1 in members then Some(Told(Present, members[k.1])) else None
    case NameOf(t) => if t in tb.topicNames then Some(Told(Text(tb.topicNames[t]), 0.0)) else None
  }

  predicate Stale(told: Told, q: Fact, now: real)
  {
    Expires(q) && !Recent(told.at, now, Ttl(q))
  }

  function Unexpired(told: Option<Told>, q: Fact, now: real): Option<Told>
  {
    if told.Some? && Stale(told.value, q, now) then None else told
  }

  lemma PrunedHolds(tb: Tables, q: Fact, now: real, relay: bool)
    requires q.Joined? ==> relay
    ensures Held(Pruned(tb, now, relay), q) == Unexpired(Held(tb, q), q, now)
  {
    if q.Joined? && q.key.0 in tb.relayGroups {
      var kept := Kept(tb.relayGroups[q.key.0], now, RELAY_TTL);
      assert MembersAt(Pruned(tb, now, relay).relayGroups, q.key.0) == kept;
    }
  }

  /** `held` with what an event tells laid over it. */
  function Updated(held: Option<Told>, told: Option<Value>, q: Fact, now: real): Option<Told>
  {
    if told.Some? then Some(Told(told.value, if Expires(q) then now else 0.0)) else held
  }

  lemma {:induction false} WithTopicsHolds(tb: Tables, self: Peer, topics: seq<u32>, now: real, q: Fact)
    ensures Held(WithTopics(tb, self, topics, now), q) ==
            if q.Registered? && q.key.1 == self && q.key.0 in topics then Some(Told(Present, now)) else Held(tb, q)
    decreases |topics|
  {
    if topics != [] {
      WithTopicsHolds(tb, self, topics[..|topics| - 1], now, q);
      assert topics == topics[..|topics| - 1] + [topics[|topics| - 1]];
    }
  }

  lemma {:induction false} WithRolesHolds(tb: Tables, from: Peer, roles: seq<(u32, byte)>, now: real, q: Fact)
    ensures Held(WithRoles(tb, from, roles, now), q) ==
            if q.RoleOf? && q.key.1 == from && LastIn(roles, q.key.0).Some?
            then Some(Told(Role(LastIn(roles, q.key.0).value), now)) else Held(tb, q)
    decreases |roles|
  {
    if roles != [] {
      WithRolesHolds(tb, from, roles[..|roles| - 1], now, q);
    }
  }

  lemma {:induction false} WithNamesHolds(topicNames: map<u32, Bytes>, names: seq<(u32, Bytes)>, t: u32)
    ensures var after, name := WithNames(topicNames, names), LastIn(names, t);
      if name.Some? then t in after && after[t] == name.value
      else (t in after <==> t in topicNames) && (t in after ==> after[t] == topicNames[t])
    decreases |names|
  {
    if names != [] {
      WithNamesHolds(topicNames, names[..|names| - 1], t);
    }
  }

  lemma HandledHolds(tb: Tables, event: Event, now: real, q: Fact)
    ensures Held(Handled(tb, event, now), q) == Updated(Held(tb, q), Tells(event, q), q, now)
  {
    match event
    case Registers(self, lan, topics) => WithTopicsHolds(tb.(lanOf := tb.lanOf[self := lan]), self, topics, now, q);
    case Roles(from, roles) => WithRolesHolds(tb, from, roles, now, q);
    case Names(names) =>
      if q.NameOf? {
        WithNamesHolds(tb.topicNames, names, q.topic);
      }
    case _ =>
  }

  /** The tables hold the latest word on a fact, or have dropped one that was already stale. */
  ghost predicate Follows(tb: Tables, h: seq<Turn>, q: Fact, now: real)
  {
    Unexpired(Held(tb, q), q, now) == Unexpired(Latest(h, q), q, now)
  }

  lemma {:induction false} RunFollows(h: seq<Turn>, relay: bool, q: Fact, now: real)
    requires Monotone(h) && (q.Joined? ==> relay) && (h != [] ==> h[|h| - 1].stamped <= now)
    ensures Follows(Run(h, relay), h, q, now)
    decreases |h|
  {
    if h != [] {
      var front, turn := h[..|h| - 1], h[|h| - 1];
      assert front != [] ==> front[|front| - 1].stamped <= turn.pruned;
      RunFollows(front, relay, q, turn.pruned);
      PrunedHolds(Run(front, relay), q, turn.pruned, relay);
      HandledHolds(Pruned(Run(front, relay), turn.pruned, relay), turn.event, turn.stamped, q);
      hide Held, Latest, Tells, Pruned, Handled;
      StaleStays(Held(Run(front, relay), q), Latest(front, q), q, turn.pruned, now);
      LatestStep(h, q);
    }
  }

  lemma LatestStep(h: seq<Turn>, q: Fact)
    requires h != []
    ensures var turn := h[|h| - 1];
      Latest(h, q) == Updated(Latest(h[..|h| - 1], q), Tells(turn.event, q), q, turn.stamped)
  {}

  /** What is stale stays stale. */
  lemma StaleStays(held: Option<Told>, latest: Option<Told>, q: Fact, earlier: real, now: real)
    requires Unexpired(held, q, earlier) == Unexpired(latest, q, earlier) && earlier <= now
    ensures Unexpired(Unexpired(held, q, earlier), q, now) == Unexpired(latest, q, now)
  {}

  /** For every run with a monotone clock, once pruned the tables say of each fact exactly what the history says: the
      latest word on it, unless that has expired. */
  lemma TablesFollowHistory(h: seq<Turn>, relay: bool, q: Fact, now: real)
    requires Monotone(h) && (q.Joined? ==> relay) && (h != [] ==> h[|h| - 1].stamped <= now)
    ensures Held(Pruned(Run(h, relay), now, relay), q) == Unexpired(Latest(h, q), q, now)
  {
    RunFollows(h, relay, q, now);
    PrunedHolds(Run(h, relay), q, now, relay);
  }

  // ----- In plain terms -----

  /** Some turn within the time to live told this fact. */
  ghost predicate ToldWithin(h: seq<Turn>, q: Fact, now: real)
  {
    exists i :: 0 <= i < |h| && Tells(h[i].event, q).Some? && Recent(h[i].stamped, now, Ttl(q))
  }

  lemma {:induction false} LatestBounds(h: seq<Turn>, q: Fact, i: nat)
    requires Monotone(h) && Expires(q) && i < |h| && Tells(h[i].event, q).Some?
    ensures Latest(h, q).Some? && h[i].stamped <= Latest(h, q).value.at
    decreases |h|
  {
    hide Tells;
    var n := |h| - 1;
    if i < n {
      assert h[i].stamped <= h[n].pruned <= h[n].stamped;
      LatestBounds(h[..n], q, i);
    }
  }

  lemma {:induction false} LatestWitness(h: seq<Turn>, q: Fact) returns (i: nat)
    requires Expires(q) && Latest(h, q).Some?
    ensures i < |h| && Tells(h[i].event, q).Some? && h[i].stamped == Latest(h, q).value.at
    decreases |h|
  {
    hide Tells;
    i := |h| - 1;
    if Tells(h[i].event, q).None? {
      i := LatestWitness(h[..i], q);
    }
  }

  lemma LatestIsLatest(h: seq<Turn>, q: Fact, now: real)
    requires Monotone(h) && Expires(q)
    ensures Unexpired(Latest(h, q), q, now).Some? <==> ToldWithin(h, q, now)
  {
    hide Tells, Latest;
    if Latest(h, q).Some? {
      var i := LatestWitness(h, q);
    }
    if ToldWithin(h, q, now) {
      var i :| 0 <= i < |h| && Tells(h[i].event, q).Some? && Recent(h[i].stamped, now, Ttl(q));
      LatestBounds(h, q, i);
    }
  }

  /** After pruning, a peer stands in a topic's set exactly when some RegisterRequest of it for that topic arrived
      within the time to live. */
  lemma RegisteredExactly(h: seq<Turn>, relay: bool, t: u32, p: Peer, now: real)
    requires Monotone(h) && (h != [] ==> h[|h| - 1].stamped <= now)
    ensures p in PeersAt(Pruned(Run(h, relay), now, relay).table, t) <==> ToldWithin(h, Registered((t, p)), now)
  {
    hide Pruned, Run;
    var q := Registered((t, p));
    TablesFollowHistory(h, relay, q, now);
    LatestIsLatest(h, q, now);
    AlwaysConsistent(h, relay);
    PrunedConsistent(Run(h, relay), now, relay);
  }

  /** And a role is listed exactly when announced within the time to live, with the last role announced. */
  lemma RoleExactly(h: seq<Turn>, relay: bool, k: Key, now: real)
    requires Monotone(h) && (h != [] ==> h[|h| - 1].stamped <= now)
    ensures var tb := Pruned(Run(h, relay), now, relay);
      && (k in tb.roleTable <==> ToldWithin(h, RoleOf(k), now))
      && (k in tb.roleTable ==> Latest(h, RoleOf(k)).Some? && Latest(h, RoleOf(k)).value.value == Role(tb.roleTable[k]))
  {
    hide Pruned, Run, Latest;
    var q := RoleOf(k);
    TablesFollowHistory(h, relay, q, now);
    LatestIsLatest(h, q, now);
    AlwaysConsistent(h, relay);
    PrunedConsistent(Run(h, relay), now, relay);
  }

  // ----- Replies -----

  function TopicRank(t: u32): nat
  {
    t
  }

  function PeerRank(p: Peer): nat
  {
    p.ip * 0x1_0000 + p.port
  }

  function KeyRank(k: Key): nat
  {
    k.0 * 0x1_0000_0000_0000 + PeerRank(k.1)
  }

  lemma RanksOrder()
    ensures IsOrder(TopicRank) && IsOrder(PeerRank) && IsOrder(KeyRank)
  {}

  function NameFor(tb: Tables, t: u32): Bytes
  {
    if t in tb.topicNames then tb.topicNames[t] else []
  }

  /** The answer to a name query: every registered topic, with its name or an empty one. */
  ghost function NameEntries(tb: Tables): (entries: seq<Directory.Entry>)
    ensures |entries| == |tb.table|
  {
    var topics := Ascending(tb.table.Keys, TopicRank);
    seq(|topics|, i requires 0 <= i < |topics| => NameEntry(tb, topics[i]))
  }

  function NameEntry(tb: Tables, t: u32): Directory.Entry
  {
    Directory.Name(t, NameFor(tb, t))
  }

  ghost function RoleEntries(tb: Tables): (entries: seq<Directory.Entry>)
    ensures |entries| == |tb.roleTable|
  {
    var keys := Ascending(tb.roleTable.Keys, KeyRank);
    seq(|keys|, i requires 0 <= i < |keys| => RoleEntry(tb, keys[i]))
  }

  function RoleEntry(tb: Tables, k: Key): Directory.Entry
  {
    Directory.Peer(k.0, if k in tb.roleTable then tb.roleTable[k] else 0, k.1.ip, k.1.port)
  }

  function AckPeerFor(tb: Tables, t: u32, p: Peer): Register.AckPeer
  {
    var lan := if p in tb.lanOf then tb.lanOf[p] else Peer(0, 0);
    Register.AckPeer(p.ip, p.port, t, lan.ip, lan.port)
  }

  /** What an acknowledgement lists for one topic. */
  ghost function PeersFor(tb: Tables, self: Peer, t: u32): seq<Register.AckPeer>
  {
    var peers := Ascending(PeersAt(tb.table, t) - {self}, PeerRank);
    seq(|peers|, i requires 0 <= i < |peers| => AckPeerFor(tb, t, peers[i]))
  }

  /** Topic by topic, in the order requested. */
  ghost function AckPeers(tb: Tables, self: Peer, topics: seq<u32>): seq<Register.AckPeer>
    decreases |topics|
  {
    if topics == [] then [] else
      AckPeers(tb, self, topics[..|topics| - 1]) + PeersFor(tb, self, topics[|topics| - 1])
  }

  /** Where a frame on topic `t` from `from` is forwarded. */
  ghost function Destinations(tb: Tables, from: Peer, t: u32): seq<Peer>
  {
    Ascending(MembersAt(tb.relayGroups, t).Keys - {from}, PeerRank)
  }

  // ----- What the replies say -----

  lemma PeersForHas(tb: Tables, self: Peer, t: u32, x: Register.AckPeer)
    ensures x in PeersFor(tb, self, t) <==>
            Peer(x.ip, x.port) in PeersAt(tb.table, t) && Peer(x.ip, x.port) != self &&
            x == AckPeerFor(tb, t, Peer(x.ip, x.port))
  {
    var p, s := Peer(x.ip, x.port), PeersAt(tb.table, t) - {self};
    var peers, list := Ascending(s, PeerRank), PeersFor(tb, self, t);
    AscendingHasAll(s, PeerRank, p);
    if p in s && x == AckPeerFor(tb, t, p) {
      var i :| 0 <= i < |peers| && peers[i] == p;
      assert list[i] == x;
    }
    if x in list {
      var i :| 0 <= i < |list| && list[i] == x;
      assert peers[i] == p;
    }
  }

  lemma {:induction false} AckPeersHas(tb: Tables, self: Peer, topics: seq<u32>, x: Register.AckPeer)
    ensures x in AckPeers(tb, self, topics) <==> x.topic in topics && x in PeersFor(tb, self, x.topic)
    decreases |topics|
  {
    hide PeersFor;
    if topics != [] {
      var n := |topics| - 1;
      AckPeersHas(tb, self, topics[..n], x);
      PeersForHas(tb, self, topics[n], x);
      assert topics == topics[..n] + [topics[n]];
    }
  }

  /** Each acknowledgement lists, for the topics requested, exactly the other peers with a RegisterRequest for that
      topic within the time to live, each with the LAN address it last reported. */
  lemma AckExactly(h: seq<Turn>, relay: bool, turn: Turn, x: Register.AckPeer)
    requires Monotone(h + [turn]) && turn.event.Registers?
    ensures var self, topics := turn.event.self, turn.event.topics;
      var p := Peer(x.ip, x.port);
      x in AckPeers(Run(h + [turn], relay), self, topics) <==>
      && x.topic in topics && p != self
      && ToldWithin(h, Registered((x.topic, p)), turn.pruned)
      && Latest(h, LanOf(p)) == Some(Told(Address(Peer(x.lanIp, x.lanPort)), 0.0))
  {
    hide Pruned, AckPeers, PeersFor, Latest, Monotone;
    var self, topics, p := turn.event.self, turn.event.topics, Peer(x.ip, x.port);
    var tb := Run(h + [turn], relay);
    AckPeersHas(tb, self, topics, x);
    PeersForHas(tb, self, x.topic, x);
    if p != self {
      OthersUnchanged(h, relay, turn, x.topic, p);
    }
  }

  lemma MonotoneFront(h: seq<Turn>, turn: Turn)
    requires Monotone(h + [turn])
    ensures Monotone(h) && (h != [] ==> h[|h| - 1].stamped <= turn.pruned)
  {
    var all := h + [turn];
    assert forall i :: 0 <= i < |h| ==> all[i] == h[i];
    assert all[|h|] == turn;
  }

  /** A request changes nothing about other peers. */
  lemma OthersUnchanged(h: seq<Turn>, relay: bool, turn: Turn, t: u32, p: Peer)
    requires Monotone(h + [turn]) && turn.event.Registers? && p != turn.event.self
    ensures var tb := Run(h + [turn], relay);
      && (p in PeersAt(tb.table, t) <==> ToldWithin(h, Registered((t, p)), turn.pruned))
      && (p in PeersAt(tb.table, t) ==> p in tb.lanOf)
      && (p in tb.lanOf ==> Latest(h, LanOf(p)) == Some(Told(Address(tb.lanOf[p]), 0.0)))
      && (Latest(h, LanOf(p)).Some? ==> p in tb.lanOf)
  {
    hide Monotone, ToldWithin, Handled, Pruned, Latest;
    MonotoneFront(h, turn);
    var all := h + [turn];
    assert all[..|h|] == h;
    var pruned := Pruned(Run(h, relay), turn.pruned, relay);
    var tb := Run(all, relay);
    AlwaysConsistent(all, relay);
    TablesFollowHistory(h, relay, Registered((t, p)), turn.pruned);
    LatestIsLatest(h, Registered((t, p)), turn.pruned);
    TablesFollowHistory(h, relay, LanOf(p), turn.pruned);
    HandledHolds(pruned, turn.event, turn.stamped, Registered((t, p)));
    HandledHolds(pruned, turn.event, turn.stamped, LanOf(p));
  }

  /** Two nodes that register for a topic learn each other in either start order: the later one at once, the earlier
      one with its next request, each as soon as the other's registration is within the time to live. */
  lemma MutualDiscovery(h: seq<Turn>, relay: bool, t: u32, a: Peer, b: Peer, i: nat, j: nat, k: nat)
    requires Monotone(h) && a != b && i < j < k < |h|
    requires Tells(h[i].event, Registered((t, a))).Some? && Tells(h[j].event, Registered((t, b))).Some?
    requires Tells(h[k].event, Registered((t, a))).Some?
    ensures Recent(h[i].stamped, h[j].pruned, REGISTRATION_TTL) ==> Lists(h, relay, j, t, a)
    ensures Recent(h[j].stamped, h[k].pruned, REGISTRATION_TTL) ==> Lists(h, relay, k, t, b)
  {
    ListsExactly(h, relay, j, t, a);
    ListsExactly(h, relay, k, t, b);
  }

  /** The acknowledgement of turn `j` lists peer `p` for topic `t`. */
  ghost predicate Lists(h: seq<Turn>, relay: bool, j: nat, t: u32, p: Peer)
    requires j < |h| && h[j].event.Registers?
  {
    exists x :: x in AckPeers(Run(h[..j + 1], relay), h[j].event.self, h[j].event.topics) &&
                x.topic == t && Peer(x.ip, x.port) == p
  }

  lemma ListsExactly(h: seq<Turn>, relay: bool, j: nat, t: u32, p: Peer)
    requires Monotone(h) && j < |h| && h[j].event.Registers? && t in h[j].event.topics && p != h[j].event.self
    ensures Lists(h, relay, j, t, p) <==>
            exists i :: 0 <= i < j && Tells(h[i].event, Registered((t, p))).Some? &&
                        Recent(h[i].stamped, h[j].pruned, REGISTRATION_TTL)
  {
    hide Tells, Latest, AckPeers, Run;
    var before, turn := h[..j], h[j];
    assert h[..j + 1] == before + [turn];
    var tb, q := Run(before + [turn], relay), Registered((t, p));
    OthersUnchanged(before, relay, turn, t, p);
    assert ToldWithin(before, q, turn.pruned) <==>
           exists i :: 0 <= i < j && Tells(h[i].event, q).Some? &&
                       Recent(h[i].stamped, turn.pruned, REGISTRATION_TTL) by {
      assert forall i :: 0 <= i < j ==> before[i] == h[i];
    }
    var x := AckPeerFor(tb, t, p);
    AckPeersHas(tb, turn.event.self, turn.event.topics, x);
    PeersForHas(tb, turn.event.self, t, x);
    if Lists(h, relay, j, t, p) {
      var y :| y in AckPeers(tb, turn.event.self, turn.event.topics) && y.topic == t && Peer(y.ip, y.port) == p;
      AckPeersHas(tb, turn.event.self, turn.event.topics, y);
      PeersForHas(tb, turn.event.self, t, y);
    }
  }

  /** The merged relay forwards a frame to exactly the other addresses that joined its topic within 30 seconds. */
  lemma ForwardsExactly(h: seq<Turn>, from: Peer, t: u32, p: Peer, now: real)
    requires Monotone(h) && (h != [] ==> h[|h| - 1].stamped <= now)
    ensures p in Destinations(Pruned(Run(h, true), now, true), from, t) <==>
            p != from && ToldWithin(h, Joined((t, p)), now)
  {
    hide Pruned, Run, ToldWithin, Latest;
    var tb := Pruned(Run(h, true), now, true);
    TablesFollowHistory(h, true, Joined((t, p)), now);
    LatestIsLatest(h, Joined((t, p)), now);
    AscendingHasAll(MembersAt(tb.relayGroups, t).Keys - {from}, PeerRank, p);
  }

  /** And to each of them once. */
  lemma ForwardsOnce(tb: Tables, from: Peer, t: u32, i: nat, j: nat)
    requires i < j < |Destinations(tb, from, t)|
    ensures Destinations(tb, from, t)[i] != Destinations(tb, from, t)[j]
  {
    RanksOrder();
    AscendingIsSorted(MembersAt(tb.relayGroups, t).Keys - {from}, PeerRank, i, j);
  }

  lemma TopicLive(h: seq<Turn>, relay: bool, now: real, t: u32)
    requires Monotone(h) && (h != [] ==> h[|h| - 1].stamped <= now)
    ensures t in Pruned(Run(h, relay), now, relay).table <==> exists p :: ToldWithin(h, Registered((t, p)), now)
  {
    hide Run, Pruned, ToldWithin, Monotone;
    var tb := Pruned(Run(h, relay), now, relay);
    AlwaysConsistent(h, relay);
    PrunedConsistent(Run(h, relay), now, relay);
    if t in tb.table {
      var p :| p in tb.table[t];
      RegisteredExactly(h, relay, t, p, now);
    }
    if p :| ToldWithin(h, Registered((t, p)), now) {
      RegisteredExactly(h, relay, t, p, now);
    }
  }

  /** The latest name announced for a topic, or the empty one. */
  function LatestName(h: seq<Turn>, t: u32): Bytes
  {
    var latest := Latest(h, NameOf(t));
    if latest.Some? && latest.value.value.Text? then latest.value.value.name else []
  }

  lemma NameHeld(h: seq<Turn>, relay: bool, now: real, t: u32)
    requires Monotone(h) && (h != [] ==> h[|h| - 1].stamped <= now)
    ensures NameFor(Pruned(Run(h, relay), now, relay), t) == LatestName(h, t)
  {
    hide Run, Pruned, Latest;
    TablesFollowHistory(h, relay, NameOf(t), now);
  }

  /** A name query is answered with exactly the topics that have a live registrant, in ascending order and so once
      each, with the latest name announced for each or an empty one. */
  lemma NamesExactly(h: seq<Turn>, relay: bool, now: real, t: u32, name: Bytes)
    requires Monotone(h) && (h != [] ==> h[|h| - 1].stamped <= now)
    ensures Directory.Name(t, name) in NameEntries(Pruned(Run(h, relay), now, relay)) <==>
            name == LatestName(h, t) && exists p :: ToldWithin(h, Registered((t, p)), now)
  {
    hide Run, Pruned, ToldWithin, Monotone, LatestName, NameEntries;
    TopicLive(h, relay, now, t);
    NameHeld(h, relay, now, t);
    NameEntriesHas(Pruned(Run(h, relay), now, relay), t, name);
  }

  lemma NameEntriesHas(tb: Tables, t: u32, name: Bytes)
    ensures Directory.Name(t, name) in NameEntries(tb) <==> t in tb.table && name == NameFor(tb, t)
  {
    var topics, entries := Ascending(tb.table.Keys, TopicRank), NameEntries(tb);
    AscendingHasAll(tb.table.Keys, TopicRank, t);
    if t in tb.table && name == NameFor(tb, t) {
      var i :| 0 <= i < |topics| && topics[i] == t;
      assert entries[i] == Directory.Name(t, name);
    }
    if Directory.Name(t, name) in entries {
      var i :| 0 <= i < |entries| && entries[i] == Directory.Name(t, name);
      assert topics[i] == t;
    }
  }

  lemma NamesSorted(tb: Tables, i: nat, j: nat)
    requires i < j < |tb.table|
    ensures NameEntries(tb)[i].topic < NameEntries(tb)[j].topic
  {
    RanksOrder();
    AscendingIsSorted(tb.table.Keys, TopicRank, i, j);
  }

  lemma RoleEntriesHas(tb: Tables, k: Key, role: byte)
    ensures Directory.Peer(k.0, role, k.1.ip, k.1.port) in RoleEntries(tb) <==>
            k in tb.roleTable && role == tb.roleTable[k]
  {
    var keys, entries := Ascending(tb.roleTable.Keys, KeyRank), RoleEntries(tb);
    var e := Directory.Peer(k.0, role, k.1.ip, k.1.port);
    AscendingHasAll(tb.roleTable.Keys, KeyRank, k);
    if k in tb.roleTable && role == tb.roleTable[k] {
      var i :| 0 <= i < |keys| && keys[i] == k;
      assert entries[i] == e;
    }
    if e in entries {
      var i :| 0 <= i < |entries| && entries[i] == e;
      assert keys[i] == k;
    }
  }

  /** The rank of a role entry: by topic, then address. */
  function EntryRank(e: Directory.Entry): nat
  {
    if e.Peer? then KeyRank((e.topic, Peer(e.ip, e.port))) else 0
  }

  lemma RolesSorted(tb: Tables, i: nat, j: nat)
    requires i < j < |tb.roleTable|
    ensures EntryRank(RoleEntries(tb)[i]) < EntryRank(RoleEntries(tb)[j])
  {
    hide KeyRank;
    RanksOrder();
    AscendingIsSorted(tb.roleTable.Keys, KeyRank, i, j);
  }

  /** A role query is answered with exactly the roles announced within the time to live, each with its last value. */
  lemma RolesExactly(h: seq<Turn>, relay: bool, now: real, k: Key, role: byte)
    requires Monotone(h) && (h != [] ==> h[|h| - 1].stamped <= now)
    ensures Directory.Peer(k.0, role, k.1.ip, k.1.port) in RoleEntries(Pruned(Run(h, relay), now, relay)) <==>
            && ToldWithin(h, RoleOf(k), now)
            && Latest(h, RoleOf(k)).Some? && Latest(h, RoleOf(k)).value.value == Role(role)
  {
    hide Run, Pruned, ToldWithin, Monotone, RoleEntries, Latest;
    RoleExactly(h, relay, k, now);
    RoleEntriesHas(Pruned(Run(h, relay), now, relay), k, role);
  }
}
