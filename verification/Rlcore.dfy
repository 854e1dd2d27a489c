/** The rlcore daemon's main loop: prune, sort the datagram, update the tables, answer. */
module Rlcore {
  import opened Options
  import opened Wire
  import opened Order
  import opened Registry
  import opened Dispatch
  import Directory
  import Register
  import RelayWire
  import Frame
  import Aes
  import Gcm

  // ----- Answers -----

  /** Names on record are short enough to be sent. */
  ghost predicate ShortNames(topicNames: map<u32, Bytes>)
  {
    forall t :: t in topicNames ==> |topicNames[t]| <= Directory.MAX_NAME
  }

  /** The list as encoded: its length is narrowed to sixteen bits before it is checked. */
  function Narrowed(peers: seq<Register.AckPeer>): (listed: seq<Register.AckPeer>)
    ensures |listed| < 0x1_0000 && listed <= peers
  {
    peers[..|peers| % 0x1_0000]
  }

  /** A reply as it leaves: as it is, or sealed when a key is set and the result fits a datagram. */
  function Wrapped(key: Option<Aes.Key>, nonce: Gcm.Nonce, plain: Bytes): Option<Bytes>
  {
    if key.None? then Some(plain)
    else if Gcm.NONCE_BYTES + |plain| + Gcm.TAG_BYTES > MAX_DATAGRAM then None
    else Some(FromBits(Gcm.Seal(Aes.KeySchedule(key.value), nonce, ToBits(plain))))
  }

  function AckFor(key: Option<Aes.Key>, nonce: Gcm.Nonce, peers: seq<Register.AckPeer>): Option<Bytes>
  {
    var listed := Narrowed(peers);
    if Register.ACK_HEADER_BYTES + |listed| * Register.PEER_BYTES > MAX_DATAGRAM then None
    else Wrapped(key, nonce, Register.AckBytes(Register.Ack(0, listed)))
  }

  /** What a client holding the key reads from an acknowledgement. */
  function AckRead(key: Option<Aes.Key>, wire: Bytes): Option<Register.Ack>
  {
    var plain := Opened(Config(false, false, key), wire);
    if plain.None? then None else Register.DecodedAck(plain.value)
  }

  function MaxAckPeers(key: Option<Aes.Key>): nat
  {
    if key.None? then 4094 else 4092
  }

  lemma AckLength(peers: seq<Register.AckPeer>)
    requires |peers| < 0x1_0000
    ensures |Register.AckBytes(Register.Ack(0, peers))| == 3 + 16 * |peers|
  {
    Register.PeerRecordIsCodec();
    Register.JoinedLength(Register.PeerRecord, peers, Register.PEER_BYTES);
  }

  lemma WrappedOpens(key: Option<Aes.Key>, nonce: Gcm.Nonce, plain: Bytes)
    ensures var sent := Wrapped(key, nonce, plain);
      && (sent.Some? <==> key.None? || 28 + |plain| <= MAX_DATAGRAM)
      && (sent.Some? ==> Opened(Config(false, false, key), sent.value) == Some(plain))
  {
    hide Gcm.Open, Gcm.Seal, Aes.KeySchedule, ToBits, FromBits;
    if key.Some? {
      var w := Aes.KeySchedule(key.value);
      Gcm.OpenSealed(w, nonce, ToBits(plain));
      BitsRoundTripBack(Gcm.Seal(w, nonce, ToBits(plain)));
      BitsRoundTrip(plain);
    }
  }

  /** A client learns the whole list exactly when it has at most 4094 entries, or 4092 when sealed. Beyond that nothing
      is sent, or, past 65535, possibly only the front of it. */
  lemma AckComplete(key: Option<Aes.Key>, nonce: Gcm.Nonce, peers: seq<Register.AckPeer>)
    ensures var sent := AckFor(key, nonce, peers);
      (sent.Some? && AckRead(key, sent.value) == Some(Register.Ack(0, peers))) <==> |peers| <= MaxAckPeers(key)
  {
    hide Register.AckBytes, Register.DecodedAck, Wrapped, Opened;
    var listed := Narrowed(peers);
    var plain := Register.AckBytes(Register.Ack(0, listed));
    AckLength(listed);
    WrappedOpens(key, nonce, plain);
    Register.DecodesAck(Register.Ack(0, listed));
    assert |peers| < 0x1_0000 ==> listed == peers;
  }

  // ----- The tables, part pruned -----

  /** Topics still in `todo` are as in `tb`, the rest are pruned. */
  function PartTable(tb: Tables, now: real, todo: set<u32>): map<u32, set<Peer>>
  {
    map t | t in tb.table && (t in todo || LivePeers(tb, t, now) != {}) ::
      if t in todo then tb.table[t] else LivePeers(tb, t, now)
  }

  function PartSeen(tb: Tables, now: real, todo: set<u32>): map<Key, real>
  {
    map k: Key | k in tb.lastSeen && (k.0 in todo || Recent(tb.lastSeen[k], now, REGISTRATION_TTL)) :: tb.lastSeen[k]
  }

  function PartPruned(tb: Tables, now: real, todo: set<u32>): Tables
  {
    tb.(table := PartTable(tb, now, todo), lastSeen := PartSeen(tb, now, todo))
  }

  lemma PartTableStep(tb: Tables, now: real, todo: set<u32>, t: u32)
    requires t in todo && t in tb.table
    ensures var live := LivePeers(tb, t, now);
      PartTable(tb, now, todo - {t}) ==
      if live == {} then PartTable(tb, now, todo) - {t} else PartTable(tb, now, todo)[t := live]
  {}

  lemma PartTableEnds(tb: Tables, now: real)
    requires Consistent(tb)
    ensures PartTable(tb, now, tb.table.Keys) == tb.table && PartTable(tb, now, {}) == PrunedTable(tb, now)
    ensures PartSeen(tb, now, tb.table.Keys) == tb.lastSeen
    ensures PartSeen(tb, now, {}) == Kept(tb.lastSeen, now, REGISTRATION_TTL)
  {
    hide LivePeers;
    forall k: Key | k in tb.lastSeen
      ensures k.0 in tb.table
    {
      assert k == (k.0, k.1);
      assert k.1 in PeersAt(tb.table, k.0);
    }
  }

  /** `seen` without the stale pairs of topic `t` and peers `among`. */
  function WithoutStale(seen: map<Key, real>, among: set<Peer>, t: u32, now: real): map<Key, real>
  {
    map k: Key | k in seen && !(k.0 == t && k.1 in among && !Recent(seen[k], now, REGISTRATION_TTL)) :: seen[k]
  }

  /** Pruning one topic's peers moves the times one topic on. */
  lemma PartSeenStep(tb: Tables, now: real, todo: set<u32>, t: u32)
    requires Consistent(tb) && t in tb.table && t in todo
    ensures WithoutStale(PartSeen(tb, now, todo), tb.table[t], t, now) == PartSeen(tb, now, todo - {t})
  {
    AllRegistered(tb, t);
    hide Consistent;
  }

  lemma PartPeers(tb: Tables, now: real, todo: set<u32>, t: u32)
    requires t in tb.table && t in todo
    ensures t in PartTable(tb, now, todo) && PartTable(tb, now, todo)[t] == tb.table[t]
    ensures LivePeers(PartPruned(tb, now, todo), t, now) == LivePeers(tb, t, now)
  {}

  function PartGroups(groups: map<u32, map<Peer, real>>, now: real, todo: set<u32>): map<u32, map<Peer, real>>
  {
    map t | t in groups && (t in todo || Kept(groups[t], now, RELAY_TTL) != map[]) ::
      if t in todo then groups[t] else Kept(groups[t], now, RELAY_TTL)
  }

  lemma PartGroupsStep(groups: map<u32, map<Peer, real>>, now: real, todo: set<u32>, t: u32)
    requires t in todo && t in groups
    ensures t in PartGroups(groups, now, todo) && PartGroups(groups, now, todo)[t] == groups[t]
    ensures var kept := Kept(groups[t], now, RELAY_TTL);
      PartGroups(groups, now, todo - {t}) ==
      if kept == map[] then PartGroups(groups, now, todo) - {t} else PartGroups(groups, now, todo)[t := kept]
  {
    hide Kept;
  }

  lemma PartGroupsEnds(groups: map<u32, map<Peer, real>>, now: real)
    ensures PartGroups(groups, now, groups.Keys) == groups && PartGroups(groups, now, {}) == PrunedGroups(groups, now)
  {}

  class Daemon {
    const cfg: Config
    var table: map<u32, set<Peer>>
    var lanOf: map<Peer, Peer>
    var lastSeen: map<Key, real>
    var roleTable: map<Key, byte>
    var roleLastSeen: map<Key, real>
    var relayGroups: map<u32, map<Peer, real>>
    var topicNames: map<u32, Bytes>

    ghost function View(): Tables
      reads this
    {
      Tables(table, lanOf, lastSeen, roleTable, roleLastSeen, relayGroups, topicNames)
    }

    ghost predicate Valid()
      reads this
    {
      Consistent(View()) && ShortNames(topicNames)
    }

    constructor (cfg: Config)
      ensures this.cfg == cfg && View() == EMPTY && Valid()
    {
      this.cfg := cfg;
      table, lanOf, lastSeen, roleTable, roleLastSeen := map[], map[], map[], map[], map[];
      relayGroups, topicNames := map[], map[];
    }

    // ----- Pruning -----

    /** Drops a topic's stale peers, and their times. */
    method PrunePeers(t: u32, now: real) returns (peers: set<Peer>)
      requires t in table
      modifies this`lastSeen
      ensures peers == LivePeers(old(View()), t, now)
      ensures lastSeen == WithoutStale(old(lastSeen), table[t], t, now)
    {
      peers := table[t];
      var todo := peers;
      while todo != {}
        invariant todo <= peers <= table[t]
        invariant forall p :: p in table[t] && p !in todo ==> (p in peers <==> p in LivePeers(old(View()), t, now))
        invariant lastSeen == WithoutStale(old(lastSeen), table[t] - todo, t, now)
        decreases |todo|
      {
        var p :| p in todo;
        if (t, p) !in lastSeen || now - lastSeen[(t, p)] > REGISTRATION_TTL {
          lastSeen := lastSeen - {(t, p)};
          peers := peers - {p};
        }
        todo := todo - {p};
      }
    }

    /** Prunes one more topic. */
    method PruneTopic(t: u32, now: real, ghost tb: Tables, ghost todo: set<u32>)
      requires Consistent(tb) && t in tb.table && t in todo
      requires View() == PartPruned(tb, now, todo)
      modifies this`table, this`lastSeen
      ensures View() == PartPruned(tb, now, todo - {t})
    {
      hide LivePeers, PartTable, PartSeen, Consistent, WithoutStale;
      PartPeers(tb, now, todo, t);
      var peers := PrunePeers(t, now);
      PartSeenStep(tb, now, todo, t);
      PartTableStep(tb, now, todo, t);
      if peers == {} {
        table := table - {t};
      } else {
        table := table[t := peers];
      }
    }

    method PruneTable(now: real)
      requires Consistent(View())
      modifies this`table, this`lastSeen
      ensures table == PrunedTable(old(View()), now)
      ensures lastSeen == Kept(old(lastSeen), now, REGISTRATION_TTL)
    {
      hide LivePeers, PartTable, PartSeen, PrunedTable, Kept, Consistent;
      ghost var tb := View();
      var todo := table.Keys;
      PartTableEnds(tb, now);
      while todo != {}
        invariant todo <= tb.table.Keys && View() == PartPruned(tb, now, todo)
        decreases |todo|
      {
        var t :| t in todo;
        PruneTopic(t, now, tb, todo);
        todo := todo - {t};
      }
    }

    method PruneRoles(now: real)
      modifies this`roleTable, this`roleLastSeen
      ensures roleLastSeen == Kept(old(roleLastSeen), now, REGISTRATION_TTL)
      ensures old(roleTable.Keys == roleLastSeen.Keys) ==>
                roleTable == map k | k in old(roleTable) && k in roleLastSeen :: old(roleTable)[k]
    {
      var todo := roleLastSeen.Keys;
      while todo != {}
        invariant todo <= roleLastSeen.Keys
        invariant forall k :: k in roleLastSeen <==>
          k in old(roleLastSeen) && (k in todo || Recent(old(roleLastSeen)[k], now, REGISTRATION_TTL))
        invariant forall k :: k in roleLastSeen ==> roleLastSeen[k] == old(roleLastSeen)[k]
        invariant forall k :: k in roleTable <==>
          k in old(roleTable) && (k in roleLastSeen || k !in old(roleLastSeen))
        invariant forall k :: k in roleTable ==> roleTable[k] == old(roleTable)[k]
        decreases |todo|
      {
        var k :| k in todo;
        if now - roleLastSeen[k] > REGISTRATION_TTL {
          roleTable := roleTable - {k};
          roleLastSeen := roleLastSeen - {k};
        }
        todo := todo - {k};
      }
    }

    method PruneMembers(members: map<Peer, real>, now: real) returns (kept: map<Peer, real>)
      ensures kept == Kept(members, now, RELAY_TTL)
    {
      kept := members;
      var todo := members.Keys;
      while todo != {}
        invariant todo <= kept.Keys
        invariant forall p :: p in kept <==> p in members && (p in todo || Recent(members[p], now, RELAY_TTL))
        invariant forall p :: p in kept ==> kept[p] == members[p]
        decreases |todo|
      {
        var p :| p in todo;
        if now - kept[p] > RELAY_TTL {
          kept := kept - {p};
        }
        todo := todo - {p};
      }
    }

    method PruneGroups(now: real)
      modifies this`relayGroups
      ensures relayGroups == PrunedGroups(old(relayGroups), now)
    {
      ghost var groups := relayGroups;
      var todo := relayGroups.Keys;
      PartGroupsEnds(groups, now);
      hide Kept, PartGroups, PrunedGroups;
      while todo != {}
        invariant todo <= groups.Keys && relayGroups == PartGroups(groups, now, todo)
        decreases |todo|
      {
        var t :| t in todo;
        PartGroupsStep(groups, now, todo, t);
        var members := PruneMembers(relayGroups[t], now);
        if members == map[] {
          relayGroups := relayGroups - {t};
        } else {
          relayGroups := relayGroups[t := members];
        }
        todo := todo - {t};
      }
    }

    method PruneStale(now: real)
      requires Valid()
      modifies this
      ensures View() == Pruned(old(View()), now, cfg.relay) && Valid()
    {
      hide PrunedTable, PrunedGroups, Kept, Consistent;
      PrunedConsistent(View(), now, cfg.relay);
      SameKeys(View());
      PruneTable(now);
      PruneRoles(now);
      if cfg.relay {
        PruneGroups(now);
      }
    }

    // ----- Updates -----

    method AddTopics(self: Peer, topics: seq<u32>, now: real)
      modifies this`table, this`lastSeen
      ensures View() == WithTopics(old(View()), self, topics, now)
    {
      for i := 0 to |topics|
        invariant View() == WithTopics(old(View()), self, topics[..i], now)
      {
        var t := topics[i];
        assert topics[..i + 1][..i] == topics[..i];
        table := table[t := PeersAt(table, t) + {self}];
        lastSeen := lastSeen[(t, self) := now];
      }
      assert topics[..|topics|] == topics;
    }

    method AddNames(names: seq<(u32, Bytes)>)
      modifies this`topicNames
      ensures topicNames == WithNames(old(topicNames), names)
    {
      for i := 0 to |names|
        invariant topicNames == WithNames(old(topicNames), names[..i])
      {
        assert names[..i + 1][..i] == names[..i];
        topicNames := topicNames[names[i].0 := names[i].1];
      }
      assert names[..|names|] == names;
    }

    method AddRoles(from: Peer, roles: seq<(u32, byte)>, now: real)
      modifies this`roleTable, this`roleLastSeen
      ensures View() == WithRoles(old(View()), from, roles, now)
    {
      for i := 0 to |roles|
        invariant View() == WithRoles(old(View()), from, roles[..i], now)
      {
        var key := (roles[i].0, from);
        assert roles[..i + 1][..i] == roles[..i];
        roleTable := roleTable[key := roles[i].1];
        roleLastSeen := roleLastSeen[key := now];
      }
      assert roles[..|roles|] == roles;
    }

    // ----- Answers -----

    method ListPeers(self: Peer, t: u32) returns (list: seq<Register.AckPeer>)
      ensures list == PeersFor(View(), self, t)
    {
      hide IsOrder, TopicRank, PeerRank, KeyRank, Ascending;
      RanksOrder();
      var peers := Visit(PeersAt(table, t) - {self}, PeerRank);
      list := [];
      for i := 0 to |peers|
        invariant |list| == i
        invariant forall j :: 0 <= j < i ==> list[j] == AckPeerFor(View(), t, peers[j])
      {
        var lan := if peers[i] in lanOf then lanOf[peers[i]] else Peer(0, 0);
        list := list + [Register.AckPeer(peers[i].ip, peers[i].port, t, lan.ip, lan.port)];
      }
    }

    method ListAll(self: Peer, topics: seq<u32>) returns (list: seq<Register.AckPeer>)
      ensures list == AckPeers(View(), self, topics)
    {
      list := [];
      for i := 0 to |topics|
        invariant list == AckPeers(View(), self, topics[..i])
      {
        assert topics[..i + 1][..i] == topics[..i];
        var peers := ListPeers(self, topics[i]);
        list := list + peers;
      }
      assert topics[..|topics|] == topics;
    }

    method Acknowledge(self: Peer, topics: seq<u32>, nonce: Gcm.Nonce) returns (wire: Option<Bytes>)
      ensures wire == AckFor(cfg.key, nonce, AckPeers(View(), self, topics))
    {
      hide AckPeers, Register.AckBytes, Gcm.Seal, Aes.KeySchedule, ToBits, FromBits;
      var peers := ListAll(self, topics);
      var buffer := new byte[MAX_DATAGRAM];
      var ok, len := Register.EncodeAck(0, peers, |peers| % 0x1_0000, buffer);
      if !ok {
        return None;
      }
      var plain := buffer[..len];
      if cfg.key.None? {
        return Some(plain);
      }
      var out := new bv8[MAX_DATAGRAM];
      var fits, sealedLen := Gcm.SealInto(cfg.key.value, nonce, ToBits(plain), out);
      return if fits then Some(FromBits(out[..sealedLen])) else None;
    }

    method ListNames() returns (entries: seq<Directory.Entry>)
      ensures entries == NameEntries(View())
    {
      hide IsOrder, TopicRank, PeerRank, KeyRank, Ascending;
      RanksOrder();
      var topics := Visit(table.Keys, TopicRank);
      entries := [];
      for i := 0 to |topics|
        invariant |entries| == i
        invariant forall j :: 0 <= j < i ==> entries[j] == NameEntry(View(), topics[j])
      {
        entries := entries + [Directory.Name(topics[i], if topics[i] in topicNames then topicNames[topics[i]] else [])];
      }
    }

    method AnswerNames() returns (packets: seq<Bytes>)
      requires ShortNames(topicNames)
      ensures Directory.Answers(NAME_REPLY, Directory.Names, NameEntries(View()), packets)
    {
      hide NameEntries, ShortNames, Directory.Answers, Directory.AllSendable;
      var entries := ListNames();
      NamesSendable(View());
      packets := Directory.Reply(NAME_REPLY, Directory.Names, entries);
    }

    method ListRoles() returns (entries: seq<Directory.Entry>)
      ensures entries == RoleEntries(View())
    {
      hide IsOrder, TopicRank, PeerRank, KeyRank, Ascending;
      RanksOrder();
      var keys := Visit(roleTable.Keys, KeyRank);
      entries := [];
      for i := 0 to |keys|
        invariant |entries| == i
        invariant forall j :: 0 <= j < i ==> entries[j] == RoleEntry(View(), keys[j])
      {
        AscendingHasAll(roleTable.Keys, KeyRank, keys[i]);
        entries := entries + [Directory.Peer(keys[i].0, roleTable[keys[i]], keys[i].1.ip, keys[i].1.port)];
      }
    }

    method AnswerRoles() returns (packets: seq<Bytes>)
      ensures Directory.Answers(ROLE_REPLY, Directory.Peers, RoleEntries(View()), packets)
    {
      hide RoleEntries, Directory.Answers, Directory.AllSendable;
      var entries := ListRoles();
      RolesSendable(View());
      packets := Directory.Reply(ROLE_REPLY, Directory.Peers, entries);
    }

    method Forward(from: Peer, t: u32, frame: Bytes) returns (sent: seq<(Peer, Bytes)>)
      ensures sent == Copies(frame, Destinations(View(), from, t))
    {
      hide IsOrder, TopicRank, PeerRank, KeyRank, Ascending;
      RanksOrder();
      var members := Visit(MembersAt(relayGroups, t).Keys - {from}, PeerRank);
      sent := [];
      for i := 0 to |members|
        invariant |sent| == i && forall j :: 0 <= j < i ==> sent[j] == (members[j], frame)
      {
        sent := sent + [(members[i], frame)];
      }
    }

    /** One turn of the main loop, for a datagram received from `src`; a quiet second is the empty datagram. */
    method Receive(datagram: Bytes, src: Peer, pruned: real, stamped: real, nonce: Gcm.Nonce)
      returns (sent: seq<(Peer, Bytes)>)
      requires Valid()
      modifies this
      ensures Valid()
      ensures View() == After(old(View()), Turn(pruned, stamped, Classified(cfg, datagram, src)), cfg.relay)
      ensures Sent(cfg, View(), Classified(cfg, datagram, src), datagram, src, nonce, sent)
    {
      hide Pruned, Consistent, Classified, AckFor, AckPeers, NameEntries, RoleEntries, Destinations, Directory.Answers;
      PruneStale(pruned);
      var event := Classified(cfg, datagram, src);
      HandledConsistent(View(), event, stamped);
      ShortClassified(cfg, datagram, src, topicNames);
      sent := [];
      match event {
        case Registers(self, lan, topics) =>
          lanOf := lanOf[self := lan];
          ShortUnchanged(View(), self, topics, stamped);
          AddTopics(self, topics, stamped);
          var wire := Acknowledge(self, topics, nonce);
          if wire.Some? {
            sent := [(src, wire.value)];
          }
        case Names(names) =>
          AddNames(names);
        case NameQuery =>
          var packets := AnswerNames();
          sent := To(src, packets);
        case Roles(from, roles) =>
          ShortUnchangedByRoles(View(), from, roles, stamped);
          AddRoles(from, roles, stamped);
        case RoleQuery =>
          var packets := AnswerRoles();
          sent := To(src, packets);
        case Joins(from, t) =>
          relayGroups := relayGroups[t := MembersAt(relayGroups, t)[from := stamped]];
        case Forwards(from, t) =>
          sent := Forward(from, t, datagram);
        case Nothing =>
      }
    }
  }

  function To(dst: Peer, packets: seq<Bytes>): (sent: seq<(Peer, Bytes)>)
    ensures |sent| == |packets|
  {
    seq(|packets|, i requires 0 <= i < |packets| => (dst, packets[i]))
  }

  function Copies(frame: Bytes, members: seq<Peer>): seq<(Peer, Bytes)>
  {
    seq(|members|, i requires 0 <= i < |members| => (members[i], frame))
  }

  /** What is sent in answer to an event, from the tables it leaves behind. */
  ghost predicate Sent(cfg: Config, tb: Tables, event: Event, datagram: Bytes, src: Peer, nonce: Gcm.Nonce,
                       sent: seq<(Peer, Bytes)>)
  {
    match event
    case NameQuery =>
      exists packets :: sent == To(src, packets) &&
                        Directory.Answers(NAME_REPLY, Directory.Names, NameEntries(tb), packets)
    case RoleQuery =>
      exists packets :: sent == To(src, packets) &&
                        Directory.Answers(ROLE_REPLY, Directory.Peers, RoleEntries(tb), packets)
    case Registers(self, _, topics) =>
      var wire := AckFor(cfg.key, nonce, AckPeers(tb, self, topics));
      sent == if wire.Some? then [(src, wire.value)] else []
    case Forwards(from, t) => sent == Copies(datagram, Destinations(tb, from, t))
    case _ => sent == []
  }

  lemma NamesSendable(tb: Tables)
    requires ShortNames(tb.topicNames)
    ensures Directory.AllSendable(Directory.Names, NameEntries(tb))
  {}

  lemma RolesSendable(tb: Tables)
    ensures Directory.AllSendable(Directory.Peers, RoleEntries(tb))
  {}

  lemma {:induction false} ShortWithNames(topicNames: map<u32, Bytes>, names: seq<(u32, Bytes)>)
    requires ShortNames(topicNames) && forall i :: 0 <= i < |names| ==> |names[i].1| <= Directory.MAX_NAME
    ensures ShortNames(WithNames(topicNames, names))
    decreases |names|
  {
    if names != [] {
      ShortWithNames(topicNames, names[..|names| - 1]);
    }
  }

  /** Names that arrive are short: their length is one byte on the wire. */
  lemma ShortClassified(cfg: Config, datagram: Bytes, from: Peer, topicNames: map<u32, Bytes>)
    requires ShortNames(topicNames)
    ensures var event := Classified(cfg, datagram, from);
      event.Names? ==> ShortNames(WithNames(topicNames, event.names))
  {
    hide WithNames, Directory.Decoded, Registration, ShortNames;
    var event := Classified(cfg, datagram, from);
    if event.Names? {
      var entries := Directory.Decoded(Directory.Names, datagram).value;
      Directory.DecodesExactly(Directory.Names, datagram, entries);
      assert forall i :: 0 <= i < |entries| ==> Directory.Sendable(Directory.Names, entries[i]);
      ShortWithNames(topicNames, event.names);
    }
  }

  lemma {:induction false} ShortUnchanged(tb: Tables, self: Peer, topics: seq<u32>, now: real)
    ensures WithTopics(tb, self, topics, now).topicNames == tb.topicNames
    decreases |topics|
  {
    if topics != [] {
      ShortUnchanged(tb, self, topics[..|topics| - 1], now);
    }
  }

  lemma {:induction false} ShortUnchangedByRoles(tb: Tables, from: Peer, roles: seq<(u32, byte)>, now: real)
    ensures WithRoles(tb, from, roles, now).topicNames == tb.topicNames
    decreases |roles|
  {
    if roles != [] {
      ShortUnchangedByRoles(tb, from, roles[..|roles| - 1], now);
    }
  }

  lemma AllRegistered(tb: Tables, t: u32)
    requires Consistent(tb) && t in tb.table
    ensures forall k: Key :: k in tb.lastSeen && k.0 == t ==> k.1 in tb.table[t]
  {}

  lemma SameKeys(tb: Tables)
    requires Consistent(tb)
    ensures tb.roleTable.Keys == tb.roleLastSeen.Keys
  {}

  // ----- What a client collects -----

  /** In every reachable state a name query is answered with packets of at most 8192 bytes that all decode and, put
      together in order, list the topics with a live registrant, each once, with its latest name. */
  lemma NameAnswerExact(h: seq<Turn>, relay: bool, now: real, packets: seq<Bytes>)
    requires Monotone(h) && (h != [] ==> h[|h| - 1].stamped <= now)
    requires Directory.Answers(NAME_REPLY, Directory.Names, NameEntries(Pruned(Run(h, relay), now, relay)), packets)
    ensures forall i :: 0 <= i < |packets| ==> |packets[i]| <= Directory.MAX_PACKET && NAME_REPLY <= packets[i]
    ensures var all := Directory.Collected(Directory.Names, packets);
      && all.Some?
      && (forall i, j :: 0 <= i < j < |all.value| ==> all.value[i].topic < all.value[j].topic)
      && forall t, name :: Directory.Name(t, name) in all.value <==>
           name == LatestName(h, t) && exists p :: ToldWithin(h, Registered((t, p)), now)
  {
    hide Run, Pruned, NameEntries, LatestName, ToldWithin, Directory.Answers, Directory.Collected;
    var tb := Pruned(Run(h, relay), now, relay);
    Directory.CollectsAll(NAME_REPLY, Directory.Names, NameEntries(tb), packets);
    forall i, j | 0 <= i < j < |tb.table|
      ensures NameEntries(tb)[i].topic < NameEntries(tb)[j].topic
    {
      NamesSorted(tb, i, j);
    }
    forall t, name
      ensures Directory.Name(t, name) in NameEntries(tb) <==>
              name == LatestName(h, t) && exists p :: ToldWithin(h, Registered((t, p)), now)
    {
      NamesExactly(h, relay, now, t, name);
    }
  }

  /** And a role query with exactly the live roles, by topic and then address, so once each. */
  lemma RoleAnswerExact(h: seq<Turn>, relay: bool, now: real, packets: seq<Bytes>, k: Key, role: byte)
    requires Monotone(h) && (h != [] ==> h[|h| - 1].stamped <= now)
    requires Directory.Answers(ROLE_REPLY, Directory.Peers, RoleEntries(Pruned(Run(h, relay), now, relay)), packets)
    ensures forall i :: 0 <= i < |packets| ==> |packets[i]| <= Directory.MAX_PACKET && ROLE_REPLY <= packets[i]
    ensures var all := Directory.Collected(Directory.Peers, packets);
      && all.Some?
      && (forall i, j :: 0 <= i < j < |all.value| ==> EntryRank(all.value[i]) < EntryRank(all.value[j]))
      && (Directory.Peer(k.0, role, k.1.ip, k.1.port) in all.value <==>
          && ToldWithin(h, RoleOf(k), now)
          && Latest(h, RoleOf(k)).Some? && Latest(h, RoleOf(k)).value.value == Role(role))
  {
    hide Run, Pruned, RoleEntries, Latest, ToldWithin, Directory.Answers, Directory.Collected;
    var tb := Pruned(Run(h, relay), now, relay);
    Directory.CollectsAll(ROLE_REPLY, Directory.Peers, RoleEntries(tb), packets);
    forall i, j | 0 <= i < j < |tb.roleTable|
      ensures EntryRank(RoleEntries(tb)[i]) < EntryRank(RoleEntries(tb)[j])
    {
      RolesSorted(tb, i, j);
    }
    RolesExactly(h, relay, now, k, role);
  }

  // ----- Discovery, datagram to datagram -----

  /** A datagram received, and the two readings of the clock. */
  datatype Input = Input(datagram: Bytes, src: Peer, pruned: real, stamped: real)

  function TurnOf(cfg: Config, x: Input): Turn
  {
    Turn(x.pruned, x.stamped, Classified(cfg, x.datagram, x.src))
  }

  function TurnsOf(cfg: Config, inputs: seq<Input>): (h: seq<Turn>)
    ensures |h| == |inputs|
  {
    seq(|inputs|, i requires 0 <= i < |inputs| => TurnOf(cfg, inputs[i]))
  }

  /** A request as a node holding the daemon's key, if there is one, sends it. */
  function RequestWire(key: Option<Aes.Key>, nonce: Gcm.Nonce, r: Register.Request): Bytes
    requires |r.topics| < 0x1_0000
  {
    if key.None? then Register.RequestBytes(r) else SealedRequest(key.value, nonce, r)
  }

  /** The requests the daemon does not take for something else. */
  predicate Recognisable(cfg: Config, nonce: Gcm.Nonce, r: Register.Request)
  {
    if cfg.key.None? then !SpellsMagic(r.ip) && !(cfg.relay && r.ip % 256 == 0x23 && r.topics != [])
    else !HasMagic(FromBits(nonce[..4])) && !(cfg.relay && nonce[0] == 0x23)
  }

  /** What a node is known by. */
  function Identity(cfg: Config, r: Register.Request, src: Peer): Peer
  {
    if cfg.natMode then src else Peer(r.ip, r.port)
  }

  lemma Recognised(cfg: Config, nonce: Gcm.Nonce, r: Register.Request, src: Peer)
    requires |r.topics| < 0x1_0000
    ensures (Classified(cfg, RequestWire(cfg.key, nonce, r), src) ==
             Registers(Identity(cfg, r, src), Peer(r.ip, r.port), r.topics)) <==> Recognisable(cfg, nonce, r)
  {
    hide Classified, Register.RequestBytes, SealedRequest, HasMagic, SpellsMagic, FromBits;
    if cfg.key.None? {
      PlainRequestRecognised(cfg, r, src);
    } else {
      SealedRequestRecognised(cfg, nonce, r, src);
    }
  }

  /** A request of a node for topic `t` that reaches the registration branch. */
  ghost predicate Asks(cfg: Config, x: Input, nonce: Gcm.Nonce, r: Register.Request, t: u32)
  {
    && |r.topics| < 0x1_0000 && x.datagram == RequestWire(cfg.key, nonce, r) && Recognisable(cfg, nonce, r)
    && t in r.topics
  }

  /** The reply on the wire, read by the client, lists `p` for topic `t`. */
  ghost predicate ReplyLists(key: Option<Aes.Key>, wire: Bytes, t: u32, p: Peer)
  {
    var ack := AckRead(key, wire);
    ack.Some? && exists x :: x in ack.value.peers && x.topic == t && Peer(x.ip, x.port) == p
  }

  /** Datagrams in, datagram out: a node whose request for a topic arrives within the time to live of another's gets
      one reply, and decoded, and opened if sealed, it lists that other node for the topic. */
  lemma DiscoversOverTheWire(cfg: Config, inputs: seq<Input>, i: nat, j: nat, t: u32,
                             ra: Register.Request, na: Gcm.Nonce, rb: Register.Request, nb: Gcm.Nonce,
                             nonce: Gcm.Nonce, sent: seq<(Peer, Bytes)>)
    requires Monotone(TurnsOf(cfg, inputs)) && i < j < |inputs|
    requires Asks(cfg, inputs[i], na, ra, t) && Asks(cfg, inputs[j], nb, rb, t)
    requires Identity(cfg, ra, inputs[i].src) != Identity(cfg, rb, inputs[j].src)
    requires Recent(inputs[i].stamped, inputs[j].pruned, REGISTRATION_TTL)
    requires var tb, x := Run(TurnsOf(cfg, inputs)[..j + 1], cfg.relay), inputs[j];
      && Sent(cfg, tb, Classified(cfg, x.datagram, x.src), x.datagram, x.src, nonce, sent)
      && |AckPeers(tb, Identity(cfg, rb, x.src), rb.topics)| <= MaxAckPeers(cfg.key)
    ensures |sent| == 1 && sent[0].0 == inputs[j].src
    ensures ReplyLists(cfg.key, sent[0].1, t, Identity(cfg, ra, inputs[i].src))
  {
    hide Classified, RequestWire, Recognisable, AckFor, AckRead, AckPeers, Run, Monotone;
    var h, a, b := TurnsOf(cfg, inputs), Identity(cfg, ra, inputs[i].src), Identity(cfg, rb, inputs[j].src);
    Recognised(cfg, na, ra, inputs[i].src);
    Recognised(cfg, nb, rb, inputs[j].src);
    assert Tells(h[i].event, Registered((t, a))).Some? && Recent(h[i].stamped, h[j].pruned, REGISTRATION_TTL);
    ListsExactly(h, cfg.relay, j, t, a);
    var tb := Run(h[..j + 1], cfg.relay);
    AckComplete(cfg.key, nonce, AckPeers(tb, b, rb.topics));
  }

  // ----- Queries and data frames, datagram to datagram -----

  function Payloads(sent: seq<(Peer, Bytes)>): (packets: seq<Bytes>)
    ensures |packets| == |sent|
  {
    seq(|sent|, i requires 0 <= i < |sent| => sent[i].1)
  }

  /** `sent` is what the daemon sends on receiving `x` after `inputs`. */
  ghost predicate Replies(cfg: Config, inputs: seq<Input>, x: Input, nonce: Gcm.Nonce, sent: seq<(Peer, Bytes)>)
  {
    && Monotone(TurnsOf(cfg, inputs + [x]))
    && Sent(cfg, Run(TurnsOf(cfg, inputs + [x]), cfg.relay), Classified(cfg, x.datagram, x.src), x.datagram, x.src,
            nonce, sent)
  }

  /** A packet that changes no table is answered from the tables as pruned on its arrival. */
  lemma AnsweredFrom(cfg: Config, inputs: seq<Input>, x: Input)
    requires Monotone(TurnsOf(cfg, inputs + [x]))
    ensures var h, event := TurnsOf(cfg, inputs), Classified(cfg, x.datagram, x.src);
      && Monotone(h) && (h != [] ==> h[|h| - 1].stamped <= x.pruned)
      && (event.NameQuery? || event.RoleQuery? || event.Forwards? ==>
            Run(TurnsOf(cfg, inputs + [x]), cfg.relay) == Pruned(Run(h, cfg.relay), x.pruned, cfg.relay))
  {
    hide Classified, Pruned, Monotone;
    var h, all := TurnsOf(cfg, inputs), TurnsOf(cfg, inputs + [x]);
    assert all == h + [TurnOf(cfg, x)];
    assert all[..|h|] == h;
    MonotoneFront(h, TurnOf(cfg, x));
  }

  /** An `RLNQ` datagram is answered, to its source, with `RLNR` packets of at most 8192 bytes that all decode and,
      together, list the topics with a live registrant, once each and in order, with their latest names. */
  lemma NameQueryAnswered(cfg: Config, inputs: seq<Input>, x: Input, nonce: Gcm.Nonce, sent: seq<(Peer, Bytes)>)
    requires Replies(cfg, inputs, x, nonce, sent) && [0x52, 0x4C, 0x4E, 0x51] <= x.datagram
    ensures forall i :: 0 <= i < |sent| ==>
              sent[i].0 == x.src && |sent[i].1| <= 8192 && [0x52, 0x4C, 0x4E, 0x52] <= sent[i].1
    ensures var h, all := TurnsOf(cfg, inputs), Directory.Collected(Directory.Names, Payloads(sent));
      && all.Some?
      && (forall i, j :: 0 <= i < j < |all.value| ==> all.value[i].topic < all.value[j].topic)
      && forall t, name :: Directory.Name(t, name) in all.value <==>
           name == LatestName(h, t) && exists p :: ToldWithin(h, Registered((t, p)), x.pruned)
  {
    hide Classified, Run, Pruned, NameEntries, LatestName, ToldWithin, Directory.Answers, Directory.Collected, Monotone;
    NameQueryExactly(cfg, x.datagram, x.src);
    AnsweredFrom(cfg, inputs, x);
    var h := TurnsOf(cfg, inputs);
    var tb := Pruned(Run(h, cfg.relay), x.pruned, cfg.relay);
    var packets :| sent == To(x.src, packets) &&
                   Directory.Answers(NAME_REPLY, Directory.Names, NameEntries(tb), packets);
    assert Payloads(sent) == packets;
    NameAnswerExact(h, cfg.relay, x.pruned, packets);
  }

  /** And an `RLPQ` datagram with `RLPR` packets that together list the live roles, once each and in order. */
  lemma RoleQueryAnswered(cfg: Config, inputs: seq<Input>, x: Input, nonce: Gcm.Nonce, sent: seq<(Peer, Bytes)>,
                          k: Key, role: byte)
    requires Replies(cfg, inputs, x, nonce, sent) && [0x52, 0x4C, 0x50, 0x51] <= x.datagram
    ensures forall i :: 0 <= i < |sent| ==>
              sent[i].0 == x.src && |sent[i].1| <= 8192 && [0x52, 0x4C, 0x50, 0x52] <= sent[i].1
    ensures var h, all := TurnsOf(cfg, inputs), Directory.Collected(Directory.Peers, Payloads(sent));
      && all.Some?
      && (forall i, j :: 0 <= i < j < |all.value| ==> EntryRank(all.value[i]) < EntryRank(all.value[j]))
      && (Directory.Peer(k.0, role, k.1.ip, k.1.port) in all.value <==>
          && ToldWithin(h, RoleOf(k), x.pruned)
          && Latest(h, RoleOf(k)).Some? && Latest(h, RoleOf(k)).value.value == Role(role))
  {
    hide Classified, Run, Pruned, RoleEntries, Latest, ToldWithin, Directory.Answers, Directory.Collected, Monotone,
      EntryRank;
    RoleQueryExactly(cfg, x.datagram, x.src);
    AnsweredFrom(cfg, inputs, x);
    var h := TurnsOf(cfg, inputs);
    var tb := Pruned(Run(h, cfg.relay), x.pruned, cfg.relay);
    var packets :| sent == To(x.src, packets) &&
                   Directory.Answers(ROLE_REPLY, Directory.Peers, RoleEntries(tb), packets);
    assert Payloads(sent) == packets;
    RoleAnswerExact(h, cfg.relay, x.pruned, packets, k, role);
  }

  /** A data frame at a relaying daemon goes on, byte for byte, to exactly the other addresses whose join for its topic
      arrived within 30 seconds. */
  lemma FrameForwarded(cfg: Config, inputs: seq<Input>, x: Input, nonce: Gcm.Nonce, sent: seq<(Peer, Bytes)>,
                       topic: u32, seqNum: u16, payload: Bytes, p: Peer, b: Bytes)
    requires Replies(cfg, inputs, x, nonce, sent) && cfg.relay && |payload| < 0x1_0000
    requires x.datagram == Frame.Encoded(topic, seqNum, payload)
    ensures (p, b) in sent <==>
            && b == x.datagram && p != x.src
            && exists i :: 0 <= i < |inputs| && JoinedAt(inputs[i], p, topic, x.pruned)
  {
    hide Classified, Run, Pruned, Frame.Encoded, Monotone, Destinations;
    FramesForwarded(cfg, topic, seqNum, payload, x.src);
    AnsweredFrom(cfg, inputs, x);
    var h := TurnsOf(cfg, inputs);
    var members := Destinations(Pruned(Run(h, true), x.pruned, true), x.src, topic);
    CopiesHas(x.datagram, members, p, b);
    ForwardsExactly(h, x.src, topic, p, x.pruned);
    forall i | 0 <= i < |inputs|
      ensures Tells(h[i].event, Registry.Joined((topic, p))).Some? && Recent(h[i].stamped, x.pruned, RELAY_TTL) <==>
              JoinedAt(inputs[i], p, topic, x.pruned)
    {
      JoinsExactly(cfg, inputs[i].datagram, inputs[i].src, topic);
      JoinerIsSource(cfg, inputs[i].datagram, inputs[i].src);
    }
    if i :| 0 <= i < |inputs| && JoinedAt(inputs[i], p, topic, x.pruned) {
      assert Tells(h[i].event, Registry.Joined((topic, p))).Some?;
    }
  }

  /** The join request of `p` for a topic, within the relay's time to live. */
  ghost predicate JoinedAt(x: Input, p: Peer, topic: u32, now: real)
  {
    x.src == p && x.datagram == RelayWire.JoinBytes(topic) && now - x.stamped <= RELAY_TTL
  }

  lemma JoinerIsSource(cfg: Config, datagram: Bytes, src: Peer)
    ensures var event := Classified(cfg, datagram, src); event.Joins? ==> event.from == src
  {
    hide Registration, Directory.Decoded;
  }

  lemma CopiesHas(frame: Bytes, members: seq<Peer>, p: Peer, b: Bytes)
    ensures (p, b) in Copies(frame, members) <==> b == frame && p in members
  {
    var copies := Copies(frame, members);
    if b == frame && p in members {
      var i :| 0 <= i < |members| && members[i] == p;
      assert copies[i] == (p, b);
    }
    if (p, b) in copies {
      var i :| 0 <= i < |copies| && copies[i] == (p, b);
      assert members[i] == p;
    }
  }
}
