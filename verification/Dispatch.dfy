/** How the rlcore daemon sorts datagrams that share one socket: directory packets by their magic, then in relay mode
    joins and data frames, and whatever is left as a registration, sealed when a key is set. */
module Dispatch {
  import opened Options
  import opened Wire
  import opened Registry
  import Directory
  import Register
  import RelayWire
  import Frame
  import Aes
  import Gcm

  /** `--nat` implies `--relay`. */
  datatype Config = Config(natMode: bool, relay: bool, key: Option<Aes.Key>)

  const NAME_ANNOUNCE: Bytes := [0x52, 0x4C, 0x4E, 0x4D]
  const NAME_QUERY: Bytes := [0x52, 0x4C, 0x4E, 0x51]
  const NAME_REPLY: Bytes := [0x52, 0x4C, 0x4E, 0x52]
  const ROLE_ANNOUNCE: Bytes := [0x52, 0x4C, 0x50, 0x41]
  const ROLE_QUERY: Bytes := [0x52, 0x4C, 0x50, 0x51]
  const ROLE_REPLY: Bytes := [0x52, 0x4C, 0x50, 0x52]

  predicate HasMagic(buf: Bytes)
  {
    |buf| >= 4 && buf[..4] in {NAME_ANNOUNCE, NAME_QUERY, NAME_REPLY, ROLE_ANNOUNCE, ROLE_QUERY, ROLE_REPLY}
  }

  function NamePairs(entries: seq<Directory.Entry>): (pairs: seq<(u32, Bytes)>)
    requires Directory.AllSendable(Directory.Names, entries)
  {
    seq(|entries|, i requires 0 <= i < |entries| => (entries[i].topic, NameIn(entries[i])))
  }

  function NameIn(e: Directory.Entry): Bytes
  {
    if e.Name? then e.name else []
  }

  function RolePairs(entries: seq<Directory.Entry>): (pairs: seq<(u32, byte)>)
  {
    seq(|entries|, i requires 0 <= i < |entries| => (entries[i].topic, if entries[i].Name? then 0 else entries[i].role))
  }

  // ----- Bytes as the cipher sees them -----

  function Octet(x: byte): (b: bv8)
    ensures Gcm.ByteValue(b) == x
    decreases x
  {
    hide Gcm.ByteValue, Gcm.Next;
    Gcm.ByteValueNext(if x == 0 then 0 else Octet(x - 1));
    if x == 0 then 0 else Gcm.Next(Octet(x - 1))
  }

  function Value(b: bv8): (x: byte)
    ensures x == Gcm.ByteValue(b)
  {
    Gcm.ByteValueBound(b);
    Gcm.ByteValue(b)
  }

  function ToBits(s: Bytes): (b: seq<bv8>)
    ensures |b| == |s|
  {
    seq(|s|, i requires 0 <= i < |s| => Octet(s[i]))
  }

  function FromBits(b: seq<bv8>): (s: Bytes)
    ensures |s| == |b|
  {
    seq(|b|, i requires 0 <= i < |b| => Value(b[i]))
  }

  lemma BitsRoundTrip(s: Bytes)
    ensures FromBits(ToBits(s)) == s
  {}

  lemma BitsRoundTripBack(b: seq<bv8>)
    ensures ToBits(FromBits(b)) == b
  {
    hide Octet, Value, Gcm.ByteValue;
    forall i | 0 <= i < |b|
      ensures Octet(Value(b[i])) == b[i]
    {
      Gcm.ByteValueInjective(Octet(Value(b[i])), b[i]);
    }
  }

  // ----- Sorting -----

  /** The bytes a registration is read from. */
  function Opened(cfg: Config, datagram: Bytes): Option<Bytes>
  {
    if cfg.key.None? then Some(datagram)
    else
      var plain := Gcm.Open(Aes.KeySchedule(cfg.key.value), ToBits(datagram));
      if plain.None? then None else Some(FromBits(plain.value))
  }

  function Registration(cfg: Config, datagram: Bytes, from: Peer): (event: Event)
    ensures event.Registers? || event.Nothing?
  {
    var plain := Opened(cfg, datagram);
    var r := if plain.None? then None else Register.DecodedRequest(plain.value);
    if r.None? then Nothing
    else
      var lan := Peer(r.value.ip, r.value.port);
      Registers(if cfg.natMode then from else lan, lan, r.value.topics)
  }

  function Classified(cfg: Config, datagram: Bytes, from: Peer): Event
  {
    var magic := if |datagram| < 4 then [] else datagram[..4];
    if magic == NAME_ANNOUNCE then
      var entries := Directory.Decoded(Directory.Names, datagram);
      if entries.None? then Nothing else NamesOf(datagram, entries.value)
    else if magic == NAME_QUERY then NameQuery
    else if magic == NAME_REPLY then Nothing
    else if magic == ROLE_ANNOUNCE then
      var entries := Directory.Decoded(Directory.Roles, datagram);
      if entries.None? then Nothing else Roles(from, RolePairs(entries.value))
    else if magic == ROLE_QUERY then RoleQuery
    else if magic == ROLE_REPLY then Nothing
    else if cfg.relay && RelayWire.DecodedJoin(datagram).Some? then Joins(from, RelayWire.DecodedJoin(datagram).value)
    else if cfg.relay && RelayWire.PeekedTopic(datagram).Some?
    then Forwards(from, RelayWire.PeekedTopic(datagram).value)
    else Registration(cfg, datagram, from)
  }

  function NamesOf(datagram: Bytes, entries: seq<Directory.Entry>): Event
    requires Directory.Decoded(Directory.Names, datagram) == Some(entries)
  {
    Directory.DecodesExactly(Directory.Names, datagram, entries);
    Names(NamePairs(entries))
  }

  // ----- What each kind of packet comes to -----

  /** `RLNQ` asks for names and nothing else does. */
  lemma NameQueryExactly(cfg: Config, datagram: Bytes, from: Peer)
    ensures Classified(cfg, datagram, from) == NameQuery <==> [0x52, 0x4C, 0x4E, 0x51] <= datagram
  {
    hide Registration, Directory.Decoded;
    assert |datagram| >= 4 ==> (datagram[..4] == NAME_QUERY <==> [0x52, 0x4C, 0x4E, 0x51] <= datagram);
  }

  /** `RLPQ` asks for roles and nothing else does. */
  lemma RoleQueryExactly(cfg: Config, datagram: Bytes, from: Peer)
    ensures Classified(cfg, datagram, from) == RoleQuery <==> [0x52, 0x4C, 0x50, 0x51] <= datagram
  {
    hide Registration, Directory.Decoded;
    assert |datagram| >= 4 ==> (datagram[..4] == ROLE_QUERY <==> [0x52, 0x4C, 0x50, 0x51] <= datagram);
  }

  /** The lists a packet under both caps can carry. */
  ghost predicate Carried(kind: Directory.Kind, entries: seq<Directory.Entry>)
  {
    && Directory.AllSendable(kind, entries) && |entries| <= Directory.MaxEntries(kind)
    && Directory.HEADER_BYTES + Directory.TotalSize(entries) <= Directory.MAX_PACKET
  }

  lemma PacketDecodes(magic: Bytes, kind: Directory.Kind, entries: seq<Directory.Entry>)
    requires |magic| == 4 && Carried(kind, entries)
    ensures var d := Directory.Packet(magic, kind, entries);
      |d| >= 4 && d[..4] == magic && Directory.Decoded(kind, d) == Some(entries)
  {
    hide Directory.Decoded, Directory.Body, Directory.TotalSize;
    var d := Directory.Packet(magic, kind, entries);
    assert d[..4] == magic;
    Directory.DecodesExactly(kind, d, entries);
  }

  /** An `RLNM` packet announces exactly the names it lists. */
  lemma NamesAnnounced(cfg: Config, entries: seq<Directory.Entry>, from: Peer)
    requires Carried(Directory.Names, entries)
    ensures var event := Classified(cfg, Directory.Packet([0x52, 0x4C, 0x4E, 0x4D], Directory.Names, entries), from);
      && event.Names? && |event.names| == |entries|
      && forall i :: 0 <= i < |entries| ==> entries[i] == Directory.Name(event.names[i].0, event.names[i].1)
  {
    hide Registration, Directory.Decoded, Directory.Packet, Directory.TotalSize;
    PacketDecodes([0x52, 0x4C, 0x4E, 0x4D], Directory.Names, entries);
    assert forall i :: 0 <= i < |entries| ==> Directory.Sendable(Directory.Names, entries[i]);
  }

  /** An `RLPA` packet announces exactly the roles it lists, of the address it came from. */
  lemma RolesAnnounced(cfg: Config, entries: seq<Directory.Entry>, from: Peer)
    requires Carried(Directory.Roles, entries)
    ensures var event := Classified(cfg, Directory.Packet([0x52, 0x4C, 0x50, 0x41], Directory.Roles, entries), from);
      && event.Roles? && event.from == from && |event.roles| == |entries|
      && forall i :: 0 <= i < |entries| ==> entries[i] == Directory.Role(event.roles[i].0, event.roles[i].1)
  {
    hide Registration, Directory.Decoded, Directory.Packet, Directory.TotalSize;
    PacketDecodes([0x52, 0x4C, 0x50, 0x41], Directory.Roles, entries);
    assert forall i :: 0 <= i < |entries| ==> Directory.Sendable(Directory.Roles, entries[i]);
  }

  /** In relay mode, and only then, exactly the join bytes join. */
  lemma JoinsExactly(cfg: Config, datagram: Bytes, from: Peer, t: u32)
    ensures Classified(cfg, datagram, from) == Joins(from, t) <==> cfg.relay && datagram == RelayWire.JoinBytes(t)
  {
    hide Registration, Directory.Decoded;
    RelayWire.JoinDecodesExactly(datagram, t);
  }

  /** In relay mode every data frame is forwarded on its own topic. */
  lemma FramesForwarded(cfg: Config, topic: u32, seqNum: u16, payload: Bytes, from: Peer)
    requires cfg.relay && |payload| < 0x1_0000
    ensures Classified(cfg, Frame.Encoded(topic, seqNum, payload), from) == Forwards(from, topic)
  {
    hide Registration, Directory.Decoded, RelayWire.DecodedJoin, RelayWire.PeekedTopic;
    RelayWire.PeeksFrame(topic, seqNum, payload);
    assert Frame.Encoded(topic, seqNum, payload)[..4][0] == 0x23;
  }

  // ----- Registrations that are not recognised as such -----

  predicate ForRelay(datagram: Bytes)
  {
    RelayWire.DecodedJoin(datagram).Some? || RelayWire.PeekedTopic(datagram).Some?
  }

  /** A datagram reaches the registration branch exactly unless it starts with a directory magic or, in relay mode,
      is six bytes of join or at least ten bytes starting with the frame start byte. */
  lemma ReachesRegistration(cfg: Config, datagram: Bytes, from: Peer)
    ensures !HasMagic(datagram) && !(cfg.relay && ForRelay(datagram)) ==>
              Classified(cfg, datagram, from) == Registration(cfg, datagram, from)
    ensures HasMagic(datagram) || (cfg.relay && ForRelay(datagram)) ==> !Classified(cfg, datagram, from).Registers?
  {}

  /** The comment that relaying never steals registrations is false. A plaintext request is taken for something else
      exactly when its address field spells a directory magic or, in relay mode, its address's low byte is 0x23 and it
      names a topic. */
  lemma PlainRequestRecognised(cfg: Config, r: Register.Request, from: Peer)
    requires |r.topics| < 0x1_0000 && cfg.key.None?
    ensures Classified(cfg, Register.RequestBytes(r), from) ==
              Registers(if cfg.natMode then from else Peer(r.ip, r.port), Peer(r.ip, r.port), r.topics) <==>
            !SpellsMagic(r.ip) && !(cfg.relay && r.ip % 256 == 0x23 && r.topics != [])
  {
    hide Register.DecodedRequest, Register.Joined, Directory.Decoded;
    var buf := Register.RequestBytes(r);
    Register.DecodesRequest(r);
    RequestLength(r);
    RequestStarts(r);
    SameMagic(buf, Le32(r.ip));
    hide HasMagic, Le32, Classified, Register.RequestBytes;
    ReachesRegistration(cfg, buf, from);
  }

  lemma RequestStarts(r: Register.Request)
    requires |r.topics| < 0x1_0000
    ensures var buf := Register.RequestBytes(r); |buf| >= 8 && buf[..4] == Le32(r.ip) && buf[0] == r.ip % 256
  {
    hide Register.Joined;
  }

  /** The magic is in the first four bytes. */
  lemma SameMagic(s: Bytes, t: Bytes)
    requires |s| >= 4 && |t| >= 4 && s[..4] == t[..4]
    ensures HasMagic(s) <==> HasMagic(t)
  {}

  predicate SpellsMagic(ip: u32)
  {
    HasMagic(Le32(ip))
  }

  lemma RequestLength(r: Register.Request)
    requires |r.topics| < 0x1_0000
    ensures |Register.RequestBytes(r)| == 8 + 4 * |r.topics|
  {
    Register.Le32IsCodec();
    Register.JoinedLength(Le32, r.topics, 4);
  }

  /** The bytes of a request sealed under the daemon's key. */
  function SealedRequest(key: Aes.Key, nonce: Gcm.Nonce, r: Register.Request): Bytes
    requires |r.topics| < 0x1_0000
  {
    FromBits(Gcm.Seal(Aes.KeySchedule(key), nonce, ToBits(Register.RequestBytes(r))))
  }

  lemma SealedOpens(cfg: Config, nonce: Gcm.Nonce, r: Register.Request)
    requires |r.topics| < 0x1_0000 && cfg.key.Some?
    ensures Opened(cfg, SealedRequest(cfg.key.value, nonce, r)) == Some(Register.RequestBytes(r))
  {
    hide Register.RequestBytes, Gcm.Open, Gcm.Seal, Aes.KeySchedule, ToBits, FromBits;
    var w, pt := Aes.KeySchedule(cfg.key.value), ToBits(Register.RequestBytes(r));
    Gcm.OpenSealed(w, nonce, pt);
    BitsRoundTripBack(Gcm.Seal(w, nonce, pt));
    BitsRoundTrip(Register.RequestBytes(r));
  }

  lemma SealedStarts(key: Aes.Key, nonce: Gcm.Nonce, r: Register.Request)
    requires |r.topics| < 0x1_0000
    ensures var m := SealedRequest(key, nonce, r);
      && |m| >= 28 && (HasMagic(m) <==> HasMagic(FromBits(nonce[..4])))
      && (m[0] == 0x23 <==> nonce[0] == 0x23)
  {
    hide Register.RequestBytes, Gcm.Seal, Aes.KeySchedule, ToBits, FromBits, HasMagic;
    var w, pt := Aes.KeySchedule(key), ToBits(Register.RequestBytes(r));
    SealStartsWithNonce(w, nonce, pt);
    FromBitsStarts(Gcm.Seal(w, nonce, pt), nonce[..4]);
    SameMagic(SealedRequest(key, nonce, r), FromBits(nonce[..4]));
  }

  /** A sealed request is recognised by a daemon holding the key exactly when its nonce, which the sender draws at
      random, neither spells a magic nor, in relay mode, begins with 0x23. */
  lemma SealedRequestRecognised(cfg: Config, nonce: Gcm.Nonce, r: Register.Request, from: Peer)
    requires |r.topics| < 0x1_0000 && cfg.key.Some?
    ensures Classified(cfg, SealedRequest(cfg.key.value, nonce, r), from) ==
              Registers(if cfg.natMode then from else Peer(r.ip, r.port), Peer(r.ip, r.port), r.topics) <==>
            !HasMagic(FromBits(nonce[..4])) && !(cfg.relay && nonce[0] == 0x23)
  {
    hide Register.DecodedRequest, Register.RequestBytes, SealedRequest, Opened, HasMagic, FromBits, Classified;
    var m := SealedRequest(cfg.key.value, nonce, r);
    SealedOpens(cfg, nonce, r);
    SealedStarts(cfg.key.value, nonce, r);
    Register.DecodesRequest(r);
    ReachesRegistration(cfg, m, from);
  }

  lemma FromBitsStarts(b: seq<bv8>, start: seq<bv8>)
    requires |b| >= 4 && b[..4] == start
    ensures var m := FromBits(b); m[..4] == FromBits(start)[..4] && (m[0] == 0x23 <==> start[0] == 0x23)
  {}

  lemma SealStartsWithNonce(w: Aes.Schedule, nonce: Gcm.Nonce, pt: seq<bv8>)
    ensures var m := Gcm.Seal(w, nonce, pt); |m| >= 28 && m[..4] == nonce[..4] && m[0] == nonce[0]
  {
    hide Gcm.Gctr, Gcm.Tag, Gcm.Inc32, Gcm.J0;
  }

  /** For example: a node at 10.0.0.35 registering one topic with a relaying daemon. */
  lemma RequestStolen(topic: u32, from: Peer)
    ensures var r := Register.Request(0x0A00_0023, 9000, [topic]);
      Classified(Config(false, true, None), Register.RequestBytes(r), from).Forwards?
  {
    var r := Register.Request(0x0A00_0023, 9000, [topic]);
    RequestLength(r);
    hide Register.DecodedRequest, Register.Joined;
    assert Register.RequestBytes(r)[0] == 0x23;
  }
}
