/** Registration with the rlcore daemon: the request a node sends and the acknowledgement listing its peers. */
module Register {
  import opened Options
  import opened Wire
  import opened Slots

  const MAX_TOPICS := 16374
  const REQUEST_HEADER_BYTES := 8
  const ACK_HEADER_BYTES := 3
  const PEER_BYTES := 16

  datatype Request = Request(ip: u32, port: u16, topics: seq<u32>)

  datatype AckPeer = AckPeer(ip: u32, port: u16, topic: u32, lanIp: u32, lanPort: u16)

  datatype Ack = Ack(status: byte, peers: seq<AckPeer>)

  // ----- Arrays of fixed-size records -----

  ghost predicate IsCodec<T(!new)>(enc: T -> Bytes, size: nat)
  {
    forall x :: |enc(x)| == size
  }

  function Joined<T>(enc: T -> Bytes, xs: seq<T>): Bytes
    decreases |xs|
  {
    if xs == [] then [] else Joined(enc, xs[..|xs| - 1]) + enc(xs[|xs| - 1])
  }

  lemma {:induction false} JoinedLength<T(!new)>(enc: T -> Bytes, xs: seq<T>, size: nat)
    requires IsCodec(enc, size)
    ensures |Joined(enc, xs)| == |xs| * size
    decreases |xs|
  {
    if xs != [] {
      JoinedLength(enc, xs[..|xs| - 1], size);
      SlotFits(|xs| - 1, |xs|, size);
    }
  }

  lemma {:induction false} JoinedAt<T(!new)>(enc: T -> Bytes, xs: seq<T>, size: nat, i: nat)
    requires IsCodec(enc, size) && i < |xs|
    ensures |Joined(enc, xs)| == |xs| * size && Slot(Joined(enc, xs), i, |xs|, size) == enc(xs[i])
    decreases |xs|
  {
    var n := |xs| - 1;
    var front := Joined(enc, xs[..n]);
    JoinedLength(enc, xs, size);
    JoinedLength(enc, xs[..n], size);
    SlotFits(n, |xs|, size);
    if i < n {
      JoinedAt(enc, xs[..n], size, i);
      SlotFits(i, n, size);
      assert (front + enc(xs[n]))[i * size..i * size + size] == front[i * size..i * size + size];
    }
  }

  /** Bytes that read as the records slot by slot are the records' bytes. */
  lemma {:induction false} JoinedFromSlots<T(!new)>(enc: T -> Bytes, xs: seq<T>, size: nat, s: Bytes)
    requires IsCodec(enc, size) && |s| == |xs| * size
    requires forall i: nat :: i < |xs| ==> Slot(s, i, |xs|, size) == enc(xs[i])
    ensures s == Joined(enc, xs)
    decreases |xs|
  {
    if xs != [] {
      var n := |xs| - 1;
      SlotFits(n, |xs|, size);
      var front := s[..n * size];
      forall i: nat | i < n
        ensures Slot(front, i, n, size) == enc(xs[..n][i])
      {
        SlotFits(i, n, size);
        assert Slot(s, i, |xs|, size) == enc(xs[i]);
        assert front[i * size..i * size + size] == s[i * size..i * size + size];
      }
      JoinedFromSlots(enc, xs[..n], size, front);
      assert Slot(s, n, |xs|, size) == enc(xs[n]);
      assert s == front + s[n * size..n * size + size];
    }
  }

  method EncodeRecords<T(!new)>(enc: T -> Bytes, xs: seq<T>, size: nat, out: array<byte>, start: nat)
    requires IsCodec(enc, size) && start + |xs| * size <= out.Length
    modifies out
    ensures out[..start + |xs| * size] == old(out[..start]) + Joined(enc, xs)
  {
    hide Joined;
    ghost var before := out[..start];
    JoinedSteps(enc, xs);
    var off := start;
    for i := 0 to |xs|
      invariant off == start + i * size <= out.Length && out[..off] == before + Joined(enc, xs[..i])
    {
      SlotFits(i, |xs|, size);
      JoinedStep(enc, xs, i);
      CopyInto(out, off, enc(xs[i]));
      off := off + size;
    }
  }

  lemma JoinedSteps<T>(enc: T -> Bytes, xs: seq<T>)
    ensures Joined(enc, xs[..0]) == [] && xs[..|xs|] == xs
  {}

  lemma JoinedStep<T>(enc: T -> Bytes, xs: seq<T>, i: nat)
    requires i < |xs|
    ensures Joined(enc, xs[..i + 1]) == Joined(enc, xs[..i]) + enc(xs[i])
  {
    assert xs[..i + 1][..i] == xs[..i];
  }

  // ----- RegisterRequest -----

  function RequestBytes(r: Request): Bytes
    requires |r.topics| < 0x1_0000
  {
    Le32(r.ip) + Le16(r.port) + Le16(|r.topics|) + Joined(Le32, r.topics)
  }

  function TopicAt(buf: Bytes, i: nat): u32
    requires REQUEST_HEADER_BYTES + i * 4 + 4 <= |buf|
  {
    U32At(buf, REQUEST_HEADER_BYTES + i * 4)
  }

  function DecodedRequest(buf: Bytes): Option<Request>
  {
    if |buf| < REQUEST_HEADER_BYTES then None
    else
      var count := U16At(buf, 6);
      if |buf| != REQUEST_HEADER_BYTES + count * 4 then None
      else Some(Request(U32At(buf, 0), U16At(buf, 4), seq(count, i requires 0 <= i < count => TopicAt(buf, i))))
  }

  lemma RequestHeader(ip: u32, port: u16, count: u16, rest: Bytes)
    ensures var s := Le32(ip) + Le16(port) + Le16(count) + rest;
      U32At(s, 0) == ip && U16At(s, 4) == port && U16At(s, 6) == count && s[8..] == rest
  {}

  /** Where each field of a request stands. */
  lemma RequestLayout(r: Request, i: nat)
    requires |r.topics| < 0x1_0000
    ensures var s := RequestBytes(r);
      && |s| == 8 + |r.topics| * 4
      && s[0..4] == Le32(r.ip) && s[4..6] == Le16(r.port) && s[6..8] == Le16(|r.topics|)
      && (i < |r.topics| ==> s[8 + i * 4..8 + i * 4 + 4] == Le32(r.topics[i]))
  {
    Le32IsCodec();
    JoinedLength(Le32, r.topics, 4);
    hide Le32, Le16, Joined;
    var s, tail := RequestBytes(r), Joined(Le32, r.topics);
    assert s[8..] == tail;
    if i < |r.topics| {
      JoinedAt(Le32, r.topics, 4, i);
      SlotFits(i, |r.topics|, 4);
      assert s[8 + i * 4..8 + i * 4 + 4] == tail[i * 4..i * 4 + 4];
    }
  }

  lemma Le32IsCodec()
    ensures IsCodec(Le32, 4)
  {}

  /** The i-th topic read is the one whose bytes stand in slot i. */
  lemma TopicInSlot(buf: Bytes, count: nat, i: nat)
    requires |buf| == REQUEST_HEADER_BYTES + count * 4 && i < count
    ensures Slot(buf[REQUEST_HEADER_BYTES..], i, count, 4) == Le32(TopicAt(buf, i))
  {
    SlotFits(i, count, 4);
    WriteU32(buf, REQUEST_HEADER_BYTES + i * 4);
  }

  lemma Le32Injective(a: u32, b: u32)
    ensures Le32(a) == Le32(b) ==> a == b
  {
    ReadLe32([], a, []);
    ReadLe32([], b, []);
    assert [] + Le32(a) + [] == Le32(a) && [] + Le32(b) + [] == Le32(b);
  }

  lemma DecodesRequest(r: Request)
    requires |r.topics| < 0x1_0000
    ensures DecodedRequest(RequestBytes(r)) == Some(r)
  {
    hide U32At, U16At, Le32, Le16, Joined, Slot;
    var count, buf := |r.topics|, RequestBytes(r);
    Le32IsCodec();
    JoinedLength(Le32, r.topics, 4);
    RequestHeader(r.ip, r.port, count, Joined(Le32, r.topics));
    var d := DecodedRequest(buf);
    forall i | 0 <= i < count
      ensures d.value.topics[i] == r.topics[i]
    {
      TopicInSlot(buf, count, i);
      JoinedAt(Le32, r.topics, 4, i);
      Le32Injective(TopicAt(buf, i), r.topics[i]);
    }
    assert d.value.topics == r.topics;
  }

  /** Decoding accepts exactly the encodings. */
  lemma DecodesExactlyRequests(buf: Bytes, r: Request)
    ensures DecodedRequest(buf) == Some(r) <==> |r.topics| < 0x1_0000 && buf == RequestBytes(r)
  {
    hide Joined, Slot;
    if |r.topics| < 0x1_0000 && buf == RequestBytes(r) {
      DecodesRequest(r);
    }
    if DecodedRequest(buf) == Some(r) {
      var count := |r.topics|;
      Le32IsCodec();
      forall i: nat | i < count
        ensures Slot(buf[REQUEST_HEADER_BYTES..], i, count, 4) == Le32(r.topics[i])
      {
        TopicInSlot(buf, count, i);
      }
      hide U32At, U16At, Le32, Le16;
      JoinedFromSlots(Le32, r.topics, 4, buf[REQUEST_HEADER_BYTES..]);
      WriteU32(buf, 0);
      WriteU16(buf, 4);
      WriteU16(buf, 6);
      assert buf == buf[0..4] + buf[4..6] + buf[6..8] + buf[8..];
    }
  }

  method EncodeRequest(r: Request, out: array<byte>) returns (ok: bool, len: nat)
    requires |r.topics| < 0x1_0000
    modifies out
    ensures ok <==> |r.topics| <= MAX_TOPICS && REQUEST_HEADER_BYTES + |r.topics| * 4 <= out.Length
    ensures ok ==> len <= out.Length && out[..len] == RequestBytes(r)
  {
    if |r.topics| > MAX_TOPICS || out.Length < REQUEST_HEADER_BYTES + |r.topics| * 4 {
      return false, 0;
    }
    CopyInto(out, 0, Le32(r.ip) + Le16(r.port) + Le16(|r.topics|));
    Le32IsCodec();
    EncodeRecords(Le32, r.topics, 4, out, REQUEST_HEADER_BYTES);
    return true, REQUEST_HEADER_BYTES + |r.topics| * 4;
  }

  // ----- RegisterAck -----

  function PeerRecord(p: AckPeer): (s: Bytes)
    ensures |s| == PEER_BYTES
  {
    Le32(p.ip) + Le16(p.port) + Le32(p.topic) + Le32(p.lanIp) + Le16(p.lanPort)
  }

  function AckBytes(a: Ack): Bytes
    requires |a.peers| < 0x1_0000
  {
    [a.status] + Le16(|a.peers|) + Joined(PeerRecord, a.peers)
  }

  /** Where each field of an acknowledgement stands. */
  lemma PeerLayout(p: AckPeer)
    ensures var s := PeerRecord(p);
      && s[0..4] == Le32(p.ip) && s[4..6] == Le16(p.port) && s[6..10] == Le32(p.topic)
      && s[10..14] == Le32(p.lanIp) && s[14..16] == Le16(p.lanPort)
  {
    hide Le32, Le16;
  }

  lemma AckLayout(a: Ack, i: nat)
    requires |a.peers| < 0x1_0000
    ensures var s := AckBytes(a);
      && |s| == 3 + |a.peers| * 16 && s[0] == a.status && s[1..3] == Le16(|a.peers|)
      && (i < |a.peers| ==> s[3 + i * 16..3 + i * 16 + 16] == PeerRecord(a.peers[i]))
  {
    PeerRecordIsCodec();
    JoinedLength(PeerRecord, a.peers, PEER_BYTES);
    hide PeerRecord, Le16, Joined;
    var s, tail := AckBytes(a), Joined(PeerRecord, a.peers);
    assert s[3..] == tail;
    if i < |a.peers| {
      JoinedAt(PeerRecord, a.peers, PEER_BYTES, i);
      SlotFits(i, |a.peers|, PEER_BYTES);
      assert s[3 + i * 16..3 + i * 16 + 16] == tail[i * 16..i * 16 + 16];
    }
  }

  function PeerAt(buf: Bytes, i: nat): AckPeer
    requires ACK_HEADER_BYTES + i * PEER_BYTES + PEER_BYTES <= |buf|
  {
    var off := ACK_HEADER_BYTES + i * PEER_BYTES;
    AckPeer(U32At(buf, off), U16At(buf, off + 4), U32At(buf, off + 6), U32At(buf, off + 10), U16At(buf, off + 14))
  }

  function DecodedAck(buf: Bytes): Option<Ack>
  {
    if |buf| < ACK_HEADER_BYTES then None
    else
      var count := U16At(buf, 1);
      if |buf| != ACK_HEADER_BYTES + count * PEER_BYTES then None
      else Some(Ack(buf[0], seq(count, i requires 0 <= i < count => PeerAt(buf, i))))
  }

  lemma PeerInSlot(buf: Bytes, count: nat, i: nat)
    requires |buf| == ACK_HEADER_BYTES + count * PEER_BYTES && i < count
    ensures Slot(buf[ACK_HEADER_BYTES..], i, count, PEER_BYTES) == PeerRecord(PeerAt(buf, i))
  {
    SlotFits(i, count, PEER_BYTES);
    var off := ACK_HEADER_BYTES + i * PEER_BYTES;
    PeerBytesAt(buf, off);
    assert buf[ACK_HEADER_BYTES..][i * PEER_BYTES..i * PEER_BYTES + PEER_BYTES] == buf[off..off + PEER_BYTES];
  }

  lemma PeerBytesAt(buf: Bytes, off: nat)
    requires off + PEER_BYTES <= |buf|
    ensures PeerRecord(AckPeer(U32At(buf, off), U16At(buf, off + 4), U32At(buf, off + 6), U32At(buf, off + 10),
                               U16At(buf, off + 14))) == buf[off..off + PEER_BYTES]
  {
    hide U32At, U16At, Le32, Le16;
    WriteU32(buf, off);
    WriteU16(buf, off + 4);
    WriteU32(buf, off + 6);
    WriteU32(buf, off + 10);
    WriteU16(buf, off + 14);
    assert buf[off..off + PEER_BYTES] == buf[off..off + 4] + buf[off + 4..off + 6] + buf[off + 6..off + 10]
                                         + buf[off + 10..off + 14] + buf[off + 14..off + 16];
  }

  lemma PeerRecordInjective(a: AckPeer, b: AckPeer)
    ensures PeerRecord(a) == PeerRecord(b) ==> a == b
  {
    PeerRecordReads(a);
    PeerRecordReads(b);
  }

  lemma PeerRecordReads(p: AckPeer)
    ensures var s := PeerRecord(p);
      p == AckPeer(U32At(s, 0), U16At(s, 4), U32At(s, 6), U32At(s, 10), U16At(s, 14))
  {}

  lemma PeerRecordIsCodec()
    ensures IsCodec(PeerRecord, PEER_BYTES)
  {}

  lemma DecodesAck(a: Ack)
    requires |a.peers| < 0x1_0000
    ensures DecodedAck(AckBytes(a)) == Some(a)
  {
    hide U32At, Le32, Joined, Slot, PeerRecord, PeerAt;
    var count, buf := |a.peers|, AckBytes(a);
    PeerRecordIsCodec();
    JoinedLength(PeerRecord, a.peers, PEER_BYTES);
    ReadLe16([a.status], count, Joined(PeerRecord, a.peers));
    var d := DecodedAck(buf);
    assert buf[ACK_HEADER_BYTES..] == Joined(PeerRecord, a.peers);
    forall i | 0 <= i < count
      ensures d.value.peers[i] == a.peers[i]
    {
      PeerInSlot(buf, count, i);
      JoinedAt(PeerRecord, a.peers, PEER_BYTES, i);
      PeerRecordInjective(PeerAt(buf, i), a.peers[i]);
    }
    assert d.value.peers == a.peers;
  }

  lemma DecodesExactlyAcks(buf: Bytes, a: Ack)
    ensures DecodedAck(buf) == Some(a) <==> |a.peers| < 0x1_0000 && buf == AckBytes(a)
  {
    hide U32At, Le32, Joined, Slot, PeerRecord, PeerAt;
    if |a.peers| < 0x1_0000 && buf == AckBytes(a) {
      DecodesAck(a);
    }
    if DecodedAck(buf) == Some(a) {
      var count := |a.peers|;
      PeerRecordIsCodec();
      forall i: nat | i < count
        ensures Slot(buf[ACK_HEADER_BYTES..], i, count, PEER_BYTES) == PeerRecord(a.peers[i])
      {
        PeerInSlot(buf, count, i);
      }
      JoinedFromSlots(PeerRecord, a.peers, PEER_BYTES, buf[ACK_HEADER_BYTES..]);
      WriteU16(buf, 1);
      assert buf == [buf[0]] + buf[1..3] + buf[3..];
    }
  }

  /** The encoder is given the peer count as sixteen bits, whatever the length of the list behind it. */
  method EncodeAck(status: byte, peers: seq<AckPeer>, count: u16, out: array<byte>) returns (ok: bool, len: nat)
    requires count <= |peers|
    modifies out
    ensures ok <==> ACK_HEADER_BYTES + count * PEER_BYTES <= out.Length
    ensures ok ==> len <= out.Length && out[..len] == AckBytes(Ack(status, peers[..count]))
  {
    if out.Length < ACK_HEADER_BYTES + count * PEER_BYTES {
      return false, 0;
    }
    CopyInto(out, 0, [status] + Le16(count));
    PeerRecordIsCodec();
    EncodeRecords(PeerRecord, peers[..count], PEER_BYTES, out, ACK_HEADER_BYTES);
    return true, ACK_HEADER_BYTES + count * PEER_BYTES;
  }
}
