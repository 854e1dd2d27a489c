/** The relay's view of a datagram: a six-byte join request, or a data frame whose topic it peeks at. */
module RelayWire {
  import opened Options
  import opened Wire
  import Frame

  const CONTROL: byte := 0x52
  const REGISTER: byte := 0x01

  function JoinBytes(topic: u32): Bytes
  {
    [CONTROL, REGISTER] + Le32(topic)
  }

  function DecodedJoin(buf: Bytes): Option<u32>
  {
    if |buf| != 6 || buf[0] != CONTROL || buf[1] != REGISTER then None else Some(U32At(buf, 2))
  }

  /** The topic of what looks like a data frame; nothing after the topic is looked at. */
  function PeekedTopic(buf: Bytes): Option<u32>
  {
    if |buf| < 1 + Frame.HEADER_BYTES || buf[0] != Frame.START then None else Some(U32At(buf, 1))
  }

  method EncodeJoin(topic: u32, out: array<byte>) returns (len: nat)
    modifies out
    ensures out.Length < 6 ==> len == 0 && out[..] == old(out[..])
    ensures out.Length >= 6 ==> len == 6 && out[..len] == JoinBytes(topic) && out[len..] == old(out[len..])
  {
    if out.Length < 6 {
      return 0;
    }
    var t := Le32(topic);
    out[0] := CONTROL;
    out[1] := REGISTER;
    forall i | 0 <= i < 4 {
      out[2 + i] := t[i];
    }
    return 6;
  }

  lemma JoinLayout(topic: u32)
    ensures JoinBytes(topic)[..2] == [0x52, 0x01] && JoinBytes(topic)[2..] == Le32(topic)
  {}

  /** Exactly the join requests decode, each to its topic. */
  lemma JoinDecodesExactly(buf: Bytes, topic: u32)
    ensures DecodedJoin(buf) == Some(topic) <==> buf == JoinBytes(topic)
  {}

  /** Every data frame is recognised, under its own topic, and never taken for a join request. */
  lemma PeeksFrame(topic: u32, seqNum: u16, payload: Bytes)
    requires |payload| < 0x1_0000
    ensures PeekedTopic(Frame.Encoded(topic, seqNum, payload)) == Some(topic)
    ensures DecodedJoin(Frame.Encoded(topic, seqNum, payload)) == None
  {}

  /** No datagram is both. */
  lemma JoinIsNoFrame(buf: Bytes)
    ensures DecodedJoin(buf).None? || PeekedTopic(buf).None?
  {}
}
