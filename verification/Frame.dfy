/** The plaintext data frame: start byte, nine header bytes, payload, stop byte. */
module Frame {
  import opened Wire

  const START: byte := 0x23
  const STOP: byte := 0x0A
  const HEADER_BYTES := 9
  const MAX_PAYLOAD := 1400

  datatype Decoded =
    | Ok(topic: u32, seqNum: u16, payload: Bytes)
    | TooShort
    | BadStartByte
    | BadStopByte
    | LengthMismatch

  function Header(topic: u32, seqNum: u16, payloadLen: u16, flags: byte): (h: Bytes)
    ensures |h| == HEADER_BYTES
  {
    Le32(topic) + Le16(seqNum) + Le16(payloadLen) + [flags]
  }

  /** The bytes of a frame with no flags set. */
  function Encoded(topic: u32, seqNum: u16, payload: Bytes): (f: Bytes)
    requires |payload| < 0x1_0000
    ensures |f| == 1 + HEADER_BYTES + |payload| + 1
  {
    [START] + Header(topic, seqNum, |payload|, 0) + payload + [STOP]
  }

  function Decode(buf: Bytes): Decoded
  {
    if |buf| < 1 + HEADER_BYTES + 1 then TooShort
    else if buf[0] != START then BadStartByte
    else if buf[9] != 0 then LengthMismatch
    else
      var payloadLen := U16At(buf, 7);
      var stopAt := 1 + HEADER_BYTES + payloadLen;
      if stopAt >= |buf| then LengthMismatch
      else if stopAt + 1 != |buf| then LengthMismatch
      else if buf[stopAt] != STOP then BadStopByte
      else Ok(U32At(buf, 1), U16At(buf, 5), buf[1 + HEADER_BYTES..stopAt])
  }

  /** Where each field of a frame stands. */
  lemma Layout(topic: u32, seqNum: u16, payload: Bytes)
    requires |payload| < 0x1_0000
    ensures var f, n := Encoded(topic, seqNum, payload), |payload|;
      && f[0] == 0x23 && f[1..5] == Le32(topic) && f[5..7] == Le16(seqNum) && f[7..9] == Le16(n) && f[9] == 0
      && f[10..10 + n] == payload && f[10 + n..] == [0x0A]
  {
    hide Le32, Le16;
  }

  lemma DecodesEncoded(topic: u32, seqNum: u16, payload: Bytes)
    requires |payload| < 0x1_0000
    ensures Decode(Encoded(topic, seqNum, payload)) == Ok(topic, seqNum, payload)
  {}

  /** Decoding accepts exactly the encodings: no other buffer decodes to this frame. */
  lemma DecodesExactlyEncoded(buf: Bytes, topic: u32, seqNum: u16, payload: Bytes)
    ensures Decode(buf) == Ok(topic, seqNum, payload) <==>
            |payload| < 0x1_0000 && buf == Encoded(topic, seqNum, payload)
  {
    if |payload| < 0x1_0000 && buf == Encoded(topic, seqNum, payload) {
      DecodesEncoded(topic, seqNum, payload);
    }
    if Decode(buf) == Ok(topic, seqNum, payload) {
      WriteU32(buf, 1);
      WriteU16(buf, 5);
      WriteU16(buf, 7);
      assert buf == [buf[0]] + (buf[1..5] + buf[5..7] + buf[7..9] + [buf[9]]) + buf[10..|buf| - 1] + [buf[|buf| - 1]];
    }
  }

  /** The encoder: refuses a payload over the budget or a buffer too small, and then writes nothing. */
  method EncodeInto(topic: u32, seqNum: u16, payload: Bytes, out: array<byte>) returns (ok: bool, len: nat)
    modifies out
    ensures ok <==> |payload| <= MAX_PAYLOAD && 1 + HEADER_BYTES + |payload| + 1 <= out.Length
    ensures ok ==> len <= out.Length && out[..len] == Encoded(topic, seqNum, payload) && out[len..] == old(out[len..])
    ensures !ok ==> out[..] == old(out[..])
  {
    if |payload| > MAX_PAYLOAD {
      return false, 0;
    }
    len := 1 + HEADER_BYTES + |payload| + 1;
    if out.Length < len {
      return false, 0;
    }
    ok := true;
    var header := Header(topic, seqNum, |payload|, 0);
    out[0] := START;
    forall i | 0 <= i < HEADER_BYTES {
      out[1 + i] := header[i];
    }
    forall i | 0 <= i < |payload| {
      out[1 + HEADER_BYTES + i] := payload[i];
    }
    out[1 + HEADER_BYTES + |payload|] := STOP;
  }

  /** The scatter-gather sender: the pieces handed to the kernel are, in order, the bytes of one frame. */
  function Scattered(topic: u32, seqNum: u16, extra: Bytes, data: Bytes): (pieces: seq<Bytes>)
    requires |extra| + |data| < 0x1_0000
  {
    [[START], Header(topic, seqNum, |extra| + |data|, 0)]
    + Present(extra)
    + Present(data)
    + [[STOP]]
  }

  /** An empty piece is not listed. */
  function Present(piece: Bytes): seq<Bytes>
  {
    if |piece| > 0 then [piece] else []
  }

  function Gathered(pieces: seq<Bytes>): Bytes
  {
    if pieces == [] then [] else pieces[0] + Gathered(pieces[1..])
  }

  lemma GatheredAppend(p: seq<Bytes>, q: seq<Bytes>)
    ensures Gathered(p + q) == Gathered(p) + Gathered(q)
  {
    if p == [] {
      assert p + q == q;
    } else {
      assert (p + q)[1..] == p[1..] + q;
      GatheredAppend(p[1..], q);
    }
  }

  lemma GatheredOne(b: Bytes)
    ensures Gathered([b]) == b
  {}

  lemma ScatteredIsEncoded(topic: u32, seqNum: u16, extra: Bytes, data: Bytes)
    requires |extra| + |data| < 0x1_0000
    ensures Gathered(Scattered(topic, seqNum, extra, data)) == Encoded(topic, seqNum, extra + data)
  {
    hide Gathered, Header;
    var header := Header(topic, seqNum, |extra| + |data|, 0);
    var e, d := Present(extra), Present(data);
    GatheredTwo([START], header);
    GatheredPresent(extra);
    GatheredPresent(data);
    GatheredOne([STOP]);
    GatheredAppend([[START], header], e);
    GatheredAppend([[START], header] + e, d);
    GatheredAppend([[START], header] + e + d, [[STOP]]);
    Regroups([START] + header, extra, data, [STOP]);
  }

  lemma GatheredTwo(a: Bytes, b: Bytes)
    ensures Gathered([a, b]) == a + b
  {
    GatheredOne(b);
    assert [a, b][1..] == [b];
  }

  lemma GatheredPresent(b: Bytes)
    ensures Gathered(Present(b)) == b
  {
    GatheredOne(b);
  }

  lemma Regroups(a: Bytes, b: Bytes, c: Bytes, d: Bytes)
    ensures a + b + c + d == a + (b + c) + d
  {}
}
