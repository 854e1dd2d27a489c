/** An image's way from publisher to callback: chunk headers, frames, sequence numbers, duplicate suppression,
    the topic handler and the reassembler, composed. */
module EndToEnd {
  import opened Options
  import opened Wire
  import opened Reassembly
  import Frame
  import Dedup

  // ----- Chunks on the wire -----

  datatype Kind = Image | CompressedImage

  /** What a chunk repeats of its image: nothing, or capture time and encoder quality. */
  datatype Meta = NoMeta | Stamp(captureTime: u64, quality: byte)

  predicate Matches(kind: Kind, meta: Meta)
  {
    kind.Image? <==> meta.NoMeta?
  }

  function HeaderBytes(kind: Kind): nat
  {
    if kind.Image? then 10 else 19
  }

  function DataBytes(kind: Kind): (d: nat)
    ensures d > 0 && HeaderBytes(kind) + d == Frame.MAX_PAYLOAD
  {
    if kind.Image? then IMAGE_DATA_BYTES else COMPRESSED_DATA_BYTES
  }

  function MetaBytes(meta: Meta): Bytes
  {
    match meta
    case NoMeta => []
    case Stamp(captureTime, quality) => Le64(captureTime) + [quality]
  }

  function ChunkHeader(c: Chunk<Meta>): (h: Bytes)
    requires |c.data| < 0x1_0000
    ensures |h| == if c.meta.NoMeta? then 10 else 19
  {
    Le32(c.frameId) + Le16(c.index) + Le16(c.count) + Le16(|c.data|) + MetaBytes(c.meta)
  }

  /** Where each field of a chunk's header stands. */
  lemma ChunkLayout(c: Chunk<Meta>)
    requires |c.data| < 0x1_0000
    ensures var h := ChunkHeader(c);
      && h[0..4] == Le32(c.frameId) && h[4..6] == Le16(c.index)
      && h[6..8] == Le16(c.count) && h[8..10] == Le16(|c.data|)
      && (c.meta.Stamp? ==> h[10..18] == Le64(c.meta.captureTime) && h[18] == c.meta.quality)
  {
    hide Le16, Le32, Le64;
  }

  /** The topic handler's reading of a payload; anything inconsistent is dropped. */
  function Parse(kind: Kind, payload: Bytes): Option<Chunk<Meta>>
  {
    if |payload| < HeaderBytes(kind) then None
    else if U16At(payload, 8) != |payload| - HeaderBytes(kind) then None
    else
      var meta := if kind.Image? then NoMeta else Stamp(U64At(payload, 10), payload[18]);
      Some(Chunk(U32At(payload, 0), U16At(payload, 4), U16At(payload, 6), payload[HeaderBytes(kind)..], meta))
  }

  /** The handler gets back every chunk the publisher wrote. */
  lemma ParsesChunk(kind: Kind, c: Chunk<Meta>)
    requires |c.data| < 0x1_0000 && Matches(kind, c.meta)
    ensures Parse(kind, ChunkHeader(c) + c.data) == Some(c)
  {}

  function FrameFor(topic: u32, seqNum: u16, c: Chunk<Meta>): Bytes
    requires |c.data| < 0x1_0000 - 19
  {
    Frame.Encoded(topic, seqNum, ChunkHeader(c) + c.data)
  }

  // ----- The publisher -----

  class Publisher {
    var seqCounter: u16

    /** Sends one frame from its pieces, drawing a fresh sequence number. */
    method PublishScattered(topic: u32, extra: Bytes, data: Bytes) returns (sent: Option<Bytes>)
      modifies this
      ensures sent.Some? <==> |extra| + |data| <= Frame.MAX_PAYLOAD
      ensures sent.Some? ==> sent.value == Frame.Encoded(topic, old(seqCounter), extra + data)
      ensures seqCounter == if sent.Some? then (old(seqCounter) + 1) % 0x1_0000 else old(seqCounter)
    {
      if |extra| + |data| > Frame.MAX_PAYLOAD {
        return None;
      }
      var seqNum := seqCounter;
      seqCounter := (seqCounter + 1) % 0x1_0000;
      Frame.ScatteredIsEncoded(topic, seqNum, extra, data);
      return Some(Frame.Gathered(Frame.Scattered(topic, seqNum, extra, data)));
    }

    /** One chunk to every peer. */
    method PublishChunk(topic: u32, c: Chunk<Meta>, peers: nat) returns (copies: seq<Bytes>)
      requires |c.data| <= if c.meta.NoMeta? then IMAGE_DATA_BYTES else COMPRESSED_DATA_BYTES
      modifies this
      ensures |copies| == peers && seqCounter == Dedup.SeqOf(old(seqCounter), peers)
      ensures forall q :: 0 <= q < peers ==> copies[q] == FrameFor(topic, Dedup.SeqOf(old(seqCounter), q), c)
    {
      hide Frame.Encoded, ChunkHeader, Dedup.SeqOf;
      copies := [];
      SeqOfAdds(seqCounter, 0, 0);
      for q := 0 to peers
        invariant |copies| == q && seqCounter == Dedup.SeqOf(old(seqCounter), q)
        invariant forall j :: 0 <= j < q ==> copies[j] == FrameFor(topic, Dedup.SeqOf(old(seqCounter), j), c)
      {
        SeqOfNext(old(seqCounter), q);
        var sent := PublishScattered(topic, ChunkHeader(c), c.data);
        copies := copies + [sent.value];
      }
    }

    /** `rounds[i][q]` is what the i-th chunk's copy to peer `q` looks like on the wire; the rounds are sent in
        order. An image over the limit is refused and nothing is sent. */
    method PublishImage(kind: Kind, topic: u32, frameId: u32, p: Published<Meta>, peers: nat)
      returns (rounds: Option<seq<seq<Bytes>>>)
      requires Matches(kind, p.meta)
      modifies this
      ensures rounds.Some? <==> |p.image| <= MAX_CHUNKS * DataBytes(kind)
      ensures rounds.None? ==> seqCounter == old(seqCounter)
      ensures rounds.Some? ==> Rounds(kind, topic, frameId, p, old(seqCounter), peers, rounds.value)
    {
      var d := DataBytes(kind);
      if |p.image| > MAX_CHUNKS * d {
        return None;
      }
      var count := CountChunks(|p.image|, d);
      hide Frame.Encoded, ChunkHeader, Piece, ChunkCount, Dedup.SeqOf, FrameFor, RoundIs, ChunkOf;
      var out: seq<seq<Bytes>> := [];
      SeqOfAdds(seqCounter, 0, 0);
      for i := 0 to count
        invariant seqCounter == Dedup.SeqOf(old(seqCounter), i * peers)
        invariant |out| == i
        invariant forall j :: 0 <= j < i ==>
          RoundIs(kind, topic, frameId, p, old(seqCounter), peers, j, out[j])
      {
        var c := Cut(frameId, p, i, count, d);
        var copies := PublishChunk(topic, c, peers);
        RoundSent(kind, topic, frameId, p, old(seqCounter), peers, i, copies);
        out := out + [copies];
      }
      return Some(out);
    }
  }

  lemma SeqOfNext(start: u16, n: nat)
    ensures Dedup.SeqOf(start, n + 1) == (Dedup.SeqOf(start, n) + 1) % 0x1_0000
  {}

  lemma SeqOfAdds(start: u16, m: nat, n: nat)
    ensures Dedup.SeqOf(start, 0) == start
    ensures Dedup.SeqOf(Dedup.SeqOf(start, m), n) == Dedup.SeqOf(start, m + n)
  {}

  /** The copies of chunk `i`, one per peer, from the sequence counter `start` at the first chunk. */
  ghost predicate RoundIs(kind: Kind, topic: u32, frameId: u32, p: Published<Meta>, start: u16, peers: nat,
                          i: nat, copies: seq<Bytes>)
  {
    var d := DataBytes(kind);
    && |p.image| <= MAX_CHUNKS * d && i < ChunkCount(|p.image|, d)
    && |copies| == peers
    && forall q :: 0 <= q < peers ==>
         copies[q] == FrameFor(topic, Dedup.SeqOf(start, i * peers + q), ChunkOf(frameId, p, i, d))
  }

  ghost predicate Rounds(kind: Kind, topic: u32, frameId: u32, p: Published<Meta>, start: u16, peers: nat,
                         rounds: seq<seq<Bytes>>)
  {
    && |rounds| == ChunkCount(|p.image|, DataBytes(kind))
    && forall i :: 0 <= i < |rounds| ==> RoundIs(kind, topic, frameId, p, start, peers, i, rounds[i])
  }

  lemma RoundSent(kind: Kind, topic: u32, frameId: u32, p: Published<Meta>, start: u16, peers: nat,
                  i: nat, copies: seq<Bytes>)
    requires var d := DataBytes(kind); |p.image| <= MAX_CHUNKS * d && i < ChunkCount(|p.image|, d)
    requires |copies| == peers
    requires forall q :: 0 <= q < peers ==>
               copies[q] == FrameFor(topic, Dedup.SeqOf(Dedup.SeqOf(start, i * peers), q),
                                     ChunkOf(frameId, p, i, DataBytes(kind)))
    ensures RoundIs(kind, topic, frameId, p, start, peers, i, copies)
    ensures Dedup.SeqOf(Dedup.SeqOf(start, i * peers), peers) == Dedup.SeqOf(start, (i + 1) * peers)
  {
    hide Frame.Encoded, ChunkHeader, Piece, ChunkCount, Dedup.SeqOf, FrameFor, ChunkOf;
    forall q: nat | q < peers
      ensures Dedup.SeqOf(Dedup.SeqOf(start, i * peers), q) == Dedup.SeqOf(start, i * peers + q)
    {
      SeqOfAdds(start, i * peers, q);
    }
    SeqOfAdds(start, i * peers, peers);
    assert (i + 1) * peers == i * peers + peers;
  }

  // ----- The subscriber -----

  datatype Config = Config(kind: Kind, topic: u32, dedup: bool)

  /** The reassembler, and per topic the sequence numbers accepted so far. */
  datatype Subscriber = Subscriber(reassembly: State<Meta>, history: map<u32, seq<u16>>)

  /** The chunk a datagram carries for this subscription, if any. */
  function ChunkIn(cfg: Config, datagram: Bytes): Option<Chunk<Meta>>
  {
    var f := Frame.Decode(datagram);
    if f.Ok? && f.topic == cfg.topic then Parse(cfg.kind, f.payload) else None
  }

  /** Duplicate suppression runs on every frame, of whatever topic, before any handler is looked up. */
  function Arrive(cfg: Config, s: Subscriber, datagram: Bytes): (Subscriber, Option<Delivery<Meta>>)
  {
    var f := Frame.Decode(datagram);
    var accepted := if f.Ok? then Dedup.AcceptedOn(s.history, f.topic) else [];
    if !f.Ok? || (cfg.dedup && f.seqNum in Dedup.Last(accepted)) then (s, None)
    else
      var s1 := if cfg.dedup then s.(history := s.history[f.topic := accepted + [f.seqNum]]) else s;
      var c := ChunkIn(cfg, datagram);
      if c.None? then (s1, None)
      else
        var (st, delivered) := Receive(s.reassembly, c.value, DataBytes(cfg.kind));
        (s1.(reassembly := st), delivered)
  }

  class Subscription {
    const cfg: Config
    const window: Dedup.Receiver
    const reassembler: Reassembler<Meta>

    ghost predicate Is(s: Subscriber)
      reads window, reassembler
    {
      && reassembler.d == DataBytes(cfg.kind) && reassembler.View() == s.reassembly
      && window.Remembers(s.history)
    }

    constructor (cfg: Config, meta: Meta)
      ensures this.cfg == cfg && Is(Subscriber(Fresh(meta), map[]))
    {
      this.cfg := cfg;
      window := new Dedup.Receiver();
      reassembler := new Reassembler<Meta>(DataBytes(cfg.kind), meta);
    }

    /** One datagram received and dispatched. The reassembler's unchecked copies put a demand on the chunk. */
    method ReceiveAndDispatch(datagram: Bytes, ghost s: Subscriber) returns (delivered: Option<Delivery<Meta>>)
      requires Is(s)
      requires ChunkIn(cfg, datagram).Some? ==>
                 InBounds(s.reassembly, ChunkIn(cfg, datagram).value, DataBytes(cfg.kind))
      modifies window, reassembler
      ensures Is(Arrive(cfg, s, datagram).0) && delivered == Arrive(cfg, s, datagram).1
    {
      hide Receive, InBounds, Frame.Decode, Parse;
      delivered := None;
      var f := Frame.Decode(datagram);
      if !f.Ok? {
        return;
      }
      if cfg.dedup {
        var duplicate := window.IsRecentDuplicate(f.topic, f.seqNum, s.history);
        if duplicate {
          ghost var accepted := Dedup.AcceptedOn(s.history, f.topic);
          assert s.history[f.topic := accepted] == s.history;
          return;
        }
      }
      if f.topic == cfg.topic {
        var c := Parse(cfg.kind, f.payload);
        if c.Some? {
          delivered := reassembler.OnChunk(c.value);
        }
      }
    }
  }

  function Arrivals(cfg: Config, s: Subscriber, datagrams: seq<Bytes>): (r: (Subscriber, seq<Option<Delivery<Meta>>>))
    ensures |r.1| == |datagrams|
    decreases |datagrams|
  {
    if datagrams == [] then (s, [])
    else
      var front := Arrivals(cfg, s, datagrams[..|datagrams| - 1]);
      var last := Arrive(cfg, front.0, datagrams[|datagrams| - 1]);
      (last.0, front.1 + [last.1])
  }

  // ----- Safety over any network -----

  /** Every chunk that reaches the subscription was published; anything else may arrive too. */
  ghost predicate OnlyPublished(cfg: Config, img: u32 -> Published<Meta>, datagrams: seq<Bytes>)
  {
    forall k :: 0 <= k < |datagrams| && ChunkIn(cfg, datagrams[k]).Some? ==>
      Made(img, ChunkIn(cfg, datagrams[k]).value, DataBytes(cfg.kind))
  }

  ghost predicate IsPublished(img: u32 -> Published<Meta>, delivered: Option<Delivery<Meta>>)
  {
    delivered.Some? ==> delivered == Whole(img, delivered.value.frameId)
  }

  /** Whatever the network loses, repeats, reorders or mixes with other traffic, with or without duplicate
      suppression, every callback gets exactly an image that was published under that frame id. */
  lemma {:induction false} NetworkSafe(cfg: Config, img: u32 -> Published<Meta>, s: Subscriber, datagrams: seq<Bytes>)
    requires Inv(s.reassembly, img, DataBytes(cfg.kind)) && OnlyPublished(cfg, img, datagrams)
    ensures Inv(Arrivals(cfg, s, datagrams).0.reassembly, img, DataBytes(cfg.kind))
    ensures forall k :: 0 <= k < |datagrams| ==> IsPublished(img, Arrivals(cfg, s, datagrams).1[k])
    decreases |datagrams|
  {
    hide Inv, Made, Receive, ChunkIn, Frame.Decode;
    if datagrams != [] {
      var n := |datagrams| - 1;
      NetworkSafe(cfg, img, s, datagrams[..n]);
      var before := Arrivals(cfg, s, datagrams[..n]).0;
      var c := ChunkIn(cfg, datagrams[n]);
      if c.Some? {
        ReceiveOutcome(before.reassembly, img, c.value, DataBytes(cfg.kind));
      }
    }
  }

  // ----- Delivery -----

  /** A chunk of this kind, small enough for one frame. */
  ghost predicate Sendable(kind: Kind, c: Chunk<Meta>)
  {
    Matches(kind, c.meta) && |c.data| <= DataBytes(kind)
  }

  lemma CarriesChunk(cfg: Config, seqNum: u16, c: Chunk<Meta>)
    requires Sendable(cfg.kind, c)
    ensures Frame.Decode(FrameFor(cfg.topic, seqNum, c)) == Frame.Ok(cfg.topic, seqNum, ChunkHeader(c) + c.data)
    ensures ChunkIn(cfg, FrameFor(cfg.topic, seqNum, c)) == Some(c)
  {
    hide Frame.Decode, Parse, ChunkHeader, Frame.Encoded;
    ParsesChunk(cfg.kind, c);
    Frame.DecodesEncoded(cfg.topic, seqNum, ChunkHeader(c) + c.data);
  }

  ghost predicate Carries(cfg: Config, datagrams: seq<Bytes>, nums: seq<u16>, chunks: seq<Chunk<Meta>>)
  {
    && |nums| == |datagrams| && |chunks| == |datagrams|
    && forall k :: 0 <= k < |chunks| ==>
         Sendable(cfg.kind, chunks[k]) && datagrams[k] == FrameFor(cfg.topic, nums[k], chunks[k])
  }

  /** Of frames numbered `nums`, those duplicate suppression lets through after having accepted `past`. */
  function Kept<T>(dedup: bool, past: seq<u16>, nums: seq<u16>, xs: seq<T>): (kept: seq<T>)
    requires |nums| == |xs|
    ensures |kept| <= |xs|
    decreases |xs|
  {
    if xs == [] then []
    else
      var n := |xs| - 1;
      var front := Kept(dedup, past, nums[..n], xs[..n]);
      if dedup && nums[n] in Dedup.Last(Dedup.Run(past, nums[..n])) then front else front + [xs[n]]
  }

  /** No arrival repeats one of the eight accepted before it. */
  ghost predicate Clear(past: seq<u16>, nums: seq<u16>)
  {
    forall k :: 0 <= k < |nums| ==> nums[k] !in Dedup.Last(past + nums[..k])
  }

  lemma ClearStep(past: seq<u16>, nums: seq<u16>)
    requires nums != []
    ensures var n := |nums| - 1;
      Clear(past, nums) <==> Clear(past, nums[..n]) && nums[n] !in Dedup.Last(past + nums[..n])
  {
    hide Dedup.Last;
    var n := |nums| - 1;
    assert forall k :: 0 <= k < n ==> nums[..n][..k] == nums[..k];
  }

  /** Everything is let through exactly then. */
  lemma {:induction false} KeptExactly<T>(dedup: bool, past: seq<u16>, nums: seq<u16>, xs: seq<T>)
    requires |nums| == |xs|
    ensures if !dedup || Clear(past, nums)
            then Kept(dedup, past, nums, xs) == xs && (dedup ==> Dedup.Run(past, nums) == past + nums)
            else |Kept(dedup, past, nums, xs)| < |xs|
    decreases |xs|
  {
    hide Dedup.Last, Clear;
    if xs == [] {
      NothingUnclear(past);
    } else {
      var n := |xs| - 1;
      KeptExactly(dedup, past, nums[..n], xs[..n]);
      ClearStep(past, nums);
      KeptStep(dedup, past, nums, xs);
      hide Kept;
      assert xs == xs[..n] + [xs[n]] && past + nums == past + nums[..n] + [nums[n]];
    }
  }

  lemma NothingUnclear(past: seq<u16>)
    ensures Clear(past, []) && past + [] == past
  {}

  lemma {:induction false} KeptHas<T>(dedup: bool, past: seq<u16>, nums: seq<u16>, xs: seq<T>, x: T)
    requires |nums| == |xs| && x in Kept(dedup, past, nums, xs)
    ensures x in xs
    decreases |xs|
  {
    hide Dedup.Last;
    var n := |xs| - 1;
    if x != xs[n] {
      KeptHas(dedup, past, nums[..n], xs[..n], x);
    }
  }

  lemma {:induction false} KeptDistinct(dedup: bool, past: seq<u16>, nums: seq<u16>, chunks: seq<Chunk<Meta>>)
    requires |nums| == |chunks| && Distinct(chunks)
    ensures Distinct(Kept(dedup, past, nums, chunks))
    decreases |chunks|
  {
    hide Dedup.Last;
    if chunks != [] {
      var n := |chunks| - 1;
      var front := Kept(dedup, past, nums[..n], chunks[..n]);
      KeptDistinct(dedup, past, nums[..n], chunks[..n]);
      forall k | 0 <= k < |front|
        ensures front[k].index != chunks[n].index
      {
        KeptHas(dedup, past, nums[..n], chunks[..n], front[k]);
      }
    }
  }

  lemma ArriveFrame(cfg: Config, s: Subscriber, seqNum: u16, c: Chunk<Meta>)
    requires Sendable(cfg.kind, c)
    ensures var past := Dedup.AcceptedOn(s.history, cfg.topic);
      var after := Arrive(cfg, s, FrameFor(cfg.topic, seqNum, c));
      var received := Receive(s.reassembly, c, DataBytes(cfg.kind));
      && (cfg.dedup ==> Dedup.AcceptedOn(after.0.history, cfg.topic) == Dedup.Filtered(past, seqNum))
      && if cfg.dedup && seqNum in Dedup.Last(past) then after == (s, None)
         else after.0.reassembly == received.0 && after.1 == received.1
  {
    hide Receive, ChunkIn, Frame.Decode, FrameFor, Dedup.Last;
    CarriesChunk(cfg, seqNum, c);
  }

  /** What the reassembler sees of frames on the wire is the chunks let through. */
  lemma {:induction false} ArrivalsAreRun(cfg: Config, s: Subscriber, datagrams: seq<Bytes>, nums: seq<u16>,
                                          chunks: seq<Chunk<Meta>>)
    requires Carries(cfg, datagrams, nums, chunks)
    ensures var past := Dedup.AcceptedOn(s.history, cfg.topic);
      var after := Arrivals(cfg, s, datagrams).0;
      && after.reassembly == Run(s.reassembly, Kept(cfg.dedup, past, nums, chunks), DataBytes(cfg.kind)).0
      && (cfg.dedup ==> Dedup.AcceptedOn(after.history, cfg.topic) == Dedup.Run(past, nums))
    decreases |datagrams|
  {
    hide Receive, Arrive, FrameFor, Sendable, Dedup.Last, Dedup.Filtered;
    if datagrams != [] {
      var n := |datagrams| - 1;
      ArrivalsAreRun(cfg, s, datagrams[..n], nums[..n], chunks[..n]);
      ArriveFrame(cfg, Arrivals(cfg, s, datagrams[..n]).0, nums[n], chunks[n]);
      RunMore(s.reassembly, Kept(cfg.dedup, Dedup.AcceptedOn(s.history, cfg.topic), nums[..n], chunks[..n]), chunks[n],
              DataBytes(cfg.kind));
    }
  }

  lemma RunMore(st: State<Meta>, chunks: seq<Chunk<Meta>>, c: Chunk<Meta>, d: nat)
    ensures var before, after := Run(st, chunks, d), Run(st, chunks + [c], d);
      var received := Receive(before.0, c, d);
      after.0 == received.0 && after.1 == before.1 + [received.1]
  {
    hide Receive;
    assert (chunks + [c])[..|chunks|] == chunks;
  }

  /** The chunks of one image, none twice. */
  ghost predicate OnceEach(img: u32 -> Published<Meta>, frameId: u32, chunks: seq<Chunk<Meta>>, d: nat)
  {
    && d > 0 && AllMade(img, chunks, d) && AllOf(chunks, frameId) && Distinct(chunks)
    && |chunks| <= ChunkCount(|img(frameId).image|, d)
  }

  lemma KeptOnceEach(dedup: bool, past: seq<u16>, nums: seq<u16>, img: u32 -> Published<Meta>, frameId: u32,
                     chunks: seq<Chunk<Meta>>, d: nat)
    requires |nums| == |chunks| && OnceEach(img, frameId, chunks, d)
    ensures OnceEach(img, frameId, Kept(dedup, past, nums, chunks), d)
  {
    hide Made, ChunkCount, Kept;
    var kept := Kept(dedup, past, nums, chunks);
    KeptDistinct(dedup, past, nums, chunks);
    forall k | 0 <= k < |kept|
      ensures Made(img, kept[k], d) && kept[k].frameId == frameId
    {
      KeptHas(dedup, past, nums, chunks, kept[k]);
    }
  }

  ghost predicate NotBegun(st: State<Meta>, frameId: u32)
  {
    st.inProgress ==> st.frameId != frameId
  }

  /** The position of the callback: the last arrival, or none. */
  ghost function CallbackAt(dedup: bool, past: seq<u16>, nums: seq<u16>, n: nat): nat
    requires n > 0
  {
    if !dedup || Clear(past, nums) then n - 1 else n
  }

  lemma {:induction false} OutcomesExactly(cfg: Config, s: Subscriber, img: u32 -> Published<Meta>, frameId: u32,
                                           datagrams: seq<Bytes>, nums: seq<u16>, chunks: seq<Chunk<Meta>>)
    requires Carries(cfg, datagrams, nums, chunks) && OnceEach(img, frameId, chunks, DataBytes(cfg.kind))
    requires Inv(s.reassembly, img, DataBytes(cfg.kind)) && NotBegun(s.reassembly, frameId)
    ensures var past := Dedup.AcceptedOn(s.history, cfg.topic);
      var n := ChunkCount(|img(frameId).image|, DataBytes(cfg.kind));
      Arrivals(cfg, s, datagrams).1 ==
      OnlyAt(CallbackAt(cfg.dedup, past, nums, n), |datagrams|, Whole(img, frameId))
    decreases |datagrams|
  {
    hide Receive, Arrive, FrameFor, Sendable, Dedup.Last, Dedup.Filtered, Inv, Made, ChunkCount, Whole, OnlyAt, Clear,
      Run;
    var past, n := Dedup.AcceptedOn(s.history, cfg.topic), ChunkCount(|img(frameId).image|, DataBytes(cfg.kind));
    if datagrams == [] {
      OnlyAtStep(CallbackAt(cfg.dedup, past, nums, n), 0, Whole(img, frameId));
    } else {
      var m := |datagrams| - 1;
      OutcomesExactly(cfg, s, img, frameId, datagrams[..m], nums[..m], chunks[..m]);
      var at := CallbackAt(cfg.dedup, past, nums, n);
      OnlyAtLate(CallbackAt(cfg.dedup, past, nums[..m], n), at, m, Whole(img, frameId));
      OnlyAtStep(at, m, Whole(img, frameId));
      LastOutcome(cfg, s, img, frameId, datagrams, nums, chunks);
    }
  }

  /** Before the last position, where the callback will be makes no difference. */
  lemma OnlyAtLate<T>(a: nat, b: nat, len: nat, x: Option<T>)
    requires len <= a && len <= b
    ensures OnlyAt(a, len, x) == OnlyAt(b, len, x)
  {}

  lemma LastOutcome(cfg: Config, s: Subscriber, img: u32 -> Published<Meta>, frameId: u32,
                    datagrams: seq<Bytes>, nums: seq<u16>, chunks: seq<Chunk<Meta>>)
    requires Carries(cfg, datagrams, nums, chunks) && OnceEach(img, frameId, chunks, DataBytes(cfg.kind))
    requires Inv(s.reassembly, img, DataBytes(cfg.kind)) && NotBegun(s.reassembly, frameId)
    requires datagrams != []
    ensures var past := Dedup.AcceptedOn(s.history, cfg.topic);
      var n := ChunkCount(|img(frameId).image|, DataBytes(cfg.kind));
      var m := |datagrams| - 1;
      Arrivals(cfg, s, datagrams).1[m] ==
      if m == CallbackAt(cfg.dedup, past, nums, n) then Whole(img, frameId) else None
  {
    hide Receive, Arrive, FrameFor, Sendable, Dedup.Last, Dedup.Filtered, Dedup.Run, Inv, Made, ChunkCount, Whole,
      Clear, Run, Kept, OnlyAt, OnceEach;
    var d, m := DataBytes(cfg.kind), |datagrams| - 1;
    var n := ChunkCount(|img(frameId).image|, d);
    var past := Dedup.AcceptedOn(s.history, cfg.topic);
    var before := Arrivals(cfg, s, datagrams[..m]).0;
    var front, all := Kept(cfg.dedup, past, nums[..m], chunks[..m]), Kept(cfg.dedup, past, nums, chunks);
    ArrivalsAreRun(cfg, s, datagrams[..m], nums[..m], chunks[..m]);
    ArriveFrame(cfg, before, nums[m], chunks[m]);
    KeptExactly(cfg.dedup, past, nums, chunks);
    KeptStep(cfg.dedup, past, nums, chunks);
    OnceEachSize(img, frameId, chunks, d);
    if all != front {
      KeptOnceEach(cfg.dedup, past, nums, img, frameId, chunks, d);
      LastDelivered(s.reassembly, img, frameId, front, chunks[m], d);
    }
  }

  lemma OnceEachSize(img: u32 -> Published<Meta>, frameId: u32, chunks: seq<Chunk<Meta>>, d: nat)
    requires OnceEach(img, frameId, chunks, d)
    ensures |chunks| <= ChunkCount(|img(frameId).image|, d)
  {}

  lemma KeptStep<T>(dedup: bool, past: seq<u16>, nums: seq<u16>, xs: seq<T>)
    requires |nums| == |xs| && xs != []
    ensures var n := |xs| - 1;
      var front := Kept(dedup, past, nums[..n], xs[..n]);
      Kept(dedup, past, nums, xs) ==
      if dedup && nums[n] in Dedup.Last(Dedup.Run(past, nums[..n])) then front else front + [xs[n]]
  {
    hide Dedup.Last, Dedup.Run;
  }

  lemma LastDelivered(st: State<Meta>, img: u32 -> Published<Meta>, frameId: u32, front: seq<Chunk<Meta>>,
                      c: Chunk<Meta>, d: nat)
    requires OnceEach(img, frameId, front + [c], d)
    requires Inv(st, img, d) && NotBegun(st, frameId)
    ensures Receive(Run(st, front, d).0, c, d).1 ==
            if |front| + 1 == ChunkCount(|img(frameId).image|, d) then Whole(img, frameId) else None
  {
    hide Receive, Inv, Made, ChunkCount, Whole, Run;
    DeliveredOnce(st, img, frameId, front + [c], d);
    RunMore(st, front, c, d);
    assert Run(st, front + [c], d).1[|front|] == Receive(Run(st, front, d).0, c, d).1;
  }

  /** `order` is a permutation of 0 .. n - 1. */
  ghost predicate IsOrder(order: seq<nat>, n: nat)
  {
    && |order| == n
    && (forall k :: 0 <= k < n ==> order[k] < n)
    && forall j, k :: 0 <= j < k < n ==> order[j] != order[k]
  }

  /** The frames of an image, each once and in a given order. */
  ghost predicate FramesOf(cfg: Config, frameId: u32, p: Published<Meta>, datagrams: seq<Bytes>, nums: seq<u16>,
                           order: seq<nat>)
  {
    var d := DataBytes(cfg.kind);
    && |p.image| <= MAX_CHUNKS * d && Matches(cfg.kind, p.meta)
    && IsOrder(order, ChunkCount(|p.image|, d)) && |datagrams| == |nums| == |order|
    && forall k :: 0 <= k < |order| ==> datagrams[k] == FrameFor(cfg.topic, nums[k], ChunkOf(frameId, p, order[k], d))
  }

  /** Each frame of an image arriving once, in any order, at a subscriber that is not in the middle of it: exactly one
      callback, at the last arrival, with the image published, if duplicate suppression is off or no arrival repeats
      one of the eight numbers accepted before it; and otherwise none at all. */
  lemma DeliveredExactly(cfg: Config, s: Subscriber, img: u32 -> Published<Meta>, frameId: u32,
                         datagrams: seq<Bytes>, nums: seq<u16>, order: seq<nat>)
    requires FramesOf(cfg, frameId, img(frameId), datagrams, nums, order)
    requires Inv(s.reassembly, img, DataBytes(cfg.kind)) && NotBegun(s.reassembly, frameId)
    ensures var n := |order|;
      Arrivals(cfg, s, datagrams).1 ==
      if !cfg.dedup || Clear(Dedup.AcceptedOn(s.history, cfg.topic), nums)
      then OnlyAt(n - 1, n, Whole(img, frameId)) else seq(n, _ => None)
  {
    hide Piece, FrameFor, Arrivals, ChunkCount, Clear, Inv;
    var d, p, n := DataBytes(cfg.kind), img(frameId), |order|;
    var chunks := seq(n, k requires 0 <= k < n => ChunkOf(frameId, p, order[k], d));
    assert Carries(cfg, datagrams, nums, chunks);
    assert OnceEach(img, frameId, chunks, d);
    OutcomesExactly(cfg, s, img, frameId, datagrams, nums, chunks);
  }

  // ----- Publisher to callback -----

  predicate Wraps(k: int, peers: nat)
  {
    (k * peers) % 0x1_0000 == 0
  }

  /** Chunks `i` and `j` carry the same sequence number towards one of `peers` peers. */
  predicate Repeats(i: int, j: int, peers: nat)
  {
    Wraps(i - j, peers)
  }

  /** Sequence numbers of one peer's copies repeat exactly when the chunks' distance times the number of peers is a
      multiple of 65536. */
  lemma CopiesDistinct(start: u16, peers: nat, q: nat, i: nat, j: nat)
    ensures Dedup.SeqOf(start, i * peers + q) == Dedup.SeqOf(start, j * peers + q) <==> Repeats(i, j, peers)
  {
    hide Dedup.SeqOf;
    assert (i * peers + q) - (j * peers + q) == (i - j) * peers;
    Dedup.SeqOfCongruent(start, i * peers + q, start, j * peers + q);
  }

  /** No chunk arrives within eight of another that carries its number. */
  ghost predicate ClearOrder(order: seq<nat>, peers: nat)
  {
    forall j, k :: 0 <= j < k < |order| && k - j <= Dedup.WINDOW ==> !Repeats(order[k], order[j], peers)
  }

  lemma InLast(xs: seq<u16>, x: u16)
    ensures x in Dedup.Last(xs) <==> exists j :: 0 <= j < |xs| && |xs| - j <= Dedup.WINDOW && xs[j] == x
  {
    var last := Dedup.Last(xs);
    var skip := |xs| - |last|;
    assert forall i :: 0 <= i < |last| ==> last[i] == xs[skip + i];
    if j :| 0 <= j < |xs| && |xs| - j <= Dedup.WINDOW && xs[j] == x {
      assert last[j - skip] == x;
    }
  }

  /** One peer's number for each arrival. */
  function NumbersFor(start: u16, peers: nat, q: nat, order: seq<nat>): (nums: seq<u16>)
    ensures |nums| == |order|
  {
    seq(|order|, k requires 0 <= k < |order| => Dedup.SeqOf(start, order[k] * peers + q))
  }

  lemma ClearExactly(start: u16, peers: nat, q: nat, order: seq<nat>)
    ensures Clear([], NumbersFor(start, peers, q, order)) <==> ClearOrder(order, peers)
  {
    hide Dedup.SeqOf, Dedup.Last, Repeats;
    var nums := NumbersFor(start, peers, q, order);
    forall k | 0 <= k < |nums|
      ensures nums[k] in Dedup.Last([] + nums[..k]) <==>
              exists j :: 0 <= j < k && k - j <= Dedup.WINDOW && Repeats(order[k], order[j], peers)
    {
      InLast([] + nums[..k], nums[k]);
      assert forall j :: 0 <= j < k ==> ([] + nums[..k])[j] == nums[j];
      forall j | 0 <= j < k
        ensures nums[j] == nums[k] <==> Repeats(order[k], order[j], peers)
      {
        CopiesDistinct(start, peers, q, order[k], order[j]);
      }
    }
  }

  /** What peer `q` receives when its copies arrive in this order. */
  function CopiesIn(rounds: seq<seq<Bytes>>, q: nat, order: seq<nat>): (datagrams: seq<Bytes>)
    ensures |datagrams| == |order|
  {
    seq(|order|, k requires 0 <= k < |order| => Copy(rounds, order[k], q))
  }

  /** Chunk `i`'s copy to peer `q`. */
  function Copy(rounds: seq<seq<Bytes>>, i: nat, q: nat): Bytes
  {
    if i < |rounds| && q < |rounds[i]| then rounds[i][q] else []
  }

  /** What `PublishImage` sends to one peer, arriving at a fresh subscriber in any order: exactly one callback, at the
      last arrival, with the published bytes, an empty image included, if duplicate suppression is off or the order is
      clear; and otherwise none at all. */
  lemma PublishedIsDelivered(cfg: Config, start: u16, peers: nat, q: nat, rounds: seq<seq<Bytes>>,
                             frameId: u32, p: Published<Meta>, order: seq<nat>, meta: Meta)
    requires Rounds(cfg.kind, cfg.topic, frameId, p, start, peers, rounds) && q < peers
    requires |p.image| <= MAX_CHUNKS * DataBytes(cfg.kind) && Matches(cfg.kind, p.meta) && IsOrder(order, |rounds|)
    ensures var n := |rounds|;
      Arrivals(cfg, Subscriber(Fresh(meta), map[]), CopiesIn(rounds, q, order)).1 ==
      if !cfg.dedup || ClearOrder(order, peers)
      then OnlyAt(n - 1, n, Some(Delivery(frameId, p.image, p.meta))) else seq(n, _ => None)
  {
    hide Piece, FrameFor, Arrivals, ChunkCount, OnlyAt, Dedup.SeqOf, ChunkOf, Clear, ClearOrder;
    var datagrams, nums := CopiesIn(rounds, q, order), NumbersFor(start, peers, q, order);
    forall k | 0 <= k < |order|
      ensures datagrams[k] == FrameFor(cfg.topic, nums[k], ChunkOf(frameId, p, order[k], DataBytes(cfg.kind)))
    {
      assert RoundIs(cfg.kind, cfg.topic, frameId, p, start, peers, order[k], rounds[order[k]]);
    }
    ClearExactly(start, peers, q, order);
    var img: u32 -> Published<Meta> := _ => p;
    DeliveredExactly(cfg, Subscriber(Fresh(meta), map[]), img, frameId, datagrams, nums, order);
  }

  // ----- Which orders are clear -----

  /** No two chunks of an image of `n` chunks share a sequence number towards one of `peers` peers. */
  ghost predicate NoSeqRepeats(n: nat, peers: nat)
  {
    forall k :: 0 < k < n ==> !Wraps(k, peers)
  }

  /** Never with one peer: an image has at most 65535 chunks. */
  lemma SmallFanoutNeverRepeats(n: nat, peers: nat)
    requires 0 < peers && n * peers <= 0x1_0000
    ensures NoSeqRepeats(n, peers)
  {}

  lemma WrapsBack(k: int, peers: nat)
    ensures Wraps(-k, peers) <==> Wraps(k, peers)
  {
    assert (-k) * peers == -(k * peers);
  }

  function Difference(i: int, j: int): int
  {
    i - j
  }

  /** The order in which chunk `d` overtakes all but chunk 0. */
  function Overtaking(n: nat, d: nat): (order: seq<nat>)
    requires 0 < d < n
  {
    seq(n, k requires 0 <= k < n => if k == 1 then d else if 1 < k <= d then k - 1 else k)
  }

  /** Every order of `n` chunks is clear exactly when no two of them share a number. */
  lemma EveryOrderClear(n: nat, peers: nat)
    ensures (forall order :: IsOrder(order, n) ==> ClearOrder(order, peers)) <==> NoSeqRepeats(n, peers)
  {
    hide Wraps;
    if NoSeqRepeats(n, peers) {
      forall order, j, k | IsOrder(order, n) && 0 <= j < k < n
        ensures !Repeats(order[k], order[j], peers)
      {
        WrapsBack(Difference(order[k], order[j]), peers);
      }
    } else {
      var d :| 0 < d < n && Wraps(d, peers);
      var order := Overtaking(n, d);
      assert IsOrder(order, n) && Repeats(order[1], order[0], peers);
      assert !ClearOrder(order, peers);
    }
  }

  /** In the order sent, an image of any size is clear towards fewer than 8192 peers. */
  lemma InOrderClear(n: nat, peers: nat)
    requires 0 < peers < 0x2000
    ensures ClearOrder(seq(n, k => k), peers)
  {
    var order: seq<nat> := seq(n, k => k);
    forall j, k | 0 <= j < k < n && k - j <= Dedup.WINDOW
      ensures !Repeats(order[k], order[j], peers)
    {
      assert 0 < (k - j) * peers < 0x1_0000;
    }
  }

  /** To two peers, an image of more than 32768 chunks is lost to a subscriber with duplicate suppression when chunk
      32768 overtakes the others: no callback comes. */
  lemma OvertakenImageLost(cfg: Config, start: u16, q: nat, rounds: seq<seq<Bytes>>,
                           frameId: u32, p: Published<Meta>, meta: Meta)
    requires Rounds(cfg.kind, cfg.topic, frameId, p, start, 2, rounds) && q < 2 && |rounds| > 0x8000 && cfg.dedup
    requires |p.image| <= MAX_CHUNKS * DataBytes(cfg.kind) && Matches(cfg.kind, p.meta)
    ensures Arrivals(cfg, Subscriber(Fresh(meta), map[]), CopiesIn(rounds, q, Overtaking(|rounds|, 0x8000))).1 ==
            seq(|rounds|, _ => None)
  {
    hide Rounds, Arrivals;
    var order := Overtaking(|rounds|, 0x8000);
    assert IsOrder(order, |rounds|) && Repeats(order[1], order[0], 2);
    PublishedIsDelivered(cfg, start, 2, q, rounds, frameId, p, order, meta);
  }
}
