/** Splitting an image into chunks that fit one datagram, and putting the chunks together again.
    Image and CompressedImage share this code shape; they differ in the bytes per chunk (`d`) and in
    the metadata every chunk repeats (`M`: nothing, or capture time and quality). */
module Reassembly {
  import opened Options
  import opened Wire
  import opened Slots

  const MAX_CHUNKS := 0xFFFF

  /** kMaxPayloadBytes less the chunk header. */
  const IMAGE_DATA_BYTES := 1400 - 10
  const COMPRESSED_DATA_BYTES := 1400 - 19

  datatype Chunk<M> = Chunk(frameId: u32, index: u16, count: u16, data: Bytes, meta: M)

  datatype Published<M> = Published(image: Bytes, meta: M)

  datatype Delivery<M> = Delivery(frameId: u32, image: Bytes, meta: M)

  // ----- The splitter -----

  /** The number of chunks: the length over the chunk size, rounded up, and one for an empty image. */
  function ChunkCount(len: nat, d: nat): (n: nat)
    requires d > 0
    ensures n >= 1
  {
    if (len + d - 1) / d == 0 then 1 else (len + d - 1) / d
  }

  lemma DivideBounds(a: nat, d: nat)
    requires d > 0
    ensures (a / d) * d <= a < (a / d) * d + d
  {}

  lemma ChunkCountBounds(len: nat, d: nat)
    requires d > 0
    ensures var n := ChunkCount(len, d); (n - 1) * d <= len <= n * d && n * d == (n - 1) * d + d
    ensures len <= MAX_CHUNKS * d ==> ChunkCount(len, d) <= MAX_CHUNKS
  {
    DivideBounds(len + d - 1, d);
    var n := ChunkCount(len, d);
    SlotFits(n - 1, n, d);
    if n > MAX_CHUNKS {
      SlotFits(MAX_CHUNKS - 1, n - 1, d);
      if MAX_CHUNKS < n - 1 {
        SlotFits(MAX_CHUNKS, n - 1, d);
      }
    }
  }

  /** As few chunks as hold the image, and one for an empty image. */
  lemma ChunkCountIsLeast(len: nat, d: nat)
    requires d > 0
    ensures len <= ChunkCount(len, d) * d
    ensures if len == 0 then ChunkCount(len, d) == 1 else (ChunkCount(len, d) - 1) * d < len
  {
    ChunkCountBounds(len, d);
    DivideBounds(len + d - 1, d);
    if len > 0 {
      var n := (len + d - 1) / d;
      assert n * d <= len + d - 1;
      assert (n - 1) * d == n * d - d;
    }
  }

  /** The bytes of chunk `i`. */
  function Piece(image: Bytes, i: nat, d: nat): (p: Bytes)
    requires d > 0 && i < ChunkCount(|image|, d)
    ensures |p| <= d
  {
    PieceFits(image, i, d);
    image[i * d..if i * d + d < |image| then i * d + d else |image|]
  }

  lemma PieceFits(image: Bytes, i: nat, d: nat)
    requires d > 0 && i < ChunkCount(|image|, d)
    ensures i * d <= |image|
    ensures i < ChunkCount(|image|, d) - 1 ==> i * d + d <= |image|
  {
    var n := ChunkCount(|image|, d);
    ChunkCountBounds(|image|, d);
    if i < n - 1 {
      SlotFits(i, n - 1, d);
    }
  }

  lemma PieceCopied(image: Bytes, i: nat, d: nat)
    requires d > 0 && i < ChunkCount(|image|, d)
    ensures var at := i * d;
      at <= |image| && Piece(image, i, d) == image[at..at + (if d < |image| - at then d else |image| - at)]
  {
    PieceFits(image, i, d);
  }

  function ChunkOf<M>(frameId: u32, p: Published<M>, i: nat, d: nat): (c: Chunk<M>)
    requires d > 0 && |p.image| <= MAX_CHUNKS * d && i < ChunkCount(|p.image|, d)
    ensures |c.data| <= d && c.frameId == frameId && c.index == i && c.meta == p.meta
  {
    ChunkCountBounds(|p.image|, d);
    Chunk(frameId, i, ChunkCount(|p.image|, d), Piece(p.image, i, d), p.meta)
  }

  lemma CountFits(len: nat, d: nat)
    requires d > 0 && len <= MAX_CHUNKS * d
    ensures ChunkCount(len, d) < 0x1_0000
  {
    ChunkCountBounds(len, d);
  }

  method CountChunks(len: nat, d: nat) returns (count: nat)
    requires d > 0
    ensures count == ChunkCount(len, d)
  {
    count := (len + d - 1) / d;
    if count == 0 {
      count := 1;
    }
  }

  method Cut<M>(frameId: u32, p: Published<M>, i: nat, count: nat, d: nat) returns (c: Chunk<M>)
    requires d > 0 && |p.image| <= MAX_CHUNKS * d && i < count == ChunkCount(|p.image|, d)
    ensures c == ChunkOf(frameId, p, i, d)
  {
    hide Piece, ChunkCount, MAX_CHUNKS;
    CountFits(|p.image|, d);
    PieceCopied(p.image, i, d);
    var offset := i * d;
    var n := if d < |p.image| - offset then d else |p.image| - offset;
    c := Chunk(frameId, i, count, p.image[offset..offset + n], p.meta);
  }

  /** The splitter refuses what needs more than 65535 chunks and otherwise emits every chunk in order. */
  method Split<M>(frameId: u32, p: Published<M>, d: nat) returns (chunks: Option<seq<Chunk<M>>>)
    requires d > 0
    ensures chunks.Some? <==> |p.image| <= MAX_CHUNKS * d
    ensures chunks.Some? ==>
              && |chunks.value| == ChunkCount(|p.image|, d)
              && forall i :: 0 <= i < |chunks.value| ==> chunks.value[i] == ChunkOf(frameId, p, i, d)
  {
    if |p.image| > MAX_CHUNKS * d {
      return None;
    }
    var count := CountChunks(|p.image|, d);
    hide Piece, ChunkCount;
    var out: seq<Chunk<M>> := [];
    for i := 0 to count
      invariant |out| == i
      invariant forall k :: 0 <= k < i ==> out[k] == ChunkOf(frameId, p, k, d)
    {
      var c := Cut(frameId, p, i, count, d);
      out := out + [c];
    }
    return Some(out);
  }

  // ----- The reassembler -----

  datatype State<M> = State(inProgress: bool, frameId: u32, received: seq<bool>, buffer: Bytes,
                            count: nat, lastBytes: nat, meta: M)

  /** The state a chunk is stored into: a new frame discards whatever was in progress. */
  function Started<M>(st: State<M>, c: Chunk<M>, d: nat): State<M>
  {
    if c.frameId != st.frameId || !st.inProgress
    then State(true, c.frameId, seq(c.count, _ => false), seq(c.count * d, _ => 0), 0, st.lastBytes, c.meta)
    else st
  }

  function Stored<M>(st: State<M>, c: Chunk<M>, d: nat): State<M>
    requires c.index < |st.received|
  {
    st.(buffer := Put(st.buffer, c.index * d, c.data), received := st.received[c.index := true],
        count := st.count + 1, lastBytes := if c.index == c.count - 1 then |c.data| else st.lastBytes)
  }

  function Total(count: nat, lastBytes: nat, d: nat): nat
  {
    if count > 1 then (count - 1) * d + lastBytes else lastBytes
  }

  function Receive<M>(st: State<M>, c: Chunk<M>, d: nat): (State<M>, Option<Delivery<M>>)
  {
    var st1 := Started(st, c, d);
    if c.index >= |st1.received| || st1.received[c.index] then (st1, None)
    else
      var st2 := Stored(st1, c, d);
      var total := Total(c.count, st2.lastBytes, d);
      if st2.count == c.count && total <= |st2.buffer|
      then (st2.(inProgress := false), Some(Delivery(st2.frameId, st2.buffer[..total], st2.meta)))
      else (st2, None)
  }

  /** The code copies unchecked. It stays within its memory exactly when a chunk that is stored lies inside the buffer,
      and so does the image that is read when the count is reached. */
  ghost predicate InBounds<M>(st: State<M>, c: Chunk<M>, d: nat)
  {
    var st1 := Started(st, c, d);
    c.index < |st1.received| && !st1.received[c.index] ==>
      && c.index * d + |c.data| <= |st1.buffer|
      && (st1.count + 1 == c.count ==> Total(c.count, Stored(st1, c, d).lastBytes, d) <= |st1.buffer|)
  }

  class Reassembler<M> {
    const d: nat
    var inProgress: bool
    var frameId: u32
    var received: seq<bool>
    var buffer: Bytes
    var count: nat
    var lastBytes: nat
    var meta: M

    ghost function View(): State<M>
      reads this
    {
      State(inProgress, frameId, received, buffer, count, lastBytes, meta)
    }

    constructor (d: nat, meta: M)
      ensures this.d == d && View() == Fresh(meta)
    {
      this.d := d;
      this.meta := meta;
      inProgress, frameId, received, buffer, count, lastBytes := false, 0, [], [], 0, 0;
    }

    method OnChunk(c: Chunk<M>) returns (delivered: Option<Delivery<M>>)
      requires InBounds(View(), c, d)
      modifies this
      ensures (View(), delivered) == Receive(old(View()), c, d)
    {
      delivered := None;
      StartIfNew(c);
      if c.index >= |received| || received[c.index] {
        return;
      }
      Store(c);
      if count == c.count {
        var total := if c.count > 1 then (c.count - 1) * d + lastBytes else lastBytes;
        inProgress := false;
        delivered := Some(Delivery(frameId, buffer[..total], meta));
      }
    }

    method StartIfNew(c: Chunk<M>)
      modifies this
      ensures View() == Started(old(View()), c, d)
    {
      if c.frameId != frameId || !inProgress {
        frameId := c.frameId;
        inProgress := true;
        received := seq(c.count, _ => false);
        buffer := seq(c.count * d, _ => 0);
        count := 0;
        meta := c.meta;
      }
    }

    method Store(c: Chunk<M>)
      requires c.index < |received| && c.index * d + |c.data| <= |buffer|
      modifies this
      ensures View() == Stored(old(View()), c, d)
    {
      var at := c.index * d;
      buffer := buffer[..at] + c.data + buffer[at + |c.data|..];
      received := received[c.index := true];
      count := count + 1;
      if c.index == c.count - 1 {
        lastBytes := |c.data|;
      }
    }
  }

  lemma PlaceFits(i: nat, n: nat, d: nat, len: nat)
    requires i < n && len <= d
    ensures i * d + len <= n * d
  {
    SlotFits(i, n, d);
  }

  /** A reassembler that has seen nothing. */
  function Fresh<M>(meta: M): State<M>
  {
    State(false, 0, [], [], 0, 0, meta)
  }

  // ----- Counting received chunks -----

  function Trues(s: seq<bool>): (n: nat)
    ensures n <= |s|
  {
    if s == [] then 0 else Trues(s[..|s| - 1]) + (if s[|s| - 1] then 1 else 0)
  }

  lemma {:induction false} TruesSet(s: seq<bool>, i: nat)
    requires i < |s| && !s[i]
    ensures Trues(s[i := true]) == Trues(s) + 1
    decreases |s|
  {
    var t, front := s[i := true], s[..|s| - 1];
    if i < |s| - 1 {
      assert t[..|s| - 1] == front[i := true];
      TruesSet(front, i);
    } else {
      assert t[..|s| - 1] == front;
    }
  }

  lemma {:induction false} TruesAll(s: seq<bool>)
    ensures Trues(s) == |s| <==> forall i :: 0 <= i < |s| ==> s[i]
    decreases |s|
  {
    if s != [] {
      var front := s[..|s| - 1];
      TruesAll(front);
      assert forall i :: 0 <= i < |front| ==> front[i] == s[i];
    }
  }

  lemma {:induction false} TruesNone(n: nat)
    ensures Trues(seq(n, _ => false)) == 0
    decreases n
  {
    if n > 0 {
      assert seq(n, _ => false)[..n - 1] == seq(n - 1, _ => false);
      TruesNone(n - 1);
    }
  }

  // ----- The invariant -----

  /** `c` is a chunk the splitter makes from the image `img` publishes under the frame id of `c`. */
  ghost predicate Made<M(!new)>(img: u32 -> Published<M>, c: Chunk<M>, d: nat)
  {
    var p := img(c.frameId);
    d > 0 && |p.image| <= MAX_CHUNKS * d && c.index < ChunkCount(|p.image|, d) && c == ChunkOf(c.frameId, p, c.index, d)
  }

  /** Everything received so far is in its place in the buffer. */
  ghost predicate Holding<M(!new)>(st: State<M>, p: Published<M>, d: nat)
    requires d > 0
  {
    var n := ChunkCount(|p.image|, d);
    && |st.received| == n && |st.buffer| == n * d
    && st.count == Trues(st.received)
    && st.meta == p.meta
    && (forall i: nat :: i < n && st.received[i] ==> Piece(p.image, i, d) <= Slot(st.buffer, i, n, d))
    && (st.received[n - 1] ==> st.lastBytes == |Piece(p.image, n - 1, d)|)
  }

  ghost predicate Inv<M(!new)>(st: State<M>, img: u32 -> Published<M>, d: nat)
    requires d > 0
  {
    st.inProgress ==> Holding(st, img(st.frameId), d) && st.count < |st.received|
  }

  lemma StartedHolds<M(!new)>(st: State<M>, img: u32 -> Published<M>, c: Chunk<M>, d: nat)
    requires d > 0 && Inv(st, img, d) && Made(img, c, d)
    ensures var st1 := Started(st, c, d);
      st1.inProgress && st1.frameId == c.frameId && Holding(st1, img(c.frameId), d) && st1.count < |st1.received|
  {
    hide Piece, Slot;
    TruesNone(c.count);
  }

  lemma StoredHolds<M(!new)>(st: State<M>, img: u32 -> Published<M>, c: Chunk<M>, d: nat)
    requires d > 0 && Made(img, c, d) && Holding(st, img(c.frameId), d) && !st.received[c.index]
    ensures Holding(Stored(st, c, d), img(c.frameId), d)
    ensures Stored(st, c, d).count == st.count + 1
  {
    hide Piece, Slot, Put;
    var n := |st.received|;
    PutSlot(st.buffer, c.index, c.data, n, d);
    TruesSet(st.received, c.index);
  }

  /** Once everything has been received, the front of the buffer is the image. */
  lemma {:induction false} FrontIsImage(buffer: Bytes, image: Bytes, d: nat, i: nat)
    requires d > 0 && |buffer| == ChunkCount(|image|, d) * d && i < ChunkCount(|image|, d)
    requires forall j: nat :: j < ChunkCount(|image|, d) ==>
               Piece(image, j, d) <= Slot(buffer, j, ChunkCount(|image|, d), d)
    ensures i * d <= |image| && i * d <= |buffer| && buffer[..i * d] == image[..i * d]
    decreases i
  {
    var n := ChunkCount(|image|, d);
    PieceFits(image, i, d);
    SlotFits(i, n, d);
    if i > 0 {
      FrontIsImage(buffer, image, d, i - 1);
      PieceFits(image, i - 1, d);
      SlotFits(i - 1, n, d);
      assert Piece(image, i - 1, d) <= Slot(buffer, i - 1, n, d);
      assert buffer[..i * d] == buffer[..(i - 1) * d] + Slot(buffer, i - 1, n, d);
      assert image[..i * d] == image[..(i - 1) * d] + Piece(image, i - 1, d);
    }
  }

  lemma JoinLast(buffer: Bytes, image: Bytes, at: nat, size: nat)
    requires at <= |image| <= at + size && at + size <= |buffer|
    requires buffer[..at] == image[..at] && image[at..] <= buffer[at..at + size]
    ensures buffer[..|image|] == image
  {}

  lemma LastPiece(image: Bytes, d: nat)
    requires d > 0
    ensures var n := ChunkCount(|image|, d);
      && (n - 1) * d <= |image| <= (n - 1) * d + d
      && Piece(image, n - 1, d) == image[(n - 1) * d..]
      && Total(n, |Piece(image, n - 1, d)|, d) == |image|
  {}

  lemma CompleteIsImage<M(!new)>(st: State<M>, p: Published<M>, d: nat)
    requires d > 0 && Holding(st, p, d) && st.count == |st.received|
    ensures var total := Total(|st.received|, st.lastBytes, d);
      total == |p.image| && total <= |st.buffer| && st.buffer[..total] == p.image
  {
    hide Piece, Total;
    var n := |st.received|;
    TruesAll(st.received);
    FrontIsImage(st.buffer, p.image, d, n - 1);
    LastPiece(p.image, d);
    SlotFits(n - 1, n, d);
    assert Piece(p.image, n - 1, d) <= Slot(st.buffer, n - 1, n, d);
    JoinLast(st.buffer, p.image, (n - 1) * d, d);
  }

  /** What one chunk does: nothing if already received; otherwise it is noted, and the frame is delivered,
      byte for byte with its metadata, exactly when it was the last one missing. */
  lemma ReceiveSpec<M(!new)>(st: State<M>, img: u32 -> Published<M>, c: Chunk<M>, d: nat)
    requires d > 0 && Inv(st, img, d) && Made(img, c, d)
    ensures InBounds(st, c, d)
    ensures var st1, p := Started(st, c, d), img(c.frameId);
      var (st', delivered) := Receive(st, c, d);
      && Inv(st', img, d)
      && c.index < |st1.received| == ChunkCount(|p.image|, d)
      && (st1.received[c.index] ==> st' == st1 && delivered == None)
      && (!st1.received[c.index] && st1.count + 1 < |st1.received| ==>
            && delivered == None && st'.inProgress && st'.frameId == c.frameId
            && st'.received == st1.received[c.index := true] && st'.count == st1.count + 1)
      && (!st1.received[c.index] && st1.count + 1 == |st1.received| ==>
            !st'.inProgress && delivered == Some(Delivery(c.frameId, p.image, p.meta)))
  {
    StaysInBounds(st, img, c, d);
    hide Holding, Piece, Slot, Put, InBounds;
    var st1, p := Started(st, c, d), img(c.frameId);
    StartedHolds(st, img, c, d);
    HoldingSizes(st1, p, d);
    if !st1.received[c.index] {
      var st2 := Stored(st1, c, d);
      StoredHolds(st1, img, c, d);
      StoredTotal(st1, img, c, d);
      if st2.count == |st2.received| {
        CompleteIsImage(st2, p, d);
      }
    }
  }

  lemma StaysInBounds<M(!new)>(st: State<M>, img: u32 -> Published<M>, c: Chunk<M>, d: nat)
    requires d > 0 && Inv(st, img, d) && Made(img, c, d)
    ensures InBounds(st, c, d)
  {
    hide Holding, Piece, Slot, Put, Total;
    var st1 := Started(st, c, d);
    StartedHolds(st, img, c, d);
    HoldingSizes(st1, img(c.frameId), d);
    if !st1.received[c.index] {
      PlaceFits(c.index, |st1.received|, d, |c.data|);
      StoredTotal(st1, img, c, d);
    }
  }

  lemma HoldingSizes<M(!new)>(st: State<M>, p: Published<M>, d: nat)
    requires d > 0 && Holding(st, p, d)
    ensures |st.received| == ChunkCount(|p.image|, d) && |st.buffer| == |st.received| * d
    ensures st.count <= |st.received| && st.meta == p.meta
  {}

  /** The final read never leaves the buffer. */
  lemma StoredTotal<M(!new)>(st: State<M>, img: u32 -> Published<M>, c: Chunk<M>, d: nat)
    requires d > 0 && Made(img, c, d) && Holding(st, img(c.frameId), d) && !st.received[c.index]
    ensures Stored(st, c, d).count == |st.received| ==> Total(c.count, Stored(st, c, d).lastBytes, d) <= |st.buffer|
  {
    hide Put;
    StoredHolds(st, img, c, d);
    if st.count + 1 == |st.received| {
      CompleteIsImage(Stored(st, c, d), img(c.frameId), d);
    }
  }

  // ----- Whole runs -----

  /** The state after a sequence of arrivals, and what each arrival delivered. */
  function Run<M>(st: State<M>, chunks: seq<Chunk<M>>, d: nat): (r: (State<M>, seq<Option<Delivery<M>>>))
    ensures |r.1| == |chunks|
    decreases |chunks|
  {
    if chunks == [] then (st, [])
    else
      var front := Run(st, chunks[..|chunks| - 1], d);
      var last := Receive(front.0, chunks[|chunks| - 1], d);
      (last.0, front.1 + [last.1])
  }

  ghost predicate AllMade<M(!new)>(img: u32 -> Published<M>, chunks: seq<Chunk<M>>, d: nat)
  {
    forall k :: 0 <= k < |chunks| ==> Made(img, chunks[k], d)
  }

  ghost function Whole<M>(img: u32 -> Published<M>, frameId: u32): Option<Delivery<M>>
  {
    Some(Delivery(frameId, img(frameId).image, img(frameId).meta))
  }

  lemma {:induction false} RunKeepsInv<M(!new)>(st: State<M>, img: u32 -> Published<M>, chunks: seq<Chunk<M>>, d: nat)
    requires d > 0 && Inv(st, img, d) && AllMade(img, chunks, d)
    ensures Inv(Run(st, chunks, d).0, img, d)
    decreases |chunks|
  {
    hide Receive, Made, Inv;
    if chunks != [] {
      var n := |chunks| - 1;
      RunKeepsInv(st, img, chunks[..n], d);
      ReceiveOutcome(Run(st, chunks[..n], d).0, img, chunks[n], d);
    }
  }

  lemma {:induction false} RunAt<M>(st: State<M>, chunks: seq<Chunk<M>>, k: nat, d: nat)
    requires k < |chunks|
    ensures Run(st, chunks, d).1[k] == Receive(Run(st, chunks[..k], d).0, chunks[k], d).1
    decreases |chunks|
  {
    hide Receive;
    var n := |chunks| - 1;
    if k < n {
      assert chunks[..n][..k] == chunks[..k];
      RunAt(st, chunks[..n], k, d);
    }
  }

  /** Over any arrival sequence of published chunks, lost, repeated, reordered and with frames interleaved as it
      may be: no copy leaves the buffer, and whatever is delivered is what was published under that id. */
  lemma RunSafe<M(!new)>(st: State<M>, img: u32 -> Published<M>, chunks: seq<Chunk<M>>, k: nat, d: nat)
    requires d > 0 && Inv(st, img, d) && AllMade(img, chunks, d) && k < |chunks|
    ensures InBounds(Run(st, chunks[..k], d).0, chunks[k], d)
    ensures Run(st, chunks, d).1[k] == None || Run(st, chunks, d).1[k] == Whole(img, chunks[k].frameId)
  {
    hide Receive, InBounds, Made, Inv, Run;
    RunKeepsInv(st, img, chunks[..k], d);
    ReceiveOutcome(Run(st, chunks[..k], d).0, img, chunks[k], d);
    RunAt(st, chunks, k, d);
  }

  lemma ReceiveOutcome<M(!new)>(st: State<M>, img: u32 -> Published<M>, c: Chunk<M>, d: nat)
    requires d > 0 && Inv(st, img, d) && Made(img, c, d)
    ensures InBounds(st, c, d) && Inv(Receive(st, c, d).0, img, d)
    ensures Receive(st, c, d).1 == None || Receive(st, c, d).1 == Whole(img, c.frameId)
  {
    hide InBounds, Inv, Holding;
    ReceiveSpec(st, img, c, d);
  }

  /** Frame `frameId` is being assembled and every chunk of `chunks` has been noted. */
  ghost predicate Noted<M>(st: State<M>, frameId: u32, chunks: seq<Chunk<M>>)
  {
    && st.inProgress && st.frameId == frameId
    && forall k :: 0 <= k < |chunks| ==> chunks[k].index < |st.received| && st.received[chunks[k].index]
  }

  ghost predicate HasIndex<M>(chunks: seq<Chunk<M>>, i: nat)
  {
    exists k :: 0 <= k < |chunks| && chunks[k].index == i
  }

  ghost predicate AllOf<M>(chunks: seq<Chunk<M>>, frameId: u32)
  {
    forall k :: 0 <= k < |chunks| ==> chunks[k].frameId == frameId
  }

  lemma {:induction false} NotedUntilDelivered<M(!new)>(st: State<M>, img: u32 -> Published<M>, frameId: u32,
                                                       chunks: seq<Chunk<M>>, d: nat)
    requires d > 0 && Inv(st, img, d) && AllMade(img, chunks, d) && AllOf(chunks, frameId) && chunks != []
    ensures Whole(img, frameId) in Run(st, chunks, d).1 || Noted(Run(st, chunks, d).0, frameId, chunks)
    decreases |chunks|
  {
    hide Made, Inv, Receive, InBounds;
    var n := |chunks| - 1;
    var front, c := chunks[..n], chunks[n];
    RunKeepsInv(st, img, front, d);
    var before := Run(st, front, d);
    if n > 0 {
      NotedUntilDelivered(st, img, frameId, front, d);
    }
    if Whole(img, frameId) in before.1 {
      var k :| 0 <= k < n && before.1[k] == Whole(img, frameId);
      assert Run(st, chunks, d).1[k] == Whole(img, frameId);
    } else {
      NotesOne(before.0, img, frameId, front, c, d);
      assert chunks == front + [c];
      assert Run(st, chunks, d).1[n] == Receive(before.0, c, d).1;
    }
  }

  lemma NotesOne<M(!new)>(st: State<M>, img: u32 -> Published<M>, frameId: u32,
                          chunks: seq<Chunk<M>>, c: Chunk<M>, d: nat)
    requires d > 0 && Inv(st, img, d) && Made(img, c, d) && c.frameId == frameId
    requires chunks == [] || Noted(st, frameId, chunks)
    ensures Receive(st, c, d).1 == Whole(img, frameId) || Noted(Receive(st, c, d).0, frameId, chunks + [c])
  {
    hide InBounds, Holding, Receive;
    ReceiveSpec(st, img, c, d);
    StartedHolds(st, img, c, d);
  }

  /** Chunks of one frame arriving with no other frame's chunk in between, every index at least once and in any
      order, deliver that frame, whatever happened before. */
  lemma ContiguousDelivered<M(!new)>(st: State<M>, img: u32 -> Published<M>, frameId: u32,
                                     chunks: seq<Chunk<M>>, d: nat)
    requires d > 0 && Inv(st, img, d) && AllMade(img, chunks, d) && AllOf(chunks, frameId)
    requires forall i: nat :: i < ChunkCount(|img(frameId).image|, d) ==> HasIndex(chunks, i)
    ensures Whole(img, frameId) in Run(st, chunks, d).1
  {
    var n := ChunkCount(|img(frameId).image|, d);
    hide Run, Made, Piece, ChunkCount, Slot;
    assert HasIndex(chunks, 0);
    NotedUntilDelivered(st, img, frameId, chunks, d);
    RunKeepsInv(st, img, chunks, d);
    var st' := Run(st, chunks, d).0;
    if Noted(st', frameId, chunks) {
      HoldingSizes(st', img(frameId), d);
      NeverAllNoted(st', chunks, n);
    }
  }

  lemma NeverAllNoted<M(!new)>(st: State<M>, chunks: seq<Chunk<M>>, n: nat)
    requires |st.received| == n && st.count == Trues(st.received) < n && Noted(st, st.frameId, chunks)
    requires forall i: nat :: i < n ==> HasIndex(chunks, i)
    ensures false
  {
    forall i | 0 <= i < n
      ensures st.received[i]
    {
      assert HasIndex(chunks, i);
      var k :| 0 <= k < |chunks| && chunks[k].index == i;
    }
    TruesAll(st.received);
  }

  /** The chunks of one frame, each index at most once. */
  ghost predicate Distinct<M>(chunks: seq<Chunk<M>>)
  {
    forall j, k :: 0 <= j < k < |chunks| ==> chunks[j].index != chunks[k].index
  }

  /** Frame `frameId` is being assembled from exactly `chunks`. */
  ghost predicate Exactly<M>(st: State<M>, frameId: u32, chunks: seq<Chunk<M>>)
  {
    && st.inProgress && st.frameId == frameId && st.count == |chunks|
    && forall i :: 0 <= i < |st.received| && st.received[i] ==> HasIndex(chunks, i)
  }

  lemma AssemblesOne<M(!new)>(st: State<M>, img: u32 -> Published<M>, frameId: u32,
                              chunks: seq<Chunk<M>>, c: Chunk<M>, d: nat)
    requires d > 0 && Inv(st, img, d) && Made(img, c, d) && c.frameId == frameId
    requires Distinct(chunks + [c])
    requires if chunks == [] then st.inProgress ==> st.frameId != frameId else Exactly(st, frameId, chunks)
    ensures |chunks| + 1 < ChunkCount(|img(frameId).image|, d) ==>
              Receive(st, c, d).1 == None && Exactly(Receive(st, c, d).0, frameId, chunks + [c])
    ensures |chunks| + 1 == ChunkCount(|img(frameId).image|, d) ==> Receive(st, c, d).1 == Whole(img, frameId)
  {
    hide InBounds, Inv, Holding, Receive, Made;
    ReceiveSpec(st, img, c, d);
    var st1, all := Started(st, c, d), chunks + [c];
    assert forall k :: 0 <= k < |chunks| ==> chunks[k] == all[k] && all[k].index != all[|chunks|].index;
    assert !HasIndex(chunks, c.index);
    forall i | 0 <= i < |st1.received| && st1.received[c.index := true][i]
      ensures HasIndex(all, i)
    {
      if i == c.index {
        assert all[|chunks|].index == i;
      } else {
        assert HasIndex(chunks, i);
        var k :| 0 <= k < |chunks| && chunks[k].index == i;
        assert all[k].index == i;
      }
    }
  }

  /** Among `len` outcomes, `x` at position `at` and nothing elsewhere. */
  function OnlyAt<T>(at: nat, len: nat, x: Option<T>): seq<Option<T>>
  {
    seq(len, k => if k == at then x else None)
  }

  lemma OnlyAtStep<T>(at: nat, len: nat, x: Option<T>)
    ensures OnlyAt(at, 0, x) == []
    ensures OnlyAt(at, len + 1, x) == OnlyAt(at, len, x) + [if len == at then x else None]
  {}

  /** A reassembler not in the middle of this frame, given each chunk of it once in any order, calls back exactly
      once, at the last arrival, with the image and its metadata. */
  lemma {:induction false} DeliveredOnce<M(!new)>(st: State<M>, img: u32 -> Published<M>, frameId: u32,
                                                 chunks: seq<Chunk<M>>, d: nat)
    requires d > 0 && Inv(st, img, d) && AllMade(img, chunks, d) && AllOf(chunks, frameId) && Distinct(chunks)
    requires |chunks| <= ChunkCount(|img(frameId).image|, d) && (st.inProgress ==> st.frameId != frameId)
    ensures |chunks| < ChunkCount(|img(frameId).image|, d) && chunks != [] ==>
              Exactly(Run(st, chunks, d).0, frameId, chunks)
    ensures Run(st, chunks, d).1 == OnlyAt(ChunkCount(|img(frameId).image|, d) - 1, |chunks|, Whole(img, frameId))
    decreases |chunks|
  {
    hide Inv, Receive, Made, Exactly, ChunkCount, Whole, OnlyAt;
    if chunks == [] {
      OnlyAtStep(ChunkCount(|img(frameId).image|, d) - 1, 0, Whole(img, frameId));
    } else {
      var n := |chunks| - 1;
      var front, c := chunks[..n], chunks[n];
      DeliveredOnce(st, img, frameId, front, d);
      RunKeepsInv(st, img, front, d);
      assert front + [c] == chunks;
      AssemblesOne(Run(st, front, d).0, img, frameId, front, c, d);
      OnlyAtStep(ChunkCount(|img(frameId).image|, d) - 1, n, Whole(img, frameId));
    }
  }
}
