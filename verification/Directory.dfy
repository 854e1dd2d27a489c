/** The topic directory: packets listing topic names, announced roles, or the peers behind a role, and the splitting
    of a long list into packets under two caps. The three lists share their layout and their loops. */
module Directory {
  import opened Options
  import opened Wire

  const MAGIC_BYTES := 4
  const HEADER_BYTES := MAGIC_BYTES + 2
  const MAX_PACKET := 8192
  const MAX_NAME := 255

  datatype Kind = Names | Roles | Peers

  function MaxEntries(kind: Kind): nat
  {
    if kind.Names? then 512 else 2048
  }

  datatype Entry =
    | Name(topic: u32, name: Bytes)
    | Role(topic: u32, role: byte)
    | Peer(topic: u32, role: byte, ip: u32, port: u16)

  function Size(e: Entry): (n: nat)
    ensures n > 0
  {
    match e
    case Name(_, name) => 4 + 1 + |name|
    case Role(_, _) => 4 + 1
    case Peer(_, _, _, _) => 4 + 1 + 4 + 2
  }

  predicate IsOf(kind: Kind, e: Entry)
  {
    match kind
    case Names => e.Name?
    case Roles => e.Role?
    case Peers => e.Peer?
  }

  /** An entry the wire can carry: a name has a one-byte length. */
  predicate Sendable(kind: Kind, e: Entry)
  {
    IsOf(kind, e) && (e.Name? ==> |e.name| <= MAX_NAME)
  }

  function EntryBytes(e: Entry): (s: Bytes)
    requires e.Name? ==> |e.name| <= MAX_NAME
    ensures |s| == Size(e)
  {
    match e
    case Name(topic, name) => Le32(topic) + [|name|] + name
    case Role(topic, role) => Le32(topic) + [role]
    case Peer(topic, role, ip, port) => Le32(topic) + [role] + Le32(ip) + Le16(port)
  }

  function TotalSize(entries: seq<Entry>): nat
  {
    if entries == [] then 0 else Size(entries[0]) + TotalSize(entries[1..])
  }

  predicate AllSendable(kind: Kind, entries: seq<Entry>)
  {
    forall i :: 0 <= i < |entries| ==> Sendable(kind, entries[i])
  }

  function Body(kind: Kind, entries: seq<Entry>): (s: Bytes)
    requires AllSendable(kind, entries)
    ensures |s| == TotalSize(entries)
  {
    if entries == [] then [] else EntryBytes(entries[0]) + Body(kind, entries[1..])
  }

  /** A packet's bytes: magic, entry count, entries. */
  function Packet(magic: Bytes, kind: Kind, entries: seq<Entry>): (s: Bytes)
    requires |magic| == MAGIC_BYTES && |entries| <= MaxEntries(kind) && AllSendable(kind, entries)
    ensures |s| == HEADER_BYTES + TotalSize(entries)
  {
    magic + Le16(|entries|) + Body(kind, entries)
  }

  /** Where each field of an entry stands, and the entries in a packet. */
  lemma EntryLayout(kind: Kind, e: Entry)
    requires Sendable(kind, e)
    ensures var s := EntryBytes(e);
      && s[0..4] == Le32(e.topic)
      && (e.Name? ==> s[4] == |e.name| && s[5..] == e.name)
      && (e.Role? ==> s[4..] == [e.role])
      && (e.Peer? ==> s[4] == e.role && s[5..9] == Le32(e.ip) && s[9..] == Le16(e.port))
  {
    hide Le32, Le16;
  }

  lemma PacketLayout(magic: Bytes, kind: Kind, entries: seq<Entry>)
    requires |magic| == MAGIC_BYTES && |entries| <= MaxEntries(kind) && AllSendable(kind, entries)
    ensures var s := Packet(magic, kind, entries);
      && s[0..4] == magic && s[4..6] == Le16(|entries|)
      && (entries != [] ==> s[6..] == EntryBytes(entries[0]) + Body(kind, entries[1..]))
  {
    hide Le16, EntryBytes;
  }

  // ----- Decoding -----

  /** The entry at `off` and the offset after it. */
  function ReadEntry(kind: Kind, buf: Bytes, off: nat): Option<(Entry, nat)>
  {
    if kind.Peers? then
      if off + 11 > |buf| then None
      else Some((Peer(U32At(buf, off), buf[off + 4], U32At(buf, off + 5), U16At(buf, off + 9)), off + 11))
    else if off + 5 > |buf| then None
    else if kind.Roles? then Some((Role(U32At(buf, off), buf[off + 4]), off + 5))
    else if off + 5 + buf[off + 4] > |buf| then None
    else Some((Name(U32At(buf, off), buf[off + 5..off + 5 + buf[off + 4]]), off + 5 + buf[off + 4]))
  }

  function ReadEntries(kind: Kind, buf: Bytes, off: nat, count: nat): Option<seq<Entry>>
    decreases count
  {
    if count == 0 then if off == |buf| then Some([]) else None
    else
      var first := ReadEntry(kind, buf, off);
      if first.None? then None
      else
        var rest := ReadEntries(kind, buf, first.value.1, count - 1);
        if rest.None? then None else Some([first.value.0] + rest.value)
  }

  function Decoded(kind: Kind, buf: Bytes): Option<seq<Entry>>
  {
    if |buf| < HEADER_BYTES || |buf| > MAX_PACKET then None
    else
      var count := U16At(buf, MAGIC_BYTES);
      if count > MaxEntries(kind) then None else ReadEntries(kind, buf, HEADER_BYTES, count)
  }

  method Decode(kind: Kind, buf: Bytes) returns (entries: Option<seq<Entry>>)
    ensures entries == Decoded(kind, buf)
  {
    if |buf| < HEADER_BYTES || |buf| > MAX_PACKET {
      return None;
    }
    var count := U16At(buf, MAGIC_BYTES);
    if count > MaxEntries(kind) {
      return None;
    }
    hide ReadEntry, ReadEntries, After;
    var off: nat := HEADER_BYTES;
    var out: seq<Entry> := [];
    AfterNothing(ReadEntries(kind, buf, off, count));
    for i := 0 to count
      invariant After(out, ReadEntries(kind, buf, off, count - i)) == ReadEntries(kind, buf, HEADER_BYTES, count)
    {
      var e := ReadEntry(kind, buf, off);
      ReadOne(kind, buf, off, count - i, out);
      if e.None? {
        return None;
      }
      out := out + [e.value.0];
      off := e.value.1;
    }
    ReadNone(kind, buf, off, out);
    if off != |buf| {
      return None;
    }
    return Some(out);
  }

  function After(done: seq<Entry>, rest: Option<seq<Entry>>): Option<seq<Entry>>
  {
    if rest.None? then None else Some(done + rest.value)
  }

  lemma AfterNothing(rest: Option<seq<Entry>>)
    ensures After([], rest) == rest
  {
    assert rest.Some? ==> [] + rest.value == rest.value;
  }

  lemma ReadNone(kind: Kind, buf: Bytes, off: nat, done: seq<Entry>)
    ensures After(done, ReadEntries(kind, buf, off, 0)) == if off == |buf| then Some(done) else None
  {
    assert done + [] == done;
  }

  lemma ReadOne(kind: Kind, buf: Bytes, off: nat, count: nat, done: seq<Entry>)
    requires count > 0
    ensures var e := ReadEntry(kind, buf, off);
      After(done, ReadEntries(kind, buf, off, count)) ==
      if e.None? then None else After(done + [e.value.0], ReadEntries(kind, buf, e.value.1, count - 1))
  {
    hide ReadEntry;
    var e := ReadEntry(kind, buf, off);
    if e.Some? {
      var rest := ReadEntries(kind, buf, e.value.1, count - 1);
      assert rest.Some? ==> done + ([e.value.0] + rest.value) == done + [e.value.0] + rest.value;
    }
  }

  lemma SplitAt(buf: Bytes, off: nat, part: Bytes)
    requires off <= |buf| && part <= buf[off..]
    ensures off + |part| <= |buf| && buf == buf[..off] + part + buf[off + |part|..]
  {}

  lemma ReadsName(pre: Bytes, topic: u32, name: Bytes, post: Bytes)
    requires |name| <= MAX_NAME
    ensures var buf := pre + (Le32(topic) + [|name|] + name) + post;
      ReadEntry(Names, buf, |pre|) == Some((Name(topic, name), |pre| + 5 + |name|))
  {
    hide U32At, Le32;
    var buf := pre + (Le32(topic) + [|name|] + name) + post;
    assert buf == pre + Le32(topic) + ([|name|] + name + post);
    ReadLe32(pre, topic, [|name|] + name + post);
    var at := |pre| + 4;
    assert buf[at] == |name|;
    assert buf[at + 1..at + 1 + |name|] == name;
  }

  lemma ReadsRole(pre: Bytes, topic: u32, role: byte, post: Bytes)
    ensures var buf := pre + (Le32(topic) + [role]) + post;
      ReadEntry(Roles, buf, |pre|) == Some((Role(topic, role), |pre| + 5))
  {}

  lemma ReadsPeer(pre: Bytes, topic: u32, role: byte, ip: u32, port: u16, post: Bytes)
    ensures var buf := pre + (Le32(topic) + [role] + Le32(ip) + Le16(port)) + post;
      ReadEntry(Peers, buf, |pre|) == Some((Peer(topic, role, ip, port), |pre| + 11))
  {}

  lemma ReadsWritten(kind: Kind, buf: Bytes, off: nat, e: Entry)
    requires off <= |buf| && Sendable(kind, e) && EntryBytes(e) <= buf[off..]
    ensures ReadEntry(kind, buf, off) == Some((e, off + Size(e)))
  {
    hide ReadEntry, Le32, Le16;
    var pre, post := buf[..off], buf[off + Size(e)..];
    SplitAt(buf, off, EntryBytes(e));
    match e
    case Name(topic, name) => ReadsName(pre, topic, name, post);
    case Role(topic, role) => ReadsRole(pre, topic, role, post);
    case Peer(topic, role, ip, port) => ReadsPeer(pre, topic, role, ip, port, post);
  }

  lemma FrontOf(buf: Bytes, off: nat, n: nat)
    requires off + n <= |buf|
    ensures buf[off..off + n] <= buf[off..]
  {}

  lemma WrittenWhereRead(kind: Kind, buf: Bytes, off: nat, e: Entry)
    requires off <= |buf| && ReadEntry(kind, buf, off) == Some((e, off + Size(e)))
    ensures Sendable(kind, e) && EntryBytes(e) <= buf[off..]
  {
    hide U32At, U16At, Le32, Le16;
    WriteU32(buf, off);
    FrontOf(buf, off, Size(e));
    JoinByte(buf, off, off + 4);
    match e
    case Name(topic, name) =>
      JoinSlices(buf, off, off + 5, off + Size(e));
    case Role(topic, role) =>
    case Peer(topic, role, ip, port) =>
      WriteU32(buf, off + 5);
      WriteU16(buf, off + 9);
      JoinSlices(buf, off, off + 5, off + 9);
      JoinSlices(buf, off, off + 9, off + 11);
  }

  lemma JoinByte(buf: Bytes, from: nat, at: nat)
    requires from <= at < |buf|
    ensures buf[from..at] + [buf[at]] == buf[from..at + 1]
  {}

  lemma JoinSlices(buf: Bytes, from: nat, at: nat, to: nat)
    requires from <= at <= to <= |buf|
    ensures buf[from..at] + buf[at..to] == buf[from..to]
  {}

  lemma ReadAdvances(kind: Kind, buf: Bytes, off: nat)
    requires off <= |buf| && ReadEntry(kind, buf, off).Some?
    ensures var (e, next) := ReadEntry(kind, buf, off).value; next == off + Size(e) <= |buf|
  {}

  lemma {:induction false} ReadsBody(kind: Kind, buf: Bytes, off: nat, entries: seq<Entry>)
    requires off <= |buf| && AllSendable(kind, entries) && buf[off..] == Body(kind, entries)
    ensures ReadEntries(kind, buf, off, |entries|) == Some(entries)
    decreases |entries|
  {
    hide ReadEntry, EntryBytes;
    if entries != [] {
      var e, rest := entries[0], entries[1..];
      assert buf[off..] == EntryBytes(e) + Body(kind, rest);
      ReadsWritten(kind, buf, off, e);
      assert buf[off + Size(e)..] == buf[off..][Size(e)..] == Body(kind, rest);
      ReadsBody(kind, buf, off + Size(e), rest);
      assert entries == [e] + rest;
    }
  }

  lemma {:induction false} BodyWhereRead(kind: Kind, buf: Bytes, off: nat, count: nat, entries: seq<Entry>)
    requires off <= |buf| && ReadEntries(kind, buf, off, count) == Some(entries)
    ensures |entries| == count && AllSendable(kind, entries) && buf[off..] == Body(kind, entries)
    decreases count
  {
    hide ReadEntry, EntryBytes;
    if count > 0 {
      ReadAdvances(kind, buf, off);
      var (e, next) := ReadEntry(kind, buf, off).value;
      var rest := entries[1..];
      WrittenWhereRead(kind, buf, off, e);
      assert ReadEntries(kind, buf, next, count - 1) == Some(rest);
      BodyWhereRead(kind, buf, next, count - 1, rest);
      assert buf[off..] == EntryBytes(e) + buf[next..];
    }
  }

  /** The decoder accepts exactly the packets under both caps, and gets back exactly their entries. */
  lemma DecodesExactly(kind: Kind, buf: Bytes, entries: seq<Entry>)
    ensures Decoded(kind, buf) == Some(entries) <==>
            && AllSendable(kind, entries) && |entries| <= MaxEntries(kind)
            && HEADER_BYTES + TotalSize(entries) <= MAX_PACKET
            && |buf| >= MAGIC_BYTES && buf == Packet(buf[..MAGIC_BYTES], kind, entries)
  {
    hide ReadEntries, Body, U16At, Le16, AllSendable, TotalSize;
    if Decoded(kind, buf) == Some(entries) {
      BodyWhereRead(kind, buf, HEADER_BYTES, U16At(buf, MAGIC_BYTES), entries);
      WriteU16(buf, MAGIC_BYTES);
      assert buf == buf[..MAGIC_BYTES] + buf[MAGIC_BYTES..HEADER_BYTES] + buf[HEADER_BYTES..];
    } else if AllSendable(kind, entries) && |entries| <= MaxEntries(kind) && |buf| >= MAGIC_BYTES
              && HEADER_BYTES + TotalSize(entries) <= MAX_PACKET {
      var magic := buf[..MAGIC_BYTES];
      if buf == Packet(magic, kind, entries) {
        ReadLe16(magic, |entries|, Body(kind, entries));
        assert buf[HEADER_BYTES..] == Body(kind, entries);
        ReadsBody(kind, buf, HEADER_BYTES, entries);
      }
    }
  }

  // ----- Encoding -----

  lemma {:induction false} BodyAppend(kind: Kind, entries: seq<Entry>, e: Entry)
    requires AllSendable(kind, entries) && Sendable(kind, e)
    ensures AllSendable(kind, entries + [e]) && Body(kind, entries + [e]) == Body(kind, entries) + EntryBytes(e)
    decreases |entries|
  {
    hide EntryBytes;
    if entries == [] {
      assert [e][1..] == [];
    } else {
      assert (entries + [e])[1..] == entries[1..] + [e];
      BodyAppend(kind, entries[1..], e);
    }
  }

  lemma {:induction false} TotalSizeAppend(a: seq<Entry>, b: seq<Entry>)
    ensures TotalSize(a + b) == TotalSize(a) + TotalSize(b)
    decreases |a|
  {
    if a == [] {
      assert a + b == b;
    } else {
      assert (a + b)[1..] == a[1..] + b;
      TotalSizeAppend(a[1..], b);
    }
  }

  lemma TotalSizeOne(e: Entry)
    ensures TotalSize([e]) == Size(e)
  {}

  /** The encoder succeeds exactly when every entry is sendable, the count is under its cap and the packet fits. */
  method EncodeInto(magic: Bytes, kind: Kind, entries: seq<Entry>, out: array<byte>) returns (ok: bool, len: nat)
    requires |magic| == MAGIC_BYTES && forall i :: 0 <= i < |entries| ==> IsOf(kind, entries[i])
    modifies out
    ensures ok <==> |entries| <= MaxEntries(kind) && AllSendable(kind, entries) &&
                    HEADER_BYTES + TotalSize(entries) <= out.Length
    ensures ok ==> len <= out.Length && out[..len] == Packet(magic, kind, entries)
  {
    hide Body, TotalSize, EntryBytes, Sendable;
    if |entries| > MaxEntries(kind) || out.Length < HEADER_BYTES {
      return false, 0;
    }
    var header := magic + Le16(|entries|);
    CopyInto(out, 0, header);
    var off := HEADER_BYTES;
    EmptyBody(kind);
    for i := 0 to |entries|
      invariant AllSendable(kind, entries[..i])
      invariant off == HEADER_BYTES + TotalSize(entries[..i]) <= out.Length
      invariant out[..off] == header + Body(kind, entries[..i])
    {
      var e := entries[i];
      if e.Name? && |e.name| > MAX_NAME {
        NotSendable(kind, entries, i);
        return false, 0;
      }
      SendableHere(kind, e);
      assert entries[..i + 1] == entries[..i] + [e];
      TotalSizeAppend(entries[..i], [e]);
      TotalSizeOne(e);
      if off + Size(e) > out.Length {
        TotalSizePrefix(entries, i + 1);
        return false, 0;
      }
      BodyAppend(kind, entries[..i], e);
      CopyInto(out, off, EntryBytes(e));
      off := off + Size(e);
    }
    assert entries[..|entries|] == entries;
    return true, off;
  }

  lemma EmptyBody(kind: Kind)
    ensures Body(kind, []) == [] && TotalSize([]) == 0
  {}

  lemma NotSendable(kind: Kind, entries: seq<Entry>, i: nat)
    requires i < |entries| && entries[i].Name? && |entries[i].name| > MAX_NAME
    ensures !AllSendable(kind, entries)
  {}

  lemma SendableHere(kind: Kind, e: Entry)
    ensures IsOf(kind, e) && (e.Name? ==> |e.name| <= MAX_NAME) ==> Sendable(kind, e)
  {}

  lemma TotalSizePrefix(entries: seq<Entry>, n: nat)
    requires n <= |entries|
    ensures TotalSize(entries[..n]) <= TotalSize(entries)
  {
    assert entries == entries[..n] + entries[n..];
    TotalSizeAppend(entries[..n], entries[n..]);
  }

  // ----- Splitting a list into packets -----

  predicate Fits(kind: Kind, chunk: seq<Entry>)
  {
    |chunk| <= MaxEntries(kind) && HEADER_BYTES + TotalSize(chunk) <= MAX_PACKET
  }

  function Flatten<T>(chunks: seq<seq<T>>): seq<T>
    decreases |chunks|
  {
    if chunks == [] then [] else Flatten(chunks[..|chunks| - 1]) + chunks[|chunks| - 1]
  }

  /** In order, nothing lost; only a single entry may exceed the caps; and no packet could have taken the entry
      that follows it. */
  ghost predicate IsGreedySplit(kind: Kind, entries: seq<Entry>, chunks: seq<seq<Entry>>)
  {
    && Flatten(chunks) == entries
    && (forall i :: 0 <= i < |chunks| ==> chunks[i] != [] && (|chunks[i]| == 1 || Fits(kind, chunks[i])))
    && (forall i :: 0 < i < |chunks| ==> Closed(kind, chunks[i - 1], chunks[i]))
  }

  /** `next` begins with an entry that did not fit into `chunk`. */
  ghost predicate Closed(kind: Kind, chunk: seq<Entry>, next: seq<Entry>)
  {
    next != [] && !Fits(kind, chunk + [next[0]])
  }

  /** The chunker's state after the entries `done`: closed chunks and the open one. */
  ghost predicate Building(kind: Kind, chunks: seq<seq<Entry>>, current: seq<Entry>, done: seq<Entry>)
  {
    && Flatten(chunks) + current == done
    && IsGreedySplit(kind, Flatten(chunks), chunks)
    && (current == [] ==> chunks == [])
    && (|current| <= 1 || Fits(kind, current))
    && (chunks != [] ==> Closed(kind, chunks[|chunks| - 1], current))
  }

  lemma AddsEntry(kind: Kind, chunks: seq<seq<Entry>>, current: seq<Entry>, done: seq<Entry>, e: Entry)
    requires Building(kind, chunks, current, done) && (current == [] || Fits(kind, current + [e]))
    ensures Building(kind, chunks, current + [e], done + [e])
  {}

  lemma ClosesChunk(kind: Kind, chunks: seq<seq<Entry>>, current: seq<Entry>, done: seq<Entry>, e: Entry)
    requires Building(kind, chunks, current, done) && current != [] && !Fits(kind, current + [e])
    ensures Building(kind, chunks + [current], [e], done + [e])
  {
    hide Fits;
    Finished(kind, chunks, current, done);
  }

  lemma Finished(kind: Kind, chunks: seq<seq<Entry>>, current: seq<Entry>, done: seq<Entry>)
    requires Building(kind, chunks, current, done)
    ensures IsGreedySplit(kind, done, if current == [] then chunks else chunks + [current])
  {}

  method Chunk(kind: Kind, entries: seq<Entry>) returns (chunks: seq<seq<Entry>>)
    ensures IsGreedySplit(kind, entries, chunks)
  {
    hide TotalSize, Fits, IsGreedySplit;
    chunks := [];
    var current: seq<Entry> := [];
    var currentLen := HEADER_BYTES;
    NothingBuilt(kind);
    hide Building;
    for i := 0 to |entries|
      invariant Building(kind, chunks, current, entries[..i]) && currentLen == HEADER_BYTES + TotalSize(current)
    {
      var e := entries[i];
      assert entries[..i + 1] == entries[..i] + [e];
      FitsWith(kind, current, e);
      if current != [] && (|current| >= MaxEntries(kind) || currentLen + Size(e) > MAX_PACKET) {
        ClosesChunk(kind, chunks, current, entries[..i], e);
        chunks := chunks + [current];
        current := [];
        currentLen := HEADER_BYTES;
        assert [] + [e] == [e];
      } else {
        AddsEntry(kind, chunks, current, entries[..i], e);
      }
      TotalSizeAppend(current, [e]);
      TotalSizeOne(e);
      current := current + [e];
      currentLen := currentLen + Size(e);
    }
    assert entries[..|entries|] == entries;
    Finished(kind, chunks, current, entries);
    if current != [] {
      chunks := chunks + [current];
    }
  }

  lemma NothingBuilt(kind: Kind)
    ensures Building(kind, [], [], []) && TotalSize([]) == 0
  {}

  lemma FitsWith(kind: Kind, chunk: seq<Entry>, e: Entry)
    ensures Fits(kind, chunk + [e]) <==>
            |chunk| < MaxEntries(kind) && HEADER_BYTES + TotalSize(chunk) + Size(e) <= MAX_PACKET
  {
    TotalSizeAppend(chunk, [e]);
    TotalSizeOne(e);
  }

  /** With names the wire can carry, every packet meets both caps. */
  lemma ChunksFit(kind: Kind, entries: seq<Entry>, chunks: seq<seq<Entry>>, i: nat)
    requires IsGreedySplit(kind, entries, chunks) && AllSendable(kind, entries) && i < |chunks|
    ensures Fits(kind, chunks[i]) && AllSendable(kind, chunks[i])
  {
    ChunkAt(chunks, i);
    if |chunks[i]| == 1 {
      assert chunks[i] == [chunks[i][0]];
      TotalSizeOne(chunks[i][0]);
    }
  }

  /** Where chunk `i` stands in the list. */
  lemma {:induction false} ChunkAt<T>(chunks: seq<seq<T>>, i: nat)
    requires i < |chunks|
    ensures var from, to := |Flatten(chunks[..i])|, |Flatten(chunks[..i + 1])|;
      from + |chunks[i]| == to <= |Flatten(chunks)| && Flatten(chunks)[from..to] == chunks[i]
    decreases |chunks|
  {
    var n := |chunks| - 1;
    assert chunks[..i + 1][..i] == chunks[..i];
    if i < n {
      assert chunks[..n][..i] == chunks[..i] && chunks[..n][..i + 1] == chunks[..i + 1];
      ChunkAt(chunks[..n], i);
    } else {
      assert chunks[..i + 1] == chunks;
    }
  }

  lemma Whole<T>(chunks: seq<seq<T>>)
    ensures chunks[..|chunks|] == chunks && Flatten(chunks[..0]) == []
  {}

  lemma SliceFits(kind: Kind, entries: seq<Entry>, a: nat, b: nat, c: nat, d: nat)
    requires a <= b <= c <= d <= |entries| && Fits(kind, entries[a..d])
    ensures Fits(kind, entries[b..c])
  {
    assert entries[a..d] == entries[a..b] + entries[b..c] + entries[c..d];
    TotalSizeAppend(entries[a..b] + entries[b..c], entries[c..d]);
    TotalSizeAppend(entries[a..b], entries[b..c]);
  }

  /** After any number of packets, the greedy split has got at least as far as any other. */
  lemma {:induction false} GreedyStaysAhead(kind: Kind, entries: seq<Entry>, greedy: seq<seq<Entry>>,
                                           other: seq<seq<Entry>>, j: nat)
    requires IsGreedySplit(kind, entries, greedy) && Flatten(other) == entries && j <= |greedy| && j <= |other|
    requires forall i :: 0 <= i < |other| ==> Fits(kind, other[i])
    ensures |Flatten(other[..j])| <= |Flatten(greedy[..j])| <= |entries|
    decreases j
  {
    hide Fits, Flatten;
    Whole(greedy);
    Whole(other);
    if j > 0 {
      GreedyStaysAhead(kind, entries, greedy, other, j - 1);
      ChunkAt(other, j - 1);
      ChunkAt(greedy, j - 1);
      var from, to := |Flatten(greedy[..j - 1])|, |Flatten(greedy[..j])|;
      if to < |Flatten(other[..j])| && j < |greedy| {
        ChunkAt(greedy, j);
        assert Closed(kind, greedy[j - 1], greedy[j]);
        assert entries[from..to + 1] == greedy[j - 1] + [greedy[j][0]];
        SliceFits(kind, entries, |Flatten(other[..j - 1])|, from, to + 1, |Flatten(other[..j])|);
      }
    }
  }

  /** No split into packets that meet both caps uses fewer packets. */
  lemma GreedyIsOptimal(kind: Kind, entries: seq<Entry>, greedy: seq<seq<Entry>>, other: seq<seq<Entry>>)
    requires IsGreedySplit(kind, entries, greedy) && Flatten(other) == entries
    requires forall i :: 0 <= i < |other| ==> Fits(kind, other[i])
    ensures |greedy| <= |other|
  {
    if |other| < |greedy| {
      var m := |other|;
      GreedyStaysAhead(kind, entries, greedy, other, m);
      Whole(other);
      ChunkAt(greedy, m);
    }
  }

  // ----- Whole replies -----

  /** The packets of a reply, as bytes. */
  ghost predicate Encodes(magic: Bytes, kind: Kind, chunks: seq<seq<Entry>>, packets: seq<Bytes>)
  {
    && |packets| == |chunks| && |magic| == MAGIC_BYTES
    && forall i :: 0 <= i < |chunks| ==> |chunks[i]| <= MaxEntries(kind) && AllSendable(kind, chunks[i])
                                         && packets[i] == Packet(magic, kind, chunks[i])
  }

  /** Packets that can be sent and together hold the whole list. */
  ghost predicate Covers(kind: Kind, entries: seq<Entry>, chunks: seq<seq<Entry>>)
  {
    && Flatten(chunks) == entries && chunks != []
    && forall i :: 0 <= i < |chunks| ==> Fits(kind, chunks[i]) && AllSendable(kind, chunks[i])
  }

  /** The chunks to send: an empty list is sent as one empty packet. */
  function OrEmpty(chunks: seq<seq<Entry>>): seq<seq<Entry>>
  {
    if chunks == [] then [[]] else chunks
  }

  ghost predicate AnsweredBy(magic: Bytes, kind: Kind, entries: seq<Entry>, packets: seq<Bytes>,
                             greedy: seq<seq<Entry>>)
  {
    && IsGreedySplit(kind, entries, greedy)
    && Covers(kind, entries, OrEmpty(greedy)) && Encodes(magic, kind, OrEmpty(greedy), packets)
  }

  /** `packets` are a complete answer: the greedy split of `entries`, encoded. */
  ghost predicate Answers(magic: Bytes, kind: Kind, entries: seq<Entry>, packets: seq<Bytes>)
  {
    exists greedy :: AnsweredBy(magic, kind, entries, packets, greedy)
  }

  /** A list in packets, encoded, sent and decoded packet by packet, comes back whole: every packet has its magic, is at
      most 8192 bytes long and is accepted. */
  lemma RepliesDecode(magic: Bytes, kind: Kind, entries: seq<Entry>, chunks: seq<seq<Entry>>, packets: seq<Bytes>)
    requires Covers(kind, entries, chunks) && Encodes(magic, kind, chunks, packets)
    ensures |packets| == |chunks| && Flatten(chunks) == entries
    ensures forall i :: 0 <= i < |packets| ==> |packets[i]| <= MAX_PACKET && magic <= packets[i] &&
                                               Decoded(kind, packets[i]) == Some(chunks[i])
  {
    hide Fits, Decoded;
    forall i | 0 <= i < |packets|
      ensures |packets[i]| <= MAX_PACKET && magic <= packets[i] && Decoded(kind, packets[i]) == Some(chunks[i])
    {
      FitsBoth(kind, chunks[i]);
      assert packets[i][..MAGIC_BYTES] == magic;
      DecodesExactly(kind, packets[i], chunks[i]);
    }
  }

  /** What a client puts together from the packets of a reply; nothing if one of them is refused. */
  function Collected(kind: Kind, packets: seq<Bytes>): Option<seq<Entry>>
    decreases |packets|
  {
    if packets == [] then Some([])
    else
      var front := Collected(kind, packets[..|packets| - 1]);
      var last := Decoded(kind, packets[|packets| - 1]);
      if front.None? || last.None? then None else Some(front.value + last.value)
  }

  lemma {:induction false} CollectsDecoded(kind: Kind, chunks: seq<seq<Entry>>, packets: seq<Bytes>)
    requires |packets| == |chunks| && forall i :: 0 <= i < |packets| ==> Decoded(kind, packets[i]) == Some(chunks[i])
    ensures Collected(kind, packets) == Some(Flatten(chunks))
    decreases |packets|
  {
    hide Decoded;
    if packets != [] {
      CollectsDecoded(kind, chunks[..|chunks| - 1], packets[..|packets| - 1]);
    }
  }

  /** Every packet of a reply has its magic, is at most 8192 bytes long and is accepted, and together they give back the
      list. */
  lemma CollectsAll(magic: Bytes, kind: Kind, entries: seq<Entry>, packets: seq<Bytes>)
    requires Answers(magic, kind, entries, packets)
    ensures Collected(kind, packets) == Some(entries)
    ensures forall i :: 0 <= i < |packets| ==> |packets[i]| <= MAX_PACKET && magic <= packets[i]
  {
    hide Decoded, Fits, Covers, Encodes;
    var greedy :| AnsweredBy(magic, kind, entries, packets, greedy);
    var chunks := OrEmpty(greedy);
    RepliesDecode(magic, kind, entries, chunks, packets);
    CollectsDecoded(kind, chunks, packets);
  }

  lemma SplitCovers(kind: Kind, entries: seq<Entry>, chunks: seq<seq<Entry>>)
    requires IsGreedySplit(kind, entries, chunks) && AllSendable(kind, entries)
    ensures Covers(kind, entries, OrEmpty(chunks))
  {
    hide Fits;
    if chunks == [] {
      OneEmpty<Entry>();
      EmptyFits(kind);
    } else {
      forall i | 0 <= i < |chunks|
        ensures Fits(kind, chunks[i]) && AllSendable(kind, chunks[i])
      {
        ChunksFit(kind, entries, chunks, i);
      }
    }
  }

  lemma OneEmpty<T>()
    ensures Flatten<T>([[]]) == []
  {}

  lemma EmptyFits(kind: Kind)
    ensures Fits(kind, []) && AllSendable(kind, [])
  {}

  lemma EncodesNone(magic: Bytes, kind: Kind)
    requires |magic| == MAGIC_BYTES
    ensures Encodes(magic, kind, [], [])
  {}

  lemma EncodesMore(magic: Bytes, kind: Kind, chunks: seq<seq<Entry>>, i: nat, packets: seq<Bytes>, packet: Bytes)
    requires i < |chunks| && Encodes(magic, kind, chunks[..i], packets)
    requires |chunks[i]| <= MaxEntries(kind) && AllSendable(kind, chunks[i]) && packet == Packet(magic, kind, chunks[i])
    ensures Encodes(magic, kind, chunks[..i + 1], packets + [packet])
  {
    hide Packet, AllSendable;
    assert chunks[..i + 1] == chunks[..i] + [chunks[i]];
  }

  /** The reply loop: split the list, an empty one into one empty packet, and send every packet that encodes. */
  method Reply(magic: Bytes, kind: Kind, entries: seq<Entry>) returns (packets: seq<Bytes>)
    requires |magic| == MAGIC_BYTES && AllSendable(kind, entries)
    ensures Answers(magic, kind, entries, packets)
  {
    hide Fits, Flatten, Packet, TotalSize, IsGreedySplit, Encodes;
    EncodesNone(magic, kind);
    var chunks := Chunk(kind, entries);
    ghost var greedy := chunks;
    SplitCovers(kind, entries, chunks);
    if chunks == [] {
      chunks := [[]];
    }
    packets := [];
    for i := 0 to |chunks|
      invariant |packets| == i && Encodes(magic, kind, chunks[..i], packets)
    {
      FitsBoth(kind, chunks[i]);
      var buffer := new byte[MAX_DATAGRAM];
      var ok, len := EncodeInto(magic, kind, chunks[i], buffer);
      if ok {
        EncodesMore(magic, kind, chunks, i, packets, buffer[..len]);
        packets := packets + [buffer[..len]];
      }
    }
    assert chunks[..|chunks|] == chunks;
    assert AnsweredBy(magic, kind, entries, packets, greedy);
  }

  lemma FitsBoth(kind: Kind, chunk: seq<Entry>)
    ensures Fits(kind, chunk) ==> |chunk| <= MaxEntries(kind) && HEADER_BYTES + TotalSize(chunk) <= MAX_PACKET
  {}
}
