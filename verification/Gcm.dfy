/** AES-256-GCM sealing of the registration exchange (section 7 of NIST SP 800-38D, 96-bit nonces,
    no associated data): nonce, then ciphertext, then tag. */
module Gcm {
  import opened Options
  import opened Gf256
  import opened Aes
  import opened Ghash

  const NONCE_BYTES := 12
  const TAG_BYTES := 16
  const TWO_32: nat := 0x1_0000_0000

  type Nonce = s: seq<bv8> | |s| == 12 witness [0, 0, 0, 0, 0, 0, 0, 0, 0, 0, 0, 0]

  // ----- The 32-bit counter (section 6.2) -----

  function ByteValue(b: bv8): nat
  {
    b as nat
  }

  lemma ByteValueBound(b: bv8)
    ensures ByteValue(b) < 256
  {}

  lemma ByteValueInjective(a: bv8, b: bv8)
    requires ByteValue(a) == ByteValue(b)
    ensures a == b
  {}

  lemma ByteValueNext(b: bv8)
    ensures b != 0xff ==> Next(b) != 0 && ByteValue(Next(b)) == ByteValue(b) + 1
    ensures b == 0xff ==> Next(b) == 0 && ByteValue(b) == 255
    ensures ByteValue(0) == 0
  {}

  /** The last four bytes read as a big-endian number. */
  function Counter(b: Block): nat
  {
    CounterOf(ByteValue(b[12]), ByteValue(b[13]), ByteValue(b[14]), ByteValue(b[15]))
  }

  function Next(b: bv8): bv8
  {
    b + 1
  }

  /** Increments byte `i`, carrying into the byte before it, but never past byte 12. */
  function CarryInto(b: Block, i: nat): Block
    requires 12 <= i < 16
    decreases i
  {
    if b[i] != 0xff || i == 12 then b[..i] + [Next(b[i])] + Zeros(15 - i) else CarryInto(b, i - 1)
  }

  function Inc32(b: Block): Block
  {
    CarryInto(b, 15)
  }

  lemma CounterBound(b: Block)
    ensures Counter(b) < TWO_32
  {}

  function CounterOf(v12: nat, v13: nat, v14: nat, v15: nat): nat
  {
    ((v12 * 256 + v13) * 256 + v14) * 256 + v15
  }

  lemma Carries(v12: nat, v13: nat, v14: nat, v15: nat)
    ensures CounterOf(v12, v13, v14, v15 + 1) == CounterOf(v12, v13, v14, v15) + 1
    ensures CounterOf(v12, v13, v14 + 1, 0) == CounterOf(v12, v13, v14, 255) + 1
    ensures CounterOf(v12, v13 + 1, 0, 0) == CounterOf(v12, v13, 255, 255) + 1
    ensures CounterOf(v12 + 1, 0, 0, 0) == CounterOf(v12, 255, 255, 255) + 1
    ensures CounterOf(255, 255, 255, 255) == TWO_32 - 1
    ensures CounterOf(0, 0, 0, 0) == 0
  {}

  lemma Wraps(c: nat)
    requires c < TWO_32
    ensures (c + 1) % TWO_32 == if c == TWO_32 - 1 then 0 else c + 1
  {}

  lemma Inc32Counts(b: Block)
    ensures Counter(Inc32(b)) == (Counter(b) + 1) % TWO_32
    ensures Inc32(b)[..12] == b[..12]
  {
    hide ByteValue, CounterOf, Next;
    CounterBound(b);
    Wraps(Counter(b));
    Carries(ByteValue(b[12]), ByteValue(b[13]), ByteValue(b[14]), ByteValue(b[15]));
    CounterBound(Inc32(b));
    ByteValueNext(b[12]);
    ByteValueNext(b[13]);
    ByteValueNext(b[14]);
    ByteValueNext(b[15]);
    if b[15] != 0xff {
    } else if b[14] != 0xff {
      assert Inc32(b) == CarryInto(b, 14);
    } else if b[13] != 0xff {
      assert Inc32(b) == CarryInto(b, 14) == CarryInto(b, 13);
    } else {
      assert Inc32(b) == CarryInto(b, 14) == CarryInto(b, 13) == CarryInto(b, 12);
    }
  }

  function Inc32Times(b: Block, k: nat): Block
    decreases k
  {
    if k == 0 then b else Inc32(Inc32Times(b, k - 1))
  }

  /** Incrementing k times adds k modulo 2^32 and leaves the first twelve bytes alone. */
  lemma {:induction false} Inc32TimesCounts(b: Block, k: nat)
    ensures Counter(Inc32Times(b, k)) == (Counter(b) + k) % TWO_32
    ensures Inc32Times(b, k)[..12] == b[..12]
    decreases k
  {
    hide Counter, Inc32;
    CounterBound(b);
    if k > 0 {
      Inc32TimesCounts(b, k - 1);
      Inc32Counts(Inc32Times(b, k - 1));
    }
  }

  lemma {:induction false} Inc32TimesAdds(b: Block, j: nat, k: nat)
    ensures Inc32Times(Inc32Times(b, j), k) == Inc32Times(b, j + k)
    decreases k
  {
    hide Inc32;
    if k > 0 {
      Inc32TimesAdds(b, j, k - 1);
    }
  }

  lemma CountersDiffer(b: Block, i: nat, j: nat)
    requires i < j < TWO_32
    ensures Inc32Times(b, i) != Inc32Times(b, j)
  {
    hide Counter, Inc32Times;
    CounterBound(b);
    Inc32TimesCounts(b, i);
    Inc32TimesCounts(b, j);
  }

  // ----- Counter mode (section 6.5) -----

  function Gctr(w: Schedule, cb: Block, data: seq<bv8>): (out: seq<bv8>)
    ensures |out| == |data|
    decreases |data|
  {
    hide Cipher, Inc32;
    if data == [] then []
    else
      var n := ChunkLen(data);
      XorSeq(data[..n], Cipher(w, cb)[..n]) + Gctr(w, Inc32(cb), data[n..])
  }

  lemma XorSeqTwice(a: seq<bv8>, k: seq<bv8>)
    requires |a| == |k|
    ensures XorSeq(XorSeq(a, k), k) == a
  {}

  /** Counter mode undoes itself, partial last block included. */
  lemma {:induction false} GctrTwice(w: Schedule, cb: Block, data: seq<bv8>)
    ensures Gctr(w, cb, Gctr(w, cb, data)) == data
    decreases |data|
  {
    hide XorSeq, Cipher, Inc32;
    if data != [] {
      var n := ChunkLen(data);
      var key := Cipher(w, cb)[..n];
      var sealed := Gctr(w, cb, data);
      assert ChunkLen(sealed) == n;
      assert sealed[..n] == XorSeq(data[..n], key);
      assert sealed[n..] == Gctr(w, Inc32(cb), data[n..]);
      XorSeqTwice(data[..n], key);
      GctrTwice(w, Inc32(cb), data[n..]);
      assert data[..n] + data[n..] == data;
    }
  }

  /** Byte 16 i + k is masked with byte k of the i-th keystream block. */
  lemma {:induction false} GctrAt(w: Schedule, cb: Block, data: seq<bv8>, i: nat, k: nat)
    requires k < 16 && 16 * i + k < |data|
    ensures Gctr(w, cb, data)[16 * i + k] == Xor(data[16 * i + k], Cipher(w, Inc32Times(cb, i))[k])
    decreases i
  {
    hide Cipher, Inc32, Xor, Gctr;
    GctrFirst(w, cb, data, 16 * i + k);
    if i > 0 {
      GctrAt(w, Inc32(cb), data[16..], i - 1, k);
      Inc32TimesAdds(cb, 1, i - 1);
      assert Inc32Times(cb, 1) == Inc32(Inc32Times(cb, 0));
      assert data[16..][16 * (i - 1) + k] == data[16 * i + k];
    }
  }

  lemma GctrFirst(w: Schedule, cb: Block, data: seq<bv8>, at: nat)
    requires at < |data|
    ensures Gctr(w, cb, data)[at] ==
            if at < 16 then Xor(data[at], Cipher(w, cb)[at]) else Gctr(w, Inc32(cb), data[16..])[at - 16]
  {
    hide Cipher, Inc32, Xor;
  }

  // ----- Authenticated encryption and decryption -----

  /** The pre-counter block of a 96-bit nonce: nonce || 0^31 || 1. */
  function J0(nonce: Nonce): Block
  {
    nonce + [0, 0, 0, 1]
  }

  function HashKey(w: Schedule): Block
  {
    Cipher(w, ZERO)
  }

  function Tag(w: Schedule, nonce: Nonce, ct: seq<bv8>): Block
  {
    Gctr(w, J0(nonce), GHash(HashKey(w), ct))
  }

  function Seal(w: Schedule, nonce: Nonce, pt: seq<bv8>): (m: seq<bv8>)
    ensures |m| == NONCE_BYTES + |pt| + TAG_BYTES
  {
    hide Gctr, Inc32;
    var ct := Gctr(w, Inc32(J0(nonce)), pt);
    nonce + ct + Tag(w, nonce, ct)
  }

  function Open(w: Schedule, m: seq<bv8>): Option<seq<bv8>>
  {
    if |m| < NONCE_BYTES + TAG_BYTES then None
    else
      var nonce := m[..NONCE_BYTES];
      var ct := m[NONCE_BYTES..|m| - TAG_BYTES];
      if Tag(w, nonce, ct) == m[|m| - TAG_BYTES..] then Some(Gctr(w, Inc32(J0(nonce)), ct)) else None
  }

  /** Opening a sealed message gives back the plaintext, for every key, nonce and length. */
  lemma OpenSealed(w: Schedule, nonce: Nonce, pt: seq<bv8>)
    ensures Open(w, Seal(w, nonce, pt)) == Some(pt)
  {
    hide Gctr, Tag, Inc32, J0;
    var m := Seal(w, nonce, pt);
    var ct := Gctr(w, Inc32(J0(nonce)), pt);
    assert m[..NONCE_BYTES] == nonce;
    assert m[NONCE_BYTES..|m| - TAG_BYTES] == ct;
    assert m[|m| - TAG_BYTES..] == Tag(w, nonce, ct);
    GctrTwice(w, Inc32(J0(nonce)), pt);
  }

  /** The tag is the hash of the ciphertext masked with the encryption of nonce || 00000001 (section 7.1). */
  lemma TagIsMaskedHash(w: Schedule, nonce: Nonce, ct: seq<bv8>)
    ensures Tag(w, nonce, ct) == XorBlock(GHash(HashKey(w), ct), Cipher(w, J0(nonce)))
    ensures HashKey(w) == Cipher(w, ZERO) && J0(nonce) == nonce + [0, 0, 0, 1]
  {
    hide Cipher, GHash, Xor;
    GctrBlock(w, J0(nonce), GHash(HashKey(w), ct));
  }

  lemma GctrBlock(w: Schedule, cb: Block, x: Block)
    ensures Gctr(w, cb, x) == XorBlock(x, Cipher(w, cb))
  {
    hide Cipher, Xor, Inc32;
    var e := Cipher(w, cb);
    assert x[..16] == x && e[..16] == e && x[16..] == [];
    assert Gctr(w, cb, x) == XorSeq(x, e) + [];
  }

  /** Two ciphertexts of one length have tags that differ by a product the ciphertexts' difference alone decides. */
  lemma TagDifference(w: Schedule, nonce: Nonce, ct: seq<bv8>, ct': seq<bv8>)
    requires |ct| == |ct'|
    ensures XorBlock(Tag(w, nonce, ct), Tag(w, nonce, ct')) ==
            Multiply(HashFrom(HashKey(w), ZERO, XorSeq(ct, ct')), HashKey(w))
  {
    hide Cipher, GHash, Tag, XorBlock, Multiply, HashFrom, XorSeq, HashKey, J0;
    var h, e := HashKey(w), Cipher(w, J0(nonce));
    TagIsMaskedHash(w, nonce, ct);
    TagIsMaskedHash(w, nonce, ct');
    XorBlockMedial(GHash(h, ct), e, GHash(h, ct'), e);
    XorBlockUnit(e);
    XorBlockUnit(XorBlock(GHash(h, ct), GHash(h, ct')));
    GHashXor(h, ct, ct');
  }

  /** Replacing the ciphertext of a sealed message by another of its length is accepted exactly when that product is
      zero: when the difference is a root of the polynomial. */
  lemma TamperedOpensExactly(w: Schedule, nonce: Nonce, pt: seq<bv8>, ct': seq<bv8>)
    requires |ct'| == |pt|
    ensures var ct := Seal(w, nonce, pt)[NONCE_BYTES..NONCE_BYTES + |pt|];
      Open(w, nonce + ct' + Seal(w, nonce, pt)[NONCE_BYTES + |pt|..]).Some? <==>
      Multiply(HashFrom(HashKey(w), ZERO, XorSeq(ct', ct)), HashKey(w)) == ZERO
  {
    hide HashKey, Tag, XorBlock, Multiply, HashFrom, XorSeq, Gctr, Inc32, J0;
    var ct := Gctr(w, Inc32(J0(nonce)), pt);
    var m := nonce + ct' + Seal(w, nonce, pt)[NONCE_BYTES + |pt|..];
    assert Seal(w, nonce, pt)[NONCE_BYTES..NONCE_BYTES + |pt|] == ct;
    assert Seal(w, nonce, pt)[NONCE_BYTES + |pt|..] == Tag(w, nonce, ct);
    assert m[..NONCE_BYTES] == nonce && m[NONCE_BYTES..|m| - TAG_BYTES] == ct';
    assert m[|m| - TAG_BYTES..] == Tag(w, nonce, ct);
    TagDifference(w, nonce, ct', ct);
    XorBlockSame(Tag(w, nonce, ct'), Tag(w, nonce, ct));
  }

  lemma XorBlockSame(a: Block, b: Block)
    ensures XorBlock(a, b) == ZERO <==> a == b
  {
    hide Xor;
    forall i | 0 <= i < 16
      ensures Xor(a[i], b[i]) == 0 <==> a[i] == b[i]
    {
      XorByteSame(a[i], b[i]);
    }
    if XorBlock(a, b) == ZERO {
      forall i | 0 <= i < 16
        ensures a[i] == b[i]
      {
        assert XorBlock(a, b)[i] == ZERO[i];
      }
    }
  }

  lemma XorByteSame(a: bv8, b: bv8)
    ensures Xor(a, b) == 0 <==> a == b
  {}

  /** Exactly the sealed messages open: a message yields `pt` when and only when it is the sealing of
      `pt` under its own first twelve bytes. */
  lemma OpensExactlySealed(w: Schedule, m: seq<bv8>, pt: seq<bv8>)
    ensures Open(w, m) == Some(pt) <==> |m| >= NONCE_BYTES && m == Seal(w, m[..NONCE_BYTES], pt)
  {
    hide Gctr, Tag, Inc32, J0;
    if |m| >= NONCE_BYTES && m == Seal(w, m[..NONCE_BYTES], pt) {
      OpenSealed(w, m[..NONCE_BYTES], pt);
    }
    if Open(w, m) == Some(pt) {
      var nonce, ct := m[..NONCE_BYTES], m[NONCE_BYTES..|m| - TAG_BYTES];
      GctrTwice(w, Inc32(J0(nonce)), ct);
      assert m == nonce + ct + m[|m| - TAG_BYTES..];
    }
  }

  /** In a message of fewer than 2^32 blocks no counter block repeats, none is the one that masks the tag,
      and no two keystream blocks are equal. */
  lemma KeystreamNeverRepeats(w: Schedule, nonce: Nonce, i: nat, j: nat)
    requires i < j < TWO_32 - 1
    ensures Inc32Times(Inc32(J0(nonce)), i) != Inc32Times(Inc32(J0(nonce)), j)
    ensures Inc32Times(Inc32(J0(nonce)), i) != J0(nonce)
    ensures Cipher(w, Inc32Times(Inc32(J0(nonce)), i)) != Cipher(w, Inc32Times(Inc32(J0(nonce)), j))
    ensures Cipher(w, Inc32Times(Inc32(J0(nonce)), i)) != Cipher(w, J0(nonce))
  {
    hide Cipher, Inc32, J0;
    var j0 := J0(nonce);
    assert Inc32Times(j0, 1) == Inc32(Inc32Times(j0, 0));
    assert Inc32Times(j0, 0) == j0;
    Inc32TimesAdds(j0, 1, i);
    Inc32TimesAdds(j0, 1, j);
    CountersDiffer(j0, 1 + i, 1 + j);
    CountersDiffer(j0, 0, 1 + i);
    CipherInjective(w, Inc32Times(Inc32(j0), i), Inc32Times(Inc32(j0), j));
    CipherInjective(w, Inc32Times(Inc32(j0), i), j0);
  }

  /** Block `i` of a byte string. */
  function BlockOf(s: seq<bv8>, i: nat): Block
    requires 16 * i + 16 <= |s|
  {
    s[16 * i..16 * i + 16]
  }

  lemma XorRecovers(a: bv8, k: bv8)
    ensures Xor(a, Xor(a, k)) == k
  {}

  /** What a full block was masked with. */
  lemma MaskIsKeystream(w: Schedule, cb: Block, data: seq<bv8>, i: nat)
    requires 16 * i + 16 <= |data|
    ensures XorSeq(BlockOf(data, i), BlockOf(Gctr(w, cb, data), i)) == Cipher(w, Inc32Times(cb, i))
  {
    hide Gctr, Cipher, Xor, Inc32Times;
    forall k: nat | k < 16
      ensures Xor(data[16 * i + k], Gctr(w, cb, data)[16 * i + k]) == Cipher(w, Inc32Times(cb, i))[k]
    {
      GctrAt(w, cb, data, i, k);
      XorRecovers(data[16 * i + k], Cipher(w, Inc32Times(cb, i))[k]);
    }
  }

  /** The counter block of block i: the nonce, then the count i + 2 (section 7.1). */
  lemma CounterBlockIs(nonce: Nonce, i: nat)
    ensures var cb := Inc32Times(Inc32(J0(nonce)), i); cb[..12] == nonce && Counter(cb) == (i + 2) % TWO_32
  {
    StartsAtOne(nonce);
    hide Inc32, Counter, J0;
    Inc32Counts(J0(nonce));
    Inc32TimesCounts(Inc32(J0(nonce)), i);
  }

  lemma StartsAtOne(nonce: Nonce)
    ensures J0(nonce)[..12] == nonce && Counter(J0(nonce)) == 1
  {}

  /** Byte k of block i is masked with byte k of the encryption of that counter block. */
  lemma SealedByteAt(w: Schedule, nonce: Nonce, pt: seq<bv8>, i: nat, k: nat)
    requires k < 16 && 16 * i + k < |pt|
    ensures Seal(w, nonce, pt)[NONCE_BYTES + 16 * i + k] ==
            Xor(pt[16 * i + k], Cipher(w, Inc32Times(Inc32(J0(nonce)), i))[k])
  {
    hide Gctr, Cipher, Xor, Tag, Inc32, J0, Inc32Times;
    GctrAt(w, Inc32(J0(nonce)), pt, i, k);
  }

  /** In one sealed message no two full blocks are masked alike, and none like the tag: plaintext and ciphertext
      differ by another block each time. */
  lemma MasksDiffer(w: Schedule, nonce: Nonce, pt: seq<bv8>, i: nat, j: nat)
    requires i < j < TWO_32 - 1 && 16 * j + 16 <= |pt|
    ensures var ct := Seal(w, nonce, pt)[NONCE_BYTES..NONCE_BYTES + |pt|];
      && XorSeq(BlockOf(pt, i), BlockOf(ct, i)) != XorSeq(BlockOf(pt, j), BlockOf(ct, j))
      && XorSeq(BlockOf(pt, i), BlockOf(ct, i)) != Cipher(w, J0(nonce))
  {
    hide Gctr, Cipher, XorSeq, Inc32, Inc32Times, J0, Tag, BlockOf;
    var ct := Gctr(w, Inc32(J0(nonce)), pt);
    assert Seal(w, nonce, pt)[NONCE_BYTES..NONCE_BYTES + |pt|] == ct;
    MaskIsKeystream(w, Inc32(J0(nonce)), pt, i);
    MaskIsKeystream(w, Inc32(J0(nonce)), pt, j);
    KeystreamNeverRepeats(w, nonce, i, j);
  }

  // ----- The code -----

  method Increment(block: array<bv8>)
    requires block.Length == 16
    modifies block
    ensures block[..] == Inc32(old(block[..]))
  {
    hide Next;
    ghost var start := block[..];
    for i := 16 downto 12
      invariant i > 12 ==> Inc32(start) == CarryInto(start, i - 1)
      invariant i == 12 ==> Inc32(start) == start[..12] + Zeros(4)
      invariant block[..] == start[..i] + Zeros(16 - i)
    {
      ByteValueNext(start[i]);
      block[i] := Next(block[i]);
      assert block[..] == start[..i] + [Next(start[i])] + Zeros(15 - i);
      if block[i] != 0 {
        return;
      }
      assert [Next(start[i])] + Zeros(15 - i) == Zeros(16 - i);
    }
  }

  /** Masks `input` into `out` from offset `at`. */
  method GctrInto(aes: Aes256, counter: array<bv8>, input: seq<bv8>, out: array<bv8>, at: nat)
    requires counter.Length == 16 && counter != out && at + |input| <= out.Length
    modifies counter, out
    ensures out[..at] == old(out[..at])
    ensures out[at..at + |input|] == Gctr(aes.roundKeys, old(counter[..]), input)
    ensures out[at + |input|..] == old(out[at + |input|..])
    ensures Written(old(out[..]), out[..], at, Gctr(aes.roundKeys, old(counter[..]), input))
  {
    hide Gctr, XorSeq, Cipher, Inc32, Written;
    ghost var w, start, before := aes.roundKeys, counter[..], out[..];
    var off := 0;
    ghost var done: seq<bv8> := [];
    assert input[0..] == input;
    WrittenNone(before, at);
    while off < |input|
      invariant off <= |input| && |done| == off
      invariant done + Gctr(w, counter[..], input[off..]) == Gctr(w, start, input)
      invariant Written(before, out[..], at, done)
    {
      var n := if |input| - off < 16 then |input| - off else 16;
      ghost var now, piece := out[..], XorSeq(input[off..off + n], Cipher(w, counter[..])[..n]);
      GctrStep(w, counter[..], input, off, n);
      GctrChunk(aes, counter, input[off..off + n], out, at + off);
      WrittenMore(before, now, out[..], at, done, piece);
      done := done + piece;
      off := off + n;
    }
    GctrEmpty(w, counter[..], input);
    WrittenSlices(before, out, at, done);
  }

  /** `now` is `before` with `data` written at `at`. */
  ghost predicate Written(before: seq<bv8>, now: seq<bv8>, at: nat, data: seq<bv8>)
  {
    && |now| == |before| && at + |data| <= |now|
    && now[..at] == before[..at]
    && now[at..at + |data|] == data
    && now[at + |data|..] == before[at + |data|..]
  }

  lemma WrittenNone(before: seq<bv8>, at: nat)
    requires at <= |before|
    ensures Written(before, before, at, [])
  {}

  lemma WrittenMore(before: seq<bv8>, now: seq<bv8>, later: seq<bv8>, at: nat, done: seq<bv8>, piece: seq<bv8>)
    requires Written(before, now, at, done) && Written(now, later, at + |done|, piece)
    ensures Written(before, later, at, done + piece)
  {}

  lemma WrittenSlices(before: seq<bv8>, out: array<bv8>, at: nat, data: seq<bv8>)
    requires Written(before, out[..], at, data)
    ensures out[..at] == before[..at]
    ensures out[at..at + |data|] == data
    ensures out[at + |data|..] == before[at + |data|..]
  {}

  lemma GctrStep(w: Schedule, cb: Block, input: seq<bv8>, off: nat, n: nat)
    requires off < |input| && n == (if |input| - off < 16 then |input| - off else 16)
    ensures Gctr(w, cb, input[off..])
         == XorSeq(input[off..off + n], Cipher(w, cb)[..n]) + Gctr(w, Inc32(cb), input[off + n..])
  {
    hide XorSeq, Cipher, Inc32;
    assert input[off..][..n] == input[off..off + n] && input[off..][n..] == input[off + n..];
  }

  lemma GctrEmpty(w: Schedule, cb: Block, input: seq<bv8>)
    ensures Gctr(w, cb, input[|input|..]) == []
  {}

  /** One turn of the loop: encrypt the counter, mask a chunk, increment. */
  method GctrChunk(aes: Aes256, counter: array<bv8>, chunk: seq<bv8>, out: array<bv8>, at: nat)
    requires counter.Length == 16 && counter != out && |chunk| <= 16 && at + |chunk| <= out.Length
    modifies counter, out
    ensures counter[..] == Inc32(old(counter[..]))
    ensures Written(old(out[..]), out[..], at, XorSeq(chunk, Cipher(aes.roundKeys, old(counter[..]))[..|chunk|]))
  {
    hide Cipher, Inc32, XorSeq, Written;
    var keystream := new bv8[16];
    aes.EncryptBlock(counter[..], keystream);
    MaskChunk(chunk, keystream, out, at);
    assert keystream[..][..|chunk|] == keystream[..|chunk|];
    Increment(counter);
  }

  method MaskChunk(chunk: seq<bv8>, keystream: array<bv8>, out: array<bv8>, at: nat)
    requires |chunk| <= 16 && keystream.Length == 16 && keystream != out && at + |chunk| <= out.Length
    modifies out
    ensures Written(old(out[..]), out[..], at, XorSeq(chunk, keystream[..|chunk|]))
  {
    hide Xor;
    for i := 0 to |chunk|
      invariant forall j :: 0 <= j < i ==> out[at + j] == Xor(chunk[j], keystream[j])
      invariant forall j :: 0 <= j < at || at + i <= j < out.Length ==> out[j] == old(out[j])
    {
      out[at + i] := Xor(chunk[i], keystream[i]);
    }
  }

  /** The hash key and the tag of a ciphertext, as both directions compute them. */
  method ComputeTag(aes: Aes256, nonce: Nonce, ct: seq<bv8>) returns (tag: array<bv8>)
    ensures fresh(tag) && tag.Length == TAG_BYTES
    ensures tag[..] == Tag(aes.roundKeys, nonce, ct)
  {
    hide Gctr, GHash, Cipher;
    var h := new bv8[16];
    aes.EncryptBlock(ZERO, h);
    var s := new bv8[16];
    Hash(h[..], ct, s);
    var j0 := FirstCounter(nonce);
    tag := new bv8[16];
    GctrInto(aes, j0, s[..], tag, 0);
  }

  method FirstCounter(nonce: Nonce) returns (j0: array<bv8>)
    ensures fresh(j0) && j0.Length == 16 && j0[..] == J0(nonce)
  {
    j0 := new bv8[16](i requires 0 <= i < 16 => if i < 12 then nonce[i] else if i < 15 then 0 else 1);
  }

  /** Writes nonce, ciphertext and tag to the front of `out`; fails, writing nothing, only when they do not fit. */
  method SealInto(key: Key, nonce: Nonce, pt: seq<bv8>, out: array<bv8>) returns (ok: bool, outLen: nat)
    modifies out
    ensures ok <==> NONCE_BYTES + |pt| + TAG_BYTES <= out.Length
    ensures ok ==> outLen == NONCE_BYTES + |pt| + TAG_BYTES
    ensures ok ==> out[..outLen] == Seal(KeySchedule(key), nonce, pt) && out[outLen..] == old(out[outLen..])
    ensures !ok ==> out[..] == old(out[..])
  {
    hide Gctr, Tag, Inc32, J0, KeySchedule, Written;
    outLen := NONCE_BYTES + |pt| + TAG_BYTES;
    if out.Length < outLen {
      return false, 0;
    }
    ok := true;
    ghost var before := out[..];
    WriteAt(out, 0, nonce);
    ghost var step1 := out[..];
    var aes := new Aes256(key);
    var counter := FirstCounter(nonce);
    Increment(counter);
    ghost var ct := Gctr(KeySchedule(key), counter[..], pt);
    GctrInto(aes, counter, pt, out, NONCE_BYTES);
    ghost var step2 := out[..];
    WrittenMore(before, step1, step2, 0, nonce, ct);
    var tag := ComputeTag(aes, nonce, out[NONCE_BYTES..NONCE_BYTES + |pt|]);
    WriteAt(out, NONCE_BYTES + |pt|, tag[..]);
    WrittenMore(before, step2, out[..], 0, nonce + ct, tag[..]);
    WrittenSlices(before, out, 0, nonce + ct + tag[..]);
  }

  method WriteAt(out: array<bv8>, at: nat, data: seq<bv8>)
    requires at + |data| <= out.Length
    modifies out
    ensures Written(old(out[..]), out[..], at, data)
  {
    forall i | 0 <= i < |data| {
      out[at + i] := data[i];
    }
  }

  /** Byte-by-byte comparison without an early exit. */
  method SameBytes(a: seq<bv8>, b: seq<bv8>) returns (same: bool)
    requires |a| == |b|
    ensures same <==> a == b
  {
    var diff: bv8 := 0;
    for i := 0 to |a|
      invariant diff == 0 <==> a[..i] == b[..i]
    {
      assert a[..i + 1] == a[..i] + [a[i]] && b[..i + 1] == b[..i] + [b[i]];
      DifferenceBits(diff, a[i], b[i]);
      diff := diff | (a[i] ^ b[i]);
    }
    assert a[..|a|] == a && b[..|b|] == b;
    same := diff == 0;
  }

  lemma DifferenceBits(diff: bv8, a: bv8, b: bv8)
    ensures diff | (a ^ b) == 0 <==> diff == 0 && a == b
  {}

  /** Checks the tag before decrypting anything; on failure `out` is untouched. */
  method OpenInto(key: Key, m: seq<bv8>, out: array<bv8>) returns (ok: bool, outLen: nat)
    modifies out
    ensures ok <==> Open(KeySchedule(key), m).Some? && |m| - NONCE_BYTES - TAG_BYTES <= out.Length
    ensures ok ==> outLen == |m| - NONCE_BYTES - TAG_BYTES
    ensures ok ==> out[..outLen] == Open(KeySchedule(key), m).value && out[outLen..] == old(out[outLen..])
    ensures !ok ==> out[..] == old(out[..])
  {
    hide Gctr, Tag, Inc32, J0, KeySchedule;
    if |m| < NONCE_BYTES + TAG_BYTES {
      return false, 0;
    }
    var nonce, ct := m[..NONCE_BYTES], m[NONCE_BYTES..|m| - TAG_BYTES];
    if out.Length < |ct| {
      return false, 0;
    }
    var aes := new Aes256(key);
    var expected := ComputeTag(aes, nonce, ct);
    var same := SameBytes(expected[..], m[|m| - TAG_BYTES..]);
    if !same {
      return false, 0;
    }
    var counter := FirstCounter(nonce);
    Increment(counter);
    GctrInto(aes, counter, ct, out, 0);
    ok, outLen := true, |ct|;
  }
}
