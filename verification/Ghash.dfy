/** GHASH: multiplication in GF(2^128) and the hash of a ciphertext
    (sections 6.3 and 6.4 of NIST SP 800-38D, with no associated data). */
module Ghash {
  import opened Gf256
  import opened Aes

  // ----- Blocks as vectors over GF(2) -----

  const ZERO: Block := [0, 0, 0, 0, 0, 0, 0, 0, 0, 0, 0, 0, 0, 0, 0, 0]

  function XorBlock(a: Block, b: Block): Block
  {
    seq(16, i requires 0 <= i < 16 => Xor(a[i], b[i]))
  }

  /** Bit `k` of a byte, least significant first. */
  predicate BitSet(b: bv8, k: nat)
    requires k < 8
  {
    (b >> k) & 1 == 1
  }

  /** The bit string of a block: most significant bit of byte 0 first. */
  function Bits(x: seq<bv8>): (bits: seq<bool>)
    ensures |bits| == 8 * |x|
  {
    seq(8 * |x|, i requires 0 <= i < 8 * |x| => BitSet(x[i / 8], 7 - i % 8))
  }

  /** A byte shifted right, taking in the low bit of the byte before it. */
  function HalfInner(b: bv8, previous: bv8): bv8
  {
    (b >> 1) | ((previous & 1) << 7)
  }

  /** The first byte shifted right, reduced by R = 11100001 || 0^120 when the last bit falls off. */
  function HalfFirst(b: bv8, last: bv8): bv8
  {
    (b >> 1) ^ (if last & 1 != 0 then 0xe1 else 0)
  }

  function HalfByte(v: Block, k: nat): bv8
    requires k < 16
  {
    if k == 0 then HalfFirst(v[0], v[15]) else HalfInner(v[k], v[k - 1])
  }

  function Half(v: Block): Block
  {
    seq(16, k requires 0 <= k < 16 => HalfByte(v, k))
  }

  function Pick128(bit: bool, v: Block): Block
  {
    if bit then v else ZERO
  }

  /** The product of the bit string `x` and `v`, on byte blocks. */
  function Dot(x: seq<bool>, v: Block): Block
    decreases |x|
  {
    if x == [] then ZERO else XorBlock(Pick128(x[0], v), Dot(x[1..], Half(v)))
  }

  function Multiply(x: Block, y: Block): Block
  {
    Dot(Bits(x), y)
  }

  // ----- The same product on bit strings, as section 6.3 of SP 800-38D writes it -----

  type BitString = s: seq<bool> | |s| == 128 witness seq(128, _ => false)

  function NoBits(): BitString
  {
    seq(128, _ => false)
  }

  /** R = 11100001 || 0^120. */
  predicate InR(i: nat)
  {
    i == 0 || i == 1 || i == 2 || i == 7
  }

  /** V shifted right, and reduced by R when its last bit was set. */
  function ShiftReduce(v: BitString): BitString
  {
    seq(128, i requires 0 <= i < 128 => (i > 0 && v[i - 1]) != (v[127] && InR(i)))
  }

  /** Z_128 for the bits of X and V_0 = Y. */
  function BlockProduct(x: seq<bool>, v: BitString): BitString
    decreases |x|
  {
    if x == [] then NoBits() else XorBits(if x[0] then v else NoBits(), BlockProduct(x[1..], ShiftReduce(v)))
  }

  lemma EachBit(j: nat)
    ensures j < 8 ==> j in {0, 1, 2, 3, 4, 5, 6, 7}
  {}

  lemma InnerBit(b: bv8, previous: bv8, j: nat)
    requires j < 8
    ensures BitSet(HalfInner(b, previous), j) <==> if j == 7 then BitSet(previous, 0) else BitSet(b, j + 1)
  {
    EachBit(j);
  }

  lemma FirstBit(b: bv8, last: bv8, j: nat)
    requires j < 8
    ensures BitSet(HalfFirst(b, last), j) <==> (j < 7 && BitSet(b, j + 1)) != (BitSet(last, 0) && InR(7 - j))
  {
    EachBit(j);
  }

  lemma HalfBitAt(v: Block, k: nat, m: nat)
    requires k < 16 && m < 8
    ensures Bits(Half(v))[8 * k + m] == ShiftReduce(Bits(v))[8 * k + m]
  {
    hide BitSet, HalfInner, HalfFirst, Bits;
    BitAt(Half(v), k, 7 - m);
    BitAt(v, 15, 0);
    if m > 0 {
      BitAt(v, k, 8 - m);
    } else if k > 0 {
      BitAt(v, k - 1, 0);
    }
    if k == 0 {
      FirstBit(v[0], v[15], 7 - m);
    } else {
      InnerBit(v[k], v[k - 1], 7 - m);
    }
  }

  lemma HalfBits(v: Block)
    ensures Bits(Half(v)) == ShiftReduce(Bits(v))
  {
    hide BitSet, HalfInner, HalfFirst, Bits, Half, ShiftReduce;
    forall i | 0 <= i < 128
      ensures Bits(Half(v))[i] == ShiftReduce(Bits(v))[i]
    {
      HalfBitAt(v, i / 8, i % 8);
    }
  }

  lemma ZeroBits()
    ensures Bits(ZERO) == NoBits()
  {}

  /** The product on bytes is the block multiplication of the standard. */
  lemma {:induction false} DotIsBlockProduct(x: seq<bool>, v: Block)
    ensures Bits(Dot(x, v)) == BlockProduct(x, Bits(v))
    decreases |x|
  {
    hide Bits, ShiftReduce, Half, XorBlock, XorBits, NoBits;
    ZeroBits();
    if x != [] {
      DotIsBlockProduct(x[1..], Half(v));
      HalfBits(v);
      BitsXor(Pick128(x[0], v), Dot(x[1..], Half(v)));
    }
  }

  // ----- XOR laws -----

  lemma XorBlockMedial(a: Block, b: Block, c: Block, d: Block)
    ensures XorBlock(XorBlock(a, b), XorBlock(c, d)) == XorBlock(XorBlock(a, c), XorBlock(b, d))
  {}

  lemma XorBlockUnit(a: Block)
    ensures XorBlock(a, a) == ZERO && XorBlock(a, ZERO) == a && XorBlock(ZERO, a) == a
  {}

  // ----- The product is linear in each argument -----

  lemma HalfInnerXor(a: bv8, b: bv8, p: bv8, q: bv8)
    ensures HalfInner(Xor(a, b), Xor(p, q)) == Xor(HalfInner(a, p), HalfInner(b, q))
  {}

  lemma HalfFirstXor(a: bv8, b: bv8, p: bv8, q: bv8)
    ensures HalfFirst(Xor(a, b), Xor(p, q)) == Xor(HalfFirst(a, p), HalfFirst(b, q))
  {
    if p & 1 == q & 1 {
      assert Xor(p, q) & 1 == 0;
    } else {
      assert Xor(p, q) & 1 != 0;
    }
  }

  lemma HalfXor(a: Block, b: Block)
    ensures Half(XorBlock(a, b)) == XorBlock(Half(a), Half(b))
  {
    hide HalfInner, HalfFirst, Xor;
    forall k: nat | k < 16
      ensures HalfByte(XorBlock(a, b), k) == Xor(HalfByte(a, k), HalfByte(b, k))
    {
      if k == 0 {
        HalfFirstXor(a[0], b[0], a[15], b[15]);
      } else {
        HalfInnerXor(a[k], b[k], a[k - 1], b[k - 1]);
      }
    }
  }

  lemma {:induction false} DotXorRight(x: seq<bool>, v: Block, u: Block)
    ensures Dot(x, XorBlock(v, u)) == XorBlock(Dot(x, v), Dot(x, u))
    decreases |x|
  {
    hide XorBlock, Half;
    XorBlockUnit(ZERO);
    if x != [] {
      HalfXor(v, u);
      DotXorRight(x[1..], Half(v), Half(u));
      XorBlockMedial(Pick128(x[0], v), Pick128(x[0], u), Dot(x[1..], Half(v)), Dot(x[1..], Half(u)));
    }
  }

  function XorBits(x: seq<bool>, y: seq<bool>): (z: seq<bool>)
    requires |x| == |y|
    ensures |z| == |x|
  {
    seq(|x|, i requires 0 <= i < |x| => x[i] != y[i])
  }

  lemma {:induction false} DotXorLeft(x: seq<bool>, y: seq<bool>, v: Block)
    requires |x| == |y|
    ensures Dot(XorBits(x, y), v) == XorBlock(Dot(x, v), Dot(y, v))
    decreases |x|
  {
    hide XorBlock, Half;
    XorBlockUnit(ZERO);
    if x != [] {
      assert XorBits(x, y)[1..] == XorBits(x[1..], y[1..]);
      DotXorLeft(x[1..], y[1..], Half(v));
      XorBlockUnit(v);
      XorBlockMedial(Pick128(x[0], v), Pick128(y[0], v), Dot(x[1..], Half(v)), Dot(y[1..], Half(v)));
    }
  }

  lemma BitsXor(a: Block, b: Block)
    ensures Bits(XorBlock(a, b)) == XorBits(Bits(a), Bits(b))
  {}

  /** Multiplication distributes over XOR on both sides. */
  lemma MultiplyLinear(x: Block, x': Block, y: Block, y': Block)
    ensures Multiply(XorBlock(x, x'), y) == XorBlock(Multiply(x, y), Multiply(x', y))
    ensures Multiply(x, XorBlock(y, y')) == XorBlock(Multiply(x, y), Multiply(x, y'))
  {
    hide XorBlock, Bits, Dot;
    BitsXor(x, x');
    DotXorLeft(Bits(x), Bits(x'), y);
    DotXorRight(Bits(x), y, y');
  }

  // ----- GHASH (section 6.4 of SP 800-38D) -----

  function Zeros(n: nat): (z: seq<bv8>)
    ensures |z| == n
  {
    seq(n, _ => 0)
  }

  /** A chunk of at most one block, filled up with zero bytes. */
  function Padded(d: seq<bv8>): Block
    requires |d| <= 16
  {
    d + Zeros(16 - |d|)
  }

  function ChunkLen(data: seq<bv8>): (n: nat)
    ensures n <= 16 && n <= |data|
    ensures data != [] ==> n > 0
  {
    if |data| < 16 then |data| else 16
  }

  function HashFrom(h: Block, y: Block, data: seq<bv8>): Block
    decreases |data|
  {
    if data == [] then y
    else
      var n := ChunkLen(data);
      HashFrom(h, Multiply(XorBlock(y, Padded(data[..n])), h), data[n..])
  }

  function BigEndian(v: nat, n: nat): (s: seq<bv8>)
    ensures |s| == n
    decreases n
  {
    if n == 0 then [] else BigEndian(v / 256, n - 1) + [Low(v)]
  }

  /** The last byte of a number. */
  function Low(v: nat): bv8
  {
    (v % 256) as bv8
  }

  const TWO_64: nat := 0x1_0000_0000_0000_0000

  /** 64 zero bits for the absent associated data, then the ciphertext length in bits, modulo 2^64. */
  function LengthBlock(len: nat): Block
  {
    Zeros(8) + BigEndian(len * 8 % TWO_64, 8)
  }

  function GHash(h: Block, data: seq<bv8>): Block
  {
    Multiply(XorBlock(HashFrom(h, ZERO, data), LengthBlock(|data|)), h)
  }

  function XorSeq(a: seq<bv8>, b: seq<bv8>): (c: seq<bv8>)
    requires |a| == |b|
    ensures |c| == |a|
  {
    seq(|a|, i requires 0 <= i < |a| => Xor(a[i], b[i]))
  }

  lemma PaddedXor(a: seq<bv8>, b: seq<bv8>)
    requires |a| == |b| <= 16
    ensures Padded(XorSeq(a, b)) == XorBlock(Padded(a), Padded(b))
  {}

  lemma {:induction false} HashFromXor(h: Block, y: Block, y': Block, a: seq<bv8>, b: seq<bv8>)
    requires |a| == |b|
    ensures HashFrom(h, XorBlock(y, y'), XorSeq(a, b)) == XorBlock(HashFrom(h, y, a), HashFrom(h, y', b))
    decreases |a|
  {
    hide XorBlock, Multiply, Padded, Xor;
    if a != [] {
      var n := ChunkLen(a);
      var p, q := Padded(a[..n]), Padded(b[..n]);
      assert XorSeq(a, b)[..n] == XorSeq(a[..n], b[..n]);
      assert XorSeq(a, b)[n..] == XorSeq(a[n..], b[n..]);
      PaddedXor(a[..n], b[..n]);
      XorBlockMedial(y, y', p, q);
      MultiplyLinear(XorBlock(y, p), XorBlock(y', q), h, h);
      HashFromXor(h, Multiply(XorBlock(y, p), h), Multiply(XorBlock(y', q), h), a[n..], b[n..]);
    }
  }

  /** For equal-length inputs the XOR of the two hashes depends on the XOR of the inputs alone:
      the length block cancels. */
  lemma GHashXor(h: Block, a: seq<bv8>, b: seq<bv8>)
    requires |a| == |b|
    ensures XorBlock(GHash(h, a), GHash(h, b)) == Multiply(HashFrom(h, ZERO, XorSeq(a, b)), h)
  {
    hide XorBlock, Multiply, HashFrom, LengthBlock, XorSeq;
    var ya, yb, len := HashFrom(h, ZERO, a), HashFrom(h, ZERO, b), LengthBlock(|a|);
    MultiplyLinear(XorBlock(ya, len), XorBlock(yb, len), h, h);
    XorBlockMedial(ya, len, yb, len);
    XorBlockUnit(len);
    XorBlockUnit(XorBlock(ya, yb));
    XorBlockUnit(ZERO);
    HashFromXor(h, ZERO, ZERO, a, b);
  }

  // ----- GHASH as a polynomial -----

  /** `x` times the n-th power of `h`. */
  function Raised(x: Block, h: Block, n: nat): Block
    decreases n
  {
    if n == 0 then x else Multiply(Raised(x, h, n - 1), h)
  }

  /** X_1 H^m + X_2 H^(m-1) + ... + X_m H */
  function Polynomial(h: Block, blocks: seq<Block>): Block
    decreases |blocks|
  {
    if blocks == [] then ZERO else XorBlock(Raised(blocks[0], h, |blocks|), Polynomial(h, blocks[1..]))
  }

  /** The data in blocks, the last one filled up with zero bytes. */
  function Blocks(data: seq<bv8>): seq<Block>
    decreases |data|
  {
    if data == [] then [] else [Padded(data[..ChunkLen(data)])] + Blocks(data[ChunkLen(data)..])
  }

  lemma {:induction false} RaisedXor(a: Block, b: Block, h: Block, n: nat)
    ensures Raised(XorBlock(a, b), h, n) == XorBlock(Raised(a, h, n), Raised(b, h, n))
    decreases n
  {
    hide XorBlock, Multiply;
    if n > 0 {
      RaisedXor(a, b, h, n - 1);
      MultiplyLinear(Raised(a, h, n - 1), Raised(b, h, n - 1), h, h);
    }
  }

  lemma {:induction false} RaisedFirst(x: Block, h: Block, n: nat)
    ensures Raised(Multiply(x, h), h, n) == Raised(x, h, n + 1)
    decreases n
  {
    hide Multiply;
    if n > 0 {
      RaisedFirst(x, h, n - 1);
    }
  }

  lemma {:induction false} PolynomialAppend(h: Block, blocks: seq<Block>, last: Block)
    ensures Polynomial(h, blocks + [last]) == Multiply(XorBlock(Polynomial(h, blocks), last), h)
    decreases |blocks|
  {
    hide XorBlock, Multiply;
    if blocks == [] {
      assert [] + [last] == [last] && [last][1..] == [];
      assert Raised(last, h, 1) == Multiply(Raised(last, h, 0), h);
      XorBlockUnit(Multiply(last, h));
      XorBlockUnit(last);
    } else {
      var first, rest := Raised(blocks[0], h, |blocks|), Polynomial(h, blocks[1..]);
      assert (blocks + [last])[1..] == blocks[1..] + [last];
      PolynomialAppend(h, blocks[1..], last);
      XorBlockAssociative(first, rest, last);
      MultiplyLinear(first, XorBlock(rest, last), h, h);
    }
  }

  lemma {:induction false} HashFromIsPolynomial(h: Block, y: Block, data: seq<bv8>)
    ensures HashFrom(h, y, data) == XorBlock(Raised(y, h, |Blocks(data)|), Polynomial(h, Blocks(data)))
    decreases |data|
  {
    hide XorBlock, Multiply, Padded;
    if data == [] {
      XorBlockUnit(y);
    } else {
      var n := ChunkLen(data);
      var x, rest := Padded(data[..n]), Blocks(data[n..]);
      var m := |rest|;
      assert Blocks(data)[1..] == rest;
      HashFromIsPolynomial(h, Multiply(XorBlock(y, x), h), data[n..]);
      RaisedFirst(XorBlock(y, x), h, m);
      RaisedXor(y, x, h, m + 1);
      XorBlockAssociative(Raised(y, h, m + 1), Raised(x, h, m + 1), Polynomial(h, rest));
    }
  }

  /** GHASH of a ciphertext is the polynomial whose coefficients are its blocks and then the length block, at H. */
  lemma GHashIsPolynomial(h: Block, data: seq<bv8>)
    ensures GHash(h, data) == Polynomial(h, Blocks(data) + [LengthBlock(|data|)])
  {
    hide XorBlock, Multiply, HashFrom, Polynomial, LengthBlock, Raised;
    HashFromIsPolynomial(h, ZERO, data);
    RaisedZero(h, |Blocks(data)|);
    XorBlockUnit(Polynomial(h, Blocks(data)));
    PolynomialAppend(h, Blocks(data), LengthBlock(|data|));
  }

  lemma {:induction false} RaisedZero(h: Block, n: nat)
    ensures Raised(ZERO, h, n) == ZERO
    decreases n
  {
    hide Multiply, XorBlock;
    if n > 0 {
      RaisedZero(h, n - 1);
      XorBlockUnit(ZERO);
      MultiplyLinear(ZERO, ZERO, h, h);
      XorBlockUnit(Multiply(ZERO, h));
    }
  }

  function ByteNat(b: bv8): nat
  {
    b as nat
  }

  /** Bytes read as a number, most significant first. */
  function Value(s: seq<bv8>): nat
    decreases |s|
  {
    if s == [] then 0 else Value(s[..|s| - 1]) * 256 + ByteNat(s[|s| - 1])
  }

  function Pow256(n: nat): nat
  {
    if n == 0 then 1 else 256 * Pow256(n - 1)
  }

  lemma ByteOf(x: nat)
    requires x < 256
    ensures ByteNat(x as bv8) == x
  {}

  lemma {:induction false} BigEndianReads(v: nat, n: nat)
    requires v < Pow256(n)
    ensures Value(BigEndian(v, n)) == v
    decreases n
  {
    hide ByteNat;
    if n > 0 {
      BigEndianReads(v / 256, n - 1);
      ByteOf(v % 256);
      assert BigEndian(v, n)[..n - 1] == BigEndian(v / 256, n - 1);
    }
  }

  /** The length block: eight zero bytes, then the number of ciphertext bits modulo 2^64. */
  lemma LengthBlockReads(len: nat)
    ensures LengthBlock(len)[..8] == Zeros(8) && Value(LengthBlock(len)[8..]) == len * 8 % TWO_64
  {
    hide Value, BigEndian;
    assert Pow256(8) == TWO_64;
    BigEndianReads(len * 8 % TWO_64, 8);
    assert LengthBlock(len)[8..] == BigEndian(len * 8 % TWO_64, 8);
  }

  // ----- The code -----

  lemma XorBlockAssociative(a: Block, b: Block, c: Block)
    ensures XorBlock(XorBlock(a, b), c) == XorBlock(a, XorBlock(b, c))
  {}

  method XorInto(z: array<bv8>, v: seq<bv8>)
    requires z.Length == 16 && |v| == 16
    modifies z
    ensures z[..] == XorBlock(old(z[..]), v)
  {
    hide Xor;
    for k := 0 to 16
      invariant forall j :: 0 <= j < k ==> z[j] == Xor(old(z[j]), v[j])
      invariant forall j :: k <= j < 16 ==> z[j] == old(z[j])
    {
      z[k] := Xor(z[k], v[k]);
    }
  }

  method HalveInPlace(v: array<bv8>)
    requires v.Length == 16
    modifies v
    ensures v[..] == Half(old(v[..]))
  {
    hide HalfInner;
    var lsbSet := v[15] & 1 != 0;
    for k := 16 downto 1
      invariant forall j :: k <= j < 16 ==> v[j] == HalfInner(old(v[j]), old(v[j - 1]))
      invariant forall j :: 0 <= j < k ==> v[j] == old(v[j])
    {
      v[k] := HalfInner(v[k], v[k - 1]);
    }
    v[0] := v[0] >> 1;
    if lsbSet {
      v[0] := v[0] ^ 0xe1;
    }
    HalfFirstCases(old(v[0]), old(v[15]));
    forall k: nat | k < 16
      ensures v[k] == HalfByte(old(v[..]), k)
    {
    }
  }

  lemma HalfFirstCases(b: bv8, last: bv8)
    ensures last & 1 != 0 ==> HalfFirst(b, last) == (b >> 1) ^ 0xe1
    ensures last & 1 == 0 ==> HalfFirst(b, last) == b >> 1
  {}

  lemma DotStep(x: seq<bool>, at: nat, z: Block, v: Block)
    requires at < |x|
    ensures XorBlock(z, Dot(x[at..], v)) == XorBlock(if x[at] then XorBlock(z, v) else z, Dot(x[at + 1..], Half(v)))
  {
    hide XorBlock, Half;
    var rest := Dot(x[at + 1..], Half(v));
    assert x[at..][1..] == x[at + 1..];
    assert Dot(x[at..], v) == XorBlock(Pick128(x[at], v), rest);
    XorBlockAssociative(z, Pick128(x[at], v), rest);
    XorBlockUnit(z);
  }

  /** One turn of the bit loop: add `v` when the bit is set, then halve `v`. */
  method MulBit(z: array<bv8>, v: array<bv8>, bitSet: bool)
    requires z.Length == 16 && v.Length == 16 && z != v
    modifies z, v
    ensures z[..] == if bitSet then XorBlock(old(z[..]), old(v[..])) else old(z[..])
    ensures v[..] == Half(old(v[..]))
  {
    hide XorBlock, Half;
    if bitSet {
      XorInto(z, v[..]);
    }
    HalveInPlace(v);
  }

  lemma BitAt(x: Block, i: nat, bit: nat)
    requires i < 16 && bit < 8
    ensures Bits(x)[8 * i + (7 - bit)] == BitSet(x[i], bit)
  {}

  method Gf128Mul(x: Block, y: Block, out: array<bv8>)
    requires out.Length == 16
    modifies out
    ensures out[..] == Multiply(x, y)
  {
    hide XorBlock, Half, BitSet, Dot, Bits;
    var v := new bv8[16](i requires 0 <= i < 16 => y[i]);
    forall i | 0 <= i < 16 {
      out[i] := 0;
    }
    ghost var bits := Bits(x);
    assert out[..] == ZERO && v[..] == y && bits[0..] == bits;
    XorBlockUnit(Dot(bits, y));
    for i := 0 to 16
      invariant XorBlock(out[..], Dot(bits[8 * i..], v[..])) == Multiply(x, y)
    {
      for bit := 8 downto 0
        invariant XorBlock(out[..], Dot(bits[8 * i + (8 - bit)..], v[..])) == Multiply(x, y)
      {
        DotStep(bits, 8 * i + (7 - bit), out[..], v[..]);
        BitAt(x, i, bit);
        MulBit(out, v, BitSet(x[i], bit));
      }
    }
    DotEmpty(bits, v[..]);
    XorBlockUnit(out[..]);
  }

  lemma DotEmpty(x: seq<bool>, v: Block)
    ensures Dot(x[|x|..], v) == ZERO
  {}

  method Hash(h: Block, data: seq<bv8>, out: array<bv8>)
    requires out.Length == 16
    modifies out
    ensures out[..] == GHash(h, data)
  {
    hide XorBlock, Multiply, Padded, LengthBlock;
    var y := new bv8[16](_ => 0);
    assert y[..] == ZERO && data[0..] == data;
    var off := 0;
    while off < |data|
      invariant off <= |data|
      invariant HashFrom(h, y[..], data[off..]) == HashFrom(h, ZERO, data)
    {
      var n := if |data| - off < 16 then |data| - off else 16;
      var block := PaddedBlock(data[off..off + n]);
      assert data[off..][..n] == data[off..off + n] && data[off..][n..] == data[off + n..];
      XorInto(y, block);
      Gf128Mul(y[..], h, y);
      off := off + n;
    }
    var lenBlock := LengthBytes(|data|);
    XorInto(y, lenBlock);
    Gf128Mul(y[..], h, out);
  }

  method PaddedBlock(d: seq<bv8>) returns (b: Block)
    requires |d| <= 16
    ensures b == Padded(d)
  {
    var block := new bv8[16](_ => 0);
    for i := 0 to |d|
      invariant block[..i] == d[..i]
      invariant forall j :: i <= j < 16 ==> block[j] == 0
    {
      block[i] := d[i];
    }
    b := block[..];
    assert b == d[..|d|] + Zeros(16 - |d|);
  }

  lemma BigEndianStep(v: nat, n: nat)
    ensures BigEndian(v, 0) == []
    ensures n > 0 ==> BigEndian(v, n) == BigEndian(v / 256, n - 1) + [Low(v)]
  {}

  method LengthBytes(len: nat) returns (b: Block)
    ensures b == LengthBlock(len)
  {
    hide BigEndian, Low;
    var block := new bv8[16](_ => 0);
    var bitCount := len * 8 % TWO_64;
    var rest: nat := bitCount;
    for i := 0 to 8
      invariant BigEndian(bitCount, 8) == BigEndian(rest, 8 - i) + block[16 - i..]
      invariant forall j :: 0 <= j < 16 - i ==> block[j] == 0
    {
      BigEndianStep(rest, 8 - i);
      ghost var before := block[16 - i..];
      var low := Low(rest);
      block[15 - i] := low;
      assert block[15 - i..] == [low] + before;
      rest := rest / 256;
    }
    BigEndianStep(rest, 0);
    b := block[..];
    assert b == Zeros(8) + block[8..];
  }
}
