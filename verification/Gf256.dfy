/** Arithmetic in GF(2^8) and the substitution table of AES (sections 4 and 5.1.1 of FIPS 197). */
module Gf256 {

  // ----- The substitution table -----

  /** One row of the table: sixteen bytes, the entry for low nibble 0 first. */
  function SboxRow(hi: bv8): bv128
  {
    if hi < 0x8 then
      if hi < 0x4 then
        if hi < 0x2 then
          if hi < 0x1 then 0x637c777bf26b6fc53001672bfed7ab76
          else 0xca82c97dfa5947f0add4a2af9ca472c0
        else
          if hi < 0x3 then 0xb7fd9326363ff7cc34a5e5f171d83115
          else 0x04c723c31896059a071280e2eb27b275
      else
        if hi < 0x6 then
          if hi < 0x5 then 0x09832c1a1b6e5aa0523bd6b329e32f84
          else 0x53d100ed20fcb15b6acbbe394a4c58cf
        else
          if hi < 0x7 then 0xd0efaafb434d338545f9027f503c9fa8
          else 0x51a3408f929d38f5bcb6da2110fff3d2
    else
      if hi < 0xc then
        if hi < 0xa then
          if hi < 0x9 then 0xcd0c13ec5f974417c4a77e3d645d1973
          else 0x60814fdc222a908846eeb814de5e0bdb
        else
          if hi < 0xb then 0xe0323a0a4906245cc2d3ac629195e479
          else 0xe7c8376d8dd54ea96c56f4ea657aae08
      else
        if hi < 0xe then
          if hi < 0xd then 0xba78252e1ca6b4c6e8dd741f4bbd8b8a
          else 0x703eb5664803f60e613557b986c11d9e
        else
          if hi < 0xf then 0xe1f8981169d98e949b1e87e9ce5528df
          else 0x8ca1890dbfe6426841992d0fb054bb16
  }

  function InvSboxRow(hi: bv8): bv128
  {
    if hi < 0x8 then
      if hi < 0x4 then
        if hi < 0x2 then
          if hi < 0x1 then 0x52096ad53036a538bf40a39e81f3d7fb
          else 0x7ce339829b2fff87348e4344c4dee9cb
        else
          if hi < 0x3 then 0x547b9432a6c2233dee4c950b42fac34e
          else 0x082ea16628d924b2765ba2496d8bd125
      else
        if hi < 0x6 then
          if hi < 0x5 then 0x72f8f66486689816d4a45ccc5d65b692
          else 0x6c704850fdedb9da5e154657a78d9d84
        else
          if hi < 0x7 then 0x90d8ab008cbcd30af7e45805b8b34506
          else 0xd02c1e8fca3f0f02c1afbd0301138a6b
    else
      if hi < 0xc then
        if hi < 0xa then
          if hi < 0x9 then 0x3a9111414f67dcea97f2cfcef0b4e673
          else 0x96ac7422e7ad3585e2f937e81c75df6e
        else
          if hi < 0xb then 0x47f11a711d29c5896fb7620eaa18be1b
          else 0xfc563e4bc6d279209adbc0fe78cd5af4
      else
        if hi < 0xe then
          if hi < 0xd then 0x1fdda8338807c731b11210592780ec5f
          else 0x60517fa919b54a0d2de57a9f93c99cef
        else
          if hi < 0xf then 0xa0e03b4dae2af5b0c8ebbb3c83539961
          else 0x172b047eba77d626e169146355210c7d
  }

  function RowByte(row: bv128, lo: bv8): bv8
  {
    var half := if lo & 8 == 0 then row >> 64 else row;
    var quarter := if lo & 4 == 0 then half >> 32 else half;
    var pair := if lo & 2 == 0 then quarter >> 16 else quarter;
    var entry := if lo & 1 == 0 then pair >> 8 else pair;
    (entry & 0xff) as bv8
  }

  function Sbox(x: bv8): bv8
  {
    RowByte(SboxRow(x >> 4), x & 0x0f)
  }

  function InvSbox(x: bv8): bv8
  {
    RowByte(InvSboxRow(x >> 4), x & 0x0f)
  }

  lemma SboxInverts(x: bv8)
    ensures InvSbox(Sbox(x)) == x
    ensures Sbox(InvSbox(x)) == x
  {
    SboxLeftInverse(x);
    SboxRightInverse(x);
  }

  lemma SboxLeftInverse(x: bv8)
    ensures InvSbox(Sbox(x)) == x
  {}

  lemma SboxRightInverse(x: bv8)
    ensures Sbox(InvSbox(x)) == x
  {}

  // ----- Arithmetic in GF(2^8) -----

  /** Multiplication by {02}. */
  function XTime(x: bv8): bv8
  {
    (x << 1) ^ (if x & 0x80 != 0 then 0x1b else 0)
  }

  function Pick(a: bv8, b: bv8): bv8
  {
    if b & 1 != 0 then a else 0
  }

  function Xor(a: bv8, b: bv8): bv8
  {
    a ^ b
  }

  /** The product of `a` and the low `n` coefficients of `b`. */
  function GMulLow(a: bv8, b: bv8, n: nat): bv8
    decreases n
  {
    if n == 0 then 0 else Xor(Pick(a, b), GMulLow(XTime(a), b >> 1, n - 1))
  }

  /** Multiplication in GF(2^8) modulo x^8 + x^4 + x^3 + x + 1 (section 4.2 of FIPS 197). */
  function GMul(a: bv8, b: bv8): bv8
  {
    GMulLow(a, b, 8)
  }

  function GMulFlat(a0: bv8, b0: bv8): bv8
  {
    var a1, b1 := XTime(a0), b0 >> 1;
    var a2, b2 := XTime(a1), b1 >> 1;
    var a3, b3 := XTime(a2), b2 >> 1;
    var a4, b4 := XTime(a3), b3 >> 1;
    var a5, b5 := XTime(a4), b4 >> 1;
    var a6, b6 := XTime(a5), b5 >> 1;
    var a7, b7 := XTime(a6), b6 >> 1;
    Xor(Pick(a0, b0), Xor(Pick(a1, b1), Xor(Pick(a2, b2), Xor(Pick(a3, b3),
    Xor(Pick(a4, b4), Xor(Pick(a5, b5), Xor(Pick(a6, b6), Xor(Pick(a7, b7), 0))))))))
  }

  lemma GMulUnrolls(a0: bv8, b0: bv8)
    ensures GMul(a0, b0) == GMulFlat(a0, b0)
  {
    hide XTime, Pick, Xor;
  }

  /** The inverse of the affine step of section 5.1.1 of FIPS 197. */
  function InvAffine(x: bv8): bv8
  {
    ((x << 1) | (x >> 7)) ^ ((x << 3) | (x >> 5)) ^ ((x << 6) | (x >> 2)) ^ 0x05
  }

  function Affine(x: bv8): bv8
  {
    x ^ ((x << 1) | (x >> 7)) ^ ((x << 2) | (x >> 6)) ^ ((x << 3) | (x >> 5)) ^ ((x << 4) | (x >> 4)) ^ 0x63
  }

  lemma AffineInverts(x: bv8)
    ensures Affine(InvAffine(x)) == x
    ensures InvAffine(Affine(x)) == x
  {}

  lemma InverseBySbox(x: bv8)
    requires x != 0
    ensures GMulFlat(x, InvAffine(Sbox(x))) == 1
  {}

  /** Every table entry is the one section 5.1.1 of FIPS 197 prescribes: the affine image of the
      multiplicative inverse, with 0 taken as its own inverse. */
  lemma SboxIsFips(x: bv8) returns (y: bv8)
    ensures Sbox(x) == Affine(y)
    ensures if x == 0 then y == 0 else GMul(x, y) == 1
  {
    y := InvAffine(Sbox(x));
    AffineInverts(Sbox(x));
    if x != 0 {
      GMulUnrolls(x, y);
      InverseBySbox(x);
    }
  }

  lemma FlatByTwoAndThree(a: bv8)
    ensures GMulFlat(a, 2) == XTime(a)
    ensures GMulFlat(a, 3) == Xor(XTime(a), a)
  {}

  /** The two products MixColumns uses. */
  lemma GMulByTwoAndThree(a: bv8)
    ensures GMul(a, 2) == XTime(a)
    ensures GMul(a, 3) == Xor(XTime(a), a)
  {
    GMulUnrolls(a, 2);
    GMulUnrolls(a, 3);
    FlatByTwoAndThree(a);
  }

  /** {02} a0 + {03} a1 + a2 + a3 */
  function MixByte(a0: bv8, a1: bv8, a2: bv8, a3: bv8): bv8
  {
    XTime(a0) ^ XTime(a1) ^ a1 ^ a2 ^ a3
  }

  // ----- Multiplication distributes over addition -----

  lemma XTimeAdds(a: bv8, b: bv8)
    ensures XTime(Xor(a, b)) == Xor(XTime(a), XTime(b))
  {
    if a & 0x80 == b & 0x80 {
      assert (a ^ b) & 0x80 == 0;
      if a & 0x80 == 0 {
      } else {
      }
    } else {
      assert (a ^ b) & 0x80 != 0;
      if a & 0x80 == 0 {
      } else {
      }
    }
  }

  lemma PickAdds(a: bv8, b: bv8, k: bv8)
    ensures Pick(Xor(a, b), k) == Xor(Pick(a, k), Pick(b, k))
  {}

  lemma XorMedial(a: bv8, b: bv8, c: bv8, d: bv8)
    ensures Xor(Xor(a, b), Xor(c, d)) == Xor(Xor(a, c), Xor(b, d))
  {
    hide Xor;
    XorAssociates(a, b, Xor(c, d));
    XorAssociates(b, c, d);
    XorCommutes(b, c);
    XorAssociates(c, b, d);
    XorAssociates(a, c, Xor(b, d));
  }

  lemma XorAssociates(a: bv8, b: bv8, c: bv8)
    ensures Xor(Xor(a, b), c) == Xor(a, Xor(b, c))
  {}

  lemma XorCommutes(a: bv8, b: bv8)
    ensures Xor(a, b) == Xor(b, a)
  {}

  lemma {:induction false} GMulLowAdds(a: bv8, b: bv8, k: bv8, n: nat)
    ensures GMulLow(Xor(a, b), k, n) == Xor(GMulLow(a, k, n), GMulLow(b, k, n))
    decreases n
  {
    if n == 0 {
      assert Xor(0, 0) == 0;
    } else {
      XTimeAdds(a, b);
      PickAdds(a, b, k);
      GMulLowAdds(XTime(a), XTime(b), k >> 1, n - 1);
      hide Xor, XTime, Pick;
      XorMedial(Pick(a, k), Pick(b, k), GMulLow(XTime(a), k >> 1, n - 1), GMulLow(XTime(b), k >> 1, n - 1));
    }
  }

  lemma GMulAdds(a: bv8, b: bv8, k: bv8)
    ensures GMul(Xor(a, b), k) == Xor(GMul(a, k), GMul(b, k))
  {
    GMulLowAdds(a, b, k, 8);
  }

  // ----- The inverse of MixColumns on a column (section 5.3.3 of FIPS 197) -----

  function Xor4(a: bv8, b: bv8, c: bv8, d: bv8): bv8
  {
    Xor(Xor(a, b), Xor(c, d))
  }

  /** {0e} b0 + {0b} b1 + {0d} b2 + {09} b3 */
  function InvMixByte(b0: bv8, b1: bv8, b2: bv8, b3: bv8): bv8
  {
    Xor4(GMul(b0, 0x0e), GMul(b1, 0x0b), GMul(b2, 0x0d), GMul(b3, 0x09))
  }

  lemma Xor4Adds(a: bv8, b: bv8, c: bv8, d: bv8, a': bv8, b': bv8, c': bv8, d': bv8)
    ensures Xor(Xor4(a, b, c, d), Xor4(a', b', c', d')) == Xor4(Xor(a, a'), Xor(b, b'), Xor(c, c'), Xor(d, d'))
  {
    hide Xor;
    XorMedial(Xor(a, b), Xor(c, d), Xor(a', b'), Xor(c', d'));
    XorMedial(a, b, a', b');
    XorMedial(c, d, c', d');
  }

  lemma Xor4Transposes(a: bv8, b: bv8, c: bv8, d: bv8, e: bv8, f: bv8, g: bv8, h: bv8,
                       i: bv8, j: bv8, k: bv8, l: bv8, m: bv8, n: bv8, o: bv8, p: bv8)
    ensures Xor4(Xor4(a, b, c, d), Xor4(e, f, g, h), Xor4(i, j, k, l), Xor4(m, n, o, p))
         == Xor4(Xor4(a, e, i, m), Xor4(b, f, j, n), Xor4(c, g, k, o), Xor4(d, h, l, p))
  {
    Xor4Adds(a, b, c, d, e, f, g, h);
    Xor4Adds(i, j, k, l, m, n, o, p);
    Xor4Adds(Xor(a, e), Xor(b, f), Xor(c, g), Xor(d, h), Xor(i, m), Xor(j, n), Xor(k, o), Xor(l, p));
    hide Xor;
  }

  lemma GMulXor4(a: bv8, b: bv8, c: bv8, d: bv8, k: bv8)
    ensures GMul(Xor4(a, b, c, d), k) == Xor4(GMul(a, k), GMul(b, k), GMul(c, k), GMul(d, k))
  {
    hide Xor, GMul;
    GMulAdds(Xor(a, b), Xor(c, d), k);
    GMulAdds(a, b, k);
    GMulAdds(c, d, k);
  }

  lemma MixByteIs(a0: bv8, a1: bv8, a2: bv8, a3: bv8)
    ensures MixByte(a0, a1, a2, a3) == Xor4(XTime(a0), Xor(XTime(a1), a1), a2, a3)
  {
    var x, y := XTime(a0), XTime(a1);
    assert MixByte(a0, a1, a2, a3) == Xor(Xor(Xor(Xor(x, y), a1), a2), a3);
    hide Xor, XTime, MixByte;
    XorAssociates(x, y, a1);
    XorAssociates(Xor(x, Xor(y, a1)), a2, a3);
  }

  function By09(a: bv8): bv8
  {
    XTime(XTime(XTime(a))) ^ a
  }

  function By0b(a: bv8): bv8
  {
    XTime(XTime(XTime(a))) ^ XTime(a) ^ a
  }

  function By0d(a: bv8): bv8
  {
    XTime(XTime(XTime(a))) ^ XTime(XTime(a)) ^ a
  }

  function By0e(a: bv8): bv8
  {
    XTime(XTime(XTime(a))) ^ XTime(XTime(a)) ^ XTime(a)
  }

  lemma FlatBy09(a: bv8)
    ensures GMulFlat(a, 0x09) == By09(a)
  {}

  lemma FlatBy0b(a: bv8)
    ensures GMulFlat(a, 0x0b) == By0b(a)
  {}

  lemma FlatBy0d(a: bv8)
    ensures GMulFlat(a, 0x0d) == By0d(a)
  {}

  lemma FlatBy0e(a: bv8)
    ensures GMulFlat(a, 0x0e) == By0e(a)
  {}

  lemma GMulByInverses(a: bv8)
    ensures GMul(a, 0x09) == By09(a) && GMul(a, 0x0b) == By0b(a)
    ensures GMul(a, 0x0d) == By0d(a) && GMul(a, 0x0e) == By0e(a)
  {
    hide XTime, GMul, GMulFlat, By09, By0b, By0d, By0e;
    GMulUnrolls(a, 0x09);
    GMulUnrolls(a, 0x0b);
    GMulUnrolls(a, 0x0d);
    GMulUnrolls(a, 0x0e);
    FlatBy09(a);
    FlatBy0b(a);
    FlatBy0d(a);
    FlatBy0e(a);
  }

  lemma FirstContribution(a: bv8)
    ensures Xor4(By0e(XTime(a)), By0b(a), By0d(a), By09(Xor(XTime(a), a))) == a
  {}

  lemma SecondContribution(a: bv8)
    ensures Xor4(By0e(Xor(XTime(a), a)), By0b(XTime(a)), By0d(a), By09(a)) == 0
  {}

  lemma ThirdContribution(a: bv8)
    ensures Xor4(By0e(a), By0b(Xor(XTime(a), a)), By0d(XTime(a)), By09(a)) == 0
  {}

  lemma FourthContribution(a: bv8)
    ensures Xor4(By0e(a), By0b(a), By0d(Xor(XTime(a), a)), By09(XTime(a))) == 0
  {}

  /** What one byte of a column contributes to each byte of mixing and unmixing it: itself, or nothing. */
  lemma Contributions(a: bv8)
    ensures InvMixByte(XTime(a), a, a, Xor(XTime(a), a)) == a
    ensures InvMixByte(Xor(XTime(a), a), XTime(a), a, a) == 0
    ensures InvMixByte(a, Xor(XTime(a), a), XTime(a), a) == 0
    ensures InvMixByte(a, a, Xor(XTime(a), a), XTime(a)) == 0
  {
    hide XTime, Xor, Xor4, GMul, By09, By0b, By0d, By0e;
    GMulByInverses(a);
    GMulByInverses(XTime(a));
    GMulByInverses(Xor(XTime(a), a));
    FirstContribution(a);
    SecondContribution(a);
    ThirdContribution(a);
    FourthContribution(a);
  }

  lemma InvMixByteAdds(a: bv8, b: bv8, c: bv8, d: bv8, e: bv8, f: bv8, g: bv8, h: bv8,
                       i: bv8, j: bv8, k: bv8, l: bv8, m: bv8, n: bv8, o: bv8, p: bv8)
    ensures InvMixByte(Xor4(a, b, c, d), Xor4(e, f, g, h), Xor4(i, j, k, l), Xor4(m, n, o, p))
         == Xor4(InvMixByte(a, e, i, m), InvMixByte(b, f, j, n), InvMixByte(c, g, k, o), InvMixByte(d, h, l, p))
  {
    hide Xor4, GMul;
    GMulXor4(a, b, c, d, 0x0e);
    GMulXor4(e, f, g, h, 0x0b);
    GMulXor4(i, j, k, l, 0x0d);
    GMulXor4(m, n, o, p, 0x09);
    Xor4Transposes(GMul(a, 0x0e), GMul(b, 0x0e), GMul(c, 0x0e), GMul(d, 0x0e),
                   GMul(e, 0x0b), GMul(f, 0x0b), GMul(g, 0x0b), GMul(h, 0x0b),
                   GMul(i, 0x0d), GMul(j, 0x0d), GMul(k, 0x0d), GMul(l, 0x0d),
                   GMul(m, 0x09), GMul(n, 0x09), GMul(o, 0x09), GMul(p, 0x09));
  }

  /** Unmixing a mixed column gives the column back. */
  lemma UnmixesByte(a: bv8, b: bv8, c: bv8, d: bv8)
    ensures InvMixByte(MixByte(a, b, c, d), MixByte(b, c, d, a), MixByte(c, d, a, b), MixByte(d, a, b, c)) == a
  {
    MixByteIs(a, b, c, d);
    MixByteIs(b, c, d, a);
    MixByteIs(c, d, a, b);
    MixByteIs(d, a, b, c);
    Contributions(a);
    Contributions(b);
    Contributions(c);
    Contributions(d);
    OnlyFirst(a);
    hide MixByte, InvMixByte, Xor, XTime, Xor4;
    var a2, b2, c2, d2 := XTime(a), XTime(b), XTime(c), XTime(d);
    var a3, b3, c3, d3 := Xor(a2, a), Xor(b2, b), Xor(c2, c), Xor(d2, d);
    TurnsXor4(b2, c3, d, a);
    TurnsXor4(c2, d3, a, b);
    TurnsXor4(d2, a3, b, c);
    InvMixByteAdds(a2, b3, c, d, a, b2, c3, d, a, b, c2, d3, a3, b, c, d2);
  }

  lemma OnlyFirst(a: bv8)
    ensures Xor4(a, 0, 0, 0) == a
  {}

  lemma TurnsXor4(a: bv8, b: bv8, c: bv8, d: bv8)
    ensures Xor4(a, b, c, d) == Xor4(d, a, b, c) == Xor4(c, d, a, b) == Xor4(b, c, d, a)
  {
    hide Xor;
    XorCommutes(Xor(a, b), Xor(c, d));
    XorCommutes(Xor(d, a), Xor(b, c));
    XorMedial(a, b, c, d);
    XorCommutes(a, c);
    XorCommutes(b, d);
    XorMedial(d, a, b, c);
    XorCommutes(Xor(d, b), Xor(a, c));
  }

  lemma XorSkips(p: bv8, a: bv8, rest: bv8)
    ensures Xor(p, Xor(a, rest)) == Xor(p ^ a, rest)
    ensures Xor(p, Xor(0, rest)) == Xor(p, rest)
    ensures Xor(p, 0) == p
  {}

  /** The four orders in which the code adds the terms of a column. */
  lemma MixByteOrders(a0: bv8, a1: bv8, a2: bv8, a3: bv8, two0: bv8, two1: bv8, three1: bv8)
    requires two0 == XTime(a0) && two1 == XTime(a1) && three1 == two1 ^ a1
    ensures two0 ^ three1 ^ a2 ^ a3 == MixByte(a0, a1, a2, a3)
    ensures a3 ^ two0 ^ three1 ^ a2 == MixByte(a0, a1, a2, a3)
    ensures a2 ^ a3 ^ two0 ^ three1 == MixByte(a0, a1, a2, a3)
    ensures three1 ^ a2 ^ a3 ^ two0 == MixByte(a0, a1, a2, a3)
  {}
}
