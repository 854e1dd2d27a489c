/** The AES-256 block cipher of the signalling channel (section 5 of FIPS 197).
    The specification functions follow the standard; the methods are the byte loops of the code. */
module Aes {
  import opened Gf256

  type Block = s: seq<bv8> | |s| == 16 witness [0, 0, 0, 0, 0, 0, 0, 0, 0, 0, 0, 0, 0, 0, 0, 0]

  type Key = s: seq<bv8> | |s| == 32
    witness [0, 0, 0, 0, 0, 0, 0, 0, 0, 0, 0, 0, 0, 0, 0, 0, 0, 0, 0, 0, 0, 0, 0, 0, 0, 0, 0, 0, 0, 0, 0, 0]

  /** The sixty round-key words. */
  type Schedule = s: seq<bv32> | |s| == 60 witness seq(60, _ => 0)

  const ROUNDS := 14

  // ----- The round transformations (section 5.1 of FIPS 197) -----

  function SubBytes(s: Block): Block
  {
    seq(16, i requires 0 <= i < 16 => Sbox(s[i]))
  }

  /** Byte `i` is row `i % 4` of column `i / 4`; row r moves left by r columns. */
  function ShiftSource(i: nat): (j: nat)
    requires i < 16
    ensures j < 16
  {
    4 * ((i / 4 + i % 4) % 4) + i % 4
  }

  lemma ShiftSourceAt(c: nat, r: nat)
    requires c < 4 && r < 4
    ensures ShiftSource(4 * c + r) == 4 * ((c + r) % 4) + r
  {}

  function ShiftTarget(j: nat): (i: nat)
    requires j < 16
    ensures i < 16 && ShiftSource(i) == j
  {
    var c, r := j / 4, j % 4;
    var q := if r <= c then c - r else c + 4 - r;
    assert (4 * q + r) / 4 == q && (4 * q + r) % 4 == r;
    assert (q + r) % 4 == c;
    4 * q + r
  }

  function ShiftRows(s: Block): Block
  {
    seq(16, i requires 0 <= i < 16 => s[ShiftSource(i)])
  }

  function MixColumn(s: Block, c: nat): (m: seq<bv8>)
    requires c < 4
    ensures |m| == 4
  {
    var a0, a1, a2, a3 := s[4 * c], s[4 * c + 1], s[4 * c + 2], s[4 * c + 3];
    [MixByte(a0, a1, a2, a3), MixByte(a1, a2, a3, a0), MixByte(a2, a3, a0, a1), MixByte(a3, a0, a1, a2)]
  }

  /** The first `n` columns after mixing. */
  function MixFirst(s: Block, n: nat): (m: seq<bv8>)
    requires n <= 4
    ensures |m| == 4 * n
    decreases n
  {
    if n == 0 then [] else MixFirst(s, n - 1) + MixColumn(s, n - 1)
  }

  function MixColumns(s: Block): Block
  {
    MixFirst(s, 4)
  }

  /** Byte `r` of a word, most significant first. */
  function WordByte(w: bv32, r: nat): bv8
    requires r < 4
  {
    if r == 0 then ((w >> 24) & 0xff) as bv8
    else if r == 1 then ((w >> 16) & 0xff) as bv8
    else if r == 2 then ((w >> 8) & 0xff) as bv8
    else (w & 0xff) as bv8
  }

  function KeyColumn(s: Block, rk: bv32, c: nat): (m: seq<bv8>)
    requires c < 4
    ensures |m| == 4
  {
    [Xor(s[4 * c], WordByte(rk, 0)), Xor(s[4 * c + 1], WordByte(rk, 1)),
     Xor(s[4 * c + 2], WordByte(rk, 2)), Xor(s[4 * c + 3], WordByte(rk, 3))]
  }

  function KeyFirst(s: Block, w: Schedule, round: nat, n: nat): (m: seq<bv8>)
    requires round <= ROUNDS && n <= 4
    ensures |m| == 4 * n
    decreases n
  {
    if n == 0 then [] else KeyFirst(s, w, round, n - 1) + KeyColumn(s, w[4 * round + n - 1], n - 1)
  }

  function AddRoundKey(s: Block, w: Schedule, round: nat): Block
    requires round <= ROUNDS
  {
    KeyFirst(s, w, round, 4)
  }

  function Round(s: Block, w: Schedule, round: nat): Block
    requires round <= ROUNDS
  {
    AddRoundKey(MixColumns(ShiftRows(SubBytes(s))), w, round)
  }

  /** The state after `round` of the thirteen full rounds. */
  function Rounds(s: Block, w: Schedule, round: nat): Block
    requires round < ROUNDS
    decreases round
  {
    if round == 0 then AddRoundKey(s, w, 0) else Round(Rounds(s, w, round - 1), w, round)
  }

  function Cipher(w: Schedule, s: Block): Block
  {
    AddRoundKey(ShiftRows(SubBytes(Rounds(s, w, ROUNDS - 1))), w, ROUNDS)
  }

  // ----- The inverse cipher (section 5.3 of FIPS 197) -----

  function InvSubBytes(s: Block): Block
  {
    seq(16, i requires 0 <= i < 16 => InvSbox(s[i]))
  }

  function InvShiftRows(s: Block): Block
  {
    seq(16, j requires 0 <= j < 16 => s[ShiftTarget(j)])
  }

  function InvMixColumn(m: seq<bv8>): (a: seq<bv8>)
    requires |m| == 4
    ensures |a| == 4
  {
    [InvMixByte(m[0], m[1], m[2], m[3]), InvMixByte(m[1], m[2], m[3], m[0]),
     InvMixByte(m[2], m[3], m[0], m[1]), InvMixByte(m[3], m[0], m[1], m[2])]
  }

  function InvMixColumns(s: Block): Block
  {
    InvMixColumn(s[0..4]) + InvMixColumn(s[4..8]) + InvMixColumn(s[8..12]) + InvMixColumn(s[12..16])
  }

  /** The rounds undone, last first. */
  function InvRounds(s: Block, w: Schedule, round: nat): Block
    requires round < ROUNDS
    decreases round
  {
    var t := AddRoundKey(InvSubBytes(InvShiftRows(s)), w, round);
    if round == 0 then t else InvRounds(InvMixColumns(t), w, round - 1)
  }

  function InvCipher(w: Schedule, s: Block): Block
  {
    InvRounds(AddRoundKey(s, w, ROUNDS), w, ROUNDS - 1)
  }

  lemma UnshiftsAndUnsubs(s: Block)
    ensures InvSubBytes(InvShiftRows(ShiftRows(SubBytes(s)))) == s
  {
    hide Sbox, InvSbox, ShiftSource, ShiftTarget;
    forall i | 0 <= i < 16
      ensures InvSubBytes(InvShiftRows(ShiftRows(SubBytes(s))))[i] == s[i]
    {
      SboxInverts(s[i]);
    }
  }

  lemma {:induction false} MixFirstAt(s: Block, n: nat, c: nat)
    requires c < n <= 4
    ensures MixFirst(s, n)[4 * c..4 * c + 4] == MixColumn(s, c)
    decreases n
  {
    hide MixColumn;
    if c < n - 1 {
      MixFirstAt(s, n - 1, c);
      assert MixFirst(s, n)[4 * c..4 * c + 4] == MixFirst(s, n - 1)[4 * c..4 * c + 4];
    } else {
      assert MixFirst(s, n)[4 * c..4 * c + 4] == MixColumn(s, c);
    }
  }

  lemma UnmixesColumn(s: Block, c: nat)
    requires c < 4
    ensures InvMixColumn(MixColumn(s, c)) == s[4 * c..4 * c + 4]
  {
    hide MixByte, InvMixByte;
    var a0, a1, a2, a3 := s[4 * c], s[4 * c + 1], s[4 * c + 2], s[4 * c + 3];
    UnmixesByte(a0, a1, a2, a3);
    UnmixesByte(a1, a2, a3, a0);
    UnmixesByte(a2, a3, a0, a1);
    UnmixesByte(a3, a0, a1, a2);
  }

  lemma Unmixes(s: Block)
    ensures InvMixColumns(MixColumns(s)) == s
  {
    hide MixColumn, InvMixColumn, MixFirst;
    MixFirstAt(s, 4, 0);
    MixFirstAt(s, 4, 1);
    MixFirstAt(s, 4, 2);
    MixFirstAt(s, 4, 3);
    UnmixesColumn(s, 0);
    UnmixesColumn(s, 1);
    UnmixesColumn(s, 2);
    UnmixesColumn(s, 3);
    assert s == s[0..4] + s[4..8] + s[8..12] + s[12..16];
  }

  lemma KeyFirstEmpty(s: Block, w: Schedule, round: nat)
    requires round <= ROUNDS
    ensures KeyFirst(s, w, round, 0) + s[0..] == s
  {}

  lemma KeyFirstStep(s: Block, w: Schedule, round: nat, n: nat)
    requires round <= ROUNDS && 0 < n <= 4
    ensures KeyFirst(s, w, round, n) == KeyFirst(s, w, round, n - 1) + KeyColumn(s, w[4 * round + n - 1], n - 1)
  {}

  /** Every byte is masked with its byte of the round key. */
  lemma {:induction false} KeyFirstAt(s: Block, w: Schedule, round: nat, n: nat, i: nat)
    requires round <= ROUNDS && n <= 4 && i < 4 * n
    ensures KeyFirst(s, w, round, n)[i] == Xor(s[i], WordByte(w[4 * round + i / 4], i % 4))
    decreases n
  {
    hide WordByte, Xor, KeyFirst;
    KeyFirstStep(s, w, round, n);
    if i < 4 * (n - 1) {
      KeyFirstAt(s, w, round, n - 1, i);
    } else {
      var r := i - 4 * (n - 1);
      assert i / 4 == n - 1 && i % 4 == r;
      assert r == 0 || r == 1 || r == 2 || r == 3;
    }
  }

  lemma XorTwice(a: bv8, k: bv8)
    ensures Xor(Xor(a, k), k) == a
  {}

  lemma AddRoundKeyTwice(s: Block, w: Schedule, round: nat)
    requires round <= ROUNDS
    ensures AddRoundKey(AddRoundKey(s, w, round), w, round) == s
  {
    hide KeyFirst, WordByte, Xor;
    var t := AddRoundKey(s, w, round);
    forall i | 0 <= i < 16
      ensures AddRoundKey(t, w, round)[i] == s[i]
    {
      KeyFirstAt(s, w, round, 4, i);
      KeyFirstAt(t, w, round, 4, i);
      XorTwice(s[i], WordByte(w[4 * round + i / 4], i % 4));
    }
  }

  lemma {:induction false} UndoesRounds(s: Block, w: Schedule, round: nat)
    requires round < ROUNDS
    ensures InvRounds(ShiftRows(SubBytes(Rounds(s, w, round))), w, round) == s
    decreases round
  {
    hide SubBytes, ShiftRows, MixColumns, AddRoundKey, InvSubBytes, InvShiftRows, InvMixColumns;
    UnshiftsAndUnsubs(Rounds(s, w, round));
    if round == 0 {
      AddRoundKeyTwice(s, w, 0);
    } else {
      var t := ShiftRows(SubBytes(Rounds(s, w, round - 1)));
      AddRoundKeyTwice(MixColumns(t), w, round);
      Unmixes(t);
      UndoesRounds(s, w, round - 1);
    }
  }

  /** The inverse cipher of the standard undoes the cipher, for every key schedule and block. */
  lemma InvCipherUndoes(w: Schedule, s: Block)
    ensures InvCipher(w, Cipher(w, s)) == s
  {
    hide SubBytes, ShiftRows, AddRoundKey, Rounds, InvRounds;
    var t := ShiftRows(SubBytes(Rounds(s, w, ROUNDS - 1)));
    AddRoundKeyTwice(t, w, ROUNDS);
    UndoesRounds(s, w, ROUNDS - 1);
  }

  /** For every key, distinct blocks encrypt to distinct blocks. */
  lemma CipherInjective(w: Schedule, s: Block, t: Block)
    ensures Cipher(w, s) == Cipher(w, t) ==> s == t
  {
    hide Cipher, InvCipher;
    InvCipherUndoes(w, s);
    InvCipherUndoes(w, t);
  }

  // ----- A round, column by column -----

  function Word(b0: bv8, b1: bv8, b2: bv8, b3: bv8): bv32
  {
    ((b0 as bv32) << 24) | ((b1 as bv32) << 16) | ((b2 as bv32) << 8) | (b3 as bv32)
  }

  function XorWord(a: bv32, b: bv32): bv32
  {
    a ^ b
  }

  /** Column `c` of the state as a word. */
  function ColumnWord(s: Block, c: nat): bv32
    requires c < 4
  {
    Word(s[4 * c], s[4 * c + 1], s[4 * c + 2], s[4 * c + 3])
  }

  function MixedWord(a0: bv8, a1: bv8, a2: bv8, a3: bv8): bv32
  {
    Word(MixByte(a0, a1, a2, a3), MixByte(a1, a2, a3, a0), MixByte(a2, a3, a0, a1), MixByte(a3, a0, a1, a2))
  }

  /** One column of a round from the four columns it draws on and its word of the round key. */
  function RoundWord(x0: bv32, x1: bv32, x2: bv32, x3: bv32, rk: bv32): bv32
  {
    XorWord(MixedWord(Sbox(WordByte(x0, 0)), Sbox(WordByte(x1, 1)), Sbox(WordByte(x2, 2)), Sbox(WordByte(x3, 3))), rk)
  }

  function LastWord(x0: bv32, x1: bv32, x2: bv32, x3: bv32, rk: bv32): bv32
  {
    XorWord(Word(Sbox(WordByte(x0, 0)), Sbox(WordByte(x1, 1)), Sbox(WordByte(x2, 2)), Sbox(WordByte(x3, 3))), rk)
  }

  lemma BytesOfWord(b0: bv8, b1: bv8, b2: bv8, b3: bv8)
    ensures var w := Word(b0, b1, b2, b3);
      WordByte(w, 0) == b0 && WordByte(w, 1) == b1 && WordByte(w, 2) == b2 && WordByte(w, 3) == b3
  {}

  lemma MaskedWord(b0: bv8, b1: bv8, b2: bv8, b3: bv8, rk: bv32)
    ensures Word(Xor(b0, WordByte(rk, 0)), Xor(b1, WordByte(rk, 1)), Xor(b2, WordByte(rk, 2)), Xor(b3, WordByte(rk, 3)))
         == XorWord(Word(b0, b1, b2, b3), rk)
  {}

  lemma KeyedColumn(s: Block, w: Schedule, round: nat, c: nat)
    requires round <= ROUNDS && c < 4
    ensures ColumnWord(AddRoundKey(s, w, round), c) == XorWord(ColumnWord(s, c), w[4 * round + c])
  {
    hide KeyFirst, WordByte, Xor, XorWord, Word;
    KeyFirstAt(s, w, round, 4, 4 * c);
    KeyFirstAt(s, w, round, 4, 4 * c + 1);
    KeyFirstAt(s, w, round, 4, 4 * c + 2);
    KeyFirstAt(s, w, round, 4, 4 * c + 3);
    MaskedWord(s[4 * c], s[4 * c + 1], s[4 * c + 2], s[4 * c + 3], w[4 * round + c]);
  }

  lemma ColumnByte(s: Block, c: nat, r: nat)
    requires c < 4 && r < 4
    ensures WordByte(ColumnWord(s, c), r) == s[4 * c + r]
  {
    hide WordByte, Word;
    BytesOfWord(s[4 * c], s[4 * c + 1], s[4 * c + 2], s[4 * c + 3]);
    assert r == 0 || r == 1 || r == 2 || r == 3;
  }

  /** Row r of column c comes from column c + r, substituted. */
  lemma ShiftedByte(s: Block, c: nat, r: nat)
    requires c < 4 && r < 4
    ensures ShiftRows(SubBytes(s))[4 * c + r] == Sbox(WordByte(ColumnWord(s, (c + r) % 4), r))
  {
    hide Sbox, WordByte, ColumnWord, ShiftSource;
    ShiftSourceAt(c, r);
    ColumnByte(s, (c + r) % 4, r);
  }

  lemma MixedBytes(t: Block, c: nat)
    requires c < 4
    ensures ColumnWord(MixColumns(t), c) == MixedWord(t[4 * c], t[4 * c + 1], t[4 * c + 2], t[4 * c + 3])
  {
    hide Word, MixByte, MixFirst, MixColumn;
    MixFirstAt(t, 4, c);
    MixColumnIs(t, c);
    var s, m := MixColumns(t), MixColumn(t, c);
    assert s[4 * c] == s[4 * c..4 * c + 4][0] && s[4 * c + 1] == s[4 * c..4 * c + 4][1];
    assert s[4 * c + 2] == s[4 * c..4 * c + 4][2] && s[4 * c + 3] == s[4 * c..4 * c + 4][3];
  }

  /** A full round in one formula: column c is mixed from the substituted diagonal that starts there, and masked. */
  lemma RoundColumns(s: Block, w: Schedule, round: nat, c: nat)
    requires round <= ROUNDS && c < 4
    ensures ColumnWord(Round(s, w, round), c) ==
            RoundWord(ColumnWord(s, c), ColumnWord(s, (c + 1) % 4), ColumnWord(s, (c + 2) % 4),
                      ColumnWord(s, (c + 3) % 4), w[4 * round + c])
  {
    hide Sbox, WordByte, ColumnWord, XorWord, MixedWord, MixColumns, AddRoundKey, ShiftRows, SubBytes;
    var t := ShiftRows(SubBytes(s));
    KeyedColumn(MixColumns(t), w, round, c);
    MixedBytes(t, c);
    ShiftedByte(s, c, 0);
    ShiftedByte(s, c, 1);
    ShiftedByte(s, c, 2);
    ShiftedByte(s, c, 3);
  }

  lemma ColumnIs(s: Block, c: nat)
    requires c < 4
    ensures ColumnWord(s, c) == Word(s[4 * c], s[4 * c + 1], s[4 * c + 2], s[4 * c + 3])
  {}

  lemma LastColumns(s: Block, w: Schedule, c: nat)
    requires c < 4
    ensures ColumnWord(AddRoundKey(ShiftRows(SubBytes(s)), w, ROUNDS), c) ==
            LastWord(ColumnWord(s, c), ColumnWord(s, (c + 1) % 4), ColumnWord(s, (c + 2) % 4),
                     ColumnWord(s, (c + 3) % 4), w[4 * ROUNDS + c])
  {
    hide Sbox, WordByte, Word, XorWord, AddRoundKey, ShiftRows, SubBytes;
    ColumnIs(ShiftRows(SubBytes(s)), c);
    hide ColumnWord;
    KeyedColumn(ShiftRows(SubBytes(s)), w, ROUNDS, c);
    ShiftedByte(s, c, 0);
    ShiftedByte(s, c, 1);
    ShiftedByte(s, c, 2);
    ShiftedByte(s, c, 3);
  }

  // ----- The key schedule (section 5.2 of FIPS 197, Nk = 8) -----

  function SubWord(w: bv32): bv32
  {
    Word(Sbox(WordByte(w, 0)), Sbox(WordByte(w, 1)), Sbox(WordByte(w, 2)), Sbox(WordByte(w, 3)))
  }

  function RotWord(w: bv32): bv32
  {
    Word(WordByte(w, 1), WordByte(w, 2), WordByte(w, 3), WordByte(w, 0))
  }

  const RCON: seq<bv8> := [0x00, 0x01, 0x02, 0x04, 0x08, 0x10, 0x20, 0x40, 0x80, 0x1b, 0x36, 0x6c, 0xd8, 0xab, 0x4d]

  /** The round constants are the powers of {02}. */
  lemma RconIsPowerOfTwo(i: nat)
    requires 1 <= i < 14
    ensures RCON[1] == 1 && RCON[i + 1] == XTime(RCON[i])
  {}

  function ScheduleWord(key: Key, i: nat): bv32
    decreases i
  {
    if i < 8 then Word(key[4 * i], key[4 * i + 1], key[4 * i + 2], key[4 * i + 3])
    else XorWord(ScheduleWord(key, i - 8), ScheduleMix(ScheduleWord(key, i - 1), i))
  }

  lemma ScheduleStart(key: Key, i: nat)
    requires i < 8
    ensures ScheduleWord(key, i) == Word(key[4 * i], key[4 * i + 1], key[4 * i + 2], key[4 * i + 3])
  {}

  lemma ScheduleStep(key: Key, i: nat)
    requires i >= 8
    ensures ScheduleWord(key, i) == XorWord(ScheduleWord(key, i - 8), ScheduleMix(ScheduleWord(key, i - 1), i))
  {}

  function ScheduleMix(previous: bv32, i: nat): bv32
  {
    if i % 8 == 0 && i / 8 < |RCON| then SubWord(RotWord(previous)) ^ ((RCON[i / 8] as bv32) << 24)
    else if i % 8 == 4 then SubWord(previous)
    else previous
  }

  function KeySchedule(key: Key): Schedule
  {
    seq(60, i requires 0 <= i < 60 => ScheduleWord(key, i))
  }

  lemma RotateWord(w: bv32)
    ensures (w << 8) | (w >> 24) == RotWord(w)
  {}

  // ----- The code -----

  method Gmul(x: bv8, y: bv8) returns (p: bv8)
    ensures p == GMul(x, y)
  {
    p := 0;
    var a, b := x, y;
    for i := 0 to 8
      invariant Xor(p, GMulLow(a, b, 8 - i)) == GMul(x, y)
    {
      XorSkips(p, a, GMulLow(XTime(a), b >> 1, 7 - i));
      if b & 1 != 0 {
        p := p ^ a;
      }
      a := XTime(a);
      b := b >> 1;
    }
    XorSkips(p, 0, 0);
  }

  method SubBytesInPlace(s: array<bv8>)
    requires s.Length == 16
    modifies s
    ensures s[..] == SubBytes(old(s[..]))
  {
    for i := 0 to 16
      invariant forall k :: 0 <= k < i ==> s[k] == Sbox(old(s[k]))
      invariant forall k :: i <= k < 16 ==> s[k] == old(s[k])
    {
      s[i] := Sbox(s[i]);
    }
  }

  /** The assignments the nested loops have made when they reach row `r`, column `c`. */
  ghost predicate Shifted(k: nat, r: nat, c: nat)
  {
    k % 4 < r || (k % 4 == r && k / 4 < c)
  }

  lemma ShiftedSteps(k: nat, r: nat, c: nat)
    requires k < 16 && r < 4 && c < 4
    ensures Shifted(k, r, c + 1) <==> Shifted(k, r, c) || k == 4 * c + r
    ensures Shifted(k, r, 4) <==> Shifted(k, r + 1, 0)
    ensures Shifted(k, 4, 0)
    ensures !Shifted(k, 0, 0)
  {}

  method ShiftRowsInPlace(s: array<bv8>)
    requires s.Length == 16
    modifies s
    ensures s[..] == ShiftRows(old(s[..]))
  {
    hide ShiftSource, Shifted;
    var t := s[..];
    forall k: nat | k < 16
      ensures !Shifted(k, 0, 0)
    {
      ShiftedSteps(k, 0, 0);
    }
    for r := 0 to 4
      invariant forall k: nat :: k < 16 && Shifted(k, r, 0) ==> s[k] == t[ShiftSource(k)]
    {
      for c := 0 to 4
        invariant forall k: nat :: k < 16 && Shifted(k, r, c) ==> s[k] == t[ShiftSource(k)]
      {
        ShiftSourceAt(c, r);
        forall k: nat | k < 16
          ensures Shifted(k, r, c + 1) ==> Shifted(k, r, c) || k == 4 * c + r
        {
          ShiftedSteps(k, r, c);
        }
        s[4 * c + r] := t[4 * ((c + r) % 4) + r];
      }
      forall k: nat | k < 16
        ensures Shifted(k, r + 1, 0) ==> Shifted(k, r, 4)
      {
        ShiftedSteps(k, r, 0);
      }
    }
    forall k: nat | k < 16
      ensures s[k] == t[ShiftSource(k)]
    {
      ShiftedSteps(k, 0, 0);
    }
  }

  method MixColumnsInPlace(s: array<bv8>)
    requires s.Length == 16
    modifies s
    ensures s[..] == MixColumns(old(s[..]))
  {
    hide MixFirst, MixColumn, MixByte;
    ghost var t := s[..];
    MixFirstStep(t, 0);
    assert s[..] == [] + t[0..];
    for c := 0 to 4
      invariant s[..] == MixFirst(t, c) + t[4 * c..]
    {
      ColumnOf(s, t, MixFirst(t, c), c);
      var m0, m1, m2, m3 := MixedColumn(s[4 * c], s[4 * c + 1], s[4 * c + 2], s[4 * c + 3]);
      SetColumn(s, c, m0, m1, m2, m3);
      MixFirstStep(t, c);
      MixColumnIs(t, c);
      Splice(MixFirst(t, c), t, c, [m0, m1, m2, m3]);
    }
  }

  lemma MixFirstStep(s: Block, c: nat)
    requires c < 4
    ensures MixFirst(s, 0) == []
    ensures MixFirst(s, c + 1) == MixFirst(s, c) + MixColumn(s, c)
  {}

  lemma MixColumnIs(s: Block, c: nat)
    requires c < 4
    ensures MixColumn(s, c)
         == [MixByte(s[4 * c], s[4 * c + 1], s[4 * c + 2], s[4 * c + 3]),
             MixByte(s[4 * c + 1], s[4 * c + 2], s[4 * c + 3], s[4 * c]),
             MixByte(s[4 * c + 2], s[4 * c + 3], s[4 * c], s[4 * c + 1]),
             MixByte(s[4 * c + 3], s[4 * c], s[4 * c + 1], s[4 * c + 2])]
  {}

  lemma ColumnOf(s: array<bv8>, t: Block, done: seq<bv8>, c: nat)
    requires s.Length == 16 && c < 4 && |done| == 4 * c && s[..] == done + t[4 * c..]
    ensures s[4 * c] == t[4 * c] && s[4 * c + 1] == t[4 * c + 1]
    ensures s[4 * c + 2] == t[4 * c + 2] && s[4 * c + 3] == t[4 * c + 3]
  {}

  lemma Splice(done: seq<bv8>, t: Block, c: nat, column: seq<bv8>)
    requires c < 4 && |done| == 4 * c && |column| == 4
    ensures (done + t[4 * c..])[..4 * c] + column + (done + t[4 * c..])[4 * c + 4..]
         == (done + column) + t[4 * (c + 1)..]
  {}

  /** Replaces column `c`. */
  method SetColumn(s: array<bv8>, c: nat, m0: bv8, m1: bv8, m2: bv8, m3: bv8)
    requires s.Length == 16 && c < 4
    modifies s
    ensures s[..] == old(s[..])[..4 * c] + [m0, m1, m2, m3] + old(s[..])[4 * c + 4..]
  {
    s[4 * c], s[4 * c + 1], s[4 * c + 2], s[4 * c + 3] := m0, m1, m2, m3;
  }

  method MixedColumn(a0: bv8, a1: bv8, a2: bv8, a3: bv8) returns (m0: bv8, m1: bv8, m2: bv8, m3: bv8)
    ensures m0 == MixByte(a0, a1, a2, a3) && m1 == MixByte(a1, a2, a3, a0)
    ensures m2 == MixByte(a2, a3, a0, a1) && m3 == MixByte(a3, a0, a1, a2)
  {
    hide XTime, GMul, MixByte;
    var p02, p03 := TwoAndThree(a0);
    var p12, p13 := TwoAndThree(a1);
    var p22, p23 := TwoAndThree(a2);
    var p32, p33 := TwoAndThree(a3);
    MixByteOrders(a0, a1, a2, a3, p02, p12, p13);
    MixByteOrders(a1, a2, a3, a0, p12, p22, p23);
    MixByteOrders(a2, a3, a0, a1, p22, p32, p33);
    MixByteOrders(a3, a0, a1, a2, p32, p02, p03);
    m0 := p02 ^ p13 ^ a2 ^ a3;
    m1 := a0 ^ p12 ^ p23 ^ a3;
    m2 := a0 ^ a1 ^ p22 ^ p33;
    m3 := p03 ^ a1 ^ a2 ^ p32;
  }

  method TwoAndThree(a: bv8) returns (two: bv8, three: bv8)
    ensures two == XTime(a) && three == two ^ a
  {
    hide XTime, GMul;
    two := Gmul(a, 2);
    three := Gmul(a, 3);
    GMulByTwoAndThree(a);
  }

  method AddRoundKeyInPlace(s: array<bv8>, w: Schedule, round: nat)
    requires s.Length == 16 && round <= ROUNDS
    modifies s
    ensures s[..] == AddRoundKey(old(s[..]), w, round)
  {
    hide WordByte, Xor, KeyFirst;
    ghost var t := s[..];
    KeyFirstEmpty(t, w, round);
    for c := 0 to 4
      invariant s[..] == KeyFirst(t, w, round, c) + t[4 * c..]
    {
      KeyFirstStep(t, w, round, c + 1);
      var rk := w[4 * round + c];
      ColumnOf(s, t, KeyFirst(t, w, round, c), c);
      SetColumn(s, c, Xor(s[4 * c], WordByte(rk, 0)), Xor(s[4 * c + 1], WordByte(rk, 1)),
                Xor(s[4 * c + 2], WordByte(rk, 2)), Xor(s[4 * c + 3], WordByte(rk, 3)));
      Splice(KeyFirst(t, w, round, c), t, c, KeyColumn(t, rk, c));
    }
  }

  method NextTemp(previous: bv32, i: nat) returns (temp: bv32)
    requires 8 <= i < 60
    ensures temp == ScheduleMix(previous, i)
  {
    hide SubWord, RotWord;
    temp := previous;
    if i % 8 == 0 {
      RotateWord(temp);
      temp := (temp << 8) | (temp >> 24);
      temp := SubWord(temp);
      temp := temp ^ ((RCON[i / 8] as bv32) << 24);
    } else if i % 8 == 4 {
      temp := SubWord(temp);
    }
  }

  class Aes256 {
    const roundKeys: Schedule

    constructor (key: Key)
      ensures roundKeys == KeySchedule(key)
    {
      hide ScheduleMix, Word, XorWord, ScheduleWord;
      var w := new bv32[60];
      for i := 0 to 8
        invariant forall k :: 0 <= k < i ==> w[k] == ScheduleWord(key, k)
      {
        ScheduleStart(key, i);
        w[i] := Word(key[4 * i], key[4 * i + 1], key[4 * i + 2], key[4 * i + 3]);
      }
      for i := 8 to 60
        invariant forall k :: 0 <= k < i ==> w[k] == ScheduleWord(key, k)
      {
        ScheduleStep(key, i);
        var temp := NextTemp(w[i - 1], i);
        w[i] := XorWord(w[i - 8], temp);
      }
      roundKeys := w[..];
    }

    /** Encrypts one block into `out`. */
    method EncryptBlock(input: Block, out: array<bv8>)
      requires out.Length == 16
      modifies out
      ensures out[..] == Cipher(roundKeys, input)
    {
      hide SubBytes, ShiftRows, MixColumns, AddRoundKey;
      for i := 0 to 16
        invariant out[..i] == input[..i]
      {
        out[i] := input[i];
      }
      assert out[..] == input;
      AddRoundKeyInPlace(out, roundKeys, 0);
      for round := 1 to ROUNDS
        invariant out[..] == Rounds(input, roundKeys, round - 1)
      {
        SubBytesInPlace(out);
        ShiftRowsInPlace(out);
        MixColumnsInPlace(out);
        AddRoundKeyInPlace(out, roundKeys, round);
      }
      SubBytesInPlace(out);
      ShiftRowsInPlace(out);
      AddRoundKeyInPlace(out, roundKeys, ROUNDS);
    }
  }
}
