/** Little-endian integers, the layout of every field on ReLink's wires. */
module Wire {

  type byte = x: int | 0 <= x < 256
  type u16 = x: int | 0 <= x < 0x1_0000
  type u32 = x: int | 0 <= x < 0x1_0000_0000
  type u64 = x: int | 0 <= x < 0x1_0000_0000_0000_0000

  type Bytes = seq<byte>

  /** The largest UDP payload over IPv4. */
  const MAX_DATAGRAM := 65507

  function Le16(n: u16): (s: Bytes)
    ensures |s| == 2
  {
    [n % 256, n / 256]
  }

  function Le32(n: u32): (s: Bytes)
    ensures |s| == 4
  {
    Le16(n % 0x1_0000) + Le16(n / 0x1_0000)
  }

  function Le64(n: u64): (s: Bytes)
    ensures |s| == 8
  {
    Le32(n % 0x1_0000_0000) + Le32(n / 0x1_0000_0000)
  }

  function U16At(s: Bytes, at: nat): u16
    requires at + 2 <= |s|
  {
    s[at] as int + 256 * (s[at + 1] as int)
  }

  function U32At(s: Bytes, at: nat): u32
    requires at + 4 <= |s|
  {
    U16At(s, at) + 0x1_0000 * U16At(s, at + 2)
  }

  function U64At(s: Bytes, at: nat): u64
    requires at + 8 <= |s|
  {
    U32At(s, at) + 0x1_0000_0000 * U32At(s, at + 4)
  }

  /** Least significant byte first. */
  lemma LittleEndian(a: u16, b: u32)
    ensures var s := Le16(a); a == s[0] as int + 0x100 * (s[1] as int)
    ensures var s := Le32(b);
      b == s[0] as int + 0x100 * (s[1] as int) + 0x1_0000 * (s[2] as int) + 0x100_0000 * (s[3] as int)
  {}

  /** Reading back a written integer gives it back, wherever in the buffer it stands. */
  lemma ReadLe16(pre: Bytes, n: u16, post: Bytes)
    ensures U16At(pre + Le16(n) + post, |pre|) == n
  {}

  lemma ReadLe32(pre: Bytes, n: u32, post: Bytes)
    ensures U32At(pre + Le32(n) + post, |pre|) == n
  {}

  /** Writing back what was read gives the bytes that were read. */
  lemma WriteU16(s: Bytes, at: nat)
    requires at + 2 <= |s|
    ensures Le16(U16At(s, at)) == s[at..at + 2]
  {}

  lemma WriteU32(s: Bytes, at: nat)
    requires at + 4 <= |s|
    ensures Le32(U32At(s, at)) == s[at..at + 4]
  {
    hide U16At, Le16;
    WriteU16(s, at);
    WriteU16(s, at + 2);
    SplitWord(U16At(s, at), U16At(s, at + 2));
    assert s[at..at + 4] == s[at..at + 2] + s[at + 2..at + 4];
  }

  lemma SplitWord(low: u16, high: u16)
    ensures (low + 0x1_0000 * high) % 0x1_0000 == low && (low + 0x1_0000 * high) / 0x1_0000 == high
  {}

  /** Appends `s` to the `off` bytes already written to a buffer. */
  method CopyInto(out: array<byte>, off: nat, s: Bytes)
    requires off + |s| <= out.Length
    modifies out
    ensures out[..off + |s|] == old(out[..off]) + s
  {
    forall i | 0 <= i < |s| {
      out[off + i] := s[i];
    }
  }
}
