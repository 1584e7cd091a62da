/** The partition hash: 32-bit FNV-1a (Fowler-Noll-Vo, as described in the IETF
    Internet-Draft draft-eastlake-fnv), masked to 31 bits. */
module Fnv {
  import opened Records

  /** The 32-bit FNV offset basis and FNV prime. */
  const OffsetBasis32: bv32 := 0x811c_9dc5
  const Prime32: bv32 := 0x0100_0193

  /** The FNV prime is the sum of six powers of two. */
  lemma PrimeShifts()
    ensures Prime32 == (1 << 24) + (1 << 8) + (1 << 7) + (1 << 4) + (1 << 1) + 1
  {
  }

  /** One FNV-1a round: xor the octet into the low bits, then multiply by Prime32
      modulo 2^32, written as the sum of shifted copies given by PrimeShifts (bv32
      addition wraps around), the shift-and-add form of the FNV reference code.
      Sum32TestVectors pins the result to published sums. */
  function Round(h: bv32, b: Byte): bv32 {
    var x := h ^ (b as bv32);
    (x << 24) + (x << 8) + (x << 7) + (x << 4) + (x << 1) + x
  }

  /** The running hash after writing `s` into a hash whose state is `h`, one octet at a time. */
  function Absorb(h: bv32, s: Text): bv32
    decreases |s|
  {
    if s == [] then h else Absorb(Round(h, s[0]), s[1..])
  }

  /** `New32a()`, `Write(s)`, `Sum32()`. */
  function Sum32(s: Text): bv32 {
    Absorb(OffsetBasis32, s)
  }

  /** `int(x & 0x7fffffff)`: the low 31 bits of a 32-bit sum, as a non-negative int. */
  function Mask31(x: bv32): (h: int)
    ensures 0 <= h < 0x8000_0000
  {
    ((x & 0x7fff_ffff) as bv31) as int
  }

  /** ihash: the FNV-1a sum with its top bit cleared. */
  function IHash(s: Text): (h: int)
    ensures 0 <= h < 0x8000_0000
  {
    Mask31(Sum32(s))
  }

  /** Writing a key in two pieces gives the same state as writing it at once, so the
      sum depends only on the key's bytes, not on how they were handed to Write. */
  lemma {:induction false} AbsorbConcat(h: bv32, a: Text, b: Text)
    ensures Absorb(h, a + b) == Absorb(Absorb(h, a), b)
    decreases |a|
  {
    if a != [] {
      assert (a + b)[0] == a[0];
      assert (a + b)[1..] == a[1..] + b;
      AbsorbConcat(Round(h, a[0]), a[1..], b);
    } else {
      assert a + b == b;
    }
  }

  /** Appending one octet to the key performs one more FNV-1a round on its sum. */
  lemma Sum32Snoc(s: Text, b: Byte)
    ensures Sum32(s + [b]) == Round(Sum32(s), b)
  {
    AbsorbConcat(OffsetBasis32, s, [b]);
  }

  /** Reference values of 32-bit FNV-1a: the empty string, "a" and "foobar". */
  lemma Sum32TestVectors()
    ensures Sum32([]) == 0x811c_9dc5
    ensures Sum32([0x61]) == 0xe40c_292c
    ensures Sum32([0x66, 0x6f, 0x6f, 0x62, 0x61, 0x72]) == 0xbf9c_f968
  {
  }
}
