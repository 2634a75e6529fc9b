/** The match dictionary of the LZO1X-1 compressor: its hashes, and the check of what it holds. */
module LzoDictionary {
  import opened Bytes
  import opened LzoFormat

  const DICT_SIZE := 0x4000

  /** A pointer. The dictionary holds pointers into whatever buffer was compressed last. */
  type address = x: int | 0 <= x < WORD

  // ------------------------------------------------------------ hashes

  /** D_INDEX1 on words. */
  function Hash(b0: bv32, b1: bv32, b2: bv32, b3: bv32): (h: bv32)
    ensures h < 0x4000
  {
    var v := (((((b3 << 6) ^ b2) << 5) ^ b1) << 5) ^ b0;
    ((0x21 * v) >> 5) & 0x3fff
  }

  function Index1(b0: byte, b1: byte, b2: byte, b3: byte): (d: nat)
    ensures d < DICT_SIZE
  {
    Hash(b0 as bv32, b1 as bv32, b2 as bv32, b3 as bv32) as nat
  }

  /** D_INDEX2 on words. */
  function Second(d: bv14): bv14 { (d & 0x7ff) ^ 0x201f }

  /** The second probe. */
  function Index2(d: nat): (r: nat)
    requires d < DICT_SIZE
    ensures r < DICT_SIZE
  {
    Second(d as bv14) as nat
  }

  /** The second probe looks elsewhere, in the upper half of the dictionary. */
  lemma {:induction false} SecondElsewhere(d: bv14)
    ensures Second(d) != d && Second(d) >= 0x2000
  {
  }

  /** The hash keeps exactly the three low bits of the fourth byte: positions that agree in three bytes meet in one
      entry if and only if they agree in those. */
  lemma {:induction false} HashMeets(b0: byte, b1: byte, b2: byte, x: byte, y: byte)
    ensures Index1(b0, b1, b2, x) == Index1(b0, b1, b2, y) <==> x as bv32 & 7 == y as bv32 & 7
  {
    hide Hash;
    WordOf(b0);
    WordOf(b1);
    WordOf(b2);
    WordOf(x);
    WordOf(y);
    WordsMeet(b0 as bv32, b1 as bv32, b2 as bv32, x as bv32, y as bv32);
    var g, h := Hash(b0 as bv32, b1 as bv32, b2 as bv32, x as bv32), Hash(b0 as bv32, b1 as bv32, b2 as bv32, y as bv32);
    if g as nat == h as nat { IndexGivesHash(g, h); }
  }

  lemma {:induction false} WordsMeet(b0: bv32, b1: bv32, b2: bv32, x: bv32, y: bv32)
    requires b0 < 256 && b1 < 256 && b2 < 256 && x < 256 && y < 256
    ensures Hash(b0, b1, b2, x) == Hash(b0, b1, b2, y) <==> x & 7 == y & 7
  {
  }

  lemma {:induction false} WordOf(b: byte)
    ensures (b as bv32) < 256
    ensures b % 4 == 0 ==> (b as bv32) & 3 == 0
    ensures b < 64 ==> (b as bv32) < 64
    ensures 128 <= b < 192 ==> 128 <= (b as bv32) < 192
  {
  }

  /** The low five bits of the hash depend on two bytes only. */
  lemma {:induction false} LowBits(b0: bv32, b1: bv32, b2: bv32, b3: bv32)
    ensures Hash(b0, b1, b2, b3) & 31 == Hash(b0, b1, 0, 0) & 31
  {
  }

  lemma {:induction false} IndexGivesHash(g: bv32, h: bv32)
    requires g as nat == h as nat
    ensures g == h
  {
    assert (g as nat) as bv32 == g;
    assert (h as nat) as bv32 == h;
  }

  /** Positions whose first two bytes hash apart from 1 2 do not meet 1 2 3. */
  lemma {:induction false} Apart(b0: byte, b1: byte, b2: byte, b3: byte)
    requires Hash(b0 as bv32, b1 as bv32, 0, 0) & 31 != Hash(1, 2, 0, 0) & 31
    ensures Index1(b0, b1, b2, b3) != Index1(1, 2, 3, 0)
  {
    hide Hash;
    var g := Hash(b0 as bv32, b1 as bv32, b2 as bv32, b3 as bv32);
    LowBits(b0 as bv32, b1 as bv32, b2 as bv32, b3 as bv32);
    LowBits(1, 2, 3, 0);
    assert (1 as byte) as bv32 == 1 && (2 as byte) as bv32 == 2 && (3 as byte) as bv32 == 3 && (0 as byte) as bv32 == 0;
    if g as nat == Hash(1, 2, 3, 0) as nat { IndexGivesHash(g, Hash(1, 2, 3, 0)); }
  }

  /** Bytes with zero low bits below 64, or between 128 and 192. */
  predicate IsFiller(b: byte) { b % 4 == 0 && (b < 64 || 128 <= b < 192) }

  lemma {:induction false} FillersApart(b0: byte, b1: byte, b2: byte, b3: byte)
    requires (IsFiller(b0) && (IsFiller(b1) || b1 == 1)) || (b0 == 2 && b1 == 3) || (b0 == 3 && b1 == 8)
    ensures Index1(b0, b1, b2, b3) != Index1(1, 2, 3, 0)
  {
    hide Hash, Index1;
    WordOf(b0);
    WordOf(b1);
    var w0, w1 := b0 as bv32, b1 as bv32;
    assert b1 == 1 ==> w1 == 1;
    assert b1 == 3 ==> w1 == 3;
    assert b1 == 8 ==> w1 == 8;
    assert b0 == 2 ==> w0 == 2;
    assert b0 == 3 ==> w0 == 3;
    WordsApart(w0, w1);
    Apart(b0, b1, b2, b3);
  }

  lemma {:induction false} WordsApart(b0: bv32, b1: bv32)
    requires b0 < 256 && b1 < 256
    requires (b0 & 3 == 0 && b0 & 64 == 0 && (b1 & 3 == 0 || b1 == 1)) || (b0 == 2 && b1 == 3) || (b0 == 3 && b1 == 8)
    ensures Hash(b0, b1, 0, 0) & 31 != Hash(1, 2, 0, 0) & 31
  {
  }

  // ------------------------------------------------------------ the check of an entry

  /** LZO_CHECK_MPOS_NON_DET: the offset a dictionary entry stands for, or 0 if the entry is not
      a usable position of this input. The subtraction is on unsigned words. */
  function CheckedOffset(base: address, ip: nat, entry: address): (off: nat)
    requires base + ip < WORD
    ensures off > 0 && M4_MAX_OFFSET <= base + ip ==> off <= ip && off <= M4_MAX_OFFSET && entry == base + ip - off
  {
    var off := (base + ip - entry) % WORD;
    if entry < base || off <= 0 || off > M4_MAX_OFFSET then 0 else off
  }

  /** Every entry accepted is a position of the input exactly if the address looked at is not among the
      lowest 0xbfff: there an entry at the top of memory is taken for one a little below. */
  lemma {:induction false} CheckedOffsetExact(base: address, ip: nat)
    requires base + ip < WORD
    ensures (forall entry: address :: CheckedOffset(base, ip, entry) <= ip) <==> M4_MAX_OFFSET <= base + ip
  {
    if base + ip < M4_MAX_OFFSET {
      var off := base + ip + 1;
      assert (base + ip - (WORD - 1)) % WORD == off by { assert base + ip - (WORD - 1) == -WORD + off; }
      assert CheckedOffset(base, ip, WORD - 1) == off;
    }
  }

  ghost predicate SamePrefix(data: seq<byte>, ip: nat, off: nat, len: nat)
    requires off <= ip && ip + len <= |data|
  {
    forall k :: ip <= k < ip + len ==> data[k] == data[k - off]
  }
}
