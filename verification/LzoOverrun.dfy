/** Inputs on which the search itself arrives at an encoding larger than the record writer's buffer. */
module LzoOverrun {
  import opened Bytes
  import opened LzoFormat
  import opened LzoSize
  import opened LzoDictionary

  const TOTAL: nat := 283
  const BLOCKS: nat := 12

  // ------------------------------------------------------------ blocks of 1 2 3

  ghost predicate BlockAt(data: seq<byte>, p: nat, next: byte) {
    p + 4 <= |data| && data[p] == 1 && data[p + 1] == 2 && data[p + 2] == 3 && data[p + 3] == next
  }

  /** What follows the block: 8 and 0 in turn, so that no repetition is longer than three bytes. */
  function Mark(j: nat): byte { if j % 2 == 0 then 8 else 0 }

  /** Where the blocks are: at 4, then in the last three bytes of every 22. */
  function BlockPos(j: nat): nat { if j == 0 then 4 else 22 * j - 3 }

  ghost predicate Blocks(data: seq<byte>) {
    |data| == TOTAL && forall j :: 0 <= j <= BLOCKS ==> BlockAt(data, BlockPos(j), Mark(j))
  }

  lemma {:induction false} BlocksRepeat(data: seq<byte>)
    requires Blocks(data)
    ensures Repeats(data, 15, 22, BLOCKS)
  {
    forall j | 0 <= j < BLOCKS ensures RepeatsAt(data, 22 * j + 19, OffsetAt(15, 22, j)) {
      assert BlockAt(data, BlockPos(j), Mark(j));
      assert BlockAt(data, BlockPos(j + 1), Mark(j + 1));
    }
  }

  /** The encoding by these matches has 300 bytes, for a buffer of 299. */
  lemma {:induction false} BufferTooSmall(data: seq<byte>)
    requires Blocks(data)
    ensures var toks := ShortTokens(15, 22, BLOCKS);
      ValidParse(data, toks) && Covered(toks) <= |data| && |Compressed(data, toks)| == 300 && CodeBuffer(|data|) == 299
  {
    hide ValidParse, Compressed, Covered, Blocks;
    BlocksRepeat(data);
    assert |data| == TOTAL by { BlocksTotal(data); }
    ShortTokensStream(data, 15, 22, BLOCKS);
  }

  lemma {:induction false} BlocksTotal(data: seq<byte>)
    requires Blocks(data)
    ensures |data| == TOTAL
  {
  }

  // ------------------------------------------------------------ positions without a match

  function HashAt(data: seq<byte>, p: nat): (d: nat)
    requires p + 4 <= |data|
    ensures d < DICT_SIZE
  {
    Index1(data[p], data[p + 1], data[p + 2], data[p + 3])
  }

  /** The entry that all blocks share. */
  function BlockHash(): (d: nat)
    ensures d < DICT_SIZE
  {
    Index1(1, 2, 3, 0)
  }

  ghost predicate SameThree(data: seq<byte>, p: nat, q: nat)
    requires p + 3 <= |data| && q + 3 <= |data|
  {
    data[p] == data[q] && data[p + 1] == data[q + 1] && data[p + 2] == data[q + 2]
  }

  /** Three bytes met nowhere earlier, and, behind the first block, not hashed to the entry of the blocks. */
  ghost predicate Quiet(data: seq<byte>, p: nat)
    requires p + 4 <= |data|
  {
    && (forall q :: 0 <= q < p ==> !SameThree(data, q, p))
    && (p == 4 || HashAt(data, p) != BlockHash())
  }

  /** The search looks at the blocks and at quiet positions only. */
  ghost predicate Overrunning(data: seq<byte>) {
    && Blocks(data)
    && forall p :: 4 <= p < TOTAL - 13 && (p + 3) % 22 >= 3 ==> Quiet(data, p)
  }

  // ------------------------------------------------------------ the search on such an input

  /** The state of the search at `ip`, with `entry` in the dictionary for the blocks. */
  ghost predicate Tracked(data: seq<byte>, base: address, entry: int, ip: nat, toks: seq<Token>) {
    var m := |toks|;
    && m <= BLOCKS && toks == ShortTokens(15, 22, m)
    && 4 <= ip && 22 * m <= ip <= 22 * m + 19
    && (ip > 4 ==> entry == base + BlockPos(m))
  }

  lemma {:induction false} TrackedCovers(data: seq<byte>, base: address, entry: int, ip: nat, toks: seq<Token>)
    requires Tracked(data, base, entry, ip, toks)
    ensures Covered(toks) == 22 * |toks|
  {
    ShortTokensCover(|toks|);
  }

  lemma {:induction false} ShortTokensCover(k: nat)
    ensures Covered(ShortTokens(15, 22, k)) == 22 * k
  {
    if k > 0 {
      ShortTokensCover(k - 1);
      var toks := ShortTokens(15, 22, k);
      assert toks[..k - 1] == ShortTokens(15, 22, k - 1);
    }
  }

  /** At a quiet position there is no match, whatever the dictionary holds. */
  lemma {:induction false} QuietHasNoMatch(data: seq<byte>, ip: nat, off: nat)
    requires Overrunning(data) && 4 <= ip < TOTAL - 13 && (ip + 3) % 22 >= 3
    requires 0 < off <= ip
    ensures !SamePrefix(data, ip, off, 3)
  {
    assert Quiet(data, ip);
    assert !SameThree(data, ip - off, ip);
  }

  lemma {:induction false} BlockHashes(data: seq<byte>, j: nat)
    requires Blocks(data) && j <= BLOCKS
    ensures HashAt(data, BlockPos(j)) == BlockHash()
  {
    hide Index1;
    assert BlockAt(data, BlockPos(j), Mark(j));
    HashMeets(1, 2, 3, 0, 8);
  }

  /** A literal: the position is quiet, or the first block. */
  lemma {:induction false} TrackLiteral(data: seq<byte>, base: address, entry: int, ip: nat, toks: seq<Token>)
    requires Overrunning(data) && Tracked(data, base, entry, ip, toks) && ip < TOTAL - 13 && ip != BlockPos(|toks| + 1)
    ensures (ip + 3) % 22 >= 3
    ensures Tracked(data, base, if HashAt(data, ip) == BlockHash() then base + ip else entry, ip + 1, toks)
  {
    hide Index1, ShortTokens;
    assert Quiet(data, ip);
    if ip == 4 { BlockHashes(data, 0); }
  }

  /** A match: the position is the next block, the entry points to the block before it, and the match ends
      behind three bytes. */
  lemma {:induction false} TrackMatch(data: seq<byte>, base: address, entry: address, ip: nat, toks: seq<Token>)
    requires Overrunning(data) && Tracked(data, base, entry, ip, toks) && ip < TOTAL - 13 && ip == BlockPos(|toks| + 1)
    requires base + |data| < WORD
    ensures |toks| < BLOCKS && HashAt(data, ip) == BlockHash()
    ensures var o := OffsetAt(15, 22, |toks|);
      && o <= ip && CheckedOffset(base, ip, entry) == o && SamePrefix(data, ip, o, 3) && data[ip + 3] != data[ip + 3 - o]
      && Tracked(data, base, base + ip, ip + 3, toks + [Token(ip - 22 * |toks|, o, 3)])
  {
    hide Index1, CheckedOffset;
    var m := |toks|;
    assert m < BLOCKS;
    BlockHashes(data, m + 1);
    NextBlock(data, m);
    hide Overrunning, HashAt, BlockHash;
    assert ip == BlockPos(m) + OffsetAt(15, 22, m);
    PointedOffset(base, ip, entry, OffsetAt(15, 22, m));
  }

  lemma {:induction false} NextBlock(data: seq<byte>, j: nat)
    requires Blocks(data) && j < BLOCKS
    ensures var p, o := BlockPos(j + 1), OffsetAt(15, 22, j);
      o <= p && p + 4 <= |data| && SamePrefix(data, p, o, 3) && data[p + 3] != data[p + 3 - o]
  {
    assert BlockAt(data, BlockPos(j), Mark(j));
    assert BlockAt(data, BlockPos(j + 1), Mark(j + 1));
  }

  lemma {:induction false} PointedOffset(base: address, ip: nat, entry: address, o: nat)
    requires base + ip < WORD && 0 < o <= ip && o <= M4_MAX_OFFSET && entry == base + ip - o
    ensures CheckedOffset(base, ip, entry) == o
  {
  }

  /** One probe of the search, whichever way it ends. */
  lemma {:induction false} TrackProbe(data: seq<byte>, base: address, entry: address, probed: address, ip: nat,
                                      toks: seq<Token>, index: nat, off: nat)
    requires Overrunning(data) && Tracked(data, base, entry, ip, toks) && ip < TOTAL - 13 && base + |data| < WORD
    requires HashAt(data, ip) == BlockHash() ==> probed == entry
    requires index == HashAt(data, ip) && (off > 0 ==> off <= ip && SamePrefix(data, ip, off, 3))
    requires var near := CheckedOffset(base, ip, probed);
      0 < near <= M2_MAX_OFFSET && near <= ip && SamePrefix(data, ip, near, 3) ==> off == near
    ensures var entry' := if index == BlockHash() then base + ip else entry;
      if off == 0 then Tracked(data, base, entry', ip + 1, toks)
      else
        && off <= ip && data[ip + 3] != data[ip + 3 - off]
        && Tracked(data, base, entry', ip + 3, toks + [Token(ip - 22 * |toks|, off, 3)])
  {
    hide Overrunning, HashAt, BlockHash, CheckedOffset, ShortTokens;
    OverrunningTotal(data);
    if ip == BlockPos(|toks| + 1) {
      TrackMatch(data, base, entry, ip, toks);
    } else {
      TrackLiteral(data, base, entry, ip, toks);
      if 0 < off <= ip { QuietHasNoMatch(data, ip, off); }
    }
  }

  lemma {:induction false} OverrunningTotal(data: seq<byte>)
    requires Overrunning(data)
    ensures |data| == TOTAL && Blocks(data)
  {
  }

  lemma {:induction false} TrackedToTheEnd(data: seq<byte>, base: address, entry: int, ip: nat, toks: seq<Token>)
    requires Tracked(data, base, entry, ip, toks) && ip >= TOTAL - 13
    ensures toks == ShortTokens(15, 22, BLOCKS)
  {
  }

  lemma {:induction false} TrackedAtStart(data: seq<byte>, base: address, entry: int)
    ensures Tracked(data, base, entry, 4, [])
  {
  }

  // ------------------------------------------------------------ such an input

  /** Byte `t` of the 18 between two blocks, in every 22: one value names the group, the others the place in it. */
  function Between(j: nat, t: nat): (b: byte)
    requires j <= BLOCKS && t < 18
    ensures IsFiller(b) && b >= 12
  {
    if t % 2 == 1 && t < 17 then 12 + 4 * (t / 2) else if t == 16 then 44 else 128 + 4 * j
  }

  function SampleByte(p: nat): byte
    requires p < TOTAL
  {
    var j, r := (p + 3) / 22, (p + 3) % 22;
    if p < 4 then 0
    else if p < 7 then p - 3
    else if p == 7 then Mark(0)
    else if r < 3 then r + 1
    else if r == 3 then Mark(j)
    else Between(j, r - 4)
  }

  function Sample(): (data: seq<byte>)
    ensures |data| == TOTAL && forall p :: 0 <= p < TOTAL ==> data[p] == SampleByte(p)
  {
    seq(TOTAL, p requires 0 <= p < TOTAL => SampleByte(p))
  }

  /** Where three bytes of the sample stand: the position they start at, or -1 for some that are not looked at. */
  function Where(a: byte, b: byte, c: byte): int {
    if a == 1 || a == 2 || a == 3 then -1
    else if a < 12 then (if b >= 128 then 22 * ((b - 128) / 4) else if b >= 12 then 7 else -1)
    else if a >= 128 then 22 * ((a - 128) / 4) + 1 + (if b == 1 then 17 else 2 * ((b - 12) / 4))
    else if b >= 128 then 22 * ((b - 128) / 4) + 1 + (if a == 44 then 16 else 2 * ((a - 12) / 4) + 1)
    else 22 * ((c as int - 128) / 4) + 1 + 15
  }

  /** What stands `t` places behind the mark of group `j`: the bytes between, then 1 and 2. */
  function InGroup(j: nat, t: nat): byte
    requires j <= BLOCKS && t < 20
  {
    if t < 18 then Between(j, t) else t - 17
  }

  lemma {:induction false} SampleInGroup(j: nat, t: nat)
    requires j <= BLOCKS && t < 20 && 8 <= 22 * j + 1 + t < TOTAL
    ensures SampleByte(22 * j + 1 + t) == InGroup(j, t)
  {
    var p := 22 * j + 1 + t;
    if t < 18 {
      assert (p + 3) / 22 == j && (p + 3) % 22 == t + 4;
    } else {
      assert (p + 3) % 22 == t - 18;
    }
  }

  lemma {:induction false} WhereInGroup(j: nat, t: nat)
    requires j <= BLOCKS && t < 18
    ensures Where(InGroup(j, t), InGroup(j, t + 1), InGroup(j, t + 2)) == 22 * j + 1 + t
  {
  }

  /** Behind the first block every position looked at is where its three bytes say. */
  lemma {:induction false} WhereItIs(p: nat)
    requires 7 <= p < TOTAL - 13 && (p + 3) % 22 >= 3
    ensures Where(SampleByte(p), SampleByte(p + 1), SampleByte(p + 2)) == p
  {
    var j, r := (p + 3) / 22, (p + 3) % 22;
    if r > 3 && p > 7 {
      hide SampleByte, Where, InGroup;
      assert p == 22 * j + 1 + (r - 4);
      SampleInGroup(j, r - 4);
      SampleInGroup(j, r - 3);
      SampleInGroup(j, r - 2);
      WhereInGroup(j, r - 4);
    } else {
      WhereMark(p);
    }
  }

  lemma {:induction false} WhereMark(p: nat)
    requires 7 <= p < TOTAL - 13 && ((p + 3) % 22 == 3 || p == 7)
    ensures Where(SampleByte(p), SampleByte(p + 1), SampleByte(p + 2)) == p
  {
    var j := (p + 3) / 22;
    if p > 7 {
      assert p == 22 * j;
      SampleInGroup(j, 0);
      SampleInGroup(j, 1);
    } else {
      SampleInGroup(0, 7);
      SampleInGroup(0, 8);
    }
  }

  lemma {:induction false} WhereElse(p: nat)
    requires p < TOTAL - 13 && (p < 7 || (p + 3) % 22 < 3)
    ensures Where(SampleByte(p), SampleByte(p + 1), SampleByte(p + 2)) == -1
  {
  }

  lemma {:induction false} SampleBlocks()
    ensures Blocks(Sample())
  {
    hide SampleByte, Mark;
    forall j | 0 <= j <= BLOCKS ensures BlockAt(Sample(), BlockPos(j), Mark(j)) {
      if j == 0 { FirstBlock(); } else { LaterBlock(j, BlockPos(j)); }
    }
  }

  lemma {:induction false} FirstBlock()
    ensures SampleByte(4) == 1 && SampleByte(5) == 2 && SampleByte(6) == 3 && SampleByte(7) == Mark(0)
  {
  }

  lemma {:induction false} LaterBlock(j: nat, p: nat)
    requires 0 < j <= BLOCKS && p + 3 == 22 * j
    ensures SampleByte(p) == 1 && SampleByte(p + 1) == 2 && SampleByte(p + 2) == 3 && SampleByte(p + 3) == Mark(j)
  {
    hide Mark, Between;
    assert (p + 6) / 22 == j;
  }

  lemma {:induction false} SampleIsQuiet(p: nat)
    requires 4 <= p < TOTAL - 13 && (p + 3) % 22 >= 3
    ensures Quiet(Sample(), p)
  {
    hide Where, SampleByte;
    var data := Sample();
    forall q | 0 <= q < p ensures !SameThree(data, q, p) {
      if p < 7 {
        SampleHead(p, q);
      } else {
        WhereItIs(p);
        if q >= 7 && (q + 3) % 22 >= 3 { WhereItIs(q); } else { WhereElse(q); }
      }
    }
    if p > 4 { SampleHash(p); }
  }

  lemma {:induction false} SampleHead(p: nat, q: nat)
    requires 4 <= p < 7 && q < p
    ensures !SameThree(Sample(), q, p)
  {
  }

  lemma {:induction false} SampleHash(p: nat)
    requires 4 < p < TOTAL - 13 && (p + 3) % 22 >= 3
    ensures HashAt(Sample(), p) != BlockHash()
  {
    hide Index1;
    var data := Sample();
    SamplePair(p);
    FillersApart(data[p], data[p + 1], data[p + 2], data[p + 3]);
  }

  lemma {:induction false} SamplePair(p: nat)
    requires 4 < p < TOTAL - 13 && (p + 3) % 22 >= 3
    ensures var a, b := SampleByte(p), SampleByte(p + 1);
      (IsFiller(a) && (IsFiller(b) || b == 1)) || (a == 2 && b == 3) || (a == 3 && b == 8)
  {
    var j, r := (p + 3) / 22, (p + 3) % 22;
    if p >= 8 {
      hide SampleByte;
      assert p == 22 * j + r - 3;
      if r > 3 { SampleInGroup(j, r - 4); } else { SampleMark(p); }
      SampleInGroup(j, r - 3);
    }
  }

  lemma {:induction false} SampleMark(p: nat)
    requires 8 <= p < TOTAL && (p + 3) % 22 == 3
    ensures IsFiller(SampleByte(p))
  {
  }

  /** The search on this input, from any dictionary, is tracked. */
  lemma {:induction false} SampleOverruns()
    ensures Overrunning(Sample())
  {
    hide Blocks, Quiet;
    SampleBlocks();
    forall p | 4 <= p < TOTAL - 13 && (p + 3) % 22 >= 3 ensures Quiet(Sample(), p) { SampleIsQuiet(p); }
  }
}
