/** Inputs that the compressor always makes smaller, and inputs that no encoding makes smaller. */
module LzoSavings {
  import opened Bytes
  import opened LzoFormat
  import opened LzoSize
  import opened LzoDictionary
  import opened LzoOverrun

  /** What FileOutput asks of a stream for `n` bytes. */
  predicate Saves(size: nat, n: nat) { size + 4 < n * 15 / 16 }

  // ------------------------------------------------------------ one byte repeated

  ghost predicate Uniform(data: seq<byte>) {
    forall i :: 0 <= i < |data| ==> data[i] == data[0]
  }

  /** Four or five literals, and one match for all the rest. */
  ghost predicate OneRun(data: seq<byte>, toks: seq<Token>) {
    && |toks| == 1 && 4 <= toks[0].lit <= 5 && 1 <= toks[0].off <= 4
    && toks[0].lit + toks[0].len == |data|
  }

  /** The state of the search at `ip`, with `entry` in the dictionary for the one hash of the input. */
  ghost predicate AtRun(data: seq<byte>, base: address, entry: int, ip: nat, toks: seq<Token>) {
    || (ip == 4 && toks == [])
    || (ip == 5 && toks == [] && entry == base + 4)
    || (ip == |data| && OneRun(data, toks))
  }

  lemma {:induction false} OneHash(data: seq<byte>)
    requires Uniform(data) && |data| >= 19
    ensures HashAt(data, 4) == HashAt(data, 5)
  {
    hide Index1;
    assert data[8] == data[0];
  }

  /** A position of the run is found again one place on, so the search is done at the fifth byte or the sixth. */
  lemma {:induction false} RunProbe(data: seq<byte>, base: address, entry: address, probed: address, ip: nat, toks: seq<Token>,
                                    index: nat, off: nat)
    requires Uniform(data) && |data| >= 19 && base + |data| < WORD && AtRun(data, base, entry, ip, toks) && ip < |data| - 3
    requires (HashAt(data, ip) == HashAt(data, 4) ==> probed == entry) && off <= ip
    requires ip <= M2_MAX_OFFSET ==> index == HashAt(data, ip)
    requires var near := CheckedOffset(base, ip, probed);
      0 < near <= M2_MAX_OFFSET && near <= ip && SamePrefix(data, ip, near, 3) ==> off == near
    ensures index == HashAt(data, 4) && toks == [] && 4 <= ip <= 5
    ensures off == 0 ==> AtRun(data, base, base + ip, ip + 1, toks)
    ensures off > 0 ==> off <= 4
  {
    hide HashAt, CheckedOffset;
    OneHash(data);
    if ip == 5 {
      PointedOffset(base, ip, entry, 1);
      assert SamePrefix(data, ip, 1, 3);
    }
  }

  lemma {:induction false} RunEnds(data: seq<byte>, base: address, entry: int, ip: nat, off: nat, end: nat)
    requires Uniform(data) && 4 <= ip <= 5 && 1 <= off <= 4 && ip <= end <= |data|
    requires end < |data| ==> data[end] != data[end - off]
    ensures AtRun(data, base, entry, end, [Token(ip, off, end - ip)])
  {
  }

  lemma {:induction false} RunStart(data: seq<byte>, base: address, entry: int)
    ensures AtRun(data, base, entry, 4, [])
  {
  }

  lemma {:induction false} RunDone(data: seq<byte>, base: address, entry: int, ip: nat, toks: seq<Token>)
    requires AtRun(data, base, entry, ip, toks) && ip > 5
    ensures ip == |data| && OneRun(data, toks)
  {
  }

  lemma {:induction false} OneRunCovers(data: seq<byte>, toks: seq<Token>)
    requires OneRun(data, toks)
    ensures Covered(toks) == |data|
  {
    assert toks[..0] == [];
  }

  /** One run costs a few bytes, and one byte more for every 255. */
  lemma {:induction false} OneRunSize(data: seq<byte>, toks: seq<Token>)
    requires ValidParse(data, toks) && OneRun(data, toks) && |data| >= 19 && Covered(toks) <= |data|
    ensures Saves(|Compressed(data, toks)|, |data|) && |Compressed(data, toks)| <= CodeBuffer(|data|)
  {
    hide AppendLiterals, MatchBytes, Overhead;
    var tok := toks[0];
    var lits := data[0..tok.lit];
    OneRunCovers(data, toks);
    assert toks[..0] == [];
    LiteralsSize([], lits);
    RunMatchSize(tok.off, tok.len);
    LiteralsSize(Encoded(data, toks), data[|data|..]);
    SmallOverheads();
    RunSaves(tok.lit, tok.len);
  }

  lemma {:induction false} SmallOverheads()
    ensures Overhead(0) == 0 && Overhead(4) == 1 && Overhead(5) == 1
  {
  }

  lemma {:induction false} RunMatchSize(off: nat, len: nat)
    requires 1 <= off <= 4 && len >= 14
    ensures |MatchBytes(off, len)| == 3 + (if len <= 33 then 0 else (len - 33 + 254) / 255)
  {
    if len > 33 { ExtensionSize(len - 33); }
  }

  lemma {:induction false} RunSaves(lit: nat, len: nat)
    requires 4 <= lit <= 5 && lit + len >= 19
    ensures var size := lit + 1 + 3 + (if len <= 33 then 0 else (len - 33 + 254) / 255) + 3;
      Saves(size, lit + len) && size <= CodeBuffer(lit + len)
  {
  }

  // ------------------------------------------------------------ nothing repeated

  /** No three bytes occur twice. */
  ghost predicate NoRepeats(data: seq<byte>) {
    forall p, q :: 0 <= q < p <= |data| - 3 ==> !SameThree(data, q, p)
  }

  /** There is no match to encode, so the stream is larger than the input, but never by as much as the record writer
      allows for. */
  lemma {:induction false} NothingSaved(data: seq<byte>, toks: seq<Token>)
    requires NoRepeats(data) && ValidParse(data, toks) && Covered(toks) <= |data|
    ensures toks == [] && |data| < |Compressed(data, toks)| <= CodeBuffer(|data|)
  {
    hide LiteralHeader, Encoded, CodeBuffer, Overhead;
    if |data| > 238 { LiteralHeaderSize(|data|); }
    LiteralsFit(|data|);
    if toks != [] {
      var init, last := toks[..|toks| - 1], toks[|toks| - 1];
      var p := Covered(init) + last.lit;
      MatchRepeats(data, p, last.off, last.len);
    }
  }

  lemma {:induction false} LiteralsFit(n: nat)
    ensures n + 4 <= CodeBuffer(n) && n + Overhead(n) + 3 <= CodeBuffer(n)
  {
    if n > 18 {
      var k, r := n / 1024, n % 1024;
      assert n == 1024 * k + r;
      Chunks(k, r);
    }
  }

  lemma {:induction false} Chunks(k: nat, r: nat)
    requires r < 1024
    ensures (1024 * k + r + 236) / 255 <= 16 * k + 5
  {
    assert 1024 * k + r + 236 < 255 * (16 * k + 6);
  }

  lemma {:induction false} MatchRepeats(data: seq<byte>, p: nat, off: nat, len: nat)
    requires ValidMatch(data, p, off, len)
    ensures !NoRepeats(data)
  {
    assert SameThree(data, p - off, p);
  }
}
