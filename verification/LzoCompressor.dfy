/** The LZO1X-1 compressor: a greedy search through an untrusted dictionary. */
module LzoCompressor {
  import opened Bytes
  import opened LzoFormat
  import opened LzoRoundTrip
  import opened LzoSize
  import opened LzoDictionary
  import opened LzoOverrun
  import opened LzoSavings
  import opened LzoSearch

  const MAX_LEN_M2 := 8

  /** Capacity that suffices for every input of `n` bytes. */
  function Bound(n: nat): nat {
    n + n / 16 + 5
  }

  /** Probe the dictionary at `ip`. A nonzero offset is a match of at least three bytes, and of at
      least four beyond M2's reach, whatever the dictionary holds. */
  method FindMatch(data: seq<byte>, base: address, dict: array<address>, ip: nat) returns (index: nat, off: nat)
    requires M4_MAX_OFFSET <= base && base + |data| < WORD && ip + 4 <= |data| && dict.Length == DICT_SIZE
    ensures index < DICT_SIZE
    ensures off > 0 ==>
      && off <= ip && off <= M4_MAX_OFFSET
      && SamePrefix(data, ip, off, if off > M2_MAX_OFFSET then 4 else 3)
    ensures Probed(data, base, dict[..], ip, index, off)
  {
    hide HashAt, Index2, CheckedOffset;
    index := HashAt(data, ip);
    off := CheckedOffset(base, ip, dict[index]);
    if off == 0 { return; }
    if !(off <= M2_MAX_OFFSET || data[ip - off + 3] == data[ip + 3]) {
      index := Index2(index);
      off := CheckedOffset(base, ip, dict[index]);
      if off == 0 { return; }
      if !(off <= M2_MAX_OFFSET || data[ip - off + 3] == data[ip + 3]) { off := 0; return; }
    }
    if data[ip - off] != data[ip] || data[ip - off + 1] != data[ip + 1] || data[ip - off + 2] != data[ip + 2] {
      off := 0;
    }
  }

  /** How far a match reaches. Bytes up to the ninth are compared first, the rest up to the end. */
  method MatchLength(data: seq<byte>, ip: nat, off: nat) returns (len: nat)
    requires 1 <= off <= ip && ip + MAX_LEN_M2 + 1 <= |data| && SamePrefix(data, ip, off, 3)
    ensures 3 <= len && ip + len <= |data| && SamePrefix(data, ip, off, len)
    ensures ip + len < |data| ==> data[ip + len] != data[ip + len - off]
  {
    len := 3;
    while len < MAX_LEN_M2 + 1 && data[ip + len] == data[ip + len - off]
      invariant 3 <= len <= MAX_LEN_M2 + 1
      invariant SamePrefix(data, ip, off, len)
    {
      len := len + 1;
    }
    if len == MAX_LEN_M2 + 1 {
      while ip + len < |data| && data[ip + len] == data[ip + len - off]
        invariant MAX_LEN_M2 < len && ip + len <= |data|
        invariant SamePrefix(data, ip, off, len)
      {
        len := len + 1;
      }
    }
  }

  // ------------------------------------------------------------ writing

  method PutByte(out: array<byte>, op: nat, b: byte) returns (op': nat)
    requires op < out.Length
    modifies out
    ensures op' == op + 1
    ensures out[..op'] == old(out[..op]) + [b]
  {
    out[op] := b;
    op' := op + 1;
    assert out[..op] == old(out[..op]);
  }

  method PutExtension(out: array<byte>, op: nat, x: nat) returns (op': nat)
    requires x >= 1 && op + |Extension(x)| <= out.Length
    modifies out
    ensures op' == op + |Extension(x)|
    ensures out[..op'] == old(out[..op]) + Extension(x)
  {
    var tt := x;
    op' := op;
    while tt > 255
      invariant tt >= 1 && op <= op'
      invariant op' + |Extension(tt)| == op + |Extension(x)|
      invariant out[..op'] + Extension(tt) == old(out[..op]) + Extension(x)
      decreases tt
    {
      ghost var before := out[..op'];
      assert before + Extension(tt) == (before + [0]) + Extension(tt - 255);
      tt := tt - 255;
      op' := PutByte(out, op', 0);
    }
    op' := PutByte(out, op', tt);
  }

  method CopyLiterals(data: seq<byte>, ii: nat, t: nat, out: array<byte>, op: nat) returns (op': nat)
    requires ii + t <= |data| && op + t <= out.Length
    modifies out
    ensures op' == op + t
    ensures out[..op'] == old(out[..op]) + data[ii..ii + t]
  {
    var k := 0;
    op' := op;
    while k < t
      invariant k <= t && op' == op + k
      invariant out[..op'] == old(out[..op]) + data[ii..ii + k]
    {
      assert data[ii..ii + k + 1] == data[ii..ii + k] + [data[ii + k]];
      op' := PutByte(out, op', data[ii + k]);
      k := k + 1;
    }
  }

  method EmitHeader(out: array<byte>, op: nat, t: nat) returns (op': nat)
    requires t >= 4 && op + |LiteralHeader(t)| <= out.Length
    modifies out
    ensures op' == op + |LiteralHeader(t)|
    ensures out[..op'] == old(out[..op]) + LiteralHeader(t)
  {
    hide Extension;
    if t <= 18 {
      op' := PutByte(out, op, t - 3);
    } else {
      op' := PutByte(out, op, 0);
      op' := PutExtension(out, op', t - 18);
      assert old(out[..op]) + [0] + Extension(t - 18) == old(out[..op]) + LiteralHeader(t);
    }
  }

  /** A literal run: `op[-2] |= t` for up to three, a header for more. */
  method EmitLiterals(data: seq<byte>, ii: nat, t: nat, out: array<byte>, op: nat) returns (op': nat)
    requires ii + t <= |data| && op <= out.Length
    requires 1 <= t <= 3 ==> op >= 2
    requires |AppendLiterals(out[..op], data[ii..ii + t])| <= out.Length
    modifies out
    ensures op' == |AppendLiterals(old(out[..op]), data[ii..ii + t])|
    ensures out[..op'] == AppendLiterals(old(out[..op]), data[ii..ii + t])
  {
    hide LiteralHeader, OrLow;
    op' := op;
    if t == 0 { return; }
    if t <= 3 {
      out[op - 2] := OrLow(out[op - 2], t);
      assert out[..op] == old(out[..op])[op - 2 := OrLow(old(out[op - 2]), t)];
    } else {
      op' := EmitHeader(out, op, t);
    }
    op' := CopyLiterals(data, ii, t, out, op');
  }

  lemma {:induction false} M3HeadForms(len: nat)
    requires len >= 3
    ensures M3Head(len) == if len <= 33 then [32 + (len - 2)] else [32] + Extension(len - 33)
  {
  }

  method EmitM3Head(out: array<byte>, op: nat, len: nat) returns (op': nat)
    requires len >= 3 && op + |M3Head(len)| <= out.Length
    modifies out
    ensures op' == op + |M3Head(len)|
    ensures out[..op'] == old(out[..op]) + M3Head(len)
  {
    M3HeadForms(len);
    hide Extension, M3Head;
    if len <= 33 {
      op' := PutByte(out, op, 32 + (len - 2));
    } else {
      op' := PutByte(out, op, 32);
      op' := PutExtension(out, op', len - 33);
      assert old(out[..op]) + [32] + Extension(len - 33) == old(out[..op]) + ([32] + Extension(len - 33));
    }
  }

  lemma {:induction false} M4HeadForms(hi: nat, len: nat)
    requires len >= 3 && hi < 2
    ensures M4Head(hi, len) == if len <= 9 then [16 + hi * 8 + (len - 2)] else [16 + hi * 8] + Extension(len - 9)
  {
  }

  method EmitM4Head(out: array<byte>, op: nat, hi: nat, len: nat) returns (op': nat)
    requires len >= 3 && hi < 2 && op + |M4Head(hi, len)| <= out.Length
    modifies out
    ensures op' == op + |M4Head(hi, len)|
    ensures out[..op'] == old(out[..op]) + M4Head(hi, len)
  {
    M4HeadForms(hi, len);
    hide Extension, M4Head;
    if len <= 9 {
      op' := PutByte(out, op, 16 + hi * 8 + (len - 2));
    } else {
      op' := PutByte(out, op, 16 + hi * 8);
      op' := PutExtension(out, op', len - 9);
      assert old(out[..op]) + [16 + hi * 8] + Extension(len - 9) == old(out[..op]) + ([16 + hi * 8] + Extension(len - 9));
    }
  }

  method EmitM2(out: array<byte>, op: nat, off: nat, len: nat) returns (op': nat)
    requires 1 <= off <= M2_MAX_OFFSET && 3 <= len <= MAX_LEN_M2 && op + 2 <= out.Length
    modifies out
    ensures op' == op + 2
    ensures out[..op'] == old(out[..op]) + MatchBytes(off, len)
  {
    var o := off - 1;
    op' := PutByte(out, op, (len - 1) * 32 + o % 8 * 4);
    op' := PutByte(out, op', o / 8);
  }

  method EmitMatch(out: array<byte>, op: nat, off: nat, len: nat) returns (op': nat)
    requires 1 <= off <= M4_MAX_OFFSET && len >= 3
    requires op + |MatchBytes(off, len)| <= out.Length
    modifies out
    ensures op' == op + |MatchBytes(off, len)|
    ensures out[..op'] == old(out[..op]) + MatchBytes(off, len)
  {
    hide MatchBytes, M3Head, M4Head, OffsetBytes;
    ghost var was := out[..op];
    MatchLayout(off, len);
    if len <= MAX_LEN_M2 && off <= M2_MAX_OFFSET {
      op' := EmitM2(out, op, off, len);
    } else if off <= M3_MAX_OFFSET {
      op' := EmitM3Head(out, op, len);
      op' := PutOffset(out, op', off - 1);
      assert was + M3Head(len) + OffsetBytes(off - 1) == was + MatchBytes(off, len);
    } else {
      var o := off - 0x4000;
      op' := EmitM4Head(out, op, o / 0x4000, len);
      op' := PutOffset(out, op', o % 0x4000);
      assert was + M4Head(o / 0x4000, len) + OffsetBytes(o % 0x4000) == was + MatchBytes(off, len);
    }
  }

  method PutOffset(out: array<byte>, op: nat, o: nat) returns (op': nat)
    requires o < 0x4000 && op + 2 <= out.Length
    modifies out
    ensures op' == op + 2
    ensures out[..op'] == old(out[..op]) + OffsetBytes(o)
  {
    op' := PutByte(out, op, o % 64 * 4);
    op' := PutByte(out, op', o / 64);
  }

  // ------------------------------------------------------------ the compressor

  lemma {:induction false} ExtendParse(data: seq<byte>, toks: seq<Token>, tok: Token)
    requires ValidParse(data, toks)
    requires toks == [] ==> tok.lit >= 4
    requires ValidMatch(data, Covered(toks) + tok.lit, tok.off, tok.len)
    requires tok.off > M2_MAX_OFFSET ==> tok.len >= 4
    ensures var ts := toks + [tok];
      && ValidParse(data, ts)
      && Covered(ts) == Covered(toks) + tok.lit + tok.len
      && Encoded(data, ts) ==
         AppendLiterals(Encoded(data, toks), data[Covered(toks)..Covered(toks) + tok.lit]) + MatchBytes(tok.off, tok.len)
      && |Encoded(data, ts)| <= Bound(Covered(ts))
  {
    hide *;
    ParseSnoc(data, toks, tok);
    EncodedFits(data, toks + [tok], 0);
  }

  /** Tokens and the literals behind them fit the bound at every point. */
  lemma {:induction false} EncodedFits(data: seq<byte>, toks: seq<Token>, t: nat)
    requires ValidParse(data, toks)
    ensures |Encoded(data, toks)| + t + Overhead(t) <= Bound(Covered(toks) + t)
  {
    hide Encoded, Overhead;
    EncodedSize(data, toks);
    OverheadRate(t);
  }

  lemma {:induction false} PrefixIsMatch(data: seq<byte>, p: nat, off: nat, len: nat)
    requires 1 <= off <= p && off <= M4_MAX_OFFSET && 3 <= len && p + len <= |data| && SamePrefix(data, p, off, len)
    ensures ValidMatch(data, p, off, len)
  {
  }

  /** Emit the pending literals and one match. */
  method EmitToken(data: seq<byte>, ghost toks: seq<Token>, ii: nat, ip: nat, off: nat,
                   out: array<byte>, op: nat) returns (op': nat, ip': nat, ghost toks': seq<Token>)
    requires out.Length >= Bound(|data|)
    requires ValidParse(data, toks) && ii == Covered(toks) <= ip && (toks == [] ==> ip >= 4)
    requires op <= out.Length && out[..op] == Encoded(data, toks)
    requires 1 <= off <= ip && off <= M4_MAX_OFFSET && ip + MAX_LEN_M2 + 1 <= |data|
    requires SamePrefix(data, ip, off, if off > M2_MAX_OFFSET then 4 else 3)
    modifies out
    ensures ValidParse(data, toks') && toks' != [] && ip' == Covered(toks') && ip + 3 <= ip' <= |data|
    ensures op' <= out.Length && out[..op'] == Encoded(data, toks')
    ensures toks' == toks + [Token(ip - ii, off, ip' - ip)] && SamePrefix(data, ip, off, ip' - ip)
    ensures ip' < |data| ==> data[ip'] != data[ip' - off]
  {
    hide AppendLiterals, MatchBytes, Encoded, ValidParse, Overhead, ValidMatch;
    assert toks == [] ==> ii == 0;
    hide Covered;
    var t := ip - ii;
    EncodedFits(data, toks, t);
    LiteralsSize(out[..op], data[ii..ii + t]);
    op' := EmitLiterals(data, ii, t, out, op);
    var len := MatchLength(data, ip, off);
    var tok := Token(t, off, len);
    PrefixIsMatch(data, ip, off, len);
    ExtendParse(data, toks, tok);
    toks' := toks + [tok];
    op' := EmitMatch(out, op', off, len);
    ip' := ip + len;
  }

  // ------------------------------------------------------------ inputs whose search is known

  /** On the inputs of `LzoOverrun` and `LzoSavings` the search is where they say, whatever the dictionary held. */
  ghost predicate Followed(data: seq<byte>, base: address, d: seq<address>, ip: nat, toks: seq<Token>)
    requires |d| == DICT_SIZE && |data| >= 8
  {
    && (Overrunning(data) ==> Tracked(data, base, d[BlockHash()], ip, toks))
    && (Uniform(data) && |data| >= 19 ==> AtRun(data, base, d[HashAt(data, 4)], ip, toks))
  }

  lemma {:induction false} FollowedAtStart(data: seq<byte>, base: address, d: seq<address>)
    requires |d| == DICT_SIZE && |data| >= 8
    ensures Followed(data, base, d, 4, [])
  {
    hide Overrunning, Uniform, BlockHash, HashAt;
    TrackedAtStart(data, base, d[BlockHash()]);
    RunStart(data, base, d[HashAt(data, 4)]);
  }

  lemma {:induction false} FollowLiteral(data: seq<byte>, base: address, d: seq<address>, ip: nat, toks: seq<Token>, index: nat)
    requires M4_MAX_OFFSET <= base && base + |data| < WORD && ip + 4 <= |data| && |d| == DICT_SIZE && index < DICT_SIZE
    requires |data| > 13 && (ip < |data| - 13 || ip == 4)
    requires Followed(data, base, d, ip, toks) && Probed(data, base, d, ip, index, 0)
    ensures Followed(data, base, d[index := base + ip], ip + 1, toks)
  {
    hide Overrunning, Uniform, BlockHash, HashAt, Tracked, AtRun, Probed, SamePrefix;
    ProbedNear(data, base, d, ip, index, 0);
    if Overrunning(data) {
      OverrunningTotal(data);
      TrackProbe(data, base, d[BlockHash()], d[HashAt(data, ip)], ip, toks, index, 0);
    }
    if Uniform(data) && |data| >= 19 {
      RunProbe(data, base, d[HashAt(data, 4)], d[HashAt(data, ip)], ip, toks, index, 0);
    }
  }

  lemma {:induction false} FollowMatch(data: seq<byte>, base: address, d: seq<address>, ip: nat, toks: seq<Token>,
                                       index: nat, off: nat, end: nat, toks': seq<Token>)
    requires M4_MAX_OFFSET <= base && base + |data| < WORD && ip + 4 <= |data| && |d| == DICT_SIZE && index < DICT_SIZE
    requires |data| > 13 && (ip < |data| - 13 || ip == 4) && ip + 3 <= end <= |data| && Covered(toks) <= ip
    requires Followed(data, base, d, ip, toks) && Probed(data, base, d, ip, index, off) && 0 < off <= ip
    requires SamePrefix(data, ip, off, end - ip) && (end < |data| ==> data[end] != data[end - off])
    requires toks' == toks + [Token(ip - Covered(toks), off, end - ip)]
    ensures Followed(data, base, d[index := base + ip], end, toks')
  {
    hide Overrunning, Uniform, BlockHash, HashAt, Tracked, AtRun, Probed;
    ProbedNear(data, base, d, ip, index, off);
    if Overrunning(data) {
      OverrunningTotal(data);
      TrackedCovers(data, base, d[BlockHash()], ip, toks);
      TrackProbe(data, base, d[BlockHash()], d[HashAt(data, ip)], ip, toks, index, off);
      assert end == ip + 3;
    }
    if Uniform(data) && |data| >= 19 {
      RunProbe(data, base, d[HashAt(data, 4)], d[HashAt(data, ip)], ip, toks, index, off);
      assert Covered([]) == 0;
      RunEnds(data, base, base + ip, ip, off, end);
      assert [] + [Token(ip, off, end - ip)] == [Token(ip, off, end - ip)];
    }
  }

  lemma {:induction false} FollowedToTheEnd(data: seq<byte>, base: address, d: seq<address>, ip: nat, toks: seq<Token>)
    requires |d| == DICT_SIZE && |data| > 13 && Followed(data, base, d, ip, toks) && ip >= |data| - 13
    ensures Overrunning(data) ==> toks == ShortTokens(15, 22, BLOCKS)
    ensures Uniform(data) && |data| >= 19 ==> Covered(toks) == |data| && OneRun(data, toks)
  {
    hide Overrunning, Uniform, BlockHash, HashAt, Tracked, AtRun, ShortTokens;
    if Overrunning(data) {
      OverrunningTotal(data);
      TrackedToTheEnd(data, base, d[BlockHash()], ip, toks);
    }
    if Uniform(data) && |data| >= 19 {
      RunDone(data, base, d[HashAt(data, 4)], ip, toks);
      OneRunCovers(data, toks);
    }
  }

  /** _lzo1x_1_do_compress: everything but the last literals, for inputs of more than 13 bytes.
      `dict` may hold anything. Up to the last 13 bytes a match is taken wherever the dictionary of the positions
      before gives one, and is as long as it can be. On an overrunning input the tokens are the short ones. */
  method DoCompress(data: seq<byte>, base: address, out: array<byte>, dict: array<address>)
    returns (op: nat, left: nat, ghost toks: seq<Token>, ghost index: seq<nat>)
    requires |data| > MAX_LEN_M2 + 5 && out.Length >= Bound(|data|)
    requires M4_MAX_OFFSET <= base && base + |data| < WORD && dict.Length == DICT_SIZE
    modifies out, dict
    ensures ValidParse(data, toks) && Covered(toks) + left == |data|
    ensures op <= out.Length && out[..op] == Encoded(data, toks)
    ensures Overrunning(data) ==> toks == ShortTokens(15, 22, BLOCKS)
    ensures Uniform(data) && |data| >= 19 ==> left == 0 && OneRun(data, toks)
    ensures |data| - 13 <= |index| <= |data| && Searched(data, base, old(dict[..]), toks, index) && Longest(data, toks)
  {
    hide Encoded, ValidParse, Overrunning, Uniform, OneRun, Followed, Probed, SamePrefix, Searched, DictAt, Longest, Covered;
    toks, op := [], 0;
    EmptyParse(data);
    FollowedAtStart(data, base, dict[..]);
    index := [0, 0, 0, 0];
    ghost var start: seq<address> := dict[..];
    SearchedStart(data, base, start, index);
    NothingYet(data);
    var ii, ip := 0, 4;
    var ipEnd := |data| - MAX_LEN_M2 - 5;
    var running := true;
    while running
      invariant ii <= ip <= |data|
      invariant running ==> ip + MAX_LEN_M2 + 1 <= |data|
      invariant ValidParse(data, toks) && ii == Covered(toks) && (toks == [] ==> ip >= 4)
      invariant op <= out.Length && out[..op] == Encoded(data, toks)
      invariant if running then ip < ipEnd || ip == 4 else ip >= ipEnd
      invariant Followed(data, base, dict[..], ip, toks)
      invariant |index| == ip && ip >= 4 && Longest(data, toks)
      invariant Searched(data, base, start, toks, index) && dict[..] == DictAt(start, base, toks, index, ip)
      decreases running, |data| - ip
    {
      var slot, off := FindMatch(data, base, dict, ip);
      ghost var d: seq<address> := dict[..];
      dict[slot] := base + ip;
      assert dict[..] == d[slot := base + ip];
      if off == 0 {
        FollowLiteral(data, base, d, ip, toks, slot);
        SearchLiteral(data, base, start, toks, index, slot);
        index := index + [slot];
        ip := ip + 1;
      } else {
        ghost var from, before := ip, toks;
        op, ip, toks := EmitToken(data, toks, ii, ip, off, out, op);
        FollowMatch(data, base, d, from, before, slot, off, ip, toks);
        ghost var tok := Token(from - ii, off, ip - from);
        ghost var next := index + [slot] + seq<nat>(ip - from - 1, _ => 0);
        SearchMatch(data, base, start, before, index, slot, tok, next);
        LongestSnoc(data, before, tok);
        index := next;
        ii := ip;
      }
      running := ip < ipEnd;
    }
    FollowedToTheEnd(data, base, dict[..], ip, toks);
    left := |data| - ii;
  }

  lemma {:induction false} NothingYet(data: seq<byte>)
    ensures Longest(data, [])
  {
  }

  lemma EmptyParse(data: seq<byte>)
    ensures ValidParse(data, []) && Encoded(data, []) == [] && Covered([]) == 0
  {
  }

  /** The stream without its end marker. */
  ghost function Body(data: seq<byte>, toks: seq<Token>): (r: seq<byte>)
    requires ValidParse(data, toks) && Covered(toks) <= |data|
  {
    if toks == [] && 1 <= |data| <= 238 then [17 + |data|] + data
    else AppendLiterals(Encoded(data, toks), data[Covered(toks)..])
  }

  lemma {:induction false} BodyThenMarker(data: seq<byte>, toks: seq<Token>)
    requires ValidParse(data, toks) && Covered(toks) <= |data|
    ensures Compressed(data, toks) == Body(data, toks) + EndMarker
    ensures |Body(data, toks)| + 3 == |Compressed(data, toks)| <= Bound(|data|)
  {
    hide LiteralHeader;
    CompressedSize(data, toks);
    if toks == [] {
      assert data[Covered(toks)..] == data;
      if |data| > 238 { LongStart(data); }
    }
  }

  /** The literals behind the last match, with the short form for a stream of literals only. */
  method EmitTail(data: seq<byte>, ghost toks: seq<Token>, t: nat, out: array<byte>, op: nat) returns (op': nat)
    requires out.Length >= Bound(|data|)
    requires ValidParse(data, toks) && Covered(toks) + t == |data|
    requires op <= out.Length && out[..op] == Encoded(data, toks)
    modifies out
    ensures op' == |Body(data, toks)| <= out.Length
    ensures out[..op'] == Body(data, toks)
  {
    hide Encoded, ValidParse, AppendLiterals, Compressed;
    BodyThenMarker(data, toks);
    EncodedEmpty(data, toks);
    var ii := |data| - t;
    ghost var acc := out[..op];
    assert data[ii..ii + t] == data[ii..];
    op' := op;
    if t == 0 {
      NoLiterals(acc, data[ii..]);
    } else if op == 0 && t <= 238 {
      op' := PutByte(out, op, 17 + t);
      op' := CopyLiterals(data, ii, t, out, op');
      assert acc + [17 + t] + data[ii..ii + t] == [17 + |data|] + data;
    } else {
      assert toks == [] ==> |data| > 238;
      op' := EmitLiterals(data, ii, t, out, op);
    }
  }

  /** lzo1x_1_compress. The output is the encoding of some valid parse, it fits the bound, and the
      decoder turns it back into the input, for every content of the dictionary; inputs of more than 13 bytes are
      searched to their last 13 bytes. */
  method Compress(data: seq<byte>, base: address, out: array<byte>, dict: array<address>)
    returns (outLen: nat, ghost toks: seq<Token>)
    requires out.Length >= Bound(|data|)
    requires M4_MAX_OFFSET <= base && base + |data| < WORD && dict.Length == DICT_SIZE
    modifies out, dict
    ensures 3 <= outLen <= Bound(|data|)
    ensures ValidParse(data, toks) && Covered(toks) <= |data| && out[..outLen] == Compressed(data, toks)
    ensures Decompress(out[..outLen], outLen, |data|) == Decoded(Ok, data)
    ensures Overrunning(data) ==> outLen == 300 && CodeBuffer(|data|) == 299
    ensures Uniform(data) && |data| >= 19 ==> Saves(outLen, |data|) && outLen <= CodeBuffer(|data|)
    ensures if |data| > 13 then Found(data, base, old(dict[..]), toks) else toks == []
  {
    hide Encoded, ValidParse, AppendLiterals, Decompress, Compressed, Body, Overrunning, Blocks, Uniform, OneRun, Saves, CodeBuffer, Searched, Longest;
    if Overrunning(data) { OverrunningTotal(data); }
    var op, t;
    if |data| <= MAX_LEN_M2 + 5 {
      toks, op, t := [], 0, |data|;
      EmptyParse(data);
    } else {
      ghost var index;
      op, t, toks, index := DoCompress(data, base, out, dict);
    }
    op := EmitTail(data, toks, t, out, op);
    BodyThenMarker(data, toks);
    ghost var body := out[..op];
    op := PutByte(out, op, 17);
    op := PutByte(out, op, 0);
    op := PutByte(out, op, 0);
    assert body + [17] + [0] + [0] == body + EndMarker;
    outLen := op;
    RoundTrip(data, toks, out[..outLen], |data|);
    if Overrunning(data) { BufferTooSmall(data); }
    if Uniform(data) && |data| >= 19 { OneRunSize(data, toks); }
  }

  lemma {:induction false} EncodedEmpty(data: seq<byte>, toks: seq<Token>)
    requires ValidParse(data, toks)
    ensures |Encoded(data, toks)| == 0 <==> toks == []
  {
  }

  lemma {:induction false} NoLiterals(acc: seq<byte>, lits: seq<byte>)
    requires |lits| == 0
    ensures AppendLiterals(acc, lits) == acc
  {
  }

  lemma {:induction false} LongStart(data: seq<byte>)
    requires |data| > 238
    ensures AppendLiterals([], data) + EndMarker == LiteralStream(data)
  {
    hide LiteralHeader;
    assert [] + LiteralHeader(|data|) + data == LiteralHeader(|data|) + data;
  }
}
