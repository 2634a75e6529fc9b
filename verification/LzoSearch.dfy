/** What the search for matches finds: at every position it looks at, what the dictionary made of the earlier
    positions tells it. */
module LzoSearch {
  import opened Bytes
  import opened LzoFormat
  import opened LzoDictionary
  import opened LzoOverrun

  /** An entry worth taking: three equal bytes, and four beyond M2's reach. */
  ghost predicate Takes(data: seq<byte>, ip: nat, off: nat)
    requires off <= ip && ip + 4 <= |data|
  {
    off > 0 && SamePrefix(data, ip, off, 3) && (off <= M2_MAX_OFFSET || data[ip + 3] == data[ip + 3 - off])
  }

  /** The outcome of the two probes: the first one decides unless its entry is far and the fourth byte differs. */
  ghost predicate Probed(data: seq<byte>, base: address, d: seq<address>, ip: nat, index: nat, off: nat)
    requires M4_MAX_OFFSET <= base && base + |data| < WORD && ip + 4 <= |data| && |d| == DICT_SIZE
  {
    var h := HashAt(data, ip);
    var near, far := CheckedOffset(base, ip, d[h]), CheckedOffset(base, ip, d[Index2(h)]);
    if near <= M2_MAX_OFFSET || data[ip + 3] == data[ip + 3 - near] then
      index == h && off == if Takes(data, ip, near) then near else 0
    else
      index == Index2(h) && off == if Takes(data, ip, far) then far else 0
  }

  /** What follows about an input as short as the reach of M2, or a near entry. */
  lemma {:induction false} ProbedNear(data: seq<byte>, base: address, d: seq<address>, ip: nat, index: nat, off: nat)
    requires M4_MAX_OFFSET <= base && base + |data| < WORD && ip + 4 <= |data| && |d| == DICT_SIZE
    requires Probed(data, base, d, ip, index, off)
    ensures ip <= M2_MAX_OFFSET ==> index == HashAt(data, ip)
    ensures off > 0 ==> off <= ip && SamePrefix(data, ip, off, 3)
    ensures var near := CheckedOffset(base, ip, d[HashAt(data, ip)]);
      0 < near <= M2_MAX_OFFSET && near <= ip && SamePrefix(data, ip, near, 3) ==> off == near
  {
    hide HashAt, Index2, CheckedOffset, SamePrefix;
  }

  // ------------------------------------------------------------ the search as a whole

  /** The position lies within a match, behind its first byte. */
  ghost predicate InMatch(toks: seq<Token>, p: nat) {
    toks != [] &&
    (var init, last := toks[..|toks| - 1], toks[|toks| - 1];
     Covered(init) + last.lit < p < Covered(toks) || InMatch(init, p))
  }

  /** The offset of the match that starts at the position, or zero. */
  ghost function OffAt(toks: seq<Token>, p: nat): nat {
    if toks == [] then 0
    else
      var init, last := toks[..|toks| - 1], toks[|toks| - 1];
      if p == Covered(init) + last.lit then last.off else OffAt(init, p)
  }

  /** The dictionary before position `p`: every position looked at before it was entered at its index. */
  ghost function DictAt(d: seq<address>, base: address, toks: seq<Token>, index: seq<nat>, p: nat): (r: seq<address>)
    requires |d| == DICT_SIZE && p <= |index| && base + |index| < WORD
    ensures |r| == DICT_SIZE
  {
    if p <= 4 then d
    else
      var before := DictAt(d, base, toks, index, p - 1);
      if InMatch(toks, p - 1) || index[p - 1] >= DICT_SIZE then before else before[index[p - 1] := base + p - 1]
  }

  /** Position `p` was looked at: a match was found there exactly as the two probes of that dictionary say. */
  ghost predicate SearchedAt(data: seq<byte>, base: address, d: seq<address>, toks: seq<Token>, index: seq<nat>, p: nat)
    requires M4_MAX_OFFSET <= base && base + |data| < WORD && |d| == DICT_SIZE && p < |index| <= |data|
  {
    && p + 4 <= |data| && index[p] < DICT_SIZE
    && Probed(data, base, DictAt(d, base, toks, index, p), p, index[p], OffAt(toks, p))
  }

  /** So it was at every position before `upto`, from the fifth byte on, that is not inside a match. */
  ghost predicate Searched(data: seq<byte>, base: address, d: seq<address>, toks: seq<Token>, index: seq<nat>)
    requires M4_MAX_OFFSET <= base && base + |data| < WORD && |d| == DICT_SIZE && |index| <= |data|
  {
    forall p :: 4 <= p < |index| && !InMatch(toks, p) ==> SearchedAt(data, base, d, toks, index, p)
  }

  /** The tokens are what the search finds, up to the last 13 bytes. */
  ghost predicate Found(data: seq<byte>, base: address, d: seq<address>, toks: seq<Token>)
    requires M4_MAX_OFFSET <= base && base + |data| < WORD && |d| == DICT_SIZE
  {
    Longest(data, toks) && exists index: seq<nat> :: |data| - 13 <= |index| <= |data| && Searched(data, base, d, toks, index)
  }

  /** Every match is as long as it can be. */
  ghost predicate Longest(data: seq<byte>, toks: seq<Token>) {
    toks != [] ==>
      var e, last := Covered(toks), toks[|toks| - 1];
      Longest(data, toks[..|toks| - 1]) && (last.off <= e < |data| ==> data[e] != data[e - last.off])
  }

  lemma {:induction false} LongestSnoc(data: seq<byte>, toks: seq<Token>, tok: Token)
    requires Longest(data, toks)
    requires var e := Covered(toks) + tok.lit + tok.len; tok.off <= e < |data| ==> data[e] != data[e - tok.off]
    ensures Longest(data, toks + [tok])
  {
    var ts := toks + [tok];
    assert ts[..|ts| - 1] == toks;
  }

  /** A token that starts at or behind `ip` changes nothing before. */
  lemma {:induction false} TokenBehind(toks: seq<Token>, tok: Token, p: nat)
    requires Covered(toks) + tok.lit >= p
    ensures InMatch(toks + [tok], p) == InMatch(toks, p)
    ensures Covered(toks) + tok.lit > p ==> OffAt(toks + [tok], p) == OffAt(toks, p)
    ensures Covered(toks) + tok.lit == p ==> OffAt(toks + [tok], p) == tok.off
  {
    assert (toks + [tok])[..|toks|] == toks;
  }

  lemma {:induction false} TokenOver(toks: seq<Token>, tok: Token, p: nat)
    requires Covered(toks) + tok.lit < p < Covered(toks) + tok.lit + tok.len
    ensures InMatch(toks + [tok], p)
  {
    var ts := toks + [tok];
    assert ts[..|ts| - 1] == toks;
  }

  /** Behind the last token nothing is inside a match, nor starts one. */
  lemma {:induction false} BehindTokens(data: seq<byte>, toks: seq<Token>, p: nat)
    requires ValidParse(data, toks) && p >= Covered(toks)
    ensures !InMatch(toks, p) && OffAt(toks, p) == 0
    decreases |toks|
  {
    if toks != [] { BehindTokens(data, toks[..|toks| - 1], p); }
  }

  /** The dictionary depends on what came before only. */
  lemma {:induction false} DictSame(d: seq<address>, base: address, toks: seq<Token>, index: seq<nat>,
                                    toks': seq<Token>, index': seq<nat>, p: nat)
    requires |d| == DICT_SIZE && p <= |index| && p <= |index'| && base + |index| < WORD && base + |index'| < WORD
    requires forall q: nat :: q < p ==> index'[q] == index[q] && InMatch(toks', q) == InMatch(toks, q)
    ensures DictAt(d, base, toks', index', p) == DictAt(d, base, toks, index, p)
  {
    hide InMatch;
    if p > 4 { DictSame(d, base, toks, index, toks', index', p - 1); }
  }

  lemma {:induction false} DictStep(d: seq<address>, base: address, toks: seq<Token>, index: seq<nat>, p: nat)
    requires |d| == DICT_SIZE && 4 <= p < |index| && base + |index| < WORD && !InMatch(toks, p) && index[p] < DICT_SIZE
    ensures DictAt(d, base, toks, index, p + 1) == DictAt(d, base, toks, index, p)[index[p] := base + p]
  {
    hide InMatch;
  }

  /** Positions inside a match leave the dictionary as it is. */
  lemma {:induction false} DictKept(d: seq<address>, base: address, toks: seq<Token>, index: seq<nat>, p: nat, end: nat)
    requires |d| == DICT_SIZE && 4 <= p <= end <= |index| && base + |index| < WORD
    requires forall q: nat :: p <= q < end ==> InMatch(toks, q)
    ensures DictAt(d, base, toks, index, end) == DictAt(d, base, toks, index, p)
  {
    hide InMatch;
    if p < end { DictKept(d, base, toks, index, p, end - 1); }
  }

  lemma {:induction false} SearchedStart(data: seq<byte>, base: address, d: seq<address>, index: seq<nat>)
    requires M4_MAX_OFFSET <= base && base + |data| < WORD && |d| == DICT_SIZE && |index| == 4 <= |data|
    ensures Searched(data, base, d, [], index) && DictAt(d, base, [], index, 4) == d
  {
  }

  lemma {:induction false} SearchedKept(data: seq<byte>, base: address, d: seq<address>, toks: seq<Token>, index: seq<nat>,
                                        toks': seq<Token>, index': seq<nat>)
    requires M4_MAX_OFFSET <= base && base + |data| < WORD && |d| == DICT_SIZE && |index| <= |index'| <= |data|
    requires Searched(data, base, d, toks, index) && index <= index'
    requires forall q: nat :: q < |index| ==> InMatch(toks', q) == InMatch(toks, q) && OffAt(toks', q) == OffAt(toks, q)
    ensures forall p :: 4 <= p < |index| && !InMatch(toks', p) ==> SearchedAt(data, base, d, toks', index', p)
  {
    hide InMatch, OffAt, Probed, DictAt;
    forall p | 4 <= p < |index| && !InMatch(toks', p) ensures SearchedAt(data, base, d, toks', index', p) {
      assert SearchedAt(data, base, d, toks, index, p);
      assert forall q: nat :: q < p ==> index'[q] == index[q];
      DictSame(d, base, toks, index, toks', index', p);
    }
  }

  lemma {:induction false} SearchLiteral(data: seq<byte>, base: address, d: seq<address>, toks: seq<Token>, index: seq<nat>, i: nat)
    requires M4_MAX_OFFSET <= base && base + |data| < WORD && |d| == DICT_SIZE && 4 <= |index| && |index| + 4 <= |data|
    requires ValidParse(data, toks) && Covered(toks) <= |index| && Searched(data, base, d, toks, index) && i < DICT_SIZE
    requires Probed(data, base, DictAt(d, base, toks, index, |index|), |index|, i, 0)
    ensures Searched(data, base, d, toks, index + [i])
    ensures DictAt(d, base, toks, index + [i], |index| + 1) == DictAt(d, base, toks, index, |index|)[i := base + |index|]
  {
    hide InMatch, OffAt, Probed, DictAt, ValidParse, Covered;
    var p, index' := |index|, index + [i];
    BehindTokens(data, toks, p);
    DictSame(d, base, toks, index, toks, index', p);
    DictStep(d, base, toks, index', p);
    SearchedKept(data, base, d, toks, index, toks, index');
    assert SearchedAt(data, base, d, toks, index', p);
  }

  lemma {:induction false} SearchMatch(data: seq<byte>, base: address, d: seq<address>, toks: seq<Token>, index: seq<nat>, i: nat,
                                       tok: Token, index': seq<nat>)
    requires M4_MAX_OFFSET <= base && base + |data| < WORD && |d| == DICT_SIZE && 4 <= |index| && |index| + 4 <= |data|
    requires ValidParse(data, toks) && Covered(toks) + tok.lit == |index| && Searched(data, base, d, toks, index) && i < DICT_SIZE
    requires Probed(data, base, DictAt(d, base, toks, index, |index|), |index|, i, tok.off)
    requires index + [i] <= index' && |index'| == |index| + tok.len <= |data|
    ensures Searched(data, base, d, toks + [tok], index')
    ensures DictAt(d, base, toks + [tok], index', |index'|) == DictAt(d, base, toks, index, |index|)[i := base + |index|]
  {
    hide InMatch, OffAt, Probed, DictAt, ValidParse, Covered;
    var p, toks', end := |index|, toks + [tok], |index'|;
    assert index' [p] == i by { assert (index + [i])[p] == i; }
    assert index <= index';
    forall q: nat | q < p ensures InMatch(toks', q) == InMatch(toks, q) && OffAt(toks', q) == OffAt(toks, q) {
      TokenBehind(toks, tok, q);
    }
    TokenBehind(toks, tok, p);
    BehindTokens(data, toks, p);
    forall q: nat | p < q < end ensures InMatch(toks', q) { TokenOver(toks, tok, q); }
    DictSame(d, base, toks, index, toks', index', p);
    DictStep(d, base, toks', index', p);
    DictKept(d, base, toks', index', p + 1, end);
    SearchedKept(data, base, d, toks, index, toks', index');
    assert SearchedAt(data, base, d, toks', index', p);
  }
}
