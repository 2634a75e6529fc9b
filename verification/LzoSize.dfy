/** How large an encoding gets, and for which inputs the buffer of the record writer holds it. */
module LzoSize {
  import opened Bytes
  import opened LzoFormat

  lemma {:induction false} ExtensionSize(x: nat)
    requires x >= 1
    ensures |Extension(x)| == (x + 254) / 255
  {
    if x > 255 { ExtensionSize(x - 255); }
  }

  /** What a literal run costs beyond its own bytes. */
  function Overhead(t: nat): nat {
    if t <= 3 then 0 else if t <= 18 then 1 else 1 + (t + 236) / 255
  }

  lemma {:induction false} LiteralHeaderSize(t: nat)
    requires t >= 4
    ensures |LiteralHeader(t)| == Overhead(t)
  {
    if t > 18 { ExtensionSize(t - 18); }
  }

  lemma {:induction false} LiteralsSize(acc: seq<byte>, lits: seq<byte>)
    requires 1 <= |lits| <= 3 ==> |acc| >= 2
    ensures |AppendLiterals(acc, lits)| == |acc| + |lits| + Overhead(|lits|)
  {
    hide LiteralHeader;
    if |lits| >= 4 { LiteralHeaderSize(|lits|); }
  }

  /** Every match is at least one byte shorter than the text it replaces. */
  lemma {:induction false} MatchSaves(off: nat, len: nat)
    requires 1 <= off <= M4_MAX_OFFSET && len >= 3
    requires off > M2_MAX_OFFSET ==> len >= 4
    ensures |MatchBytes(off, len)| <= len - 1
  {
    if off <= M3_MAX_OFFSET && len > 33 { ExtensionSize(len - 33); }
    if off > M3_MAX_OFFSET && len > 9 { ExtensionSize(len - 9); }
  }

  lemma {:induction false} OverheadRate(t: nat)
    ensures 22 * Overhead(t) <= t + 25 && 16 * Overhead(t) <= t + 19
  {
  }

  /** One more literal run and match. */
  lemma {:induction false} ParseSnoc(data: seq<byte>, toks: seq<Token>, tok: Token)
    requires ValidParse(data, toks) && (toks == [] ==> tok.lit >= 4)
    requires ValidMatch(data, Covered(toks) + tok.lit, tok.off, tok.len)
    requires tok.off > M2_MAX_OFFSET ==> tok.len >= 4
    ensures var ts, c := toks + [tok], Covered(toks);
      && ValidParse(data, ts) && Covered(ts) == c + tok.lit + tok.len
      && Encoded(data, ts) == AppendLiterals(Encoded(data, toks), data[c..c + tok.lit]) + MatchBytes(tok.off, tok.len)
  {
    hide AppendLiterals, MatchBytes, ValidMatch;
    var ts := toks + [tok];
    assert ts[..|ts| - 1] == toks && ts[|ts| - 1] == tok;
  }

  /** The tokens cost at most one byte for every 22 they cover: the dearest ones are 19 literals, which
      need two bytes of header, and a match of three that saves one. */
  lemma {:induction false} EncodedSize(data: seq<byte>, toks: seq<Token>)
    requires ValidParse(data, toks)
    ensures 22 * |Encoded(data, toks)| <= 23 * Covered(toks)
  {
    hide AppendLiterals, MatchBytes, Overhead;
    if toks != [] {
      var init, last := toks[..|toks| - 1], toks[|toks| - 1];
      EncodedSize(data, init);
      MatchSaves(last.off, last.len);
      LiteralsSize(Encoded(data, init), data[Covered(init)..Covered(init) + last.lit]);
      OverheadRate(last.lit);
    }
  }

  /** The largest encoding of `n` bytes. */
  function MaxSize(n: nat): nat {
    if n < 19 then n + 4 else n + 5 + (n - 19) / 22
  }

  lemma {:induction false} TailFits(c: nat, t: nat)
    ensures c + c / 22 + t + Overhead(t) + 3 <= MaxSize(c + t)
  {
    if t <= 18 {
    } else if t <= 273 {
      assert Overhead(t) == 2;
    } else {
      assert Overhead(t) <= 2 + (t - 19) / 22;
      assert c / 22 + (t - 19) / 22 <= (c + t - 19) / 22;
    }
  }

  lemma {:induction false} LiteralStreamFits(data: seq<byte>)
    ensures |LiteralStream(data)| <= MaxSize(|data|)
  {
    if |data| > 238 { LiteralHeaderSize(|data|); }
  }

  /** The size of any encoding of any input. */
  lemma {:induction false} CompressedSize(data: seq<byte>, toks: seq<Token>)
    requires ValidParse(data, toks) && Covered(toks) <= |data|
    ensures |Compressed(data, toks)| <= MaxSize(|data|) <= |data| + |data| / 16 + 5
  {
    hide AppendLiterals, Encoded, LiteralStream, Overhead;
    if toks == [] {
      LiteralStreamFits(data);
    } else {
      EncodedSize(data, toks);
      LiteralsSize(Encoded(data, toks), data[Covered(toks)..]);
      TailFits(Covered(toks), |data| - Covered(toks));
    }
  }

  // ------------------------------------------------------------ inputs of short matches

  /** Where the matches of `ShortTokens` copy from: the first one `near` bytes back, the others `off`. */
  function OffsetAt(near: nat, off: nat, j: nat): nat { if j == 0 then near else off }

  /** `k` tokens of 19 literals and a match of three. */
  function ShortTokens(near: nat, off: nat, k: nat): (r: seq<Token>)
    ensures |r| == k
  {
    if k == 0 then [] else ShortTokens(near, off, k - 1) + [Token(19, OffsetAt(near, off, k - 1), 3)]
  }

  /** The last three bytes in every 22 repeat earlier ones. */
  ghost predicate Repeats(data: seq<byte>, near: nat, off: nat, k: nat) {
    && 1 <= near <= 19 && 1 <= off <= 41 && 22 * k <= |data|
    && forall j :: 0 <= j < k ==> RepeatsAt(data, 22 * j + 19, OffsetAt(near, off, j))
  }

  ghost predicate RepeatsAt(data: seq<byte>, p: nat, off: nat) {
    && off <= p && p + 3 <= |data|
    && data[p] == data[p - off] && data[p + 1] == data[p + 1 - off] && data[p + 2] == data[p + 2 - off]
  }

  lemma {:induction false} ShortMatch(data: seq<byte>, near: nat, off: nat, k: nat)
    requires Repeats(data, near, off, k) && k > 0
    ensures ValidMatch(data, 22 * k - 3, OffsetAt(near, off, k - 1), 3)
  {
    assert RepeatsAt(data, 22 * (k - 1) + 19, OffsetAt(near, off, k - 1));
  }

  /** Each of these tokens costs one byte more than it covers. */
  lemma {:induction false} ShortTokensSize(data: seq<byte>, near: nat, off: nat, k: nat)
    requires Repeats(data, near, off, k)
    ensures var toks := ShortTokens(near, off, k);
      ValidParse(data, toks) && Covered(toks) == 22 * k && |Encoded(data, toks)| == 23 * k
  {
    hide AppendLiterals, MatchBytes, Overhead, ValidMatch, Repeats;
    if k > 0 {
      var init, o := ShortTokens(near, off, k - 1), OffsetAt(near, off, k - 1);
      assert ShortTokens(near, off, k) == init + [Token(19, o, 3)];
      hide *;
      RepeatsLess(data, near, off, k);
      ShortTokensSize(data, near, off, k - 1);
      ShortMatch(data, near, off, k);
      ShortCosts(o);
      LiteralsSize(Encoded(data, init), data[22 * k - 22..22 * k - 3]);
      ParseSnoc(data, init, Token(19, o, 3));
    }
  }

  lemma {:induction false} ShortCosts(off: nat)
    requires 1 <= off <= 41
    ensures Overhead(19) == 2 && |MatchBytes(off, 3)| == 2
  {
  }

  lemma {:induction false} RepeatsLess(data: seq<byte>, near: nat, off: nat, k: nat)
    requires Repeats(data, near, off, k) && k > 0
    ensures Repeats(data, near, off, k - 1) && 1 <= OffsetAt(near, off, k - 1) <= 41 && 22 * k <= |data|
  {
  }

  /** With 19 to 273 literals left over, two bytes more and the end marker. */
  lemma {:induction false} ShortTokensStream(data: seq<byte>, near: nat, off: nat, k: nat)
    requires Repeats(data, near, off, k) && k > 0 && 19 <= |data| - 22 * k <= 273
    ensures var toks := ShortTokens(near, off, k);
      ValidParse(data, toks) && Covered(toks) <= |data| && |Compressed(data, toks)| == |data| + k + 5
  {
    hide AppendLiterals, Encoded, ValidParse, Covered, Repeats;
    ShortTokensSize(data, near, off, k);
    var toks := ShortTokens(near, off, k);
    LiteralsSize(Encoded(data, toks), data[Covered(toks)..]);
  }

  function Zeros(n: nat): (r: seq<byte>)
    ensures |r| == n && forall i :: 0 <= i < n ==> r[i] == 0
  {
    seq(n, _ => 0)
  }

  /** The bound is met: zero bytes cut into matches of three reach it, at every length from 41 on. */
  lemma {:induction false} MaxSizeIsMet(n: nat)
    requires n >= 41
    ensures var toks := ShortTokens(1, 1, (n - 19) / 22);
      ValidParse(Zeros(n), toks) && Covered(toks) <= n && |Compressed(Zeros(n), toks)| == MaxSize(n)
  {
    hide ValidParse, Compressed, Covered;
    ShortTokensStream(Zeros(n), 1, 1, (n - 19) / 22);
  }

  // ------------------------------------------------------------ the record writer's buffer

  /** What the record writer reserves for the compressed form of `n` bytes. */
  function CodeBuffer(n: nat): nat { n + 16 * (1 + n / 1024) }

  lemma {:induction false} BufferAgainstMax(n: nat)
    ensures MaxSize(n) <= CodeBuffer(n) <==> n <= 282
  {
    if n >= 1024 {
      var q := n / 1024;
      assert (n - 19) / 22 >= 45 * q;
    }
  }

  /** Every encoding of every input of `n` bytes fits the buffer exactly up to 282 bytes. */
  lemma {:induction false} BufferSuffices(n: nat)
    ensures (forall data, toks :: |data| == n && ValidParse(data, toks) && Covered(toks) <= n ==>
               |Compressed(data, toks)| <= CodeBuffer(n)) <==> n <= 282
  {
    hide ValidParse, Compressed, Covered, MaxSize, CodeBuffer;
    BufferAgainstMax(n);
    if n <= 282 {
      forall data, toks | |data| == n && ValidParse(data, toks) && Covered(toks) <= n
        ensures |Compressed(data, toks)| <= CodeBuffer(n)
      {
        CompressedSize(data, toks);
      }
    } else {
      MaxSizeIsMet(n);
    }
  }
}
