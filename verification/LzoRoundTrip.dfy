/** Decoding undoes encoding for every valid parse of every input, and the encoding is small. */
module LzoRoundTrip {
  import opened Bytes
  import opened LzoFormat

  // ------------------------------------------------------------ bytes in memory

  /** `mem` holds `bytes` at address `p`. */
  ghost predicate Holds(mem: seq<byte>, p: nat, bytes: seq<byte>) {
    p + |bytes| <= |mem| && forall i :: 0 <= i < |bytes| ==> mem[p + i] == bytes[i]
  }

  /** `mem` holds `bytes` at address `p`, up to the two low bits of the last byte but one:
      the bits that count the literals behind a match. */
  ghost predicate HoldsMatch(mem: seq<byte>, p: nat, bytes: seq<byte>) {
    && |bytes| >= 2
    && p + |bytes| <= |mem|
    && forall i :: 0 <= i < |bytes| ==>
         mem[p + i] / 4 == bytes[i] / 4 && (i != |bytes| - 2 ==> mem[p + i] == bytes[i])
  }

  lemma {:induction false} HoldsConcat(mem: seq<byte>, p: nat, a: seq<byte>, b: seq<byte>)
    requires Holds(mem, p, a + b)
    ensures Holds(mem, p, a) && Holds(mem, p + |a|, b)
  {
    forall i | 0 <= i < |a| ensures mem[p + i] == a[i] { assert (a + b)[i] == a[i]; }
    forall i | 0 <= i < |b| ensures mem[p + |a| + i] == b[i] {
      assert (a + b)[|a| + i] == b[i];
      assert mem[p + (|a| + i)] == b[i];
    }
  }

  lemma {:induction false} HoldsMatchConcat(mem: seq<byte>, p: nat, a: seq<byte>, m: seq<byte>)
    requires |m| >= 2 && HoldsMatch(mem, p, a + m)
    ensures Holds(mem, p, a) && HoldsMatch(mem, p + |a|, m)
  {
    forall i | 0 <= i < |a| ensures mem[p + i] == a[i] { assert (a + m)[i] == a[i]; }
    forall i | 0 <= i < |m|
      ensures mem[p + |a| + i] / 4 == m[i] / 4 && (i != |m| - 2 ==> mem[p + |a| + i] == m[i])
    {
      assert (a + m)[|a| + i] == m[i];
      assert mem[p + (|a| + i)] == mem[p + |a| + i];
    }
  }

  // ------------------------------------------------------------ matches

  lemma {:induction false} ReadLengthExtension(mem: seq<byte>, n: nat, ip: nat, t: nat, bias: nat, x: nat)
    requires x >= 1 && ip + |Extension(x)| <= n && Holds(mem, ip, Extension(x))
    ensures ReadLength(mem, n, ip, t, bias) == Length(t + bias + x, ip + |Extension(x)|)
    decreases x
  {
    assert mem[ip + 0] == Extension(x)[0];
    if x > 255 {
      HoldsConcat(mem, ip, [0], Extension(x - 255));
      ReadLengthExtension(mem, n, ip + 1, t + 255, bias, x - 255);
    }
  }

  /** A match copies exactly the text it stands for. */
  lemma {:induction false} CopyMatchRepeats(data: seq<byte>, p: nat, off: nat, len: nat)
    requires 1 <= off <= p && p + len <= |data|
    requires forall k :: p <= k < p + len ==> data[k] == data[k - off]
    ensures CopyMatch(data[..p], off, len) == data[..p + len]
    decreases len
  {
    if len > 0 {
      assert data[..p][p - off] == data[p];
      assert data[..p] + [data[p]] == data[..p + 1];
      CopyMatchRepeats(data, p + 1, off, len - 1);
    }
  }

  /** The first byte of an M2 match, whatever its two low bits. */
  lemma {:induction false} NearMatchByte(b: byte, o: nat, len: nat)
    requires o < M2_MAX_OFFSET && 3 <= len <= 8
    requires b / 4 == ((len - 1) * 32 + o % 8 * 4) / 4
    ensures b >= 64 && (b / 4) % 8 == o % 8 && b / 32 == len - 1
  {
    assert b / 4 == (len - 1) * 8 + o % 8;
    assert b / 32 == b / 4 / 8;
  }

  lemma {:induction false} NearMatchStep(mem: seq<byte>, n: nat, cap: nat, p: nat, out: seq<byte>, off: nat, len: nat)
    requires 1 <= off <= |out| && off <= M2_MAX_OFFSET && 3 <= len <= 8 && |out| + len <= cap
    requires HoldsMatch(mem, p, MatchBytes(off, len)) && p + 2 <= n
    ensures |MatchBytes(off, len)| == 2 && mem[p] >= 16
    ensures NextMatch(mem, n, cap, mem[p], p + 1, out) == Go(State(MatchDone, p + 2, CopyMatch(out, off, len)))
  {
    hide Progress, NextMatch, CopyMatch;
    var m := MatchBytes(off, len);
    assert m == [(len - 1) * 32 + (off - 1) % 8 * 4, (off - 1) / 8];
    assert mem[p + 0] / 4 == m[0] / 4 && mem[p + 1] == m[1];
    hide MatchBytes, HoldsMatch;
    NearMatchByte(mem[p], off - 1, len);
    M2Next(mem, n, cap, mem[p], p + 1, out);
    assert off - 1 == (off - 1) / 8 * 8 + (off - 1) % 8;
  }

  lemma {:induction false} M2Next(mem: seq<byte>, n: nat, cap: nat, t: byte, ip: nat, out: seq<byte>)
    requires 64 <= t && 1 <= ip <= n && |out| <= cap
    ensures NextMatch(mem, n, cap, t, ip, out) == DoCopy(cap, ip + 1, out, 1 + (t / 4) % 8 + 8 * Peek(mem, ip), t / 32 + 1)
  {
    hide ReadLength, Offset14, DoCopy, Progress;
  }

  /** The length field of an M3 or M4 match: three or five bits, or zero and an extension. */
  lemma {:induction false} LengthField(mem: seq<byte>, n: nat, p: nat, marker: byte, field: nat, v: nat, head: seq<byte>)
    requires (field == 7 || field == 31) && v >= 1 && marker + field < 256
    requires head == if v <= field then [marker + v] else [marker] + Extension(v - field)
    requires p + |head| <= n && Holds(mem, p, head)
    ensures mem[p] == if v <= field then marker + v else marker
    ensures v > field ==> ReadLength(mem, n, p + 1, 0, field) == Length(v, p + |head|)
  {
    assert mem[p + 0] == head[0];
    if v > field {
      HoldsConcat(mem, p, [marker], Extension(v - field));
      ReadLengthExtension(mem, n, p + 1, 0, field, v - field);
    }
  }

  lemma {:induction false} SplitFar(mem: seq<byte>, p: nat, head: seq<byte>, o: nat)
    requires o < 0x4000 && HoldsMatch(mem, p, head + OffsetBytes(o))
    ensures Holds(mem, p, head) && Offset14(mem, p + |head|) == o
  {
    HoldsMatchConcat(mem, p, head, OffsetBytes(o));
    var q := p + |head|;
    assert mem[q + 0] / 4 == OffsetBytes(o)[0] / 4 && mem[q + 1] == OffsetBytes(o)[1];
  }

  lemma {:induction false} M3Next(mem: seq<byte>, n: nat, cap: nat, t: byte, ip: nat, out: seq<byte>, r: Length)
    requires 32 <= t < 64 && 1 <= ip <= n && |out| <= cap
    requires r == if t % 32 == 0 then ReadLength(mem, n, ip, 0, 31) else Length(t % 32, ip)
    requires r.Length?
    ensures NextMatch(mem, n, cap, t, ip, out) == DoCopy(cap, r.ip + 2, out, 1 + Offset14(mem, r.ip), r.t + 2)
  {
    hide ReadLength, Offset14, DoCopy, Progress;
  }

  lemma {:induction false} M4Next(mem: seq<byte>, n: nat, cap: nat, t: byte, ip: nat, out: seq<byte>, r: Length, off: nat)
    requires 16 <= t < 32 && 1 <= ip <= n && |out| <= cap
    requires r == if t % 8 == 0 then ReadLength(mem, n, ip, 0, 7) else Length(t % 8, ip)
    requires r.Length? && off == (t / 8) % 2 * 0x4000 + Offset14(mem, r.ip) && off > 0
    ensures NextMatch(mem, n, cap, t, ip, out) == DoCopy(cap, r.ip + 2, out, off + 0x4000, r.t + 2)
  {
    hide ReadLength, Offset14, DoCopy, Progress;
  }

  function M3Head(len: nat): (r: seq<byte>)
    requires len >= 3
  {
    if len - 2 <= 31 then [32 + (len - 2)] else [32] + Extension(len - 2 - 31)
  }

  lemma {:induction false} M3MarkerByte(b: byte, v: nat)
    requires v <= 31 && b == 32 + v
    ensures 32 <= b < 64 && b % 32 == v
  {
  }

  lemma {:induction false} M3Step(mem: seq<byte>, n: nat, cap: nat, p: nat, out: seq<byte>, off: nat, len: nat)
    requires 1 <= off <= |out| && off <= M3_MAX_OFFSET && 3 <= len && |out| + len <= cap
    requires HoldsMatch(mem, p, M3Head(len) + OffsetBytes(off - 1)) && p + |M3Head(len)| + 2 <= n
    ensures 32 <= mem[p] < 64
    ensures NextMatch(mem, n, cap, mem[p], p + 1, out)
            == Go(State(MatchDone, p + |M3Head(len)| + 2, CopyMatch(out, off, len)))
  {
    hide NextMatch, ReadLength, Extension, Holds, HoldsMatch, Progress;
    var head := M3Head(len);
    SplitFar(mem, p, head, off - 1);
    LengthField(mem, n, p, 32, 31, len - 2, head);
    assert len - 2 <= 31 ==> |head| == 1;
    hide M3Head;
    M3MarkerByte(mem[p], if len - 2 <= 31 then len - 2 else 0);
    M3Next(mem, n, cap, mem[p], p + 1, out, Length(len - 2, p + |head|));
  }

  lemma {:induction false} M4MarkerByte(b: byte, hi: nat, v: nat)
    requires hi < 2 && v <= 7 && b == 16 + hi * 8 + v
    ensures 16 <= b < 32 && b % 8 == v && (b / 8) % 2 == hi
  {
    assert b / 8 == 2 + hi;
  }

  function M4Head(hi: nat, len: nat): (r: seq<byte>)
    requires len >= 3 && hi < 2
  {
    if len - 2 <= 7 then [16 + hi * 8 + (len - 2)] else [16 + hi * 8] + Extension(len - 2 - 7)
  }

  lemma {:induction false} M4Step(mem: seq<byte>, n: nat, cap: nat, p: nat, out: seq<byte>, hi: nat, lo: nat, len: nat, head: seq<byte>)
    requires hi < 2 && lo < 0x4000 && 1 <= hi * 0x4000 + lo && hi * 0x4000 + lo + 0x4000 <= |out|
    requires 3 <= len && |out| + len <= cap && head == M4Head(hi, len)
    requires HoldsMatch(mem, p, head + OffsetBytes(lo)) && p + |head| + 2 <= n
    ensures 16 <= mem[p] < 32
    ensures NextMatch(mem, n, cap, mem[p], p + 1, out)
            == Go(State(MatchDone, p + |head| + 2, CopyMatch(out, hi * 0x4000 + lo + 0x4000, len)))
  {
    hide NextMatch, ReadLength, Extension, Holds, HoldsMatch, Progress, CopyMatch, OffsetBytes;
    SplitFar(mem, p, head, lo);
    LengthField(mem, n, p, 16 + hi * 8, 7, len - 2, head);
    M4MarkerByte(mem[p], hi, if len - 2 <= 7 then len - 2 else 0);
    assert len - 2 <= 7 ==> |head| == 1;
    hide M4Head;
    M4Next(mem, n, cap, mem[p], p + 1, out, Length(len - 2, p + |head|), hi * 0x4000 + lo);
  }

  /** The three layouts of a match. */
  lemma {:induction false} MatchLayout(off: nat, len: nat)
    requires 1 <= off <= M4_MAX_OFFSET && len >= 3
    ensures len <= 8 && off <= M2_MAX_OFFSET ==>
              MatchBytes(off, len) == [(len - 1) * 32 + (off - 1) % 8 * 4, (off - 1) / 8]
    ensures (len > 8 || off > M2_MAX_OFFSET) && off <= M3_MAX_OFFSET ==>
              MatchBytes(off, len) == M3Head(len) + OffsetBytes(off - 1)
    ensures off > M3_MAX_OFFSET ==>
              var o := off - 0x4000;
              o / 0x4000 < 2 && MatchBytes(off, len) == M4Head(o / 0x4000, len) + OffsetBytes(o % 0x4000)
  {
    hide Extension;
  }

  /** From the first byte of a match to the label behind it. */
  lemma {:induction false} MatchStep(mem: seq<byte>, n: nat, cap: nat, p: nat, data: seq<byte>, ii: nat, off: nat, len: nat)
    requires ValidMatch(data, ii, off, len) && |data| <= cap
    requires HoldsMatch(mem, p, MatchBytes(off, len)) && p + |MatchBytes(off, len)| <= n
    ensures mem[p] >= 16
    ensures Run(mem, n, cap, State(Match(mem[p]), p + 1, data[..ii]))
            == Run(mem, n, cap, State(MatchDone, p + |MatchBytes(off, len)|, data[..ii + len]))
  {
    hide NextMatch, MatchBytes, M3Head, M4Head, CopyMatch, Progress;
    MatchLayout(off, len);
    CopyMatchRepeats(data, ii, off, len);
    if len <= 8 && off <= M2_MAX_OFFSET {
      NearMatchStep(mem, n, cap, p, data[..ii], off, len);
    } else if off <= M3_MAX_OFFSET {
      M3Step(mem, n, cap, p, data[..ii], off, len);
    } else {
      var o := off - 0x4000;
      M4Step(mem, n, cap, p, data[..ii], o / 0x4000, o % 0x4000, len, M4Head(o / 0x4000, len));
    }
    assert Next(mem, n, cap, State(Match(mem[p]), p + 1, data[..ii]))
        == Go(State(MatchDone, p + |MatchBytes(off, len)|, data[..ii + len]));
  }

  // ------------------------------------------------------------ the short matches of other encoders

  /** M1: an offset of ten bits, with room for a literal count. */
  function M1Bytes(o: nat): (r: seq<byte>)
    requires o < 1024
  {
    [o % 4 * 4, o / 4]
  }

  lemma {:induction false} M1Read(mem: seq<byte>, p: nat, o: nat)
    requires o < 1024 && HoldsMatch(mem, p, M1Bytes(o))
    ensures p + 1 < |mem| && mem[p] < 16 && mem[p] / 4 + 4 * Peek(mem, p + 1) == o
  {
    assert mem[p + 0] / 4 == M1Bytes(o)[0] / 4 && mem[p + 1] == M1Bytes(o)[1];
    assert o == o / 4 * 4 + o % 4;
  }

  /** Behind few literals it stands for two bytes from up to 1024 back. */
  lemma {:induction false} PairStep(mem: seq<byte>, n: nat, cap: nat, p: nat, out: seq<byte>, o: nat)
    requires o < 1024 && o + 1 <= |out| && |out| + 2 <= cap && p + 2 <= n && HoldsMatch(mem, p, M1Bytes(o))
    ensures NextMatch(mem, n, cap, mem[p], p + 1, out) == Go(State(MatchDone, p + 2, CopyMatch(out, o + 1, 2)))
  {
    hide M1Bytes, HoldsMatch, CopyMatch, ReadLength, Offset14, Progress;
    M1Read(mem, p, o);
  }

  /** Behind a literal run it stands for three bytes from beyond M2's reach. */
  lemma {:induction false} TripleStep(mem: seq<byte>, n: nat, cap: nat, p: nat, out: seq<byte>, o: nat)
    requires o < 1024 && o + 1 + M2_MAX_OFFSET <= |out| && |out| + 3 <= cap && p < n && HoldsMatch(mem, p, M1Bytes(o))
    ensures NextAfterLiterals(mem, n, cap, p, out) == Go(State(MatchDone, p + 2, CopyMatch(out, o + 1 + M2_MAX_OFFSET, 3)))
  {
    hide M1Bytes, HoldsMatch, CopyMatch, Progress;
    M1Read(mem, p, o);
    assert Peek(mem, p) == mem[p];
    assert 1 + M2_MAX_OFFSET + mem[p] / 4 + 4 * Peek(mem, p + 1) == o + 1 + M2_MAX_OFFSET;
  }

  // ------------------------------------------------------------ literal runs

  lemma {:induction false} LiteralsAre(mem: seq<byte>, p: nat, lits: seq<byte>)
    requires Holds(mem, p, lits)
    ensures Literals(mem, p, |lits|) == lits
  {
  }

  lemma {:induction false} LiteralHeaderRead(mem: seq<byte>, n: nat, p: nat, t: nat)
    requires t >= 4 && Holds(mem, p, LiteralHeader(t)) && p + |LiteralHeader(t)| <= n
    ensures mem[p] == if t <= 18 then t - 3 else 0
    ensures t <= 18 ==> |LiteralHeader(t)| == 1
    ensures t > 18 ==> ReadLength(mem, n, p + 1, 0, 15) == Length(t - 3, p + |LiteralHeader(t)|)
  {
    assert mem[p + 0] == LiteralHeader(t)[0];
    if t > 18 {
      HoldsConcat(mem, p, [0], Extension(t - 18));
      ReadLengthExtension(mem, n, p + 1, 0, 15, t - 18);
    }
  }

  /** A first byte of at most 17 starts the main loop. */
  lemma {:induction false} StartsAtTop(mem: seq<byte>, n: nat, cap: nat)
    requires n >= 1 && Peek(mem, 0) <= 17
    ensures Decompress(mem, n, cap) == Run(mem, n, cap, State(Top, 0, []))
  {
    hide NextTop, Progress;
    assert Next(mem, n, cap, State(Start, 0, [])) == Go(State(Top, 0, []));
  }

  lemma {:induction false} TopReadsRun(mem: seq<byte>, n: nat, cap: nat, p: nat, out: seq<byte>, lits: seq<byte>)
    requires |lits| >= 4 && p <= n + 2 && |out| + |lits| <= cap
    requires Holds(mem, p, LiteralHeader(|lits|) + lits)
    requires p + |LiteralHeader(|lits|)| + |lits| < n
    ensures NextTop(mem, n, cap, p, out)
            == Go(State(AfterLiterals, p + |LiteralHeader(|lits|)| + |lits|, out + lits))
  {
    var hdr := LiteralHeader(|lits|);
    hide LiteralHeader, Progress, ReadLength;
    HoldsConcat(mem, p, hdr, lits);
    LiteralHeaderRead(mem, n, p, |lits|);
    LiteralsAre(mem, p + |hdr|, lits);
  }

  /** A literal run with a header, read at the top of the loop and followed by the byte of a match. */
  lemma {:induction false} LiteralRunStep(mem: seq<byte>, n: nat, cap: nat, p: nat, out: seq<byte>, lits: seq<byte>)
    requires |lits| >= 4
    requires p <= n + 2 && |out| + |lits| <= cap
    requires Holds(mem, p, LiteralHeader(|lits|) + lits)
    requires var q := p + |LiteralHeader(|lits|)| + |lits|; q < n && q < |mem| && mem[q] >= 16
    ensures var q := p + |LiteralHeader(|lits|)| + |lits|;
            Run(mem, n, cap, State(Top, p, out)) == Run(mem, n, cap, State(Match(mem[q]), q + 1, out + lits))
  {
    hide LiteralHeader, Progress, NextTop, NextMatch, Holds;
    TopReadsRun(mem, n, cap, p, out, lits);
    var q := p + |LiteralHeader(|lits|)| + |lits|;
    assert Next(mem, n, cap, State(Top, p, out)) == Go(State(AfterLiterals, q, out + lits));
    assert Next(mem, n, cap, State(AfterLiterals, q, out + lits)) == Go(State(Match(mem[q]), q + 1, out + lits));
  }

  lemma {:induction false} FewLiteralsStep(mem: seq<byte>, n: nat, cap: nat, p: nat, out: seq<byte>, lits: seq<byte>)
    requires 1 <= p && 1 <= |lits| <= 3 && |out| + |lits| <= cap
    requires Holds(mem, p, lits) && p + |lits| + 1 < n && p + |lits| < |mem|
    ensures var q := p + |lits|;
            Run(mem, n, cap, State(MatchNext(|lits|), p, out))
            == Run(mem, n, cap, State(Match(mem[q]), q + 1, out + lits))
  {
    hide Progress, NextMatch;
    LiteralsAre(mem, p, lits);
    var q := p + |lits|;
    assert Next(mem, n, cap, State(MatchNext(|lits|), p, out)) == Go(State(Match(mem[q]), q + 1, out + lits));
  }

  /** Behind a match the decoder looks at the literal count stored in it. */
  lemma {:induction false} MatchDoneStep(mem: seq<byte>, n: nat, cap: nat, p: nat, out: seq<byte>)
    requires 2 <= p <= n && p <= |mem| && |out| <= cap
    ensures var t := mem[p - 2] % 4;
            Run(mem, n, cap, State(MatchDone, p, out))
            == Run(mem, n, cap, State(if t == 0 then Top else MatchNext(t), p, out))
  {
    hide Progress, NextMatchNext, NextTop;
  }

  /** Literals after a match, however they are stored, up to the byte of the next match. */
  lemma {:induction false} LiteralsBehindMatch(mem: seq<byte>, n: nat, cap: nat, out: seq<byte>, lits: seq<byte>, acc: seq<byte>)
    requires |acc| >= 2 && |out| + |lits| <= cap
    requires acc[|acc| - 2] % 4 == 0
    requires Holds(mem, 0, AppendLiterals(acc, lits))
    requires var q := |AppendLiterals(acc, lits)|; q + 1 < n && q < |mem| && mem[q] >= 16
    ensures var q := |AppendLiterals(acc, lits)|;
            Run(mem, n, cap, State(MatchDone, |acc|, out)) == Run(mem, n, cap, State(Match(mem[q]), q + 1, out + lits))
  {
    hide Run, LiteralHeader;
    var p := |acc|;
    var all := AppendLiterals(acc, lits);
    assert mem[0 + (p - 2)] == all[p - 2];
    MatchDoneStep(mem, n, cap, p, out);
    if |lits| == 0 {
      assert out + lits == out;
      TopReadsMatch(mem, n, cap, p, out);
    } else if |lits| <= 3 {
      HoldsConcat(mem, 0, acc[p - 2 := OrLow(acc[p - 2], |lits|)], lits);
      FewLiteralsStep(mem, n, cap, p, out, lits);
    } else {
      assert acc + LiteralHeader(|lits|) + lits == acc + (LiteralHeader(|lits|) + lits);
      HoldsConcat(mem, 0, acc, LiteralHeader(|lits|) + lits);
      LiteralRunStep(mem, n, cap, p, out, lits);
    }
  }

  lemma {:induction false} TopReadsMatch(mem: seq<byte>, n: nat, cap: nat, p: nat, out: seq<byte>)
    requires p < n && p < |mem| && mem[p] >= 16 && |out| <= cap
    ensures Run(mem, n, cap, State(Top, p, out)) == Run(mem, n, cap, State(Match(mem[p]), p + 1, out))
  {
    hide Progress, NextMatch;
    assert Next(mem, n, cap, State(Top, p, out)) == Go(State(Match(mem[p]), p + 1, out));
  }

  // ------------------------------------------------------------ token lists

  lemma {:induction false} LowBitsZero(off: nat, len: nat)
    requires 1 <= off <= M4_MAX_OFFSET && len >= 3
    ensures var m := MatchBytes(off, len); m[|m| - 2] % 4 == 0
  {
    hide Extension;
  }

  /** After every match the last byte but one has room for a literal count. */
  lemma {:induction false} EncodedLowBits(data: seq<byte>, toks: seq<Token>)
    requires ValidParse(data, toks) && toks != []
    ensures var e := Encoded(data, toks); e[|e| - 2] % 4 == 0
  {
    hide MatchBytes, AppendLiterals;
    var last := toks[|toks| - 1];
    LowBitsZero(last.off, last.len);
  }

  /** Splitting the memory of a token list at its last match. */
  lemma {:induction false} SplitAtMatch(mem: seq<byte>, acc: seq<byte>, lits: seq<byte>)
    requires |acc| >= 2 && Holds(mem, 0, AppendLiterals(acc, lits))
    ensures HoldsMatch(mem, 0, acc)
  {
    hide LiteralHeader;
    var a := AppendLiterals(acc, lits);
    forall i | 0 <= i < |acc|
      ensures mem[0 + i] / 4 == acc[i] / 4 && (i != |acc| - 2 ==> mem[0 + i] == acc[i])
    {
      assert mem[0 + i] == a[i];
    }
  }

  /** From behind one match to behind the next, over the literals between them. */
  lemma {:induction false} TokenStep(data: seq<byte>, ii: nat, tok: Token, acc: seq<byte>, mem: seq<byte>, n: nat, cap: nat)
    requires |acc| >= 2 && acc[|acc| - 2] % 4 == 0 && |data| <= cap
    requires ValidMatch(data, ii + tok.lit, tok.off, tok.len)
    requires var a := AppendLiterals(acc, data[ii..ii + tok.lit]) + MatchBytes(tok.off, tok.len);
             HoldsMatch(mem, 0, a) && |a| <= n
    ensures HoldsMatch(mem, 0, acc) && |acc| <= n
    ensures var a := AppendLiterals(acc, data[ii..ii + tok.lit]) + MatchBytes(tok.off, tok.len);
            Run(mem, n, cap, State(MatchDone, |acc|, data[..ii]))
            == Run(mem, n, cap, State(MatchDone, |a|, data[..ii + tok.lit + tok.len]))
  {
    hide Run, Next, MatchBytes, LiteralHeader, Holds;
    var p := ii + tok.lit;
    var lits, m := data[ii..p], MatchBytes(tok.off, tok.len);
    var a := AppendLiterals(acc, lits);
    assert |acc| <= |a|;
    HoldsMatchConcat(mem, 0, a, m);
    SplitAtMatch(mem, acc, lits);
    MatchStep(mem, n, cap, |a|, data, p, tok.off, tok.len);
    assert data[..ii] + lits == data[..p];
    LiteralsBehindMatch(mem, n, cap, data[..ii], lits, acc);
  }

  /** From the start over the first literal run, which has its own header. */
  lemma {:induction false} FirstTokenStep(data: seq<byte>, tok: Token, mem: seq<byte>, n: nat, cap: nat)
    requires tok.lit >= 4 && |data| <= cap
    requires ValidMatch(data, tok.lit, tok.off, tok.len)
    requires var a := AppendLiterals([], data[0..tok.lit]) + MatchBytes(tok.off, tok.len);
             HoldsMatch(mem, 0, a) && |a| <= n
    ensures var a := AppendLiterals([], data[0..tok.lit]) + MatchBytes(tok.off, tok.len);
            Decompress(mem, n, cap) == Run(mem, n, cap, State(MatchDone, |a|, data[..tok.lit + tok.len]))
  {
    hide Run, MatchBytes, LiteralHeader, Decompress, HoldsMatch, AppendLiterals;
    var lits := data[0..tok.lit];
    FirstRunHeader(lits);
    assert lits == data[..tok.lit];
    FirstRunThenMatch(data, tok, mem, n, cap, lits, AppendLiterals([], lits), MatchBytes(tok.off, tok.len));
  }

  lemma {:induction false} FirstRunHeader(lits: seq<byte>)
    requires |lits| >= 4
    ensures AppendLiterals([], lits) == LiteralHeader(|lits|) + lits
  {
    hide LiteralHeader;
    assert [] + LiteralHeader(|lits|) == LiteralHeader(|lits|);
  }

  lemma {:induction false} FirstRunThenMatch(data: seq<byte>, tok: Token, mem: seq<byte>, n: nat, cap: nat,
                                             lits: seq<byte>, a: seq<byte>, m: seq<byte>)
    requires tok.lit >= 4 && |data| <= cap && ValidMatch(data, tok.lit, tok.off, tok.len)
    requires lits == data[..tok.lit] && a == LiteralHeader(|lits|) + lits && m == MatchBytes(tok.off, tok.len)
    requires HoldsMatch(mem, 0, a + m) && |a + m| <= n
    ensures Decompress(mem, n, cap) == Run(mem, n, cap, State(MatchDone, |a + m|, data[..tok.lit + tok.len]))
  {
    hide Run, MatchBytes, LiteralHeader, Decompress, Holds, HoldsMatch;
    HoldsMatchConcat(mem, 0, a, m);
    MatchStep(mem, n, cap, |a|, data, tok.lit, tok.off, tok.len);
    MatchInMemory(mem, |a|, m);
    FirstRunStep(mem, n, cap, lits);
  }

  lemma {:induction false} MatchInMemory(mem: seq<byte>, p: nat, m: seq<byte>)
    requires HoldsMatch(mem, p, m) && m != []
    ensures p < |mem|
  {
  }

  /** From the start over a literal run with a header to the byte of the match behind it. */
  lemma {:induction false} FirstRunStep(mem: seq<byte>, n: nat, cap: nat, lits: seq<byte>)
    requires |lits| >= 4 && |lits| <= cap && Holds(mem, 0, LiteralHeader(|lits|) + lits)
    requires var q := |LiteralHeader(|lits|)| + |lits|; q < n && q < |mem| && mem[q] >= 16
    ensures var q := |LiteralHeader(|lits|)| + |lits|;
      Decompress(mem, n, cap) == Run(mem, n, cap, State(Match(mem[q]), q + 1, lits))
  {
    hide Run, Next, LiteralHeader, Decompress, Holds;
    var hdr := LiteralHeader(|lits|);
    HoldsConcat(mem, 0, hdr, lits);
    FirstByteOf(mem, hdr);
    LiteralHeaderRead(mem, n, 0, |lits|);
    StartsAtTop(mem, n, cap);
    LiteralRunStep(mem, n, cap, 0, [], lits);
    assert [] + lits == lits;
  }

  lemma {:induction false} FirstByteOf(mem: seq<byte>, hdr: seq<byte>)
    requires Holds(mem, 0, hdr)
    ensures |hdr| <= |mem|
  {
  }

  /** The decoder arrives behind the last match having reproduced everything the tokens cover,
      whatever literal count is stored in that match and whatever follows. */
  lemma {:induction false} TokensDecode(data: seq<byte>, toks: seq<Token>, mem: seq<byte>, n: nat, cap: nat)
    requires ValidParse(data, toks) && toks != [] && Covered(toks) <= |data| <= cap
    requires HoldsMatch(mem, 0, Encoded(data, toks)) && |Encoded(data, toks)| <= n
    ensures Decompress(mem, n, cap)
            == Run(mem, n, cap, State(MatchDone, |Encoded(data, toks)|, data[..Covered(toks)]))
  {
    hide Run, Next, MatchBytes, AppendLiterals, HoldsMatch, Decompress;
    var init, last := toks[..|toks| - 1], toks[|toks| - 1];
    if init == [] {
      FirstTokenStep(data, last, mem, n, cap);
    } else {
      EncodedLowBits(data, init);
      TokenStep(data, Covered(init), last, Encoded(data, init), mem, n, cap);
      TokensDecode(data, init, mem, n, cap);
    }
  }

  // ------------------------------------------------------------ whole streams

  lemma {:induction false} EndMarkerHalts(mem: seq<byte>, n: nat, cap: nat, q: nat, out: seq<byte>)
    requires q + 3 == n && Holds(mem, q, EndMarker) && |out| <= cap
    ensures mem[q] == 17
    ensures Run(mem, n, cap, State(Match(mem[q]), q + 1, out)) == Decoded(Ok, out)
  {
    hide Progress;
    assert mem[q + 0] == EndMarker[0] && mem[q + 1] == EndMarker[1] && mem[q + 2] == EndMarker[2];
    assert NextMatch(mem, n, cap, 17, q + 1, out) == Halt(Ok, out);
  }

  lemma {:induction false} EmptyStream(mem: seq<byte>, cap: nat)
    requires Holds(mem, 0, EndMarker)
    ensures Decompress(mem, 3, cap) == Decoded(Ok, [])
  {
    hide Run, Next, Decompress;
    EndMarkerHalts(mem, 3, cap, 0, []);
    StartsAtTop(mem, 3, cap);
    TopReadsMatch(mem, 3, cap, 0, []);
  }

  /** A first byte above 17 counts literals: four or more run on to a match byte. */
  lemma {:induction false} StartCountsLiterals(mem: seq<byte>, n: nat, cap: nat, lits: seq<byte>)
    requires 1 <= |lits| <= 238 && |lits| <= cap && |lits| + 2 < n
    requires Holds(mem, 0, [17 + |lits|] + lits) && 1 + |lits| < |mem| && mem[1 + |lits|] >= 16
    ensures Decompress(mem, n, cap) == Run(mem, n, cap, State(Match(mem[1 + |lits|]), |lits| + 2, lits))
  {
    hide Progress, NextMatch, NextTop, NextMatchNext;
    HoldsConcat(mem, 0, [17 + |lits|], lits);
    assert mem[0 + 0] == [17 + |lits|][0];
    LiteralsAre(mem, 1, lits);
    var q := 1 + |lits|;
    if |lits| >= 4 {
      assert Next(mem, n, cap, State(Start, 0, [])) == Go(State(AfterLiterals, q, lits));
      assert Next(mem, n, cap, State(AfterLiterals, q, lits)) == Go(State(Match(mem[q]), q + 1, lits));
      assert Run(mem, n, cap, State(AfterLiterals, q, lits)) == Run(mem, n, cap, State(Match(mem[q]), q + 1, lits));
    } else {
      FewLiteralsStep(mem, n, cap, 1, [], lits);
      assert [] + lits == lits;
      assert Next(mem, n, cap, State(Start, 0, [])) == Go(State(MatchNext(|lits|), 1, []));
    }
  }

  /** A stream without any match. */
  lemma {:induction false} LiteralStreamDecodes(data: seq<byte>, mem: seq<byte>, cap: nat)
    requires Holds(mem, 0, LiteralStream(data)) && |data| <= cap
    ensures Decompress(mem, |LiteralStream(data)|, cap) == Decoded(Ok, data)
  {
    hide Run, Next, Decompress, LiteralHeader, Holds;
    if data == [] {
      EmptyStream(mem, cap);
    } else if |data| <= 238 {
      var a := [17 + |data|] + data;
      HoldsConcat(mem, 0, a, EndMarker);
      EndMarkerHalts(mem, |a| + 3, cap, |a|, data);
      StartCountsLiterals(mem, |a| + 3, cap, data);
    } else {
      LongLiteralStream(data, mem, cap);
    }
  }

  lemma {:induction false} LongLiteralStream(data: seq<byte>, mem: seq<byte>, cap: nat)
    requires 238 < |data| <= cap
    requires Holds(mem, 0, LiteralHeader(|data|) + data + EndMarker)
    ensures Decompress(mem, |LiteralHeader(|data|)| + |data| + 3, cap) == Decoded(Ok, data)
  {
    hide Run, Next, Decompress, LiteralHeader;
    var a := LiteralHeader(|data|) + data;
    HoldsConcat(mem, 0, a, EndMarker);
    HoldsConcat(mem, 0, LiteralHeader(|data|), data);
    EndMarkerHalts(mem, |a| + 3, cap, |a|, data);
    LiteralHeaderRead(mem, |a| + 3, 0, |data|);
    StartsAtTop(mem, |a| + 3, cap);
    LiteralRunStep(mem, |a| + 3, cap, 0, [], data);
    assert [] + data == data;
  }

  /** Behind the last match: the remaining literals and the end marker. */
  lemma {:induction false} TailDecodes(data: seq<byte>, ii: nat, acc: seq<byte>, mem: seq<byte>, cap: nat)
    requires ii <= |data| <= cap && |acc| >= 2 && acc[|acc| - 2] % 4 == 0
    requires Holds(mem, 0, AppendLiterals(acc, data[ii..]) + EndMarker)
    ensures HoldsMatch(mem, 0, acc)
    ensures Run(mem, |AppendLiterals(acc, data[ii..])| + 3, cap, State(MatchDone, |acc|, data[..ii])) == Decoded(Ok, data)
  {
    hide Run, Next, AppendLiterals, Holds;
    var lits := data[ii..];
    var a := AppendLiterals(acc, lits);
    HoldsConcat(mem, 0, a, EndMarker);
    SplitAtMatch(mem, acc, lits);
    AppendLiteralsGrows(acc, lits);
    EndMarkerHalts(mem, |a| + 3, cap, |a|, data);
    LiteralsBehindMatch(mem, |a| + 3, cap, data[..ii], lits, acc);
    assert data[..ii] + lits == data;
  }

  lemma {:induction false} AppendLiteralsGrows(acc: seq<byte>, lits: seq<byte>)
    requires |acc| >= 2
    ensures |acc| <= |AppendLiterals(acc, lits)|
  {
  }

  /** Round trip: whatever way the input is cut into literals and matches, the decoder returns
      OK with exactly the input, consumes the whole stream, needs no more than the input's own
      length of capacity and looks at nothing behind the stream. */
  lemma {:induction false} RoundTrip(data: seq<byte>, toks: seq<Token>, mem: seq<byte>, cap: nat)
    requires ValidParse(data, toks) && Covered(toks) <= |data|
    requires Holds(mem, 0, Compressed(data, toks)) && |data| <= cap
    ensures |Compressed(data, toks)| >= 3
    ensures Decompress(mem, |Compressed(data, toks)|, cap) == Decoded(Ok, data)
  {
    hide Run, Decompress, AppendLiterals, LiteralStream, Holds, HoldsMatch;
    if toks == [] {
      LiteralStreamLength(data);
      LiteralStreamDecodes(data, mem, cap);
    } else {
      var acc := Encoded(data, toks);
      EncodedLowBits(data, toks);
      TailDecodes(data, Covered(toks), acc, mem, cap);
      AppendLiteralsGrows(acc, data[Covered(toks)..]);
      TokensDecode(data, toks, mem, |Compressed(data, toks)|, cap);
    }
  }

  lemma {:induction false} LiteralStreamLength(data: seq<byte>)
    ensures |LiteralStream(data)| >= 3
  {
  }

  /** The end marker is a far match of offset zero; no encoded match, with any literal count
      stored in it, reads as the end marker. */
  lemma {:induction false} NoMatchIsEndMarker(off: nat, len: nat, mem: seq<byte>, p: nat)
    requires 1 <= off <= M4_MAX_OFFSET && len >= 3
    requires HoldsMatch(mem, p, MatchBytes(off, len))
    ensures mem[p] != EndMarker[0] || Offset14(mem, p + 1) != 0
  {
    hide MatchBytes, M3Head, M4Head;
    MatchLayout(off, len);
    if len <= 8 && off <= M2_MAX_OFFSET {
      NearIsNotMarker(mem, p, off - 1, len);
    } else if off <= M3_MAX_OFFSET {
      M3IsNotMarker(mem, p, off - 1, len);
    } else {
      var o := off - 0x4000;
      M4IsNotMarker(mem, p, o / 0x4000, o % 0x4000, len);
    }
  }

  lemma {:induction false} NearIsNotMarker(mem: seq<byte>, p: nat, o: nat, len: nat)
    requires o < M2_MAX_OFFSET && 3 <= len <= 8
    requires HoldsMatch(mem, p, [(len - 1) * 32 + o % 8 * 4, o / 8])
    ensures mem[p] >= 64
  {
    var m: seq<byte> := [(len - 1) * 32 + o % 8 * 4, o / 8];
    assert mem[p + 0] / 4 == m[0] / 4;
  }

  lemma {:induction false} M3IsNotMarker(mem: seq<byte>, p: nat, o: nat, len: nat)
    requires o < M3_MAX_OFFSET && len >= 3 && HoldsMatch(mem, p, M3Head(len) + OffsetBytes(o))
    ensures mem[p] >= 32
  {
    hide Extension, OffsetBytes;
    SplitFar(mem, p, M3Head(len), o);
    assert mem[p + 0] == M3Head(len)[0];
  }

  lemma {:induction false} M4IsNotMarker(mem: seq<byte>, p: nat, hi: nat, lo: nat, len: nat)
    requires hi < 2 && lo < 0x4000 && hi * 0x4000 + lo > 0 && len >= 3
    requires HoldsMatch(mem, p, M4Head(hi, len) + OffsetBytes(lo))
    ensures mem[p] != 17 || Offset14(mem, p + 1) != 0
  {
    hide Extension, OffsetBytes, Offset14;
    var head := M4Head(hi, len);
    SplitFar(mem, p, head, lo);
    assert mem[p + 0] == head[0];
    if len - 2 <= 7 && hi == 0 { assert |head| == 1; }
  }
}
