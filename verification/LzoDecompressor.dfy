/** lzo1x_decompress_safe over buffers: every write is in bounds for every input, the four-byte
    copies equal byte-by-byte copying, and the result is that of the decoder's state machine. */
module LzoDecompressor {
  import opened Bytes
  import opened LzoFormat

  // ------------------------------------------------------------ copying

  /** COPY4 from the input. */
  method CopyFourIn(mem: seq<byte>, ip: nat, out: array<byte>, op: nat)
    requires op + 4 <= out.Length
    modifies out
    ensures out[..op + 4] == old(out[..op]) + Literals(mem, ip, 4)
  {
    var w := Literals(mem, ip, 4);
    out[op], out[op + 1], out[op + 2], out[op + 3] := w[0], w[1], w[2], w[3];
    assert out[..op] == old(out[..op]);
    assert out[op..op + 4] == w;
    assert out[..op + 4] == out[..op] + out[op..op + 4];
  }

  /** The run `ip..ip + a + b` is the run of `a` followed by the run of `b`. */
  lemma {:induction false} LiteralsConcat(mem: seq<byte>, ip: nat, a: nat, b: nat)
    ensures Literals(mem, ip, a + b) == Literals(mem, ip, a) + Literals(mem, ip + a, b)
  {
  }

  /** Copy a literal run of `t + 3` bytes, four at a time while four remain. */
  method CopyRun(mem: seq<byte>, ip: nat, out: array<byte>, op: nat, t: nat)
    requires t >= 1 && op + t + 3 <= out.Length
    modifies out
    ensures out[..op + t + 3] == old(out[..op]) + Literals(mem, ip, t + 3)
  {
    hide Literals;
    CopyFourIn(mem, ip, out, op);
    var done, left := 4, t - 1;
    while left >= 4
      invariant done + left == t + 3
      invariant out[..op + done] == old(out[..op]) + Literals(mem, ip, done)
    {
      CopyFourIn(mem, ip + done, out, op + done);
      LiteralsConcat(mem, ip, done, 4);
      done, left := done + 4, left - 4;
    }
    CopyBytes(mem, ip + done, out, op + done, left);
    LiteralsConcat(mem, ip, done, left);
  }

  method CopyBytes(mem: seq<byte>, ip: nat, out: array<byte>, op: nat, count: nat)
    requires op + count <= out.Length
    modifies out
    ensures out[..op + count] == old(out[..op]) + Literals(mem, ip, count)
  {
    var done := 0;
    while done < count
      invariant done <= count
      invariant out[..op + done] == old(out[..op]) + Literals(mem, ip, done)
    {
      ghost var before := out[..op + done];
      out[op + done] := Peek(mem, ip + done);
      assert out[..op + done + 1] == before + [Peek(mem, ip + done)];
      LiteralsConcat(mem, ip, done, 1);
      assert Literals(mem, ip + done, 1) == [Peek(mem, ip + done)];
      done := done + 1;
    }
  }

  /** Four bytes loaded at once are the next four bytes of a match at least four back. */
  lemma {:induction false} CopyMatchFour(s: seq<byte>, off: nat, len: nat)
    requires 4 <= off <= |s| && len >= 4
    ensures CopyMatch(s, off, len) == CopyMatch(s + s[|s| - off..|s| - off + 4], off, len - 4)
  {
    hide CopyMatch;
    CopyMatchTwo(s, off, len);
    var k := |s| - off;
    var s2 := s + s[k..k + 2];
    CopyMatchTwo(s2, off, len - 2);
    assert s2[k + 2..k + 4] == s[k + 2..k + 4];
    assert s2 + s[k + 2..k + 4] == s + s[k..k + 4];
  }

  lemma {:induction false} CopyMatchTwo(s: seq<byte>, off: nat, len: nat)
    requires 2 <= off <= |s| && len >= 2
    ensures CopyMatch(s, off, len) == CopyMatch(s + s[|s| - off..|s| - off + 2], off, len - 2)
  {
    var k := |s| - off;
    CopyMatchOne(s, off, len);
    var s1 := s + [s[k]];
    CopyMatchOne(s1, off, len - 1);
    hide CopyMatch;
    assert s1 + [s1[k + 1]] == s + s[k..k + 2];
  }

  lemma {:induction false} CopyMatchOne(s: seq<byte>, off: nat, len: nat)
    requires 1 <= off <= |s| && len >= 1
    ensures CopyMatch(s, off, len) == CopyMatch(s + [s[|s| - off]], off, len - 1)
  {
  }

  method CopyFourBack(out: array<byte>, op: nat, off: nat)
    requires 4 <= off <= op && op + 4 <= out.Length
    modifies out
    ensures out[..op + 4] == old(out[..op]) + old(out[op - off..op - off + 4])
  {
    var m := op - off;
    var w := out[m..m + 4];
    out[op], out[op + 1], out[op + 2], out[op + 3] := w[0], w[1], w[2], w[3];
    assert out[..op] == old(out[..op]);
    assert out[op..op + 4] == w;
    assert out[..op + 4] == out[..op] + out[op..op + 4];
  }

  /** One word of a match. */
  method CopyFourOfMatch(out: array<byte>, op: nat, off: nat, len: nat)
    requires 4 <= off <= op && op + 4 <= out.Length && len >= 4
    modifies out
    ensures CopyMatch(out[..op + 4], off, len - 4) == CopyMatch(old(out[..op]), off, len)
  {
    hide CopyMatch;
    ghost var before := out[..op];
    assert before[|before| - off..|before| - off + 4] == out[op - off..op - off + 4];
    CopyMatchFour(before, off, len);
    CopyFourBack(out, op, off);
  }

  method CopyByteBack(out: array<byte>, op: nat, off: nat, len: nat)
    requires 1 <= off <= op < out.Length && len >= 1
    modifies out
    ensures CopyMatch(out[..op + 1], off, len - 1) == CopyMatch(old(out[..op]), off, len)
  {
    hide CopyMatch;
    ghost var before := out[..op];
    var b := out[op - off];
    assert b == before[|before| - off];
    CopyMatchOne(before, off, len);
    out[op] := b;
    assert out[..op + 1] == before + [b];
  }

  method CopyBytesBack(out: array<byte>, op: nat, off: nat, len: nat)
    requires 1 <= off <= op && op + len <= out.Length
    modifies out
    ensures out[..op + len] == CopyMatch(old(out[..op]), off, len)
  {
    hide CopyMatch;
    var done := 0;
    while done < len
      invariant done <= len
      invariant CopyMatch(out[..op + done], off, len - done) == CopyMatch(old(out[..op]), off, len)
    {
      CopyByteBack(out, op + done, off, len - done);
      done := done + 1;
    }
  }

  /** Copy a match: four bytes at a time when it is at least eight long and four back. */
  method CopyBack(out: array<byte>, op: nat, off: nat, len: nat)
    requires 1 <= off <= op && op + len <= out.Length && len >= 2
    modifies out
    ensures out[..op + len] == CopyMatch(old(out[..op]), off, len)
  {
    hide CopyMatch;
    var done := 0;
    if len - 2 >= 6 && off >= 4 {
      while len - done >= 4
        invariant done <= len
        invariant CopyMatch(out[..op + done], off, len - done) == CopyMatch(old(out[..op]), off, len)
      {
        CopyFourOfMatch(out, op + done, off, len - done);
        done := done + 4;
      }
    }
    CopyBytesBack(out, op + done, off, len - done);
  }

  // ------------------------------------------------------------ steps

  method ScanLength(mem: seq<byte>, n: nat, ip: nat, bias: nat) returns (r: Length)
    requires ip <= n
    ensures r == ReadLength(mem, n, ip, 0, bias)
  {
    var t, p := 0, ip;
    while p < n && Peek(mem, p) == 0
      invariant ip <= p <= n
      invariant ReadLength(mem, n, p, t, bias) == ReadLength(mem, n, ip, 0, bias)
    {
      t, p := t + 255, p + 1;
    }
    if p == n { return Overrun; }
    return Length(t + bias + Peek(mem, p), p + 1);
  }

  /** What a step did to the buffers: stop with a status, or continue at a label. */
  datatype Outcome = Stop(status: Status) | Jump(mode: Mode)

  /** `out[..op]` and `ip` are what the state machine's step `r` says. */
  ghost predicate Matches(r: Step, o: Outcome, ip: nat, out: seq<byte>) {
    match o
    case Stop(status) => r == Halt(status, out)
    case Jump(mode) => r == Go(State(mode, ip, out))
  }

  /** Look-behind and capacity tests, then the copy; only M3 and M4 matches copy words. */
  method StepCopy(cap: nat, out: array<byte>, op: nat, ip: nat, off: nat, len: nat, words: bool) returns (o: Outcome, op': nat)
    requires 1 <= off && len >= 2 && op <= cap <= out.Length
    modifies out
    ensures op' <= cap
    ensures Matches(DoCopy(cap, ip, old(out[..op]), off, len), o, ip, out[..op'])
  {
    op' := op;
    if off > op { return Stop(LookbehindOverrun), op; }
    if cap < op + len { return Stop(OutputOverrun), op; }
    if words { CopyBack(out, op, off, len); } else { CopyBytesBack(out, op, off, len); }
    return Jump(MatchDone), op + len;
  }

  method StepStart(mem: seq<byte>, n: nat, cap: nat, out: array<byte>) returns (o: Outcome, ip: nat, op: nat)
    requires n >= 1 && cap <= out.Length
    modifies out
    ensures op <= cap
    ensures Matches(NextStart(mem, n, cap), o, ip, out[..op])
  {
    ip, op := 0, 0;
    var b := Peek(mem, 0);
    if b <= 17 { return Jump(Top), 0, 0; }
    if b - 17 < 4 { return Jump(MatchNext(b - 17)), 1, 0; }
    if cap < b - 17 { return Stop(OutputOverrun), 1, 0; }
    if LacksInput(n, 1, b - 16) { return Stop(InputOverrun), 1, 0; }
    CopyBytes(mem, 1, out, 0, b - 17);
    assert [] + Literals(mem, 1, b - 17) == Literals(mem, 1, b - 17);
    return Jump(AfterLiterals), 1 + (b - 17), b - 17;
  }

  method StepTop(mem: seq<byte>, n: nat, cap: nat, ip: nat, out: array<byte>, op: nat)
    returns (o: Outcome, ip': nat, op': nat)
    requires n >= 1 && ip <= n + 2 && op <= cap <= out.Length
    modifies out
    ensures op' <= cap
    ensures Matches(NextTop(mem, n, cap, ip, old(out[..op])), o, ip', out[..op'])
  {
    hide Literals, ReadLength, Progress;
    ip', op' := ip, op;
    if ip >= n { return Stop(EofNotFound), ip, op; }
    var b := Peek(mem, ip);
    if b >= 16 { return Jump(Match(b)), ip + 1, op; }
    var r := Length(b, ip + 1);
    if b == 0 { r := ScanLength(mem, n, ip + 1, 15); }
    if r.Overrun? { return Stop(InputOverrun), ip, op; }
    if cap < op + r.t + 3 { return Stop(OutputOverrun), ip, op; }
    if LacksInput(n, r.ip, r.t + 4) { return Stop(InputOverrun), ip, op; }
    assert r.t >= 1 by { if b == 0 { ReadLengthPositive(mem, n, ip + 1, 0, 15); } }
    CopyRun(mem, r.ip, out, op, r.t);
    return Jump(AfterLiterals), r.ip + r.t + 3, op + r.t + 3;
  }

  lemma {:induction false} ReadLengthPositive(mem: seq<byte>, n: nat, ip: nat, t: nat, bias: nat)
    requires ip <= n && bias >= 1 && ReadLength(mem, n, ip, t, bias).Length?
    ensures ReadLength(mem, n, ip, t, bias).t >= 1
    decreases n - ip
  {
    if ip < n && Peek(mem, ip) == 0 { ReadLengthPositive(mem, n, ip + 1, t + 255, bias); }
  }

  method StepAfterLiterals(mem: seq<byte>, n: nat, cap: nat, ip: nat, out: array<byte>, op: nat)
    returns (o: Outcome, ip': nat, op': nat)
    requires ip < n && op <= cap <= out.Length
    modifies out
    ensures op' <= cap
    ensures Matches(NextAfterLiterals(mem, n, cap, ip, old(out[..op])), o, ip', out[..op'])
  {
    hide DoCopy, Progress;
    var b := Peek(mem, ip);
    if b >= 16 { return Jump(Match(b)), ip + 1, op; }
    ip' := ip + 2;
    o, op' := StepCopy(cap, out, op, ip', 1 + M2_MAX_OFFSET + b / 4 + 4 * Peek(mem, ip + 1), 3, false);
  }

  method StepM3(mem: seq<byte>, n: nat, cap: nat, t: byte, ip: nat, out: array<byte>, op: nat)
    returns (o: Outcome, ip': nat, op': nat)
    requires 32 <= t < 64 && 1 <= ip <= n && op <= cap <= out.Length
    modifies out
    ensures op' <= cap
    ensures Matches(NextMatch(mem, n, cap, t, ip, old(out[..op])), o, ip', out[..op'])
  {
    hide ReadLength, DoCopy, Progress;
    ip', op' := ip, op;
    var r := Length(t % 32, ip);
    if t % 32 == 0 { r := ScanLength(mem, n, ip, 31); }
    if r.Overrun? { return Stop(InputOverrun), ip, op; }
    ip' := r.ip + 2;
    o, op' := StepCopy(cap, out, op, ip', 1 + Offset14(mem, r.ip), r.t + 2, true);
  }

  method StepM4(mem: seq<byte>, n: nat, cap: nat, t: byte, ip: nat, out: array<byte>, op: nat)
    returns (o: Outcome, ip': nat, op': nat)
    requires 16 <= t < 32 && 1 <= ip <= n && op <= cap <= out.Length
    modifies out
    ensures op' <= cap
    ensures Matches(NextMatch(mem, n, cap, t, ip, old(out[..op])), o, ip', out[..op'])
  {
    hide ReadLength, DoCopy, Progress;
    ip', op' := ip, op;
    var r := Length(t % 8, ip);
    if t % 8 == 0 { r := ScanLength(mem, n, ip, 7); }
    if r.Overrun? { return Stop(InputOverrun), ip, op; }
    ip' := r.ip + 2;
    var off := (t / 8) % 2 * 0x4000 + Offset14(mem, r.ip);
    if off == 0 {
      return Stop(if ip' == n then Ok else if ip' < n then InputNotConsumed else InputOverrun), ip', op;
    }
    o, op' := StepCopy(cap, out, op, ip', off + 0x4000, r.t + 2, true);
  }

  method StepMatch(mem: seq<byte>, n: nat, cap: nat, t: byte, ip: nat, out: array<byte>, op: nat)
    returns (o: Outcome, ip': nat, op': nat)
    requires 1 <= ip <= n && op <= cap <= out.Length
    modifies out
    ensures op' <= cap
    ensures Matches(NextMatch(mem, n, cap, t, ip, old(out[..op])), o, ip', out[..op'])
  {
    hide ReadLength, DoCopy, Progress;
    if t >= 64 {
      ip' := ip + 1;
      o, op' := StepCopy(cap, out, op, ip', 1 + (t / 4) % 8 + 8 * Peek(mem, ip), t / 32 + 1, false);
    } else if t >= 32 {
      o, ip', op' := StepM3(mem, n, cap, t, ip, out, op);
    } else if t >= 16 {
      o, ip', op' := StepM4(mem, n, cap, t, ip, out, op);
    } else {
      ip' := ip + 1;
      o, op' := StepCopy(cap, out, op, ip', 1 + t / 4 + 4 * Peek(mem, ip), 2, false);
    }
  }

  method StepMatchNext(mem: seq<byte>, n: nat, cap: nat, t: nat, ip: nat, out: array<byte>, op: nat)
    returns (o: Outcome, ip': nat, op': nat)
    requires n >= 1 && 1 <= t <= 3 && 1 <= ip <= n + 2 && op <= cap <= out.Length
    modifies out
    ensures op' <= cap
    ensures Matches(NextMatchNext(mem, n, cap, t, ip, old(out[..op])), o, ip', out[..op'])
  {
    hide Literals, Progress;
    ip', op' := ip, op;
    if cap < op + t { return Stop(OutputOverrun), ip, op; }
    if LacksInput(n, ip, t + 1) { return Stop(InputOverrun), ip, op; }
    CopyBytes(mem, ip, out, op, t);
    if ip + t + 1 < n { return Jump(Match(Peek(mem, ip + t))), ip + t + 1, op + t; }
    return Stop(EofNotFound), ip + t + 1, op + t;
  }

  /** The decoder. `mem` is the readable memory, its first `n` bytes the input; `cap` bytes of
      `out` may be written. The result is the state machine's, for every input. */
  method DecompressSafe(mem: seq<byte>, n: nat, out: array<byte>, cap: nat) returns (status: Status, outLen: nat)
    requires n >= 1 && cap <= out.Length
    modifies out
    ensures outLen <= cap
    ensures Decoded(status, out[..outLen]) == Decompress(mem, n, cap)
  {
    hide NextStart, NextTop, NextAfterLiterals, NextMatch, NextMatchNext, Progress;
    var mode, ip, op := Start, 0, 0;
    assert out[..0] == [];
    while true
      invariant op <= cap
      invariant StateOk(n, cap, State(mode, ip, out[..op]))
      invariant Run(mem, n, cap, State(mode, ip, out[..op])) == Decompress(mem, n, cap)
      decreases n + 2 - ip, Rank(mode)
    {
      ghost var s := State(mode, ip, out[..op]);
      ghost var next := Next(mem, n, cap, s);
      NextProgress(mem, n, cap, s);
      var o;
      match mode {
        case Start => o, ip, op := StepStart(mem, n, cap, out);
        case Top => o, ip, op := StepTop(mem, n, cap, ip, out, op);
        case AfterLiterals => o, ip, op := StepAfterLiterals(mem, n, cap, ip, out, op);
        case Match(t) => o, ip, op := StepMatch(mem, n, cap, t, ip, out, op);
        case MatchDone =>
          var t := Peek(mem, ip - 2) % 4;
          o := Jump(if t == 0 then Top else MatchNext(t));
        case MatchNext(t) => o, ip, op := StepMatchNext(mem, n, cap, t, ip, out, op);
      }
      assert Matches(next, o, ip, out[..op]);
      if o.Stop? { return o.status, op; }
      mode := o.mode;
    }
  }

  lemma {:induction false} NextProgress(mem: seq<byte>, n: nat, cap: nat, s: State)
    requires StateOk(n, cap, s)
    ensures var r := Next(mem, n, cap, s);
      r.Go? ==> StateOk(n, cap, r.next) &&
                (r.next.ip > s.ip || (r.next.ip == s.ip && Rank(r.next.mode) < Rank(s.mode)))
  {
    hide NextStart, NextTop, NextAfterLiterals, NextMatch, NextMatchNext;
  }
}
