/** What the safe decoder makes of the memory behind its input. */
module LzoLocality {
  import opened Bytes
  import opened LzoFormat

  /** Two memories that hold the same input of `n` bytes. */
  ghost predicate Agree(mem: seq<byte>, mem': seq<byte>, n: nat) {
    forall i :: 0 <= i < n ==> Peek(mem, i) == Peek(mem', i)
  }

  lemma {:induction false} SameLength(mem: seq<byte>, mem': seq<byte>, n: nat, ip: nat, t: nat, bias: nat)
    requires Agree(mem, mem', n) && ip <= n
    ensures ReadLength(mem, n, ip, t, bias) == ReadLength(mem', n, ip, t, bias)
    decreases n - ip
  {
    if ip < n { SameLength(mem, mem', n, ip + 1, t + 255, bias); }
  }

  lemma {:induction false} SameLiterals(mem: seq<byte>, mem': seq<byte>, n: nat, ip: nat, count: nat)
    requires Agree(mem, mem', n) && ip + count <= n
    ensures Literals(mem, ip, count) == Literals(mem', ip, count)
  {
  }

  /** The step goes on within the input, or ends well. */
  predicate Within(n: nat, r: Step) {
    match r
    case Go(s) => s.ip <= n
    case Halt(status, _) => status == Ok
  }

  lemma {:induction false} SameStart(mem: seq<byte>, mem': seq<byte>, n: nat, cap: nat)
    requires Agree(mem, mem', n) && n >= 1 && Within(n, NextStart(mem, n, cap))
    ensures NextStart(mem', n, cap) == NextStart(mem, n, cap)
  {
    hide Literals, Progress;
    assert Peek(mem, 0) == Peek(mem', 0);
    var count := Peek(mem, 0) - 17;
    if count >= 4 && 1 + count <= n { SameLiterals(mem, mem', n, 1, count); }
  }

  lemma {:induction false} SameTop(mem: seq<byte>, mem': seq<byte>, n: nat, cap: nat, ip: nat, out: seq<byte>)
    requires Agree(mem, mem', n) && StateOk(n, cap, State(Top, ip, out)) && Within(n, NextTop(mem, n, cap, ip, out))
    ensures NextTop(mem', n, cap, ip, out) == NextTop(mem, n, cap, ip, out)
  {
    hide Literals, ReadLength, Progress;
    if ip < n {
      SameLength(mem, mem', n, ip + 1, 0, 15);
      var b := Peek(mem, ip);
      var r := if b == 0 then ReadLength(mem, n, ip + 1, 0, 15) else Length(b, ip + 1);
      if r.Length? && r.ip + r.t + 3 <= n { SameLiterals(mem, mem', n, r.ip, r.t + 3); }
    }
  }

  lemma {:induction false} SameAfterLiterals(mem: seq<byte>, mem': seq<byte>, n: nat, cap: nat, ip: nat, out: seq<byte>)
    requires Agree(mem, mem', n) && StateOk(n, cap, State(AfterLiterals, ip, out))
    requires Within(n, NextAfterLiterals(mem, n, cap, ip, out))
    ensures NextAfterLiterals(mem', n, cap, ip, out) == NextAfterLiterals(mem, n, cap, ip, out)
  {
    hide CopyMatch, Progress;
  }

  lemma {:induction false} SameNear(mem: seq<byte>, mem': seq<byte>, n: nat, cap: nat, t: byte, ip: nat, out: seq<byte>)
    requires Agree(mem, mem', n) && StateOk(n, cap, State(Match(t), ip, out)) && Within(n, NextMatch(mem, n, cap, t, ip, out))
    requires t >= 64 || t < 16
    ensures NextMatch(mem', n, cap, t, ip, out) == NextMatch(mem, n, cap, t, ip, out)
  {
    hide CopyMatch, ReadLength, Offset14, Progress;
    if ip < n { assert Peek(mem, ip) == Peek(mem', ip); }
  }

  lemma {:induction false} SameOffset(mem: seq<byte>, mem': seq<byte>, n: nat, ip: nat)
    requires Agree(mem, mem', n) && ip + 2 <= n
    ensures Offset14(mem, ip) == Offset14(mem', ip)
  {
  }

  lemma {:induction false} SameM3(mem: seq<byte>, mem': seq<byte>, n: nat, cap: nat, t: byte, ip: nat, out: seq<byte>)
    requires Agree(mem, mem', n) && StateOk(n, cap, State(Match(t), ip, out)) && Within(n, NextMatch(mem, n, cap, t, ip, out))
    requires 32 <= t < 64
    ensures NextMatch(mem', n, cap, t, ip, out) == NextMatch(mem, n, cap, t, ip, out)
  {
    hide CopyMatch, ReadLength, Offset14, Progress, Agree;
    SameLength(mem, mem', n, ip, 0, 31);
    var r := if t % 32 == 0 then ReadLength(mem, n, ip, 0, 31) else Length(t % 32, ip);
    if r.Length? && r.ip + 2 <= n { SameOffset(mem, mem', n, r.ip); }
  }

  lemma {:induction false} SameM4(mem: seq<byte>, mem': seq<byte>, n: nat, cap: nat, t: byte, ip: nat, out: seq<byte>)
    requires Agree(mem, mem', n) && StateOk(n, cap, State(Match(t), ip, out)) && Within(n, NextMatch(mem, n, cap, t, ip, out))
    requires 16 <= t < 32
    ensures NextMatch(mem', n, cap, t, ip, out) == NextMatch(mem, n, cap, t, ip, out)
  {
    hide CopyMatch, ReadLength, Offset14, Progress, Agree;
    SameLength(mem, mem', n, ip, 0, 7);
    var r := if t % 8 == 0 then ReadLength(mem, n, ip, 0, 7) else Length(t % 8, ip);
    if r.Length? && r.ip + 2 <= n { SameOffset(mem, mem', n, r.ip); }
  }

  lemma {:induction false} SameMatch(mem: seq<byte>, mem': seq<byte>, n: nat, cap: nat, t: byte, ip: nat, out: seq<byte>)
    requires Agree(mem, mem', n) && StateOk(n, cap, State(Match(t), ip, out)) && Within(n, NextMatch(mem, n, cap, t, ip, out))
    ensures NextMatch(mem', n, cap, t, ip, out) == NextMatch(mem, n, cap, t, ip, out)
  {
    hide NextMatch;
    if t >= 64 || t < 16 {
      SameNear(mem, mem', n, cap, t, ip, out);
    } else if t >= 32 {
      SameM3(mem, mem', n, cap, t, ip, out);
    } else {
      SameM4(mem, mem', n, cap, t, ip, out);
    }
  }

  lemma {:induction false} SameMatchNext(mem: seq<byte>, mem': seq<byte>, n: nat, cap: nat, t: nat, ip: nat, out: seq<byte>)
    requires Agree(mem, mem', n) && StateOk(n, cap, State(MatchNext(t), ip, out)) && ip <= n
    ensures NextMatchNext(mem', n, cap, t, ip, out) == NextMatchNext(mem, n, cap, t, ip, out)
  {
    hide Literals, Progress;
    if ip + t + 1 <= n { SameLiterals(mem, mem', n, ip, t); }
  }

  /** A step that stays within the input reads nothing behind it. */
  lemma {:induction false} SameNext(mem: seq<byte>, mem': seq<byte>, n: nat, cap: nat, s: State)
    requires Agree(mem, mem', n) && StateOk(n, cap, s) && s.ip <= n && Within(n, Next(mem, n, cap, s))
    ensures Next(mem', n, cap, s) == Next(mem, n, cap, s)
  {
    hide NextStart, NextTop, NextAfterLiterals, NextMatch, NextMatchNext, Progress;
    match s.mode
    case Start => SameStart(mem, mem', n, cap);
    case Top => SameTop(mem, mem', n, cap, s.ip, s.out);
    case AfterLiterals => SameAfterLiterals(mem, mem', n, cap, s.ip, s.out);
    case Match(t) => SameMatch(mem, mem', n, cap, t, s.ip, s.out);
    case MatchDone => assert Peek(mem, s.ip - 2) == Peek(mem', s.ip - 2);
    case MatchNext(t) => SameMatchNext(mem, mem', n, cap, t, s.ip, s.out);
  }

  /** Once the decoder is behind its input it cannot end well. */
  lemma {:induction false} BehindNeverOk(mem: seq<byte>, n: nat, cap: nat, s: State)
    requires StateOk(n, cap, s) && s.ip > n
    ensures Run(mem, n, cap, s).status != Ok
    decreases Rank(s.mode)
  {
    hide Progress, Literals;
    match Next(mem, n, cap, s)
    case Halt(_, _) =>
    case Go(s') => BehindNeverOk(mem, n, cap, s');
  }

  lemma {:induction false} SameRun(mem: seq<byte>, mem': seq<byte>, n: nat, cap: nat, s: State)
    requires Agree(mem, mem', n) && StateOk(n, cap, s) && s.ip <= n && Run(mem, n, cap, s).status == Ok
    ensures Run(mem', n, cap, s) == Run(mem, n, cap, s)
    decreases n + 2 - s.ip, Rank(s.mode)
  {
    hide Next, Agree;
    var r := Next(mem, n, cap, s);
    if r.Go? && r.next.ip > n {
      BehindNeverOk(mem, n, cap, r.next);
    }
    SameNext(mem, mem', n, cap, s);
    if r.Go? { SameRun(mem, mem', n, cap, r.next); }
  }

  /** What follows the input decides neither whether decoding succeeds nor what it then yields. */
  lemma {:induction false} OkIsLocal(mem: seq<byte>, mem': seq<byte>, n: nat, cap: nat)
    requires n >= 1 && Agree(mem, mem', n)
    ensures Decompress(mem, n, cap).status == Ok <==> Decompress(mem', n, cap).status == Ok
    ensures Decompress(mem, n, cap).status == Ok ==> Decompress(mem', n, cap) == Decompress(mem, n, cap)
  {
    hide Run;
    var s := State(Start, 0, []);
    if Decompress(mem, n, cap).status == Ok { SameRun(mem, mem', n, cap, s); }
    if Decompress(mem', n, cap).status == Ok { SameRun(mem', mem, n, cap, s); }
  }

  /** It can decide which error is reported: an input of the one byte 17 is an input overrun or a
      look-behind overrun by what the two bytes behind it are. */
  lemma {:induction false} ErrorIsNotLocal()
    ensures Decompress([17], 1, 10).status == InputOverrun
    ensures Decompress([17, 4, 0], 1, 10).status == LookbehindOverrun
  {
    OneMatchByte([17], 10);
    OneMatchByte([17, 4, 0], 10);
  }

  /** An input of the byte 17 is the first byte of a far match of length three. */
  lemma {:induction false} OneMatchByte(mem: seq<byte>, cap: nat)
    requires Peek(mem, 0) == 17
    ensures Decompress(mem, 1, cap).status == if Offset14(mem, 1) == 0 then InputOverrun else LookbehindOverrun
  {
    hide Progress;
    var s0, s1, s2 := State(Start, 0, []), State(Top, 0, []), State(Match(17), 1, []);
    assert Next(mem, 1, cap, s0) == Go(s1);
    assert Next(mem, 1, cap, s1) == Go(s2);
    assert Next(mem, 1, cap, s2).Halt?;
    assert Run(mem, 1, cap, s1) == Run(mem, 1, cap, s2);
  }
}
