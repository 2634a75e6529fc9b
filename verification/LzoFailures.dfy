/** What the safe decoder reports when the input goes on behind a stream, ends within one, or does not fit the output. */
module LzoFailures {
  import opened Bytes
  import opened LzoFormat
  import opened LzoRoundTrip
  import opened LzoLocality

  // ------------------------------------------------------------ more input

  lemma {:induction false} LongerLength(mem: seq<byte>, n: nat, n': nat, ip: nat, t: nat, bias: nat)
    requires ip <= n <= n' && ReadLength(mem, n, ip, t, bias).Length?
    ensures ReadLength(mem, n', ip, t, bias) == ReadLength(mem, n, ip, t, bias)
    decreases n - ip
  {
    if Peek(mem, ip) == 0 { LongerLength(mem, n, n', ip + 1, t + 255, bias); }
  }

  /** What a step becomes when the input is longer: only the end marker looks at where the input ends. */
  function Extended(r: Step): Step {
    if r.Halt? && r.status == Ok then Halt(InputNotConsumed, r.out) else r
  }

  lemma {:induction false} LongerStart(mem: seq<byte>, n: nat, n': nat, cap: nat)
    requires n < n' && n >= 1 && Within(n, NextStart(mem, n, cap))
    ensures NextStart(mem, n', cap) == Extended(NextStart(mem, n, cap))
  {
    hide Literals, Progress;
  }

  lemma {:induction false} LongerTop(mem: seq<byte>, n: nat, n': nat, cap: nat, ip: nat, out: seq<byte>)
    requires n < n' && StateOk(n, cap, State(Top, ip, out)) && Within(n, NextTop(mem, n, cap, ip, out))
    ensures NextTop(mem, n', cap, ip, out) == Extended(NextTop(mem, n, cap, ip, out))
  {
    hide Literals, ReadLength, Progress;
    if ip < n && Peek(mem, ip) == 0 && ReadLength(mem, n, ip + 1, 0, 15).Length? { LongerLength(mem, n, n', ip + 1, 0, 15); }
  }

  lemma {:induction false} LongerM3(mem: seq<byte>, n: nat, n': nat, cap: nat, t: byte, ip: nat, out: seq<byte>)
    requires n < n' && StateOk(n, cap, State(Match(t), ip, out)) && Within(n, NextMatch(mem, n, cap, t, ip, out))
    requires t >= 32 || t < 16
    ensures NextMatch(mem, n', cap, t, ip, out) == Extended(NextMatch(mem, n, cap, t, ip, out))
  {
    hide CopyMatch, ReadLength, Offset14, Progress;
    if 32 <= t < 64 && t % 32 == 0 && ReadLength(mem, n, ip, 0, 31).Length? { LongerLength(mem, n, n', ip, 0, 31); }
  }

  lemma {:induction false} LongerM4(mem: seq<byte>, n: nat, n': nat, cap: nat, t: byte, ip: nat, out: seq<byte>)
    requires n < n' && StateOk(n, cap, State(Match(t), ip, out)) && Within(n, NextMatch(mem, n, cap, t, ip, out))
    requires 16 <= t < 32
    ensures NextMatch(mem, n', cap, t, ip, out) == Extended(NextMatch(mem, n, cap, t, ip, out))
  {
    hide CopyMatch, ReadLength, Offset14, Progress;
    if t % 8 == 0 && ReadLength(mem, n, ip, 0, 7).Length? { LongerLength(mem, n, n', ip, 0, 7); }
  }

  lemma {:induction false} LongerNext(mem: seq<byte>, n: nat, n': nat, cap: nat, s: State)
    requires n < n' && StateOk(n, cap, s) && s.ip <= n && Within(n, Next(mem, n, cap, s))
    ensures StateOk(n', cap, s) && Next(mem, n', cap, s) == Extended(Next(mem, n, cap, s))
  {
    hide NextStart, NextTop, NextMatch, Literals, Progress;
    match s.mode
    case Start => LongerStart(mem, n, n', cap);
    case Top => LongerTop(mem, n, n', cap, s.ip, s.out);
    case AfterLiterals =>
    case Match(t) =>
      if 16 <= t < 32 { LongerM4(mem, n, n', cap, t, s.ip, s.out); } else { LongerM3(mem, n, n', cap, t, s.ip, s.out); }
    case MatchDone =>
    case MatchNext(t) =>
  }

  lemma {:induction false} LongerRun(mem: seq<byte>, n: nat, n': nat, cap: nat, s: State)
    requires n < n' && StateOk(n, cap, s) && s.ip <= n && Run(mem, n, cap, s).status == Ok
    ensures StateOk(n', cap, s) && Run(mem, n', cap, s) == Decoded(InputNotConsumed, Run(mem, n, cap, s).out)
    decreases n + 2 - s.ip, Rank(s.mode)
  {
    hide Next;
    var r := Next(mem, n, cap, s);
    if r.Go? && r.next.ip > n { BehindNeverOk(mem, n, cap, r.next); }
    LongerNext(mem, n, n', cap, s);
    if r.Go? { LongerRun(mem, n, n', cap, r.next); }
  }

  /** Accepted inputs are prefix free: whatever follows one is reported as not consumed, with the same output. */
  lemma {:induction false} PrefixFree(mem: seq<byte>, n: nat, n': nat, cap: nat)
    requires 1 <= n < n' && Decompress(mem, n, cap).status == Ok
    ensures Decompress(mem, n', cap) == Decoded(InputNotConsumed, Decompress(mem, n, cap).out)
  {
    hide Run;
    LongerRun(mem, n, n', cap, State(Start, 0, []));
  }

  // ------------------------------------------------------------ more room

  /** The step was refused for want of room, having written nothing. */
  predicate Refused(out: seq<byte>, r: Step) { r == Halt(OutputOverrun, out) }

  lemma {:induction false} RoomierTop(mem: seq<byte>, n: nat, cap: nat, cap': nat, ip: nat, out: seq<byte>)
    requires cap <= cap' && StateOk(n, cap, State(Top, ip, out))
    ensures var r := NextTop(mem, n, cap, ip, out); r == NextTop(mem, n, cap', ip, out) || Refused(out, r)
  {
    hide ReadLength, Literals, Progress;
  }

  lemma {:induction false} RoomierM3(mem: seq<byte>, n: nat, cap: nat, cap': nat, t: byte, ip: nat, out: seq<byte>)
    requires cap <= cap' && StateOk(n, cap, State(Match(t), ip, out)) && (t >= 32 || t < 16)
    ensures var r := NextMatch(mem, n, cap, t, ip, out); r == NextMatch(mem, n, cap', t, ip, out) || Refused(out, r)
  {
    hide ReadLength, CopyMatch, Offset14, Progress;
  }

  lemma {:induction false} RoomierM4(mem: seq<byte>, n: nat, cap: nat, cap': nat, t: byte, ip: nat, out: seq<byte>)
    requires cap <= cap' && StateOk(n, cap, State(Match(t), ip, out)) && 16 <= t < 32
    ensures var r := NextMatch(mem, n, cap, t, ip, out); r == NextMatch(mem, n, cap', t, ip, out) || Refused(out, r)
  {
    hide ReadLength, CopyMatch, Offset14, Progress;
  }

  /** With more room a step is the same, or was refused for want of room. */
  lemma {:induction false} RoomierNext(mem: seq<byte>, n: nat, cap: nat, cap': nat, s: State)
    requires cap <= cap' && StateOk(n, cap, s)
    ensures StateOk(n, cap', s)
    ensures var r := Next(mem, n, cap, s); r == Next(mem, n, cap', s) || Refused(s.out, r)
  {
    hide NextTop, NextMatch, Literals, CopyMatch, Progress;
    match s.mode
    case Start =>
    case Top => RoomierTop(mem, n, cap, cap', s.ip, s.out);
    case AfterLiterals =>
    case Match(t) =>
      if 16 <= t < 32 {
        RoomierM4(mem, n, cap, cap', t, s.ip, s.out);
      } else {
        RoomierM3(mem, n, cap, cap', t, s.ip, s.out);
      }
    case MatchDone =>
    case MatchNext(t) =>
  }

  lemma {:induction false} RoomierRun(mem: seq<byte>, n: nat, cap: nat, cap': nat, s: State)
    requires cap <= cap' && StateOk(n, cap, s)
    ensures StateOk(n, cap', s)
    ensures var r := Run(mem, n, cap, s);
      r == Run(mem, n, cap', s) || (r.status == OutputOverrun && r.out <= Run(mem, n, cap', s).out)
    decreases n + 2 - s.ip, Rank(s.mode)
  {
    hide Next;
    RoomierNext(mem, n, cap, cap', s);
    var r := Next(mem, n, cap, s);
    if r.Go? { RoomierRun(mem, n, cap, cap', r.next); }
  }

  /** For any input, room decides nothing but whether the output fits: a smaller buffer gives the same result or an
      output overrun with the front of it. */
  lemma {:induction false} RoomDecidesFit(mem: seq<byte>, n: nat, cap: nat, cap': nat)
    requires n >= 1 && cap <= cap'
    ensures var r, full := Decompress(mem, n, cap), Decompress(mem, n, cap');
      r == full || (r.status == OutputOverrun && r.out <= full.out)
  {
    hide Run;
    RoomierRun(mem, n, cap, cap', State(Start, 0, []));
  }

  // ------------------------------------------------------------ streams of the encoder

  /** Encoded streams that are followed by something, cut short, or given too little room. */
  lemma {:induction false} StreamFailures(data: seq<byte>, toks: seq<Token>, mem: seq<byte>, n: nat, cap: nat)
    requires ValidParse(data, toks) && Covered(toks) <= |data| && Holds(mem, 0, Compressed(data, toks)) && n >= 1
    ensures n > |Compressed(data, toks)| && cap >= |data| ==> Decompress(mem, n, cap) == Decoded(InputNotConsumed, data)
    ensures n < |Compressed(data, toks)| ==> Decompress(mem, n, cap).status != Ok
    ensures n == |Compressed(data, toks)| && cap < |data| ==>
      Decompress(mem, n, cap).status == OutputOverrun && Decompress(mem, n, cap).out <= data
  {
    hide Compressed, Run, Decompress, Holds, ValidParse, Covered;
    var size, room := |Compressed(data, toks)|, if cap < |data| then |data| else cap;
    RoundTrip(data, toks, mem, room);
    if n > size { PrefixFree(mem, size, n, room); }
    if n < size && Decompress(mem, n, cap).status == Ok {
      RoomDecidesFit(mem, n, cap, room);
      PrefixFree(mem, n, size, room);
    }
    if n == size && cap < |data| {
      RoomDecidesFit(mem, n, cap, room);
      OutputFits(mem, n, cap);
    }
  }

  lemma {:induction false} OutputFits(mem: seq<byte>, n: nat, cap: nat)
    requires n >= 1
    ensures |Decompress(mem, n, cap).out| <= cap
  {
    hide Run;
  }
}
