/** The LZO1X stream format: the decoder as a state machine over input and output positions,
    and the byte layout the compressor writes for one literal run and one match. */
module LzoFormat {
  import opened Bytes

  const M2_MAX_OFFSET := 0x0800
  const M3_MAX_OFFSET := 0x4000
  const M4_MAX_OFFSET := 0xbfff

  // ---------------------------------------------------------------- decoder

  datatype Status =
    | Ok
    | EofNotFound
    | InputNotConsumed
    | InputOverrun
    | OutputOverrun
    | LookbehindOverrun

  /** The labels of the decoder. `Match(t)` and `MatchNext(t)` carry the register `t`. */
  datatype Mode =
    | Start
    | Top
    | AfterLiterals
    | Match(t: byte)
    | MatchDone
    | MatchNext(count: nat)

  datatype State = State(mode: Mode, ip: nat, out: seq<byte>)

  datatype Step = Go(next: State) | Halt(status: Status, out: seq<byte>)

  datatype Decoded = Decoded(status: Status, out: seq<byte>)

  datatype Length = Overrun | Length(t: nat, ip: nat)

  /** Input of `n` bytes, output capacity `cap`. */
  ghost predicate StateOk(n: nat, cap: nat, s: State) {
    && n >= 1
    && s.ip <= n + 2
    && |s.out| <= cap
    && match s.mode
       case Start => s.ip == 0 && s.out == []
       case Top => true
       case AfterLiterals => s.ip < n
       case Match(_) => 1 <= s.ip <= n
       case MatchDone => 2 <= s.ip
       case MatchNext(t) => 1 <= t <= 3 && 1 <= s.ip
  }

  /** Labels reached without consuming input rank below the label that jumps to them. */
  function Rank(m: Mode): nat {
    match m
    case Start => 2
    case MatchDone => 2
    case Top => 1
    case MatchNext(_) => 1
    case AfterLiterals => 0
    case Match(_) => 0
  }

  /** NEED_IP: the comparison is on unsigned differences, so it cannot fail once `ip` is past the end. */
  predicate LacksInput(n: nat, ip: nat, count: nat) {
    ip <= n && n - ip < count
  }

  /** The run-length extension: each zero byte adds 255, the first nonzero byte ends it. */
  function ReadLength(mem: seq<byte>, n: nat, ip: nat, t: nat, bias: nat): (r: Length)
    requires ip <= n
    ensures r.Length? ==> ip < r.ip <= n
    decreases n - ip
  {
    if ip == n then Overrun
    else if Peek(mem, ip) == 0 then ReadLength(mem, n, ip + 1, t + 255, bias)
    else Length(t + bias + Peek(mem, ip), ip + 1)
  }

  /** Copy `len` bytes from `off` bytes back, one at a time; the source may run into the copied bytes. */
  function CopyMatch(out: seq<byte>, off: nat, len: nat): (r: seq<byte>)
    requires 1 <= off <= |out|
    ensures |r| == |out| + len && out <= r
    decreases len
  {
    if len == 0 then out else CopyMatch(out + [out[|out| - off]], off, len - 1)
  }

  /** Every step keeps what was written, stays within capacity and either consumes input or
      moves to a lower label. */
  ghost predicate Progress(n: nat, cap: nat, s: State, r: Step) {
    match r
    case Go(s') =>
      && StateOk(n, cap, s')
      && s.out <= s'.out
      && (s'.ip > s.ip || (s'.ip == s.ip && Rank(s'.mode) < Rank(s.mode)))
    case Halt(_, out) => s.out <= out && |out| <= cap
  }

  function DoCopy(cap: nat, ip: nat, out: seq<byte>, off: nat, len: nat): (r: Step)
    requires 1 <= off
  {
    if off > |out| then Halt(LookbehindOverrun, out)
    else if cap < |out| + len then Halt(OutputOverrun, out)
    else Go(State(MatchDone, ip, CopyMatch(out, off, len)))
  }

  function Literals(mem: seq<byte>, ip: nat, count: nat): (r: seq<byte>)
    ensures |r| == count
    ensures forall i :: 0 <= i < count ==> r[i] == Peek(mem, ip + i)
  {
    seq<byte>(count, i requires i >= 0 => Peek(mem, ip + i))
  }

  function NextStart(mem: seq<byte>, n: nat, cap: nat): (r: Step)
    requires StateOk(n, cap, State(Start, 0, []))
    ensures Progress(n, cap, State(Start, 0, []), r)
  {
    var b := Peek(mem, 0);
    if b <= 17 then Go(State(Top, 0, []))
    else if b - 17 < 4 then Go(State(MatchNext(b - 17), 1, []))
    else if cap < b - 17 then Halt(OutputOverrun, [])
    else if LacksInput(n, 1, b - 16) then Halt(InputOverrun, [])
    else Go(State(AfterLiterals, 1 + (b - 17), Literals(mem, 1, b - 17)))
  }

  function NextTop(mem: seq<byte>, n: nat, cap: nat, ip: nat, out: seq<byte>): (r: Step)
    requires StateOk(n, cap, State(Top, ip, out))
    ensures Progress(n, cap, State(Top, ip, out), r)
  {
    if ip >= n then Halt(EofNotFound, out)
    else
      var b := Peek(mem, ip);
      if b >= 16 then Go(State(Match(b), ip + 1, out))
      else
        var r := if b == 0 then ReadLength(mem, n, ip + 1, 0, 15) else Length(b, ip + 1);
        if r.Overrun? then Halt(InputOverrun, out)
        else if cap < |out| + r.t + 3 then Halt(OutputOverrun, out)
        else if LacksInput(n, r.ip, r.t + 4) then Halt(InputOverrun, out)
        else Go(State(AfterLiterals, r.ip + r.t + 3, out + Literals(mem, r.ip, r.t + 3)))
  }

  /** The byte after a long literal run: a match, or a three byte copy from beyond M2's reach. */
  function NextAfterLiterals(mem: seq<byte>, n: nat, cap: nat, ip: nat, out: seq<byte>): (r: Step)
    requires StateOk(n, cap, State(AfterLiterals, ip, out))
    ensures Progress(n, cap, State(AfterLiterals, ip, out), r)
  {
    var b := Peek(mem, ip);
    if b >= 16 then Go(State(Match(b), ip + 1, out))
    else DoCopy(cap, ip + 2, out, 1 + M2_MAX_OFFSET + b / 4 + 4 * Peek(mem, ip + 1), 3)
  }

  /** The 14-bit offset field that follows the length of an M3 or M4 match. */
  function Offset14(mem: seq<byte>, ip: nat): nat {
    Peek(mem, ip) / 4 + 64 * Peek(mem, ip + 1)
  }

  function NextMatch(mem: seq<byte>, n: nat, cap: nat, t: byte, ip: nat, out: seq<byte>): (r: Step)
    requires StateOk(n, cap, State(Match(t), ip, out))
    ensures Progress(n, cap, State(Match(t), ip, out), r)
  {
    if t >= 64 then
      DoCopy(cap, ip + 1, out, 1 + (t / 4) % 8 + 8 * Peek(mem, ip), t / 32 + 1)
    else if t >= 32 then
      var r := if t % 32 == 0 then ReadLength(mem, n, ip, 0, 31) else Length(t % 32, ip);
      if r.Overrun? then Halt(InputOverrun, out)
      else DoCopy(cap, r.ip + 2, out, 1 + Offset14(mem, r.ip), r.t + 2)
    else if t >= 16 then
      var r := if t % 8 == 0 then ReadLength(mem, n, ip, 0, 7) else Length(t % 8, ip);
      if r.Overrun? then Halt(InputOverrun, out)
      else
        var off := (t / 8) % 2 * 0x4000 + Offset14(mem, r.ip);
        if off == 0 then
          Halt(if r.ip + 2 == n then Ok else if r.ip + 2 < n then InputNotConsumed else InputOverrun, out)
        else DoCopy(cap, r.ip + 2, out, off + 0x4000, r.t + 2)
    else
      DoCopy(cap, ip + 1, out, 1 + t / 4 + 4 * Peek(mem, ip), 2)
  }

  /** One to three literals stored behind a match, then the first byte of the next match. */
  function NextMatchNext(mem: seq<byte>, n: nat, cap: nat, t: nat, ip: nat, out: seq<byte>): (r: Step)
    requires StateOk(n, cap, State(MatchNext(t), ip, out))
    ensures Progress(n, cap, State(MatchNext(t), ip, out), r)
  {
    if cap < |out| + t then Halt(OutputOverrun, out)
    else if LacksInput(n, ip, t + 1) then Halt(InputOverrun, out)
    else
      var out' := out + Literals(mem, ip, t);
      if ip + t + 1 < n then Go(State(Match(Peek(mem, ip + t)), ip + t + 1, out'))
      else Halt(EofNotFound, out')
  }

  function Next(mem: seq<byte>, n: nat, cap: nat, s: State): (r: Step)
    requires StateOk(n, cap, s)
    ensures Progress(n, cap, s, r)
  {
    match s.mode
    case Start => NextStart(mem, n, cap)
    case Top => NextTop(mem, n, cap, s.ip, s.out)
    case AfterLiterals => NextAfterLiterals(mem, n, cap, s.ip, s.out)
    case Match(t) => NextMatch(mem, n, cap, t, s.ip, s.out)
    case MatchDone =>
      var t := Peek(mem, s.ip - 2) % 4;
      if t == 0 then Go(State(Top, s.ip, s.out)) else Go(State(MatchNext(t), s.ip, s.out))
    case MatchNext(t) => NextMatchNext(mem, n, cap, t, s.ip, s.out)
  }

  function Run(mem: seq<byte>, n: nat, cap: nat, s: State): (r: Decoded)
    requires StateOk(n, cap, s)
    ensures s.out <= r.out && |r.out| <= cap
    decreases n + 2 - s.ip, Rank(s.mode)
  {
    match Next(mem, n, cap, s)
    case Halt(status, out) => Decoded(status, out)
    case Go(s') => Run(mem, n, cap, s')
  }

  /** The decoder from its first byte. */
  function Decompress(mem: seq<byte>, n: nat, cap: nat): Decoded
    requires n >= 1
  {
    Run(mem, n, cap, State(Start, 0, []))
  }

  // ---------------------------------------------------------------- encoder

  /** A literal run of `lit` bytes followed by a match of `len` bytes, `off` bytes back. */
  datatype Token = Token(lit: nat, off: nat, len: nat)

  /** What the run-length extension stores for `x`. */
  function Extension(x: nat): (r: seq<byte>)
    requires x >= 1
    ensures |r| >= 1
  {
    if x > 255 then [0] + Extension(x - 255) else [x]
  }

  /** The header of a literal run too long to be stored in the preceding match. */
  function LiteralHeader(t: nat): (r: seq<byte>)
    requires t >= 4
  {
    if t <= 18 then [t - 3] else [0] + Extension(t - 18)
  }

  function OffsetBytes(off: nat): (r: seq<byte>)
    requires off < 0x4000
    ensures |r| == 2
  {
    [off % 64 * 4, off / 64]
  }

  function MatchBytes(off: nat, len: nat): (r: seq<byte>)
    requires 1 <= off <= M4_MAX_OFFSET && len >= 3
    ensures |r| >= 2
  {
    if len <= 8 && off <= M2_MAX_OFFSET then
      [(len - 1) * 32 + (off - 1) % 8 * 4, (off - 1) / 8]
    else if off <= M3_MAX_OFFSET then
      (if len <= 33 then [32 + (len - 2)] else [32] + Extension(len - 33)) + OffsetBytes(off - 1)
    else
      var o := off - 0x4000;
      var hi := o / 0x4000 * 8;
      (if len <= 9 then [16 + hi + (len - 2)] else [16 + hi] + Extension(len - 9))
      + OffsetBytes(o % 0x4000)
  }

  const EndMarker: seq<byte> := [17, 0, 0]

  /** `b | t` for a two-bit `t`. */
  function OrLow(b: byte, t: nat): (r: byte)
    requires t < 4
    ensures r / 4 == b / 4
    ensures b % 4 == 0 ==> r == b + t
  {
    var low0 := if b % 2 == 1 || t % 2 == 1 then 1 else 0;
    var low1 := if b / 2 % 2 == 1 || t / 2 == 1 then 2 else 0;
    b / 4 * 4 + low1 + low0
  }

  /** Append a literal run: up to three are counted in the last match, the others get a header. */
  function AppendLiterals(acc: seq<byte>, lits: seq<byte>): (r: seq<byte>)
    requires 1 <= |lits| <= 3 ==> |acc| >= 2
  {
    if |lits| == 0 then acc
    else if |lits| <= 3 then acc[|acc| - 2 := OrLow(acc[|acc| - 2], |lits|)] + lits
    else acc + LiteralHeader(|lits|) + lits
  }

  /** Input bytes covered by a list of tokens. */
  function Covered(toks: seq<Token>): nat {
    if toks == [] then 0
    else
      var last := toks[|toks| - 1];
      Covered(toks[..|toks| - 1]) + last.lit + last.len
  }

  /** The match repeats bytes of `data` already covered, within the reach of the format. */
  ghost predicate ValidMatch(data: seq<byte>, p: nat, off: nat, len: nat) {
    && 1 <= off <= p && off <= M4_MAX_OFFSET
    && 3 <= len && p + len <= |data|
    && (forall k :: p <= k < p + len ==> data[k] == data[k - off])
  }

  /** `toks` is a way to cut the front of `data` into literals and matches. A match beyond
      M2's reach must be four bytes long; this is what keeps every match smaller than its text. */
  ghost predicate ValidParse(data: seq<byte>, toks: seq<Token>) {
    toks == [] ||
    (var init, last := toks[..|toks| - 1], toks[|toks| - 1];
     && ValidParse(data, init)
     && (init == [] ==> last.lit >= 4)
     && ValidMatch(data, Covered(init) + last.lit, last.off, last.len)
     && (last.off > M2_MAX_OFFSET ==> last.len >= 4))
  }

  /** The bytes written for `toks`. */
  function Encoded(data: seq<byte>, toks: seq<Token>): (r: seq<byte>)
    requires ValidParse(data, toks)
    ensures toks != [] ==> |r| >= 2
    ensures toks == [] ==> r == []
  {
    if toks == [] then []
    else
      var init, last := toks[..|toks| - 1], toks[|toks| - 1];
      var ii := Covered(init);
      AppendLiterals(Encoded(data, init), data[ii..ii + last.lit]) + MatchBytes(last.off, last.len)
  }

  /** The stream of an input without matches. Up to 238 literals are counted by the first byte. */
  function LiteralStream(data: seq<byte>): (r: seq<byte>) {
    if data == [] then EndMarker
    else if |data| <= 238 then [17 + |data|] + data + EndMarker
    else LiteralHeader(|data|) + data + EndMarker
  }

  /** The whole compressed stream: the tokens, the remaining literals and the end marker. */
  function Compressed(data: seq<byte>, toks: seq<Token>): (r: seq<byte>)
    requires ValidParse(data, toks) && Covered(toks) <= |data|
  {
    if toks == [] then LiteralStream(data)
    else AppendLiterals(Encoded(data, toks), data[Covered(toks)..]) + EndMarker
  }
}
