/** When ThreadedReader's read-ahead limit holds, and a run in which it does not. */
module ReadAheadLimit {
  import opened Bytes
  import opened ThreadedReader

  /** Every run starts at or below the limit and is not told to read past it. */
  ghost predicate StartsWithin<T>(c: Config<T>, s: State<T>) {
    && (s.queued > 0 ==> s.readSoFar <= c.readAhead)
    && (forall i :: 0 <= i < |s.running| ==> s.readSoFar + s.running[i].readMax <= c.readAhead)
  }

  /** What a caller can see to: no item is larger than readUpTo by more than one, or get() takes as much at
      a time as may be read ahead. */
  ghost predicate Bounded<T(!new)>(c: Config<T>) {
    c.readUpTo >= c.readAhead || forall x :: c.size(x) <= c.readUpTo + 1
  }

  // ------------------------------------------------------------ what the drain loop takes

  /** The drain loop takes everything, or at least readUpTo. */
  lemma {:induction false} DrainTakes<T>(c: Config<T>, q: seq<T>, soFar: nat)
    ensures var n := DrainCount(c, q, soFar);
      n == |q| || soFar + Total(c.size, q[..n]) >= c.readUpTo
  {
    if q != [] && soFar < c.readUpTo {
      DrainTakes(c, q[1..], soFar + c.size(q[0]));
      var n := DrainCount(c, q, soFar);
      assert q[..n][1..] == q[1..][..n - 1];
    }
  }

  function Front<T>(q: seq<T>): seq<T> { if q == [] then [] else q[..|q| - 1] }

  /** If all but the last item stay below readUpTo, it takes everything. */
  lemma {:induction false} DrainTakesAll<T>(c: Config<T>, q: seq<T>, soFar: nat)
    requires soFar + Total(c.size, Front(q)) < c.readUpTo
    ensures DrainCount(c, q, soFar) == |q|
  {
    if |q| > 1 {
      assert Front(q)[1..] == Front(q[1..]);
      DrainTakesAll(c, q[1..], soFar + c.size(q[0]));
    }
  }

  // ------------------------------------------------------------ small items

  /** With items of at most readUpTo + 1, no more than readUpTo is held above the limit. */
  ghost predicate SmallHeld<T>(c: Config<T>, s: State<T>) {
    && StartsWithin(c, s) && s.readSoFar <= c.readAhead + c.readUpTo
    && (forall i :: 0 <= i < |s.running| ==> s.running[i].readSz <= s.running[i].readMax + c.readUpTo)
  }

  lemma {:induction false} SmallBegin<T>(c: Config<T>, s: State<T>)
    requires OneTask(s) && SmallHeld(c, s) && CanBegin(s) && c.readAhead < WORD
    ensures SmallHeld(c, Begin(c, s))
  {
    assert s.running == [];
  }

  lemma {:induction false} SmallRead<T>(c: Config<T>, s: State<T>, i: nat)
    requires OneTask(s) && SmallHeld(c, s) && CanRead(s, i) && forall x :: c.size(x) <= c.readUpTo + 1
    ensures SmallHeld(c, Read(c, s, i))
  {
    assert |s.running| == 1 && i == 0;
  }

  lemma {:induction false} SmallCommit<T>(c: Config<T>, orig: seq<T>, s: State<T>, i: nat)
    requires Inv(c, orig, s) && SmallHeld(c, s) && CanCommit(s, i) && Total(c.size, orig) < WORD
    ensures SmallHeld(c, Commit(c, s, i))
  {
    hide Total;
    assert |s.running| == 1 && i == 0;
    TotalParts(c, orig, s);
  }

  lemma {:induction false} SmallDrain<T>(c: Config<T>, orig: seq<T>, s: State<T>)
    requires Inv(c, orig, s) && SmallHeld(c, s) && CanDrain(s) && Total(c.size, orig) < WORD
    ensures SmallHeld(c, Drain(c, s))
  {
    DrainedSize(c, orig, s);
    hide Total, DrainCount;
  }

  /** What is left after a drain: nothing, or less by readUpTo. */
  lemma {:induction false} DrainedSize<T>(c: Config<T>, orig: seq<T>, s: State<T>)
    requires Conserved(orig, s) && Counted(c, s) && CanDrain(s) && Total(c.size, orig) < WORD
    ensures var left := Drain(c, s).readSoFar;
      left <= s.readSoFar && (left == 0 || left + c.readUpTo <= s.readSoFar)
  {
    hide Total, DrainCount;
    var n := DrainCount(c, s.syncQ, 0);
    DrainTakes(c, s.syncQ, 0);
    assert s.syncQ == s.syncQ[..n] + s.syncQ[n..];
    TotalConcat(c.size, s.syncQ[..n], s.syncQ[n..]);
    TotalParts(c, orig, s);
    if n == |s.syncQ| { assert s.syncQ[n..] == []; TotalNone(c.size); }
  }

  lemma {:induction false} SmallKept<T>(c: Config<T>, orig: seq<T>, s: State<T>, s': State<T>)
    requires Inv(c, orig, s) && Next(c, s, s') && SmallHeld(c, s)
    requires c.readAhead < WORD && Total(c.size, orig) < WORD && forall x :: c.size(x) <= c.readUpTo + 1
    ensures SmallHeld(c, s')
  {
    hide Total, Begin, Read, Commit, Drain;
    if CanDrain(s) && s' == Drain(c, s) {
      SmallDrain(c, orig, s);
    } else if CanBegin(s) && s' == Begin(c, s) {
      SmallBegin(c, s);
    } else if i: nat :| CanRead(s, i) && s' == Read(c, s, i) {
      SmallRead(c, s, i);
    } else if i: nat :| CanCommit(s, i) && s' == Commit(c, s, i) {
      SmallCommit(c, orig, s, i);
    }
  }

  // ------------------------------------------------------------ large drains

  /** With readUpTo not below the limit, all but the last item held stay below it. */
  ghost predicate LastOver<T>(c: Config<T>, s: State<T>) {
    && StartsWithin(c, s)
    && Total(c.size, Front(s.syncQ)) < c.readAhead
    && (s.buf != [] ==> Total(c.size, s.syncQ) + Total(c.size, Front(s.buf)) < c.readAhead)
  }

  lemma {:induction false} LastBegin<T>(c: Config<T>, s: State<T>)
    requires OneTask(s) && LastOver(c, s) && CanBegin(s) && c.readAhead < WORD
    ensures LastOver(c, Begin(c, s))
  {
    assert s.running == [];
  }

  lemma {:induction false} LastRead<T>(c: Config<T>, orig: seq<T>, s: State<T>, i: nat)
    requires Inv(c, orig, s) && LastOver(c, s) && CanRead(s, i)
    ensures LastOver(c, Read(c, s, i))
  {
    hide Total;
    assert |s.running| == 1 && i == 0;
    if s.input != [] { assert Front(s.buf + [s.input[0]]) == s.buf; }
  }

  lemma {:induction false} LastCommit<T>(c: Config<T>, orig: seq<T>, s: State<T>, i: nat)
    requires Inv(c, orig, s) && LastOver(c, s) && CanCommit(s, i) && Total(c.size, orig) < WORD
    ensures LastOver(c, Commit(c, s, i))
  {
    hide Total;
    assert |s.running| == 1 && i == 0;
    TotalParts(c, orig, s);
    if s.buf == [] {
      assert s.syncQ + s.buf == s.syncQ;
    } else {
      assert Front(s.syncQ + s.buf) == s.syncQ + Front(s.buf);
      TotalConcat(c.size, s.syncQ, Front(s.buf));
    }
  }

  lemma {:induction false} LastDrain<T>(c: Config<T>, orig: seq<T>, s: State<T>)
    requires Inv(c, orig, s) && LastOver(c, s) && CanDrain(s) && Total(c.size, orig) < WORD
    requires c.readUpTo >= c.readAhead > 0
    ensures LastOver(c, Drain(c, s))
  {
    DrainTakesAll(c, s.syncQ, 0);
    DrainedSize(c, orig, s);
    TotalNone(c.size);
    hide Total, DrainCount;
    assert s.syncQ[..|s.syncQ|] == s.syncQ && s.syncQ[|s.syncQ|..] == [];
  }

  /** The other steps put nothing into the queue. */
  lemma {:induction false} LastElse<T>(c: Config<T>, s: State<T>, s': State<T>)
    requires LastOver(c, s)
    requires (CanPop(s) && s' == Pop(s)) || (CanBlock(s) && s' == Block(s)) || (CanCancel(s) && s' == Cancel(s))
      || (CanRecheck(s) && s' == Recheck(s))
    ensures LastOver(c, s')
  {
    hide Total;
  }

  lemma {:induction false} LastKept<T>(c: Config<T>, orig: seq<T>, s: State<T>, s': State<T>)
    requires Inv(c, orig, s) && Next(c, s, s') && LastOver(c, s)
    requires 0 < c.readAhead < WORD && Total(c.size, orig) < WORD && c.readUpTo >= c.readAhead
    ensures LastOver(c, s')
  {
    hide Total, Begin, Read, Commit, Drain, OneTask, CanDrain, CanBegin, CanRead, CanCommit, LastOver;
    assert OneTask(s);
    hide Inv;
    if CanDrain(s) && s' == Drain(c, s) {
      LastDrain(c, orig, s);
    } else if CanBegin(s) && s' == Begin(c, s) {
      LastBegin(c, s);
    } else if i: nat :| CanRead(s, i) && s' == Read(c, s, i) {
      LastRead(c, orig, s, i);
    } else if i: nat :| CanCommit(s, i) && s' == Commit(c, s, i) {
      LastCommit(c, orig, s, i);
    } else {
      LastElse(c, s, s');
    }
  }

  // ------------------------------------------------------------ the limit holds

  lemma {:induction false} HeldAtStart<T>(c: Config<T>, input: seq<T>)
    requires 0 < c.readAhead
    ensures LastOver(c, Init(input)) && SmallHeld(c, Init(input))
  {
    TotalNone(c.size);
  }

  lemma {:induction false} HeldThroughout<T(!new)>(c: Config<T>, input: seq<T>, states: seq<State<T>>, k: nat)
    requires Execution(c, input, states) && k < |states|
    requires 0 < c.readAhead < WORD && Total(c.size, input) < WORD && Bounded(c)
    ensures if c.readUpTo >= c.readAhead then LastOver(c, states[k]) else SmallHeld(c, states[k])
  {
    hide Total, Inv, Next, LastOver, SmallHeld, Init;
    if k == 0 {
      HeldAtStart(c, input);
    } else {
      ExecutionKeeps(c, input, states, k - 1);
      HeldThroughout(c, input, states, k - 1);
      if c.readUpTo >= c.readAhead {
        LastKept(c, input, states[k - 1], states[k]);
      } else {
        SmallKept(c, input, states[k - 1], states[k]);
      }
    }
  }

  /** In every execution over bounded items every run starts at or below the limit. */
  lemma {:induction false} LimitHolds<T(!new)>(c: Config<T>, input: seq<T>, states: seq<State<T>>, k: nat)
    requires Execution(c, input, states) && k < |states|
    requires 0 < c.readAhead < WORD && Total(c.size, input) < WORD && Bounded(c)
    ensures StartsWithin(c, states[k])
  {
    hide Total, Next;
    HeldThroughout(c, input, states, k);
  }

  /** Unit sizes: what is read ahead, committed or not, never exceeds the limit. */
  lemma {:induction false} ReadAheadBounded<T(!new)>(c: Config<T>, input: seq<T>, states: seq<State<T>>, k: nat)
    requires Execution(c, input, states) && k < |states|
    requires 0 < c.readAhead < WORD && Total(c.size, input) < WORD
    requires forall x :: c.size(x) == 1
    ensures states[k].readSoFar + Total(c.size, states[k].buf) <= c.readAhead && StartsWithin(c, states[k])
  {
    hide Total, Inv, Next, Begin, Commit, Drain;
    LimitHolds(c, input, states, k);
    if k == 0 {
      TotalNone(c.size);
    } else {
      ExecutionKeeps(c, input, states, k - 1);
      ReadAheadBounded(c, input, states, k - 1);
      LimitHolds(c, input, states, k - 1);
      UnitKept(c, input, states[k - 1], states[k]);
    }
  }

  lemma {:induction false} UnitKept<T>(c: Config<T>, orig: seq<T>, s: State<T>, s': State<T>)
    requires Inv(c, orig, s) && Next(c, s, s') && StartsWithin(c, s) && Total(c.size, orig) < WORD
    requires s.readSoFar + Total(c.size, s.buf) <= c.readAhead && forall x :: c.size(x) == 1
    ensures s'.readSoFar + Total(c.size, s'.buf) <= c.readAhead
  {
    hide Total, DrainCount, Read, Commit;
    if CanDrain(s) && s' == Drain(c, s) {
      DrainedSize(c, orig, s);
      assert Drain(c, s).buf == s.buf;
    } else if i: nat :| CanRead(s, i) && s' == Read(c, s, i) {
      UnitRead(c, orig, s, i);
    } else if i: nat :| CanCommit(s, i) && s' == Commit(c, s, i) {
      UnitCommit(c, orig, s, i);
    }
  }

  lemma {:induction false} UnitRead<T>(c: Config<T>, orig: seq<T>, s: State<T>, i: nat)
    requires Inv(c, orig, s) && CanRead(s, i) && StartsWithin(c, s)
    requires s.readSoFar + Total(c.size, s.buf) <= c.readAhead && forall x :: c.size(x) == 1
    ensures Read(c, s, i).readSoFar + Total(c.size, Read(c, s, i).buf) <= c.readAhead
  {
    hide Total;
    assert |s.running| == 1 && i == 0;
    if s.input != [] {
      TotalConcat(c.size, s.buf, [s.input[0]]);
      TotalOne(c.size, s.input[0]);
    }
  }

  lemma {:induction false} UnitCommit<T>(c: Config<T>, orig: seq<T>, s: State<T>, i: nat)
    requires Inv(c, orig, s) && CanCommit(s, i) && Total(c.size, orig) < WORD
    requires s.readSoFar + Total(c.size, s.buf) <= c.readAhead
    ensures Commit(c, s, i).readSoFar + Total(c.size, Commit(c, s, i).buf) <= c.readAhead
  {
    hide Total;
    assert |s.running| == 1 && i == 0;
    TotalParts(c, orig, s);
    TotalNone(c.size);
  }

  // ------------------------------------------------------------ a run above the limit

  function Copies<T>(x: T, n: nat): (r: seq<T>)
    ensures |r| == n && forall i :: 0 <= i < n ==> r[i] == x
  {
    seq(n, _ => x)
  }

  lemma {:induction false} CopiesAdd<T>(x: T, n: nat, k: nat)
    ensures Copies(x, n) + Copies(x, k) == Copies(x, n + k) && Copies(x, 1) == [x] && Copies(x, 0) == []
  {
  }

  lemma {:induction false} CopiesTotal<T>(size: T -> nat, x: T, n: nat)
    requires size(x) == 1
    ensures Total(size, Copies(x, n)) == n
  {
    if n > 0 {
      CopiesTotal(size, x, n - 1);
      assert Copies(x, n)[1..] == Copies(x, n - 1);
    }
  }

  /** Items of size one up to one below the limit, and a large one behind them. */
  function LargeLast<T>(c: Config<T>, one: T, large: T): seq<T>
    requires c.readAhead > 0
  {
    Copies(one, c.readAhead - 1) + [large]
  }

  /** A run in the middle of that input, with `q` items in syncQ and `b` in its buffer. */
  function Reading<T>(c: Config<T>, one: T, large: T, q: nat, b: nat): State<T>
    requires q + b < c.readAhead
  {
    State(Copies(one, c.readAhead - 1 - q - b) + [large], Copies(one, b), Copies(one, q), [], [], q, true, false,
          0, [Run(Min(c.readAhead - q, c.readUpTo), b, false)], Free)
  }

  ghost predicate Reaches<T(!new)>(c: Config<T>, input: seq<T>, s: State<T>) {
    exists states :: Execution(c, input, states) && states[|states| - 1] == s
  }

  lemma {:induction false} ReachesNext<T(!new)>(c: Config<T>, input: seq<T>, s: State<T>, s': State<T>)
    requires Reaches(c, input, s) && Next(c, s, s')
    ensures Reaches(c, input, s')
  {
    hide Next;
    var states :| Execution(c, input, states) && states[|states| - 1] == s;
    var longer := states + [s'];
    forall i | 0 < i < |longer| ensures Next(c, longer[i - 1], longer[i]) {
      if i < |states| { assert Next(c, states[i - 1], states[i]); }
    }
    assert Execution(c, input, longer) && longer[|longer| - 1] == s';
  }

  lemma {:induction false} ReachesBegin<T(!new)>(c: Config<T>, input: seq<T>, s: State<T>)
    requires Reaches(c, input, s) && CanBegin(s)
    ensures Reaches(c, input, Begin(c, s))
  {
    hide Reaches;
    ReachesNext(c, input, s, Begin(c, s));
  }

  lemma {:induction false} ReachesRead<T(!new)>(c: Config<T>, input: seq<T>, s: State<T>)
    requires Reaches(c, input, s) && CanRead(s, 0)
    ensures Reaches(c, input, Read(c, s, 0))
  {
    hide Reaches;
    ReachesNext(c, input, s, Read(c, s, 0));
  }

  lemma {:induction false} ReachesCommit<T(!new)>(c: Config<T>, input: seq<T>, s: State<T>)
    requires Reaches(c, input, s) && CanCommit(s, 0)
    ensures Reaches(c, input, Commit(c, s, 0))
  {
    hide Reaches;
    ReachesNext(c, input, s, Commit(c, s, 0));
  }

  /** The same run with one item more in its buffer, which may be the last it reads. */
  function ReadMore<T>(c: Config<T>, one: T, large: T, q: nat, b: nat): State<T>
    requires q + b + 1 < c.readAhead
  {
    State(Copies(one, c.readAhead - 2 - q - b) + [large], Copies(one, b + 1), Copies(one, q), [], [], q, true, false,
          0, [Run(Min(c.readAhead - q, c.readUpTo), b + 1, false)], Free)
  }

  lemma {:induction false} ReadIsMore<T>(c: Config<T>, one: T, large: T, q: nat, b: nat)
    requires c.size(one) == 1 && q + b + 1 < c.readAhead && b < Min(c.readAhead - q, c.readUpTo)
    ensures CanRead(Reading(c, one, large, q, b), 0)
    ensures Read(c, Reading(c, one, large, q, b), 0) == ReadMore(c, one, large, q, b)
  {
    CopiesAdd(one, b, 1);
    var input := Reading(c, one, large, q, b).input;
    assert input[1..] == Copies(one, c.readAhead - 2 - q - b) + [large];
  }

  lemma {:induction false} CommitIsNext<T>(c: Config<T>, one: T, large: T, q: nat, b: nat)
    requires c.readAhead < WORD && q + b + 1 < c.readAhead && b + 1 == Min(c.readAhead - q, c.readUpTo)
    ensures CanCommit(ReadMore(c, one, large, q, b), 0)
    ensures var s := Commit(c, ReadMore(c, one, large, q, b), 0);
      CanBegin(s) && Begin(c, s) == Reading(c, one, large, q + b + 1, 0)
  {
    CopiesAdd(one, q, b + 1);
    CopiesAdd(one, 0, 0);
  }

  /** One item of size one further: within the run, or over its end into the next. */
  lemma {:induction false} ReadOne<T(!new)>(c: Config<T>, one: T, large: T, input: seq<T>, q: nat, b: nat) returns (q': nat, b': nat)
    requires 0 < c.readUpTo && c.readAhead < WORD && c.size(one) == 1
    requires q + b + 1 < c.readAhead && b < Min(c.readAhead - q, c.readUpTo)
    requires Reaches(c, input, Reading(c, one, large, q, b))
    ensures q' + b' == q + b + 1 && b' < Min(c.readAhead - q', c.readUpTo)
    ensures Reaches(c, input, Reading(c, one, large, q', b'))
  {
    hide Reaches, Read, Commit, Begin, CanRead, CanCommit, CanBegin;
    ReadIsMore(c, one, large, q, b);
    ReachesRead(c, input, Reading(c, one, large, q, b));
    var s := ReadMore(c, one, large, q, b);
    if b + 1 < Min(c.readAhead - q, c.readUpTo) {
      q', b' := q, b + 1;
      assert s == Reading(c, one, large, q', b');
    } else {
      q', b' := q + b + 1, 0;
      CommitIsNext(c, one, large, q, b);
      ReachesCommit(c, input, s);
      ReachesBegin(c, input, Commit(c, s, 0));
    }
  }

  lemma {:induction false} ReadOnes<T(!new)>(c: Config<T>, one: T, large: T, k: nat) returns (q: nat, b: nat)
    requires 0 < c.readUpTo && 0 < c.readAhead < WORD && c.size(one) == 1 && k < c.readAhead
    ensures q + b == k && b < Min(c.readAhead - q, c.readUpTo)
    ensures Reaches(c, LargeLast(c, one, large), Reading(c, one, large, q, b))
  {
    hide Reaches;
    var input := LargeLast(c, one, large);
    if k == 0 {
      q, b := 0, 0;
      StartReached(c, input);
      ReachesBegin(c, input, Init(input));
      CopiesAdd(one, 0, 0);
      assert Begin(c, Init(input)) == Reading(c, one, large, 0, 0);
    } else {
      q, b := ReadOnes(c, one, large, k - 1);
      q, b := ReadOne(c, one, large, input, q, b);
    }
  }

  lemma {:induction false} StartReached<T(!new)>(c: Config<T>, input: seq<T>)
    ensures Reaches(c, input, Init(input))
  {
    var states := [Init(input)];
    assert Execution(c, input, states) && states[|states| - 1] == Init(input);
  }

  /** The drain takes exactly readUpTo items of size one from the front. */
  lemma {:induction false} DrainOnes<T>(c: Config<T>, q: seq<T>, soFar: nat)
    requires soFar <= c.readUpTo <= soFar + |q|
    requires forall i :: 0 <= i < c.readUpTo - soFar ==> c.size(q[i]) == 1
    ensures DrainCount(c, q, soFar) == c.readUpTo - soFar
    ensures Total(c.size, q[..c.readUpTo - soFar]) == c.readUpTo - soFar
    decreases |q|
  {
    if soFar < c.readUpTo {
      DrainOnes(c, q[1..], soFar + 1);
      assert q[..c.readUpTo - soFar][1..] == q[1..][..c.readUpTo - soFar - 1];
    }
  }

  /** The large item ends its run: everything is in syncQ and nothing is scheduled. */
  function Full<T>(c: Config<T>, one: T, large: T): State<T>
    requires c.readAhead > 0
  {
    State([], [], LargeLast(c, one, large), [], [], c.readAhead - 1 + c.size(large), false, false, 0, [], Free)
  }

  lemma {:induction false} LargeFills<T>(c: Config<T>, one: T, large: T, q: nat, b: nat)
    requires q + b == c.readAhead - 1 && b < Min(c.readAhead - q, c.readUpTo)
    requires c.size(large) > c.readUpTo + 1 && c.readAhead + c.size(large) <= WORD
    ensures var s := Reading(c, one, large, q, b);
      CanRead(s, 0) && CanCommit(Read(c, s, 0), 0) && Commit(c, Read(c, s, 0), 0) == Full(c, one, large)
  {
    CopiesAdd(one, q, b);
    CopiesAdd(one, 0, 0);
    var s := Reading(c, one, large, q, b);
    assert s.input == [large];
    assert Copies(one, q) + (Copies(one, b) + [large]) == Copies(one, q + b) + [large];
  }

  /** Taking readUpTo items of size one from it leaves too much, and queues a run. */
  lemma {:induction false} DrainedFull<T>(c: Config<T>, one: T, large: T)
    requires 0 < c.readUpTo < c.readAhead && c.size(one) == 1
    requires c.size(large) > c.readUpTo + 1 && c.readAhead + c.size(large) <= WORD
    ensures var s := Drain(c, Full(c, one, large));
      && s.queued == 1 && s.running == []
      && s.readSoFar == c.readAhead - 1 + c.size(large) - c.readUpTo
  {
    hide Total, DrainCount;
    DrainOnes(c, LargeLast(c, one, large), 0);
  }

  /** One item of size one and one larger than readUpTo + 1 are enough: some execution queues a run above
      the limit, and that run is told to read on. */
  lemma {:induction false} LimitExceeded<T(!new)>(c: Config<T>, one: T, large: T) returns (input: seq<T>, s: State<T>)
    requires 0 < c.readUpTo < c.readAhead < WORD && c.size(one) == 1
    requires c.size(large) > c.readUpTo + 1 && c.readAhead + c.size(large) <= WORD
    ensures Total(c.size, input) < WORD && Reaches(c, input, s)
    ensures s.queued == 1 && s.readSoFar == c.readAhead - 1 + c.size(large) - c.readUpTo > c.readAhead
    ensures Begin(c, s).running == [Run(c.readUpTo, 0, false)] && !StartsWithin(c, s)
  {
    hide Reaches, Total, DrainCount, Read, Commit, Reading, CanRead, CanCommit;
    input := LargeLast(c, one, large);
    var q, b := ReadOnes(c, one, large, c.readAhead - 1);
    var s0 := Reading(c, one, large, q, b);
    LargeFills(c, one, large, q, b);
    ReachesRead(c, input, s0);
    ReachesCommit(c, input, Read(c, s0, 0));
    var full := Full(c, one, large);
    ReachesNext(c, input, full, Drain(c, full));
    s := Drain(c, full);
    DrainedFull(c, one, large);
    hide Drain;
    BudgetRespectsLimit(c, s.readSoFar);
    LargeLastSize(c, one, large);
  }

  lemma {:induction false} LargeLastSize<T>(c: Config<T>, one: T, large: T)
    requires c.readAhead > 0 && c.size(one) == 1
    ensures Total(c.size, LargeLast(c, one, large)) == c.readAhead - 1 + c.size(large)
  {
    hide Total;
    CopiesTotal(c.size, one, c.readAhead - 1);
    TotalConcat(c.size, Copies(one, c.readAhead - 1), [large]);
    TotalOne(c.size, large);
  }

  /** The budget of a run respects the limit exactly when the run starts at or below it: past the
      limit the unsigned difference wraps around and only readUpTo holds the run back. */
  lemma {:induction false} BudgetRespectsLimit<T>(c: Config<T>, readSoFar: nat)
    requires c.readAhead < WORD && readSoFar < WORD && 0 < c.readUpTo
    ensures readSoFar + Budget(c, readSoFar) <= c.readAhead <==> readSoFar <= c.readAhead
    ensures readSoFar > c.readAhead && c.readUpTo <= WORD - readSoFar ==> Budget(c, readSoFar) == c.readUpTo
  {
    if readSoFar > c.readAhead {
      assert (c.readAhead - readSoFar) % WORD == WORD + c.readAhead - readSoFar;
    }
  }

  /** For positive limits, where an item of size one exists, every run of every execution starts within the
      limit if and only if the items are bounded. */
  lemma {:induction false} LimitExact<T(!new)>(c: Config<T>, one: T)
    requires 0 < c.readUpTo && 0 < c.readAhead < WORD && c.size(one) == 1
    requires forall x :: c.readAhead + c.size(x) <= WORD
    ensures (forall input, s :: Total(c.size, input) < WORD && Reaches(c, input, s) ==> StartsWithin(c, s)) <==> Bounded(c)
  {
    hide Total, StartsWithin;
    if Bounded(c) {
      forall input, s | Total(c.size, input) < WORD && Reaches(c, input, s) ensures StartsWithin(c, s) {
        var states :| Execution(c, input, states) && states[|states| - 1] == s;
        LimitHolds(c, input, states, |states| - 1);
      }
    } else {
      hide Reaches;
      var large :| c.size(large) > c.readUpTo + 1;
      var input, s := LimitExceeded(c, one, large);
    }
  }

  /** Up to three bytes ahead, one at a time: over items of 1, 1 and 10 bytes a run is queued with eleven
      bytes ahead. */
  lemma {:induction false} LimitExample() returns (input: seq<nat>, s: State<nat>)
    ensures var c := Config((x: nat) => x, 3, 1);
      Total(c.size, input) < WORD && Reaches(c, input, s) && s.queued == 1 && s.readSoFar == 11
  {
    hide Reaches, Total;
    input, s := LimitExceeded(Config((x: nat) => x, 3, 1), 1, 10);
  }
}
