/** ThreadedReader's read-ahead task: a producer run by a worker pool and one consumer.
    Each step is one section of code executed under the mutex, or one item read outside of it. */
module ThreadedReader {
  import opened Bytes

  /** Item sizes and limits. Limits are size_t. */
  datatype Config<!T> = Config(size: T -> nat, readAhead: nat, readUpTo: nat)

  /** The locals of one execution of run(): its budget, the amount read, and end of stream. */
  datatype Run = Run(readMax: nat, readSz: nat, eos: bool)

  /** Where the consumer thread is. A blocked thread continues only after it was notified. */
  datatype Consumer = Free | Waiting(woken: bool) | Cancelling(woken: bool) | Cancelled

  /** `queued` counts submissions the pool has not started, `running` the executions in progress. */
  datatype State<T> = State(
    input: seq<T>, buf: seq<T>, syncQ: seq<T>, readQ: seq<T>, delivered: seq<T>,
    readSoFar: nat, scheduled: bool, done: bool,
    queued: nat, running: seq<Run>, consumer: Consumer)

  function Total<T>(size: T -> nat, xs: seq<T>): nat {
    if xs == [] then 0 else size(xs[0]) + Total(size, xs[1..])
  }

  function Min(a: nat, b: nat): nat { if a < b then a else b }

  /** notify_all */
  function Notified(c: Consumer): Consumer {
    match c
    case Waiting(_) => Waiting(true)
    case Cancelling(_) => Cancelling(true)
    case _ => c
  }

  // ------------------------------------------------------------ steps of run()

  /** The budget: an unsigned difference, then a minimum. */
  function Budget<T>(c: Config<T>, readSoFar: nat): nat {
    Min((c.readAhead - readSoFar) % WORD, c.readUpTo)
  }

  predicate CanBegin<T>(s: State<T>) { s.queued > 0 }

  function Begin<T>(c: Config<T>, s: State<T>): State<T>
    requires CanBegin(s)
  {
    s.(queued := s.queued - 1, running := s.running + [Run(Budget(c, s.readSoFar), 0, false)])
  }

  predicate CanRead<T>(s: State<T>, i: nat) {
    i < |s.running| && !s.running[i].eos && s.running[i].readSz < s.running[i].readMax
  }

  function Read<T>(c: Config<T>, s: State<T>, i: nat): State<T>
    requires CanRead(s, i)
  {
    var r := s.running[i];
    if s.input == [] then s.(running := s.running[i := r.(eos := true)])
    else s.(input := s.input[1..], buf := s.buf + [s.input[0]],
            running := s.running[i := r.(readSz := r.readSz + c.size(s.input[0]))])
  }

  predicate CanCommit<T>(s: State<T>, i: nat) {
    i < |s.running| && (s.running[i].eos || s.running[i].readSz >= s.running[i].readMax)
  }

  function Commit<T>(c: Config<T>, s: State<T>, i: nat): State<T>
    requires CanCommit(s, i)
  {
    var r := s.running[i];
    var readSoFar := (s.readSoFar + r.readSz) % WORD;
    var done := s.done || r.eos;
    var again := !done && readSoFar < c.readAhead;
    s.(syncQ := s.syncQ + s.buf, buf := [], readSoFar := readSoFar, done := done,
       queued := if again then s.queued + 1 else s.queued,
       scheduled := s.scheduled && again,
       running := s.running[..i] + s.running[i + 1..],
       consumer := Notified(s.consumer))
  }

  // ------------------------------------------------------------ steps of the consumer

  predicate CanPop<T>(s: State<T>) { s.consumer.Free? && s.readQ != [] }

  function Pop<T>(s: State<T>): State<T>
    requires CanPop(s)
  {
    s.(readQ := s.readQ[1..], delivered := s.delivered + [s.readQ[0]])
  }

  /** get() holds the mutex with an empty readQ: on entry, or after being woken. */
  predicate HoldsLock<T>(s: State<T>) {
    s.readQ == [] && (s.consumer.Free? || s.consumer == Waiting(true))
  }

  predicate CanBlock<T>(s: State<T>) { HoldsLock(s) && s.syncQ == [] && !s.done }

  function Block<T>(s: State<T>): State<T> { s.(consumer := Waiting(false)) }

  /** How many items the drain loop moves: until their size reaches the limit. */
  function DrainCount<T>(c: Config<T>, q: seq<T>, soFar: nat): (n: nat)
    ensures n <= |q|
  {
    if q == [] || soFar >= c.readUpTo then 0 else 1 + DrainCount(c, q[1..], soFar + c.size(q[0]))
  }

  predicate CanDrain<T>(s: State<T>) { HoldsLock(s) && (s.syncQ != [] || s.done) }

  function Drain<T>(c: Config<T>, s: State<T>): State<T>
    requires CanDrain(s)
  {
    var n := DrainCount(c, s.syncQ, 0);
    var submit := !s.scheduled && !s.done;
    s.(readQ := s.readQ + s.syncQ[..n], syncQ := s.syncQ[n..],
       readSoFar := (s.readSoFar - Total(c.size, s.syncQ[..n])) % WORD,
       scheduled := s.scheduled || submit,
       queued := if submit then s.queued + 1 else s.queued,
       consumer := Free)
  }

  predicate CanCancel<T>(s: State<T>) { s.consumer.Free? }

  /** cancel(): set done, then return at once or wait for the task. */
  function Cancel<T>(s: State<T>): State<T> {
    s.(done := true, consumer := if s.scheduled then Cancelling(false) else Cancelled)
  }

  predicate CanRecheck<T>(s: State<T>) { s.consumer == Cancelling(true) }

  function Recheck<T>(s: State<T>): State<T> {
    s.(consumer := if s.scheduled then Cancelling(false) else Cancelled)
  }

  // ------------------------------------------------------------ runs

  /** Some thread takes a step. */
  ghost predicate Next<T>(c: Config<T>, s: State<T>, s': State<T>) {
    || (CanBegin(s) && s' == Begin(c, s))
    || (exists i: nat :: CanRead(s, i) && s' == Read(c, s, i))
    || (exists i: nat :: CanCommit(s, i) && s' == Commit(c, s, i))
    || (CanPop(s) && s' == Pop(s))
    || (CanBlock(s) && s' == Block(s))
    || (CanDrain(s) && s' == Drain(c, s))
    || (CanCancel(s) && s' == Cancel(s))
    || (CanRecheck(s) && s' == Recheck(s))
  }

  /** The constructor: nothing read, and the task submitted. */
  function Init<T>(input: seq<T>): State<T> {
    State(input, [], [], [], [], 0, true, false, 1, [], Free)
  }

  ghost predicate Execution<T>(c: Config<T>, input: seq<T>, states: seq<State<T>>) {
    && |states| > 0 && states[0] == Init(input)
    && forall i :: 0 < i < |states| ==> Next(c, states[i - 1], states[i])
  }

  // ------------------------------------------------------------ invariants

  function Stopping<T>(s: State<T>): bool { s.consumer.Cancelling? || s.consumer.Cancelled? }

  /** No item is lost, duplicated or reordered. */
  ghost predicate Conserved<T>(orig: seq<T>, s: State<T>) {
    s.delivered + s.readQ + s.syncQ + s.buf + s.input == orig
  }

  /** `scheduled` holds exactly when one task is queued or running, and never more than one is. */
  ghost predicate OneTask<T>(s: State<T>) {
    s.queued + |s.running| == if s.scheduled then 1 else 0
  }

  /** The counters are the sizes of what they count; only a running task holds items in `buf`. */
  ghost predicate Counted<T>(c: Config<T>, s: State<T>) {
    && s.readSoFar == Total(c.size, s.syncQ)
    && (s.running == [] ==> s.buf == [])
    && (forall i :: 0 <= i < |s.running| ==>
          s.running[i].readSz == Total(c.size, s.buf) && (s.running[i].eos ==> s.input == []))
  }

  /** End of stream is recorded only when everything was read, and then the task is gone. */
  ghost predicate DoneMeansDone<T>(s: State<T>) {
    s.done && !Stopping(s) ==> s.input == [] && s.buf == [] && !s.scheduled
  }

  /** A task is dropped only at the end or with a full queue; a thread that sleeps without having
      been notified has nothing to take, and a task that will notify it. */
  ghost predicate NoLostWakeup<T>(c: Config<T>, s: State<T>) {
    && (!s.scheduled ==> s.done || s.readSoFar >= c.readAhead)
    && (s.consumer == Waiting(false) ==> s.syncQ == [] && !s.done && s.scheduled)
    && (s.consumer.Waiting? ==> s.readQ == [])
    && (s.consumer == Cancelling(false) ==> s.scheduled)
    && (Stopping(s) ==> s.done)
    && (s.consumer == Cancelled ==> !s.scheduled)
  }

  ghost predicate Inv<T>(c: Config<T>, orig: seq<T>, s: State<T>) {
    Conserved(orig, s) && OneTask(s) && Counted(c, s) && DoneMeansDone(s) && NoLostWakeup(c, s)
  }

  lemma {:induction false} TotalConcat<T>(size: T -> nat, a: seq<T>, b: seq<T>)
    ensures Total(size, a + b) == Total(size, a) + Total(size, b)
  {
    if a == [] {
      assert a + b == b;
    } else {
      assert (a + b)[1..] == a[1..] + b;
      TotalConcat(size, a[1..], b);
    }
  }

  /** Nothing held by the task is larger than the whole input. */
  lemma {:induction false} TotalParts<T>(c: Config<T>, orig: seq<T>, s: State<T>)
    requires Conserved(orig, s)
    ensures Total(c.size, s.syncQ) + Total(c.size, s.buf) + Total(c.size, s.input) <= Total(c.size, orig)
  {
    hide Total;
    TotalConcat(c.size, s.delivered + s.readQ + s.syncQ + s.buf, s.input);
    TotalConcat(c.size, s.delivered + s.readQ + s.syncQ, s.buf);
    TotalConcat(c.size, s.delivered + s.readQ, s.syncQ);
  }

  lemma {:induction false} TotalNone<T>(size: T -> nat)
    ensures Total(size, []) == 0
  {
  }

  lemma {:induction false} BeginKeeps<T>(c: Config<T>, orig: seq<T>, s: State<T>)
    requires Inv(c, orig, s) && CanBegin(s)
    ensures Inv(c, orig, Begin(c, s))
  {
    hide Total;
    assert s.running == [];
    assert Total(c.size, []) == 0 by { TotalNone(c.size); }
  }

  lemma {:induction false} TotalOne<T>(size: T -> nat, x: T)
    ensures Total(size, [x]) == size(x)
  {
  }

  lemma {:induction false} ReadKeeps<T>(c: Config<T>, orig: seq<T>, s: State<T>, i: nat)
    requires Inv(c, orig, s) && CanRead(s, i)
    ensures Inv(c, orig, Read(c, s, i))
  {
    hide Total;
    assert |s.running| == 1 && i == 0;
    if s.input != [] {
      var x := s.input[0];
      TotalConcat(c.size, s.buf, [x]);
      TotalOne(c.size, x);
      var front := s.delivered + s.readQ + s.syncQ;
      assert s.input == [x] + s.input[1..];
      assert front + (s.buf + [x]) + s.input[1..] == front + s.buf + ([x] + s.input[1..]);
    }
  }

  lemma {:induction false} CommitKeeps<T>(c: Config<T>, orig: seq<T>, s: State<T>, i: nat)
    requires Inv(c, orig, s) && CanCommit(s, i) && Total(c.size, orig) < WORD
    ensures Inv(c, orig, Commit(c, s, i))
  {
    hide Total;
    assert |s.running| == 1 && i == 0;
    TotalParts(c, orig, s);
    TotalConcat(c.size, s.syncQ, s.buf);
    var front := s.delivered + s.readQ;
    assert front + (s.syncQ + s.buf) + [] + s.input == front + s.syncQ + s.buf + s.input;
  }

  lemma {:induction false} PopKeeps<T>(c: Config<T>, orig: seq<T>, s: State<T>)
    requires Inv(c, orig, s) && CanPop(s)
    ensures Inv(c, orig, Pop(s))
  {
    hide Total;
    assert s.delivered + [s.readQ[0]] + s.readQ[1..] == s.delivered + s.readQ;
  }

  lemma {:induction false} DrainKeeps<T>(c: Config<T>, orig: seq<T>, s: State<T>)
    requires Inv(c, orig, s) && CanDrain(s) && Total(c.size, orig) < WORD
    ensures Inv(c, orig, Drain(c, s))
  {
    hide Total, DrainCount;
    var n := DrainCount(c, s.syncQ, 0);
    var a, b := s.syncQ[..n], s.syncQ[n..];
    assert s.syncQ == a + b;
    TotalConcat(c.size, a, b);
    TotalParts(c, orig, s);
    assert s.delivered + (s.readQ + a) + b == s.delivered + s.readQ + s.syncQ;
  }

  /** Every step of every thread keeps the invariant. */
  lemma {:induction false} NextKeeps<T>(c: Config<T>, orig: seq<T>, s: State<T>, s': State<T>)
    requires Inv(c, orig, s) && Next(c, s, s')
    requires c.readAhead > 0 && Total(c.size, orig) < WORD
    ensures Inv(c, orig, s')
  {
    hide Total, Begin, Read, Commit, Drain, Inv;
    if CanBegin(s) && s' == Begin(c, s) {
      BeginKeeps(c, orig, s);
    } else if i: nat :| CanRead(s, i) && s' == Read(c, s, i) {
      ReadKeeps(c, orig, s, i);
    } else if i: nat :| CanCommit(s, i) && s' == Commit(c, s, i) {
      CommitKeeps(c, orig, s, i);
    } else if CanPop(s) && s' == Pop(s) {
      PopKeeps(c, orig, s);
    } else if CanDrain(s) && s' == Drain(c, s) {
      DrainKeeps(c, orig, s);
    } else {
      WaitingKeeps(c, orig, s, s');
    }
  }

  lemma {:induction false} WaitingKeeps<T>(c: Config<T>, orig: seq<T>, s: State<T>, s': State<T>)
    requires Inv(c, orig, s) && c.readAhead > 0
    requires (CanBlock(s) && s' == Block(s)) || (CanCancel(s) && s' == Cancel(s)) || (CanRecheck(s) && s' == Recheck(s))
    ensures Inv(c, orig, s')
  {
    hide Total;
    assert Total(c.size, []) == 0 by { TotalNone(c.size); }
  }

  /** The invariant holds in every state of every execution. */
  lemma {:induction false} ExecutionKeeps<T>(c: Config<T>, input: seq<T>, states: seq<State<T>>, k: nat)
    requires Execution(c, input, states) && k < |states|
    requires c.readAhead > 0 && Total(c.size, input) < WORD
    ensures Inv(c, input, states[k])
  {
    hide Next, Inv;
    if k == 0 {
      InitKeeps(c, input);
    } else {
      ExecutionKeeps(c, input, states, k - 1);
      NextKeeps(c, input, states[k - 1], states[k]);
    }
  }

  lemma {:induction false} InitKeeps<T>(c: Config<T>, input: seq<T>)
    ensures Inv(c, input, Init(input))
  {
    assert [] + [] + [] + [] + input == input;
  }

  // ------------------------------------------------------------ what it means for callers

  /** At every moment the delivered items are a prefix of the input, in order. When get() drains the
      queue and still has nothing to return, so reports the end, they are all of the input. */
  lemma {:induction false} DeliversInOrder<T>(c: Config<T>, input: seq<T>, states: seq<State<T>>, k: nat)
    requires Execution(c, input, states) && k < |states|
    requires c.readAhead > 0 && c.readUpTo > 0 && Total(c.size, input) < WORD
    ensures states[k].delivered <= input
    ensures CanDrain(states[k]) && Drain(c, states[k]).readQ == [] && !Stopping(states[k])
            ==> states[k].delivered == input
  {
    hide Total, Next;
    ExecutionKeeps(c, input, states, k);
    var s := states[k];
    assert s.delivered + s.readQ + s.syncQ + s.buf + s.input == s.delivered + (s.readQ + s.syncQ + s.buf + s.input);
    if CanDrain(s) && Drain(c, s).readQ == [] && !Stopping(s) {
      assert DrainCount(c, s.syncQ, 0) == 0;
      assert s.delivered + [] + [] + [] + [] == s.delivered;
    }
  }

  /** No two executions of run() overlap, and whoever sleeps can count on one that will notify it. */
  lemma {:induction false} NoDeadlock<T>(c: Config<T>, input: seq<T>, states: seq<State<T>>, k: nat)
    requires Execution(c, input, states) && k < |states|
    requires c.readAhead > 0 && Total(c.size, input) < WORD
    ensures var s := states[k];
      && s.queued + |s.running| <= 1
      && (s.scheduled <==> s.queued + |s.running| == 1)
      && (s.consumer == Waiting(false) || s.consumer == Cancelling(false) ==> s.queued + |s.running| == 1)
  {
    hide Total, Next;
    ExecutionKeeps(c, input, states, k);
  }

  /** A run that starts below the limit moves the stream forward: it brings an item or the end. */
  lemma {:induction false} RunMakesProgress<T>(c: Config<T>, orig: seq<T>, s: State<T>, i: nat)
    requires Inv(c, orig, s) && CanCommit(s, i) && s.running[i].readMax > 0
    ensures s.buf != [] || s.running[i].eos
  {
    if s.buf == [] { TotalNone(c.size); }
  }

  ghost predicate IsCommit<T>(c: Config<T>, s: State<T>, s': State<T>) {
    exists i: nat :: CanCommit(s, i) && s' == Commit(c, s, i)
  }

  /** There is something to take, or whoever is running has been told to read. */
  ghost predicate Serving<T>(s: State<T>) {
    s.syncQ != [] || s.done || forall i :: 0 <= i < |s.running| ==> s.running[i].readMax > 0
  }

  lemma {:induction false} ServingKept<T>(c: Config<T>, orig: seq<T>, s: State<T>, s': State<T>)
    requires Inv(c, orig, s) && Serving(s) && Next(c, s, s') && s.consumer.Waiting? && s'.consumer.Waiting?
    requires 0 < c.readAhead < WORD && c.readUpTo > 0
    ensures Serving(s')
  {
    hide Total, Conserved, DoneMeansDone, Commit, DrainCount;
    if CanBegin(s) && s' == Begin(c, s) {
      if s.syncQ == [] { TotalNone(c.size); }
    } else if i: nat :| CanCommit(s, i) && s' == Commit(c, s, i) {
      CommitServes(c, orig, s, i);
    }
  }

  /** A commit of a run that was told to read brings something to take or the end; any commit leaves no
      run behind. */
  lemma {:induction false} CommitServes<T>(c: Config<T>, orig: seq<T>, s: State<T>, i: nat)
    requires Inv(c, orig, s) && CanCommit(s, i)
    ensures Commit(c, s, i).running == []
    ensures Serving(s) ==> Commit(c, s, i).syncQ != [] || Commit(c, s, i).done
  {
    hide Total, Conserved, DoneMeansDone;
    assert |s.running| == 1 && i == 0;
    if s.running[i].readMax > 0 { RunMakesProgress(c, orig, s, i); }
  }

  /** With positive limits a consumer that stays blocked over two commits has something to take after the
      second, or the end of the stream. */
  lemma {:induction false} ServedAfterTwoCommits<T>(c: Config<T>, input: seq<T>, states: seq<State<T>>, a: nat, b: nat)
    requires Execution(c, input, states) && a < b < |states| - 1
    requires 0 < c.readAhead < WORD && c.readUpTo > 0 && Total(c.size, input) < WORD
    requires forall j :: a <= j <= b + 1 ==> states[j].consumer.Waiting?
    requires IsCommit(c, states[a], states[a + 1]) && IsCommit(c, states[b], states[b + 1])
    ensures states[b + 1].syncQ != [] || states[b + 1].done
  {
    hide Total, Inv, Next, Serving, Commit, CanCommit;
    ExecutionKeeps(c, input, states, b);
    ServingFrom(c, input, states, a, b);
    var i: nat :| CanCommit(states[b], i) && states[b + 1] == Commit(c, states[b], i);
    CommitServes(c, input, states[b], i);
  }

  lemma {:induction false} ServingFrom<T>(c: Config<T>, input: seq<T>, states: seq<State<T>>, a: nat, b: nat)
    requires Execution(c, input, states) && a < b < |states|
    requires 0 < c.readAhead < WORD && c.readUpTo > 0 && Total(c.size, input) < WORD
    requires forall j :: a <= j <= b ==> states[j].consumer.Waiting?
    requires IsCommit(c, states[a], states[a + 1])
    ensures Serving(states[b])
    decreases b
  {
    hide Total, Inv, Next, Commit, CanCommit;
    ExecutionKeeps(c, input, states, b - 1);
    if b == a + 1 {
      var i: nat :| CanCommit(states[a], i) && states[a + 1] == Commit(c, states[a], i);
      CommitServes(c, input, states[a], i);
    } else {
      hide Serving;
      ServingFrom(c, input, states, a, b - 1);
      ServingKept(c, input, states[b - 1], states[b]);
    }
  }

  /** Once cancel() has returned nothing is queued or running, and no thread can take another step. */
  lemma {:induction false} CancelIsFinal<T>(c: Config<T>, input: seq<T>, states: seq<State<T>>, k: nat)
    requires Execution(c, input, states) && k < |states|
    requires c.readAhead > 0 && Total(c.size, input) < WORD
    requires states[k].consumer == Cancelled
    ensures states[k].queued == 0 && states[k].running == []
    ensures k == |states| - 1
  {
    hide Total, Inv, Next;
    ExecutionKeeps(c, input, states, k);
    CancelledIsIdle(c, input, states[k]);
    if k + 1 < |states| {
      assert Next(c, states[k + 1 - 1], states[k + 1]);
      NothingFollows(c, states[k], states[k + 1]);
    }
  }

  ghost predicate GetGoesOn<T>(s: State<T>) { s.consumer == Waiting(true) && (CanBlock(s) || CanDrain(s)) }

  ghost predicate TaskGoesOn<T>(s: State<T>) {
    s.queued + |s.running| == 1 && (CanBegin(s) || CanRead(s, 0) || CanCommit(s, 0))
  }

  /** A get() that waits goes on as soon as it was notified; until then the one task can take a step, and its commit
      notifies. */
  lemma {:induction false} GetIsWoken<T>(c: Config<T>, input: seq<T>, states: seq<State<T>>, k: nat)
    requires Execution(c, input, states) && k < |states|
    requires c.readAhead > 0 && Total(c.size, input) < WORD && states[k].consumer.Waiting?
    ensures var s := states[k];
      if s.consumer.woken then GetGoesOn(s)
      else TaskGoesOn(s) && forall i :: CanCommit(s, i) ==> GetGoesOn(Commit(c, s, i))
  {
    hide Total, Next;
    ExecutionKeeps(c, input, states, k);
    WaitEnds(c, input, states[k]);
  }

  lemma {:induction false} WaitEnds<T>(c: Config<T>, orig: seq<T>, s: State<T>)
    requires Inv(c, orig, s) && s.consumer.Waiting?
    ensures
      if s.consumer.woken then GetGoesOn(s)
      else TaskGoesOn(s) && forall i :: CanCommit(s, i) ==> GetGoesOn(Commit(c, s, i))
  {
    hide Total, Conserved, Counted;
  }

  /** A cancel() that waits returns: the one task, if there is one, can always take a step, its commit is the last thing
      it does, and behind it the waiting thread sees that nothing is scheduled. */
  lemma {:induction false} CancelReturns<T>(c: Config<T>, input: seq<T>, states: seq<State<T>>, k: nat)
    requires Execution(c, input, states) && k < |states|
    requires c.readAhead > 0 && Total(c.size, input) < WORD && states[k].consumer.Cancelling?
    ensures var s := states[k];
      if s.queued == 0 && s.running == [] then CanRecheck(s) && Recheck(s).consumer == Cancelled
      else
        TaskGoesOn(s) && forall i :: CanCommit(s, i) ==> LastCommit(Commit(c, s, i))
  {
    hide Total, Next;
    ExecutionKeeps(c, input, states, k);
    CancelEnds(c, input, states[k]);
  }

  /** Nothing is queued or running, and the waiting thread returns as soon as it looks. */
  ghost predicate LastCommit<T>(s: State<T>) {
    s.queued == 0 && s.running == [] && CanRecheck(s) && Recheck(s).consumer == Cancelled
  }

  lemma {:induction false} CancelEnds<T>(c: Config<T>, orig: seq<T>, s: State<T>)
    requires Inv(c, orig, s) && s.consumer.Cancelling?
    ensures
      if s.queued == 0 && s.running == [] then CanRecheck(s) && Recheck(s).consumer == Cancelled
      else
        TaskGoesOn(s) && forall i :: CanCommit(s, i) ==> LastCommit(Commit(c, s, i))
  {
    hide Total, Conserved, Counted;
    forall i | CanCommit(s, i) ensures LastCommit(Commit(c, s, i)) {
      assert i == 0 && s.running[..0] + s.running[1..] == [];
    }
  }

  lemma {:induction false} CancelledIsIdle<T>(c: Config<T>, orig: seq<T>, s: State<T>)
    requires Inv(c, orig, s) && s.consumer == Cancelled
    ensures s.queued == 0 && s.running == []
  {
    hide Total;
  }

  lemma {:induction false} NothingFollows<T>(c: Config<T>, s: State<T>, s': State<T>)
    requires s.consumer == Cancelled && s.queued == 0 && s.running == []
    ensures !Next(c, s, s')
  {
  }

  // ------------------------------------------------------------ the object

  /** ReadTask. Each method is one section of the source: what run() does under the mutex before and
      after reading, its read loop, the locked part of get(), and the start of cancel(). */
  class ReadTask<T> {
    const c: Config<T>
    var input: seq<T>
    var buf: seq<T>
    var syncQ: seq<T>
    var readQ: seq<T>
    var readSoFar: nat
    var scheduled: bool
    var done: bool

    /** What the pool, the running execution and the consumer contribute to the whole state. */
    ghost var delivered: seq<T>
    ghost var queued: nat
    ghost var running: seq<Run>
    ghost var consumer: Consumer

    ghost function View(): State<T>
      reads this
    {
      State(input, buf, syncQ, readQ, delivered, readSoFar, scheduled, done, queued, running, consumer)
    }

    constructor (c: Config<T>, input: seq<T>)
      ensures this.c == c && View() == Init(input)
    {
      this.c, this.input, buf, syncQ, readQ := c, input, [], [], [];
      readSoFar, scheduled, done := 0, true, false;
      delivered, queued, running, consumer := [], 1, [], Free;
    }

    method RunBegin() returns (readMax: nat)
      requires CanBegin(View()) && running == []
      modifies this`queued, this`running
      ensures View() == Begin(c, old(View())) && running == [Run(readMax, 0, false)]
    {
      readMax := Budget(c, readSoFar);
      queued, running := queued - 1, running + [Run(readMax, 0, false)];
    }

    /** The read loop: one Read step after another until none is possible. */
    method RunRead(readMax: nat, ghost orig: seq<T>) returns (readSz: nat, eos: bool)
      requires running == [Run(readMax, 0, false)] && Inv(c, orig, View())
      modifies this`input, this`buf, this`running
      ensures Inv(c, orig, View())
      ensures running == [Run(readMax, readSz, eos)] && CanCommit(View(), 0)
      ensures old(buf + input) == buf + input && old(buf) <= buf
    {
      hide Inv, Total, Begin, Commit, Drain;
      readSz, eos := 0, false;
      while !eos && readSz < readMax
        invariant Inv(c, orig, View())
        invariant running == [Run(readMax, readSz, eos)]
        invariant old(buf + input) == buf + input && old(buf) <= buf
        decreases !eos, |input|
      {
        ghost var s := View();
        ReadKeeps(c, orig, s, 0);
        if input == [] {
          eos := true;
        } else {
          var x := input[0];
          assert buf + input == buf + [x] + input[1..];
          input, buf := input[1..], buf + [x];
          readSz := readSz + c.size(x);
        }
        running := [Run(readMax, readSz, eos)];
        assert View() == Read(c, s, 0);
      }
    }

    method RunCommit(readSz: nat, eos: bool)
      requires CanCommit(View(), 0) && |running| == 1 && running[0].readSz == readSz && running[0].eos == eos
      requires scheduled
      modifies this
      ensures View() == Commit(c, old(View()), 0)
    {
      assert running[..0] + running[1..] == [];
      syncQ := syncQ + buf;
      buf := [];
      readSoFar := (readSoFar + readSz) % WORD;
      if eos { done := true; }
      if !done && readSoFar < c.readAhead {
        queued := queued + 1;
      } else {
        scheduled := false;
      }
      running := [];
      consumer := Notified(consumer);
    }

    /** The drain loop of get(). */
    method CountDrain() returns (n: nat, bufferedSz: nat)
      ensures n == DrainCount(c, syncQ, 0) && bufferedSz == Total(c.size, syncQ[..n])
    {
      n, bufferedSz := 0, 0;
      while n < |syncQ| && bufferedSz < c.readUpTo
        invariant n <= |syncQ| && bufferedSz == Total(c.size, syncQ[..n])
        invariant n + DrainCount(c, syncQ[n..], bufferedSz) == DrainCount(c, syncQ, 0)
      {
        var x := syncQ[n];
        assert syncQ[..n + 1] == syncQ[..n] + [x];
        TotalConcat(c.size, syncQ[..n], [x]);
        TotalOne(c.size, x);
        n, bufferedSz := n + 1, bufferedSz + c.size(x);
      }
    }

    method GetLocked()
      requires CanDrain(View())
      modifies this
      ensures View() == Drain(c, old(View()))
    {
      var n, bufferedSz := CountDrain();
      readQ := readQ + syncQ[..n];
      syncQ := syncQ[n..];
      readSoFar := (readSoFar - bufferedSz) % WORD;
      if !scheduled && !done {
        scheduled := true;
        queued := queued + 1;
      }
      consumer := Free;
    }

    method PopFront() returns (x: T)
      requires CanPop(View())
      modifies this`readQ, this`delivered
      ensures View() == Pop(old(View())) && delivered == old(delivered) + [x]
    {
      x := readQ[0];
      readQ := readQ[1..];
      delivered := delivered + [x];
    }

    method CancelBegin()
      requires CanCancel(View())
      modifies this`done, this`consumer
      ensures View() == Cancel(old(View()))
    {
      done := true;
      consumer := if scheduled then Cancelling(false) else Cancelled;
    }
  }
}
