/** Buffered writers and scanners over one synchronized table. */
module SyncTable {
  import opened Bytes
  import opened Options
  import opened Cells
  import opened CellFilter
  import opened MemoryTable
  import opened ScanPredicate
  import opened TableScan

  /** A mutation in the table's log, with the writer that issued it. */
  datatype Entry = Entry(writer: nat, mutation: Mutation)

  function Tagged(w: nat, ms: seq<Mutation>): (r: seq<Entry>)
    ensures |r| == |ms|
  {
    if ms == [] then [] else [Entry(w, ms[0])] + Tagged(w, ms[1..])
  }

  function Untagged(log: seq<Entry>): seq<Mutation> {
    if log == [] then [] else [log[0].mutation] + Untagged(log[1..])
  }

  /** What writer `w` contributed, in order. */
  function Project(log: seq<Entry>, w: nat): seq<Mutation> {
    if log == [] then []
    else (if log[0].writer == w then [log[0].mutation] else []) + Project(log[1..], w)
  }

  lemma {:induction false} UntaggedConcat(a: seq<Entry>, b: seq<Entry>)
    ensures Untagged(a + b) == Untagged(a) + Untagged(b)
  {
    if a == [] {
      assert a + b == b;
    } else {
      assert (a + b)[1..] == a[1..] + b;
      UntaggedConcat(a[1..], b);
      assert [a[0].mutation] + (Untagged(a[1..]) + Untagged(b)) == [a[0].mutation] + Untagged(a[1..]) + Untagged(b);
    }
  }

  lemma {:induction false} ProjectConcat(a: seq<Entry>, b: seq<Entry>, w: nat)
    ensures Project(a + b, w) == Project(a, w) + Project(b, w)
  {
    if a == [] {
      assert a + b == b;
    } else {
      assert (a + b)[1..] == a[1..] + b;
      ProjectConcat(a[1..], b, w);
      var h := if a[0].writer == w then [a[0].mutation] else [];
      assert h + (Project(a[1..], w) + Project(b, w)) == h + Project(a[1..], w) + Project(b, w);
    }
  }

  lemma {:induction false} TaggedProject(w: nat, ms: seq<Mutation>, v: nat)
    ensures Untagged(Tagged(w, ms)) == ms
    ensures Project(Tagged(w, ms), v) == if v == w then ms else []
  {
    if ms != [] {
      var t := Tagged(w, ms);
      assert t != [] && t[0] == Entry(w, ms[0]) && t[1..] == Tagged(w, ms[1..]);
      hide Tagged;
      TaggedProject(w, ms[1..], v);
      assert ms == [ms[0]] + ms[1..];
    }
  }

  // ------------------------------------------------------------ many writers

  /** The table and its log, and per writer its buffer and everything it ever issued. */
  datatype State = State(contents: Contents, log: seq<Entry>, buffers: seq<seq<Mutation>>, issued: seq<seq<Mutation>>)

  /** A writer buffers a mutation; a writer empties its buffer into the table under the mutex; or a
      writer without a buffer mutates the table directly. */
  datatype Action = Issue(w: nat, m: Mutation) | Flush(w: nat) | Direct(w: nat, m: Mutation)

  predicate Enabled(s: State, a: Action) {
    a.w < |s.buffers| == |s.issued| && (a.Direct? ==> s.buffers[a.w] == [])
  }

  function Step(s: State, a: Action): State
    requires Enabled(s, a)
  {
    match a
    case Issue(w, m) =>
      s.(buffers := s.buffers[w := s.buffers[w] + [m]], issued := s.issued[w := s.issued[w] + [m]])
    case Flush(w) =>
      s.(contents := Replay(s.contents, s.buffers[w]), log := s.log + Tagged(w, s.buffers[w]),
         buffers := s.buffers[w := []])
    case Direct(w, m) =>
      s.(contents := s.contents[m.key := AsCell(m).value], log := s.log + [Entry(w, m)],
         issued := s.issued[w := s.issued[w] + [m]])
  }

  function Init(writers: nat): State {
    State(map[], [], seq(writers, _ => []), seq(writers, _ => []))
  }

  ghost predicate Execution(writers: nat, actions: seq<Action>, states: seq<State>) {
    && |states| == |actions| + 1 && states[0] == Init(writers)
    && forall i :: 0 <= i < |actions| ==> Enabled(states[i], actions[i]) && states[i + 1] == Step(states[i], actions[i])
  }

  /** The table is the replay of the log; each writer's part of the log followed by its buffer is
      what it issued. */
  ghost predicate Inv(s: State) {
    && |s.buffers| == |s.issued|
    && s.contents == Replay(map[], Untagged(s.log))
    && forall w :: 0 <= w < |s.buffers| ==> Project(s.log, w) + s.buffers[w] == s.issued[w]
  }

  lemma {:induction false} AppendKeeps(s: State, w: nat, ms: seq<Mutation>, v: nat)
    requires s.contents == Replay(map[], Untagged(s.log))
    ensures Replay(s.contents, ms) == Replay(map[], Untagged(s.log + Tagged(w, ms)))
    ensures Project(s.log + Tagged(w, ms), v) == if v == w then Project(s.log, v) + ms else Project(s.log, v)
  {
    hide Replay, Untagged, Project, Tagged;
    UntaggedConcat(s.log, Tagged(w, ms));
    ProjectConcat(s.log, Tagged(w, ms), v);
    TaggedProject(w, ms, v);
    ReplayConcat(map[], Untagged(s.log), ms);
  }

  lemma {:induction false} FlushKeeps(s: State, w: nat)
    requires Inv(s) && w < |s.buffers|
    ensures Inv(Step(s, Flush(w)))
  {
    hide Replay, Untagged, Project, Tagged;
    var s' := Step(s, Flush(w));
    forall v | 0 <= v < |s'.buffers| ensures Project(s'.log, v) + s'.buffers[v] == s'.issued[v] {
      AppendKeeps(s, w, s.buffers[w], v);
    }
    AppendKeeps(s, w, s.buffers[w], w);
  }

  lemma {:induction false} DirectKeeps(s: State, w: nat, m: Mutation)
    requires Inv(s) && Enabled(s, Direct(w, m))
    ensures Inv(Step(s, Direct(w, m)))
  {
    var s' := Step(s, Direct(w, m));
    assert Tagged(w, [m]) == [Entry(w, m)] by { assert [m][1..] == []; }
    assert Replay(s.contents, [m]) == s'.contents by { assert [m][1..] == []; }
    hide Replay, Untagged, Project, Tagged;
    forall v | 0 <= v < |s'.buffers| ensures Project(s'.log, v) + s'.buffers[v] == s'.issued[v] {
      AppendKeeps(s, w, [m], v);
      if v == w { assert Project(s.log, v) + [] == s.issued[v]; }
    }
    AppendKeeps(s, w, [m], w);
  }

  lemma {:induction false} StepKeeps(s: State, a: Action)
    requires Inv(s) && Enabled(s, a)
    ensures Inv(Step(s, a))
  {
    hide Replay, Untagged, Project, Tagged;
    match a
    case Issue(w, m) =>
      assert Project(s.log, w) + (s.buffers[w] + [m]) == Project(s.log, w) + s.buffers[w] + [m];
    case Flush(w) => FlushKeeps(s, w);
    case Direct(w, m) => DirectKeeps(s, w, m);
  }

  /** In every run of any number of writers, at every moment. */
  lemma {:induction false} ExecutionKeeps(writers: nat, actions: seq<Action>, states: seq<State>, k: nat)
    requires Execution(writers, actions, states) && k < |states|
    ensures Inv(states[k])
  {
    if k > 0 {
      ExecutionKeeps(writers, actions, states, k - 1);
      hide Inv, Step;
      StepKeeps(states[k - 1], actions[k - 1]);
    }
  }

  /** Right after a writer's flush, everything it issued is in the log, in order, and the table is the
      replay of that log. */
  lemma {:induction false} SyncPublishes(writers: nat, actions: seq<Action>, states: seq<State>, k: nat)
    requires Execution(writers, actions, states) && k < |actions| && actions[k].Flush?
    ensures var s, w := states[k + 1], actions[k].w;
      && Project(s.log, w) == states[k].issued[w]
      && s.contents == Replay(map[], Untagged(s.log))
      && states[k].log <= s.log
  {
    hide Replay, Untagged, Project, Tagged;
    ExecutionKeeps(writers, actions, states, k + 1);
    var s, w := states[k + 1], actions[k].w;
    assert s == Step(states[k], actions[k]);
    assert Project(s.log, w) + [] == Project(s.log, w);
  }

  /** What a scan returns at any moment of any run of any number of buffered writers: by the last mutation
      of each key in the log, exactly the live cells the predicate selects, cut to their history. */
  lemma {:induction false} ScanAfterWriters(writers: nat, actions: seq<Action>, states: seq<State>, k: nat, cells: seq<Cell>, p: Pred)
    requires Execution(writers, actions, states) && k < |states|
    requires Ordered(cells) && Represents(cells, states[k].contents) && |cells| < WORD && IsInt(p.maxHistory)
    ensures var out := Filtered(p, Live(cells));
      Ordered(out) && forall c :: c in out <==> Returned(Replay(map[], Untagged(states[k].log)), p, c)
  {
    hide Ordered, Represents, Filtered, Live, Returned, Replay, Untagged, Project;
    ExecutionKeeps(writers, actions, states, k);
    ScanMeaning(cells, states[k].contents, p);
  }

  /** A key only one writer touches is replayed as that writer issued it. */
  lemma {:induction false} PrivateKey(m: Contents, m': Contents, log: seq<Entry>, w: nat, key: Key)
    requires key in m <==> key in m'
    requires key in m ==> m[key] == m'[key]
    requires forall i :: 0 <= i < |log| && log[i].mutation.key == key ==> log[i].writer == w
    ensures var a, b := Replay(m, Untagged(log)), Replay(m', Project(log, w));
      (key in a <==> key in b) && (key in a ==> a[key] == b[key])
    decreases |log|
  {
    if log != [] {
      var e := log[0];
      var n := m[e.mutation.key := AsCell(e.mutation).value];
      assert Untagged(log)[1..] == Untagged(log[1..]);
      if e.writer == w {
        assert Project(log, w)[1..] == Project(log[1..], w);
        PrivateKey(n, m'[e.mutation.key := AsCell(e.mutation).value], log[1..], w, key);
      } else {
        assert e.mutation.key != key;
        assert Project(log, w) == Project(log[1..], w);
        PrivateKey(n, m', log[1..], w, key);
      }
    }
  }

  // ------------------------------------------------------------ one buffered writer

  /** flush turns each buffered cell back into the operation it came from. */
  function AsMutation(c: Cell): Mutation {
    if c.value.None? then Erase(c.key) else Set(c.key, c.value.value)
  }

  lemma {:induction false} MutationRoundTrip(m: Mutation)
    ensures AsMutation(AsCell(m)) == m
  {
  }

  function Mutations(cells: seq<Cell>): (r: seq<Mutation>)
    ensures |r| == |cells|
  {
    if cells == [] then [] else [AsMutation(cells[0])] + Mutations(cells[1..])
  }

  lemma {:induction false} MutationsSnoc(cells: seq<Cell>, c: Cell)
    ensures Mutations(cells + [c]) == Mutations(cells) + [AsMutation(c)]
  {
    if cells == [] {
      assert cells + [c] == [c] && [c][1..] == [];
    } else {
      assert (cells + [c])[1..] == cells[1..] + [c];
      MutationsSnoc(cells[1..], c);
    }
  }

  /** BufferedTable over a table shared with others. */
  class BufferedTable {
    const table: MemoryTable
    const mutationBufferSize: nat
    var buffer: seq<Cell>

    ghost predicate Valid()
      reads this, table
    {
      table.Valid()
    }

    constructor (table: MemoryTable, mutationBufferSize: nat)
      requires table.Valid()
      ensures Valid() && this.table == table && this.mutationBufferSize == mutationBufferSize && buffer == []
    {
      this.table, this.mutationBufferSize, buffer := table, mutationBufferSize, [];
    }

    /** The table and this writer's buffer as writer `w` of the whole system. */
    ghost predicate Shows(s: State, w: nat)
      reads this, table
    {
      w < |s.buffers| == |s.issued| && s.contents == table.contents && s.buffers[w] == Mutations(buffer)
    }

    /** Lock the table and push all mutations, oldest first. */
    method Flush()
      requires Valid()
      modifies this, table
      ensures Valid() && buffer == []
      ensures forall s, w :: old(Shows(s, w)) ==> Shows(Step(s, Action.Flush(w)), w)
      ensures table.contents == Replay(old(table.contents), Mutations(old(buffer)))
    {
      while buffer != []
        invariant Valid()
        invariant Replay(table.contents, Mutations(buffer)) == Replay(old(table.contents), Mutations(old(buffer)))
        decreases |buffer|
      {
        var x := buffer[0];
        assert Mutations(buffer)[1..] == Mutations(buffer[1..]);
        if IsErasure(x) {
          table.Mutate(Erase(x.key));
        } else {
          table.Mutate(Set(x.key, x.value.value));
        }
        buffer := buffer[1..];
      }
    }

    /** set and erase: buffer the operation as a cell, and flush a full buffer. */
    method Put(m: Mutation)
      requires Valid()
      modifies this, table
      ensures Valid()
      ensures |old(buffer)| + 1 < mutationBufferSize ==>
        Mutations(buffer) == old(Mutations(buffer)) + [m] && table.contents == old(table.contents)
      ensures |old(buffer)| + 1 >= mutationBufferSize ==>
        buffer == [] && table.contents == Replay(old(table.contents), old(Mutations(buffer)) + [m])
      ensures forall s, w :: old(Shows(s, w)) ==>
        var issued := Step(s, Issue(w, m));
        Shows(if |old(buffer)| + 1 < mutationBufferSize then issued else Step(issued, Action.Flush(w)), w)
    {
      MutationRoundTrip(m);
      MutationsSnoc(buffer, AsCell(m));
      buffer := buffer + [AsCell(m)];
      if |buffer| >= mutationBufferSize { Flush(); }
    }
  }

  // ------------------------------------------------------------ one buffered scanner

  /** BufferedScanner: reads a filtered scan ahead under the mutex, hands out cells without it. */
  class BufferedScanner {
    const scan: TableScan
    const bufferSize: nat
    var buffer: seq<Cell>
    ghost var delivered: seq<Cell>

    /** What was delivered and what is buffered is what the underlying scan returned. */
    ghost predicate Valid()
      reads this, scan, scan.scan
    {
      bufferSize > 0 && scan.Valid() && delivered + buffer == scan.returned
    }

    ghost predicate Readable()
      reads this, scan, scan.scan, scan.scan.table
    {
      scan.Readable()
    }

    constructor (scan: TableScan, bufferSize: nat)
      requires bufferSize > 0 && scan.Valid() && scan.returned == []
      ensures Valid() && this.scan == scan && this.bufferSize == bufferSize && delivered == []
    {
      this.scan, this.bufferSize, buffer, delivered := scan, bufferSize, [], [];
    }

    /** Scan ahead until the buffer is full or the scan ends. */
    method FillBuffer() returns (any: bool)
      requires Valid() && Readable()
      modifies this`buffer, scan, scan.scan
      ensures Valid() && Readable() && old(buffer) <= buffer
      ensures any <==> buffer != []
      ensures |buffer| < bufferSize ==> scan.scan.tableIt.None?
      ensures |buffer| <= bufferSize || buffer == old(buffer)
    {
      hide TableScan.Valid, TableScan.Readable;
      while |buffer| < bufferSize
        invariant Valid() && Readable() && old(buffer) <= buffer && (|buffer| <= bufferSize || buffer == old(buffer))
        decreases bufferSize - |buffer|
      {
        var r := scan.Get();
        if r.None? { break; }
        assert delivered + (buffer + [r.value]) == delivered + buffer + [r.value];
        buffer := buffer + [r.value];
      }
      any := buffer != [];
    }

    method Get() returns (r: Option<Cell>)
      requires Valid() && Readable()
      modifies this, scan, scan.scan
      ensures Valid() && Readable()
      ensures r.Some? ==> delivered == old(delivered) + [r.value]
      ensures r.None? ==> delivered == scan.returned && scan.scan.tableIt.None?
    {
      hide TableScan.Valid, TableScan.Readable;
      if buffer == [] {
        var any := FillBuffer();
        if !any { return None; }
      }
      r := Some(buffer[0]);
      assert delivered + buffer == delivered + [buffer[0]] + buffer[1..];
      delivered, buffer := delivered + [buffer[0]], buffer[1..];
    }
  }
}
