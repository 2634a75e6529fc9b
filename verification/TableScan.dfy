/** A scan with its filters, read one cell at a time while the table may change. */
module TableScan {
  import opened Bytes
  import opened Options
  import opened Cells
  import opened CellFilter
  import opened ScanPredicate
  import opened MemoryTable

  // ------------------------------------------------------------ one more cell in front of the filters

  lemma {:induction false} RankOfPrefix(s: seq<Cell>, c: Cell, i: nat)
    requires i < |s|
    ensures Rank(s + [c], i) == Rank(s, i)
  {
    if i > 0 { RankOfPrefix(s, c, i - 1); }
  }

  lemma {:induction false} HistorySnoc(k: int, s: seq<Cell>, c: Cell, i: nat)
    requires i <= |s|
    ensures HistoryFrom(k, s + [c], i) ==
      HistoryFrom(k, s, i) + (if Passes(k, Rank(s + [c], |s|)) then [c] else [])
    decreases |s| - i
  {
    hide Passes, Rank;
    var last := if Passes(k, Rank(s + [c], |s|)) then [c] else [];
    if i == |s| {
      assert HistoryFrom(k, s + [c], i + 1) == [];
    } else {
      RankOfPrefix(s, c, i);
      HistorySnoc(k, s, c, i + 1);
      var head := if Passes(k, Rank(s, i)) then [s[i]] else [];
      assert head + (HistoryFrom(k, s, i + 1) + last) == head + HistoryFrom(k, s, i + 1) + last;
    }
  }

  lemma {:induction false} SelectedSnoc(p: Pred, s: seq<Cell>, c: Cell)
    ensures Selected(p, s + [c]) == Selected(p, s) + (if InPred(p, c) then [c] else [])
  {
    hide Keep, InPred;
    KeepSnoc((d: Cell) => InPred(p, d), s, c);
  }

  /** What is left of a stream in front of the history filter. */
  ghost function Passed(filterErasures: bool, p: Pred, s: seq<Cell>): seq<Cell> {
    Selected(p, LiveIf(filterErasures, s))
  }

  lemma {:induction false} PassedSnoc(filterErasures: bool, p: Pred, s: seq<Cell>, c: Cell)
    ensures Passed(filterErasures, p, s + [c]) ==
      Passed(filterErasures, p, s) + (if !(filterErasures && IsErasure(c)) && InPred(p, c) then [c] else [])
  {
    hide Keep, InPred, Selected;
    KeepSnoc(NotErasure, s, c);
    SelectedSnoc(p, LiveIf(filterErasures, s), c);
    assert Live(s) + [] == Live(s);
  }

  // ------------------------------------------------------------ the history window

  /** The counters of the history filter behind `kept`. */
  ghost predicate Counting(k: int, kept: seq<Cell>, last: Option<Cell>, current: nat) {
    if kept == [] then last == None
    else last == Some(kept[|kept| - 1]) && current == Counter(k, kept, |kept| - 1)
  }

  function Advanced(k: int, last: Option<Cell>, current: nat, c: Cell): nat {
    ((if last.None? || !SameColumn(last.value, c) then InitialLength(k) else current) + 1) % WORD
  }

  lemma {:induction false} CountingSnoc(k: int, kept: seq<Cell>, last: Option<Cell>, current: nat, c: Cell)
    requires Counting(k, kept, last, current)
    ensures Counting(k, kept + [c], Some(c), Advanced(k, last, current, c))
    ensures Passes(k, Rank(kept + [c], |kept|)) <==> Advanced(k, last, current, c) <= MaxLength(k)
  {
    CounterStep(k, kept + [c], |kept|);
    PassesByCounter(k, kept + [c], |kept|);
    hide Counter, Passes, Rank, MaxLength, InitialLength, SameColumn;
    if kept != [] {
      CounterOfPrefix(k, kept, c, |kept| - 1);
      assert (kept + [c])[|kept| - 1] == kept[|kept| - 1];
    }
    assert (kept + [c])[|kept|] == c;
  }

  lemma {:induction false} CounterOfPrefix(k: int, s: seq<Cell>, c: Cell, i: nat)
    requires i < |s|
    ensures Counter(k, s + [c], i) == Counter(k, s, i)
  {
    hide Rank, InitialLength;
    RankOfPrefix(s, c, i);
  }

  lemma {:induction false} PassesByCounter(k: int, s: seq<Cell>, i: nat)
    requires i < |s|
    ensures Passes(k, Rank(s, i)) <==> Counter(k, s, i) <= MaxLength(k)
  {
    hide Rank, InitialLength, MaxLength;
  }

  /** How many cells the iterator has in front of it. */
  ghost function Ahead(cells: seq<Cell>, it: Option<Key>): (n: nat) {
    if it.None? then 0 else |cells| - Position(cells, it.value)
  }

  lemma {:induction false} AheadDrops(cells: seq<Cell>, key: Key)
    requires Ordered(cells) && Holds(cells, key)
    ensures var next := KeyAt(cells, Position(cells, key) + 1);
      Ahead(cells, next) < Ahead(cells, Some(key)) && (next.Some? ==> Holds(cells, next.value))
  {
    hide KeyLess;
    var i := Position(cells, key);
    if i + 1 < |cells| { PositionOfCell(cells, i + 1); }
  }

  lemma {:induction false} PositionOfCell(cells: seq<Cell>, i: nat)
    requires Ordered(cells) && i < |cells|
    ensures Position(cells, cells[i].key) == i
  {
    hide KeyLess;
    var k := cells[i].key;
    KeyTotal(k, k);
    assert forall j :: 0 <= j < i ==> CellLess(cells[j], cells[i]);
  }

  /** MemoryTable::scan. The erasure, row, column, time and history filters over a table's iterator, each
      call reading on until a cell passes them all. */
  class TableScan {
    const scan: Scanner
    const filterErasures: bool
    const p: Pred
    var last: Option<Cell>
    var currentHistoryLength: nat
    ghost var returned: seq<Cell>

    /** What was returned is what the filters make of the cells read so far. */
    ghost predicate Valid()
      reads this, scan
    {
      var kept := Passed(filterErasures, p, scan.returned);
      && Counting(p.maxHistory, kept, last, currentHistoryLength)
      && returned == Filtered(p, LiveIf(filterErasures, scan.returned))
    }

    ghost predicate Readable()
      reads this, scan, scan.table
    {
      scan.table.Valid() && (scan.tableIt.Some? ==> Holds(scan.table.cells, scan.tableIt.value))
    }

    constructor (scan: Scanner, filterErasures: bool, p: Pred)
      requires scan.returned == []
      ensures Valid() && returned == []
      ensures this.scan == scan && this.filterErasures == filterErasures && this.p == p
    {
      this.scan, this.filterErasures, this.p := scan, filterErasures, p;
      last, currentHistoryLength, returned := None, 0, [];
    }

    /** The history filter's test of a cell that the other filters let through. */
    method Count(x: Cell) returns (pass: bool)
      modifies this`last, this`currentHistoryLength
      ensures last == Some(x) && currentHistoryLength == Advanced(p.maxHistory, old(last), old(currentHistoryLength), x)
      ensures pass <==> currentHistoryLength <= MaxLength(p.maxHistory)
    {
      if last.None? || last.value.key.row != x.key.row || last.value.key.column != x.key.column {
        currentHistoryLength := InitialLength(p.maxHistory);
      }
      currentHistoryLength := (currentHistoryLength + 1) % WORD;
      last := Some(x);
      pass := currentHistoryLength <= MaxLength(p.maxHistory);
    }

    /** The next cell that passes every filter, or None when the iterator is at its end. */
    method Get() returns (r: Option<Cell>)
      requires Valid() && Readable()
      modifies this, scan
      ensures Valid() && Readable()
      ensures r.Some? ==> returned == old(returned) + [r.value]
      ensures r.None? ==> returned == old(returned) && scan.tableIt.None?
    {
      hide Passed, Filtered, Counting, Represents, Usage, Ordered, Holds;
      while true
        invariant Valid() && Readable() && returned == old(returned)
        decreases Ahead(scan.table.cells, scan.tableIt)
      {
        if scan.tableIt.None? { return None; }
        AheadDrops(scan.table.cells, scan.tableIt.value);
        var taken := TakeOne();
        if taken.Some? { return taken; }
      }
    }

    /** One cell read from the iterator and put through the filters. */
    method TakeOne() returns (r: Option<Cell>)
      requires Valid() && scan.tableIt.Some? && Holds(scan.table.cells, scan.tableIt.value)
      modifies this, scan
      ensures Valid() && scan.tableIt == KeyAt(scan.table.cells, Position(scan.table.cells, old(scan.tableIt).value) + 1)
      ensures returned == old(returned) + if r.Some? then [r.value] else []
    {
      hide Position, Holds, Passed, Filtered, Counting, InPred, MaxLength, Advanced, Represents, Usage, Ordered;
      ghost var seen := scan.returned;
      var got := scan.Get();
      var x := got.value;
      WindowStep(filterErasures, p, seen, x, last, currentHistoryLength);
      if (filterErasures && IsErasure(x)) || !InPred(p, x) { return None; }
      var pass := Count(x);
      if p.maxHistory == 0 || pass {
        returned := returned + [x];
        return Some(x);
      }
      return None;
    }
  }

  /** One more cell in front of all filters: dropped, or counted and let through within the window. */
  lemma {:induction false} WindowStep(filterErasures: bool, p: Pred, seen: seq<Cell>, x: Cell, last: Option<Cell>, current: nat)
    requires Counting(p.maxHistory, Passed(filterErasures, p, seen), last, current)
    ensures
      var kept, out := Passed(filterErasures, p, seen), Filtered(p, LiveIf(filterErasures, seen));
      var kept', out' := Passed(filterErasures, p, seen + [x]), Filtered(p, LiveIf(filterErasures, seen + [x]));
      if (filterErasures && IsErasure(x)) || !InPred(p, x) then kept' == kept && out' == out
      else
        var counted := Advanced(p.maxHistory, last, current, x);
        && Counting(p.maxHistory, kept', Some(x), counted)
        && out' == out + if p.maxHistory == 0 || counted <= MaxLength(p.maxHistory) then [x] else []
  {
    hide Passed, Filtered, HistoryFrom, Counting, InPred, MaxLength, Advanced, Rank, Passes, Live, LiveIf;
    var kept := Passed(filterErasures, p, seen);
    PassedSnoc(filterErasures, p, seen, x);
    FilteredIs(filterErasures, p, seen);
    FilteredIs(filterErasures, p, seen + [x]);
    if (filterErasures && IsErasure(x)) || !InPred(p, x) {
      assert kept + [] == kept;
    } else {
      CountingSnoc(p.maxHistory, kept, last, current, x);
      HistorySnoc(p.maxHistory, kept, x, 0);
    }
  }

  lemma {:induction false} FilteredIs(filterErasures: bool, p: Pred, s: seq<Cell>)
    ensures var kept := Passed(filterErasures, p, s);
      Filtered(p, LiveIf(filterErasures, s)) == if p.maxHistory != 0 then HistoryFrom(p.maxHistory, kept, 0) else kept
  {
  }
}
