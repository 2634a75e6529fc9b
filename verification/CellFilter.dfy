/** The filters a scan pipes cells through: erasures, containment and history. */
module CellFilter {
  import opened Bytes
  import opened Options
  import opened IntervalSet
  import opened Strings
  import opened Cells
  import opened ScanPredicate

  predicate SameColumn(a: Cell, b: Cell) { a.key.row == b.key.row && a.key.column == b.key.column }

  // ------------------------------------------------------------ history

  /** How many cells in front of position `i` continue its (row, column) sequence. */
  function Rank(s: seq<Cell>, i: nat): (r: nat)
    requires i < |s|
    ensures r <= i
  {
    if i > 0 && SameColumn(s[i - 1], s[i]) then Rank(s, i - 1) + 1 else 0
  }

  /** The constructor's counters, as size_t. */
  function InitialLength(k: int): nat { if k > 0 then 0 else (k - 1) % WORD }
  function MaxLength(k: int): nat { if k > 0 then k else (k - 1) % WORD }

  /** Whether the counter, started at the initial length and incremented `rank + 1` times, is in the window. */
  predicate Passes(k: int, rank: nat) { (InitialLength(k) + rank + 1) % WORD <= MaxLength(k) }

  /** What the documentation asks for: the latest k, or all but the latest -k. */
  predicate Wanted(k: int, rank: nat) { if k > 0 then rank < k else rank >= -k }

  /** An int, as setMaxHistory takes it. */
  predicate IsInt(k: int) { -0x8000_0000 <= k < 0x8000_0000 }

  /** How long a (row, column) sequence may be before the counter wraps around. */
  function SafeLength(k: int): nat { if k > 0 then WORD - 1 else WORD }

  lemma {:induction false} PassesWanted(k: int, rank: nat)
    requires IsInt(k) && rank < SafeLength(k)
    ensures Passes(k, rank) <==> Wanted(k, rank)
  {
    if k <= 0 {
      assert (k - 1) % WORD == WORD + k - 1;
      if rank < -k {
        assert (WORD + k - 1 + rank + 1) % WORD == WORD + k + rank;
      } else {
        assert (WORD + k - 1 + rank + 1) % WORD == k + rank;
      }
    }
  }

  /** The window is right for whole sequences exactly up to that length. */
  lemma {:induction false} WindowExact(k: int, n: nat)
    requires IsInt(k) && k != 0
    ensures (forall rank :: 0 <= rank < n ==> (Passes(k, rank) <==> Wanted(k, rank))) <==> n <= SafeLength(k)
  {
    forall rank | 0 <= rank < n && rank < SafeLength(k) ensures Passes(k, rank) <==> Wanted(k, rank) {
      PassesWanted(k, rank);
    }
    if n > SafeLength(k) {
      var rank := SafeLength(k);
      if k > 0 {
        assert (0 + rank + 1) % WORD == 0;
      } else {
        assert (k - 1) % WORD == WORD + k - 1;
        assert (WORD + k - 1 + rank + 1) % WORD == WORD + k;
      }
      assert Passes(k, rank) != Wanted(k, rank);
    }
  }

  /** The cells the filter lets through, from position `i` on. */
  function HistoryFrom(k: int, s: seq<Cell>, i: nat): (r: seq<Cell>)
    requires i <= |s|
    decreases |s| - i
  {
    if i == |s| then []
    else (if Passes(k, Rank(s, i)) then [s[i]] else []) + HistoryFrom(k, s, i + 1)
  }

  /** The counter after the cell at position `i`. */
  function Counter(k: int, s: seq<Cell>, i: nat): nat
    requires i < |s|
  {
    (InitialLength(k) + Rank(s, i) + 1) % WORD
  }

  /** It restarts with a new row or column and otherwise goes up by one, modulo the word. */
  lemma {:induction false} CounterStep(k: int, s: seq<Cell>, i: nat)
    requires i < |s|
    ensures Counter(k, s, i)
            == if i > 0 && SameColumn(s[i - 1], s[i]) then (Counter(k, s, i - 1) + 1) % WORD
               else (InitialLength(k) + 1) % WORD
  {
    hide SameColumn;
  }

  lemma {:induction false} HistoryStep(k: int, s: seq<Cell>, i: nat)
    requires i < |s|
    ensures HistoryFrom(k, s, i)
            == (if Counter(k, s, i) <= MaxLength(k) then [s[i]] else []) + HistoryFrom(k, s, i + 1)
  {
  }

  /** HistoryFilter. `input[..pos]` has been read. */
  class HistoryFilter {
    const input: seq<Cell>
    const k: int
    const initialHistoryLength: nat
    const maxHistoryLength: nat
    var pos: nat
    var last: Option<Cell>
    var currentHistoryLength: nat

    ghost predicate Valid()
      reads this
    {
      && initialHistoryLength == InitialLength(k) && maxHistoryLength == MaxLength(k)
      && pos <= |input|
      && (if pos == 0 then last == None
          else last == Some(input[pos - 1]) && currentHistoryLength == Counter(k, input, pos - 1))
    }

    constructor (k: int, input: seq<Cell>)
      ensures Valid() && this.k == k && this.input == input && pos == 0
    {
      this.k, this.input, pos, last, currentHistoryLength := k, input, 0, None, 0;
      if k > 0 {
        initialHistoryLength, maxHistoryLength := 0, k;
      } else {
        initialHistoryLength, maxHistoryLength := (k - 1) % WORD, (k - 1) % WORD;
      }
    }

    /** The next cell in the window. */
    method Get() returns (r: Option<Cell>)
      requires Valid()
      modifies this
      ensures Valid() && old(pos) <= pos && (r.Some? ==> old(pos) < pos)
      ensures HistoryFrom(k, input, old(pos)) == (if r.Some? then [r.value] else []) + HistoryFrom(k, input, pos)
      ensures r.None? ==> pos == |input|
    {
      hide Counter, HistoryFrom, InitialLength, MaxLength;
      while true
        invariant Valid() && old(pos) <= pos
        invariant HistoryFrom(k, input, old(pos)) == HistoryFrom(k, input, pos)
        decreases |input| - pos
      {
        if pos == |input| { return None; }
        CounterStep(k, input, pos);
        HistoryStep(k, input, pos);
        var x := input[pos];
        if last.None? || last.value.key.row != x.key.row || last.value.key.column != x.key.column {
          currentHistoryLength := initialHistoryLength;
        }
        currentHistoryLength := (currentHistoryLength + 1) % WORD;
        last := Some(x);
        pos := pos + 1;
        if currentHistoryLength <= maxHistoryLength { return Some(x); }
      }
    }
  }

  /** Read a history filter to its end. */
  method ApplyHistory(k: int, s: seq<Cell>) returns (out: seq<Cell>)
    ensures out == HistoryFrom(k, s, 0)
  {
    var f := new HistoryFilter(k, s);
    out := [];
    while true
      invariant f.Valid() && fresh(f) && f.k == k && f.input == s
      invariant out + HistoryFrom(k, s, f.pos) == HistoryFrom(k, s, 0)
      decreases |s| - f.pos
    {
      ghost var rest := HistoryFrom(k, s, f.pos);
      var r := f.Get();
      if r.None? { return; }
      assert out + ([r.value] + HistoryFrom(k, s, f.pos)) == out + [r.value] + HistoryFrom(k, s, f.pos);
      out := out + [r.value];
    }
  }

  // ------------------------------------------------------------ what history means

  /** The cells of the same row and column with later timestamps. */
  ghost function Newer(s: seq<Cell>, c: Cell): set<Cell> {
    set d | d in s && SameColumn(d, c) && d.key.time > c.key.time
  }

  /** In cell order, the cells of one row and column are neighbours, latest first. */
  lemma {:induction false} NewerBefore(s: seq<Cell>, i: nat, j: nat)
    requires Ordered(s) && i < |s| && j < |s| && SameColumn(s[j], s[i])
    ensures s[j].key.time > s[i].key.time <==> j < i
    ensures j < i ==> SameColumn(s[i - 1], s[i])
  {
    hide StrLess;
    if i < j { assert CellLess(s[i], s[j]); }
    if j < i {
      assert CellLess(s[j], s[i]);
      if j < i - 1 {
        assert CellLess(s[j], s[i - 1]) && CellLess(s[i - 1], s[i]);
        Between(s[j].key, s[i - 1].key, s[i].key);
      }
    }
  }

  /** Between two keys of one column lie only keys of that column. */
  lemma {:induction false} Between(a: Key, b: Key, c: Key)
    requires KeyLess(a, b) && KeyLess(b, c) && a.row == c.row && a.column == c.column
    ensures b.row == a.row && b.column == a.column
  {
    hide StrLess;
    if b.row != a.row {
      StrTransitive(a.row, b.row, a.row);
      StrIrreflexive(a.row);
    } else if b.column != a.column {
      StrTransitive(a.column, b.column, a.column);
      StrIrreflexive(a.column);
    }
  }

  /** A cell of `s` has position `j`; it is newer than the cell at `i` exactly if it is a neighbour before it. */
  lemma {:induction false} NewerIs(s: seq<Cell>, i: nat, d: Cell)
    requires Ordered(s) && i < |s|
    ensures d in Newer(s, s[i]) <==> exists j :: 0 <= j < i && s[j] == d && SameColumn(s[j], s[i])
    ensures d in Newer(s, s[i]) ==> i > 0 && SameColumn(s[i - 1], s[i])
  {
    hide KeyLess, CellLess, Ordered, SameColumn;
    if d in Newer(s, s[i]) {
      var j :| 0 <= j < |s| && s[j] == d;
      NewerBefore(s, i, j);
    }
    forall j | 0 <= j < i && s[j] == d && SameColumn(s[j], s[i]) ensures d in Newer(s, s[i]) {
      NewerBefore(s, i, j);
    }
  }

  lemma {:induction false} NotNewerThanSelf(s: seq<Cell>, c: Cell)
    ensures c !in Newer(s, c)
  {
  }

  lemma {:induction false} NewerGrows(s: seq<Cell>, i: nat)
    requires Ordered(s) && 0 < i < |s| && SameColumn(s[i - 1], s[i])
    ensures Newer(s, s[i]) == Newer(s, s[i - 1]) + {s[i - 1]} && s[i - 1] !in Newer(s, s[i - 1])
  {
    hide KeyLess, CellLess, Ordered, Newer;
    forall d ensures d in Newer(s, s[i]) <==> d in Newer(s, s[i - 1]) + {s[i - 1]} {
      NewerIs(s, i, d);
      NewerIs(s, i - 1, d);
    }
    assert s[i - 1] !in Newer(s, s[i - 1]) by { NotNewerThanSelf(s, s[i - 1]); }
  }

  /** The rank of a cell is the number of later cells in its row and column. */
  lemma {:induction false} RankCountsNewer(s: seq<Cell>, i: nat)
    requires Ordered(s) && i < |s|
    ensures Rank(s, i) == |Newer(s, s[i])|
    decreases i
  {
    hide KeyLess, CellLess, Ordered, Newer;
    if i > 0 && SameColumn(s[i - 1], s[i]) {
      RankCountsNewer(s, i - 1);
      NewerGrows(s, i);
    } else {
      forall d ensures d !in Newer(s, s[i]) { NewerIs(s, i, d); }
      assert Newer(s, s[i]) == {};
    }
  }

  /** What comes out, position by position. */
  lemma {:induction false} HistoryMembers(k: int, s: seq<Cell>, i: nat, c: Cell)
    requires i <= |s|
    ensures c in HistoryFrom(k, s, i) <==> exists j :: i <= j < |s| && s[j] == c && Passes(k, Rank(s, j))
    decreases |s| - i
  {
    hide Passes, Rank;
    if i < |s| {
      var r := HistoryFrom(k, s, i + 1);
      assert HistoryFrom(k, s, i) == (if Passes(k, Rank(s, i)) then [s[i]] else []) + r;
      hide HistoryFrom;
      HistoryMembers(k, s, i + 1, c);
      if c in r {
        var j :| i + 1 <= j < |s| && s[j] == c && Passes(k, Rank(s, j));
      } else if c in HistoryFrom(k, s, i) {
        assert s[i] == c && Passes(k, Rank(s, i));
      }
    }
  }

  lemma {:induction false} HistoryOrdered(k: int, s: seq<Cell>, i: nat)
    requires Ordered(s) && i <= |s|
    ensures Ordered(HistoryFrom(k, s, i))
    decreases |s| - i
  {
    hide Passes, Rank, CellLess;
    if i < |s| {
      HistoryOrdered(k, s, i + 1);
      var r := HistoryFrom(k, s, i + 1);
      if Passes(k, Rank(s, i)) {
        forall c | c in r ensures CellLess(s[i], c) {
          HistoryMembers(k, s, i + 1, c);
        }
        assert HistoryFrom(k, s, i) == [s[i]] + r;
      }
    }
  }

  /** Of an ordered stream the filter keeps, in order, exactly the cells that are wanted by the number
      of later cells in their row and column, as long as no such sequence is too long to count. */
  lemma {:induction false} HistoryMeaning(k: int, s: seq<Cell>)
    requires Ordered(s) && IsInt(k)
    requires forall i :: 0 <= i < |s| ==> Rank(s, i) < SafeLength(k)
    ensures var r := HistoryFrom(k, s, 0);
      Ordered(r) && forall c :: c in r <==> c in s && Wanted(k, |Newer(s, c)|)
  {
    hide Passes, Rank, Wanted, SafeLength, Newer, Ordered;
    HistoryOrdered(k, s, 0);
    forall c ensures c in HistoryFrom(k, s, 0) <==> c in s && Wanted(k, |Newer(s, c)|) {
      HistoryMembers(k, s, 0, c);
      forall j | 0 <= j < |s| && s[j] == c ensures Passes(k, Rank(s, j)) <==> Wanted(k, |Newer(s, c)|) {
        RankCountsNewer(s, j);
        PassesWanted(k, Rank(s, j));
      }
    }
  }

  // ------------------------------------------------------------ the pipeline

  predicate InPred(p: Pred, c: Cell) { Selects(p, c.key.row, c.key.column, c.key.time) }

  /** The filter loop: `get` until a cell satisfies the predicate, to the end of the stream. */
  method RunFilter(f: Cell -> bool, s: seq<Cell>) returns (out: seq<Cell>)
    ensures out == Keep(f, s)
  {
    out := [];
    assert s[0..] == s;
    for i := 0 to |s|
      invariant out + Keep(f, s[i..]) == Keep(f, s)
    {
      ghost var rest := Keep(f, s[i + 1..]);
      assert s[i..][1..] == s[i + 1..];
      if f(s[i]) {
        assert out + ([s[i]] + rest) == out + [s[i]] + rest;
        out := out + [s[i]];
      } else {
        assert [] + rest == rest;
      }
    }
  }

  /** Two filters in a row are one. */
  lemma {:induction false} KeepTwice(f: Cell -> bool, g: Cell -> bool, h: Cell -> bool, s: seq<Cell>)
    requires forall c :: h(c) <==> f(c) && g(c)
    ensures Keep(f, Keep(g, s)) == Keep(h, s)
  {
    if s != [] {
      KeepTwice(f, g, h, s[1..]);
      var rest := Keep(g, s[1..]);
      if g(s[0]) {
        assert ([s[0]] + rest)[1..] == rest;
      } else {
        assert [] + rest == rest;
      }
    }
  }

  lemma {:induction false} KeepAll(h: Cell -> bool, s: seq<Cell>)
    requires forall c :: h(c)
    ensures Keep(h, s) == s
  {
    if s != [] { KeepAll(h, s[1..]); }
  }

  /** The cells of a stream that a predicate selects, and those a scan returns of them. */
  ghost function Selected(p: Pred, s: seq<Cell>): seq<Cell> { Keep((c: Cell) => InPred(p, c), s) }

  ghost function Filtered(p: Pred, s: seq<Cell>): seq<Cell> {
    if p.maxHistory != 0 then HistoryFrom(p.maxHistory, Selected(p, s), 0) else Selected(p, s)
  }

  lemma {:induction false} SelectedMeaning(p: Pred, s: seq<Cell>)
    requires Ordered(s)
    ensures Ordered(Selected(p, s)) && forall c :: c in Selected(p, s) <==> c in s && InPred(p, c)
  {
    hide Keep, Ordered, InPred;
    FilterStep((c: Cell) => InPred(p, c), s);
  }

  /** What is returned of an ordered stream: in order, and only cells that the predicate describes; all of
      them when no history is asked for. */
  lemma {:induction false} FilteredMeans(p: Pred, s: seq<Cell>)
    requires Ordered(s)
    ensures InOrder(Filtered(p, s))
    ensures ValidPred(p) ==> forall c :: c in Filtered(p, s) ==> c in s && Described(p, c.key.row, c.key.column, c.key.time)
    ensures ValidPred(p) && p.maxHistory == 0 ==>
      forall c :: c in s && Described(p, c.key.row, c.key.column, c.key.time) ==> c in Filtered(p, s)
  {
    hide Ordered, InOrder, Keep, Selected, HistoryFrom, Described, Selects, ValidPred, Rank, Passes;
    SelectedMeaning(p, s);
    var kept := Selected(p, s);
    if p.maxHistory != 0 { HistoryOrdered(p.maxHistory, kept, 0); }
    OrderedMeans(Filtered(p, s));
    forall c | ValidPred(p) ensures InPred(p, c) <==> Described(p, c.key.row, c.key.column, c.key.time) {
      SelectsMeans(p, c.key.row, c.key.column, c.key.time);
    }
    forall c | c in Filtered(p, s) ensures c in kept {
      if p.maxHistory != 0 { HistoryMembers(p.maxHistory, kept, 0, c); }
    }
  }

  /** applyPredicateFilter: one filter per constraint that is set, history last. */
  method ApplyPredicate(p: Pred, s: seq<Cell>) returns (out: seq<Cell>)
    ensures out == Filtered(p, s)
  {
    hide Contains, Keep, HistoryFrom;
    out := s;
    ghost var h: Cell -> bool := (c: Cell) => true;
    KeepAll(h, s);
    if p.rows.Some? {
      var f := (c: Cell) => Contains(StrLess, p.rows.value, c.key.row);
      KeepTwice(f, h, f, s);
      h := f;
      out := RunFilter(f, out);
    }
    if p.columns.Some? {
      var f := (c: Cell) => Contains(StrLess, p.columns.value, c.key.column);
      ghost var g := h;
      h := (c: Cell) => Contains(StrLess, p.columns.value, c.key.column) && g(c);
      KeepTwice(f, g, h, s);
      out := RunFilter(f, out);
    }
    if p.times.Some? {
      var f := (c: Cell) => Contains(TimeLess, p.times.value, c.key.time);
      ghost var g := h;
      h := (c: Cell) => Contains(TimeLess, p.times.value, c.key.time) && g(c);
      KeepTwice(f, g, h, s);
      out := RunFilter(f, out);
    }
    KeepSame(h, (c: Cell) => InPred(p, c), s);
    if p.maxHistory != 0 {
      out := ApplyHistory(p.maxHistory, out);
    }
  }

  lemma {:induction false} KeepSame(f: Cell -> bool, g: Cell -> bool, s: seq<Cell>)
    requires forall c :: f(c) == g(c)
    ensures Keep(f, s) == Keep(g, s)
  {
    if s != [] { KeepSame(f, g, s[1..]); }
  }

  lemma {:induction false} FilterStep(f: Cell -> bool, s: seq<Cell>)
    requires Ordered(s)
    ensures Ordered(Keep(f, s)) && forall c :: c in Keep(f, s) <==> c in s && f(c)
  {
    KeepOrdered(f, s);
    forall c ensures c in Keep(f, s) <==> c in s && f(c) { KeepMembers(f, s, c); }
  }
}
