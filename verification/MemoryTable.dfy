/** MemoryTable: an ordered set of cells that is overwritten in place, and scans over it. */
module MemoryTable {
  import opened Bytes
  import opened Options
  import opened Strings
  import opened Cells
  import opened CellFilter
  import opened ScanPredicate

  /** Where a key is, or would be inserted. */
  function Position(cells: seq<Cell>, key: Key): (i: nat)
    ensures i <= |cells|
    ensures forall j :: 0 <= j < i ==> KeyLess(cells[j].key, key)
    ensures i < |cells| ==> !KeyLess(cells[i].key, key)
  {
    hide KeyLess;
    if cells == [] || !KeyLess(cells[0].key, key) then 0 else 1 + Position(cells[1..], key)
  }

  predicate Holds(cells: seq<Cell>, key: Key) {
    var i := Position(cells, key);
    i < |cells| && cells[i].key == key
  }

  /** std::set::insert, and the replacement of the cell if its key is there. */
  function InsertCell(cells: seq<Cell>, c: Cell): (r: seq<Cell>) {
    var i := Position(cells, c.key);
    if Holds(cells, c.key) then cells[i := c] else cells[..i] + [c] + cells[i..]
  }

  /** After the position everything is greater, or equal at the position itself. */
  lemma {:induction false} PositionSplits(cells: seq<Cell>, key: Key)
    requires Ordered(cells)
    ensures var i := Position(cells, key);
      forall j :: i <= j < |cells| ==> if j == i && Holds(cells, key) then cells[j].key == key else KeyLess(key, cells[j].key)
  {
    hide KeyLess;
    var i := Position(cells, key);
    forall j | i <= j < |cells| && !(j == i && Holds(cells, key)) ensures KeyLess(key, cells[j].key) {
      KeyTotal(cells[i].key, key);
      if j > i {
        assert CellLess(cells[i], cells[j]);
        if KeyLess(key, cells[i].key) { KeyTransitive(key, cells[i].key, cells[j].key); }
      }
    }
  }

  lemma {:induction false} InsertOrdered(cells: seq<Cell>, c: Cell)
    requires Ordered(cells)
    ensures Ordered(InsertCell(cells, c))
  {
    hide KeyLess;
    PositionSplits(cells, c.key);
    hide Position, Holds;
    var i, r := Position(cells, c.key), InsertCell(cells, c);
    if Holds(cells, c.key) {
      forall a, b | 0 <= a < b < |r| ensures CellLess(r[a], r[b]) { assert CellLess(cells[a], cells[b]); }
    } else {
      forall a, b | 0 <= a < b < |r| ensures CellLess(r[a], r[b]) {
        if b < i || i < a {
          var a', b' := if a < i then a else a - 1, if b < i then b else b - 1;
          assert CellLess(cells[a'], cells[b']);
        } else if a < i < b {
          assert CellLess(cells[a], cells[b - 1]);
        }
      }
    }
  }

  // ------------------------------------------------------------ contents

  type Contents = map<Key, Option<bytes>>

  /** The cells are the entries of a map. */
  ghost predicate Represents(cells: seq<Cell>, m: Contents) {
    forall c: Cell :: c in cells <==> c.key in m && m[c.key] == c.value
  }

  lemma {:induction false} InAround<T>(a: seq<T>, x: T, b: seq<T>, d: T)
    ensures d in a + [x] + b <==> d in a || d == x || d in b
  {
  }

  /** No other cell has the key. */
  lemma {:induction false} KeysApart(cells: seq<Cell>, key: Key, d: Cell)
    requires Ordered(cells)
    ensures var i := Position(cells, key);
      && (d in cells[..i] ==> d.key != key)
      && (d in cells[(if Holds(cells, key) then i + 1 else i)..] ==> d.key != key)
  {
    PositionSplits(cells, key);
    KeyTotal(key, key);
    hide KeyLess;
    var i := Position(cells, key);
    var n := if Holds(cells, key) then i + 1 else i;
    hide Holds, Position;
    if d in cells[n..] {
      var j :| 0 <= j < |cells[n..]| && cells[n..][j] == d;
      assert cells[n + j] == d;
    }
  }

  lemma {:induction false} InsertMembers(cells: seq<Cell>, c: Cell, d: Cell)
    requires Ordered(cells)
    ensures d in InsertCell(cells, c) <==> d == c || (d in cells && d.key != c.key)
  {
    hide Position, Ordered;
    var i, r := Position(cells, c.key), InsertCell(cells, c);
    KeysApart(cells, c.key, d);
    if Holds(cells, c.key) {
      assert cells == cells[..i] + [cells[i]] + cells[i + 1..];
      assert r == cells[..i] + [c] + cells[i + 1..];
      InAround(cells[..i], cells[i], cells[i + 1..], d);
      InAround(cells[..i], c, cells[i + 1..], d);
    } else {
      assert cells == cells[..i] + cells[i..];
      InAround(cells[..i], c, cells[i..], d);
    }
  }

  lemma {:induction false} InsertRepresents(cells: seq<Cell>, m: Contents, c: Cell)
    requires Ordered(cells) && Represents(cells, m)
    ensures Represents(InsertCell(cells, c), m[c.key := c.value])
  {
    hide InsertCell, Ordered;
    forall d: Cell ensures d in InsertCell(cells, c) <==> d.key in m[c.key := c.value] && m[c.key := c.value][d.key] == d.value {
      InsertMembers(cells, c, d);
    }
  }

  // ------------------------------------------------------------ memory

  function CellSize(overhead: nat, c: Cell): nat {
    overhead + |c.key.row| + |c.key.column| + ValueSize(c)
  }

  function ValueSize(c: Cell): nat { if c.value.Some? then |c.value.value| else 0 }

  function Usage(overhead: nat, cells: seq<Cell>): nat {
    if cells == [] then 0 else CellSize(overhead, cells[0]) + Usage(overhead, cells[1..])
  }

  lemma {:induction false} UsageConcat(overhead: nat, a: seq<Cell>, b: seq<Cell>)
    ensures Usage(overhead, a + b) == Usage(overhead, a) + Usage(overhead, b)
  {
    if a == [] {
      assert a + b == b;
    } else {
      assert (a + b)[1..] == a[1..] + b;
      UsageConcat(overhead, a[1..], b);
    }
  }

  lemma {:induction false} UsageAt(overhead: nat, cells: seq<Cell>, i: nat)
    requires i < |cells|
    ensures Usage(overhead, cells)
            == Usage(overhead, cells[..i]) + CellSize(overhead, cells[i]) + Usage(overhead, cells[i + 1..])
  {
    assert cells == cells[..i] + cells[i..];
    UsageConcat(overhead, cells[..i], cells[i..]);
    assert cells[i..][1..] == cells[i + 1..];
  }

  lemma {:induction false} UsageInsert(overhead: nat, cells: seq<Cell>, c: Cell)
    ensures Usage(overhead, InsertCell(cells, c)) ==
      if Holds(cells, c.key) then Usage(overhead, cells) - ValueSize(cells[Position(cells, c.key)]) + ValueSize(c)
      else Usage(overhead, cells) + CellSize(overhead, c)
  {
    hide Usage, ValueSize;
    var i, r := Position(cells, c.key), InsertCell(cells, c);
    if Holds(cells, c.key) {
      UsageAt(overhead, cells, i);
      UsageAt(overhead, r, i);
      assert r[..i] == cells[..i] && r[i + 1..] == cells[i + 1..];
    } else {
      UsageAt(overhead, r, i);
      assert r[..i] == cells[..i] && r[i + 1..] == cells[i..];
      assert cells == cells[..i] + cells[i..];
      UsageConcat(overhead, cells[..i], cells[i..]);
    }
  }

  // ------------------------------------------------------------ the table

  datatype Mutation = Set(key: Key, value: bytes) | Erase(key: Key)

  function AsCell(m: Mutation): Cell {
    match m
    case Set(key, value) => Cell(key, Some(value))
    case Erase(key) => Cell(key, None)
  }

  /** Mutations applied to a table, first to last. */
  function Replay(m: Contents, ms: seq<Mutation>): Contents
    decreases |ms|
  {
    if ms == [] then m else Replay(m[ms[0].key := AsCell(ms[0]).value], ms[1..])
  }

  lemma {:induction false} ReplayConcat(m: Contents, a: seq<Mutation>, b: seq<Mutation>)
    ensures Replay(m, a + b) == Replay(Replay(m, a), b)
    decreases |a|
  {
    if a == [] {
      assert a + b == b;
    } else {
      assert (a + b)[1..] == a[1..] + b;
      ReplayConcat(m[a[0].key := AsCell(a[0]).value], a[1..], b);
    }
  }

  lemma {:induction false} ReplaySnoc(m: Contents, ms: seq<Mutation>, k: nat)
    requires k < |ms|
    ensures Replay(m, ms[..k + 1]) == Replay(m, ms[..k])[ms[k].key := AsCell(ms[k]).value]
  {
    ReplayConcat(m, ms[..k], [ms[k]]);
    assert ms[..k + 1] == ms[..k] + [ms[k]] && [ms[k]][1..] == [];
  }

  class MemoryTable {
    const overhead: nat
    const filterErasures: bool
    var cells: seq<Cell>
    var memUsage: nat
    ghost var contents: Contents

    ghost predicate Valid()
      reads this
    {
      Ordered(cells) && Represents(cells, contents) && memUsage == Usage(overhead, cells)
    }

    constructor (overhead: nat, filterErasures: bool)
      ensures Valid() && contents == map[] && cells == [] && this.filterErasures == filterErasures
    {
      this.overhead, this.filterErasures := overhead, filterErasures;
      cells, memUsage, contents := [], 0, map[];
    }

    /** Insert a cell, possibly overwriting one with the same key. */
    method Insert(c: Cell)
      requires Valid()
      modifies this
      ensures Valid() && contents == old(contents)[c.key := c.value] && cells == InsertCell(old(cells), c)
    {
      hide Position, Usage, CellSize, ValueSize, Ordered, Represents;
      InsertOrdered(cells, c);
      InsertRepresents(cells, contents, c);
      UsageInsert(overhead, cells, c);
      var i := Position(cells, c.key);
      if i < |cells| && cells[i].key == c.key {
        memUsage := memUsage + ValueSize(c) - ValueSize(cells[i]);
        cells := cells[i := c];
      } else {
        memUsage := memUsage + CellSize(overhead, c);
        cells := cells[..i] + [c] + cells[i..];
      }
      contents := contents[c.key := c.value];
    }

    /** set or erase */
    method Mutate(m: Mutation)
      requires Valid()
      modifies this
      ensures Valid() && contents == old(contents)[m.key := AsCell(m).value]
    {
      Insert(AsCell(m));
    }

    /** A current cell that the predicate describes, and not an erasure if those are filtered. */
    ghost predicate Eligible(p: Pred, c: Cell)
      reads this
    {
      && c.key in contents && contents[c.key] == c.value && (filterErasures ==> c.value.Some?)
      && Described(p, c.key.row, c.key.column, c.key.time)
    }

    /** A complete scan. It is refused when erasures are kept and history is asked for. */
    method Scan(p: Pred) returns (out: Option<seq<Cell>>)
      requires Valid()
      ensures out.None? <==> !filterErasures && p.maxHistory != 0
      ensures out.Some? ==> out.value == Filtered(p, if filterErasures then Live(cells) else cells)
      ensures out.Some? ==> InOrder(out.value)
      ensures out.Some? && ValidPred(p) ==> forall c :: c in out.value ==> Eligible(p, c)
      ensures out.Some? && ValidPred(p) && p.maxHistory == 0 ==> forall c :: Eligible(p, c) ==> c in out.value
    {
      hide Ordered, InOrder, Keep, Selects, Described, ValidPred, Usage, Filtered;
      if !filterErasures && p.maxHistory != 0 { return None; }
      var s := cells;
      if filterErasures {
        s := RunFilter(NotErasure, cells);
      }
      var r := ApplyPredicate(p, s);
      out := Some(r);
      FilterStep(NotErasure, cells);
      FilteredMeans(p, s);
    }
  }

  /** A live cell of the table that the predicate selects. */
  ghost predicate Matches(m: Contents, p: Pred, c: Cell) {
    c.key in m && m[c.key] == c.value && c.value.Some? && InPred(p, c)
  }

  lemma {:induction false} MatchesMeans(m: Contents, p: Pred, c: Cell)
    requires ValidPred(p)
    ensures Matches(m, p, c) <==>
      c.key in m && m[c.key] == c.value && c.value.Some? && Described(p, c.key.row, c.key.column, c.key.time)
  {
    hide Selects, Described, ValidPred;
    SelectsMeans(p, c.key.row, c.key.column, c.key.time);
  }

  /** Those of the same row and column with later timestamps. */
  ghost function NewerMatches(m: Contents, p: Pred, c: Cell): set<Cell> {
    set k | k in m && Matches(m, p, Cell(k, m[k])) && SameColumn(Cell(k, m[k]), c) && k.time > c.key.time :: Cell(k, m[k])
  }

  /** The stream in front of the history filter holds the live selected cells, in order. */
  lemma {:induction false} KeptIs(cells: seq<Cell>, m: Contents, p: Pred)
    requires Ordered(cells) && Represents(cells, m)
    ensures var kept := Selected(p, Live(cells));
      && Ordered(kept) && |kept| <= |cells|
      && (forall c :: c in kept <==> Matches(m, p, c))
      && (forall c :: Newer(kept, c) == NewerMatches(m, p, c))
  {
    hide Ordered, InPred, Keep, Selected;
    FilterStep(NotErasure, cells);
    SelectedMeaning(p, Live(cells));
    var kept := Selected(p, Live(cells));
    forall c ensures c in kept <==> Matches(m, p, c) { }
    KeptIsShort(cells, m, kept);
    forall c ensures Newer(kept, c) == NewerMatches(m, p, c) {
      forall d ensures d in Newer(kept, c) <==> d in NewerMatches(m, p, c) {
        if Matches(m, p, d) { assert d == Cell(d.key, m[d.key]); }
      }
    }
  }

  /** The cells a scan of a table with these contents is to return. */
  ghost predicate Returned(m: Contents, p: Pred, c: Cell) {
    Matches(m, p, c) && (p.maxHistory != 0 ==> Wanted(p.maxHistory, |NewerMatches(m, p, c)|))
  }

  /** A filtered scan returns, in cell order, exactly the live cells the predicate selects, cut per row and
      column to the latest or all but the latest. */
  lemma {:induction false} ScanMeaning(cells: seq<Cell>, m: Contents, p: Pred)
    requires Ordered(cells) && Represents(cells, m) && IsInt(p.maxHistory) && |cells| < WORD
    ensures var out := Filtered(p, Live(cells));
      Ordered(out) && forall c :: c in out <==> Returned(m, p, c)
  {
    hide Ordered, HistoryFrom, Represents, Newer, Wanted, Matches, NewerMatches, Live, Selected;
    KeptIs(cells, m, p);
    var kept := Selected(p, Live(cells));
    if p.maxHistory != 0 {
      forall i | 0 <= i < |kept| ensures Rank(kept, i) < SafeLength(p.maxHistory) { assert Rank(kept, i) <= i; }
      HistoryMeaning(p.maxHistory, kept);
    }
  }

  /** Build a table from any history of mutations and scan it. */
  method ScanHistory(overhead: nat, ms: seq<Mutation>, p: Pred) returns (out: seq<Cell>)
    requires IsInt(p.maxHistory) && |ms| < WORD
    ensures Ordered(out) && forall c :: c in out <==> Returned(Replay(map[], ms), p, c)
    ensures InOrder(out)
    ensures ValidPred(p) ==> forall c :: c in out ==> Described(p, c.key.row, c.key.column, c.key.time)
  {
    hide Ordered, Filtered, Represents, Usage, Returned, Live, Replay, InOrder, Described, ValidPred;
    var t := new MemoryTable(overhead, true);
    NoReplay(ms);
    for k := 0 to |ms|
      invariant t.Valid() && fresh(t) && t.filterErasures && |t.cells| <= k
      invariant t.contents == Replay(map[], ms[..k])
    {
      t.Insert(AsCell(ms[k]));
      ReplaySnoc(map[], ms, k);
    }
    assert ms[..|ms|] == ms;
    var r := t.Scan(p);
    out := r.value;
    ScanMeaning(t.cells, t.contents, p);
  }

  lemma {:induction false} NoReplay(ms: seq<Mutation>)
    ensures Replay(map[], ms[..0]) == map[]
  {
  }

  /** A subset of the cells, in order, is no longer than all of them. */
  lemma {:induction false} KeptIsShort(cells: seq<Cell>, m: Contents, kept: seq<Cell>)
    requires Ordered(kept) && Represents(cells, m)
    requires forall c :: c in kept ==> c.key in m && m[c.key] == c.value
    ensures |kept| <= |cells|
  {
    hide CellLess;
    var a, b := set c | c in kept, set c | c in cells;
    assert a <= b;
    SubsetSize(a, b);
    OrderedSize(kept);
    SetSize(cells);
  }

  lemma {:induction false} SubsetSize<T>(a: set<T>, b: set<T>)
    requires a <= b
    ensures |a| <= |b|
  {
    if a != {} {
      var x :| x in a;
      SubsetSize(a - {x}, b - {x});
    }
  }

  lemma {:induction false} SetSize(s: seq<Cell>)
    ensures |set c | c in s| <= |s|
  {
    if s != [] {
      SetSize(s[1..]);
      assert (set c | c in s) == (set c | c in s[1..]) + {s[0]} by { assert s == [s[0]] + s[1..]; }
    }
  }

  lemma {:induction false} FirstIsAlone(s: seq<Cell>)
    requires Ordered(s) && s != []
    ensures s[0] !in s[1..]
  {
    KeyTotal(s[0].key, s[0].key);
    hide KeyLess;
    forall j | 0 <= j < |s[1..]| ensures s[1..][j] != s[0] { assert CellLess(s[0], s[j + 1]); }
  }

  lemma {:induction false} OrderedSize(s: seq<Cell>)
    requires Ordered(s)
    ensures |set c | c in s| == |s|
  {
    hide CellLess;
    if s != [] {
      OrderedSize(s[1..]);
      FirstIsAlone(s);
      assert (set c | c in s) == (set c | c in s[1..]) + {s[0]} by { assert s == [s[0]] + s[1..]; }
    }
  }

  // ------------------------------------------------------------ scans while the table changes

  /** MemoryTable::Scanner: a set iterator. Nodes are never removed, so a key identifies one; None is the end. */
  datatype Scan = Scan(cells: seq<Cell>, it: Option<Key>, returned: seq<Cell>)

  function KeyAt(cells: seq<Cell>, i: nat): Option<Key> {
    if i < |cells| then Some(cells[i].key) else None
  }

  /** Other threads insert cells, the scanner reads one. */
  datatype Event = Inserted(cell: Cell) | Got

  function ScanStep(s: Scan, e: Event): Scan {
    match e
    case Inserted(c) => s.(cells := InsertCell(s.cells, c))
    case Got =>
      if s.it.None? then s
      else
        var i := Position(s.cells, s.it.value);
        if i < |s.cells| then Scan(s.cells, KeyAt(s.cells, i + 1), s.returned + [s.cells[i]]) else s
  }

  /** A scan starts at the first cell; events happen in any order. */
  function Run(start: seq<Cell>, events: seq<Event>): Scan {
    if events == [] then Scan(start, KeyAt(start, 0), [])
    else ScanStep(Run(start, events[..|events| - 1]), events[|events| - 1])
  }

  ghost predicate HasKey(cells: seq<Cell>, key: Key) { exists i :: 0 <= i < |cells| && cells[i].key == key }

  ghost predicate ScanInv(start: seq<Cell>, s: Scan) {
    && Ordered(s.cells) && Ordered(s.returned)
    && (forall i :: 0 <= i < |start| ==> HasKey(s.cells, start[i].key))
    && (s.it.Some? ==> HasKey(s.cells, s.it.value))
    && (forall i :: 0 <= i < |s.returned| ==> s.it.Some? ==> KeyLess(s.returned[i].key, s.it.value))
    && (forall i :: 0 <= i < |start| ==>
          HasKey(s.returned, start[i].key) || (s.it.Some? && !KeyLess(start[i].key, s.it.value)))
  }

  lemma {:induction false} HasKeyHolds(cells: seq<Cell>, key: Key)
    requires Ordered(cells) && HasKey(cells, key)
    ensures Holds(cells, key)
  {
    PositionSplits(cells, key);
    KeyTotal(key, key);
    hide KeyLess;
    var i :| 0 <= i < |cells| && cells[i].key == key;
  }

  lemma {:induction false} InsertKeepsKey(cells: seq<Cell>, c: Cell, key: Key)
    requires Ordered(cells) && HasKey(cells, key)
    ensures HasKey(InsertCell(cells, c), key)
  {
    hide InsertCell, Ordered;
    var i :| 0 <= i < |cells| && cells[i].key == key;
    var d := if key == c.key then c else cells[i];
    InsertMembers(cells, c, d);
    var r := InsertCell(cells, c);
    assert d in r;
    var j :| 0 <= j < |r| && r[j] == d;
  }

  lemma {:induction false} InsertedKeeps(start: seq<Cell>, s: Scan, c: Cell)
    requires ScanInv(start, s)
    ensures ScanInv(start, ScanStep(s, Inserted(c)))
  {
    hide InsertCell, KeyLess, CellLess, HasKey;
    InsertOrdered(s.cells, c);
    forall i | 0 <= i < |start| ensures HasKey(InsertCell(s.cells, c), start[i].key) {
      InsertKeepsKey(s.cells, c, start[i].key);
    }
    if s.it.Some? { InsertKeepsKey(s.cells, c, s.it.value); }
  }

  /** What was returned stays in order and below the iterator. */
  lemma {:induction false} ReturnedInOrder(s: Scan, i: nat)
    requires Ordered(s.cells) && Ordered(s.returned) && s.it.Some? && i < |s.cells| && s.cells[i].key == s.it.value
    requires forall j :: 0 <= j < |s.returned| ==> KeyLess(s.returned[j].key, s.it.value)
    ensures var out, next := s.returned + [s.cells[i]], KeyAt(s.cells, i + 1);
      && Ordered(out)
      && (next.Some? ==> HasKey(s.cells, next.value))
      && (forall j :: 0 <= j < |out| ==> next.Some? ==> KeyLess(out[j].key, next.value))
  {
    hide KeyLess;
    var x, out, next := s.cells[i], s.returned + [s.cells[i]], KeyAt(s.cells, i + 1);
    if next.Some? {
      assert CellLess(x, s.cells[i + 1]);
      forall j | 0 <= j < |out| ensures KeyLess(out[j].key, next.value) {
        if j < |s.returned| { KeyTransitive(out[j].key, x.key, next.value); }
      }
    }
  }

  lemma {:induction false} GotStep(s: Scan)
    requires Ordered(s.cells) && s.it.Some? && HasKey(s.cells, s.it.value)
    ensures var i := Position(s.cells, s.it.value);
      && i < |s.cells| && s.cells[i].key == s.it.value
      && ScanStep(s, Got) == Scan(s.cells, KeyAt(s.cells, i + 1), s.returned + [s.cells[i]])
  {
    hide Ordered, KeyLess, KeyAt;
    HasKeyHolds(s.cells, s.it.value);
  }

  /** Reading moves past one key and skips none of the table's. */
  lemma {:induction false} GotKeeps(start: seq<Cell>, s: Scan)
    requires ScanInv(start, s) && s.it.Some?
    ensures ScanInv(start, ScanStep(s, Got))
    ensures ScanStep(s, Got).returned == s.returned + [s.cells[Position(s.cells, s.it.value)]]
  {
    hide Position, KeyLess, CellLess, HasKey, Ordered, KeyAt, ScanStep;
    GotStep(s);
    var i, s' := Position(s.cells, s.it.value), ScanStep(s, Got);
    ReturnedInOrder(s, i);
    forall j | 0 <= j < |start|
      ensures HasKey(s'.returned, start[j].key) || (s'.it.Some? && !KeyLess(start[j].key, s'.it.value))
    {
      StartCovered(s, start[j].key, i);
    }
  }

  lemma {:induction false} StartCovered(s: Scan, k0: Key, i: nat)
    requires Ordered(s.cells) && HasKey(s.cells, k0) && s.it.Some? && i < |s.cells| && s.cells[i].key == s.it.value
    requires HasKey(s.returned, k0) || !KeyLess(k0, s.it.value)
    ensures var next := KeyAt(s.cells, i + 1);
      HasKey(s.returned + [s.cells[i]], k0) || (next.Some? && !KeyLess(k0, next.value))
  {
    hide KeyLess;
    var out := s.returned + [s.cells[i]];
    if HasKey(s.returned, k0) {
      var j :| 0 <= j < |s.returned| && s.returned[j].key == k0;
      assert out[j].key == k0;
    } else {
      var m :| 0 <= m < |s.cells| && s.cells[m].key == k0;
      assert m < i ==> CellLess(s.cells[m], s.cells[i]);
      if m == i { assert out[|s.returned|].key == k0; }
      if m > i {
        KeyTotal(s.cells[i + 1].key, k0);
        if m > i + 1 { assert CellLess(s.cells[i + 1], s.cells[m]); }
      }
    }
  }

  /** The invariant holds after every sequence of inserts and reads. */
  lemma {:induction false} RunKeeps(start: seq<Cell>, events: seq<Event>)
    requires Ordered(start)
    ensures ScanInv(start, Run(start, events))
  {
    hide KeyLess, CellLess, ScanInv, ScanStep;
    if events == [] {
      StartKeeps(start);
    } else {
      var s, e := Run(start, events[..|events| - 1]), events[|events| - 1];
      RunKeeps(start, events[..|events| - 1]);
      match e {
        case Inserted(c) => InsertedKeeps(start, s, c);
        case Got =>
          if s.it.Some? { GotKeeps(start, s); } else { assert ScanStep(s, Got) == s by { GotAtEnd(s); } }
      }
    }
  }

  lemma {:induction false} GotAtEnd(s: Scan)
    requires s.it.None?
    ensures ScanStep(s, Got) == s
  {
  }

  lemma {:induction false} StartKeeps(start: seq<Cell>)
    requires Ordered(start)
    ensures ScanInv(start, Scan(start, KeyAt(start, 0), []))
  {
    hide KeyLess;
    forall i | 0 <= i < |start| ensures !KeyLess(start[i].key, start[0].key) {
      KeyTotal(start[0].key, start[i].key);
      if i > 0 { assert CellLess(start[0], start[i]); }
    }
  }

  /** However inserts and reads interleave: keys come out strictly increasing, the cell read is the
      table's cell for its key at that moment, and a scan that has reached the end has returned every
      key that was there at the start, once. */
  lemma {:induction false} ScanIsComplete(start: seq<Cell>, events: seq<Event>)
    requires Ordered(start)
    ensures var s := Run(start, events);
      && Ordered(s.returned)
      && (forall c :: c in start && s.it.None? ==> HasKey(s.returned, c.key))
      && (forall i, j :: 0 <= i < j < |s.returned| ==> s.returned[i].key != s.returned[j].key)
      && (s.it.Some? ==> var x := ScanStep(s, Got).returned;
                         |x| == |s.returned| + 1 && x[|x| - 1] in s.cells && x[|x| - 1].key == s.it.value)
  {
    hide KeyLess, ScanStep, Run;
    RunKeeps(start, events);
    var s := Run(start, events);
    forall i, j | 0 <= i < j < |s.returned| ensures s.returned[i].key != s.returned[j].key {
      assert CellLess(s.returned[i], s.returned[j]);
      KeyTotal(s.returned[i].key, s.returned[i].key);
    }
    if s.it.Some? {
      HasKeyHolds(s.cells, s.it.value);
      GotKeeps(start, s);
    }
  }

  /** The iterator over a table object. */
  class Scanner {
    const table: MemoryTable
    var tableIt: Option<Key>
    ghost var returned: seq<Cell>

    ghost function View(): Scan
      reads this, table
    {
      Scan(table.cells, tableIt, returned)
    }

    constructor (table: MemoryTable)
      ensures this.table == table && View() == Scan(table.cells, KeyAt(table.cells, 0), [])
    {
      this.table, tableIt, returned := table, KeyAt(table.cells, 0), [];
    }

    /** Return the cell at the iterator and move on. */
    method Get() returns (r: Option<Cell>)
      requires tableIt.Some? ==> Holds(table.cells, tableIt.value)
      modifies this
      ensures View() == ScanStep(old(View()), Got)
      ensures r.None? <==> old(tableIt).None?
      ensures r.Some? ==> returned == old(returned) + [r.value] && r.value in table.cells && r.value.key == old(tableIt).value
    {
      if tableIt.None? { return None; }
      var i := Position(table.cells, tableIt.value);
      var x := table.cells[i];
      tableIt := KeyAt(table.cells, i + 1);
      returned := returned + [x];
      return Some(x);
    }
  }
}
