/** Cells, their order, and the merge of cell streams. */
module Cells {
  import opened Options
  import opened IntervalSet
  import opened Strings
  import Merge

  datatype Key = Key(row: bytes, column: bytes, time: int)

  /** A cell without a value is an erasure. */
  datatype Cell = Cell(key: Key, value: Option<bytes>)

  predicate IsErasure(c: Cell) { c.value.None? }

  /** Rows and columns up, timestamps down. */
  predicate KeyLess(a: Key, b: Key) {
    if a.row != b.row then StrLess(a.row, b.row)
    else if a.column != b.column then StrLess(a.column, b.column)
    else b.time < a.time
  }

  predicate CellLess(a: Cell, b: Cell) { KeyLess(a.key, b.key) }

  lemma {:induction false} KeyTransitive(a: Key, b: Key, c: Key)
    requires KeyLess(a, b) && KeyLess(b, c)
    ensures KeyLess(a, c)
  {
    hide StrLess;
    if a.row != b.row && b.row != c.row { StrTransitive(a.row, b.row, c.row); }
    if a.column != b.column && b.column != c.column { 
      if a.row == b.row == c.row { StrTransitive(a.column, b.column, c.column); }
    }
    StrIrreflexive(a.row);
    StrIrreflexive(a.column);
  }

  lemma {:induction false} KeyTotal(a: Key, b: Key)
    ensures !KeyLess(a, a)
    ensures a == b || KeyLess(a, b) || KeyLess(b, a)
    ensures !(KeyLess(a, b) && KeyLess(b, a))
  {
    hide StrLess;
    StrTotal(a.row, b.row);
    StrTotal(a.column, b.column);
    StrIrreflexive(a.row);
    StrIrreflexive(a.column);
    if StrLess(a.row, b.row) && StrLess(b.row, a.row) { StrTransitive(a.row, b.row, a.row); }
    if StrLess(a.column, b.column) && StrLess(b.column, a.column) { StrTransitive(a.column, b.column, a.column); }
  }

  /** The key order is a strict total order. */
  lemma {:induction false} KeyOrder()
    ensures StrictOrder(KeyLess)
  {
    hide KeyLess;
    forall a ensures !KeyLess(a, a) { KeyTotal(a, a); }
    forall a, b, c | KeyLess(a, b) && KeyLess(b, c) ensures KeyLess(a, c) { KeyTransitive(a, b, c); }
    forall a, b ensures a == b || KeyLess(a, b) || KeyLess(b, a) { KeyTotal(a, b); }
  }

  /** Cells compare equal exactly when their keys are equal. */
  lemma {:induction false} CellOrder()
    ensures Merge.WeakOrder(CellLess)
    ensures forall a, b :: Merge.Same(CellLess, a, b) <==> a.key == b.key
  {
    hide KeyLess;
    KeyOrder();
  }

  /** In strict cell order. */
  ghost predicate Ordered(cells: seq<Cell>) { Merge.StrictlySorted(CellLess, cells) }

  /** Rows never fall, columns never fall within a row, and timestamps fall within a row and column. */
  ghost predicate InOrder(cells: seq<Cell>) {
    forall i, j :: 0 <= i < j < |cells| ==> Follows(cells[i].key, cells[j].key)
  }

  predicate Follows(a: Key, b: Key) {
    && !StrLess(b.row, a.row)
    && (a.row == b.row ==> !StrLess(b.column, a.column) && (a.column == b.column ==> b.time < a.time))
  }

  /** What cell order is. */
  lemma {:induction false} OrderedMeans(cells: seq<Cell>)
    ensures Ordered(cells) <==> InOrder(cells)
  {
    hide KeyLess, Follows;
    forall i, j | 0 <= i < j < |cells| ensures CellLess(cells[i], cells[j]) <==> Follows(cells[i].key, cells[j].key) {
      KeyFollows(cells[i].key, cells[j].key);
    }
  }

  lemma {:induction false} KeyFollows(a: Key, b: Key)
    ensures KeyLess(a, b) <==> Follows(a, b)
  {
    hide StrLess;
    StrTotal(a.row, b.row);
    StrTotal(a.column, b.column);
    StrIrreflexive(a.row);
    StrIrreflexive(a.column);
    if StrLess(a.row, b.row) && StrLess(b.row, a.row) { StrTransitive(a.row, b.row, a.row); }
    if StrLess(a.column, b.column) && StrLess(b.column, a.column) { StrTransitive(a.column, b.column, a.column); }
  }

  /** A containment or erasure filter. */
  function Keep(f: Cell -> bool, s: seq<Cell>): (r: seq<Cell>) {
    if s == [] then [] else (if f(s[0]) then [s[0]] else []) + Keep(f, s[1..])
  }

  lemma {:induction false} KeepMembers(f: Cell -> bool, s: seq<Cell>, c: Cell)
    ensures c in Keep(f, s) <==> c in s && f(c)
  {
    if s != [] { KeepMembers(f, s[1..], c); assert s == [s[0]] + s[1..]; }
  }

  lemma {:induction false} KeepOrdered(f: Cell -> bool, s: seq<Cell>)
    requires Ordered(s)
    ensures Ordered(Keep(f, s))
  {
    hide CellLess;
    if s != [] {
      KeepOrdered(f, s[1..]);
      var r := Keep(f, s[1..]);
      forall c | c in r ensures CellLess(s[0], c) { KeepMembers(f, s[1..], c); }
    }
  }

  predicate NotErasure(c: Cell) { !IsErasure(c) }

  function Live(cells: seq<Cell>): seq<Cell> { Keep(NotErasure, cells) }

  lemma {:induction false} KeepSnoc(f: Cell -> bool, cells: seq<Cell>, c: Cell)
    ensures Keep(f, cells + [c]) == Keep(f, cells) + (if f(c) then [c] else [])
  {
    var last := if f(c) then [c] else [];
    KeepHead(f, cells + [c]);
    if cells == [] {
      assert cells + [c] == [c] && [c][1..] == [];
    } else {
      KeepHead(f, cells);
      hide Keep;
      assert (cells + [c])[1..] == cells[1..] + [c];
      KeepSnoc(f, cells[1..], c);
      var head, rest := if f(cells[0]) then [cells[0]] else [], Keep(f, cells[1..]);
      assert head + (rest + last) == head + rest + last;
    }
  }

  lemma {:induction false} KeepHead(f: Cell -> bool, s: seq<Cell>)
    requires s != []
    ensures Keep(f, s) == (if f(s[0]) then [s[0]] else []) + Keep(f, s[1..])
  {
  }

  /** CellMerge: a unique merge of cells, with or without its erasures. */
  class CellMerge {
    const base: Merge.Merge<Cell>
    const filterErasures: bool
    ghost var returned: seq<Cell>

    ghost predicate Valid()
      reads this, base
    {
      && base.lt == CellLess && base.mergeUnique && base.Valid() && base.onTime
      && returned == if filterErasures then Live(base.Returned()) else base.Returned()
    }

    constructor (filterErasures: bool)
      ensures Valid() && fresh(base) && this.filterErasures == filterErasures
      ensures returned == [] && base.full == [] && base.ins == [] && base.Pending() == []
    {
      CellOrder();
      this.filterErasures := filterErasures;
      base := new Merge.Merge(CellLess, true);
      returned := [];
      new;
      Merge.DedupEmpty(CellLess);
    }

    /** The next cell; erasures are skipped if they are filtered. */
    method Get() returns (r: Option<Cell>)
      requires Valid()
      modifies this, base
      ensures Valid() && base.ins == old(base.ins)
      ensures r.None? ==> Merge.Exhausted(base.Pending()) && returned == old(returned)
      ensures r.Some? ==> returned == old(returned) + [r.value]
      ensures r.Some? ==> Merge.Size(base.Pending()) < old(Merge.Size(base.Pending()))
    {
      hide Merge.Conserves, Merge.Rises, Merge.WeakOrder, Merge.Dedup, Merge.PendingOf, Merge.Size, Merge.IsTop, Merge.Taken,
           Merge.HeadsAbove, Merge.Filled, Keep;
      while true
        invariant Valid() && base.ins == old(base.ins) && returned == old(returned)
        invariant Merge.Size(base.Pending()) <= old(Merge.Size(base.Pending()))
        decreases Merge.Size(base.Pending())
      {
        ghost var before := base.Returned();
        r := base.Get();
        if r.None? { return; }
        KeepSnoc(NotErasure, before, r.value);
        if !filterErasures || !IsErasure(r.value) {
          returned := returned + [r.value];
          return;
        }
      }
    }
  }

  /** The cell that stands for its key: the first one in the first fragment that has the key. */
  ghost predicate Wins(frags: seq<seq<Cell>>, c: Cell) { Merge.First(Merge.OnlyAll(CellLess, c, frags)) == [c] }

  ghost function LiveIf(filterErasures: bool, cells: seq<Cell>): seq<Cell> { if filterErasures then Live(cells) else cells }

  lemma {:induction false} OnlyMembers(k: Cell, s: seq<Cell>, c: Cell)
    ensures c in Merge.Only(CellLess, k, s) <==> c in s && Merge.Same(CellLess, k, c)
  {
    hide CellLess;
    if s != [] {
      OnlyMembers(k, s[1..], c);
      assert s == [s[0]] + s[1..];
    }
  }

  /** The cells of an overlay are the winning ones. */
  lemma {:induction false} OverlayMembers(frags: seq<seq<Cell>>, overlay: seq<Cell>, c: Cell)
    requires Merge.IsOverlay(CellLess, frags, overlay)
    ensures c in overlay <==> Wins(frags, c)
  {
    hide KeyLess, Merge.StrictlySorted, Merge.Only, Merge.OnlyAll;
    CellOrder();
    OnlyMembers(c, overlay, c);
    assert Merge.Only(CellLess, c, overlay) == Merge.First(Merge.OnlyAll(CellLess, c, frags));
  }

  lemma {:induction false} OverlayResult(frags: seq<seq<Cell>>, filterErasures: bool, overlay: seq<Cell>)
    requires Merge.IsOverlay(CellLess, frags, overlay)
    ensures var out := LiveIf(filterErasures, overlay);
      && Ordered(out)
      && forall c :: c in out <==> Wins(frags, c) && !(filterErasures && IsErasure(c))
  {
    hide CellLess, Keep, Wins;
    KeepOrdered(NotErasure, overlay);
    forall c ensures c in LiveIf(filterErasures, overlay) <==> Wins(frags, c) && !(filterErasures && IsErasure(c)) {
      OverlayMembers(frags, overlay, c);
      KeepMembers(NotErasure, overlay, c);
    }
  }

  /** Overlay sorted fragments, first fragments winning, and drop erasures if asked to. An erasure that
      wins hides the older cells of its key in both cases. */
  method MergeCells(frags: seq<seq<Cell>>, filterErasures: bool) returns (out: seq<Cell>)
    requires forall i :: 0 <= i < |frags| ==> Merge.Sorted(CellLess, frags[i])
    ensures Ordered(out)
    ensures forall c :: c in out <==> Wins(frags, c) && !(filterErasures && IsErasure(c))
  {
    hide Merge.WeakOrder, Merge.Conserves, Merge.Rises, Merge.Sorted, Merge.Dedup, Merge.PendingOf, Merge.Size, Merge.IsOverlay, Ordered, Live, Wins;
    var m := new CellMerge(filterErasures);
    for k := 0 to |frags|
      invariant m.Valid() && fresh(m) && fresh(m.base) && m.filterErasures == filterErasures && m.returned == []
      invariant m.base.full == [] && m.base.ins == frags[..k] && m.base.ins == m.base.Pending()
    {
      m.base.PipeFrom(frags[k]);
      assert frags[..k + 1] == frags[..k] + [frags[k]];
    }
    assert frags[..|frags|] == frags;
    out := [];
    while true
      invariant m.Valid() && fresh(m) && fresh(m.base) && m.filterErasures == filterErasures
      invariant m.base.ins == frags && out == m.returned
      decreases Merge.Size(m.base.Pending())
    {
      var r := m.Get();
      if r.None? {
        Merge.MergeComplete(CellLess, frags, m.base.full, m.base.Pending());
        OverlayResult(frags, filterErasures, m.base.Returned());
        return;
      }
      out := out + [r.value];
    }
  }
}
