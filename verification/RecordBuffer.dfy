/** Reference-counted records laid out in shared buffers: the buffer allocator and Record handles. */
module RecordBuffer {
  import opened Bytes
  import opened Options
  import opened RecordFile

  // ------------------------------------------------------------ layout

  const HEADER: nat := 12

  function AlignUp(p: nat, align: nat): (r: nat)
    requires align > 0
  {
    (p + align - 1) / align * align
  }

  /** Where a header goes, and where the data of the record whose header is at `ptr` lies. */
  function HeaderPtr(p: nat): (r: nat)
    ensures p <= r < p + 4 && r % 4 == 0 && (p % 4 == 0 ==> r == p)
  {
    AlignUp(p, 4)
  }

  function DataPtr(ptr: nat): (r: nat)
    ensures ptr + HEADER <= r < ptr + HEADER + 8 && r % 8 == 0
    ensures ptr % 4 == 0 ==> r == ptr + if ptr % 8 == 0 then 16 else 12
  {
    var k, low := ptr / 8, ptr % 8;
    Eighths(ptr + 19, if low <= 4 then k + 2 else k + 3, if low <= 4 then low + 3 else low - 5);
    AlignUp(ptr + HEADER, 8)
  }

  lemma {:induction false} Eighths(x: nat, k: nat, low: nat)
    requires x == 8 * k + low && low < 8
    ensures x / 8 == k
  {
  }

  /** The header structure in memory: version and flags keep 16 bits. */
  function HeaderBytes(f: Fields): (h: seq<byte>)
    ensures |h| == HEADER
  {
    Little32(f.length) + Little32(f.kind)
      + [f.version % 256, f.version / 256 % 256, f.flags % 256, f.flags / 256 % 256]
  }

  function HeaderFields(h: seq<byte>): Fields
    requires |h| == HEADER
  {
    Fields(FromLittle32(h[0..4]), FromLittle32(h[4..8]), h[8] as int + 256 * (h[9] as int), h[10] as int + 256 * (h[11] as int))
  }

  ghost predicate ValidFields(f: Fields) { f.length < U32 && f.kind < U32 && f.version < U32 && f.flags < U32 }

  function Kept(f: Fields): Fields { f.(version := f.version % 0x1_0000, flags := f.flags % 0x1_0000) }

  lemma {:induction false} HeaderRoundTrip(f: Fields)
    requires ValidFields(f)
    ensures HeaderFields(HeaderBytes(f)) == Kept(f)
  {
    LittleRoundTrip(f.length);
    LittleRoundTrip(f.kind);
    hide Little32, FromLittle32;
    var h := HeaderBytes(f);
    assert h[0..4] == Little32(f.length) && h[4..8] == Little32(f.kind);
    LowBytes(f.version);
    LowBytes(f.flags);
  }

  // ------------------------------------------------------------ state

  /** A RecordBuffer: its memory and its reference count. */
  datatype Store = Store(base: nat, mem: seq<byte>, refs: nat)

  /** A Record handle. */
  datatype Ref = Null | Ref(store: nat, ptr: nat)

  /** The buffers not yet deleted, how many were ever made, every Record variable, and the allocator. */
  datatype State = State(
    stores: map<nat, Store>, made: nat, records: seq<Ref>,
    buf: Option<nat>, bufPtr: nat, bufEnd: nat, allocSize: nat, releasedSize: nat)

  /** What `new char[size]` gives: any memory, aligned for every type. */
  datatype Block = Block(base: nat, mem: seq<byte>)
  type Malloc = (nat, nat) -> Block

  ghost predicate GoodMalloc(m: Malloc) {
    forall id, size :: m(id, size).base % 8 == 0 && |m(id, size).mem| == size
  }

  predicate Refers(r: Ref, id: nat) { r.Ref? && r.store == id }

  function Count(rs: seq<Ref>, id: nat): nat {
    if rs == [] then 0 else Count(rs[..|rs| - 1], id) + if Refers(rs[|rs| - 1], id) then 1 else 0
  }

  function End(st: Store): nat { st.base + |st.mem| }

  predicate HasHeader(st: Store, ptr: nat) { st.base <= ptr && ptr % 4 == 0 && ptr + HEADER <= End(st) }

  /** What the accessors read. */
  function GetFields(st: Store, ptr: nat): Fields
    requires HasHeader(st, ptr)
  {
    HeaderFields(st.mem[ptr - st.base..ptr - st.base + HEADER])
  }

  function DataEnd(st: Store, ptr: nat): (r: nat)
    requires HasHeader(st, ptr)
    ensures r >= ptr + HEADER
  {
    DataPtr(ptr) + GetFields(st, ptr).length
  }

  // ------------------------------------------------------------ reference counts

  /** A handle takes a reference. */
  function Take(s: State, i: nat, r: Ref): State
    requires i < |s.records| && r.Ref? && r.store in s.stores
  {
    var st := s.stores[r.store];
    s.(stores := s.stores[r.store := st.(refs := st.refs + 1)], records := s.records[i := r])
  }

  /** Drop a reference; the last one deletes the buffer. */
  function DropStore(s: State, id: nat): State
    requires id in s.stores && s.stores[id].refs > 0
  {
    var st := s.stores[id];
    if st.refs == 1 then s.(stores := s.stores - {id}) else s.(stores := s.stores[id := st.(refs := st.refs - 1)])
  }

  /** Record::release */
  function ReleaseRecord(s: State, i: nat): State
    requires i < |s.records| && Counted(s)
  {
    var r := s.records[i];
    if r.Null? then s
    else
      CountPositive(s.records, i, r.store);
      DropStore(s, r.store).(records := s.records[i := Null])
  }

  /** Record::operator= */
  function AssignRecord(s: State, i: nat, j: nat): State
    requires i < |s.records| && j < |s.records| && Counted(s)
  {
    if i == j then s
    else
      ReleaseCounted(s, i);
      var s' := ReleaseRecord(s, i);
      var r := s'.records[j];
      if r.Null? then s' else Take(s', i, r)
  }

  // ------------------------------------------------------------ allocation

  /** Start over in the current buffer if no record refers to it. */
  function Rewind(s: State): State
    requires Counted(s)
  {
    if s.buf.Some? && s.stores[s.buf.value].refs == 1 then s.(bufPtr := s.stores[s.buf.value].base) else s
  }

  /** Bytes from the next header to the end of the data, and whether the buffer has them. */
  function Need(s: State, f: Fields): nat {
    DataPtr(HeaderPtr(s.bufPtr)) + f.length - HeaderPtr(s.bufPtr)
  }

  predicate Fits(s: State, f: Fields) { HeaderPtr(s.bufPtr) + Need(s, f) <= s.bufEnd }

  /** Count the old buffer as released and drop the allocator's reference to it. */
  function LeaveBuffer(s: State): (r: State)
    requires Counted(s)
    ensures r.made == s.made && r.records == s.records
  {
    if s.buf.None? then s
    else DropStore(s, s.buf.value).(releasedSize := s.releasedSize + s.bufEnd - s.stores[s.buf.value].base)
  }

  function AllocBuf(s: State, m: Malloc, minSize: nat): State
    requires Counted(s)
  {
    var size := if minSize < s.allocSize then s.allocSize else minSize;
    var s1 := LeaveBuffer(s);
    var b := m(s.made, size);
    s1.(stores := s1.stores[s.made := Store(b.base, b.mem, 1)], made := s.made + 1,
        buf := Some(s.made), bufPtr := b.base, bufEnd := b.base + size)
  }

  // ------------------------------------------------------------ invariants

  /** Counts are exact: every buffer is referred to, and nothing refers to a deleted buffer. */
  ghost predicate Counted(s: State) {
    && (forall id :: id in s.stores ==> 0 < s.stores[id].refs == Count(s.records, id) + if s.buf == Some(id) then 1 else 0)
    && (forall k :: 0 <= k < |s.records| && s.records[k].Ref? ==> s.records[k].store in s.stores)
    && (s.buf.Some? ==>
          && s.buf.value in s.stores
          && s.stores[s.buf.value].base <= s.bufPtr <= s.bufEnd == End(s.stores[s.buf.value]))
    && (s.buf.None? ==> s.bufPtr == 0 && s.bufEnd == 0)
    && (forall id :: id in s.stores ==> id < s.made && s.stores[id].base % 8 == 0)
  }

  lemma {:induction false} DropReleased(s: State, id: nat, n: nat)
    requires id in s.stores && s.stores[id].refs > 0
    ensures DropStore(s.(releasedSize := n), id) == DropStore(s, id).(releasedSize := n)
  {
  }

  lemma {:induction false} BufferFacts(s: State)
    requires Counted(s)
    ensures s.buf.Some? ==>
      && s.buf.value in s.stores && s.stores[s.buf.value].refs > 0 && s.stores[s.buf.value].base <= s.bufEnd
      && s.stores[s.buf.value].base % 8 == 0
  {
    hide Count;
  }

  lemma {:induction false} CountPositive(rs: seq<Ref>, k: nat, id: nat)
    requires k < |rs| && Refers(rs[k], id)
    ensures Count(rs, id) > 0
  {
    if k < |rs| - 1 { CountPositive(rs[..|rs| - 1], k, id); }
  }

  lemma {:induction false} CountUpdate(rs: seq<Ref>, i: nat, r: Ref, id: nat)
    requires i < |rs|
    ensures Count(rs[i := r], id) + (if Refers(rs[i], id) then 1 else 0) == Count(rs, id) + if Refers(r, id) then 1 else 0
  {
    var front := rs[..|rs| - 1];
    if i < |rs| - 1 {
      CountUpdate(front, i, r, id);
      assert rs[i := r][..|rs| - 1] == front[i := r];
    } else {
      assert rs[i := r][..|rs| - 1] == front;
    }
  }

  lemma {:induction false} ReleaseCounted(s: State, i: nat)
    requires Counted(s) && i < |s.records|
    ensures Counted(ReleaseRecord(s, i))
    ensures ReleaseRecord(s, i).records == s.records[i := Null]
  {
    hide Count;
    var s' := ReleaseRecord(s, i);
    forall id ensures Count(s'.records, id) + (if Refers(s.records[i], id) then 1 else 0) == Count(s.records, id) {
      CountUpdate(s.records, i, Null, id);
      assert s.records[i].Null? ==> s.records[i := Null] == s.records;
    }
    forall k | 0 <= k < |s'.records| && s'.records[k].Ref? ensures s'.records[k].store in s'.stores {
      CountPositive(s'.records, k, s'.records[k].store);
    }
  }

  /** One more handle on a buffer, one more reference. */
  lemma {:induction false} TakeCounted(s: State, i: nat, r: Ref)
    requires Counted(s) && i < |s.records| && s.records[i] == Null && r.Ref? && r.store in s.stores
    ensures Counted(Take(s, i, r))
  {
    hide Count;
    var s' := Take(s, i, r);
    forall id ensures Count(s'.records, id) == Count(s.records, id) + if Refers(r, id) then 1 else 0 {
      CountUpdate(s.records, i, r, id);
    }
  }

  lemma {:induction false} AssignCounted(s: State, i: nat, j: nat)
    requires Counted(s) && i < |s.records| && j < |s.records|
    ensures Counted(AssignRecord(s, i, j))
  {
    if i != j {
      ReleaseCounted(s, i);
      var s1 := ReleaseRecord(s, i);
      if s1.records[j].Ref? {
        hide ReleaseRecord, Take;
        TakeCounted(s1, i, s1.records[j]);
      }
    }
  }

  lemma {:induction false} AllocBufCounted(s: State, m: Malloc, minSize: nat)
    requires Counted(s) && GoodMalloc(m)
    ensures Counted(AllocBuf(s, m, minSize)) && AllocBuf(s, m, minSize).records == s.records
  {
    var s' := AllocBuf(s, m, minSize);
    forall k | 0 <= k < |s.records| && s.records[k].Ref? ensures s.records[k].store in s'.stores {
      CountPositive(s.records, k, s.records[k].store);
    }
    if Count(s.records, s.made) > 0 {
      CountWitness(s.records, s.made);
    }
  }

  lemma {:induction false} CountWitness(rs: seq<Ref>, id: nat)
    requires Count(rs, id) > 0
    ensures exists k :: 0 <= k < |rs| && Refers(rs[k], id)
  {
    if Refers(rs[|rs| - 1], id) {
    } else {
      CountWitness(rs[..|rs| - 1], id);
    }
  }

  // ------------------------------------------------------------ where live records lie

  /** Records in the buffer being filled end below its fill pointer. */
  function Limit(s: State, id: nat): nat
    requires id in s.stores
  {
    if s.buf == Some(id) then s.bufPtr else End(s.stores[id])
  }

  ghost predicate RecordOk(s: State, r: Ref) {
    r.Ref? ==>
      && r.store in s.stores && HasHeader(s.stores[r.store], r.ptr)
      && DataEnd(s.stores[r.store], r.ptr) <= Limit(s, r.store) <= End(s.stores[r.store])
  }

  /** Two handles share a record, or their records do not overlap. */
  ghost predicate Apart(s: State, r: Ref, q: Ref)
    requires RecordOk(s, r) && RecordOk(s, q)
  {
    r.Ref? && q.Ref? && r.store == q.store ==>
      || r.ptr == q.ptr
      || DataEnd(s.stores[r.store], r.ptr) <= q.ptr
      || DataEnd(s.stores[q.store], q.ptr) <= r.ptr
  }

  ghost predicate Laid(s: State) {
    && (forall r :: r in s.records ==> RecordOk(s, r))
    && (forall r, q :: r in s.records && q in s.records ==> Apart(s, r, q))
  }

  ghost predicate Inv(s: State) { Counted(s) && Laid(s) }

  /** The record's header and data bytes. */
  ghost function View(s: State, r: Ref): seq<byte>
    requires r.Ref? && RecordOk(s, r)
  {
    var st := s.stores[r.store];
    st.mem[r.ptr - st.base..DataEnd(st, r.ptr) - st.base]
  }

  /** The handle still refers to the same record with the same bytes at the same place. */
  ghost predicate Untouched(s: State, s': State, r: Ref) {
    RecordOk(s, r) && RecordOk(s', r) && (r.Ref? ==> s'.stores[r.store].base == s.stores[r.store].base && View(s', r) == View(s, r))
  }

  predicate SameMemory(st: Store, st': Store) { st'.base == st.base && st'.mem == st.mem }

  /** Steps that move handles and not memory keep the layout. */
  lemma {:induction false} HandlesMoved(s: State, s': State)
    requires Laid(s)
    requires forall r :: r in s'.records && r.Ref? ==>
      && r in s.records && r.store in s'.stores && SameMemory(s.stores[r.store], s'.stores[r.store])
      && Limit(s, r.store) <= Limit(s', r.store) <= End(s'.stores[r.store])
    ensures Laid(s')
    ensures forall r :: r in s'.records ==> Untouched(s, s', r)
  {
    hide HeaderFields;
    forall r | r in s'.records && r.Ref? ensures RecordOk(s', r) && Untouched(s, s', r) {
      assert RecordOk(s, r);
    }
    forall r, q | r in s'.records && q in s'.records ensures Apart(s', r, q) {
      if r.Ref? && q.Ref? { assert Apart(s, r, q); }
    }
  }

  // ------------------------------------------------------------ placing a record

  function Overwrite(mem: seq<byte>, o: nat, b: seq<byte>): (r: seq<byte>)
    requires o + |b| <= |mem|
    ensures |r| == |mem|
    ensures forall j :: 0 <= j < |mem| ==> r[j] == if o <= j < o + |b| then b[j - o] else mem[j]
  {
    mem[..o] + b + mem[o + |b|..]
  }

  /** Write the header at the next aligned place, hand out the record, move the fill pointer. */
  function Place(s: State, i: nat, f: Fields): State
    requires i < |s.records| && Counted(s) && Fits(s, f) && s.buf.Some?
  {
    var id, ptr := s.buf.value, HeaderPtr(s.bufPtr);
    var st := s.stores[id];
    var written := s.(stores := s.stores[id := st.(mem := Overwrite(st.mem, ptr - st.base, HeaderBytes(f)))]);
    Take(written, i, Ref(id, ptr)).(bufPtr := DataPtr(ptr) + f.length)
  }

  /** A record whose own range is as before reads as before. */
  lemma {:induction false} RangeKept(st: Store, st': Store, ptr: nat)
    requires HasHeader(st, ptr) && DataEnd(st, ptr) <= End(st) && st'.base == st.base && |st'.mem| == |st.mem|
    requires var a, b := ptr - st.base, DataEnd(st, ptr) - st.base; st'.mem[a..b] == st.mem[a..b]
    ensures HasHeader(st', ptr) && GetFields(st', ptr) == GetFields(st, ptr) && DataEnd(st', ptr) == DataEnd(st, ptr)
  {
    hide HeaderFields;
    var a, b := ptr - st.base, DataEnd(st, ptr) - st.base;
    FrontOfSlice(st.mem, a, b, HEADER);
    FrontOfSlice(st'.mem, a, b, HEADER);
  }

  lemma {:induction false} FrontOfSlice(mem: seq<byte>, a: nat, b: nat, k: nat)
    requires a + k <= b <= |mem|
    ensures mem[a..b][..k] == mem[a..a + k]
  {
  }

  lemma {:induction false} OverwriteBeside(mem: seq<byte>, o: nat, b: seq<byte>, lo: nat, hi: nat)
    requires o + |b| <= |mem| && lo <= hi <= |mem| && (hi <= o || o + |b| <= lo)
    ensures Overwrite(mem, o, b)[lo..hi] == mem[lo..hi]
  {
  }

  /** A write beside a record's range does not change the record. */
  lemma {:induction false} BesideKept(st: Store, st': Store, o: nat, b: seq<byte>, ptr: nat)
    requires HasHeader(st, ptr) && DataEnd(st, ptr) <= End(st)
    requires o + |b| <= |st.mem| && st'.base == st.base && st'.mem == Overwrite(st.mem, o, b)
    requires DataEnd(st, ptr) <= st.base + o || st.base + o + |b| <= ptr
    ensures HasHeader(st', ptr) && GetFields(st', ptr) == GetFields(st, ptr) && DataEnd(st', ptr) == DataEnd(st, ptr)
    ensures var lo, hi := ptr - st.base, DataEnd(st, ptr) - st.base; st'.mem[lo..hi] == st.mem[lo..hi]
  {
    hide DataPtr, GetFields, Overwrite;
    OverwriteBeside(st.mem, o, b, ptr - st.base, DataEnd(st, ptr) - st.base);
    RangeKept(st, st', ptr);
  }

  lemma {:induction false} PlaceCounted(s: State, i: nat, f: Fields)
    requires Counted(s) && i < |s.records| && s.records[i] == Null && s.buf.Some? && Fits(s, f)
    ensures Counted(Place(s, i, f))
  {
    hide Count, HeaderBytes, Overwrite;
    var id, ptr := s.buf.value, HeaderPtr(s.bufPtr);
    var st := s.stores[id];
    var written := s.(stores := s.stores[id := st.(mem := Overwrite(st.mem, ptr - st.base, HeaderBytes(f)))]);
    TakeCounted(written, i, Ref(id, ptr));
  }

  /** The new record reads back as it was asked for, at the address that alloc returns. */
  lemma {:induction false} PlacedRecord(s: State, i: nat, f: Fields)
    requires Counted(s) && i < |s.records| && s.buf.Some? && Fits(s, f) && ValidFields(f)
    ensures var s', ptr := Place(s, i, f), HeaderPtr(s.bufPtr);
      && s'.records[i] == Ref(s.buf.value, ptr) && RecordOk(s', s'.records[i])
      && GetFields(s'.stores[s.buf.value], ptr) == Kept(f)
      && DataEnd(s'.stores[s.buf.value], ptr) == s'.bufPtr
  {
    hide HeaderFields, HeaderBytes;
    HeaderRoundTrip(f);
    var s', ptr := Place(s, i, f), HeaderPtr(s.bufPtr);
    var st := s'.stores[s.buf.value];
    assert st.mem[ptr - st.base..ptr - st.base + HEADER] == HeaderBytes(f);
  }

  /** What placing a record does to the buffers. */
  lemma {:induction false} PlaceStores(s: State, i: nat, f: Fields)
    requires Counted(s) && i < |s.records| && s.buf.Some? && Fits(s, f)
    ensures var s', id, o := Place(s, i, f), s.buf.value, HeaderPtr(s.bufPtr) - s.stores[s.buf.value].base;
      && o + HEADER <= |s.stores[id].mem| && s'.buf == s.buf
      && s'.stores == s.stores[id := Store(s.stores[id].base, Overwrite(s.stores[id].mem, o, HeaderBytes(f)), s.stores[id].refs + 1)]
      && HeaderPtr(s.bufPtr) <= s'.bufPtr <= s.bufEnd
  {
    hide Count, HeaderBytes, Overwrite;
  }

  lemma {:induction false} PlaceUntouched(s: State, i: nat, f: Fields, r: Ref)
    requires Inv(s) && i < |s.records| && s.buf.Some? && Fits(s, f) && r in s.records
    ensures Untouched(s, Place(s, i, f), r)
    ensures r.Ref? && r.store == s.buf.value ==>
      DataEnd(Place(s, i, f).stores[r.store], r.ptr) == DataEnd(s.stores[r.store], r.ptr) <= HeaderPtr(s.bufPtr)
  {
    hide HeaderBytes, Count, Overwrite, GetFields, HasHeader, Place;
    PlaceStores(s, i, f);
    var s' := Place(s, i, f);
    assert RecordOk(s, r);
    hide Laid;
    if r.Ref? && r.store == s.buf.value {
      var st := s.stores[r.store];
      BesideKept(st, s'.stores[r.store], HeaderPtr(s.bufPtr) - st.base, HeaderBytes(f), r.ptr);
    }
  }

  lemma {:induction false} PlaceKeeps(s: State, i: nat, f: Fields)
    requires Inv(s) && i < |s.records| && s.records[i] == Null && s.buf.Some? && Fits(s, f) && ValidFields(f)
    ensures Inv(Place(s, i, f))
    ensures forall r :: r in s.records ==> Untouched(s, Place(s, i, f), r)
  {
    var s', placed := Place(s, i, f), Ref(s.buf.value, HeaderPtr(s.bufPtr));
    PlaceCounted(s, i, f);
    PlacedRecord(s, i, f);
    forall r | r in s.records ensures Untouched(s, s', r) { PlaceUntouched(s, i, f, r); }
    forall r | r in s'.records ensures r == placed || r in s.records { }
    forall r, q | r in s'.records && q in s'.records ensures RecordOk(s', r) && RecordOk(s', q) && Apart(s', r, q) {
      PlacedApart(s, i, f, r, q);
    }
  }

  lemma {:induction false} PlacedApart(s: State, i: nat, f: Fields, r: Ref, q: Ref)
    requires Inv(s) && i < |s.records| && s.buf.Some? && Fits(s, f) && ValidFields(f)
    requires r == Ref(s.buf.value, HeaderPtr(s.bufPtr)) || r in s.records
    requires q == Ref(s.buf.value, HeaderPtr(s.bufPtr)) || q in s.records
    ensures RecordOk(Place(s, i, f), r) && RecordOk(Place(s, i, f), q) && Apart(Place(s, i, f), r, q)
  {
    hide HeaderFields, HeaderBytes, Count;
    PlacedRecord(s, i, f);
    if r in s.records { PlaceUntouched(s, i, f, r); }
    if q in s.records { PlaceUntouched(s, i, f, q); }
    if r in s.records && q in s.records { assert Apart(s, r, q); }
  }

  // ------------------------------------------------------------ the other steps keep the layout

  ghost predicate OthersKept(s: State, s': State, i: nat) {
    && |s'.records| == |s.records|
    && forall k :: 0 <= k < |s.records| && k != i ==> s'.records[k] == s.records[k] && Untouched(s, s', s.records[k])
  }

  lemma {:induction false} ReleaseKeeps(s: State, i: nat)
    requires Inv(s) && i < |s.records|
    ensures Inv(ReleaseRecord(s, i)) && OthersKept(s, ReleaseRecord(s, i), i) && ReleaseRecord(s, i).records[i] == Null
  {
    hide Count, HasHeader, DataEnd;
    ReleaseCounted(s, i);
    var s' := ReleaseRecord(s, i);
    forall r | r in s'.records && r.Ref? ensures r in s.records && RecordOk(s, r) { }
    HandlesMoved(s, s');
  }

  lemma {:induction false} AssignMoves(s: State, i: nat, j: nat)
    requires Counted(s) && i < |s.records| && j < |s.records|
    ensures var s' := AssignRecord(s, i, j);
      && s'.records == s.records[i := s.records[j]] && s'.buf == s.buf && s'.bufPtr == s.bufPtr
      && forall id :: id in s'.stores ==> id in s.stores && SameMemory(s.stores[id], s'.stores[id])
  {
    hide Count;
    if i != j {
      ReleaseCounted(s, i);
      ReleaseMoves(s, i);
      hide Counted, ReleaseRecord;
      var s1 := ReleaseRecord(s, i);
      var r := s1.records[j];
      assert r.Null? ==> s.records[i := r] == s1.records;
    }
  }

  lemma {:induction false} ReleaseMoves(s: State, i: nat)
    requires Counted(s) && i < |s.records|
    ensures var s' := ReleaseRecord(s, i);
      && s'.records == s.records[i := Null] && s'.buf == s.buf && s'.bufPtr == s.bufPtr
      && forall id :: id in s'.stores ==> id in s.stores && SameMemory(s.stores[id], s'.stores[id])
  {
    hide Count;
    assert s.records[i].Null? ==> s.records[i := Null] == s.records;
  }

  lemma {:induction false} AssignKeeps(s: State, i: nat, j: nat)
    requires Inv(s) && i < |s.records| && j < |s.records|
    ensures Inv(AssignRecord(s, i, j)) && OthersKept(s, AssignRecord(s, i, j), i)
    ensures AssignRecord(s, i, j).records[i] == s.records[j] && Untouched(s, AssignRecord(s, i, j), s.records[j])
  {
    hide Count, HasHeader, DataEnd, AssignRecord;
    AssignCounted(s, i, j);
    AssignMoves(s, i, j);
    var s' := AssignRecord(s, i, j);
    forall r | r in s'.records && r.Ref? ensures r in s.records && RecordOk(s, r) { }
    HandlesMoved(s, s');
    hide Untouched, Laid, RecordOk;
    assert s'.records[i] in s'.records;
  }

  /** A buffer with one reference, the allocator's, has no records: rewinding it loses none. */
  lemma {:induction false} RewindKeeps(s: State)
    requires Inv(s)
    ensures Inv(Rewind(s)) && Rewind(s).records == s.records
    ensures forall r :: r in s.records ==> Untouched(s, Rewind(s), r)
  {
    hide HasHeader, DataEnd;
    var s' := Rewind(s);
    forall r | r in s.records && r.Ref? ensures RecordOk(s, r) && (s' != s ==> s.buf != Some(r.store)) {
      var k :| 0 <= k < |s.records| && s.records[k] == r;
      CountPositive(s.records, k, r.store);
    }
    HandlesMoved(s, s');
  }

  lemma {:induction false} AllocBufKeeps(s: State, m: Malloc, minSize: nat)
    requires Inv(s) && GoodMalloc(m)
    ensures Inv(AllocBuf(s, m, minSize)) && AllocBuf(s, m, minSize).records == s.records
    ensures forall r :: r in s.records ==> Untouched(s, AllocBuf(s, m, minSize), r)
  {
    hide Count, HasHeader, DataEnd;
    var s' := AllocBuf(s, m, minSize);
    AllocBufCounted(s, m, minSize);
    forall r | r in s.records && r.Ref? ensures RecordOk(s, r) && r.store in s'.stores { }
    HandlesMoved(s, s');
  }

  // ------------------------------------------------------------ alloc

  /** How many new buffers alloc makes. A header four bytes past a multiple of eight needs four bytes
      less than one at the start of a buffer, so a buffer made to measure for it is too small. */
  function Rounds(s: State, f: Fields): nat {
    if Fits(s, f) then 0 else if HeaderPtr(s.bufPtr) % 8 == 0 || f.length + 16 <= s.allocSize then 1 else 2
  }

  lemma {:induction false} NewBufferRoom(s: State, m: Malloc, f: Fields)
    requires Counted(s) && GoodMalloc(m) && !Fits(s, f)
    ensures Rounds(AllocBuf(s, m, Need(s, f)), f) == Rounds(s, f) - 1
  {
    NewBufferAt(s, m, Need(s, f));
    hide Counted, AllocBuf, HeaderPtr, DataPtr;
    var s' := AllocBuf(s, m, Need(s, f));
    var h := HeaderPtr(s.bufPtr);
    assert Need(s, f) == f.length + if h % 8 == 0 then 16 else 12;
    assert HeaderPtr(s'.bufPtr) == s'.bufPtr && Need(s', f) == f.length + 16;
  }

  lemma {:induction false} NewBufferAt(s: State, m: Malloc, minSize: nat)
    requires Counted(s) && GoodMalloc(m)
    ensures var s' := AllocBuf(s, m, minSize);
      && s'.bufPtr % 8 == 0 && s'.allocSize == s.allocSize
      && s'.bufEnd == s'.bufPtr + if minSize < s.allocSize then s.allocSize else minSize
  {
    hide Counted;
  }

  function AllocLoop(s: State, m: Malloc, i: nat, f: Fields): State
    requires Counted(s) && GoodMalloc(m) && i < |s.records|
    decreases Rounds(s, f)
  {
    if Fits(s, f) then Place(s, i, f)
    else
      NewBufferRoom(s, m, f);
      AllocBufCounted(s, m, Need(s, f));
      AllocLoop(AllocBuf(s, m, Need(s, f)), m, i, f)
  }

  lemma {:induction false} RewindCounted(s: State)
    requires Counted(s)
    ensures Counted(Rewind(s))
  {
  }

  /** The allocator's state when the search for room begins. */
  function Prepared(s: State, i: nat): (r: State)
    requires Counted(s) && i < |s.records|
    ensures Counted(r) && |r.records| == |s.records|
  {
    ReleaseCounted(s, i);
    RewindCounted(ReleaseRecord(s, i));
    Rewind(ReleaseRecord(s, i))
  }

  function AllocRecord(s: State, m: Malloc, i: nat, f: Fields): State
    requires Counted(s) && GoodMalloc(m) && i < |s.records|
  {
    AllocLoop(Prepared(s, i), m, i, f)
  }

  /** The handle is the new record: the fields asked for, data at an aligned address, the fill pointer
      at its end. */
  ghost predicate Allocated(s: State, i: nat, f: Fields) {
    && i < |s.records| && s.records[i].Ref? && RecordOk(s, s.records[i])
    && s.buf == Some(s.records[i].store)
    && var st, ptr := s.stores[s.records[i].store], s.records[i].ptr;
       GetFields(st, ptr) == Kept(f) && DataPtr(ptr) % 8 == 0 && DataEnd(st, ptr) == s.bufPtr
  }

  lemma {:induction false} UntouchedTwice(s: State, s1: State, s2: State, r: Ref)
    requires Untouched(s, s1, r) && Untouched(s1, s2, r)
    ensures Untouched(s, s2, r)
  {
  }

  lemma {:induction false} PlaceAllocated(s: State, m: Malloc, i: nat, f: Fields)
    requires Inv(s) && i < |s.records| && s.records[i] == Null && Fits(s, f) && ValidFields(f)
    ensures Inv(Place(s, i, f)) && OthersKept(s, Place(s, i, f), i) && Allocated(Place(s, i, f), i, f)
  {
    hide HasHeader, GetFields, DataEnd, Untouched, Laid, RecordOk;
    PlacedRecord(s, i, f);
    PlaceKeeps(s, i, f);
  }

  lemma {:induction false} LoopStep(s: State, m: Malloc, i: nat, f: Fields)
    requires Inv(s) && GoodMalloc(m) && i < |s.records| && !Fits(s, f)
    ensures var s1 := AllocBuf(s, m, Need(s, f));
      && Inv(s1) && s1.records == s.records && (forall r :: r in s.records ==> Untouched(s, s1, r))
      && s1.made == s.made + 1 && Rounds(s1, f) == Rounds(s, f) - 1
      && AllocLoop(s, m, i, f) == AllocLoop(s1, m, i, f)
  {
    hide Place, Untouched, Need, Fits, Laid, Rounds;
    NewBufferRoom(s, m, f);
    AllocBufKeeps(s, m, Need(s, f));
  }

  lemma {:induction false} LoopKeeps(s: State, m: Malloc, i: nat, f: Fields)
    requires Inv(s) && GoodMalloc(m) && i < |s.records| && s.records[i] == Null && ValidFields(f)
    ensures var s' := AllocLoop(s, m, i, f);
      Inv(s') && OthersKept(s, s', i) && Allocated(s', i, f) && s'.made == s.made + Rounds(s, f)
    decreases Rounds(s, f)
  {
    hide Place, Counted, Laid, Untouched, Allocated, Need, Fits, AllocBuf;
    if Fits(s, f) {
      PlaceAllocated(s, m, i, f);
      PlaceMakesNone(s, i, f);
    } else {
      LoopStep(s, m, i, f);
      var s1 := AllocBuf(s, m, Need(s, f));
      LoopKeeps(s1, m, i, f);
      var s' := AllocLoop(s1, m, i, f);
      forall k | 0 <= k < |s.records| && k != i ensures Untouched(s, s', s.records[k]) {
        UntouchedTwice(s, s1, s', s.records[k]);
      }
    }
  }

  lemma {:induction false} PlaceMakesNone(s: State, i: nat, f: Fields)
    requires Counted(s) && i < |s.records| && Fits(s, f)
    ensures Place(s, i, f).made == s.made
  {
  }

  /** alloc keeps every live record as it is, hands out the record asked for, and makes no new buffer
      when the current one has room, else one, else two in exactly the case that Rounds names. */
  lemma {:induction false} AllocKeeps(s: State, m: Malloc, i: nat, f: Fields)
    requires Inv(s) && GoodMalloc(m) && i < |s.records| && ValidFields(f)
    ensures var s' := AllocRecord(s, m, i, f);
      && Inv(s') && OthersKept(s, s', i) && Allocated(s', i, f)
      && s'.made == s.made + Rounds(Prepared(s, i), f) <= s.made + 2
  {
    hide AllocLoop, Counted, Laid, Untouched, Allocated, Fits, ReleaseRecord;
    ReleaseKeeps(s, i);
    var s0, s1 := ReleaseRecord(s, i), Prepared(s, i);
    RewindKeeps(s0);
    LoopKeeps(s1, m, i, f);
    PreparedMakesNone(s, i);
    var s' := AllocRecord(s, m, i, f);
    forall k | 0 <= k < |s.records| && k != i ensures Untouched(s, s', s.records[k]) {
      UntouchedTwice(s, s0, s1, s.records[k]);
      UntouchedTwice(s, s1, s', s.records[k]);
    }
  }

  lemma {:induction false} PreparedMakesNone(s: State, i: nat)
    requires Counted(s) && i < |s.records|
    ensures Prepared(s, i).made == s.made
  {
  }

  // ------------------------------------------------------------ where alloc puts the record

  /** The buffer being filled holds no record but the one given up. */
  ghost predicate Alone(s: State, i: nat) {
    s.buf.Some? && forall k :: 0 <= k < |s.records| && k != i ==> !Refers(s.records[k], s.buf.value)
  }

  /** Where the next header goes once record `i` is given up: at the start of the buffer if no other record
      is in it, else behind the last one. */
  ghost function NextFree(s: State, i: nat): (p: nat)
    requires s.buf.Some? ==> s.buf.value in s.stores
  {
    if Alone(s, i) then s.stores[s.buf.value].base else HeaderPtr(s.bufPtr)
  }

  /** Whether the record has room there. */
  ghost predicate HasRoom(s: State, i: nat, f: Fields)
    requires s.buf.Some? ==> s.buf.value in s.stores
  {
    s.buf.Some? && DataPtr(NextFree(s, i)) + f.length <= s.stores[s.buf.value].base + |s.stores[s.buf.value].mem|
  }

  lemma {:induction false} CountNone(rs: seq<Ref>, id: nat)
    requires forall k :: 0 <= k < |rs| ==> !Refers(rs[k], id)
    ensures Count(rs, id) == 0
  {
    if rs != [] { CountNone(rs[..|rs| - 1], id); }
  }

  lemma {:induction false} BufferRefs(s: State)
    requires Counted(s) && s.buf.Some?
    ensures s.buf.value in s.stores && s.stores[s.buf.value].refs == Count(s.records, s.buf.value) + 1
    ensures s.stores[s.buf.value].base % 8 == 0
  {
    hide Count;
  }

  /** Once record `i` is released the allocator's reference is the only one exactly if no other record is in the buffer. */
  lemma {:induction false} AloneMeans(s: State, i: nat)
    requires Counted(s) && i < |s.records| && s.buf.Some?
    ensures var s0 := ReleaseRecord(s, i);
      && s0.buf == s.buf && s.buf.value in s0.stores && s.buf.value in s.stores
      && SameMemory(s.stores[s.buf.value], s0.stores[s.buf.value]) && s.stores[s.buf.value].base % 8 == 0
      && (s0.stores[s.buf.value].refs == 1 <==> Alone(s, i))
  {
    hide Count, Counted, ReleaseRecord;
    ReleaseCounted(s, i);
    ReleaseMoves(s, i);
    var s0, id := ReleaseRecord(s, i), s.buf.value;
    BufferRefs(s);
    BufferRefs(s0);
    assert s0.records == s.records[i := Null];
    if Alone(s, i) {
      CountNone(s0.records, id);
    } else {
      var k :| 0 <= k < |s.records| && k != i && Refers(s.records[k], id);
      CountPositive(s0.records, k, id);
    }
  }

  lemma {:induction false} PreparedAt(s: State, i: nat)
    requires Counted(s) && i < |s.records|
    ensures var s1 := Prepared(s, i);
      && s1.buf == s.buf && s1.bufEnd == s.bufEnd && s1.records == s.records[i := Null] && s1.made == s.made
      && (s.buf.Some? ==> HeaderPtr(s1.bufPtr) == NextFree(s, i) && s.buf.value in s1.stores
                          && SameMemory(s.stores[s.buf.value], s1.stores[s.buf.value]))
  {
    hide Count, Counted, ReleaseRecord, Alone, HeaderPtr;
    ReleaseCounted(s, i);
    ReleaseMoves(s, i);
    ReleaseFrame(s, i);
    if s.buf.Some? { AloneMeans(s, i); }
  }

  lemma {:induction false} ReleaseFrame(s: State, i: nat)
    requires Counted(s) && i < |s.records|
    ensures var s0 := ReleaseRecord(s, i); s0.bufEnd == s.bufEnd && s0.made == s.made
  {
    hide Count;
  }

  /** alloc reuses the memory of released records: a record that has room in the current buffer is put into it,
      from its start if no other record is left there, and one that has none goes to the start of a new one. */
  lemma {:induction false} AllocPlaces(s: State, m: Malloc, i: nat, f: Fields)
    requires Counted(s) && GoodMalloc(m) && i < |s.records|
    ensures var s' := AllocRecord(s, m, i, f);
      && i < |s'.records| && s'.records[i].Ref?
      && (HasRoom(s, i, f) ==> s'.made == s.made && s'.buf == s.buf && s'.records[i] == Ref(s.buf.value, NextFree(s, i)))
      && (!HasRoom(s, i, f) ==> s'.made > s.made && FreshlyPlaced(s', i))
  {
    PreparedAt(s, i);
    var s1 := Prepared(s, i);
    RoomFits(s, s1, i, f);
    if HasRoom(s, i, f) {
      PlacedHandle(s1, i, f);
      PlaceMakesNone(s1, i, f);
      PlaceStores(s1, i, f);
      hide Prepared, Counted, HasRoom, NextFree, Fits, Place;
      assert AllocLoop(s1, m, i, f) == Place(s1, i, f);
    } else {
      hide Prepared, Counted, HasRoom, NextFree, Fits, AllocLoop;
      NewPlace(s1, m, i, f);
    }
  }

  lemma {:induction false} RoomFits(s: State, s1: State, i: nat, f: Fields)
    requires Counted(s) && Counted(s1) && s1.buf == s.buf && s1.bufEnd == s.bufEnd
    requires s.buf.Some? ==> HeaderPtr(s1.bufPtr) == NextFree(s, i)
    ensures Fits(s1, f) <==> HasRoom(s, i, f)
  {
    hide Count, NextFree, HeaderPtr, DataPtr;
    if s.buf.None? { DataAhead(HeaderPtr(s1.bufPtr)); }
  }

  lemma {:induction false} DataAhead(ptr: nat)
    ensures DataPtr(ptr) > ptr
  {
  }

  /** Of an empty buffer all is room. */
  lemma {:induction false} AloneHasRoom(s: State, i: nat, f: Fields)
    requires Counted(s) && Alone(s, i)
    ensures s.buf.value in s.stores && NextFree(s, i) == s.stores[s.buf.value].base
    ensures DataPtr(NextFree(s, i)) == s.stores[s.buf.value].base + 16
    ensures HasRoom(s, i, f) <==> 16 + f.length <= |s.stores[s.buf.value].mem|
  {
    hide Counted, DataPtr, Alone, HeaderPtr;
    BufferFacts(s);
    AloneIsFilling(s, i);
    DataAtBase(s.stores[s.buf.value].base);
  }

  lemma {:induction false} AloneIsFilling(s: State, i: nat)
    requires Alone(s, i)
    ensures s.buf.Some?
  {
  }

  lemma {:induction false} DataAtBase(base: nat)
    requires base % 8 == 0
    ensures DataPtr(base) == base + 16
  {
    hide DataPtr;
    FourDivides(base, base / 8);
  }

  lemma {:induction false} FourDivides(base: nat, k: nat)
    requires base == 8 * k
    ensures base % 4 == 0
  {
  }

  /** The record is at the start of the current buffer. */
  ghost predicate FreshlyPlaced(s: State, i: nat) {
    && i < |s.records| && s.records[i].Ref? && s.buf == Some(s.records[i].store)
    && s.records[i].store in s.stores && s.records[i].ptr == s.stores[s.records[i].store].base
    && |s.stores[s.records[i].store].mem| >= s.allocSize
  }

  lemma {:induction false} NewPlace(s: State, m: Malloc, i: nat, f: Fields)
    requires Counted(s) && GoodMalloc(m) && i < |s.records| && !Fits(s, f)
    ensures var s' := AllocLoop(s, m, i, f); s'.made > s.made && FreshlyPlaced(s', i)
    decreases Rounds(s, f)
  {
    hide Counted, AllocBuf, Fits, Rounds, Place, FreshlyPlaced, AllocLoop, AtStart, HeaderPtr, DataPtr, GoodMalloc;
    LoopTurn(s, m, i, f);
    NewBufferIs(s, m, Need(s, f));
    var s1 := AllocBuf(s, m, Need(s, f));
    LoopTurn(s1, m, i, f);
    if Fits(s1, f) {
      PlacedFresh(s1, i, f);
    } else {
      NewPlace(s1, m, i, f);
    }
  }

  /** The current buffer is as large as the allocator makes them, and nothing is in it yet. */
  ghost predicate AtStart(s: State) {
    && s.buf.Some? && s.buf.value in s.stores && s.bufPtr == s.stores[s.buf.value].base
    && |s.stores[s.buf.value].mem| >= s.allocSize
  }

  lemma {:induction false} NewBufferIs(s: State, m: Malloc, minSize: nat)
    requires Counted(s) && GoodMalloc(m)
    ensures AtStart(AllocBuf(s, m, minSize)) && AllocBuf(s, m, minSize).made == s.made + 1
  {
    hide Counted;
  }

  lemma {:induction false} PlacedFresh(s: State, i: nat, f: Fields)
    requires Counted(s) && i < |s.records| && Fits(s, f) && AtStart(s)
    ensures FreshlyPlaced(Place(s, i, f), i) && Place(s, i, f).made == s.made
  {
    hide Count, HeaderBytes, DataPtr, Overwrite;
    assert s.bufPtr % 8 == 0;
    assert HeaderPtr(s.bufPtr) == s.bufPtr;
  }

  // ------------------------------------------------------------ filling in the data

  ghost predicate CanFill(s: State, i: nat, data: seq<byte>) {
    && i < |s.records| && s.records[i].Ref?
    && (RecordOk(s, s.records[i]) ==> |data| == GetFields(s.stores[s.records[i].store], s.records[i].ptr).length)
  }

  /** The holder of a record writes its data section. */
  function Fill(s: State, i: nat, data: seq<byte>): State
    requires Inv(s) && CanFill(s, i, data)
  {
    var r := s.records[i];
    assert RecordOk(s, r);
    var st := s.stores[r.store];
    s.(stores := s.stores[r.store := st.(mem := Overwrite(st.mem, DataPtr(r.ptr) - st.base, data))])
  }

  ghost function DataOf(s: State, r: Ref): seq<byte>
    requires r.Ref? && RecordOk(s, r)
  {
    var st := s.stores[r.store];
    st.mem[DataPtr(r.ptr) - st.base..DataEnd(st, r.ptr) - st.base]
  }

  lemma {:induction false} FillOwn(s: State, i: nat, data: seq<byte>)
    requires Inv(s) && CanFill(s, i, data)
    ensures var s', r := Fill(s, i, data), s.records[i];
      && RecordOk(s, r) && RecordOk(s', r) && DataOf(s', r) == data
      && GetFields(s'.stores[r.store], r.ptr) == GetFields(s.stores[r.store], r.ptr)
      && DataEnd(s'.stores[r.store], r.ptr) == DataEnd(s.stores[r.store], r.ptr)
  {
    hide HeaderFields, Count;
    var s', r := Fill(s, i, data), s.records[i];
    assert RecordOk(s, r);
    var st, a := s.stores[r.store], r.ptr - s.stores[r.store].base;
    OverwriteBeside(st.mem, DataPtr(r.ptr) - st.base, data, a, a + HEADER);
  }

  lemma {:induction false} FillStores(s: State, i: nat, data: seq<byte>)
    requires Inv(s) && CanFill(s, i, data)
    ensures RecordOk(s, s.records[i])
    ensures var q := s.records[i];
      var st := s.stores[q.store];
      && DataPtr(q.ptr) - st.base + |data| <= |st.mem|
      && Fill(s, i, data) == s.(stores := s.stores[q.store := st.(mem := Overwrite(st.mem, DataPtr(q.ptr) - st.base, data))])
  {
    hide Counted, Overwrite;
    assert RecordOk(s, s.records[i]);
  }

  lemma {:induction false} FillOther(s: State, i: nat, data: seq<byte>, r: Ref)
    requires Inv(s) && CanFill(s, i, data) && r in s.records && r != s.records[i]
    ensures Untouched(s, Fill(s, i, data), r)
    ensures r.Ref? ==> DataEnd(Fill(s, i, data).stores[r.store], r.ptr) == DataEnd(s.stores[r.store], r.ptr)
  {
    hide Counted, Overwrite, GetFields;
    var s', q := Fill(s, i, data), s.records[i];
    assert RecordOk(s, r) && RecordOk(s, q) && Apart(s, q, r);
    FillStores(s, i, data);
    hide Laid, Apart, Fill, HasHeader;
    assert DataEnd(s.stores[q.store], q.ptr) == DataPtr(q.ptr) + |data|;
    hide DataEnd, DataPtr;
    if r.Ref? && r.store == q.store {
      var st := s.stores[r.store];
      BesideKept(st, s'.stores[r.store], DataPtr(q.ptr) - st.base, data, r.ptr);
    }
  }

  lemma {:induction false} FillKeeps(s: State, i: nat, data: seq<byte>)
    requires Inv(s) && CanFill(s, i, data)
    ensures Inv(Fill(s, i, data))
    ensures RecordOk(Fill(s, i, data), s.records[i]) && DataOf(Fill(s, i, data), s.records[i]) == data
    ensures forall r :: r in s.records && r != s.records[i] ==> Untouched(s, Fill(s, i, data), r)
  {
    hide Count, HasHeader, GetFields;
    var s' := Fill(s, i, data);
    FillOwn(s, i, data);
    forall r | r in s.records && r != s.records[i] ensures Untouched(s, s', r) { FillOther(s, i, data, r); }
    forall r, q | r in s.records && q in s.records ensures RecordOk(s', r) && RecordOk(s', q) && Apart(s', r, q) {
      if r != s.records[i] { FillOther(s, i, data, r); }
      if q != s.records[i] { FillOther(s, i, data, q); }
      assert Apart(s, r, q);
    }
  }

  // ------------------------------------------------------------ runs

  datatype Action =
    | Declare
    | AssignTo(i: nat, j: nat)
    | ReleaseOne(i: nat)
    | AllocFor(i: nat, f: Fields)
    | FillIn(i: nat, data: seq<byte>)

  ghost predicate Enabled(s: State, a: Action) {
    match a
    case Declare => true
    case AssignTo(i, j) => i < |s.records| && j < |s.records|
    case ReleaseOne(i) => i < |s.records|
    case AllocFor(i, f) => i < |s.records| && ValidFields(f)
    case FillIn(i, data) => CanFill(s, i, data)
  }

  ghost function Step(s: State, m: Malloc, a: Action): State
    requires Inv(s) && GoodMalloc(m) && Enabled(s, a)
  {
    match a
    case Declare => s.(records := s.records + [Null])
    case AssignTo(i, j) => AssignRecord(s, i, j)
    case ReleaseOne(i) => ReleaseRecord(s, i)
    case AllocFor(i, f) => AllocRecord(s, m, i, f)
    case FillIn(i, data) => Fill(s, i, data)
  }

  /** From a state outside the invariant anything may follow: the code's behaviour there is undefined. */
  ghost predicate Next(s: State, m: Malloc, a: Action, s': State) {
    GoodMalloc(m) && Enabled(s, a) && (Inv(s) ==> s' == Step(s, m, a))
  }

  ghost predicate Init(s: State) {
    s.stores == map[] && s.records == [] && s.buf == None && s.bufPtr == 0 && s.bufEnd == 0
  }

  ghost predicate Execution(m: Malloc, states: seq<State>, acts: seq<Action>) {
    && |states| == |acts| + 1 && Init(states[0])
    && forall k :: 0 <= k < |acts| ==> Next(states[k], m, acts[k], states[k + 1])
  }

  /** The action neither changes this variable nor writes the record it refers to. */
  ghost predicate Spares(s: State, a: Action, v: nat) {
    && v < |s.records|
    && match a
       case Declare => true
       case AssignTo(i, _) => i != v
       case ReleaseOne(i) => i != v
       case AllocFor(i, _) => i != v
       case FillIn(i, _) => i < |s.records| && s.records[i] != s.records[v]
  }

  lemma {:induction false} DeclareKeeps(s: State)
    requires Inv(s)
    ensures Inv(s.(records := s.records + [Null]))
    ensures forall r :: r in s.records ==> Untouched(s, s.(records := s.records + [Null]), r)
  {
    hide HasHeader, DataEnd;
    var s' := s.(records := s.records + [Null]);
    assert s'.records[..|s.records|] == s.records;
    forall r | r in s'.records && r.Ref? ensures r in s.records && RecordOk(s, r) { }
    HandlesMoved(s, s');
  }

  lemma {:induction false} StepKeeps(s: State, m: Malloc, a: Action)
    requires Inv(s) && GoodMalloc(m) && Enabled(s, a)
    ensures Inv(Step(s, m, a))
    ensures forall v: nat :: Spares(s, a, v) ==>
      v < |Step(s, m, a).records| && Step(s, m, a).records[v] == s.records[v] && Untouched(s, Step(s, m, a), s.records[v])
  {
    hide Inv, Untouched, AllocRecord, AssignRecord, ReleaseRecord, CanFill;
    match a {
      case Declare => DeclareKeeps(s);
      case AssignTo(i, j) => AssignKeeps(s, i, j);
      case ReleaseOne(i) => ReleaseKeeps(s, i);
      case AllocFor(i, f) => AllocKeeps(s, m, i, f);
      case FillIn(i, data) => FillKeeps(s, i, data);
    }
  }

  lemma {:induction false} RunKeeps(m: Malloc, states: seq<State>, acts: seq<Action>, k: nat)
    requires Execution(m, states, acts) && k < |states|
    ensures Inv(states[k])
  {
    hide Step, Enabled;
    if k > 0 {
      RunKeeps(m, states, acts, k - 1);
      assert Next(states[k - 1], m, acts[k - 1], states[k - 1 + 1]);
      StepKeeps(states[k - 1], m, acts[k - 1]);
    }
  }

  /** Through any part of any run that spares a variable, it refers to the same bytes at the same place. */
  lemma {:induction false} LiveRecordKept(m: Malloc, states: seq<State>, acts: seq<Action>, from: nat, upto: nat, v: nat)
    requires Execution(m, states, acts) && from <= upto < |states| && v < |states[from].records|
    requires forall k :: from <= k < upto ==> Spares(states[k], acts[k], v)
    ensures v < |states[upto].records| && states[upto].records[v] == states[from].records[v]
    ensures Untouched(states[from], states[upto], states[from].records[v])
    decreases upto
  {
    hide Step, Enabled, Spares, Counted, HasHeader;
    RunKeeps(m, states, acts, from);
    if from < upto {
      LiveRecordKept(m, states, acts, from, upto - 1, v);
      RunKeeps(m, states, acts, upto - 1);
      assert Next(states[upto - 1], m, acts[upto - 1], states[upto - 1 + 1]);
      StepKeeps(states[upto - 1], m, acts[upto - 1]);
      UntouchedTwice(states[from], states[upto - 1], states[upto], states[from].records[v]);
    }
  }

  // ------------------------------------------------------------ the code

  /** The allocator, together with the buffers and the Record variables of the program that uses it. */
  class RecordBufferAllocator {
    const malloc: Malloc
    const allocSize: nat
    var buf: Option<nat>
    var bufPtr: nat
    var bufEnd: nat
    var releasedSize: nat
    var stores: map<nat, Store>
    var made: nat
    var records: seq<Ref>

    ghost function Now(): State
      reads this
    {
      State(stores, made, records, buf, bufPtr, bufEnd, allocSize, releasedSize)
    }

    ghost predicate Valid()
      reads this
    {
      GoodMalloc(malloc) && Inv(Now())
    }

    constructor (allocSize: nat, malloc: Malloc)
      requires GoodMalloc(malloc)
      ensures Valid() && Init(Now()) && this.allocSize == allocSize && this.malloc == malloc
    {
      this.allocSize, this.malloc := allocSize, malloc;
      buf, bufPtr, bufEnd, releasedSize := None, 0, 0, 0;
      stores, made, records := map[], 0, [];
    }

    /** RecordStore::release */
    method Drop(id: nat)
      requires id in stores && stores[id].refs > 0
      modifies this
      ensures Now() == DropStore(old(Now()), id)
    {
      var left := stores[id].refs - 1;
      if left == 0 {
        stores := stores - {id};
      } else {
        stores := stores[id := stores[id].(refs := left)];
      }
    }

    method Release(i: nat)
      requires Valid() && i < |records|
      modifies this
      ensures Valid() && Now() == ReleaseRecord(old(Now()), i)
      ensures OthersKept(old(Now()), Now(), i) && records[i] == Null
    {
      hide Untouched, Laid, Count;
      ReleaseKeeps(Now(), i);
      var r := records[i];
      if r.Ref? {
        CountPositive(records, i, r.store);
        Drop(r.store);
        records := records[i := Null];
      }
    }

    method Assign(i: nat, j: nat)
      requires Valid() && i < |records| && j < |records|
      modifies this
      ensures Valid() && Now() == AssignRecord(old(Now()), i, j)
      ensures OthersKept(old(Now()), Now(), i) && records[i] == old(records[j]) && Untouched(old(Now()), Now(), records[i])
    {
      hide Untouched, Laid, Count, ReleaseRecord, Take;
      AssignKeeps(Now(), i, j);
      if i != j {
        Release(i);
        if records[j].Ref? { RefTo(i, records[j]); }
      }
    }

    /** RecordStore::ref, and the handle that holds the reference. */
    method RefTo(i: nat, r: Ref)
      requires i < |records| && r.Ref? && r.store in stores
      modifies this
      ensures Now() == Take(old(Now()), i, r)
    {
      stores := stores[r.store := stores[r.store].(refs := stores[r.store].refs + 1)];
      records := records[i := r];
    }

    method Leave()
      requires Counted(Now())
      modifies this
      ensures Now() == LeaveBuffer(old(Now())) && records == old(records) && made == old(made)
      ensures releasedSize == old(releasedSize) + old(if buf.Some? && buf.value in stores then bufEnd - stores[buf.value].base else 0)
    {
      BufferFacts(Now());
      hide Counted, DropStore;
      if buf.Some? {
        DropReleased(Now(), buf.value, releasedSize + bufEnd - stores[buf.value].base);
        releasedSize := releasedSize + bufEnd - stores[buf.value].base;
        Drop(buf.value);
      }
    }

    /** allocBuf */
    method NewBuffer(minSize: nat)
      requires GoodMalloc(malloc) && Counted(Now())
      modifies this
      ensures Now() == AllocBuf(old(Now()), malloc, minSize)
      ensures buf == Some(old(made)) && made == old(made) + 1 && records == old(records)
      ensures bufEnd - bufPtr == if minSize < allocSize then allocSize else minSize
      ensures releasedSize == old(releasedSize) + old(if buf.Some? && buf.value in stores then bufEnd - stores[buf.value].base else 0)
    {
      BufferFacts(Now());
      hide Counted, LeaveBuffer;
      var size := if minSize < allocSize then allocSize else minSize;
      Leave();
      var block := malloc(made, size);
      stores := stores[made := Store(block.base, block.mem, 1)];
      buf, bufPtr, bufEnd, made := Some(made), block.base, block.base + size, made + 1;
    }

    /** The fit test and, if there is room, the placing of the record. */
    method TryPlace(i: nat, f: Fields) returns (done: bool, dataPtr: nat)
      requires i < |records| && Counted(Now())
      modifies this
      ensures done <==> old(Fits(Now(), f))
      ensures dataPtr == DataPtr(HeaderPtr(old(bufPtr)))
      ensures done ==> old(buf).Some? && Now() == Place(old(Now()), i, f)
      ensures !done ==> Now() == old(Now())
    {
      hide Count, HeaderBytes;
      var hdrPtr := HeaderPtr(bufPtr);
      dataPtr := DataPtr(hdrPtr);
      var dataEnd := dataPtr + f.length;
      done := dataEnd <= bufEnd;
      if done {
        var st := stores[buf.value];
        var mem := Overwrite(st.mem, hdrPtr - st.base, HeaderBytes(f));
        stores := stores[buf.value := Store(st.base, mem, st.refs + 1)];
        records := records[i := Ref(buf.value, hdrPtr)];
        bufPtr := dataEnd;
      }
    }

    /** Give up the old record and reuse the buffer if no one else has a reference to it. */
    method Prepare(i: nat)
      requires Valid() && i < |records|
      modifies this
      ensures old(Counted(Now())) && Now() == Prepared(old(Now()), i)
    {
      hide Count, OthersKept, ReleaseRecord;
      Release(i);
      if buf.Some? && stores[buf.value].refs == 1 { bufPtr := stores[buf.value].base; }
    }

    method Alloc(i: nat, f: Fields) returns (dataPtr: nat)
      requires Valid() && i < |records| && ValidFields(f)
      modifies this
      ensures Valid() && Now() == AllocRecord(old(Now()), malloc, i, f)
      ensures OthersKept(old(Now()), Now(), i) && Allocated(Now(), i, f)
      ensures dataPtr == DataPtr(records[i].ptr)
      ensures made <= old(made) + 2
      ensures old(Alone(Now(), i) && 16 + f.length <= |stores[buf.value].mem|) ==>
        made == old(made) && buf == old(buf) && dataPtr == old(stores[buf.value].base) + 16
      ensures old(HasRoom(Now(), i, f)) ==> made == old(made) && buf == old(buf) && records[i].ptr == old(NextFree(Now(), i))
      ensures !old(HasRoom(Now(), i, f)) ==> made > old(made) && FreshlyPlaced(Now(), i)
    {
      hide Inv, Counted, OthersKept, Rounds, Allocated, Need, Fits, AllocBuf, AllocLoop, Place, Prepared, HasRoom,
           NextFree, FreshlyPlaced, Alone;
      InvCounted(Now());
      AllocKeeps(Now(), malloc, i, f);
      AllocPlaces(Now(), malloc, i, f);
      if Alone(Now(), i) { AloneHasRoom(Now(), i, f); }
      ghost var result := AllocRecord(Now(), malloc, i, f);
      Prepare(i);
      var done := false;
      dataPtr := 0;
      while !done
        invariant !done ==> Counted(Now()) && i < |records| && AllocLoop(Now(), malloc, i, f) == result
        invariant done ==> Now() == result && i < |records| && records[i].Ref? && dataPtr == DataPtr(records[i].ptr)
        decreases if done then 0 else 1 + Rounds(Now(), f)
      {
        LoopTurn(Now(), malloc, i, f);
        if Fits(Now(), f) { PlacedHandle(Now(), i, f); }
        var hdrPtr := HeaderPtr(bufPtr);
        done, dataPtr := TryPlace(i, f);
        if !done { NewBuffer(dataPtr + f.length - hdrPtr); }
      }
    }
  }

  lemma {:induction false} InvCounted(s: State)
    requires Inv(s)
    ensures Counted(s)
  {
  }

  lemma {:induction false} LoopTurn(s: State, m: Malloc, i: nat, f: Fields)
    requires Counted(s) && GoodMalloc(m) && i < |s.records|
    ensures Fits(s, f) ==> s.buf.Some? && AllocLoop(s, m, i, f) == Place(s, i, f)
    ensures !Fits(s, f) ==>
      var size := DataPtr(HeaderPtr(s.bufPtr)) + f.length - HeaderPtr(s.bufPtr);
      var s' := AllocBuf(s, m, size);
      && Counted(s') && s'.records == s.records && Rounds(s', f) < Rounds(s, f)
      && AllocLoop(s', m, i, f) == AllocLoop(s, m, i, f)
  {
    hide Count, HeaderBytes, Rounds, Place, AllocBuf, GoodMalloc, HeaderPtr, DataPtr;
    if !Fits(s, f) {
      AllocBufCounted(s, m, Need(s, f));
      NewBufferRoom(s, m, f);
      hide Counted;
    } else {
      NoneFits(s, f);
    }
  }

  lemma {:induction false} NoneFits(s: State, f: Fields)
    requires Counted(s) && Fits(s, f)
    ensures s.buf.Some?
  {
    hide Count;
  }

  lemma {:induction false} PlacedHandle(s: State, i: nat, f: Fields)
    requires i < |s.records| && Counted(s) && Fits(s, f) && s.buf.Some?
    ensures |Place(s, i, f).records| == |s.records| && Place(s, i, f).records[i] == Ref(s.buf.value, HeaderPtr(s.bufPtr))
  {
    hide Count;
  }
}
