/** InputStreamSerializer: a stream of records handed out as bytes in pieces of any size. */
module RecordSerializer {
  import opened Bytes
  import opened RecordFile

  /** The bytes of a list of records: each header followed by its data. */
  function Flatten(header: Record -> seq<byte>, recs: seq<Record>): seq<byte> {
    if recs == [] then [] else header(recs[0]) + recs[0].data + Flatten(header, recs[1..])
  }

  method CopyInto(dst: array<byte>, at: nat, bytes: seq<byte>)
    requires at + |bytes| <= dst.Length
    modifies dst
    ensures dst[..at + |bytes|] == old(dst[..at]) + bytes
    ensures forall i :: at + |bytes| <= i < dst.Length ==> dst[i] == old(dst[i])
  {
    forall i | 0 <= i < |bytes| { dst[at + i] := bytes[i]; }
    assert dst[..at] == old(dst[..at]);
    assert dst[at..at + |bytes|] == bytes;
    assert dst[..at + |bytes|] == dst[..at] + dst[at..at + |bytes|];
  }

  /** The last `hl` bytes of a header, the last `dl` bytes of its data, and what comes after. */
  function Remaining(h: seq<byte>, hl: nat, d: seq<byte>, dl: nat, tail: seq<byte>): (r: seq<byte>)
    requires hl <= |h| && dl <= |d|
  {
    h[|h| - hl..] + (d[|d| - dl..] + tail)
  }

  lemma {:induction false} TakeHeader(out: seq<byte>, h: seq<byte>, hl: nat, d: seq<byte>, dl: nat, tail: seq<byte>, n: nat)
    requires n <= hl <= |h| && dl <= |d|
    ensures out + Remaining(h, hl, d, dl, tail)
            == out + h[|h| - hl..|h| - hl + n] + Remaining(h, hl - n, d, dl, tail)
  {
    assert h[|h| - hl..] == h[|h| - hl..|h| - hl + n] + h[|h| - hl + n..];
  }

  lemma {:induction false} TakeData(out: seq<byte>, h: seq<byte>, d: seq<byte>, dl: nat, tail: seq<byte>, n: nat)
    requires n <= dl <= |d|
    ensures out + Remaining(h, 0, d, dl, tail)
            == out + d[|d| - dl..|d| - dl + n] + Remaining(h, 0, d, dl - n, tail)
  {
    assert d[|d| - dl..] == d[|d| - dl..|d| - dl + n] + d[|d| - dl + n..];
  }

  lemma {:induction false} TakeWholeHeader(out: seq<byte>, hdr: seq<byte>, h: seq<byte>, d: seq<byte>, tail: seq<byte>)
    ensures out + Remaining(hdr, |hdr|, d, |d|, tail) == out + hdr + Remaining(h, 0, d, |d|, tail)
  {
    assert hdr[|hdr| - |hdr|..] == hdr && h[|h|..] == [];
  }

  lemma {:induction false} TakeWholeData(out: seq<byte>, h: seq<byte>, d: seq<byte>, tail: seq<byte>)
    ensures out + Remaining(h, 0, d, |d|, tail) == out + d + Remaining(h, 0, d, 0, tail)
  {
    assert d[|d| - |d|..] == d && h[|h|..] == [];
  }

  lemma {:induction false} FlattenHead(header: Record -> seq<byte>, h: seq<byte>, d: seq<byte>, recs: seq<Record>)
    requires recs != []
    ensures var hdr, data := header(recs[0]), recs[0].data;
      Remaining(h, 0, d, 0, Flatten(header, recs))
      == Remaining(hdr, |hdr|, data, |data|, Flatten(header, recs[1..]))
  {
    var hdr, data, rest := header(recs[0]), recs[0].data, Flatten(header, recs[1..]);
    assert hdr + data + rest == hdr + (data + rest);
    assert hdr[|hdr| - |hdr|..] == hdr && data[|data| - |data|..] == data;
  }

  class InputStreamSerializer {
    const header: Record -> seq<byte>
    const headerSize: nat
    var input: seq<Record>
    var rec: Record
    var headerBuf: seq<byte>
    var headerLeft: nat
    var dataLeft: nat

    ghost predicate Valid()
      reads this
    {
      && (forall r :: |header(r)| == headerSize)
      && |headerBuf| == headerSize && headerLeft <= headerSize
      && dataLeft <= |rec.data|
    }

    /** What is still to be handed out. */
    ghost function Pending(): (s: seq<byte>)
      reads this
      requires Valid()
    {
      Remaining(headerBuf, headerLeft, rec.data, dataLeft, Flatten(header, input))
    }

    constructor (header: Record -> seq<byte>, headerSize: nat, input: seq<Record>)
      requires forall r :: |header(r)| == headerSize
      ensures Valid() && Pending() == Flatten(header, input)
    {
      this.header, this.headerSize, this.input := header, headerSize, input;
      rec := Record(0, 0, 0, []);
      headerBuf := header(Record(0, 0, 0, []));
      headerLeft, dataLeft := 0, 0;
    }

    /** Continue a header that did not fit before. */
    method ReadHeader(dst: array<byte>, ptr: nat, end: nat) returns (ptr': nat)
      requires Valid() && headerLeft > 0 && ptr < end <= dst.Length
      modifies this`headerLeft, dst
      ensures Valid() && ptr < ptr' <= end
      ensures dst[..ptr'] + Pending() == old(dst[..ptr] + Pending())
      ensures forall i :: end <= i < dst.Length ==> dst[i] == old(dst[i])
    {
      hide Flatten, Remaining;
      var n := if headerLeft < end - ptr then headerLeft else end - ptr;
      TakeHeader(dst[..ptr], headerBuf, headerLeft, rec.data, dataLeft, Flatten(header, input), n);
      CopyInto(dst, ptr, headerBuf[headerSize - headerLeft..headerSize - headerLeft + n]);
      ptr' := ptr + n;
      headerLeft := headerLeft - n;
    }

    /** Continue data that did not fit before. */
    method ReadData(dst: array<byte>, ptr: nat, end: nat) returns (ptr': nat)
      requires Valid() && headerLeft == 0 && dataLeft > 0 && ptr < end <= dst.Length
      modifies this`dataLeft, dst
      ensures Valid() && ptr < ptr' <= end
      ensures dst[..ptr'] + Pending() == old(dst[..ptr] + Pending())
      ensures forall i :: end <= i < dst.Length ==> dst[i] == old(dst[i])
    {
      hide Flatten, Remaining;
      var n := if dataLeft < end - ptr then dataLeft else end - ptr;
      TakeData(dst[..ptr], headerBuf, rec.data, dataLeft, Flatten(header, input), n);
      CopyInto(dst, ptr, rec.data[|rec.data| - dataLeft..|rec.data| - dataLeft + n]);
      ptr' := ptr + n;
      dataLeft := dataLeft - n;
    }

    /** Fetch the next record: whole if it fits, its header alone, or nothing but the saved header. */
    method ReadRecord(dst: array<byte>, ptr: nat, end: nat) returns (ptr': nat)
      requires Valid() && headerLeft == 0 && dataLeft == 0 && input != [] && ptr < end <= dst.Length
      modifies this, dst
      ensures Valid() && ptr <= ptr' <= end && input == old(input)[1..]
      ensures dst[..ptr'] + Pending() == old(dst[..ptr] + Pending())
      ensures forall i :: end <= i < dst.Length ==> dst[i] == old(dst[i])
    {
      hide Flatten, Remaining;
      FlattenHead(header, headerBuf, rec.data, input);
      rec, input := input[0], input[1..];
      var hdr := header(rec);
      ghost var rest := Flatten(header, input);
      if end - ptr >= headerSize {
        TakeWholeHeader(dst[..ptr], hdr, headerBuf, rec.data, rest);
        CopyInto(dst, ptr, hdr);
        ptr' := ptr + headerSize;
        if end - ptr' >= |rec.data| {
          TakeWholeData(dst[..ptr'], headerBuf, rec.data, rest);
          CopyInto(dst, ptr', rec.data);
          ptr' := ptr' + |rec.data|;
        } else {
          dataLeft := |rec.data|;
        }
      } else {
        headerBuf, headerLeft, dataLeft := hdr, headerSize, |rec.data|;
        ptr' := ptr;
      }
    }

    /** Fill `dst[..sz]` as far as the stream goes: the bytes read are the next piece of the stream,
        the rest of the stream stays pending, and a read is short only at the end of the stream. */
    method Read(dst: array<byte>, sz: nat) returns (n: nat)
      requires Valid() && sz <= dst.Length
      modifies this, dst
      ensures Valid() && n <= sz
      ensures dst[..n] + Pending() == old(Pending())
      ensures n < sz ==> Pending() == []
      ensures forall i :: sz <= i < dst.Length ==> dst[i] == old(dst[i])
    {
      hide Flatten, Remaining;
      n := 0;
      assert dst[..0] == [];
      while n != sz
        invariant Valid() && n <= sz
        invariant dst[..n] + Pending() == old(Pending())
        invariant forall i :: sz <= i < dst.Length ==> dst[i] == old(dst[i])
        decreases |input|, sz - n
      {
        if headerLeft > 0 {
          n := ReadHeader(dst, n, sz);
        } else if dataLeft > 0 {
          n := ReadData(dst, n, sz);
        } else if input == [] {
          NothingPending();
          break;
        } else {
          n := ReadRecord(dst, n, sz);
        }
      }
    }

    lemma NothingPending()
      requires Valid() && headerLeft == 0 && dataLeft == 0 && input == []
      ensures Pending() == []
    {
    }
  }

  /** One more piece read keeps the pieces a split of the stream. */
  lemma {:induction false} NextPiece(pieces: seq<seq<byte>>, piece: seq<byte>, rest: seq<byte>)
    ensures Concat(pieces + [piece]) + rest == Concat(pieces) + (piece + rest)
  {
    hide Concat;
    ConcatAppend(pieces, piece);
  }

  /** Reading with any list of sizes hands out consecutive pieces of the flattened records. */
  method ReadPieces(header: Record -> seq<byte>, headerSize: nat, recs: seq<Record>, sizes: seq<nat>)
    returns (pieces: seq<seq<byte>>)
    requires forall r :: |header(r)| == headerSize
    ensures |pieces| == |sizes|
    ensures Concat(pieces) <= Flatten(header, recs)
    ensures forall i :: 0 <= i < |sizes| ==> |pieces[i]| <= sizes[i]
    ensures (exists i :: 0 <= i < |sizes| && |pieces[i]| < sizes[i]) ==> Concat(pieces) == Flatten(header, recs)
  {
    hide Flatten, Concat, Remaining;
    var s := new InputStreamSerializer(header, headerSize, recs);
    pieces := [];
    ghost var short := false;
    assert Concat(pieces) == [] by { ConcatNone(); }
    for k := 0 to |sizes|
      invariant s.Valid() && fresh(s) && |pieces| == k
      invariant Concat(pieces) + s.Pending() == Flatten(header, recs)
      invariant forall i :: 0 <= i < k ==> |pieces[i]| <= sizes[i]
      invariant forall i :: 0 <= i < k ==> |pieces[i]| < sizes[i] ==> short
      invariant short ==> s.Pending() == []
    {
      var dst := new byte[sizes[k]];
      ghost var pending := s.Pending();
      var n := s.Read(dst, sizes[k]);
      var piece := dst[..n];
      NextPiece(pieces, piece, s.Pending());
      pieces := pieces + [piece];
      short := short || n < sizes[k];
    }
  }

  lemma ConcatNone()
    ensures Concat([]) == []
  {
  }
}
