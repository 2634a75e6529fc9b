/** Record headers and the record file: one writer that may compress, one reader. */
module RecordFile {
  import opened Bytes
  import opened Options
  import opened LzoFormat
  import opened LzoSize
  import opened LzoDictionary
  import opened LzoOverrun
  import opened LzoSavings
  import LzoCompressor
  import LzoDecompressor

  const U32 := 0x1_0000_0000

  /** Header fields as 32-bit words, and a record as a value. */
  datatype Fields = Fields(length: nat, kind: nat, version: nat, flags: nat)

  datatype Record = Record(kind: nat, version: nat, flags: nat, data: seq<byte>)

  ghost predicate ValidRecord(r: Record) {
    r.kind < U32 && r.version < U32 && r.flags < U32 && |r.data| < U32
  }

  // ------------------------------------------------------------ words

  function Little32(n: nat): (b: seq<byte>)
    ensures |b| == 4
  {
    [n % 256, n / 0x100 % 256, n / 0x1_0000 % 256, n / 0x100_0000 % 256]
  }

  function FromLittle32(b: seq<byte>): nat
    requires |b| == 4
  {
    b[0] as int + 0x100 * (b[1] as int) + 0x1_0000 * (b[2] as int) + 0x100_0000 * (b[3] as int)
  }

  lemma {:induction false} LittleRoundTrip(n: nat)
    requires n < U32
    ensures FromLittle32(Little32(n)) == n
  {
    assert n / 0x100 == n / 0x1_0000 * 256 + n / 0x100 % 256;
    assert n / 0x1_0000 == n / 0x100_0000 * 256 + n / 0x1_0000 % 256;
  }

  function Reversed4(b: seq<byte>): (r: seq<byte>)
    requires |b| == 4
    ensures |r| == 4
  {
    [b[3], b[2], b[1], b[0]]
  }

  // ------------------------------------------------------------ headers

  const HEADER_SIZE := 10

  /** The vega layout: two little-endian words and two bytes. Version and flags are cut to a byte. */
  function Vega(f: Fields): (h: seq<byte>)
    ensures |h| == HEADER_SIZE
  {
    Little32(f.length) + Little32(f.kind) + [f.version % 256, f.flags % 256]
  }

  function FromVega(h: seq<byte>): Fields
    requires |h| == HEADER_SIZE
  {
    Fields(FromLittle32(h[0..4]), FromLittle32(h[4..8]), h[8], h[9])
  }

  /** What a vega header keeps: both words, and the low byte of version and flags. */
  lemma {:induction false} VegaRoundTrip(f: Fields)
    requires f.length < U32 && f.kind < U32
    ensures FromVega(Vega(f)) == f.(version := f.version % 256, flags := f.flags % 256)
  {
    LittleRoundTrip(f.length);
    LittleRoundTrip(f.kind);
    hide Little32, FromLittle32;
    var h := Vega(f);
    assert h[0..4] == Little32(f.length);
    assert h[4..8] == Little32(f.kind);
  }

  /** The sirius layout: type little-endian, a 16-bit version and the length big-endian, no flags. */
  function Sirius(f: Fields): (h: seq<byte>)
    requires f.flags == 0
    ensures |h| == HEADER_SIZE
  {
    Little32(f.kind) + [f.version / 0x100 % 256, f.version % 256] + Reversed4(Little32(f.length))
  }

  function FromSirius(h: seq<byte>): Fields
    requires |h| == HEADER_SIZE
  {
    Fields(FromLittle32(Reversed4(h[6..10])), FromLittle32(h[0..4]), h[5] as int + 0x100 * (h[4] as int), 0)
  }

  lemma {:induction false} LowBytes(n: nat)
    ensures n % 0x1_0000 == n % 256 + 256 * (n / 256 % 256)
  {
    var low, high := n % 256 + 256 * (n / 256 % 256), n / 256 / 256;
    assert n == n / 256 * 256 + n % 256 && n / 256 == high * 256 + n / 256 % 256;
    LowWord(n, high, low);
  }

  lemma {:induction false} LowWord(n: nat, high: nat, low: nat)
    requires n == high * 0x1_0000 + low && low < 0x1_0000
    ensures n % 0x1_0000 == low
  {
  }

  lemma {:induction false} SiriusRoundTrip(f: Fields)
    requires f.length < U32 && f.kind < U32 && f.flags == 0
    ensures FromSirius(Sirius(f)) == f.(version := f.version % 0x1_0000)
  {
    LittleRoundTrip(f.length);
    LittleRoundTrip(f.kind);
    LowBytes(f.version);
    hide Little32, FromLittle32;
    var h := Sirius(f);
    assert h[0..4] == Little32(f.kind);
    assert h[6..10] == Reversed4(Little32(f.length));
    assert Reversed4(h[6..10]) == Little32(f.length);
  }

  // ------------------------------------------------------------ reading, as a function of the bytes

  /** `Garbled` is a compressed payload the code turns into a record with undetermined bytes: too
      short to hold a size and a stream, or a stream that does not fill the announced size. */
  datatype Parsed = EndOfFile | ShortRecord | Garbled(used: nat) | Got(rec: Record, used: nat)

  predicate IsCompressed(flags: nat) {
    flags % 2 == 1
  }

  function ParsePayload(f: Fields, payload: seq<byte>): (r: Parsed)
    requires |payload| == f.length
    ensures (r.Got? || r.Garbled?) && r.used == HEADER_SIZE + f.length
  {
    if !IsCompressed(f.flags) then
      Got(Record(f.kind, f.version, f.flags, payload), HEADER_SIZE + f.length)
    else if f.length < 5 then Garbled(HEADER_SIZE + f.length)
    else
      var size := FromLittle32(payload[..4]);
      var d := Decompress(payload[4..], f.length - 4, size);
      if |d.out| < size then Garbled(HEADER_SIZE + f.length)
      else Got(Record(f.kind, f.version, f.flags, d.out), HEADER_SIZE + f.length)
  }

  /** The first record of `bytes`. */
  function Parse(bytes: seq<byte>): (r: Parsed)
    ensures r.Got? || r.Garbled? ==> HEADER_SIZE <= r.used <= |bytes|
  {
    if |bytes| < HEADER_SIZE then EndOfFile
    else
      var f := FromVega(bytes[..HEADER_SIZE]);
      if |bytes| - HEADER_SIZE < f.length then ShortRecord
      else ParsePayload(f, bytes[HEADER_SIZE..HEADER_SIZE + f.length])
  }

  /** All records up to the first thing that is not one. */
  function ParseAll(bytes: seq<byte>): seq<Record> {
    var p := Parse(bytes);
    if p.Got? then [p.rec] + ParseAll(bytes[p.used..]) else []
  }

  /** A record is read the same whatever follows it. */
  lemma {:induction false} ParseExtends(frame: seq<byte>, more: seq<byte>)
    requires Parse(frame).Got? && Parse(frame).used == |frame|
    ensures Parse(frame + more) == Parse(frame)
  {
    hide ParsePayload;
    var bytes := frame + more;
    assert bytes[..HEADER_SIZE] == frame[..HEADER_SIZE];
    var f := FromVega(frame[..HEADER_SIZE]);
    assert |frame| == HEADER_SIZE + f.length;
    assert bytes[HEADER_SIZE..HEADER_SIZE + f.length] == frame[HEADER_SIZE..HEADER_SIZE + f.length];
  }

  function Concat(frames: seq<seq<byte>>): seq<byte> {
    if frames == [] then [] else frames[0] + Concat(frames[1..])
  }

  /** A file of whole records is read back record by record. */
  lemma {:induction false} ParseAllConcat(frames: seq<seq<byte>>, recs: seq<Record>)
    requires |frames| == |recs|
    requires forall i :: 0 <= i < |frames| ==> Parse(frames[i]) == Got(recs[i], |frames[i]|)
    ensures ParseAll(Concat(frames)) == recs
  {
    hide Parse;
    if frames == [] {
      assert Parse([]) == EndOfFile by { EmptyFile(); }
    } else {
      ParseExtends(frames[0], Concat(frames[1..]));
      ParseAllConcat(frames[1..], recs[1..]);
      assert Concat(frames)[|frames[0]|..] == Concat(frames[1..]);
      assert [recs[0]] + recs[1..] == recs;
    }
  }

  lemma {:induction false} EmptyFile()
    ensures Parse([]) == EndOfFile
  {
  }

  // ------------------------------------------------------------ files that end too early

  /** Of a record that is cut off nothing is read: within the header the file is at its end, within the data the
      record is short. */
  lemma {:induction false} CutOff(f: Fields, payload: seq<byte>, k: nat)
    requires f.length == |payload| < U32 && f.kind < U32 && k < HEADER_SIZE + |payload|
    ensures Parse((Vega(f) + payload)[..k]) == if k < HEADER_SIZE then EndOfFile else ShortRecord
  {
    VegaRoundTrip(f);
    hide Vega, FromVega, ParsePayload;
    var bytes := (Vega(f) + payload)[..k];
    if k >= HEADER_SIZE { assert bytes[..HEADER_SIZE] == Vega(f); }
  }

  /** A compressed payload that does not hold its size word and a stream of the announced size is garbled. */
  lemma {:induction false} GarbledFrame(f: Fields, payload: seq<byte>)
    requires f.length == |payload| < U32 && f.kind < U32 && IsCompressed(f.flags)
    requires |payload| >= 5 ==>
      |Decompress(payload[4..], |payload| - 4, FromLittle32(payload[..4])).out| < FromLittle32(payload[..4])
    ensures Parse(Vega(f) + payload) == Garbled(HEADER_SIZE + |payload|)
  {
    hide Parse, Vega, Decompress, FromLittle32;
    FrameParses(f, payload);
    LowByteKeepsFlag(f.flags);
  }

  // ------------------------------------------------------------ writing

  /** What reading gives back for `r`: version and flags cut to a byte, and the LZO flag cleared
      when compression was asked for and not worth keeping. */
  function Stored(r: Record, kept: bool): Record {
    r.(version := r.version % 256, flags := (if kept then r.flags else r.flags / 2 * 2) % 256)
  }

  /** Exactly the records with byte-sized version and flags survive, up to the LZO flag. */
  lemma {:induction false} StoredExactly(r: Record, kept: bool)
    requires kept ==> IsCompressed(r.flags)
    ensures (Stored(r, kept).(flags := 0) == r.(flags := 0) && Stored(r, kept).flags / 2 == r.flags / 2)
            <==> (r.version < 256 && r.flags < 256)
  {
    if r.flags < 256 {
      assert (r.flags / 2 * 2) % 256 == r.flags / 2 * 2;
    } else {
      assert Stored(r, kept).flags < 256 <= r.flags;
      assert Stored(r, kept).flags / 2 < 128 <= r.flags / 2;
    }
  }

  /** A header and as many bytes as it announces are read as that payload. */
  lemma {:induction false} FrameParses(f: Fields, payload: seq<byte>)
    requires f.length == |payload| < U32 && f.kind < U32
    ensures Parse(Vega(f) + payload) == ParsePayload(f.(version := f.version % 256, flags := f.flags % 256), payload)
  {
    VegaRoundTrip(f);
    hide Vega, FromVega, ParsePayload;
    var bytes := Vega(f) + payload;
    assert bytes[..HEADER_SIZE] == Vega(f);
    assert bytes[HEADER_SIZE..HEADER_SIZE + |payload|] == payload;
  }

  lemma {:induction false} LowByteKeepsFlag(flags: nat)
    ensures IsCompressed(flags % 256) == IsCompressed(flags)
  {
  }

  lemma {:induction false} PlainFrame(r: Record)
    requires ValidRecord(r) && !IsCompressed(r.flags)
    ensures Parse(Vega(Fields(|r.data|, r.kind, r.version, r.flags)) + r.data)
            == Got(Stored(r, false), HEADER_SIZE + |r.data|)
  {
    hide Parse, Vega, Decompress;
    FrameParses(Fields(|r.data|, r.kind, r.version, r.flags), r.data);
    LowByteKeepsFlag(r.flags);
    assert r.flags / 2 * 2 == r.flags;
  }

  lemma {:induction false} CompressedFrame(r: Record, z: seq<byte>)
    requires ValidRecord(r) && IsCompressed(r.flags)
    requires 1 <= |z| && |z| + 4 < U32
    requires Decompress(z, |z|, |r.data|) == Decoded(Ok, r.data)
    ensures Parse(Vega(Fields(|z| + 4, r.kind, r.version, r.flags)) + (Little32(|r.data|) + z))
            == Got(Stored(r, true), HEADER_SIZE + 4 + |z|)
  {
    hide Parse, Vega, Little32, FromLittle32, Decompress;
    var payload := Little32(|r.data|) + z;
    FrameParses(Fields(|z| + 4, r.kind, r.version, r.flags), payload);
    LittleRoundTrip(|r.data|);
    assert payload[..4] == Little32(|r.data|) && payload[4..] == z;
    LowByteKeepsFlag(r.flags);
  }

  /** A stream of the format for this input. */
  ghost predicate IsEncoding(data: seq<byte>, stream: seq<byte>) {
    exists toks :: ValidParse(data, toks) && Covered(toks) <= |data| && stream == Compressed(data, toks)
  }

  lemma {:induction false} EncodingOfNoRepeats(data: seq<byte>, stream: seq<byte>)
    requires NoRepeats(data) && IsEncoding(data, stream)
    ensures |data| < |stream| <= CodeBuffer(|data|)
  {
    hide NoRepeats, Compressed;
    var toks :| ValidParse(data, toks) && Covered(toks) <= |data| && stream == Compressed(data, toks);
    NothingSaved(data, toks);
  }

  /** How a put ends: the record is in the file, or the compressor wrote past its buffer. */
  datatype Outcome = Written(kept: bool) | Overran

  /** FileOutput. `file` is what has been written; `work` is the compressor's dictionary, made at the
      first compression and never cleared again. */
  class FileOutput {
    var file: seq<byte>
    var work: array?<address>

    ghost predicate Valid()
      reads this
    {
      work != null ==> work.Length == DICT_SIZE
    }

    constructor ()
      ensures Valid() && file == [] && work == null
    {
      file, work := [], null;
    }

    /** Compress `data`, located at `base`, with whatever is in the work memory. The memory written to is
        the buffer and what lies behind it; None is a stream that ran over the end of the buffer. */
    method CompressData(data: seq<byte>, base: address) returns (z: Option<seq<byte>>, ghost stream: seq<byte>)
      requires Valid()
      requires M4_MAX_OFFSET <= base && base + |data| < WORD
      modifies this`work, work
      ensures Valid() && (work == old(work) || fresh(work))
      ensures z.None? ==> |data| > 282
      ensures Overrunning(data) ==> z.None?
      ensures Uniform(data) && |data| >= 19 ==> z.Some? && Saves(|z.value|, |data|)
      ensures IsEncoding(data, stream) && z == if |stream| <= CodeBuffer(|data|) then Some(stream) else None
      ensures z.Some? ==> 3 <= |z.value| <= CodeBuffer(|data|) && Decompress(z.value, |z.value|, |data|) == Decoded(Ok, data)
    {
      hide Decompress, Overrunning, Uniform, Saves, Compressed, ValidParse;
      if work == null {
        work := new address[DICT_SIZE](_ => 0);
      }
      var memory := new byte[LzoCompressor.Bound(|data|)];
      ghost var toks;
      var n;
      n, toks := LzoCompressor.Compress(data, base, memory, work);
      CompressedSize(data, toks);
      BufferAgainstMax(|data|);
      stream := memory[..n];
      z := if n <= CodeBuffer(|data|) then Some(memory[..n]) else None;
    }

    /** Append one record. Compression is kept exactly if the stream, its size word included, saves a sixteenth:
        always for 19 or more equal bytes, and never if no three bytes occur twice. After an overrun, which
        records of at most 282 bytes cannot cause, nothing is promised about the file. */
    method Put(r: Record, base: address) returns (done: Outcome, ghost frame: seq<byte>, ghost stream: seq<byte>)
      requires Valid() && ValidRecord(r)
      requires M4_MAX_OFFSET <= base && base + |r.data| < WORD
      modifies this, work
      ensures Valid() && (work == old(work) || fresh(work))
      ensures done.Overran? ==> IsCompressed(r.flags) && |r.data| > 282
      ensures IsCompressed(r.flags) && Overrunning(r.data) ==> done.Overran?
      ensures done.Written? ==> file == old(file) + frame && Parse(frame) == Got(Stored(r, done.kept), |frame|)
      ensures done.Written? && done.kept ==> IsCompressed(r.flags) && 16 * (|frame| - HEADER_SIZE) < 15 * |r.data|
      ensures IsCompressed(r.flags) ==> IsEncoding(r.data, stream) && (done.Overran? <==> |stream| > CodeBuffer(|r.data|))
      ensures done.Written? ==> (done.kept <==> IsCompressed(r.flags) && |stream| + 4 < |r.data| * 15 / 16)
      ensures done.Written? ==> |frame| == HEADER_SIZE + if done.kept then 4 + |stream| else |r.data|
      ensures IsCompressed(r.flags) && Uniform(r.data) && |r.data| >= 19 ==> done == Written(true)
      ensures IsCompressed(r.flags) && NoRepeats(r.data) ==> done == Written(false)
    {
      hide Decompress, Parse, Vega, Little32, Overrunning, Uniform, NoRepeats, IsEncoding;
      var f := Fields(|r.data|, r.kind, r.version, r.flags);
      var payload := r.data;
      var kept := false;
      frame, stream := [], [];
      if IsCompressed(f.flags) {
        var code;
        code, stream := CompressData(r.data, base);
        if NoRepeats(r.data) { EncodingOfNoRepeats(r.data, stream); }
        if code.None? { return Overran, [], stream; }
        var z := code.value;
        if |z| + 4 < f.length * 15 / 16 {
          payload := Little32(f.length) + z;
          f := f.(length := |z| + 4);
          kept := true;
          CompressedFrame(r, z);
        } else {
          f := f.(flags := f.flags - 1);
          PlainFrame(r.(flags := f.flags));
        }
      } else {
        PlainFrame(r);
      }
      frame := Vega(f) + payload;
      file := file + Vega(f);
      file := file + payload;
      done := Written(kept);
    }
  }

  /** FileInput: a file and a position. */
  class FileInput {
    const file: seq<byte>
    var pos: nat

    ghost predicate Valid()
      reads this
    {
      pos <= |file|
    }

    constructor (file: seq<byte>)
      ensures Valid() && this.file == file && pos == 0
    {
      this.file, pos := file, 0;
    }

    /** Read one record; a short read leaves the position at the end of the file. */
    method Get() returns (p: Parsed)
      requires Valid()
      modifies this
      ensures Valid()
      ensures p == Parse(old(file[pos..]))
      ensures pos == if p.Got? || p.Garbled? then old(pos) + p.used else |file|
    {
      hide Decompress, FromVega;
      ghost var bytes := file[pos..];
      if |file| - pos < HEADER_SIZE {
        pos := |file|;
        return EndOfFile;
      }
      var f := FromVega(file[pos..pos + HEADER_SIZE]);
      assert bytes[..HEADER_SIZE] == file[pos..pos + HEADER_SIZE];
      pos := pos + HEADER_SIZE;
      if |file| - pos < f.length {
        pos := |file|;
        return ShortRecord;
      }
      var payload := file[pos..pos + f.length];
      assert bytes[HEADER_SIZE..HEADER_SIZE + f.length] == payload;
      pos := pos + f.length;
      if !IsCompressed(f.flags) {
        return Got(Record(f.kind, f.version, f.flags, payload), HEADER_SIZE + f.length);
      }
      if f.length < 5 { return Garbled(HEADER_SIZE + f.length); }
      var size := FromLittle32(payload[..4]);
      var data := new byte[size];
      var status, n := LzoDecompressor.DecompressSafe(payload[4..], f.length - 4, data, size);
      if n < size { return Garbled(HEADER_SIZE + f.length); }
      return Got(Record(f.kind, f.version, f.flags, data[..n]), HEADER_SIZE + f.length);
    }
  }

  /** A record of 283 bytes overruns the buffer of every writer, whatever is in its work memory. */
  method PutSample(out: FileOutput, kind: nat, version: nat, base: address) returns (done: Outcome)
    requires out.Valid() && kind < U32 && version < U32
    requires M4_MAX_OFFSET <= base && base + |Sample()| < WORD
    modifies out, out.work
    ensures |Sample()| == 283 && done.Overran?
  {
    hide Sample, Overrunning;
    SampleOverruns();
    SampleSize();
    ghost var frame, stream;
    done, frame, stream := out.Put(Record(kind, version, 1, Sample()), base);
  }

  lemma {:induction false} SampleSize()
    ensures |Sample()| == 283
  {
  }

  // ------------------------------------------------------------ whole files

  lemma {:induction false} ConcatAppend(frames: seq<seq<byte>>, frame: seq<byte>)
    ensures Concat(frames + [frame]) == Concat(frames) + frame
  {
    if frames == [] {
      assert frames + [frame] == [frame];
      assert Concat([frame]) == frame + Concat([frame][1..]) == frame;
    } else {
      assert (frames + [frame])[1..] == frames[1..] + [frame];
      ConcatAppend(frames[1..], frame);
      assert frames[0] + (Concat(frames[1..]) + frame) == frames[0] + Concat(frames[1..]) + frame;
    }
  }

  /** Records whose compression is always kept. */
  ghost predicate AlwaysKept(r: Record) { IsCompressed(r.flags) && Uniform(r.data) && |r.data| >= 19 }

  /** Records whose compression cannot overrun the buffer: not to be compressed, short, one byte repeated, or
      without any repetition. */
  ghost predicate Safe(r: Record) { IsCompressed(r.flags) ==> |r.data| <= 282 || AlwaysKept(r) || NoRepeats(r.data) }

  /** Put every record through one writer, reusing its work memory. None is an overrun. */
  method WriteAll(recs: seq<Record>, bases: seq<address>) returns (file: Option<seq<byte>>, kept: seq<bool>)
    requires |bases| == |recs|
    requires forall i :: 0 <= i < |recs| ==>
      ValidRecord(recs[i]) && M4_MAX_OFFSET <= bases[i] && bases[i] + |recs[i].data| < WORD
    ensures (forall r :: r in recs ==> Safe(r)) ==> file.Some?
    ensures file.Some? ==> |kept| == |recs|
    ensures file.Some? ==> forall i :: 0 <= i < |recs| ==> kept[i] ==> IsCompressed(recs[i].flags)
    ensures file.Some? ==> forall i :: 0 <= i < |recs| && AlwaysKept(recs[i]) ==> kept[i]
    ensures file.Some? ==>
      ParseAll(file.value) == seq(|recs|, i requires 0 <= i < |recs| && i < |kept| => Stored(recs[i], kept[i]))
  {
    hide Parse, Stored, Uniform, NoRepeats, IsEncoding, Overrunning, CodeBuffer;
    var out := new FileOutput();
    kept := [];
    ghost var frames: seq<seq<byte>> := [];
    for k := 0 to |recs|
      invariant out.Valid() && fresh(out) && (out.work == null || fresh(out.work))
      invariant |kept| == |frames| == k && out.file == Concat(frames)
      invariant forall i :: 0 <= i < k ==> kept[i] ==> IsCompressed(recs[i].flags)
      invariant forall i :: 0 <= i < k && AlwaysKept(recs[i]) ==> kept[i]
      invariant forall i :: 0 <= i < k ==> Parse(frames[i]) == Got(Stored(recs[i], kept[i]), |frames[i]|)
    {
      var done, frame, stream := out.Put(recs[k], bases[k]);
      if done.Overran? {
        assert recs[k] in recs && !Safe(recs[k]);
        return None, [];
      }
      ConcatAppend(frames, frame);
      frames := frames + [frame];
      kept := kept + [done.kept];
    }
    file := Some(out.file);
    ParseAllConcat(frames, seq(|recs|, i requires 0 <= i < |recs| && i < |kept| => Stored(recs[i], kept[i])));
  }

  /** Read records until something other than a record turns up. */
  method ReadAll(file: seq<byte>) returns (recs: seq<Record>)
    ensures recs == ParseAll(file)
  {
    hide Parse;
    var input := new FileInput(file);
    recs := [];
    assert file[0..] == file;
    while true
      invariant input.Valid() && fresh(input) && input.file == file
      invariant recs + ParseAll(file[input.pos..]) == ParseAll(file)
      decreases |file| - input.pos
    {
      ghost var rest := file[input.pos..];
      var p := input.Get();
      if !p.Got? { return; }
      assert rest[p.used..] == file[input.pos..];
      assert recs + ([p.rec] + ParseAll(rest[p.used..])) == recs + [p.rec] + ParseAll(rest[p.used..]);
      recs := recs + [p.rec];
    }
  }

  /** Same record, up to an LZO flag that is cleared where compression does not pay. */
  ghost predicate SameRecord(a: Record, b: Record) {
    && a.kind == b.kind && a.version == b.version && a.data == b.data
    && (b.flags == a.flags || (IsCompressed(a.flags) && !AlwaysKept(a) && b.flags == a.flags - 1))
  }

  /** A file written through one writer is read back as the same sequence of records, unless a
      compression overran its buffer, which none of at most 282 bytes or of one byte repeated does. */
  method FileRoundTrip(recs: seq<Record>, bases: seq<address>) returns (got: Option<seq<Record>>)
    requires |bases| == |recs|
    requires forall i :: 0 <= i < |recs| ==>
      && ValidRecord(recs[i]) && recs[i].version < 256 && recs[i].flags < 256
      && M4_MAX_OFFSET <= bases[i] && bases[i] + |recs[i].data| < WORD
    ensures (forall r :: r in recs ==> Safe(r)) ==> got.Some?
    ensures got.Some? ==> |got.value| == |recs|
    ensures got.Some? ==> forall i :: 0 <= i < |recs| ==> SameRecord(recs[i], got.value[i])
  {
    hide Safe, AlwaysKept;
    var file, kept := WriteAll(recs, bases);
    if file.None? { return None; }
    var all := ReadAll(file.value);
    forall i | 0 <= i < |recs| ensures SameRecord(recs[i], all[i]) {
      assert all[i] == Stored(recs[i], kept[i]);
      assert (recs[i].flags / 2 * 2) % 256 == recs[i].flags / 2 * 2;
    }
    got := Some(all);
  }
}
