/** `readBinary` of main.go:71-90: builds "Hello World!" repeated 100
    times, then decodes it with `binary.Read` into a 10-byte slice until
    `io.EOF`, printing every record and every failure. */
module ReadBinary {
  import opened Prelude

  /** The bytes of "Hello World!". */
  const Greeting: seq<byte> := [72, 101, 108, 108, 111, 32, 87, 111, 114, 108, 100, 33]

  /** The errors `binary.Read` reports here: `io.EOF` when no byte is left
      and `io.ErrUnexpectedEOF` when some, but fewer than needed, are. */
  datatype ReadErr = EOF | ErrUnexpectedEOF

  /** What one step of the loop prints: a failure line or a record. */
  datatype Line = ReadFailed(err: ReadErr) | Record(bytes: seq<byte>)

  /** A `*bytes.Reader` that `binary.Read` decodes from. */
  class Reader {
    const data: seq<byte>
    var pos: nat

    ghost predicate Valid()
      reads this
    {
      pos <= |data|
    }

    /** `bytes.NewReader(data)`. */
    constructor (data: seq<byte>)
      ensures Valid() && this.data == data && pos == 0
    {
      this.data := data;
      pos := 0;
    }

    /** `binary.Read(r, binary.LittleEndian, &out)` for a byte slice `out`:
        `io.ReadFull` of `len(out)` bytes, stored in `out` only when all of
        them arrived. A short read consumes what is left and leaves `out`
        as it was. */
    method ReadInto(out: array<byte>) returns (err: Option<ReadErr>)
      requires Valid()
      modifies this, out
      ensures Valid()
      ensures out.Length <= |data| - old(pos) ==>
                err == None && pos == old(pos) + out.Length && out[..] == data[old(pos)..pos]
      ensures 0 < out.Length && old(pos) == |data| ==>
                err == Some(EOF) && pos == old(pos) && out[..] == old(out[..])
      ensures 0 < |data| - old(pos) < out.Length ==>
                err == Some(ErrUnexpectedEOF) && pos == |data| && out[..] == old(out[..])
    {
      if out.Length <= |data| - pos {
        forall i | 0 <= i < out.Length {
          out[i] := data[pos + i];
        }
        pos := pos + out.Length;
        return None;
      }
      if pos == |data| {
        return Some(EOF);
      }
      pos := |data|;
      return Some(ErrUnexpectedEOF);
    }
  }

  /** What the decode loop prints from reader position `at` while `out`
      holds `last`: a record per full read; on a short read the failure,
      the stale record again and then the `io.EOF` failure that ends it. */
  function Transcript(data: seq<byte>, at: nat, last: seq<byte>): seq<Line>
    requires at <= |data| && |last| > 0
    decreases |data| - at
  {
    if at == |data| then [ReadFailed(EOF)]
    else if |data| - at < |last| then [ReadFailed(ErrUnexpectedEOF), Record(last), ReadFailed(EOF)]
    else
      var rec := data[at..at + |last|];
      [Record(rec)] + Transcript(data, at + |last|, rec)
  }

  /** The bytes of the records among `lines`, in order. */
  function RecordBytes(lines: seq<Line>): seq<byte>
  {
    if lines == [] then []
    else (if lines[0].Record? then lines[0].bytes else []) + RecordBytes(lines[1..])
  }

  /** The slice `readBinary` builds: "Hello World!" 100 times. */
  function Input(): seq<byte>
  {
    RepeatSeq(Greeting, 100)
  }

  lemma TranscriptFull(data: seq<byte>, at: nat, last: seq<byte>)
    requires at + |last| <= |data| && |last| > 0
    ensures Transcript(data, at, last) ==
            [Record(data[at..at + |last|])] + Transcript(data, at + |last|, data[at..at + |last|])
  {
  }

  lemma TranscriptShort(data: seq<byte>, at: nat, last: seq<byte>)
    requires at < |data| < at + |last|
    ensures Transcript(data, at, last) == [ReadFailed(ErrUnexpectedEOF), Record(last)] + Transcript(data, |data|, last)
  {
  }

  lemma AppendAssoc<T>(a: seq<T>, b: seq<T>, c: seq<T>)
    ensures (a + b) + c == a + (b + c)
  {
  }

  /** `readBinary` itself: what it prints, in order. */
  method ReadBinaryLines() returns (lines: seq<Line>)
    ensures lines == Transcript(Input(), 0, Zeros(10))
  {
    var s := Greeting;
    var b: seq<byte> := [];
    var i := 0;
    while i < 100
      invariant 0 <= i <= 100 && b == RepeatSeq(s, i)
    {
      b := b + s;
      i := i + 1;
    }
    var buf := new Reader(b);
    var out := new byte[10](_ => 0);
    assert out[..] == Zeros(10);
    lines := DecodeLoop(buf, out);
  }

  /** The loop of lines 80-89: decode a record into `out` until `io.EOF`,
      printing each failure and, unless it was `io.EOF`, `out`. */
  method DecodeLoop(buf: Reader, out: array<byte>) returns (lines: seq<Line>)
    requires buf.Valid() && buf.pos == 0 && out.Length > 0
    modifies buf, out
    ensures lines == Transcript(buf.data, 0, old(out[..]))
  {
    ghost var goal := Transcript(buf.data, 0, out[..]);
    lines := [];
    while true
      invariant buf.Valid() && out.Length > 0
      invariant lines + Transcript(buf.data, buf.pos, out[..]) == goal
      decreases |buf.data| - buf.pos
    {
      var stop, printed := DecodeOnce(buf, out);
      if stop {
        lines := lines + printed;
        return;
      }
      AppendAssoc(lines, printed, Transcript(buf.data, buf.pos, out[..]));
      lines := lines + printed;
    }
  }

  /** One pass of the loop body, lines 81-88: decode into `out` and print
      the failure, if any, and then, unless it was `io.EOF`, `out`; `stop`
      is the `return` on `io.EOF`. */
  method DecodeOnce(buf: Reader, out: array<byte>) returns (stop: bool, printed: seq<Line>)
    requires buf.Valid() && out.Length > 0
    modifies buf, out
    ensures buf.Valid()
    ensures stop ==> old(Transcript(buf.data, buf.pos, out[..])) == printed
    ensures !stop ==> old(Transcript(buf.data, buf.pos, out[..])) == printed + Transcript(buf.data, buf.pos, out[..])
    ensures !stop ==> old(buf.pos) < buf.pos
  {
    ghost var at, last := buf.pos, out[..];
    var err := buf.ReadInto(out);
    if err == Some(EOF) {
      assert at == |buf.data|;
      return true, [ReadFailed(EOF)];
    }
    if err == None {
      TranscriptFull(buf.data, at, last);
      assert out[..] == buf.data[at..at + out.Length] && buf.pos == at + out.Length;
      return false, [Record(out[..])];
    }
    TranscriptShort(buf.data, at, last);
    assert buf.pos == |buf.data| && out[..] == last;
    return false, [ReadFailed(err.value), Record(out[..])];
  }

  /** When the bytes left are a whole number `k` of records, the loop
      prints `k` records that together are exactly those bytes, then the
      `io.EOF` failure, and never `io.ErrUnexpectedEOF`. */
  lemma {:induction false} TranscriptWhole(data: seq<byte>, at: nat, last: seq<byte>, k: nat)
    requires at <= |data| && |last| > 0 && |data| - at == k * |last|
    ensures |Transcript(data, at, last)| == k + 1
    ensures Transcript(data, at, last)[k] == ReadFailed(EOF)
    ensures forall j :: 0 <= j < k ==>
              Transcript(data, at, last)[j].Record? && |Transcript(data, at, last)[j].bytes| == |last|
    ensures RecordBytes(Transcript(data, at, last)) == data[at..]
    decreases k
  {
    var t := Transcript(data, at, last);
    if k == 0 {
      assert k * |last| == 0;
      assert t == [ReadFailed(EOF)];
      assert RecordBytes(t) == [] + RecordBytes([]);
    } else {
      var rec := data[at..at + |last|];
      var rest := Transcript(data, at + |last|, rec);
      MulSucc(k - 1, |last|);
      assert |data| - (at + |last|) == (k - 1) * |last|;
      TranscriptWhole(data, at + |last|, rec, k - 1);
      assert t == [Record(rec)] + rest;
      assert t[1..] == rest;
      assert data[at..] == rec + data[at + |last|..];
      forall j | 0 <= j < k ensures t[j].Record? && |t[j].bytes| == |last| {
        if j > 0 {
          assert t[j] == rest[j - 1];
        }
      }
    }
  }

  /** The built slice is 1200 bytes, each 12-byte block "Hello World!". */
  lemma {:induction false} InputShape()
    ensures |Input()| == 1200
    ensures forall k :: 0 <= k < 100 ==> Input()[12 * k..12 * k + 12] == Greeting
  {
    RepeatSeqBlocks(Greeting, 100);
  }

  lemma {:induction false} RepeatSeqBlocks(s: seq<byte>, n: nat)
    requires |s| == 12
    ensures |RepeatSeq(s, n)| == 12 * n
    ensures forall k :: 0 <= k < n ==> RepeatSeq(s, n)[12 * k..12 * k + 12] == s
  {
    if n > 0 {
      var front := RepeatSeq(s, n - 1);
      RepeatSeqBlocks(s, n - 1);
      assert RepeatSeq(s, n) == front + s;
      forall k | 0 <= k < n ensures RepeatSeq(s, n)[12 * k..12 * k + 12] == s {
        if k < n - 1 {
          assert RepeatSeq(s, n)[12 * k..12 * k + 12] == front[12 * k..12 * k + 12];
        } else {
          assert RepeatSeq(s, n)[12 * k..12 * k + 12] == s;
        }
      }
    }
  }

  /** What `readBinary` prints: 120 records of 10 bytes that together are
      the built slice, then the `io.EOF` failure. The short-read path of
      `Transcript`, which would print a stale record, is not reached. */
  lemma ReadBinaryOutput()
    ensures |Transcript(Input(), 0, Zeros(10))| == 121
    ensures Transcript(Input(), 0, Zeros(10))[120] == ReadFailed(EOF)
    ensures forall j :: 0 <= j < 120 ==>
              Transcript(Input(), 0, Zeros(10))[j].Record? && |Transcript(Input(), 0, Zeros(10))[j].bytes| == 10
    ensures RecordBytes(Transcript(Input(), 0, Zeros(10))) == Input()
  {
    InputShape();
    TranscriptWhole(Input(), 0, Zeros(10), 120);
    assert Input()[0..] == Input();
  }

  /** A slice that is not a whole number of records ends with the short
      read: the failure, the previous record printed a second time, then
      `io.EOF`. */
  lemma ShortTailReprintsRecord()
    ensures var data := Greeting[..10] + Greeting[..5];
            Transcript(data, 0, Zeros(10)) ==
            [Record(Greeting[..10]), ReadFailed(ErrUnexpectedEOF), Record(Greeting[..10]), ReadFailed(EOF)]
  {
    var data := Greeting[..10] + Greeting[..5];
    assert data[0..10] == Greeting[..10];
    TranscriptFull(data, 0, Zeros(10));
  }
}
