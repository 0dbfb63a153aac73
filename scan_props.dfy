/** What the read loop of `SerialParse` (main.go:47-64) does to one file,
    stated without the loop: the file is cut into consecutive chunks of
    `bufSize` bytes, the buffer after the i-th read is the i-th chunk
    followed by what the previous buffer held beyond it, and one size is
    appended for every successful read whose whole buffer contains the
    term. */
module ScanProps {
  import opened Prelude
  import opened Bytes
  import opened OsFile
  import opened Parse

  /** The pieces successive reads take from `data`, starting at offset
      `at`, with a buffer of `size` bytes. */
  function Chunks(data: seq<byte>, at: nat, size: nat): seq<seq<byte>>
    requires at <= |data| && size > 0
    decreases |data| - at
  {
    if at == |data| then []
    else
      var n := Min(size, |data| - at);
      [data[at..at + n]] + Chunks(data, at + n, size)
  }

  /** The contents of the buffer after each successful read, starting at
      offset `at` with the buffer holding `buf`. */
  function Buffers(data: seq<byte>, at: nat, buf: seq<byte>): seq<seq<byte>>
    requires at <= |data| && |buf| > 0
    decreases |data| - at
  {
    if at == |data| then []
    else
      var n := Min(|buf|, |data| - at);
      var next := data[at..at + n] + buf[n..];
      [next] + Buffers(data, at + n, next)
  }

  /** How many of the buffers contain `term`. */
  function CountContaining(bs: seq<seq<byte>>, term: seq<byte>): (k: nat)
    ensures k <= |bs|
  {
    if bs == [] then 0
    else (if Contains(bs[0], term) then 1 else 0) + CountContaining(bs[1..], term)
  }

  /** The indices of the buffers that contain `term`. */
  function Matching(bs: seq<seq<byte>>, term: seq<byte>): set<nat>
  {
    set i: nat | i < |bs| && Contains(bs[i], term)
  }

  /** The buffers the reads of file `e` produce, from a zeroed buffer. */
  function FileBuffers(e: Entry, bufSize: nat): seq<seq<byte>>
    requires e.File? && bufSize > 0
  {
    Buffers(e.contents, 0, Zeros(bufSize))
  }

  /** Whether one of the reads of `e` fails: the failing call comes at the
      latest with the read that would report `io.EOF`. */
  predicate ReadFails(e: Entry, bufSize: nat)
    requires e.File? && bufSize > 0
  {
    e.readFault.Some? && e.readFault.value.call <= |FileBuffers(e, bufSize)|
  }

  /** How many reads of `e` succeed with data before the loop ends. */
  function GoodReads(e: Entry, bufSize: nat): nat
    requires e.File? && bufSize > 0
  {
    if ReadFails(e, bufSize) then e.readFault.value.call else |FileBuffers(e, bufSize)|
  }

  /** How many of those reads leave a buffer that contains the term. */
  function Hits(e: Entry, term: seq<byte>, bufSize: nat): nat
    requires e.File? && bufSize > 0
  {
    |Matching(FileBuffers(e, bufSize)[..GoodReads(e, bufSize)], term)|
  }

  /** The read loop from any state, in closed form. */
  function ClosedScan(e: Entry, term: seq<byte>, at: nat, buf: seq<byte>, calls: nat, hits: nat): ScanResult
    requires e.File? && at <= |e.contents| && |buf| > 0
  {
    var bufs := Buffers(e.contents, at, buf);
    var fails := e.readFault.Some? && calls <= e.readFault.value.call <= calls + |bufs|;
    var good := if fails then e.readFault.value.call - calls else |bufs|;
    var h := CountContaining(bufs[..good], term);
    if h > 0 && e.infoErr.Some? then ScanResult(hits, e.infoErr)
    else ScanResult(hits + h, if fails then Some(e.readFault.value.err) else None)
  }

  /** One read, seen in the closed form: the buffers from here are this
      read's buffer followed by the buffers from the next state. */
  lemma ClosedScanStep(e: Entry, term: seq<byte>, at: nat, buf: seq<byte>, calls: nat, hits: nat,
                       n: nat, next: seq<byte>)
    requires e.File? && at < |e.contents| && |buf| > 0
    requires !(e.readFault.Some? && e.readFault.value.call == calls)
    requires n == Min(|buf|, |e.contents| - at) && next == e.contents[at..at + n] + buf[n..]
    ensures ClosedScan(e, term, at, buf, calls, hits) ==
            if !Contains(next, term) then ClosedScan(e, term, at + n, next, calls + 1, hits)
            else if e.infoErr.Some? then ScanResult(hits, e.infoErr)
            else ClosedScan(e, term, at + n, next, calls + 1, hits + 1)
  {
    var bufs := Buffers(e.contents, at, buf);
    var rest := Buffers(e.contents, at + n, next);
    assert bufs == [next] + rest;
    var fails := e.readFault.Some? && calls <= e.readFault.value.call <= calls + |bufs|;
    var good := if fails then e.readFault.value.call - calls else |bufs|;
    var fails' := e.readFault.Some? && calls + 1 <= e.readFault.value.call <= calls + 1 + |rest|;
    var good' := if fails' then e.readFault.value.call - (calls + 1) else |rest|;
    assert fails == fails' && good == good' + 1;
    assert bufs[..good] == [next] + rest[..good'];
    assert bufs[..good][1..] == rest[..good'];
  }

  lemma {:induction false} ScanFromClosed(e: Entry, term: seq<byte>, at: nat, buf: seq<byte>, calls: nat, hits: nat)
    requires e.File? && at <= |e.contents| && |buf| > 0
    ensures ScanFrom(e, term, at, buf, calls, hits) == ClosedScan(e, term, at, buf, calls, hits)
    decreases |e.contents| - at
  {
    if e.readFault.Some? && e.readFault.value.call == calls {
      assert Buffers(e.contents, at, buf)[..0] == [];
    } else if at < |e.contents| {
      var n := Min(|buf|, |e.contents| - at);
      var next := e.contents[at..at + n] + buf[n..];
      ScanFromRead(e, term, at, buf, calls, hits, n, next);
      ClosedScanStep(e, term, at, buf, calls, hits, n, next);
      if !Contains(next, term) {
        ScanFromClosed(e, term, at + n, next, calls + 1, hits);
      } else if e.infoErr.None? {
        ScanFromClosed(e, term, at + n, next, calls + 1, hits + 1);
      }
    }
  }

  /** The read loop of a freshly opened file appends one size per
      successful read whose buffer contains the term, unless asking for the
      size fails, in which case it appends none and returns that error; it
      returns the read error if a read fails and no error otherwise. */
  lemma ScanClosedForm(e: Entry, term: seq<byte>, bufSize: nat)
    requires e.File? && bufSize > 0
    ensures Scan(e, term, bufSize) ==
            if Hits(e, term, bufSize) > 0 && e.infoErr.Some? then ScanResult(0, e.infoErr)
            else ScanResult(Hits(e, term, bufSize),
                            if ReadFails(e, bufSize) then Some(e.readFault.value.err) else None)
  {
    ScanFromClosed(e, term, 0, Zeros(bufSize), 0, 0);
    CountIsMatching(FileBuffers(e, bufSize)[..GoodReads(e, bufSize)], term);
  }

  lemma {:induction false} CountConcat(a: seq<seq<byte>>, b: seq<seq<byte>>, term: seq<byte>)
    ensures CountContaining(a + b, term) == CountContaining(a, term) + CountContaining(b, term)
    decreases |a|
  {
    if a == [] {
      assert a + b == b;
    } else {
      assert (a + b)[1..] == a[1..] + b;
      CountConcat(a[1..], b, term);
    }
  }

  /** Counting the buffers that contain the term one by one gives the
      number of such buffers. */
  lemma {:induction false} CountIsMatching(bs: seq<seq<byte>>, term: seq<byte>)
    ensures CountContaining(bs, term) == |Matching(bs, term)|
    decreases |bs|
  {
    if bs == [] {
      assert Matching(bs, term) == {};
    } else {
      var n := |bs| - 1;
      var front := bs[..n];
      assert bs == front + [bs[n]];
      CountConcat(front, [bs[n]], term);
      CountIsMatching(front, term);
      assert [bs[n]][1..] == [];
      if Contains(bs[n], term) {
        assert Matching(bs, term) == Matching(front, term) + {n};
        assert n !in Matching(front, term);
      } else {
        assert Matching(bs, term) == Matching(front, term);
      }
    }
  }

  /** There is one buffer per chunk, every buffer keeps the length of the
      first and no chunk is longer than it. */
  lemma {:induction false} BuffersLength(data: seq<byte>, at: nat, buf: seq<byte>)
    requires at <= |data| && |buf| > 0
    ensures |Buffers(data, at, buf)| == |Chunks(data, at, |buf|)|
    ensures forall i :: 0 <= i < |Chunks(data, at, |buf|)| ==> |Chunks(data, at, |buf|)[i]| <= |buf|
    ensures forall i :: 0 <= i < |Buffers(data, at, buf)| ==> |Buffers(data, at, buf)[i]| == |buf|
    decreases |data| - at
  {
    if at < |data| {
      var n := Min(|buf|, |data| - at);
      var next := data[at..at + n] + buf[n..];
      var bufs := Buffers(data, at, buf);
      var rest := Buffers(data, at + n, next);
      var chunks := Chunks(data, at, |buf|);
      var restChunks := Chunks(data, at + n, |buf|);
      assert bufs == [next] + rest;
      assert chunks == [data[at..at + n]] + restChunks;
      BuffersLength(data, at + n, next);
      forall i | 0 < i < |chunks| ensures chunks[i] == restChunks[i - 1] { }
      forall i | 0 < i < |bufs| ensures bufs[i] == rest[i - 1] { }
    }
  }

  /** The i-th buffer is the i-th chunk followed by what lay beyond it in
      the buffer before that read: all of `buf` before the first read, the
      previous buffer after it. */
  lemma {:induction false} BuffersShape(data: seq<byte>, at: nat, buf: seq<byte>)
    requires at <= |data| && |buf| > 0
    ensures |Buffers(data, at, buf)| == |Chunks(data, at, |buf|)|
    ensures forall i :: 0 <= i < |Chunks(data, at, |buf|)| ==> |Chunks(data, at, |buf|)[i]| <= |buf|
    ensures forall i :: 0 <= i < |Buffers(data, at, buf)| ==> |Buffers(data, at, buf)[i]| == |buf|
    ensures |Buffers(data, at, buf)| > 0 ==>
              Buffers(data, at, buf)[0] == Chunks(data, at, |buf|)[0] + buf[|Chunks(data, at, |buf|)[0]|..]
    ensures forall i :: 0 < i < |Buffers(data, at, buf)| ==>
              Buffers(data, at, buf)[i] ==
              Chunks(data, at, |buf|)[i] + Buffers(data, at, buf)[i - 1][|Chunks(data, at, |buf|)[i]|..]
    decreases |data| - at
  {
    BuffersLength(data, at, buf);
    if at < |data| {
      var n := Min(|buf|, |data| - at);
      var next := data[at..at + n] + buf[n..];
      var bufs := Buffers(data, at, buf);
      var rest := Buffers(data, at + n, next);
      var chunks := Chunks(data, at, |buf|);
      var restChunks := Chunks(data, at + n, |buf|);
      assert bufs == [next] + rest;
      assert chunks == [data[at..at + n]] + restChunks;
      BuffersShape(data, at + n, next);
      forall i | 0 < i < |bufs|
        ensures bufs[i] == chunks[i] + bufs[i - 1][|chunks[i]|..]
      {
        assert bufs[i] == rest[i - 1] && chunks[i] == restChunks[i - 1];
        if i == 1 {
          assert bufs[i - 1] == next;
        } else {
          assert bufs[i - 1] == rest[i - 2];
        }
      }
    }
  }

  /** Read one after the other, the chunks are the data from `at` on. */
  lemma {:induction false} ChunksFlatten(data: seq<byte>, at: nat, size: nat)
    requires at <= |data| && size > 0
    ensures Flatten(Chunks(data, at, size)) == data[at..]
    decreases |data| - at
  {
    if at < |data| {
      var n := Min(size, |data| - at);
      var cs := Chunks(data, at, size);
      assert cs[1..] == Chunks(data, at + n, size);
      ChunksFlatten(data, at + n, size);
      assert data[at..] == data[at..at + n] + data[at + n..];
    }
  }

  /** Every chunk is non-empty and holds at most `size` bytes, and all
      but the last hold exactly `size`. */
  lemma {:induction false} ChunkSizes(data: seq<byte>, at: nat, size: nat)
    requires at <= |data| && size > 0
    ensures forall i :: 0 <= i < |Chunks(data, at, size)| ==>
              0 < |Chunks(data, at, size)[i]| <= size &&
              (i < |Chunks(data, at, size)| - 1 ==> |Chunks(data, at, size)[i]| == size)
    decreases |data| - at
  {
    var r := |data| - at;
    if r > 0 {
      var n := Min(size, r);
      var cs := Chunks(data, at, size);
      var rest := Chunks(data, at + n, size);
      assert cs == [data[at..at + n]] + rest;
      ChunkSizes(data, at + n, size);
      forall i | 0 <= i < |cs|
        ensures 0 < |cs[i]| <= size && (i < |cs| - 1 ==> |cs[i]| == size)
      {
        if i > 0 {
          assert cs[i] == rest[i - 1];
        } else if r > size {
          assert |rest| > 0;
        }
      }
    }
  }

  /** There are ceil(remaining / size) chunks: just enough to cover the
      remaining bytes. */
  lemma {:induction false} ChunkCount(data: seq<byte>, at: nat, size: nat)
    requires at <= |data| && size > 0
    ensures |data| - at <= |Chunks(data, at, size)| * size < |data| - at + size
    decreases |data| - at
  {
    var r := |data| - at;
    if r > 0 {
      var n := Min(size, r);
      var rest := Chunks(data, at + n, size);
      assert |Chunks(data, at, size)| == |rest| + 1;
      ChunkCount(data, at + n, size);
      MulSucc(|rest|, size);
      if |rest| == 0 {
        assert |rest| * size == 0;
      }
    }
  }

  /** Every byte in a buffer is a byte of the data from `at` on or a byte of
      the buffer's contents before the first read. */
  lemma {:induction false} BufferBytes(data: seq<byte>, at: nat, buf: seq<byte>)
    requires at <= |data| && |buf| > 0
    ensures forall i, j :: 0 <= i < |Buffers(data, at, buf)| && 0 <= j < |Buffers(data, at, buf)[i]| ==>
              Buffers(data, at, buf)[i][j] in data[at..] || Buffers(data, at, buf)[i][j] in buf
    decreases |data| - at
  {
    if at < |data| {
      var n := Min(|buf|, |data| - at);
      var next := data[at..at + n] + buf[n..];
      var bufs := Buffers(data, at, buf);
      var rest := Buffers(data, at + n, next);
      assert bufs == [next] + rest;
      BufferBytes(data, at + n, next);
      forall k | 0 <= k < |next| ensures next[k] in data[at..] || next[k] in buf {
        if k < n {
          assert next[k] == data[at..][k];
        } else {
          assert next[k] == buf[k];
        }
      }
      forall x | x in data[at + n..] ensures x in data[at..] {
        var k :| 0 <= k < |data[at + n..]| && data[at + n..][k] == x;
        assert data[at..][n + k] == x;
      }
      forall i, j | 0 <= i < |bufs| && 0 <= j < |bufs[i]|
        ensures bufs[i][j] in data[at..] || bufs[i][j] in buf
      {
        if i > 0 {
          assert bufs[i] == rest[i - 1];
        }
      }
    }
  }

  /** A read whose chunk contains the term is always detected: its
      buffer begins with the chunk. */
  lemma ChunkMatchDetected(e: Entry, term: seq<byte>, bufSize: nat)
    requires e.File? && bufSize > 0
    ensures |FileBuffers(e, bufSize)| == |Chunks(e.contents, 0, bufSize)|
    ensures forall i :: 0 <= i < |FileBuffers(e, bufSize)| && Contains(Chunks(e.contents, 0, bufSize)[i], term) ==>
              Contains(FileBuffers(e, bufSize)[i], term)
  {
    var bufs, cs := FileBuffers(e, bufSize), Chunks(e.contents, 0, bufSize);
    BuffersShape(e.contents, 0, Zeros(bufSize));
    forall i | 0 <= i < |bufs| && Contains(cs[i], term) ensures Contains(bufs[i], term) {
      if i == 0 {
        ContainsInPrefix(cs[i], Zeros(bufSize)[|cs[i]|..], term);
      } else {
        ContainsInPrefix(cs[i], bufs[i - 1][|cs[i]|..], term);
      }
    }
  }

  /** Each byte the buffer of a file ever holds is zero or a byte of the
      file. */
  lemma FileBufferBytes(e: Entry, bufSize: nat)
    requires e.File? && bufSize > 0
    ensures forall i, j :: 0 <= i < |FileBuffers(e, bufSize)| && 0 <= j < |FileBuffers(e, bufSize)[i]| ==>
              FileBuffers(e, bufSize)[i][j] == 0 || FileBuffers(e, bufSize)[i][j] in e.contents
  {
    BufferBytes(e.contents, 0, Zeros(bufSize));
    assert e.contents[0..] == e.contents;
  }

  /** Bytes left over from the previous read still count: an occurrence
      of the term in buffer i-1 that lies wholly beyond the bytes read i
      overwrites is still in buffer i, which therefore contains the term,
      and if read i is one that succeeds it is one of the hits. (The bound
      on `i` against the chunks follows from the one against the buffers,
      by `BuffersShape`; it is stated so that chunk i can be named.) */
  lemma StaleOccurrenceCounts(e: Entry, term: seq<byte>, bufSize: nat, i: nat, j: nat)
    requires e.File? && bufSize > 0
    requires 0 < i < |FileBuffers(e, bufSize)|
    requires OccursAt(FileBuffers(e, bufSize)[i - 1], term, j)
    requires i < |Chunks(e.contents, 0, bufSize)| && |Chunks(e.contents, 0, bufSize)[i]| <= j
    ensures OccursAt(FileBuffers(e, bufSize)[i], term, j) && Contains(FileBuffers(e, bufSize)[i], term)
    ensures i < GoodReads(e, bufSize) ==> i in Matching(FileBuffers(e, bufSize)[..GoodReads(e, bufSize)], term)
  {
    var bufs, cs := FileBuffers(e, bufSize), Chunks(e.contents, 0, bufSize);
    BuffersShape(e.contents, 0, Zeros(bufSize));
    var prev, cur, m := bufs[i - 1], bufs[i], |cs[i]|;
    assert cur == cs[i] + prev[m..];
    assert |prev| == |cur|;
    forall k | j <= k < j + |term| ensures cur[k] == prev[k] {
      assert cur[k] == prev[m..][k - m];
    }
    assert cur[j..j + |term|] == prev[j..j + |term|];
    assert OccursAt(cur, term, j);
    if i < GoodReads(e, bufSize) {
      assert bufs[..GoodReads(e, bufSize)][i] == cur;
    }
  }

  /** The zero bytes `make` put in the buffer count: a non-empty file
      shorter than the buffer is read once, and that buffer contains the
      term `[0]` whatever the file holds; with nothing failing, one size
      is appended. */
  lemma ShortFileMatchesZero(e: Entry, bufSize: nat)
    requires e.File? && 0 < |e.contents| < bufSize
    ensures |FileBuffers(e, bufSize)| == 1 && Contains(FileBuffers(e, bufSize)[0], [0])
    ensures e.readFault.None? && e.infoErr.None? ==> Scan(e, [0], bufSize) == ScanResult(1, None)
  {
    var c := e.contents;
    var next := c + Zeros(bufSize - |c|);
    SingleRead(e, [0], bufSize);
    assert next[|c|..|c| + 1] == [0];
    assert OccursAt(next, [0], |c|);
    if e.readFault.None? && e.infoErr.None? {
      ScanClosedForm(e, [0], bufSize);
      assert FileBuffers(e, bufSize)[..GoodReads(e, bufSize)] == [next];
      assert Matching([next], [0]) == {0};
    }
  }

  /** A term with a non-zero byte that the file does not hold is never
      found, so nothing is appended and `Info` is never asked. */
  lemma ForeignTermNeverHits(e: Entry, term: seq<byte>, bufSize: nat)
    requires e.File? && bufSize > 0
    requires exists j :: 0 <= j < |term| && term[j] != 0 && term[j] !in e.contents
    ensures Hits(e, term, bufSize) == 0
    ensures Scan(e, term, bufSize) ==
            ScanResult(0, if ReadFails(e, bufSize) then Some(e.readFault.value.err) else None)
  {
    var j :| 0 <= j < |term| && term[j] != 0 && term[j] !in e.contents;
    var bufs := FileBuffers(e, bufSize);
    var good := bufs[..GoodReads(e, bufSize)];
    FileBufferBytes(e, bufSize);
    forall i | 0 <= i < |good| ensures !Contains(good[i], term) {
      assert good[i] == bufs[i];
      MissingByteNotContained(good[i], term, j);
    }
    assert Matching(good, term) == {};
    ScanClosedForm(e, term, bufSize);
  }

  /** At most one size is appended per read that returned data, so at most
      ceil(size / bufSize) in all. */
  lemma AppendedAtMostReads(e: Entry, term: seq<byte>, bufSize: nat)
    requires e.File? && bufSize > 0
    ensures Scan(e, term, bufSize).appended <= GoodReads(e, bufSize) <= |Chunks(e.contents, 0, bufSize)|
  {
    var good := FileBuffers(e, bufSize)[..GoodReads(e, bufSize)];
    ScanClosedForm(e, term, bufSize);
    CountIsMatching(good, term);
    BuffersShape(e.contents, 0, Zeros(bufSize));
  }

  /** A non-empty file no larger than the buffer is read once: the buffer
      then holds the file and zeros after it. If the file contains the
      term and nothing fails, exactly one size is appended. */
  lemma SingleRead(e: Entry, term: seq<byte>, bufSize: nat)
    requires e.File? && 0 < |e.contents| <= bufSize
    ensures FileBuffers(e, bufSize) == [e.contents + Zeros(bufSize - |e.contents|)]
    ensures e.readFault.None? && e.infoErr.None? && Contains(e.contents, term) ==>
              Scan(e, term, bufSize) == ScanResult(1, None)
  {
    var c := e.contents;
    var next := c[0..|c|] + Zeros(bufSize)[|c|..];
    assert next == c + Zeros(bufSize - |c|);
    assert FileBuffers(e, bufSize) == [next] + Buffers(c, |c|, next);
    if e.readFault.None? && e.infoErr.None? && Contains(c, term) {
      ContainsInPrefix(c, Zeros(bufSize - |c|), term);
      ScanClosedForm(e, term, bufSize);
      assert Matching([next], term) == {0};
      assert FileBuffers(e, bufSize)[..GoodReads(e, bufSize)] == [next];
    }
  }

  /** An empty file reports `io.EOF` on its first read, so nothing is
      appended and its path never becomes a key through it. */
  lemma EmptyFileAppendsNothing(e: Entry, term: seq<byte>, bufSize: nat)
    requires e.File? && bufSize > 0 && |e.contents| == 0
    ensures Scan(e, term, bufSize) ==
            ScanResult(0, if e.readFault.Some? && e.readFault.value.call == 0 then Some(e.readFault.value.err) else None)
  {
  }

  /** The term is tested on the whole buffer, so bytes left over from the
      previous read count: in a 6-byte file holding the term once, with a
      5-byte buffer, the second read leaves the term from the first read
      in place and a second size is appended. */
  lemma StaleBytesMatchAgain()
    ensures var e := File("a.log", [1, 2, 3, 4, 5, 9], None, None, None);
            (forall i :: OccursAt(e.contents, [2, 3], i) <==> i == 1) &&
            Scan(e, [2, 3], 5) == ScanResult(2, None)
  {
    var e := File("a.log", [1, 2, 3, 4, 5, 9], None, None, None);
    var c, t: seq<byte> := e.contents, [2, 3];
    assert OccursAt(c, t, 1);
    forall i | OccursAt(c, t, i) ensures i == 1 {
      assert c[i..i + 2][0] == c[i] == 2;
      assert i == 0 || i == 1 || i == 2 || i == 3 || i == 4;
    }
    var b1: seq<byte> := [1, 2, 3, 4, 5];
    var b2: seq<byte> := [9, 2, 3, 4, 5];
    assert OccursAt(b1, t, 1) && OccursAt(b2, t, 1);
    ScanFromRead(e, t, 0, Zeros(5), 0, 0, 5, b1);
    ScanFromRead(e, t, 5, b1, 1, 1, 1, b2);
    ScanFromEof(e, t, 6, b2, 2, 2);
  }

  /** The zero bytes `make` put in the buffer count too: a 1-byte file
      read into a 2-byte buffer matches the term `[0]`, which the file does
      not hold. */
  lemma ZeroPaddingMatches()
    ensures var e := File("z.log", [7], None, None, None);
            0 !in e.contents && Scan(e, [0], 2) == ScanResult(1, None)
  {
    var e := File("z.log", [7], None, None, None);
    var b: seq<byte> := [7, 0];
    assert OccursAt(b, [0], 1);
    ScanFromRead(e, [0], 0, Zeros(2), 0, 0, 1, b);
    ScanFromEof(e, [0], 1, b, 1, 1);
  }

  /** An occurrence split between two reads is missed: with a 2-byte
      buffer, `[2, 3]` in `[1, 2, 3, 4]` is never appended. */
  lemma StraddlingMatchMissed()
    ensures var e := File("s.log", [1, 2, 3, 4], None, None, None);
            OccursAt(e.contents, [2, 3], 1) && Scan(e, [2, 3], 2) == ScanResult(0, None)
  {
    var e := File("s.log", [1, 2, 3, 4], None, None, None);
    var t: seq<byte> := [2, 3];
    var b1: seq<byte> := [1, 2];
    var b2: seq<byte> := [3, 4];
    assert e.contents[1..3] == t;
    forall i | 0 <= i <= 0 ensures !OccursAt(b1, t, i) && !OccursAt(b2, t, i) {
      assert b1[0..2][0] == 1 && b2[0..2][0] == 3;
    }
    ScanFromRead(e, t, 0, Zeros(2), 0, 0, 2, b1);
    ScanFromRead(e, t, 2, b1, 1, 0, 2, b2);
    ScanFromEof(e, t, 4, b2, 2, 0);
  }
}