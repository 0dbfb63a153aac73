/** `SerialParse` of main.go: a walk over the entries of a directory tree
    that, for every file, reads the file into one fixed-size buffer again
    and again and, each time the whole buffer contains the search term,
    appends the file's size to `out[path]`. */
module Parse {
  import opened Prelude
  import opened Bytes
  import opened OsFile

  type Path = string

  /** The map `out` that `SerialParse` builds: `map[string][]int64`. */
  type Found = map<Path, seq<int>>

  /** One call of the walk callback: a directory, or any other entry
      together with what the operating system does when the callback
      opens it (`os.Open`), reads it (`f.Read`) and asks for its size
      (`dir.Info`). */
  datatype Entry =
    | Dir(path: Path)
    | File(path: Path, contents: seq<byte>, openErr: Option<Error>,
           readFault: Option<ReadFault>, infoErr: Option<Error>)

  /** What `SerialParse` returns: the map and the walk's error. */
  datatype Outcome = Outcome(out: Found, err: Option<Error>)

  /** What reading one file does: how many sizes it appends to
      `out[path]` and the error the callback returns, if any. */
  datatype ScanResult = ScanResult(appended: nat, err: Option<Error>)

  /** The read loop of lines 47-64, from the state in which the file
      offset is `at`, the buffer holds `buf`, `calls` reads have been made
      and `hits` sizes appended. A read that fails ends the loop with its
      error; a read at the end of the file ends it with success; any other
      read overwrites the front of the buffer and, if the whole buffer
      then contains the term, asks for the file's size, which either fails
      or is appended. */
  function ScanFrom(e: Entry, term: seq<byte>, at: nat, buf: seq<byte>, calls: nat, hits: nat): ScanResult
    requires e.File? && at <= |e.contents| && |buf| > 0
    decreases |e.contents| - at
  {
    if e.readFault.Some? && e.readFault.value.call == calls then
      ScanResult(hits, Some(e.readFault.value.err))
    else if at == |e.contents| then
      ScanResult(hits, None)
    else
      var n := Min(|buf|, |e.contents| - at);
      var next := e.contents[at..at + n] + buf[n..];
      if !Contains(next, term) then
        ScanFrom(e, term, at + n, next, calls + 1, hits)
      else if e.infoErr.Some? then
        ScanResult(hits, e.infoErr)
      else
        ScanFrom(e, term, at + n, next, calls + 1, hits + 1)
  }

  /** The read loop on a freshly opened file and a zeroed buffer. */
  function Scan(e: Entry, term: seq<byte>, bufSize: nat): ScanResult
    requires e.File? && bufSize > 0
  {
    ScanFrom(e, term, 0, Zeros(bufSize), 0, 0)
  }

  /** `out[p]`, which is the nil slice for a missing key. */
  function Lookup(m: Found, p: Path): seq<int>
  {
    if p in m then m[p] else []
  }

  /** `out[p] = append(out[p], v)`. */
  function AppendOne(m: Found, p: Path, v: int): Found
  {
    m[p := Lookup(m, p) + [v]]
  }

  /** `k` times `out[p] = append(out[p], v)`. */
  function AppendN(m: Found, p: Path, v: int, k: nat): Found
  {
    if k == 0 then m else m[p := Lookup(m, p) + Repeat(v, k)]
  }

  /** The size `dir.Info()` reports for a file. */
  function Size(e: Entry): int
  {
    if e.File? then |e.contents| else 0
  }

  /** How many sizes the callback for `e` appends to `out[e.path]`. */
  function Appended(e: Entry, term: seq<byte>, bufSize: nat): nat
    requires bufSize > 0
  {
    if e.Dir? || e.openErr.Some? then 0 else Scan(e, term, bufSize).appended
  }

  /** The error the callback for `e` returns: none for a directory, the
      error of a failed open, else whatever ends the read loop. */
  function EntryError(e: Entry, term: seq<byte>, bufSize: nat): Option<Error>
    requires bufSize > 0
  {
    if e.Dir? then None
    else if e.openErr.Some? then e.openErr
    else Scan(e, term, bufSize).err
  }

  /** The effect of one callback on `out` and the error it returns. */
  function VisitSpec(e: Entry, term: seq<byte>, bufSize: nat, out: Found): Outcome
    requires bufSize > 0
  {
    Outcome(AppendN(out, e.path, Size(e), Appended(e, term, bufSize)), EntryError(e, term, bufSize))
  }

  /** The walk: callbacks in order, stopping at the first error. */
  function Walk(es: seq<Entry>, term: seq<byte>, bufSize: nat, out: Found): Outcome
    requires bufSize > 0
    decreases |es|
  {
    if es == [] then Outcome(out, None) else
    var r := VisitSpec(es[0], term, bufSize, out);
    if r.err.Some? then r else Walk(es[1..], term, bufSize, r.out)
  }

  lemma AppendNSnoc(m: Found, p: Path, v: int, k: nat)
    ensures AppendN(m, p, v, k + 1) == AppendOne(AppendN(m, p, v, k), p, v)
  {
    var old_ := Lookup(m, p);
    assert Repeat(v, k + 1) == Repeat(v, k) + [v];
    if k == 0 {
      assert Lookup(AppendN(m, p, v, k), p) + [v] == old_ + Repeat(v, 1);
    } else {
      assert Lookup(AppendN(m, p, v, k), p) == old_ + Repeat(v, k);
      assert old_ + Repeat(v, k + 1) == (old_ + Repeat(v, k)) + [v];
    }
  }

  lemma ScanFromFault(e: Entry, term: seq<byte>, at: nat, buf: seq<byte>, calls: nat, hits: nat)
    requires e.File? && at <= |e.contents| && |buf| > 0
    requires e.readFault.Some? && e.readFault.value.call == calls
    ensures ScanFrom(e, term, at, buf, calls, hits) == ScanResult(hits, Some(e.readFault.value.err))
  {
  }

  lemma ScanFromEof(e: Entry, term: seq<byte>, at: nat, buf: seq<byte>, calls: nat, hits: nat)
    requires e.File? && at == |e.contents| && |buf| > 0
    requires !(e.readFault.Some? && e.readFault.value.call == calls)
    ensures ScanFrom(e, term, at, buf, calls, hits) == ScanResult(hits, None)
  {
  }

  lemma ScanFromRead(e: Entry, term: seq<byte>, at: nat, buf: seq<byte>, calls: nat, hits: nat,
                     n: nat, next: seq<byte>)
    requires e.File? && at < |e.contents| && |buf| > 0
    requires !(e.readFault.Some? && e.readFault.value.call == calls)
    requires n == Min(|buf|, |e.contents| - at) && next == e.contents[at..at + n] + buf[n..]
    ensures ScanFrom(e, term, at, buf, calls, hits) ==
            if !Contains(next, term) then ScanFrom(e, term, at + n, next, calls + 1, hits)
            else if e.infoErr.Some? then ScanResult(hits, e.infoErr)
            else ScanFrom(e, term, at + n, next, calls + 1, hits + 1)
  {
  }

  lemma ScanFromMiss(e: Entry, term: seq<byte>, at: nat, buf: seq<byte>, calls: nat, hits: nat,
                     n: nat, next: seq<byte>)
    requires e.File? && at < |e.contents| && |buf| > 0
    requires !(e.readFault.Some? && e.readFault.value.call == calls)
    requires n == Min(|buf|, |e.contents| - at) && next == e.contents[at..at + n] + buf[n..]
    requires !Contains(next, term)
    ensures ScanFrom(e, term, at, buf, calls, hits) == ScanFrom(e, term, at + n, next, calls + 1, hits)
  {
  }

  lemma ScanFromHit(e: Entry, term: seq<byte>, at: nat, buf: seq<byte>, calls: nat, hits: nat,
                    n: nat, next: seq<byte>)
    requires e.File? && at < |e.contents| && |buf| > 0
    requires !(e.readFault.Some? && e.readFault.value.call == calls)
    requires n == Min(|buf|, |e.contents| - at) && next == e.contents[at..at + n] + buf[n..]
    requires Contains(next, term)
    ensures ScanFrom(e, term, at, buf, calls, hits) ==
            if e.infoErr.Some? then ScanResult(hits, e.infoErr)
            else ScanFrom(e, term, at + n, next, calls + 1, hits + 1)
  {
  }

  /** The callback of lines 32-67 for one entry: directories are skipped;
      a file gets a zeroed buffer of `bufSize` bytes and is opened and read. */
  method Visit(e: Entry, term: seq<byte>, bufSize: nat, out: Found)
    returns (out': Found, err: Option<Error>)
    requires bufSize > 0
    ensures Outcome(out', err) == VisitSpec(e, term, bufSize, out)
  {
    if e.Dir? {
      return out, None;
    }
    var b := new byte[bufSize](_ => 0);
    if e.openErr.Some? {
      return out, e.openErr;
    }
    var f := new OpenFile(e.contents, e.readFault);
    assert b[..] == Zeros(bufSize);
    out', err := ReadLoop(e, term, f, b, out);
  }

  /** The loop of lines 47-64 on the opened file `f`: read into `b` until
      `io.EOF` or an error and, whenever all of `b` contains the term,
      append the file's size to `out[path]`. */
  method ReadLoop(e: Entry, term: seq<byte>, f: OpenFile, b: array<byte>, out: Found)
    returns (out': Found, err: Option<Error>)
    requires e.File? && e.openErr.None? && b.Length > 0
    requires f.Valid() && f.data == e.contents && f.fault == e.readFault
    requires f.offset == 0 && f.calls == 0 && b[..] == Zeros(b.Length)
    modifies f, b
    ensures out' == AppendN(out, e.path, |e.contents|, Scan(e, term, b.Length).appended)
    ensures err == Scan(e, term, b.Length).err
  {
    ghost var goal := Scan(e, term, b.Length);
    var hits := 0;
    out' := out;
    while true
      invariant f.Valid() && f.data == e.contents && f.fault == e.readFault
      invariant goal == ScanFrom(e, term, f.offset, b[..], f.calls, hits)
      invariant out' == AppendN(out, e.path, |e.contents|, hits)
      decreases |f.data| - f.offset
    {
      var stop;
      stop, out', hits, err := ReadOnce(e, term, f, b, out, out', hits);
      if stop {
        return;
      }
    }
  }

  /** One pass of the loop body, lines 48-63: read into `b`; stop on
      `io.EOF` or a failure; if all of `b` contains the term, ask for the
      size, which either stops the loop with its error or is appended. */
  method ReadOnce(e: Entry, term: seq<byte>, f: OpenFile, b: array<byte>, ghost out: Found, out': Found, hits: nat)
    returns (stop: bool, out'': Found, hits': nat, err: Option<Error>)
    requires e.File? && b.Length > 0
    requires f.Valid() && f.data == e.contents && f.fault == e.readFault
    requires out' == AppendN(out, e.path, |e.contents|, hits)
    modifies f, b
    ensures f.Valid() && out'' == AppendN(out, e.path, |e.contents|, hits')
    ensures stop ==> old(ScanFrom(e, term, f.offset, b[..], f.calls, hits)) == ScanResult(hits', err)
    ensures !stop ==> old(ScanFrom(e, term, f.offset, b[..], f.calls, hits)) == ScanFrom(e, term, f.offset, b[..], f.calls, hits')
    ensures !stop ==> old(f.offset) < f.offset
  {
    ghost var at, prev, calls := f.offset, b[..], f.calls;
    var n, status := f.Read(b);
    if status.Failed? {
      ScanFromFault(e, term, at, prev, calls, hits);
      return true, out', hits, Some(status.err);
    }
    if status.Eof? {
      ScanFromEof(e, term, at, prev, calls, hits);
      return true, out', hits, None;
    }
    assert at < |f.data| && f.offset == at + n && f.calls == calls + 1;
    assert b[..] == e.contents[at..at + n] + prev[n..];
    stop, out'', hits', err := OnData(e, term, b, out, out', hits, at, prev, calls, n);
  }

  /** Lines 56-63, after a read that returned `n` bytes: when all of `b`
      contains the term, ask for the file's size and append it, or stop
      with the error `dir.Info` reports. */
  method OnData(e: Entry, term: seq<byte>, b: array<byte>, ghost out: Found, out': Found, hits: nat,
                ghost at: nat, ghost prev: seq<byte>, ghost calls: nat, ghost n: nat)
    returns (stop: bool, out'': Found, hits': nat, err: Option<Error>)
    requires e.File? && at < |e.contents| && |prev| > 0
    requires !(e.readFault.Some? && e.readFault.value.call == calls)
    requires n == Min(|prev|, |e.contents| - at) && b[..] == e.contents[at..at + n] + prev[n..]
    requires out' == AppendN(out, e.path, |e.contents|, hits)
    ensures out'' == AppendN(out, e.path, |e.contents|, hits')
    ensures stop ==> ScanFrom(e, term, at, prev, calls, hits) == ScanResult(hits', err)
    ensures !stop ==> ScanFrom(e, term, at, prev, calls, hits) == ScanFrom(e, term, at + n, b[..], calls + 1, hits')
  {
    if Contains(b[..], term) {
      ScanFromHit(e, term, at, prev, calls, hits, n, b[..]);
      if e.infoErr.Some? {
        return true, out', hits, e.infoErr;
      }
      AppendNSnoc(out, e.path, |e.contents|, hits);
      return false, AppendOne(out', e.path, |e.contents|), hits + 1, None;
    }
    ScanFromMiss(e, term, at, prev, calls, hits, n, b[..]);
    return false, out', hits, None;
  }

  /** `SerialParse(dir, term, bufSize)` over the walk's entries, in the
      order the walk visits them. */
  method SerialParse(entries: seq<Entry>, term: seq<byte>, bufSize: nat)
    returns (out: Found, err: Option<Error>)
    requires bufSize > 0
    ensures Outcome(out, err) == Walk(entries, term, bufSize, map[])
  {
    out, err := map[], None;
    var i := 0;
    while i < |entries|
      invariant 0 <= i <= |entries| && err.None?
      invariant Walk(entries, term, bufSize, map[]) == Walk(entries[i..], term, bufSize, out)
    {
      assert entries[i..][1..] == entries[i + 1..];
      out, err := Visit(entries[i], term, bufSize, out);
      if err.Some? {
        return;
      }
      i := i + 1;
    }
  }
}
