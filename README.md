# readfile: a Dafny model of `SerialParse` and `readBinary`

This project models the two pieces of logic in `main.go` of the Go
repository steveQuadros/readfile.

`SerialParse(dir, term, bufSize)` walks a directory tree. For every entry
that is not a directory it does the following:

- it allocates one zeroed buffer of `bufSize` bytes and opens the file;
- it reads the file into that same buffer again and again until `io.EOF`;
- after each read, if the whole buffer contains `term`, it asks the entry
  for its `os.FileInfo` and appends the file's size to `out[path]`.

The first error from `os.Open`, `f.Read` (other than `io.EOF`) or
`dir.Info` ends the walk. That error is returned together with the map
built so far.

`readBinary` builds "Hello World!" repeated 100 times. It then decodes the
slice with `binary.Read` into a 10-byte slice until `io.EOF`. Each pass
prints the failure, if any, and then, unless the failure was `io.EOF`, the
slice.

## Layout

- `prelude.dfy` (`Prelude`): bytes, `Option`, zeroed and repeated
  sequences.
- `bytes.dfy` (`Bytes`): `bytes.Contains` as the existence of an
  occurrence.
- `os_file.dfy` (`OsFile`): an open `*os.File` as a class.
  - Its `offset` and read-call count are updated in place.
  - `Read` copies the next min(len(b), remaining) bytes into the front of
    the buffer array and leaves the rest of the array as it was.
  - A failure of the operating system is given up front as the number of
    the call that fails.
- `parse.dfy` (`Parse`): the walk callback and `SerialParse` as methods.
  - The read loop works on an `array<byte>` buffer and an `OpenFile`.
  - Each method is proved equal to the specification functions `ScanFrom`,
    `Scan`, `VisitSpec` and `Walk`.
  - The walk is a given sequence of entries, in the order `filepath.WalkDir`
    visits them. Each entry says what opening it, reading it and calling
    `Info` on it do.
- `scan_props.dfy` (`ScanProps`): what the read loop computes for one
  file, in closed form.
  - The file is split into consecutive chunks.
  - The buffer after each read is the chunk followed by the stale rest of
    the previous buffer.
  - `Scan` appends one size per buffer that contains the term and returns
    the read error or `Info` error.
  - Concrete cases show the consequences of testing the whole buffer.
- `walk_props.dfy` (`WalkProps`): properties of the whole walk.
  - Directories are skipped.
  - The walk stops at the first error and keeps the map built so far.
  - What keys can appear.
  - All values for a path are the size of that file.
  - The exact map when nothing fails.
- `read_binary.dfy` (`ReadBinary`): `readBinary`.
  - A `bytes.Reader` class.
  - The build loop and the decode loop as methods.
  - `Transcript`, the sequence of printed lines, as the specification.
  - Lemmas about the 1200-byte input.

## Model

| member | source | states |
|---|---|---|
| Bytes.Contains | main.go:56 | `bytes.Contains(b, termBytes)`: some index of `s` starts a contiguous copy of `t` (its facts are stated by `Bytes.ContainsSpec`) |
| Bytes.ContainsSpec | main.go:56 | the empty `t` is contained in every `s`, a prefix of `s` is contained in it, and a contained `t` is no longer than `s` |
| Parse.SerialParse | main.go:30-69 | returns exactly the map and error of the walk from an empty map: callbacks in walk order, stopping at and returning the first callback error with the map built so far |
| Parse.Visit | main.go:32-67 | a directory returns nil and leaves `out` alone; otherwise a failing open returns its error with `out` unchanged, and a successful open runs the read loop on a zeroed `bufSize` buffer |
| Parse.ReadLoop | main.go:47-64 | on a freshly opened file and zeroed buffer, the loop appends the file size `Scan(...).appended` times to `out[path]` and returns `Scan(...).err` |
| Parse.ReadOnce | main.go:48-63 | one pass of the loop body: a failing read stops with its error, an `io.EOF` read stops with success, any other read advances the offset and leaves the rest of the scan unchanged |
| Parse.OnData | main.go:56-63 | after a read, a buffer containing the term either stops the loop with the `Info` error or appends exactly one size; a buffer without the term appends nothing |
| Parse.AppendNSnoc | main.go:62 | one more `append(out[path], v)` on k appends is k+1 appends of `v` to what `out[path]` held before |
| OsFile.OpenFile.constructor | main.go:38 | a successfully opened file starts at offset 0 with no reads made |
| OsFile.OpenFile.Read | main.go:48 | a faulting call reports its error and changes nothing else; at the end of the data it reports `io.EOF`; otherwise it fills `b[0..n)` from the offset with n = min(len(b), remaining), keeps `b[n..]` and advances the offset by n |
| ScanProps.ScanFromClosed | main.go:47-64 | the loop equals the closed form: the number of buffers containing the term before the faulting read, or the `Info` error at the first such buffer |
| ScanProps.ScanClosedForm | main.go:47-64 | from a zeroed buffer: `Scan` appends `Hits` sizes and returns the read error if a read fails, except that with a hit and a failing `Info` it appends nothing and returns that error |
| ScanProps.CountIsMatching | main.go:56-62 | the number of appends counted over the buffers equals the size of the set of read indices whose buffer contains the term |
| ScanProps.BuffersShape | main.go:36-48 | one buffer per chunk, each of `bufSize` bytes; the first is its chunk followed by the zeroed tail, and every later one is its chunk followed by the previous buffer beyond the chunk's length |
| ScanProps.ChunksFlatten | main.go:47-48 | the chunks successive reads take, concatenated, are exactly the file from the starting offset |
| ScanProps.ChunkSizes | main.go:48 | every chunk is non-empty and at most `bufSize` bytes, and every chunk but the last is exactly `bufSize` bytes |
| ScanProps.ChunkCount | main.go:47-48 | the number of reads that return data is the least k with k * bufSize >= the bytes left |
| ScanProps.ChunkMatchDetected | main.go:48-56 | a read whose own chunk contains the term always finds it, because the buffer starts with that chunk |
| ScanProps.FileBufferBytes | main.go:36-48 | every byte the buffer ever holds is a zero from `make` or a byte of the file |
| ScanProps.ForeignTermNeverHits | main.go:56-62 | a term with a non-zero byte absent from the file never hits: nothing is appended and the only possible error is the read error |
| ScanProps.AppendedAtMostReads | main.go:47-64 | at most one size is appended per read that returned data, so never more than the number of chunks |
| ScanProps.EmptyFileAppendsNothing | main.go:47-54 | an empty file appends nothing: its first read reports `io.EOF`, or fails with the fault of call 0 |
| ScanProps.SingleRead | main.go:36-62 | a non-empty file no larger than the buffer gives a single buffer (the file and zeros); if it contains the term and nothing fails, exactly one size is appended with no error |
| ScanProps.StaleBytesMatchAgain | main.go:48-56 | a 6-byte file holding the term once, read with a 5-byte buffer, gets two sizes appended, because the second read leaves the first read's occurrence in `b[1..]` |
| ScanProps.ZeroPaddingMatches | main.go:36-56 | on the file [7] with a 2-byte buffer, the term [0], which the file does not hold, matches the zero `make` left and one size is appended |
| ScanProps.ShortFileMatchesZero | main.go:36-56 | for every non-empty file shorter than the buffer, the one buffer contains the term [0] because of the zero padding, and with nothing failing one size is appended |
| ScanProps.StraddlingMatchMissed | main.go:48-56 | on the file [1,2,3,4] with a 2-byte buffer, the occurrence of [2,3] split between the two reads is in neither buffer [1,2] nor [3,4], so nothing is appended |
| ScanProps.StaleOccurrenceCounts | main.go:36-56 | for every file, an occurrence in buffer i-1 lying wholly beyond the bytes read i overwrites is still in buffer i, so buffer i contains the term and, if read i succeeds, counts as a hit |
| WalkProps.WalkSkipsDirs | main.go:33-35 | the walk over all entries equals the walk over the non-directory entries alone |
| WalkProps.WalkNoErrorIff | main.go:32-68 | the walk returns no error if and only if no entry's callback returns an error |
| WalkProps.WalkStopsAtFirstError | main.go:32-68 | when entry k is the first whose callback fails, the result is that callback applied to the map of the error-free walk over the entries before k |
| WalkProps.WalkExtends | main.go:62-68 | whatever the walk ends with, every key already present keeps its earlier values as a prefix, so files visited before a failure keep their entries |
| WalkProps.VisitExtends | main.go:62 | a callback keeps every stored slice as a prefix of the new one: it only appends |
| WalkProps.WalkKeys | main.go:31-62 | keys are never removed; a new key is the path of a file that appended; with no error every path that appended is a key |
| WalkProps.VisitStoresSizes | main.go:57-62 | after a callback, every stored value is still the size of some visited file at that path |
| WalkProps.WalkStoresSizes | main.go:57-62 | every value the walk stores for a path is the size of a visited file at that path |
| WalkProps.OneSizePerPath | main.go:57-62 | when the files' paths are distinct (directory paths may repeat, as a directory whose listing fails is passed twice), every value of `out[path]` is the size of the file at that path, so all values of one path are equal |
| WalkProps.WalkExact | main.go:31-62 | with distinct file paths (directory paths may repeat) not yet in `out` and no error, each path that appended maps to its size repeated once per hit, and every key already in `out` keeps its value |
| WalkProps.LockedDirWalk | main.go:32-62 | a root holding an unreadable directory, passed to the callback twice, and one file containing the term: entry paths repeat, file paths do not, and the walk ends without error with the file's size stored once |
| WalkProps.SmallFilesOneHit | main.go:30-69 | when every entry is a distinct file with no faults, no larger than the buffer and containing the term, there is no error, one key per file, and each file's slice is its size once |
| WalkProps.OneHitPerSmallFile | main_test.go:18-26 | the scenario TestSerialParse intends: a walk that may include directory entries (the temp directory comes first) and whose files are distinct, fault-free, no larger than the buffer and contain the term ends without error, with one key per file and each file's slice its size once. The fixture at main_test.go:106-131 never rewinds its source, so by its text all files after the first are empty, and an empty file appends nothing (`ScanProps.EmptyFileAppendsNothing`) |
| ReadBinary.Reader.constructor | main.go:77 | `bytes.NewReader(b)` starts at position 0 |
| ReadBinary.Reader.ReadInto | main.go:81 | a full read stores the next `len(out)` bytes and advances; at the end it reports `io.EOF`; a short read consumes the rest, keeps `out` and reports `io.ErrUnexpectedEOF` |
| ReadBinary.ReadBinaryLines | main.go:71-90 | what `readBinary` prints is `Transcript` of the 100-fold "Hello World!" slice, read from position 0 with a zeroed 10-byte slice |
| ReadBinary.DecodeLoop | main.go:80-89 | the decode loop prints exactly `Transcript` of the reader's data from position 0 with the slice's initial contents |
| ReadBinary.DecodeOnce | main.go:81-88 | one pass: `io.EOF` prints its failure and returns; a full read prints the new record; a short read prints its failure and the stale record |
| ReadBinary.TranscriptWhole | main.go:80-89 | when the bytes left are k records, the loop prints k records of the slice's length, then `io.EOF`, and the records concatenate to the bytes left |
| ReadBinary.InputShape | main.go:72-76 | the built slice is 1200 bytes that are "Hello World!" in each 12-byte block |
| ReadBinary.ReadBinaryOutput | main.go:72-88 | `readBinary` prints 120 ten-byte records, which concatenate back to the built slice, then the `io.EOF` failure |
| ReadBinary.ShortTailReprintsRecord | main.go:80-89 | a 15-byte slice prints its first record, the `io.ErrUnexpectedEOF` failure, the same record again, then `io.EOF` |

## Left out

- `main` (main.go:14-23) only prints the entries of a walk; it is I/O.
- `writeBin` (main.go:92-135) copies a log file into a binary file. It is file I/O, logging and `binary.Write`, with no values to state.
- `filepath.WalkDir` is not modelled. The walk is a given sequence of entries in visiting order.
  - A missing root makes the walk call the callback with a nil `DirEntry`, and `dir.IsDir()` would then panic. The model assumes every entry exists.
  - The callback's incoming `err` argument is ignored by the code, so it is not modelled either.
- `os.Open`, `f.Read` and `dir.Info` are collapsed to what they return: data, `io.EOF` or an opaque error. `Read` never returns a short count before the end of a regular file in this model.
- Each entry has a fixed error for `dir.Info`, so `Info` fails on every call to it for that entry or never fails.
- The deferred `f.Close()` (main.go:42-44) assigns to the callback's `err` parameter, not to its unnamed result. It therefore cannot change what the callback returns and is not modelled.
- The size `Info` reports is taken to be the length of the contents read. Symlinks and files changed during the walk are not modelled.
- Sizes are `int`, not `int64`; no file is large enough for the width to matter.
- `term` is given as bytes; the conversion `[]byte(term)` of a Go string is not modelled.
- `Parse.SerialParse`: requires `bufSize > 0`. With 0, the walk loops forever once a file opens, because `f.Read` then returns 0 bytes and no error every time; a negative size panics at `make` once the first non-directory entry is reached. A walk that reaches no such entry, or whose first file fails to open, would return normally; the model does not cover those walks with `bufSize <= 0`.
- `Parse.Visit`, `Parse.ReadLoop`, `Parse.ReadOnce`: same `bufSize > 0` (a non-empty buffer) requirement as `SerialParse`.
- `ParallelParse` and `ParseResult`, used by main_test.go:29-40 and main_test.go:70, are not defined in main.go and are not part of this model.
- The tests check that every stored value is an offset at which the term occurs (main_test.go:83-87). The code stores the file's size instead, so the model states that every value is the size (`WalkProps.OneSizePerPath`) and not the tests' claim.
- The text of what is printed (`fmt.Println`, `string(out)`) is not modelled; `ReadBinary` models each printed line as a value.
- `binary.Read` is modelled only for a byte-slice target. Its decoding of other types by reflection is not modelled.
- The test fixtures `CreateTestFiles` and `CleanupTestFiles` (main_test.go:94-144) are temporary-directory I/O.
