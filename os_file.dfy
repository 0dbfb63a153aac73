/** An open `*os.File` as main.go uses it: `f.Read(b)` fills the front of
    `b` from the current file offset and advances the offset. Operating
    system failures are given up front as a fault: the call number at which
    a read fails and the error it reports. */
module OsFile {
  import opened Prelude

  /** An error the operating system reports (a `*PathError` or errno);
      only its identity matters to the model. */
  datatype Error = OsError(code: nat)

  /** The `call`-th `Read` on the file (counting from 0) fails with `err`. */
  datatype ReadFault = ReadFault(call: nat, err: Error)

  /** What `Read` returned as its error: nil, `io.EOF` or another error. */
  datatype ReadStatus = Done | Eof | Failed(err: Error)

  class OpenFile {
    const data: seq<byte>
    const fault: Option<ReadFault>
    var offset: nat
    var calls: nat

    ghost predicate Valid()
      reads this
    {
      offset <= |data|
    }

    /** Whether the next `Read` is the one the fault makes fail. */
    predicate FailsNext()
      reads this
    {
      fault.Some? && fault.value.call == calls
    }

    /** `os.Open` that succeeded: the offset is at the start of the file. */
    constructor (data: seq<byte>, fault: Option<ReadFault>)
      ensures Valid()
      ensures this.data == data && this.fault == fault
      ensures offset == 0 && calls == 0
    {
      this.data := data;
      this.fault := fault;
      offset := 0;
      calls := 0;
    }

    /** `n, err := f.Read(b)`. A failing call changes nothing but the call
        count. An empty `b` reads nothing and reports no error. Otherwise,
        at the end of the file the call reports `io.EOF`; before it, it
        copies the next min(len(b), remaining) bytes into `b[0..n)`, leaves
        `b[n..]` as it was and moves the offset past them. */
    method Read(b: array<byte>) returns (n: nat, status: ReadStatus)
      requires Valid()
      modifies this, b
      ensures Valid() && calls == old(calls) + 1
      ensures old(FailsNext()) ==>
                status == Failed(fault.value.err) && n == 0 &&
                offset == old(offset) && b[..] == old(b[..])
      ensures !old(FailsNext()) && b.Length == 0 ==>
                status == Done && n == 0 && offset == old(offset)
      ensures !old(FailsNext()) && 0 < b.Length && old(offset) == |data| ==>
                status == Eof && n == 0 &&
                offset == old(offset) && b[..] == old(b[..])
      ensures !old(FailsNext()) && 0 < b.Length && old(offset) < |data| ==>
                status == Done && n == Min(b.Length, |data| - old(offset)) &&
                offset == old(offset) + n &&
                b[..] == data[old(offset)..offset] + old(b[..])[n..]
    {
      if FailsNext() {
        calls := calls + 1;
        return 0, Failed(fault.value.err);
      }
      calls := calls + 1;
      if b.Length == 0 {
        return 0, Done;
      }
      if offset == |data| {
        return 0, Eof;
      }
      n := Min(b.Length, |data| - offset);
      forall i | 0 <= i < n {
        b[i] := data[offset + i];
      }
      offset := offset + n;
      status := Done;
    }
  }
}
