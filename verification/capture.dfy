/** The capture-file side of the two file-to-file drivers, at the level the
    drivers see it: the outcomes of successive record reads, the records they
    write, and the fixed header they write first.  Reading and writing the
    container bytes belong to the capture-file library. */
module Capture {
  import opened Wrappers
  import opened Layers
  import opened Pipeline

  /** Per-record metadata: timestamp, captured and original length, and the
      interface the frame came from. */
  datatype CaptureInfo = CaptureInfo(seconds: int, nanos: nat, captureLength: nat, length: nat, interfaceIndex: int)

  /** What one call of the reader's read-next-record gives back: a frame with
      its metadata, an error, or end of file. */
  datatype ReadOutcome =
    | Read(data: Bytes, info: CaptureInfo)
    | ReadError(reason: string)
    | EndOfFile

  /** One record handed to the writer. */
  datatype Record = Record(info: CaptureInfo, data: Bytes)

  datatype FileHeader = FileHeader(snapLen: nat, linkType: nat)

  /** An opened input capture: its header and the outcomes its reads give. */
  datatype InputFile = InputFile(header: FileHeader, outcomes: seq<ReadOutcome>)

  datatype OutputFile = OutputFile(header: FileHeader, records: seq<Record>)

  /** The setup steps a driver performs before its loop, any of which ends
      the run with an error. */
  datatype SetupError = OpenInputFailed | CreateReaderFailed | CreateOutputFailed | WriteHeaderFailed

  const SnapLen: nat := 65536
  const LinkTypeEthernet: nat := 1

  /** The header both drivers write, whatever the input's header says. */
  const OutputHeader: FileHeader := FileHeader(SnapLen, LinkTypeEthernet)

  /** The outcomes a driver's loop actually handles: everything before the
      first end of file (the loop breaks there). */
  function UntilEnd(outcomes: seq<ReadOutcome>): (r: seq<ReadOutcome>)
    ensures |r| <= |outcomes| && r == outcomes[..|r|]
    ensures forall j :: 0 <= j < |r| ==> !r[j].EndOfFile?
    ensures |r| < |outcomes| ==> outcomes[|r|].EndOfFile?
  {
    if |outcomes| == 0 || outcomes[0].EndOfFile? then [] else [outcomes[0]] + UntilEnd(outcomes[1..])
  }

  /** A prefix free of end-of-file markers that stops at one (or at the end)
      is the handled part of the stream. */
  lemma UntilEndAt(outcomes: seq<ReadOutcome>, i: nat)
    requires i <= |outcomes|
    requires EndOfFile !in outcomes[..i]
    requires i == |outcomes| || outcomes[i].EndOfFile?
    ensures UntilEnd(outcomes) == outcomes[..i]
  {
  }

  /** The record a successful read would be written as, verbatim. */
  function ReadRecord(o: ReadOutcome): Option<Record>
  {
    if o.Read? then Some(Record(o.info, o.data)) else None
  }

  /** The records the reader produced successfully, in order. */
  function SuccessfulReads(outcomes: seq<ReadOutcome>): seq<Record>
  {
    Collect(outcomes, ReadRecord)
  }

  /** The read loop both drivers run: read until end of file, skip read
      errors, hand every frame to `handle`, and write what it gives back.
      `readCount` counts the successful reads and `writeCount` the records
      written.  `handle` only ever writes something for a frame. */
  method Drive<B>(outcomes: seq<ReadOutcome>, handle: ReadOutcome -> Option<B>)
    returns (out: seq<B>, readCount: nat, writeCount: nat)
    requires forall o: ReadOutcome :: !o.Read? ==> handle(o).None?
    ensures out == Collect(UntilEnd(outcomes), handle)
    ensures readCount == |SuccessfulReads(UntilEnd(outcomes))|
    ensures writeCount == |out|
  {
    out, readCount, writeCount := [], 0, 0;
    var i := 0;
    while i < |outcomes|
      invariant 0 <= i <= |outcomes|
      invariant EndOfFile !in outcomes[..i]
      invariant out == Collect(outcomes[..i], handle)
      invariant readCount == |SuccessfulReads(outcomes[..i])|
      invariant writeCount == |out|
    {
      if outcomes[i].EndOfFile? {
        break;
      }
      CollectNext(outcomes, i, handle);
      CollectNext(outcomes, i, ReadRecord);
      assert outcomes[..i + 1] == outcomes[..i] + [outcomes[i]];
      if outcomes[i].Read? {
        readCount := readCount + 1;
        var result := handle(outcomes[i]);
        if result.Some? {
          out := out + [result.value];
          writeCount := writeCount + 1;
        }
      }
      i := i + 1;
    }
    UntilEndAt(outcomes, i);
  }
}
