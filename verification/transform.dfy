/** The transform driver: read every record, decode it, pass it through the
    sanitizer, write the packets it keeps, and count what was read and what
    was kept. */
module Transform {
  import opened Wrappers
  import opened Layers
  import opened Pipeline
  import opened Capture
  import opened Sanitizer

  /** What the loop makes of one read outcome: the record as it was read,
      or nothing when the read failed, the frame does not decode, the
      sanitizer drops it or the writer refuses it. */
  function TransformStep(o: ReadOutcome, codec: Codec, showIP: IPAddr -> string,
                         writeOk: (CaptureInfo, Bytes) -> bool): (r: Option<Record>)
    ensures r.Some? <==> o.Read? && !HasErrorLayer(NewPacket(o.data, codec))
                         && !Drops(NewPacket(o.data, codec), BlockedIPs, showIP) && writeOk(o.info, o.data)
    ensures r.Some? ==> r.value == Record(o.info, o.data)
  {
    match o
    case Read(data, info) =>
      var packet := NewPacket(data, codec);
      if HasErrorLayer(packet) then None
      else
        var (kept, keep) := SanitizePacket(packet, BlockedIPs, showIP);
        if !keep || kept.None? then None
        else if writeOk(info, kept.value.data) then Some(Record(info, kept.value.data))
        else None
    case _ => None
  }

  function Step(codec: Codec, showIP: IPAddr -> string,
                writeOk: (CaptureInfo, Bytes) -> bool): ReadOutcome -> Option<Record>
  {
    o => TransformStep(o, codec, showIP, writeOk)
  }

  /** The records the driver writes for a stream of read outcomes. */
  function Kept(outcomes: seq<ReadOutcome>, codec: Codec, showIP: IPAddr -> string,
                writeOk: (CaptureInfo, Bytes) -> bool): seq<Record>
  {
    Collect(UntilEnd(outcomes), Step(codec, showIP, writeOk))
  }

  datatype TransformReport = TransformReport(file: OutputFile, total: nat, kept: nat)

  /** The driver.  `setup` is the first setup step that failed, if any;
      `writeOk` is the writer's verdict on each record.  `total` counts the
      successful reads and `kept` the successful writes. */
  method Run(setup: Option<SetupError>, input: InputFile, codec: Codec, showIP: IPAddr -> string,
             writeOk: (CaptureInfo, Bytes) -> bool)
    returns (r: Result<TransformReport, SetupError>)
    ensures setup.Some? ==> r == Failure(setup.value)
    ensures setup.None? ==> r.Success?
    ensures r.Success? ==> r.value.file.header == OutputHeader
    ensures r.Success? ==> r.value.file.records == Kept(input.outcomes, codec, showIP, writeOk)
    ensures r.Success? ==> r.value.total == |SuccessfulReads(UntilEnd(input.outcomes))|
    ensures r.Success? ==> r.value.kept == |r.value.file.records| <= r.value.total
  {
    if setup.Some? {
      return Failure(setup.value);
    }
    var records, total, kept := Drive(input.outcomes, Step(codec, showIP, writeOk));
    KeptWithinRead(input.outcomes, codec, showIP, writeOk);
    return Success(TransformReport(OutputFile(OutputHeader, records), total, kept));
  }

  /** The written records are, in input order, exactly the successfully
      read frames that decode, that the sanitizer does not drop and that the
      writer accepts, each written with the bytes and capture metadata it was
      read with. */
  lemma {:induction false} KeptInOrder(outcomes: seq<ReadOutcome>, codec: Codec, showIP: IPAddr -> string,
                                       writeOk: (CaptureInfo, Bytes) -> bool)
    returns (idx: seq<nat>)
    ensures var handled, out := UntilEnd(outcomes), Kept(outcomes, codec, showIP, writeOk);
      && |idx| == |out|
      && (forall j, k :: 0 <= j < k < |idx| ==> idx[j] < idx[k])
      && (forall k :: 0 <= k < |idx| ==>
            idx[k] < |handled| && handled[idx[k]].Read?
            && out[k] == Record(handled[idx[k]].info, handled[idx[k]].data))
      && (forall i :: 0 <= i < |handled| ==>
            (i in idx <==>
               && handled[i].Read?
               && !HasErrorLayer(NewPacket(handled[i].data, codec))
               && !Drops(NewPacket(handled[i].data, codec), BlockedIPs, showIP)
               && writeOk(handled[i].info, handled[i].data)))
  {
    var handled := UntilEnd(outcomes);
    var f := Step(codec, showIP, writeOk);
    idx := CollectIndices(handled, f);
    forall i | 0 <= i < |handled|
      ensures f(handled[i]).Some? <==>
               && handled[i].Read?
               && !HasErrorLayer(NewPacket(handled[i].data, codec))
               && !Drops(NewPacket(handled[i].data, codec), BlockedIPs, showIP)
               && writeOk(handled[i].info, handled[i].data)
    {
    }
  }

  /** Every written record is a record that was read: the output never
      holds more records than were successfully read. */
  lemma {:induction false} KeptWithinRead(outcomes: seq<ReadOutcome>, codec: Codec, showIP: IPAddr -> string,
                                          writeOk: (CaptureInfo, Bytes) -> bool)
    ensures |Kept(outcomes, codec, showIP, writeOk)| <= |SuccessfulReads(UntilEnd(outcomes))|
  {
    var f := Step(codec, showIP, writeOk);
    assert forall o :: f(o).Some? ==> ReadRecord(o).Some?;
    CollectShrinks(UntilEnd(outcomes), f, ReadRecord);
  }
}
