/** The rewriter's file-to-file driver: read every record, rewrite it, write
    what was rewritten, count the writes. */
module RewriterRun {
  import opened Wrappers
  import opened Layers
  import opened Pipeline
  import opened Capture
  import opened Rewriter

  /** What the loop makes of one read outcome: the rewritten record, or
      nothing when the read, the rewrite or the write failed. */
  function RewriteStep(o: ReadOutcome, cfg: RewriteConfig, codec: Codec, text: AddrText,
                       writeOk: (CaptureInfo, Bytes) -> bool): (r: Option<Record>)
    ensures r.Some? <==> o.Read? && RewritePacket(o.data, cfg, codec, text).Success?
                         && writeOk(o.info, RewritePacket(o.data, cfg, codec, text).value)
    ensures r.Some? ==> r.value == Record(o.info, RewritePacket(o.data, cfg, codec, text).value)
  {
    match o
    case Read(data, info) =>
      (match RewritePacket(data, cfg, codec, text)
       case Success(out) => if writeOk(info, out) then Some(Record(info, out)) else None
       case Failure(_) => None)
    case _ => None
  }

  function Step(cfg: RewriteConfig, codec: Codec, text: AddrText,
                writeOk: (CaptureInfo, Bytes) -> bool): ReadOutcome -> Option<Record>
  {
    o => RewriteStep(o, cfg, codec, text, writeOk)
  }

  /** The records the driver writes for a stream of read outcomes. */
  function Written(outcomes: seq<ReadOutcome>, cfg: RewriteConfig, codec: Codec, text: AddrText,
                   writeOk: (CaptureInfo, Bytes) -> bool): seq<Record>
  {
    Collect(UntilEnd(outcomes), Step(cfg, codec, text, writeOk))
  }

  datatype RewriteReport = RewriteReport(file: OutputFile, count: nat)

  /** The driver.  `setup` is the first setup step that failed, if any;
      `writeOk` is the writer's verdict on each record. */
  method Run(cfg: RewriteConfig, setup: Option<SetupError>, input: InputFile, codec: Codec, text: AddrText,
             writeOk: (CaptureInfo, Bytes) -> bool)
    returns (r: Result<RewriteReport, SetupError>)
    ensures setup.Some? ==> r == Failure(setup.value)
    ensures setup.None? ==> r.Success?
    ensures r.Success? ==> r.value.file.header == OutputHeader
    ensures r.Success? ==> r.value.file.records == Written(input.outcomes, cfg, codec, text, writeOk)
    ensures r.Success? ==> r.value.count == |r.value.file.records|
  {
    if setup.Some? {
      return Failure(setup.value);
    }
    var records, _, count := Drive(input.outcomes, Step(cfg, codec, text, writeOk));
    return Success(RewriteReport(OutputFile(OutputHeader, records), count));
  }

  /** The written records are, in input order, the successful rewrites of
      the successfully read frames that the writer accepted, each with its
      capture metadata unchanged; every such frame is written. */
  lemma {:induction false} WrittenInOrder(outcomes: seq<ReadOutcome>, cfg: RewriteConfig, codec: Codec, text: AddrText,
                                          writeOk: (CaptureInfo, Bytes) -> bool)
    returns (idx: seq<nat>)
    ensures var handled, out := UntilEnd(outcomes), Written(outcomes, cfg, codec, text, writeOk);
      && |idx| == |out|
      && (forall j, k :: 0 <= j < k < |idx| ==> idx[j] < idx[k])
      && (forall k :: 0 <= k < |idx| ==>
            && idx[k] < |handled| && handled[idx[k]].Read?
            && RewritePacket(handled[idx[k]].data, cfg, codec, text).Success?
            && out[k] == Record(handled[idx[k]].info, RewritePacket(handled[idx[k]].data, cfg, codec, text).value)
            && writeOk(out[k].info, out[k].data))
      && (forall i :: 0 <= i < |handled| && handled[i].Read?
            && RewritePacket(handled[i].data, cfg, codec, text).Success?
            && writeOk(handled[i].info, RewritePacket(handled[i].data, cfg, codec, text).value)
            ==> i in idx)
  {
    var handled := UntilEnd(outcomes);
    var f := Step(cfg, codec, text, writeOk);
    idx := CollectIndices(handled, f);
    forall i | 0 <= i < |handled| && handled[i].Read?
        && RewritePacket(handled[i].data, cfg, codec, text).Success?
        && writeOk(handled[i].info, RewritePacket(handled[i].data, cfg, codec, text).value)
      ensures i in idx
    {
      assert f(handled[i]).Some?;
    }
  }
}
