/** The upload session: framing the program into pages, the handshake with
    the bootloader, and the page-by-page transfer. The static fields of the
    utility are the fields of one session object; the serial port is
    reduced to whether it opens, the device's reply to the handshake, and
    the script the transfer loop reads; `written` logs every write to the
    port in order. */
module UploadUtility {
  import opened Outcomes
  import opened HexText
  import opened Microcontrollers
  import opened Progress
  import opened Pages
  import opened Handshake
  import opened TransferLoop

  /** What one upload leaves behind: how it ended, what was written to the
      port, what is still queued, and how many bytes were acknowledged. */
  datatype UploadRun = UploadRun(
    ending: Ending,
    written: seq<seq<byte>>,
    queue: seq<seq<byte>>,
    acknowledged: int)

  /** `UploadProgramData`: open the port, check for cancellation, frame the
      program, run the handshake, then the transfer loop. Each step that
      fails ends the upload there. */
  function Upload(programData: seq<byte>, mcu: Microcontroller, force: bool, portOpens: bool,
                  cancelledAtOpen: bool, reply: DeviceReply, script: seq<Step>): UploadRun
    requires mcu.pageSize > 0
  {
    if !portOpens then UploadRun(Faulted(ComPortTimeout), [], [], 0)
    else if cancelledAtOpen then UploadRun(Faulted(Cancelled), [], [], 0)
    else
      var frames := Frames(programData, mcu.pageSize, 0);
      var fault := HandshakeFault(mcu, reply, force, |programData|);
      if fault.Some? then UploadRun(Faulted(fault.value), [ReadyToUpdateCommand], frames, 0)
      else
        var run := Transfer(InitialLink(frames, mcu.pageSize, [ReadyToUpdateCommand]), script);
        UploadRun(run.ending, run.link.written, run.link.queue, run.link.bar.itemsCompleted)
  }

  /** The exit code the command handler reports for an ending, if the loop
      has ended. */
  function EndingExitCode(e: Ending): (c: Option<ExitCode>)
    ensures c == Some(ExitCode.Success) <==> e.Completed?
    ensures c.None? <==> e.ScriptEnded?
  {
    match e
    case Completed => Some(ExitCode.Success)
    case Faulted(f) => Some(ExitCodeOf(f))
    case ScriptEnded => None
  }

  /** A port that does not open is reported before anything is written. */
  lemma PortFailureWritesNothing(programData: seq<byte>, mcu: Microcontroller, force: bool,
                                 cancelledAtOpen: bool, reply: DeviceReply, script: seq<Step>)
    requires mcu.pageSize > 0
    ensures var u := Upload(programData, mcu, force, false, cancelledAtOpen, reply, script);
            u.written == [] && EndingExitCode(u.ending) == Some(FailedToOpenCom)
  {
  }

  /** A rejecting handshake writes the ready-to-update command and no frame. */
  lemma RejectedHandshakeWritesNoFrame(programData: seq<byte>, mcu: Microcontroller, force: bool,
                                       reply: DeviceReply, script: seq<Step>)
    requires mcu.pageSize > 0
    requires HandshakeFault(mcu, reply, force, |programData|).Some?
    ensures var u := Upload(programData, mcu, force, true, false, reply, script);
            && u.written == [ReadyToUpdateCommand]
            && u.ending == Faulted(HandshakeFault(mcu, reply, force, |programData|).value)
  {
  }

  /** Once the port is open, the ready-to-update command goes out first and
      then frames in queue order, each at most once: the frames written and
      the frames still queued are together exactly the program's frames. */
  lemma FramesSentInOrder(programData: seq<byte>, mcu: Microcontroller, force: bool,
                          reply: DeviceReply, script: seq<Step>)
    requires mcu.pageSize > 0
    ensures var u := Upload(programData, mcu, force, true, false, reply, script);
            && |u.written| >= 1 && u.written[0] == ReadyToUpdateCommand
            && u.written[1..] + u.queue == Frames(programData, mcu.pageSize, 0)
  {
    var frames := Frames(programData, mcu.pageSize, 0);
    var u := Upload(programData, mcu, force, true, false, reply, script);
    if HandshakeFault(mcu, reply, force, |programData|).None? {
      var r := Transfer(InitialLink(frames, mcu.pageSize, [ReadyToUpdateCommand]), script);
      assert u.written == r.link.written && u.queue == r.link.queue;
      SendsQueueInOrder(InitialLink(frames, mcu.pageSize, [ReadyToUpdateCommand]), script);
    } else {
      assert u.written == [ReadyToUpdateCommand] && u.queue == frames;
    }
  }

  /** An empty program never completes: with no frames the bar has nothing
      to complete and cannot reach 100. */
  lemma EmptyProgramNeverSucceeds(mcu: Microcontroller, force: bool, portOpens: bool,
                                  cancelledAtOpen: bool, reply: DeviceReply, script: seq<Step>)
    requires mcu.pageSize > 0
    ensures !Upload([], mcu, force, portOpens, cancelledAtOpen, reply, script).ending.Completed?
  {
    if portOpens && !cancelledAtOpen && HandshakeFault(mcu, reply, force, 0).None? {
      var start := InitialLink(Frames([], mcu.pageSize, 0), mcu.pageSize, [ReadyToUpdateCommand]);
      EmptyQueueNeverCompletes(start, script);
    }
  }

  /** A completed upload had every byte of every frame acknowledged. */
  lemma CompletedMeansAllAcknowledged(programData: seq<byte>, mcu: Microcontroller, force: bool,
                                      portOpens: bool, cancelledAtOpen: bool, reply: DeviceReply, script: seq<Step>)
    requires mcu.pageSize > 0
    requires Upload(programData, mcu, force, portOpens, cancelledAtOpen, reply, script).ending.Completed?
    ensures programData != []
    ensures Upload(programData, mcu, force, portOpens, cancelledAtOpen, reply, script).acknowledged
            >= PageCount(|programData|, mcu.pageSize) * (mcu.pageSize + 3)
  {
    var u := Upload(programData, mcu, force, portOpens, cancelledAtOpen, reply, script);
    assert portOpens && !cancelledAtOpen && HandshakeFault(mcu, reply, force, |programData|).None?;
    var frames := Frames(programData, mcu.pageSize, 0);
    FramesCount(programData, mcu.pageSize, 0);
    var start := InitialLink(frames, mcu.pageSize, [ReadyToUpdateCommand]);
    var r := Transfer(start, script);
    assert u.ending == r.ending && u.acknowledged == r.link.bar.itemsCompleted;
    assert Consistent(start.bar) && start.bar.isActive && !start.bar.disposed;
    TransferLoop.CompletedMeansAllAcknowledged(start, script);
  }

  class UploadSession {
    var selectedMcu: Microcontroller
    var programData: seq<byte>
    var programDataCount: int
    var forceUpdate: bool
    var pageDataQueue: seq<seq<byte>>
    /** Every write to the serial port, in order. */
    var written: seq<seq<byte>>

    constructor ()
      ensures programData == [] && pageDataQueue == [] && written == []
    {
      selectedMcu := Microcontroller("", [], 0, 0, map[], 0);
      programData := [];
      programDataCount := 0;
      forceUpdate := false;
      pageDataQueue := [];
      written := [];
    }

    /** `OpenComPort`: a port that fails to open is a ComPortTimeout; once it
        is open, a cancellation already requested stops the upload. */
    method OpenComPort(portOpens: bool, cancelled: bool) returns (fault: Option<Fault>)
      ensures fault == Some(ComPortTimeout) <==> !portOpens
      ensures fault == Some(Cancelled) <==> portOpens && cancelled
      ensures fault.None? <==> portOpens && !cancelled
    {
      if !portOpens {
        return Some(ComPortTimeout);
      }
      if cancelled {
        return Some(Cancelled);
      }
      return None;
    }

    /** `DefinePageDataQueue`: drains the program data into framed pages. */
    method DefinePageDataQueue()
      requires selectedMcu.pageSize > 0
      modifies this
      ensures selectedMcu == old(selectedMcu) && programDataCount == old(programDataCount)
      ensures forceUpdate == old(forceUpdate) && written == old(written)
      ensures pageDataQueue == old(pageDataQueue) + Frames(old(programData), selectedMcu.pageSize, 0)
      ensures programData == []
    {
      var pageSize := selectedMcu.pageSize;
      var pageCount: nat := 0;
      while |programData| != 0
        invariant selectedMcu == old(selectedMcu) && programDataCount == old(programDataCount)
        invariant forceUpdate == old(forceUpdate) && written == old(written)
        invariant pageDataQueue + Frames(programData, pageSize, pageCount)
               == old(pageDataQueue) + Frames(old(programData), pageSize, 0)
        decreases |programData|
      {
        var dataCount := Min(|programData|, pageSize);
        var chunk := programData[..dataCount];
        var tempByteList := chunk;
        ghost var before := programData;
        programData := programData[dataCount..];
        while |tempByteList| < pageSize
          invariant |chunk| <= |tempByteList| <= pageSize
          invariant tempByteList == chunk + Padding(|tempByteList| - |chunk|)
        {
          tempByteList := tempByteList + [0xFF];
        }
        ghost var padded := tempByteList;
        tempByteList := [pageCount % 256] + tempByteList;
        tempByteList := [(pageCount / 256) % 256] + tempByteList;
        var endingByte: byte := if |programData| != 0 then PageContinuationIndicator else LastPageIndicator;
        tempByteList := tempByteList + [endingByte];
        assert tempByteList == [(pageCount / 256) % 256] + ([pageCount % 256] + padded) + [endingByte];
        assert dataCount == |before| <==> |programData| == 0;
        AssembledFrame(pageCount, chunk, padded, pageSize, dataCount == |before|);
        EnqueueFirstFrame(pageDataQueue, before, pageSize, pageCount);
        pageDataQueue := pageDataQueue + [tempByteList];
        pageCount := pageCount + 1;
      }
    }

    /** `StartBootloadProcess`: sends "RTU\0", then applies the handshake
        checks to the device's reply in the source's order. */
    method StartBootloadProcess(reply: DeviceReply) returns (fault: Option<Fault>)
      modifies this
      ensures written == old(written) + [ReadyToUpdateCommand]
      ensures fault == HandshakeFault(selectedMcu, reply, forceUpdate, programDataCount)
      ensures selectedMcu == old(selectedMcu) && programData == old(programData)
      ensures programDataCount == old(programDataCount) && forceUpdate == old(forceUpdate)
      ensures pageDataQueue == old(pageDataQueue)
    {
      written := written + [ReadyToUpdateCommand];
      if reply.ReadTimeout? {
        return Some(CommunicationFailed);
      }
      var signature := reply.signature;
      var config := GetBootConfigSize(selectedMcu, reply.highFuseBits);
      if selectedMcu.signature != signature && !forceUpdate {
        return Some(DeviceError(SignatureMismatch));
      }
      if !config.bootResetEnabled {
        return Some(DeviceError(BootResetDisabled));
      }
      if programDataCount > selectedMcu.flashSize - config.size {
        return Some(Fault.ProgramSizeTooLarge);
      }
      return None;
    }

    /** `TransmitData`: the transfer loop over the queued frames, with the
        buffer, the stopwatch and the progress bar as its locals. */
    method TransmitData(script: seq<Step>) returns (ending: Ending)
      requires selectedMcu.pageSize > 0
      modifies this
      ensures selectedMcu == old(selectedMcu) && programData == old(programData)
      ensures programDataCount == old(programDataCount) && forceUpdate == old(forceUpdate)
      ensures var run := Transfer(InitialLink(old(pageDataQueue), selectedMcu.pageSize, old(written)), script);
              ending == run.ending && pageDataQueue == run.link.queue && written == run.link.written
    {
      ghost var start := InitialLink(pageDataQueue, selectedMcu.pageSize, written);
      var receivedData := "";
      var totalBytes := |pageDataQueue| * (selectedMcu.pageSize + 3);
      var ticks: nat := 0;
      var progressBar := new ProgressBar("Writing", totalBytes);
      progressBar.Start();
      ending := Completed;
      var i := 0;
      while progressBar.CurrentPercentage() != 100
        invariant 0 <= i <= |script|
        invariant fresh(progressBar) && progressBar.Valid()
        invariant selectedMcu == old(selectedMcu) && programData == old(programData)
        invariant programDataCount == old(programDataCount) && forceUpdate == old(forceUpdate)
        invariant Transfer(start, script)
               == Transfer(Link(receivedData, pageDataQueue, progressBar.State(), ticks, written), script[i..])
        invariant ending == Completed
        decreases |script| - i
      {
        if i == |script| {
          ending := ScriptEnded;
          break;
        }
        ghost var s := Link(receivedData, pageDataQueue, progressBar.State(), ticks, written);
        ghost var rest := script[i..];
        assert rest[0] == script[i] && rest[1..] == script[i + 1..];
        var fault;
        receivedData, ticks, fault := TransmitPass(progressBar, script[i], receivedData, ticks);
        if fault.Some? {
          TransferStops(s, rest);
          ending := Faulted(fault.value);
          break;
        }
        TransferContinues(s, rest);
        i := i + 1;
      }
      progressBar.Dispose();
    }

    /** One pass of the loop body of `TransmitData`. */
    method TransmitPass(progressBar: ProgressBar, step: Step, receivedData: string, ticks: nat)
      returns (received: string, sinceSignal: nat, fault: Option<Fault>)
      requires progressBar.Valid()
      modifies this, progressBar
      ensures progressBar.Valid()
      ensures Iterate(Link(receivedData, old(pageDataQueue), old(progressBar.State()), ticks, old(written)), step)
              == Stepped(Link(received, pageDataQueue, progressBar.State(), sinceSignal, written), fault)
      ensures selectedMcu == old(selectedMcu) && programData == old(programData)
      ensures programDataCount == old(programDataCount) && forceUpdate == old(forceUpdate)
    {
      ghost var s := Link(receivedData, pageDataQueue, progressBar.State(), ticks, written);
      received, sinceSignal := receivedData, ticks;
      if step.cancelled {
        return received, sinceSignal, Some(Cancelled);
      }
      received := received + step.chunk;
      sinceSignal := sinceSignal + step.elapsed;
      if ByteAcknowledgement in received {
        var byteAckLength := CountOf(received, ByteAcknowledgement);
        var divideByZero := progressBar.Update(byteAckLength);
        if divideByZero {
          return received, sinceSignal, Some(Unclassified);
        }
        received := Without(received, ByteAcknowledgement);
        sinceSignal := 0;
      }
      assert received == Stripped(s, step);
      if Contains(received, ReadyToUpdateAcknowledgement) || Contains(received, PageAcknowledgement) {
        if |pageDataQueue| > 0 {
          var data := pageDataQueue[0];
          pageDataQueue := pageDataQueue[1..];
          written := written + [data];
        }
        received := "";
        sinceSignal := 0;
      }
      if TimedOut(sinceSignal) {
        return received, sinceSignal, Some(CommunicationFailed);
      }
      return received, sinceSignal, None;
    }

    /** `UploadProgramData`: records the session's inputs, starts from an
        empty queue on a new port, and runs the four steps in order. */
    method UploadProgramData(data: seq<byte>, mcu: Microcontroller, force: bool, portOpens: bool,
                             cancelledAtOpen: bool, reply: DeviceReply, script: seq<Step>)
      returns (ending: Ending)
      requires mcu.pageSize > 0
      modifies this
      ensures var u := Upload(data, mcu, force, portOpens, cancelledAtOpen, reply, script);
              ending == u.ending && written == u.written && pageDataQueue == u.queue
      ensures selectedMcu == mcu && programDataCount == |data| && forceUpdate == force
      ensures programData == if portOpens && !cancelledAtOpen then [] else data
    {
      selectedMcu := mcu;
      programData := data;
      programDataCount := |data|;
      forceUpdate := force;
      pageDataQueue := [];
      written := [];
      ghost var u := Upload(data, mcu, force, portOpens, cancelledAtOpen, reply, script);
      var fault := OpenComPort(portOpens, cancelledAtOpen);
      if fault.Some? {
        assert u == UploadRun(Faulted(fault.value), [], [], 0);
        return Faulted(fault.value);
      }
      ghost var frames := Frames(data, mcu.pageSize, 0);
      DefinePageDataQueue();
      assert pageDataQueue == frames;
      fault := StartBootloadProcess(reply);
      assert written == [ReadyToUpdateCommand];
      assert fault == HandshakeFault(mcu, reply, force, |data|);
      if fault.Some? {
        assert u == UploadRun(Faulted(fault.value), [ReadyToUpdateCommand], frames, 0);
        return Faulted(fault.value);
      }
      ghost var run := Transfer(InitialLink(frames, mcu.pageSize, [ReadyToUpdateCommand]), script);
      assert u == UploadRun(run.ending, run.link.written, run.link.queue, run.link.bar.itemsCompleted);
      ending := TransmitData(script);
    }
  }
}
