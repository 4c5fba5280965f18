/** One run of the transfer loop of `TransmitData`, driven by a script of
    steps. Each step says whether cancellation was requested when the loop
    looked at the token, what `ReadExisting` returned, and how much time
    passed; the loop's state is the receive buffer, the frame queue, the
    progress bar, the stopwatch and the log of frames written. */
module TransferLoop {
  import opened Outcomes
  import opened HexText
  import opened Progress

  const ReadyToUpdateAcknowledgement: string := "CTU"
  const PageAcknowledgement: string := "Page"
  const ByteAcknowledgement: char := '\r'

  /** `Stopwatch` ticks: 100 ns each. */
  const TicksPerSecond: nat := 10000000
  /** COMMUNICATION_TIMEOUT, in seconds. */
  const CommunicationTimeout: nat := 5

  /** `stopwatch.Elapsed.TotalSeconds > COMMUNICATION_TIMEOUT`. */
  predicate TimedOut(ticks: nat) {
    ticks > CommunicationTimeout * TicksPerSecond
  }

  /** `receivedData.Count(f => f == c)`. */
  function CountOf(s: string, c: char): (n: nat)
    ensures n <= |s|
    ensures n == 0 <==> c !in s
  {
    if s == [] then 0
    else
      assert s == [s[0]] + s[1..];
      (if s[0] == c then 1 else 0) + CountOf(s[1..], c)
  }

  /** `receivedData.Replace(c.ToString(), string.Empty)`. */
  function Without(s: string, c: char): (t: string)
    ensures c !in t
    ensures |t| == |s| - CountOf(s, c)
    ensures c !in s ==> t == s
  {
    if s == [] then []
    else
      assert s == [s[0]] + s[1..];
      (if s[0] == c then [] else [s[0]]) + Without(s[1..], c)
  }

  /** `s.Contains(t)` for strings: t occurs in s at some position. */
  predicate Contains(s: string, t: string)
    decreases |s|
  {
    if |s| < |t| then false else s[..|t|] == t || Contains(s[1..], t)
  }

  lemma {:induction false} CountOfAppend(a: string, b: string, c: char)
    ensures CountOf(a + b, c) == CountOf(a, c) + CountOf(b, c)
  {
    if a == [] {
      assert a + b == b;
    } else {
      assert (a + b)[0] == a[0] && (a + b)[1..] == a[1..] + b;
      CountOfAppend(a[1..], b, c);
    }
  }

  /** `Replace` keeps every other character in order: removing c from a
      joined text removes it from each part. With the clause that a text
      without c is kept whole, this makes `Without` the filter that drops c. */
  lemma {:induction false} WithoutAppend(a: string, b: string, c: char)
    ensures Without(a + b, c) == Without(a, c) + Without(b, c)
  {
    if a == [] {
      assert a + b == b;
    } else {
      assert (a + b)[0] == a[0] && (a + b)[1..] == a[1..] + b;
      WithoutAppend(a[1..], b, c);
    }
  }

  /** A token found in either part is found in the joined buffer. */
  lemma {:induction false} ContainsAppend(a: string, b: string, t: string)
    requires Contains(a, t) || Contains(b, t)
    ensures Contains(a + b, t)
    decreases |a|
  {
    if a == [] {
      assert a + b == b;
    } else if Contains(a, t) && |a| >= |t| && a[..|t|] == t {
      assert (a + b)[..|t|] == t;
    } else {
      assert (a + b)[1..] == a[1..] + b;
      ContainsAppend(a[1..], b, t);
    }
  }

  /** One step of the script. */
  datatype Step = Step(chunk: string, elapsed: nat, cancelled: bool)

  /** The loop's state between iterations. */
  datatype Link = Link(
    received: string,
    queue: seq<seq<byte>>,
    bar: BarState,
    ticks: nat,
    written: seq<seq<byte>>)

  /** The state after one iteration, and the fault that ends the loop there. */
  datatype Stepped = Stepped(link: Link, fault: Option<Fault>)

  /** Any '\r' in the buffer, once the new input is appended. */
  predicate Acked(s: Link, step: Step) {
    ByteAcknowledgement in s.received + step.chunk
  }

  /** The buffer after the byte acknowledgements are stripped. */
  function Stripped(s: Link, step: Step): string {
    var received := s.received + step.chunk;
    if ByteAcknowledgement in received then Without(received, ByteAcknowledgement) else received
  }

  /** The stripped buffer holds "CTU" or "Page". */
  predicate Signalled(s: Link, step: Step) {
    Contains(Stripped(s, step), ReadyToUpdateAcknowledgement) || Contains(Stripped(s, step), PageAcknowledgement)
  }

  /** One pass of the loop body. Cancellation is looked at first; a '\r'
      updates the bar by the number of them, which throws when the bar has
      nothing to complete; a "CTU" or "Page" sends the next frame, if any,
      and clears the buffer; and the timeout is looked at last. */
  function Iterate(s: Link, step: Step): Stepped {
    if step.cancelled then Stepped(s, Some(Cancelled))
    else
      var received := s.received + step.chunk;
      var ticks := s.ticks + step.elapsed;
      var acked := ByteAcknowledgement in received;
      var bar := if acked then Updated(s.bar, CountOf(received, ByteAcknowledgement)) else s.bar;
      if acked && UpdateThrows(s.bar) then
        Stepped(s.(received := received, ticks := ticks, bar := bar), Some(Unclassified))
      else
        var ticks := if acked then 0 else ticks;
        var received := Stripped(s, step);
        var signalled := Signalled(s, step);
        var sends := signalled && |s.queue| > 0;
        var next := Link(
          if signalled then "" else received,
          if sends then s.queue[1..] else s.queue,
          bar,
          if signalled then 0 else ticks,
          if sends then s.written + [s.queue[0]] else s.written);
        Stepped(next, if TimedOut(next.ticks) then Some(CommunicationFailed) else None)
  }

  /** How a run of the loop ends. `ScriptEnded` means the script ran out
      while the loop would still go on. */
  datatype Ending = Completed | Faulted(fault: Fault) | ScriptEnded

  datatype Run = Run(ending: Ending, link: Link)

  /** `while (progressBar.CurrentPercentage != 100) { ... }` over a script. */
  function Transfer(s: Link, script: seq<Step>): Run
    decreases |script|
  {
    if s.bar.currentPercentage == 100 then Run(Completed, s)
    else if script == [] then Run(ScriptEnded, s)
    else
      var r := Iterate(s, script[0]);
      if r.fault.Some? then Run(Faulted(r.fault.value), r.link)
      else Transfer(r.link, script[1..])
  }

  /** `totalBytes`: every frame byte is acknowledged by one '\r'. */
  function TotalBytes(queue: seq<seq<byte>>, pageSize: nat): nat {
    |queue| * (pageSize + 3)
  }

  /** The state when the loop starts: an empty buffer, a started bar over
      `TotalBytes`, and a stopwatch just started. */
  function InitialLink(queue: seq<seq<byte>>, pageSize: nat, written: seq<seq<byte>>): Link {
    Link("", queue, Started(Initial(TotalBytes(queue, pageSize))), 0, written)
  }

  /** Cancellation is looked at before anything else and changes nothing. */
  lemma CancellationFirst(s: Link, step: Step)
    requires step.cancelled
    ensures Iterate(s, step) == Stepped(s, Some(Cancelled))
  {
  }

  /** A token of the joined text is found wherever it sits. */
  lemma ContainsMiddle(a: string, t: string, b: string)
    ensures Contains(a + t + b, t)
  {
    assert (t + b)[..|t|] == t;
    ContainsAppend(a, t + b, t);
    assert a + t + b == a + (t + b);
  }

  lemma Regroup(a: string, head: string, tail: string, b: string)
    ensures a + head + (tail + b) == a + (head + tail) + b
  {
  }

  /** The buffer a pass looks at for "CTU" and "Page" is everything carried
      over and everything just read, with the '\r's dropped. */
  lemma StrippedIsWithout(s: Link, step: Step)
    ensures Stripped(s, step)
         == Without(s.received, ByteAcknowledgement) + Without(step.chunk, ByteAcknowledgement)
  {
    WithoutAppend(s.received, step.chunk, ByteAcknowledgement);
  }

  /** A pass that sees no "CTU" or "Page" carries everything it has
      received, except the '\r's, over to the next pass, and sends nothing. */
  lemma QuietPassAccumulates(s: Link, step: Step)
    requires !step.cancelled && !(Acked(s, step) && UpdateThrows(s.bar)) && !Signalled(s, step)
    ensures var r := Iterate(s, step).link;
            && r.received == Without(s.received, ByteAcknowledgement) + Without(step.chunk, ByteAcknowledgement)
            && r.queue == s.queue && r.written == s.written
  {
    StrippedIsWithout(s, step);
  }

  /** A "CTU" or "Page" whose characters arrive over two consecutive reads,
      with '\r's anywhere among them, is seen by the second pass: it clears
      the buffer, restarts the stopwatch and sends the next frame, if any. */
  lemma TokenSplitAcrossPasses(s: Link, first: Step, second: Step, token: string,
                               head: string, tail: string, before: string, after: string)
    requires token == ReadyToUpdateAcknowledgement || token == PageAcknowledgement
    requires token == head + tail
    requires Without(first.chunk, ByteAcknowledgement) == before + head
    requires Without(second.chunk, ByteAcknowledgement) == tail + after
    requires !first.cancelled && !second.cancelled
    requires !(Acked(s, first) && UpdateThrows(s.bar))
    requires !Signalled(s, first) && Iterate(s, first).fault.None?
    requires !(Acked(Iterate(s, first).link, second) && UpdateThrows(s.bar))
    ensures var mid := Iterate(s, first).link;
            var r := Iterate(mid, second);
            && Signalled(mid, second)
            && r.fault.None?
            && r.link.received == "" && r.link.ticks == 0
            && r.link.written == if |s.queue| > 0 then s.written + [s.queue[0]] else s.written
  {
    var mid := Iterate(s, first).link;
    QuietPassAccumulates(s, first);
    SignalCompleted(mid, second, Without(s.received, ByteAcknowledgement) + before, token, head, tail, after);
    BarThrowsKept(s, first);
    SignalClearsBuffer(mid, second);
  }

  /** The second half of a split token: a carried-over buffer ending in the
      token's first part, and a read starting (once '\r's are dropped) with
      the rest. */
  lemma SignalCompleted(s: Link, step: Step, before: string, token: string,
                        head: string, tail: string, after: string)
    requires token == ReadyToUpdateAcknowledgement || token == PageAcknowledgement
    requires token == head + tail
    requires s.received == before + head && ByteAcknowledgement !in s.received
    requires Without(step.chunk, ByteAcknowledgement) == tail + after
    ensures Signalled(s, step)
  {
    StrippedIsWithout(s, step);
    assert Without(s.received, ByteAcknowledgement) == s.received;
    assert Stripped(s, step) == s.received + (tail + after);
    Regroup(before, head, tail, after);
    ContainsMiddle(before, token, after);
  }

  /** Whether a '\r' makes the bar throw never changes from pass to pass. */
  lemma BarThrowsKept(s: Link, step: Step)
    ensures UpdateThrows(Iterate(s, step).link.bar) == UpdateThrows(s.bar)
  {
  }

  /** A "Page" split across two reads is still recognised and sends the
      next frame. */
  lemma PageSplitAcrossReads(s: Link, step: Step)
    requires s.received == "Pa" && step == Step("ge", 0, false)
    requires s.ticks <= TicksPerSecond && |s.queue| > 0
    ensures Iterate(s, step) == Stepped(s.(received := "", queue := s.queue[1..], ticks := 0,
                                           written := s.written + [s.queue[0]]), None)
  {
    assert ByteAcknowledgement !in s.received + step.chunk;
    assert Stripped(s, step) == "Page";
    assert Contains("Page", PageAcknowledgement);
  }

  /** Every '\r' adds exactly one acknowledged byte and is removed from the
      buffer. */
  lemma AckCounted(s: Link, step: Step)
    requires !step.cancelled && s.bar.isActive && !s.bar.disposed
    ensures var r := Iterate(s, step);
            && r.link.bar.itemsCompleted == s.bar.itemsCompleted + CountOf(s.received + step.chunk, ByteAcknowledgement)
            && r.link.bar.itemsToComplete == s.bar.itemsToComplete
            && (r.fault != Some(Unclassified) ==> ByteAcknowledgement !in r.link.received)
  {
  }

  /** The bar only divides by zero when there are no frames to send. */
  lemma AckWithoutTotalThrows(s: Link, step: Step)
    requires !step.cancelled && s.bar.isActive && !s.bar.disposed && s.bar.itemsToComplete == 0
    requires ByteAcknowledgement in s.received + step.chunk
    ensures Iterate(s, step).fault == Some(Unclassified)
  {
  }

  /** One iteration writes at most one frame, the one at the head of the
      queue, and removes exactly that frame from the queue. */
  lemma AtMostOneFrame(s: Link, step: Step)
    ensures var r := Iterate(s, step);
            || (r.link.written == s.written && r.link.queue == s.queue)
            || (|s.queue| > 0 && r.link.written == s.written + [s.queue[0]] && r.link.queue == s.queue[1..])
  {
  }

  /** A "CTU" or "Page" in the buffer always clears it and restarts the
      stopwatch, and sends a frame when one is left. */
  lemma SignalClearsBuffer(s: Link, step: Step)
    requires !step.cancelled && !(Acked(s, step) && UpdateThrows(s.bar)) && Signalled(s, step)
    ensures var r := Iterate(s, step);
            && r.fault.None?
            && r.link.received == "" && r.link.ticks == 0
            && (r.link.written == if |s.queue| > 0 then s.written + [s.queue[0]] else s.written)
  {
  }

  /** The loop times out only when more than 5 s have passed since the last
      recognised signal, and then it always does. */
  lemma TimeoutIff(s: Link, step: Step)
    requires !step.cancelled && !(Acked(s, step) && UpdateThrows(s.bar))
    ensures Iterate(s, step).fault == Some(CommunicationFailed) <==>
              !Acked(s, step) && !Signalled(s, step) && TimedOut(s.ticks + step.elapsed)
  {
    if Acked(s, step) {
      assert !TimedOut(0);
    }
  }

  lemma IterateKeepsConsistent(s: Link, step: Step)
    requires Consistent(s.bar)
    ensures Consistent(Iterate(s, step).link.bar)
  {
    if !step.cancelled && Acked(s, step) {
      UpdatePreservesConsistent(s.bar, CountOf(s.received + step.chunk, ByteAcknowledgement));
    }
  }

  /** Frames leave the queue in order, each written once: what has been
      written followed by what is still queued never changes. */
  lemma {:induction false} TransferKeepsFifo(s: Link, script: seq<Step>)
    ensures var r := Transfer(s, script);
            && r.link.written + r.link.queue == s.written + s.queue
            && s.written <= r.link.written
    decreases |script|
  {
    if s.bar.currentPercentage != 100 && script != [] {
      var r := Iterate(s, script[0]);
      AtMostOneFrame(s, script[0]);
      if |r.link.written| > |s.written| {
        assert s.queue == [s.queue[0]] + s.queue[1..];
        assert r.link.written + r.link.queue == s.written + s.queue;
      }
      if r.fault.None? {
        TransferKeepsFifo(r.link, script[1..]);
      }
    }
  }

  /** One iteration that does not end the loop. */
  lemma TransferContinues(s: Link, script: seq<Step>)
    requires s.bar.currentPercentage != 100 && script != []
    requires Iterate(s, script[0]).fault.None?
    ensures Transfer(s, script) == Transfer(Iterate(s, script[0]).link, script[1..])
  {
  }

  /** One iteration that ends the loop with a fault. */
  lemma TransferStops(s: Link, script: seq<Step>)
    requires s.bar.currentPercentage != 100 && script != []
    requires Iterate(s, script[0]).fault.Some?
    ensures Transfer(s, script) == Run(Faulted(Iterate(s, script[0]).fault.value), Iterate(s, script[0]).link)
  {
  }

  /** Started after the writes already made, the loop writes a prefix of
      its queue, in order, after them. */
  lemma SendsQueueInOrder(s: Link, script: seq<Step>)
    ensures var r := Transfer(s, script);
            && s.written <= r.link.written
            && r.link.written[|s.written|..] + r.link.queue == s.queue
  {
    var r := Transfer(s, script);
    TransferKeepsFifo(s, script);
    CancelPrefix(s.written, r.link.written, r.link.queue, s.queue);
  }

  lemma CancelPrefix(sent: seq<seq<byte>>, w: seq<seq<byte>>, q: seq<seq<byte>>, queue: seq<seq<byte>>)
    requires sent <= w && w + q == sent + queue
    ensures w[|sent|..] + q == queue
  {
    assert w == sent + w[|sent|..];
    assert sent + (w[|sent|..] + q) == sent + queue;
    assert (sent + (w[|sent|..] + q))[|sent|..] == w[|sent|..] + q;
    assert (sent + queue)[|sent|..] == queue;
  }

  /** The loop ends in one of four ways: the bar reaches 100, cancellation,
      a timeout, or the bar's division by zero. */
  lemma {:induction false} TransferEndings(s: Link, script: seq<Step>)
    requires s.bar.isActive && !s.bar.disposed
    ensures var r := Transfer(s, script);
            && (r.ending.Completed? <==> r.link.bar.currentPercentage == 100)
            && (r.ending.Faulted? ==> r.ending.fault in {Cancelled, CommunicationFailed, Unclassified})
            && (r.ending.Faulted? && r.ending.fault == Unclassified ==> s.bar.itemsToComplete == 0)
            && r.link.bar.itemsToComplete == s.bar.itemsToComplete
    decreases |script|
  {
    if s.bar.currentPercentage != 100 && script != [] {
      var r := Iterate(s, script[0]);
      if r.fault.None? {
        assert r.link.bar.isActive && !r.link.bar.disposed;
        TransferEndings(r.link, script[1..]);
      } else if r.fault == Some(Cancelled) {
        assert r.link == s;
      }
    }
  }

  /** A bar that stays consistent along the run: completion means every
      byte of every frame was acknowledged. */
  lemma {:induction false} CompletedMeansAllAcknowledged(s: Link, script: seq<Step>)
    requires Consistent(s.bar) && s.bar.isActive && !s.bar.disposed
    requires Transfer(s, script).ending.Completed?
    ensures var b := Transfer(s, script).link.bar;
            b.itemsToComplete == s.bar.itemsToComplete && b.itemsCompleted >= s.bar.itemsToComplete > 0
    decreases |script|
  {
    if s.bar.currentPercentage == 100 {
      HundredMeansAllItems(s.bar);
    } else {
      var r := Iterate(s, script[0]);
      IterateKeepsConsistent(s, script[0]);
      assert r.link.bar.isActive && !r.link.bar.disposed;
      CompletedMeansAllAcknowledged(r.link, script[1..]);
    }
  }

  /** With nothing to send the bar never reaches 100: the loop can only end
      by cancellation, a timeout, or the division by zero of a '\r'. */
  lemma {:induction false} EmptyQueueNeverCompletes(s: Link, script: seq<Step>)
    requires Consistent(s.bar) && s.bar.itemsToComplete == 0
    ensures !Transfer(s, script).ending.Completed?
    decreases |script|
  {
    if script != [] {
      var r := Iterate(s, script[0]);
      IterateKeepsConsistent(s, script[0]);
      if r.fault.None? {
        assert r.link.bar.itemsToComplete == 0;
        EmptyQueueNeverCompletes(r.link, script[1..]);
      }
    }
  }
}
