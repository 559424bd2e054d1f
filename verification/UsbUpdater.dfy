/**
  * The host side of the USB firmware update: blocks of hex-encoded data, sent one at a time to a
  * device that may answer anything, over a line on which any write may fall short.
  */
module UsbUpdater {
  import opened Bytes
  import opened UsbCommands
  import opened UsbProtocol
  import opened UsbWire

  // ---------------------------------------------------------------- the device

  /**
    * What the device says: the line that the n-th read of a wait finds after a history, "" for
    * silence. Histories only grow, so every run of every device is the run of such a function.
    */
  type Device = (seq<Event>, nat) -> string

  /** A wait of at most n more reads: the line it ends with, and whether it used up its last read. */
  function Waited(device: Device, t: seq<Event>, i: nat, n: nat): (r: (string, bool))
    requires n > 0
    ensures !r.1 ==> r.0 != ""
    decreases n
  {
    if n == 1 then (device(t, i), true)
    else if device(t, i) != "" then (device(t, i), false)
    else Waited(device, t, i + 1, n - 1)
  }

  /** Every answer in the trace is what a wait for the device found. */
  ghost predicate Heard(device: Device, t: seq<Event>) {
    forall i :: 0 <= i < |t| && t[i].Answered? ==> IsWait(device, t[..i], t[i])
  }

  ghost predicate IsWait(device: Device, t: seq<Event>, e: Event)
    requires e.Answered?
  {
    e.polls > 1 && Waited(device, t, 0, e.polls) == (e.line, e.timedOut)
  }

  lemma HeardMore(device: Device, t: seq<Event>, e: Event)
    requires Heard(device, t) && (e.Answered? ==> IsWait(device, t, e))
    ensures Heard(device, t + [e])
  {
    hide IsWait;
    var u := t + [e];
    forall i | 0 <= i < |u| && u[i].Answered? ensures IsWait(device, u[..i], u[i]) {
      assert u[..i] == t[..i];
      assert t[..|t|] == t;
    }
  }

  // ---------------------------------------------------------------- the wire

  /** What the calls-th write call reports; after the last report every call reports success. */
  function Report(reports: seq<nat>, calls: nat, len: nat): nat {
    if calls < |reports| then reports[calls] else len
  }

  /** What one call of write_buff comes to: whether it was complete, the calls made, the characters sent. */
  datatype Attempt = Attempt(complete: bool, calls: nat, sent: string)

  function Sent(text: string, written: nat): string { if written <= |text| then text[..written] else "" }

  /** Up to n tries, each from the beginning, until one reports the full length or none at all. */
  function Tries(reports: seq<nat>, calls: nat, text: string, n: nat): Attempt
    decreases n
  {
    if n == 0 then Attempt(false, calls, "")
    else
      var c := Report(reports, calls, |text|);
      if c == |text| || c == 0 then Attempt(c == |text|, calls + 1, Sent(text, c))
      else
        var rest := Tries(reports, calls + 1, text, n - 1);
        Attempt(rest.complete, rest.calls, Sent(text, c) + rest.sent)
  }

  /** The reports that are still to come. */
  function Left(reports: seq<nat>, calls: nat): nat {
    if calls < |reports| then |reports| - calls else 0
  }

  /**
    * A write that is complete ends with the whole text, and only one that was disturbed is not.
    * Without reports of its own the line is perfect.
    */
  lemma {:induction false} TriesEnd(reports: seq<nat>, calls: nat, text: string, n: nat)
    requires n > 0
    ensures var a := Tries(reports, calls, text, n);
            && calls < a.calls <= calls + n
            && (a.complete ==> |text| <= |a.sent| && a.sent[|a.sent| - |text|..] == text)
            && Left(reports, a.calls) <= Left(reports, calls)
            && (!a.complete ==> Left(reports, a.calls) < Left(reports, calls))
            && (reports == [] ==> a.complete && a.sent == text)
    decreases n
  {
    var c := Report(reports, calls, |text|);
    if c != |text| && c != 0 && n > 1 {
      TriesEnd(reports, calls + 1, text, n - 1);
      var rest := Tries(reports, calls + 1, text, n - 1);
      SuffixKept(Sent(text, c), rest.sent, text);
    }
  }

  /** A report after which there are no more tries: everything was written, or nothing. */
  predicate Ends(reports: seq<nat>, call: nat, len: nat) {
    Report(reports, call, len) == len || Report(reports, call, len) == 0
  }

  /** The tries end with the first report of everything or of nothing, and at the latest with the n-th; it decides. */
  lemma {:induction false} TriesExactly(reports: seq<nat>, calls: nat, text: string, n: nat)
    requires n > 0
    ensures var a := Tries(reports, calls, text, n);
            && calls < a.calls <= calls + n
            && (a.complete <==> Report(reports, a.calls - 1, |text|) == |text|)
            && (a.calls < calls + n ==> Ends(reports, a.calls - 1, |text|))
            && forall c :: calls <= c < a.calls - 1 ==> !Ends(reports, c, |text|)
    decreases n
  {
    hide Report;
    if !Ends(reports, calls, |text|) && n > 1 {
      TriesExactly(reports, calls + 1, text, n - 1);
    }
  }

  /** After some tries have sent this much, the rest of them make up the whole attempt. */
  predicate Continues(a: Attempt, sent: string, rest: Attempt) {
    a == Attempt(rest.complete, rest.calls, sent + rest.sent)
  }

  /** One try ends the attempt or leaves one try less. */
  lemma TryOnce(reports: seq<nat>, calls: nat, text: string, n: nat, a: Attempt, sent: string)
    requires 0 < n && text != [] && Continues(a, sent, Tries(reports, calls, text, n))
    ensures var c := Report(reports, calls, |text|);
            var s := sent + Sent(text, c);
            if c == |text| || c == 0 || n == 1 then a == Attempt(c == |text|, calls + 1, s)
            else Continues(a, s, Tries(reports, calls + 1, text, n - 1))
  {
    var c := Report(reports, calls, |text|);
    var rest := Tries(reports, calls + 1, text, n - 1);
    assert sent + (Sent(text, c) + rest.sent) == sent + Sent(text, c) + rest.sent;
    if n == 1 {
      assert rest == Attempt(false, calls + 1, "");
      assert Sent(text, c) + "" == Sent(text, c);
    }
  }

  lemma SuffixKept(a: string, b: string, text: string)
    ensures |text| <= |b| && b[|b| - |text|..] == text ==> (a + b)[|a + b| - |text|..] == text
  {}

  // ---------------------------------------------------------------- the line

  class Link {
    const device: Device
    const reports: seq<nat>
    var calls: nat
    var trace: seq<Event>
    ghost var wire: string

    constructor (device: Device, reports: seq<nat>)
      ensures this.device == device && this.reports == reports && calls == 0 && trace == [] && wire == ""
      ensures Faithful()
    {
      this.device, this.reports := device, reports;
      calls, trace, wire := 0, [], "";
    }

    /** The trace says what was heard and, on a perfect line, what was sent. */
    ghost predicate Faithful()
      reads this
    {
      && Heard(device, trace)
      && (reports == [] ==> AllComplete(trace) && wire == WireOf(trace))
    }

    function Remaining(): nat
      reads this
    {
      Left(reports, calls)
    }

    method WriteFile(text: string) returns (written: nat)
      modifies this`calls, this`wire
      ensures written == Report(reports, old(calls), |text|) && calls == old(calls) + 1
      ensures wire == old(wire) + Sent(text, written)
    {
      written := if calls < |reports| then reports[calls] else |text|;
      calls := calls + 1;
      wire := wire + Sent(text, written);
    }

    /** write_buff: up to three tries, until one reports the full length or none at all. */
    method WriteBuff(cmd: Command) returns (complete: bool)
      requires Faithful()
      modifies this
      ensures Faithful() && trace == old(trace) + [Wrote(cmd, complete)]
      ensures var a := Tries(reports, old(calls), Render(cmd), 3);
              complete == a.complete && calls == a.calls && wire == old(wire) + a.sent
      ensures Remaining() <= old(Remaining()) && (!complete ==> Remaining() < old(Remaining()))
    {
      hide Render, WireOf, Heard, AllComplete, Tries, Sent, Left;
      var text := Render(cmd);
      var attempts := 0;
      var written := 0;
      ghost var a := Tries(reports, calls, text, 3);
      ghost var sent := "";
      while true
        invariant 0 <= attempts < 3 && trace == old(trace) && wire == old(wire) + sent
        invariant Continues(a, sent, Tries(reports, calls, text, 3 - attempts))
        decreases 3 - attempts
      {
        TryOnce(reports, calls, text, 3 - attempts, a, sent);
        written := WriteFile(text);
        sent := sent + Sent(text, written);
        if written == 0 {
          break;
        }
        attempts := attempts + 1;
        if written == |text| || attempts >= 3 {
          break;
        }
      }
      complete := written == |text|;
      TriesEnd(reports, old(calls), text, 3);
      HeardMore(device, trace, Wrote(cmd, complete));
      WireMore(trace, Wrote(cmd, complete));
      trace := trace + [Wrote(cmd, complete)];
    }

    /**
      * wait_response. A line that only comes with the last retry is reported, but counts as a
      * timeout all the same.
      */
    method WaitResponse(retrycount: nat, expected: string, guarded: bool) returns (error: bool, buff: string)
      requires retrycount > 1 && Faithful()
      modifies this`trace
      ensures Faithful() && trace == old(trace) + [Answered(expected, buff, error, guarded, retrycount)]
      ensures (buff, error) == Waited(device, old(trace), 0, retrycount)
    {
      hide Render, WireOf, Heard, AllComplete;
      error := false;
      var retries := retrycount;
      buff := "";
      var i := 0;
      while true
        invariant retries > 0 && trace == old(trace) && i == retrycount - retries
        invariant Waited(device, trace, i, retries) == Waited(device, trace, 0, retrycount)
        decreases retries
      {
        buff := device(trace, i);
        i := i + 1;
        retries := retries - 1;
        if buff != "" || retries == 0 {
          break;
        }
      }
      if retries == 0 {
        error := true;
      }
      ghost var e := Answered(expected, buff, error, guarded, retrycount);
      HeardMore(device, trace, e);
      WireMore(trace, e);
      trace := trace + [Answered(expected, buff, error, guarded, retrycount)];
    }

    /** issue_command_get_ok */
    method IssueCommandGetOk(cmd: Command) returns (error: bool, buff: string)
      requires Faithful()
      modifies this
      ensures Faithful() && Remaining() <= old(Remaining())
      ensures (trace == old(trace) + [Wrote(cmd, false)] && error)
              || exists e: Event :: e.Answered? && e.expected == OK && !e.guarded && e.line == buff && e.polls == 100
                            && trace == old(trace) + [Wrote(cmd, true)] + [e] && (error <==> !Good(e))
    {
      hide Faithful, Left, Waited, Tries, Render;
      buff := "";
      var complete := WriteBuff(cmd);
      if !complete {
        return true, buff;
      }
      error, buff := WaitResponse(100, OK, false);
      ghost var e := Answered(OK, buff, error, false, 100);
      assert trace == old(trace) + [Wrote(cmd, true)] + [e];
      if !error {
        error := !(OK <= buff);
      }
    }

    /** wait_for_specific_response_or_abort */
    method WaitForSpecificResponseOrAbort(response: string, retrycount: nat) returns (error: bool, buff: string)
      requires retrycount > 1 && Faithful()
      modifies this
      ensures Faithful() && Remaining() <= old(Remaining())
      ensures !error ==> calls == old(calls)
      ensures exists e: Event :: e.Answered? && e.expected == response && e.guarded && e.line == buff
                          && e.polls == retrycount && (error <==> !Good(e))
                          && (if error then exists c :: trace == old(trace) + [e] + [Wrote(ABORT, c)]
                              else trace == old(trace) + [e])
    {
      hide Faithful, Left, Waited, Tries, Render;
      error, buff := WaitResponse(retrycount, response, true);
      ghost var e := Answered(response, buff, error, true, retrycount);
      assert trace == old(trace) + [e];
      if !error {
        if !(response <= buff) {
          var complete := WriteBuff(ABORT);
          assert trace == old(trace) + [e] + [Wrote(ABORT, complete)];
          error := true;
        }
      } else {
        var complete := WriteBuff(ABORT);
        assert trace == old(trace) + [e] + [Wrote(ABORT, complete)];
      }
    }
  }

  // ---------------------------------------------------------------- single steps

  /** The positions in the working buffer are ints: converting more than 2^30 bytes leaves their range. */
  const MAX_INT := 0x7FFF_FFFF

  /** The hex conversion of n bytes of the image into the working buffer. */
  method FillHex(imagebuf: array<byte>, xfered: nat, n: nat, hexbuff: array<char>) returns (overflow: bool)
    requires xfered + n <= imagebuf.Length && 2 * n < hexbuff.Length
    modifies hexbuff
    ensures overflow <==> n > 0x4000_0000
    ensures !overflow ==> hexbuff[..2 * n] == Hex(imagebuf[xfered..xfered + n])
  {
    hide NibbleToAscii, Hex;
    var m := 0;
    HexEmpty();
    assert imagebuf[xfered..xfered] == [];
    while m < n
      invariant 0 <= m <= n && m <= 0x4000_0000
      invariant hexbuff[..2 * m] == Hex(imagebuf[xfered..xfered + m])
    {
      if 2 * m + 1 > MAX_INT {
        return true;
      }
      var c := imagebuf[xfered + m];
      assert imagebuf[xfered..xfered + m + 1] == imagebuf[xfered..xfered + m] + [c];
      HexSnoc(imagebuf[xfered..xfered + m], c);
      hexbuff[2 * m] := NibbleToAscii(c / 16);
      hexbuff[2 * m + 1] := NibbleToAscii(c % 16);
      assert hexbuff[..2 * (m + 1)] == hexbuff[..2 * m] + [hexbuff[2 * m], hexbuff[2 * m + 1]];
      m := m + 1;
    }
    hexbuff[2 * n] := '\0';
    overflow := false;
  }

  /** sprintf of a command into the working buffer, unless text and terminator do not fit. */
  method Sprintf(strbuff: array<char>, cmd: Command) returns (overrun: bool)
    modifies strbuff
    ensures overrun <==> |Render(cmd)| >= strbuff.Length
    ensures !overrun ==> strbuff[..|Render(cmd)|] == Render(cmd) && strbuff[|Render(cmd)|] == '\0'
  {
    var text := Render(cmd);
    if |text| >= strbuff.Length {
      return true;
    }
    forall i | 0 <= i < |text| {
      strbuff[i] := text[i];
    }
    strbuff[|text|] := '\0';
    overrun := false;
  }

  /** The size of the buffer for a formatted data command, in the 32 bits it is computed in. */
  function FormatBuffer(chunksz: nat): nat { (100 + 2 * chunksz) % 0x1_0000_0000 }

  /** Sending a chunk of n bytes leaves the bounds of int, or the size of the format buffer has wrapped. */
  predicate Undefined(n: nat, chunksz: nat) {
    n > 0x4000_0000 || 100 + 2 * chunksz >= 0x1_0000_0000
  }

  /**
    * A formatted data command with its terminator fits its buffer exactly when the size of that has
    * not wrapped. Every update begins with a chunk of 64 bytes or more.
    */
  lemma FormatBufferFits(n: nat, hex: string, chunksz: nat)
    requires 0 < n <= chunksz < 0x8000_0000 && |hex| == 2 * n
    requires n >= 64 || 100 + 2 * chunksz < 0x1_0000_0000
    ensures |Render(PatchData(n, hex))| < FormatBuffer(chunksz) <==> 100 + 2 * chunksz < 0x1_0000_0000
  {
    hide Decimal;
    RenderLength(n, hex);
  }

  /** How many reports of nothing written come next. */
  function SilentReports(reports: seq<nat>, calls: nat): nat
    decreases |reports| - calls
  {
    if calls < |reports| && reports[calls] == 0 then 1 + SilentReports(reports, calls + 1) else 0
  }

  lemma SilentTry(reports: seq<nat>, calls: nat, text: string)
    requires SilentReports(reports, calls) > 0 && text != []
    ensures Tries(reports, calls, text, 3) == Attempt(false, calls + 1, "")
  {}

  /** Convert, format and write one chunk; overrun means that one of the working buffers would be left. */
  method SendChunk(link: Link, imagebuf: array<byte>, xfered: nat, n: nat, chunksz: nat, hexbuff: array<char>,
                   strbuff: array<char>) returns (error: bool, overrun: bool)
    requires link.Faithful() && xfered + n <= imagebuf.Length
    requires 0 < n <= chunksz < 0x8000_0000 && (n >= 64 || 100 + 2 * chunksz < 0x1_0000_0000)
    requires hexbuff.Length == 2 * chunksz + 1 && strbuff.Length == FormatBuffer(chunksz) && hexbuff != strbuff
    modifies link, hexbuff, strbuff
    ensures link.Faithful() && (overrun <==> Undefined(n, chunksz))
    ensures overrun ==> !error && link.trace == old(link.trace) && link.calls == old(link.calls)
    ensures !overrun ==> link.trace == old(link.trace) + [Wrote(DataCommand(imagebuf[..], xfered, n), !error)]
    ensures link.Remaining() <= old(link.Remaining()) && (error ==> link.Remaining() < old(link.Remaining()))
    ensures !overrun && SilentReports(link.reports, old(link.calls)) > 0 ==> error && link.calls == old(link.calls) + 1
  {
    hide Render, Hex, Heard, WireOf, AllComplete, Tries, Left, SilentReports, FormatBuffer;
    error := false;
    overrun := FillHex(imagebuf, xfered, n, hexbuff);
    if overrun {
      return;
    }
    assert imagebuf[..][xfered..xfered + n] == imagebuf[xfered..xfered + n];
    var cmd := PatchData(n, hexbuff[..2 * n]);
    FormatBufferFits(n, hexbuff[..2 * n], chunksz);
    overrun := Sprintf(strbuff, cmd);
    if overrun {
      return;
    }
    if SilentReports(link.reports, link.calls) > 0 {
      SilentTry(link.reports, link.calls, Render(cmd));
    }
    var complete := link.WriteBuff(cmd);
    error := !complete;
  }

  /** No data command has been written. */
  ghost predicate NoData(t: seq<Event>) { forall i :: 0 <= i < |t| ==> !IsData(t[i]) }

  /** A command whose write is all that matters. */
  method Put(link: Link, cmd: Command, ghost job: Job) returns (error: bool)
    requires link.Faithful() && Calm(job, link.trace) && cmd != ABORT && !cmd.PatchData?
    requires forall c :: Permitted(job, link.trace, Summary(link.trace), Wrote(cmd, c))
    modifies link
    ensures link.Faithful() && Legal(job, link.trace)
    ensures link.trace == old(link.trace) + [Wrote(cmd, !error)]
    ensures !error ==> Calm(job, link.trace)
    ensures NoData(old(link.trace)) ==> NoData(link.trace)
    ensures Summary(link.trace) == Observe(Summary(old(link.trace)), Wrote(cmd, !error))
  {
    hide Permitted, Legal, Summary, Observe, Heard, WireOf, AllComplete, Tries, Render;
    var complete := link.WriteBuff(cmd);
    Advance(job, old(link.trace), Wrote(cmd, complete));
    error := !complete;
  }

  /** A command that must be answered by OK. */
  method Ask(link: Link, cmd: Command, ghost job: Job) returns (error: bool, buff: string)
    requires link.Faithful() && Calm(job, link.trace) && Asks(cmd)
    requires forall c :: Permitted(job, link.trace, Summary(link.trace), Wrote(cmd, c))
    modifies link
    ensures link.Faithful() && Legal(job, link.trace) && link.Remaining() <= old(link.Remaining())
    ensures error ==> GivenUp(link.trace)
    ensures NoData(old(link.trace)) ==> NoData(link.trace)
    ensures !error ==> Calm(job, link.trace) && GoodAnswer(link.trace, OK, false)
                       && link.trace[|link.trace| - 1].line == buff
    ensures !error ==> |link.trace| == |old(link.trace)| + 2 && link.trace[..|old(link.trace)|] == old(link.trace)
                       && link.trace[|link.trace| - 2] == Wrote(cmd, true)
    ensures !error ==> Summary(link.trace) == Observe(Summary(old(link.trace)), Wrote(cmd, true))
  {
    hide Permitted, Legal, Summary, Heard, WireOf, AllComplete, Left;
    ghost var t := link.trace;
    error, buff := link.IssueCommandGetOk(cmd);
    Advance(job, t, Wrote(cmd, true));
    Advance(job, t, Wrote(cmd, false));
    if link.trace != t + [Wrote(cmd, false)] {
      ghost var e := link.trace[|link.trace| - 1];
      assert link.trace == t + [Wrote(cmd, true)] + [e];
      AnswerPermitted(job, t + [Wrote(cmd, true)], e);
      Advance(job, t + [Wrote(cmd, true)], e);
    }
  }

  /** A guarded wait. */
  method Await(link: Link, response: string, retrycount: nat, ghost job: Job) returns (error: bool, buff: string)
    requires link.Faithful() && Calm(job, link.trace) && retrycount > 1
    requires forall line, late :: Permitted(job, link.trace, Summary(link.trace),
                                            Answered(response, line, late, true, retrycount))
    modifies link
    ensures link.Faithful() && Legal(job, link.trace) && link.Remaining() <= old(link.Remaining())
    ensures error ==> Aborted(link.trace) && GivenUp(link.trace) && !Obliging(job, link.device)
    ensures NoData(old(link.trace)) ==> NoData(link.trace)
    ensures !error ==> link.calls == old(link.calls)
    ensures !error ==> Calm(job, link.trace) && GoodAnswer(link.trace, response, true)
                       && link.trace[|link.trace| - 1].line == buff
    ensures !error ==> |link.trace| == |old(link.trace)| + 1 && link.trace[..|old(link.trace)|] == old(link.trace)
    ensures !error ==> Summary(link.trace)
                       == var s := Summary(old(link.trace));
                          if response == CMP_OK then s.(outstanding := 0, start := |s.data|) else s
  {
    hide Permitted, Legal, Summary, Calm, Heard, WireOf, AllComplete, Left;
    ghost var t := link.trace;
    error, buff := link.WaitForSpecificResponseOrAbort(response, retrycount);
    ghost var e := link.trace[|t|];
    Advance(job, t, e);
    if error {
      AbortIsLegal(job, t, e, link.trace[|t| + 1].complete);
      ObligingHearsNoAbort(job, link.device, link.trace);
    }
  }

  // ---------------------------------------------------------------- the phases of an update

  /** Switch on notifications, start the update, describe the wiring. */
  method Handshake(link: Link, ghost job: Job) returns (error: bool)
    requires link.Faithful() && link.trace == []
    modifies link
    ensures link.Faithful() && Legal(job, link.trace)
    ensures error ==> GivenUp(link.trace)
    ensures NoData(link.trace)
    ensures !error ==> Calm(job, link.trace) && Summary(link.trace) == Seen([], 0, None, 0)
    ensures !error ==> MayAnnounce(link.trace) && !BlockAcked(link.trace)
  {
    hide Legal, Heard, WireOf, AllComplete, Left, BlockOver, Obliging;
    assert Calm(job, []) by { EmptyCalm(job); }
    var buff;
    error, buff := Ask(link, WriteStatusOn, job);
    if error {
      return;
    }
    error := Put(link, START, job);
    if error {
      return;
    }
    error, buff := Await(link, IMG_STARTED, 300, job);
    if error {
      return;
    }
    error, buff := Await(link, OK, 300, job);
    if error {
      return;
    }
    error, buff := Ask(link, GpioMap, job);
  }

  /** Announce the size of the next block. */
  method Announce(link: Link, n: nat, ghost job: Job) returns (error: bool)
    requires link.Faithful() && MayAnnounce(link.trace)
    requires var start := Summary(link.trace).start;
             && Between(job, link.trace, start) && start < |job.image|
             && n == BlockBytes(|job.image| - start, job.bufsz)
             && (BlockAcked(link.trace) ==> |job.image| - start <= job.bufsz)
    modifies link
    ensures link.Faithful() && Legal(job, link.trace)
    ensures error ==> GivenUp(link.trace)
    ensures NoData(old(link.trace)) ==> NoData(link.trace)
    ensures !error ==> Calm(job, link.trace) && MayStream(link.trace) && !BlockAcked(link.trace)
                       && Summary(link.trace) == Summary(old(link.trace)).(announced := Some(n % 0x1_0000))
  {
    BetweenMeans(job, link.trace, Summary(link.trace).start);
    AnnouncePermitted(job, link.trace, Summary(link.trace).start, n);
    LenCommandValue(n);
    hide Legal, Calm, Summary, MayAnnounce, BlockAcked, Heard, WireOf, AllComplete, Left, BlockBytes, NoData, Permitted,
      Between, MayStream;
    var buff;
    error, buff := Ask(link, LenCommand(n), job);
    if !error {
      AnnouncedStreams(link.trace);
    }
  }

  lemma AnnouncedStreams(t: seq<Event>)
    requires |t| >= 2 && GoodAnswer(t, OK, false) && t[|t| - 2].Wrote? && t[|t| - 2].cmd.PatchLen?
    ensures MayStream(t) && !BlockAcked(t)
  {}

  lemma TwoChunks(bufsz: nat)
    requires bufsz >= 128
    ensures bufsz / (bufsz / 2) == 2
  {
    var c := bufsz / 2;
    assert bufsz == 2 * c || bufsz == 2 * c + 1;
    assert (2 * c) / c == 2 && (2 * c + 1) / c == 2 by { Quotient(c, 0); Quotient(c, 1); }
  }

  lemma Quotient(c: nat, r: nat)
    requires r < c
    ensures (2 * c + r) / c == 2
  {}

  /**
    * The two chunks of a full block; a short write ends the block early. When a report of nothing
    * written comes next, the block makes one call and does not advance.
    */
  method SendBlock(link: Link, imagebuf: array<byte>, xfered0: nat, bufsz: nat, chunksz: nat, hexbuff: array<char>,
                   strbuff: array<char>, ghost job: Job) returns (xfered: nat, overrun: bool)
    requires job.image == imagebuf[..] && job.bufsz == bufsz && link.Faithful()
    requires 128 <= bufsz < 0x1_0000_0000 && chunksz == bufsz / 2 && xfered0 + bufsz < imagebuf.Length
    requires hexbuff.Length == 2 * chunksz + 1 && strbuff.Length == FormatBuffer(chunksz) && hexbuff != strbuff
    requires Inside(job, link.trace, xfered0, xfered0, 0) && MayStream(link.trace)
    modifies link, hexbuff, strbuff
    ensures link.Faithful() && (overrun <==> Undefined(chunksz, chunksz))
    ensures overrun ==> link.trace == old(link.trace)
    ensures !overrun ==> DataLast(link.trace) && xfered0 <= xfered <= xfered0 + 2 * chunksz
                         && |link.trace| > |old(link.trace)| && link.Remaining() <= old(link.Remaining())
                         && (xfered == xfered0 + 2 * chunksz || link.Remaining() < old(link.Remaining()))
    ensures !overrun ==> exists k: nat :: Inside(job, link.trace, xfered0, xfered, k)
                           && (WholeDataLast(link.trace) ==> k == 2 * chunksz)
    ensures !overrun && SilentReports(link.reports, old(link.calls)) > 0 ==>
              xfered == xfered0 && link.calls == old(link.calls) + 1 && |link.trace| == |old(link.trace)| + 1
  {
    hide *;
    TwoChunks(bufsz);
    xfered := xfered0;
    var rounds := bufsz / chunksz;
    var n := 0;
    ghost var k := 0;
    while n < rounds
      invariant 0 <= n <= 2 == rounds && xfered == xfered0 + k && link.Faithful()
      invariant k == if n == 0 then 0 else if n == 1 then chunksz else 2 * chunksz
      invariant Inside(job, link.trace, xfered0, xfered, k) && MayStream(link.trace)
      invariant n == 0 ==> link.trace == old(link.trace) && link.calls == old(link.calls)
      invariant n > 0 ==> DataLast(link.trace) && !Undefined(chunksz, chunksz) && |link.trace| > |old(link.trace)|
                          && SilentReports(link.reports, old(link.calls)) == 0
      invariant imagebuf[..] == job.image && link.Remaining() <= old(link.Remaining())
    {
      ghost var t := link.trace;
      var error;
      error, overrun := SendChunk(link, imagebuf, xfered, chunksz, chunksz, hexbuff, strbuff);
      if overrun {
        return;
      }
      DataPermitted(job, t, xfered0, xfered, chunksz, k, !error);
      k := k + chunksz;
      if error {
        return;
      }
      xfered := xfered + chunksz;
      n := n + 1;
    }
    overrun := false;
  }

  lemma AckStreams(t: seq<Event>)
    requires BlockAcked(t)
    ensures MayStream(t) && MayAnnounce(t)
  {}

  /** The acknowledgement of a block. */
  method AwaitBlock(link: Link, retrycount: nat, ghost job: Job, ghost start: nat, ghost xfered: nat, ghost k: nat)
    returns (error: bool, buff: string)
    requires link.Faithful() && Inside(job, link.trace, start, xfered, k) && DataLast(link.trace)
    requires retrycount == if |job.image| - start > job.bufsz then 300 else 3000
    requires if |job.image| - start > job.bufsz then WholeDataLast(link.trace) ==> k == 2 * (job.bufsz / 2)
             else WholeDataLast(link.trace) && k == |job.image| - start
    modifies link
    ensures link.Faithful() && Legal(job, link.trace) && link.Remaining() <= old(link.Remaining())
    ensures error ==> GivenUp(link.trace) && !Obliging(job, link.device)
    ensures !error ==> Between(job, link.trace, xfered) && BlockAcked(link.trace)
                       && Summary(link.trace).announced == Summary(old(link.trace)).announced
                       && link.trace[|link.trace| - 1].line == buff
    ensures !error ==> link.calls == old(link.calls) && |link.trace| == |old(link.trace)| + 1
  {
    hide Summary, Legal, Permitted, Expects, Heard, WireOf, AllComplete, Left, BlockBytes, Obliging;
    AckPermitted(job, link.trace, start, xfered, k, retrycount);
    error, buff := Await(link, CMP_OK, retrycount, job);
  }

  /** Between two blocks of an announced size, a full one may begin. */
  lemma BlockBegins(job: Job, t: seq<Event>, xfered: nat)
    requires Between(job, t, xfered) && |job.image| - xfered > job.bufsz
    requires Summary(t).announced == Some(job.bufsz % 0x1_0000)
    ensures Inside(job, t, xfered, xfered, 0)
  {
    hide Summary, Legal;
  }

  lemma InsideMeans(job: Job, t: seq<Event>, start: nat, xfered: nat, outstanding: nat)
    requires Inside(job, t, start, xfered, outstanding)
    ensures Legal(job, t) && Summary(t).announced == Some(BlockBytes(|job.image| - start, job.bufsz) % 0x1_0000)
  {}

  /**
    * The main bulk: full blocks, each acknowledged before the next one starts. Every turn either
    * advances by two chunks or uses up a disturbance of the line. A device that acknowledges every
    * block keeps the loop going for at least as many turns as there are reports of nothing written.
    */
  method SendBulk(link: Link, imagebuf: array<byte>, bufsz: nat, chunksz: nat, hexbuff: array<char>,
                  strbuff: array<char>, ghost job: Job) returns (error: bool, overrun: bool, xfered: nat)
    requires job.image == imagebuf[..] && job.bufsz == bufsz && link.Faithful()
    requires 128 <= bufsz < 0x1_0000_0000 && chunksz == bufsz / 2 && imagebuf.Length >= 1
    requires hexbuff.Length == 2 * chunksz + 1 && strbuff.Length == FormatBuffer(chunksz) && hexbuff != strbuff
    requires Between(job, link.trace, 0)
    requires imagebuf.Length > bufsz ==>
               Summary(link.trace).announced == Some(bufsz % 0x1_0000) && MayStream(link.trace)
    modifies link, hexbuff, strbuff
    ensures link.Faithful() && Legal(job, link.trace)
    ensures overrun <==> imagebuf.Length > bufsz && Undefined(chunksz, chunksz)
    ensures overrun ==> link.trace == old(link.trace)
    ensures error ==> GivenUp(link.trace) && !overrun
    ensures !error && !overrun ==> Between(job, link.trace, xfered) && 0 < imagebuf.Length - xfered <= bufsz
    ensures !error && !overrun ==> BlockAcked(link.trace) || (link.trace == old(link.trace) && imagebuf.Length <= bufsz)
    ensures imagebuf.Length <= bufsz ==> !error && xfered == 0 && link.trace == old(link.trace)
    ensures imagebuf.Length > bufsz && !overrun && Obliging(job, link.device) ==>
              !error && |link.trace| >= |old(link.trace)| + 2 * SilentReports(link.reports, old(link.calls))
  {
    hide *;
    var buff;
    error, overrun, xfered := false, false, 0;
    BetweenMeans(job, link.trace, 0);
    ghost var goal := |old(link.trace)| + 2 * SilentReports(link.reports, link.calls);
    while imagebuf.Length - xfered > bufsz
      invariant imagebuf[..] == job.image && 0 <= xfered < imagebuf.Length && !error && !overrun && link.Faithful()
      invariant Between(job, link.trace, xfered) && Legal(job, link.trace)
      invariant imagebuf.Length > bufsz ==>
                  Summary(link.trace).announced == Some(bufsz % 0x1_0000) && MayStream(link.trace)
      invariant (link.trace == old(link.trace) && xfered == 0)
                || (BlockAcked(link.trace) && !Undefined(chunksz, chunksz))
      invariant imagebuf.Length <= bufsz ==> link.trace == old(link.trace) && xfered == 0
      invariant |link.trace| >= goal
                || (xfered == 0 && |link.trace| + 2 * SilentReports(link.reports, link.calls) >= goal)
      decreases link.Remaining(), imagebuf.Length - xfered
    {
      ghost var start := xfered;
      BlockBegins(job, link.trace, xfered);
      SilentNext(link.reports, link.calls);
      xfered, overrun := SendBlock(link, imagebuf, xfered, bufsz, chunksz, hexbuff, strbuff, job);
      if overrun {
        return;
      }
      ghost var k: nat :| Inside(job, link.trace, start, xfered, k)
                          && (WholeDataLast(link.trace) ==> k == 2 * chunksz);
      InsideMeans(job, link.trace, start, xfered, k);
      BlockIsFull(|job.image| - start, bufsz);
      error, buff := AwaitBlock(link, 300, job, start, xfered, k);
      if error {
        return;
      }
      AckStreams(link.trace);
      BetweenMeans(job, link.trace, xfered);
    }
  }

  lemma SilentNext(reports: seq<nat>, calls: nat)
    ensures SilentReports(reports, calls) > 0 ==>
              SilentReports(reports, calls) == 1 + SilentReports(reports, calls + 1)
  {}

  lemma BlockIsFull(remaining: int, bufsz: nat)
    requires remaining > bufsz
    ensures BlockBytes(remaining, bufsz) == bufsz
  {}

  lemma BetweenMeans(job: Job, t: seq<Event>, xfered: nat)
    requires Between(job, t, xfered)
    ensures Legal(job, t) && Calm(job, t)
  {}

  /** The whole chunks of the last block. */
  method SendWholeChunks(link: Link, imagebuf: array<byte>, xfered0: nat, bufsz: nat, chunksz: nat,
                         hexbuff: array<char>, strbuff: array<char>, ghost job: Job)
    returns (error: bool, overrun: bool, xfered: nat)
    requires job.image == imagebuf[..] && job.bufsz == bufsz && link.Faithful()
    requires 128 <= bufsz < 0x1_0000_0000 && chunksz == bufsz / 2
    requires xfered0 < imagebuf.Length <= xfered0 + bufsz
    requires hexbuff.Length == 2 * chunksz + 1 && strbuff.Length == FormatBuffer(chunksz) && hexbuff != strbuff
    requires Inside(job, link.trace, xfered0, xfered0, 0) && MayStream(link.trace) && !BlockAcked(link.trace)
    modifies link, hexbuff, strbuff
    ensures link.Faithful() && Legal(job, link.trace)
    ensures overrun <==> imagebuf.Length - xfered0 >= chunksz && Undefined(chunksz, chunksz)
    ensures overrun ==> link.trace == old(link.trace)
    ensures error ==> GivenUp(link.trace) && !overrun && imagebuf.Length - xfered0 >= chunksz
    ensures !error && !overrun ==>
              && xfered0 <= xfered <= imagebuf.Length < xfered + chunksz && !BlockAcked(link.trace)
              && Inside(job, link.trace, xfered0, xfered, xfered - xfered0) && MayStream(link.trace)
              && if imagebuf.Length - xfered0 < chunksz then xfered == xfered0 && link.trace == old(link.trace)
                 else WholeDataLast(link.trace)
  {
    hide *;
    xfered := xfered0;
    error, overrun := false, false;
    InsideMeans(job, link.trace, xfered0, xfered0, 0);
    while imagebuf.Length - xfered >= chunksz
      invariant xfered0 <= xfered <= imagebuf.Length && !error && !overrun && link.Faithful() && Legal(job, link.trace)
      invariant Inside(job, link.trace, xfered0, xfered, xfered - xfered0) && MayStream(link.trace)
      invariant !BlockAcked(link.trace)
      invariant xfered == xfered0 ==> link.trace == old(link.trace)
      invariant xfered > xfered0 ==>
                  WholeDataLast(link.trace) && !Undefined(chunksz, chunksz) && imagebuf.Length - xfered0 >= chunksz
      invariant imagebuf[..] == job.image
    {
      ghost var t := link.trace;
      error, overrun := SendChunk(link, imagebuf, xfered, chunksz, chunksz, hexbuff, strbuff);
      if overrun {
        return;
      }
      DataPermitted(job, t, xfered0, xfered, chunksz, xfered - xfered0, !error);
      InsideMeans(job, link.trace, xfered0, if error then xfered else xfered + chunksz, xfered + chunksz - xfered0);
      if error {
        ShortWriteGivesUp(link.trace);
      }
      xfered := xfered + chunksz;
      if error {
        return;
      }
    }
  }

  lemma ShortWriteGivesUp(t: seq<Event>)
    requires t != [] && t[|t| - 1].Wrote? && !t[|t| - 1].complete
    ensures GivenUp(t)
  {}

  /** The last block: whole chunks, then what is left of one; buff is the acknowledging line. */
  method SendRest(link: Link, imagebuf: array<byte>, xfered0: nat, bufsz: nat, chunksz: nat, hexbuff: array<char>,
                  strbuff: array<char>, ghost job: Job) returns (error: bool, overrun: bool, buff: string)
    requires job.image == imagebuf[..] && job.bufsz == bufsz && link.Faithful()
    requires 128 <= bufsz < 0x1_0000_0000 && chunksz == bufsz / 2
    requires xfered0 < imagebuf.Length <= xfered0 + bufsz
    requires imagebuf.Length - xfered0 >= 64 || 100 + 2 * chunksz < 0x1_0000_0000
    requires hexbuff.Length == 2 * chunksz + 1 && strbuff.Length == FormatBuffer(chunksz) && hexbuff != strbuff
    requires Inside(job, link.trace, xfered0, xfered0, 0) && MayStream(link.trace) && !BlockAcked(link.trace)
    modifies link, hexbuff, strbuff
    ensures link.Faithful() && Legal(job, link.trace)
    ensures overrun <==> Undefined(FirstChunk(imagebuf.Length - xfered0, chunksz), chunksz)
    ensures overrun ==> link.trace == old(link.trace)
    ensures error ==> GivenUp(link.trace) && !overrun
    ensures !error && !overrun ==> Between(job, link.trace, imagebuf.Length) && BlockAcked(link.trace)
                                   && link.trace[|link.trace| - 1].line == buff
  {
    hide Summary, Legal, Permitted, Hex, MayStream, Expects, Observe, Heard, WireOf, AllComplete, Left, Inside, Between,
      Calm, DataLast, BlockAcked, DataCommand, FormatBuffer, SilentReports, GivenUp, Tries, Obliging;
    var size := imagebuf.Length;
    var xfered;
    buff := "";
    error, overrun, xfered := SendWholeChunks(link, imagebuf, xfered0, bufsz, chunksz, hexbuff, strbuff, job);
    if error || overrun {
      return;
    }
    if size - xfered > 0 {
      var rlen := size - xfered;
      ghost var t := link.trace;
      error, overrun := SendChunk(link, imagebuf, xfered, rlen, chunksz, hexbuff, strbuff);
      if overrun {
        return;
      }
      DataPermitted(job, t, xfered0, xfered, rlen, xfered - xfered0, !error);
      InsideMeans(job, link.trace, xfered0, if error then xfered else xfered + rlen, xfered + rlen - xfered0);
      if error {
        ShortWriteGivesUp(link.trace);
        return;
      }
    }
    error, buff := AwaitBlock(link, 3000, job, xfered0, size, size - xfered0);
  }

  /** What the first data command of a block of this size carries. */
  function FirstChunk(size: nat, chunksz: nat): nat { if size >= chunksz then chunksz else size }

  /**
    * The first m events end with the answer to READ_MEMINFO; an abort follows if it is wrong, and
    * nothing if it is right.
    */
  predicate LengthChecked(job: Job, t: seq<Event>, m: nat) {
    && m <= |t| && MemInfoAnswered(t[..m])
    && if WrongLength(job, t[..m]) then |t| == m + 1 && IsAbort(t[m]) else |t| == m
  }

  /**
    * Ask for the number of bytes the device holds; a wrong number is answered with an abort.
    * prior is what the answer buffer holds from the wait before.
    */
  method CheckLength(link: Link, size: nat, atoi: string -> int, prior: string, ghost job: Job) returns (error: bool)
    requires job.atoi == atoi && size == |job.image| && link.Faithful()
    requires Between(job, link.trace, size) && BlockAcked(link.trace) && link.trace[|link.trace| - 1].line == prior
    modifies link
    ensures link.Faithful() && Legal(job, link.trace)
    ensures error ==> GivenUp(link.trace)
    ensures !error ==> Calm(job, link.trace) && MayEnd(job, link.trace)
                       && Summary(link.trace).outstanding == 0 && Summary(link.trace).data == job.image
    ensures !error ==> LengthChecked(job, link.trace, |old(link.trace)| + 2)
  {
    hide Legal, Summary, UnHex, BlockBytes, LenValue, MayStream, MayAnnounce, Heard, WireOf, AllComplete, Left,
      Tries, Render;
    ghost var t := link.trace;
    assert job.image[..size] == job.image && |prior| >= 18;
    var buff;
    error, buff := Ask(link, ReadMemInfo, job);
    if error {
      return;
    }
    ghost var u := link.trace;
    assert u[|u| - 3] == t[|t| - 1];
    var text := if |buff| >= 3 then buff[3..] else prior[3..];
    assert MemInfoAnswered(u) && text == LengthText(u);
    var length := atoi(text);
    if ToUnsigned(length) != size {
      var complete := link.WriteBuff(ABORT);
      Advance(job, u, Wrote(ABORT, complete));
      assert link.trace[..|link.trace| - 1] == u;
    }
    assert link.trace[..|u|] == u;
  }

  /** The end of an update: check the length, end the transfer, wait for the device, reset it. */
  method Finish(link: Link, size: nat, atoi: string -> int, prior: string, ghost job: Job) returns (error: bool)
    requires job.atoi == atoi && size == |job.image| && link.Faithful()
    requires Between(job, link.trace, size) && BlockAcked(link.trace) && link.trace[|link.trace| - 1].line == prior
    modifies link
    ensures link.Faithful() && Legal(job, link.trace)
    ensures error ==> GivenUp(link.trace)
    ensures !error ==> var n := |link.trace| - 3;
                       && 0 <= n && LengthChecked(job, link.trace[..n], |old(link.trace)| + 2)
                       && link.trace[n] == Wrote(END, true) && IsAck(link.trace[n + 1]) && Succeeded(link.trace)
  {
    hide Legal, Summary, UnHex, BlockBytes, LenValue, MayStream, MayAnnounce, MayEnd, Heard, WireOf, AllComplete,
      Left, LengthChecked;
    error := CheckLength(link, size, atoi, prior, job);
    if error {
      return;
    }
    ghost var checked := link.trace;
    error := Put(link, END, job);
    if error {
      return;
    }
    ghost var u := link.trace;
    var buff;
    error, buff := Await(link, CMP_OK, 300, job);
    if error {
      return;
    }
    assert link.trace[|link.trace| - 2] == u[|u| - 1];
    error := Put(link, RESET, job);
    assert link.trace[..|checked|] == checked;
  }

  // ---------------------------------------------------------------- the update

  /** The first line that n reads find starts with the expected text, and it is not found by the last of them. */
  ghost predicate InTime(device: Device, t: seq<Event>, expected: string, n: nat) {
    exists k :: 0 <= k < n - 1 && expected <= device(t, k) && forall j :: 0 <= j < k ==> device(t, j) == ""
  }

  /**
    * A device that always says in time what is waited for: a command is answered within 99 reads,
    * the last block of data within 2999, and anything else that is guarded within 299.
    */
  ghost predicate Obliging(job: Job, device: Device) {
    forall t, expected, guarded :: Legal(job, t) && t != [] && Expects(t, expected, guarded) ==>
      InTime(device, t, expected,
             if !guarded then 100
             else if DataLast(t) && |job.image| - Summary(t).start <= job.bufsz then 3000
             else 300)
  }

  /** A wait ends well exactly when the line comes in time. */
  lemma {:induction false} WaitedInTime(device: Device, t: seq<Event>, expected: string, i: nat, n: nat)
    requires n > 0 && expected != ""
    ensures var (line, late) := Waited(device, t, i, n);
            (!late && expected <= line)
            <==> exists k :: i <= k < i + n - 1 && expected <= device(t, k)
                             && forall j :: i <= j < k ==> device(t, j) == ""
    decreases n
  {
    if n > 1 && device(t, i) == "" {
      WaitedInTime(device, t, expected, i + 1, n - 1);
    }
  }

  /** On a perfect line an obliging device gives no reason to give up. */
  lemma ObligingGivesNoReason(job: Job, device: Device, t: seq<Event>)
    requires Legal(job, t) && Heard(device, t) && AllComplete(t) && Obliging(job, device)
    ensures !GivenUp(t)
  {
    hide Legal, Summary, Obliging;
    if GivenUp(t) {
      if FailedCommand(t[|t| - 1]) {
        ObligingAnswersWell(job, device, t, |t| - 1);
      } else if Aborted(t) {
        ObligingAnswersWell(job, device, t, |t| - 2);
      }
      assert false;
    }
  }

  /** Such a device never makes a guarded wait fail, whatever the line does. */
  lemma ObligingHearsNoAbort(job: Job, device: Device, t: seq<Event>)
    requires Legal(job, t) && Heard(device, t) && Aborted(t)
    ensures !Obliging(job, device)
  {
    hide Legal, Obliging;
    if Obliging(job, device) {
      ObligingAnswersWell(job, device, t, |t| - 2);
      assert false;
    }
  }

  lemma ObligingAnswersWell(job: Job, device: Device, t: seq<Event>, i: nat)
    requires Legal(job, t) && Heard(device, t) && Obliging(job, device) && i < |t| && t[i].Answered?
    ensures Good(t[i])
  {
    hide Legal, Summary, Expects, Waited;
    LegalAt(job, t, i);
    var u, e := t[..i], t[i];
    assert IsWait(device, u, e);
    assert InTime(device, u, e.expected, e.polls);
    ExpectedIsSome(u, e.expected, e.guarded);
    WaitedInTime(device, u, e.expected, 0, e.polls);
  }

  /**
    * Silence for 99 reads of a command's wait, for 2999 after the last block and for 299 of any other
    * guarded wait is too long: the wait fails, whatever its last read finds.
    */
  lemma LateIsTooLate(job: Job, device: Device, t: seq<Event>, i: nat)
    requires Legal(job, t) && Heard(device, t) && i < |t| && t[i].Answered?
    requires var last := DataLast(t[..i]) && |job.image| - Summary(t[..i]).start <= job.bufsz;
             forall j :: 0 <= j < (if !t[i].guarded then 99 else if last then 2999 else 299) ==> device(t[..i], j) == ""
    ensures FailedCommand(t[i]) || FailedWait(t[i])
  {
    hide Legal, Summary, Expects, Waited;
    LegalAt(job, t, i);
    var u, e := t[..i], t[i];
    assert IsWait(device, u, e);
    ExpectedIsSome(u, e.expected, e.guarded);
    WaitedInTime(device, u, e.expected, 0, e.polls);
  }

  lemma ExpectedIsSome(t: seq<Event>, expected: string, guarded: bool)
    requires t != [] && Expects(t, expected, guarded)
    ensures expected != ""
  {
    assert |OK| == 2 && |IMG_STARTED| == 23 && |CMP_OK| == 18;
  }

  /**
    * The device was asked for the length, and an abort was sent exactly when its answer was not the
    * size of the image.
    */
  ghost predicate AbortedIfWrong(job: Job, t: seq<Event>) {
    && (exists q :: 0 <= q <= |t| && MemInfoAnswered(t[..q]))
    && forall q :: 0 <= q <= |t| && MemInfoAnswered(t[..q]) ==>
         ((exists i :: 0 <= i < |t| && IsAbort(t[i])) <==> WrongLength(job, t[..q]))
  }

  lemma SuccessAborts(job: Job, t: seq<Event>)
    requires Legal(job, t) && Succeeded(t)
    ensures AbortedIfWrong(job, t)
  {
    hide Legal, WrongLength, MemInfoAnswered, IsAbort, Succeeded;
    LengthIsAsked(job, t);
    forall q | 0 <= q <= |t| && MemInfoAnswered(t[..q])
      ensures (exists i :: 0 <= i < |t| && IsAbort(t[i])) <==> WrongLength(job, t[..q])
    {
      AbortIffWrongLength(job, t, q);
    }
  }

  /** How an update ends; an overrun has left the bounds of a working buffer, and what follows is undefined. */
  datatype Outcome = Success | Failure | Overrun

  /** Whether an image and a buffer of these sizes make the first data command an overrun. */
  predicate Overruns(size: nat, bufsz: nat) { Undefined(FirstChunk(size, bufsz / 2), bufsz / 2) }

  /**
    * do_firmware_update. The trace obeys the protocol, whatever the device says and whatever the
    * line does to the writes. Sizes that overrun a working buffer do so at the first data command,
    * if the run comes to one; all other sizes never do.
    */
  method DoFirmwareUpdate(link: Link, imagebuf: array<byte>, bufsz: nat, atoi: string -> int) returns (outcome: Outcome)
    requires link.Faithful() && link.trace == []
    requires imagebuf.Length < 0x1_0000_0000 && bufsz < 0x1_0000_0000
    modifies link
    ensures link.Faithful() && Legal(Job(imagebuf[..], bufsz, atoi), link.trace)
    ensures imagebuf.Length < 64 || bufsz / 2 < 64 ==> outcome == Failure && link.trace == []
    ensures outcome == Failure && imagebuf.Length >= 64 && bufsz / 2 >= 64 ==> GivenUp(link.trace)
    ensures outcome == Success <==> Succeeded(link.trace)
    ensures outcome == Success ==> AbortedIfWrong(Job(imagebuf[..], bufsz, atoi), link.trace)
    ensures link.reports == [] ==> ReadAll(link.wire) == Some(Messages(link.trace))
    ensures link.reports == [] && outcome == Success ==> HandsOver(ReadAll(link.wire).value, imagebuf[..])
    ensures outcome == Overrun ==> Overruns(imagebuf.Length, bufsz) && !GivenUp(link.trace)
    ensures Overruns(imagebuf.Length, bufsz) ==> outcome != Success && NoData(link.trace)
    ensures imagebuf.Length >= 64 && bufsz / 2 >= 64
            && link.reports == [] && Obliging(Job(imagebuf[..], bufsz, atoi), link.device) ==>
              outcome == if Overruns(imagebuf.Length, bufsz) then Overrun else Success
  {
    hide Legal, Summary, Permitted, Heard, WireOf, AllComplete, MayStream, MayAnnounce, BlockAcked, Overruns, ReadAll,
      Messages, HandsOver, Readable;
    ghost var job := Job(imagebuf[..], bufsz, atoi);
    outcome := Update(link, imagebuf, bufsz, atoi, job);
    LegalIsReadable(job, link.trace);
    WireRead(link.trace);
    if outcome == Success && link.reports == [] {
      SuccessIsRead(job, link.trace);
    }
    if outcome == Success {
      SuccessAborts(job, link.trace);
    } else if outcome == Overrun {
      StreamGoesOn(job, link.trace);
    } else if link.reports == [] && Obliging(job, link.device) {
      ObligingGivesNoReason(job, link.device, link.trace);
    }
  }

  method Update(link: Link, imagebuf: array<byte>, bufsz: nat, atoi: string -> int, ghost job: Job)
    returns (outcome: Outcome)
    requires job == Job(imagebuf[..], bufsz, atoi) && link.Faithful() && link.trace == []
    requires imagebuf.Length < 0x1_0000_0000 && bufsz < 0x1_0000_0000
    modifies link
    ensures link.Faithful() && Legal(job, link.trace)
    ensures imagebuf.Length < 64 || bufsz / 2 < 64 ==> outcome == Failure && link.trace == []
    ensures outcome == Failure && imagebuf.Length >= 64 && bufsz / 2 >= 64 ==> GivenUp(link.trace)
    ensures outcome == Success ==> Succeeded(link.trace)
    ensures outcome == Overrun ==> Overruns(imagebuf.Length, bufsz) && Calm(job, link.trace) && MayStream(link.trace)
    ensures Overruns(imagebuf.Length, bufsz) ==> outcome != Success && NoData(link.trace)
  {
    hide Legal, Summary, Permitted, Heard, WireOf, AllComplete, MayStream, MayAnnounce, BlockAcked, Left, FormatBuffer,
      NoData, GivenUp, Obliging, SilentReports;
    var chunksz := bufsz / 2;
    EmptyCalm(job);
    assert NoData([]) by { NoDataYet(); }
    if imagebuf.Length < 64 || chunksz < 64 {
      return Failure;
    }
    var strbuff := new char[FormatBuffer(chunksz)];
    var hexbuff := new char[chunksz * 2 + 1];
    var error := Handshake(link, job);
    if error {
      return Failure;
    }
    if imagebuf.Length > bufsz {
      error := Announce(link, bufsz, job);
      if error {
        return Failure;
      }
    }
    var xfered, overrun;
    error, overrun, xfered := SendBulk(link, imagebuf, bufsz, chunksz, hexbuff, strbuff, job);
    if overrun {
      return Overrun;
    }
    if error {
      return Failure;
    }
    if BlockAcked(link.trace) {
      AckStreams(link.trace);
    }
    error := Announce(link, imagebuf.Length - xfered, job);
    if error {
      return Failure;
    }
    var buff;
    error, overrun, buff := SendRest(link, imagebuf, xfered, bufsz, chunksz, hexbuff, strbuff, job);
    if overrun {
      return Overrun;
    }
    if error {
      return Failure;
    }
    error := Finish(link, imagebuf.Length, atoi, buff, job);
    outcome := if error then Failure else Success;
  }

  lemma StreamGoesOn(job: Job, t: seq<Event>)
    requires Calm(job, t) && MayStream(t)
    ensures !GivenUp(t) && !Succeeded(t)
  {}

  lemma NoDataYet()
    ensures NoData([])
  {}
}
