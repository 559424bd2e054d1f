/** Particular runs of the firmware update: where its surprises show. */
module UsbRuns {
  import opened Bytes
  import opened UsbCommands
  import opened UsbProtocol
  import opened UsbUpdater
  import opened UsbWire

  // ---------------------------------------------------------------- legal beginnings

  const SAID_OK := Answered(OK, OK, false, false, 100)
  const ACKED := Answered(CMP_OK, CMP_OK, false, true, 300)

  /** The acknowledgement of the last block. */
  const LAST_ACKED := Answered(CMP_OK, CMP_OK, false, true, 3000)

  /** The seven events of an undisturbed handshake. */
  const HANDSHAKE: seq<Event> := [Wrote(WriteStatusOn, true), SAID_OK, Wrote(START, true),
                                  Answered(IMG_STARTED, IMG_STARTED, false, true, 300),
                                  Answered(OK, OK, false, true, 300),
                                  Wrote(GpioMap, true), SAID_OK]

  /** One more event that nothing speaks against. */
  lemma Extend(job: Job, t: seq<Event>, e: Event, u: seq<Event>)
    requires Calm(job, t) && Permitted(job, t, Summary(t), e) && u == t + [e]
    requires (e.Answered? ==> Good(e)) && !Fatal(e)
    ensures Calm(job, u) && Summary(u) == Observe(Summary(t), e)
  {
    hide Permitted, Legal, Summary, Observe;
    Advance(job, t, e);
  }

  lemma HandshakeIsLegal(job: Job)
    ensures Calm(job, HANDSHAKE) && Summary(HANDSHAKE) == Seen([], 0, None, 0)
    ensures MayAnnounce(HANDSHAKE) && !BlockAcked(HANDSHAKE)
  {
    var h := HANDSHAKE;
    EmptyCalm(job);
    hide Calm, Summary;
    Extend(job, [], h[0], h[..1]);
    Extend(job, h[..1], h[1], h[..2]);
    Extend(job, h[..2], h[2], h[..3]);
    Extend(job, h[..3], h[3], h[..4]);
    Extend(job, h[..4], h[4], h[..5]);
    Extend(job, h[..5], h[5], h[..6]);
    Extend(job, h[..6], h[6], h[..7]);
    assert h[..7] == h;
  }

  /** The first block, of n bytes, is announced and the device says OK. */
  lemma AnnounceIsLegal(job: Job, n: nat)
    requires job.image != [] && n == BlockBytes(|job.image|, job.bufsz)
    ensures var u := HANDSHAKE + [Wrote(LenCommand(n), true), SAID_OK];
            Inside(job, u, 0, 0, 0) && MayStream(u) && !BlockAcked(u)
  {
    hide Calm, Summary, MayAnnounce, BlockBytes, Permitted;
    HandshakeIsLegal(job);
    LenCommandValue(n);
    var t := HANDSHAKE;
    var u := t + [Wrote(LenCommand(n), true)];
    AnnouncePermitted(job, t, 0, n);
    Extend(job, t, Wrote(LenCommand(n), true), u);
    AnswerPermitted(job, u, SAID_OK);
    Extend(job, u, SAID_OK, u + [SAID_OK]);
    assert u + [SAID_OK] == t + [Wrote(LenCommand(n), true), SAID_OK];
  }

  /** An image that fits one chunk, sent and acknowledged. */
  function OneBlock(image: seq<byte>): seq<Event> {
    HANDSHAKE + [Wrote(LenCommand(|image|), true), SAID_OK] + [Wrote(DataCommand(image, 0, |image|), true)]
    + [LAST_ACKED]
  }

  lemma OneBlockIsLegal(job: Job)
    requires 0 < |job.image| <= job.bufsz / 2
    ensures Between(job, OneBlock(job.image), |job.image|) && BlockAcked(OneBlock(job.image))
  {
    hide Calm, Summary, MayAnnounce, MayStream, Permitted, Hex, LenCommand;
    var n := |job.image|;
    AnnounceIsLegal(job, n);
    var t := HANDSHAKE + [Wrote(LenCommand(n), true), SAID_OK];
    var u := t + [Wrote(DataCommand(job.image, 0, n), true)];
    DataPermitted(job, t, 0, 0, n, 0, true);
    AckPermitted(job, u, 0, n, n, 3000);
    Extend(job, u, LAST_ACKED, u + [LAST_ACKED]);
  }

  // ---------------------------------------------------------------- success after an abort

  /** The end of a run whose length query was answered with some text. */
  function AbortedEnd(text: string): seq<Event> {
    [Wrote(ReadMemInfo, true), Answered(OK, "OK " + text, false, false, 100), Wrote(ABORT, true), Wrote(END, true),
     ACKED, Wrote(RESET, true)]
  }

  lemma AbortedEndIsLegal(job: Job, t: seq<Event>, text: string)
    requires Between(job, t, |job.image|) && BlockAcked(t) && ToUnsigned(job.atoi(text)) != |job.image|
    ensures Legal(job, t + AbortedEnd(text))
  {
    hide Legal, Summary, Calm;
    var a := AbortedEnd(text);
    var t1, t2, t3 := t + a[..1], t + a[..2], t + a[..3];
    var t4, t5, t6 := t + a[..4], t + a[..5], t + a[..6];
    Extend(job, t, a[0], t1);
    Extend(job, t1, a[1], t2);
    assert MemInfoAnswered(t2) && LengthText(t2) == text;
    Extend(job, t2, a[2], t3);
    assert t3[..|t3| - 1] == t2;
    Extend(job, t3, a[3], t4);
    Extend(job, t4, a[4], t5);
    Extend(job, t5, a[5], t6);
    CalmIsLegal(job, t6);
    assert t6 == t + a;
  }

  lemma CalmIsLegal(job: Job, t: seq<Event>)
    requires Calm(job, t)
    ensures Legal(job, t)
  {}

  /** For every image that fits one chunk there is a run that sends an abort and succeeds all the same. */
  lemma SuccessAfterAbort(job: Job, text: string)
    requires 0 < |job.image| <= job.bufsz / 2 && ToUnsigned(job.atoi(text)) != |job.image|
    ensures var t := OneBlock(job.image) + AbortedEnd(text);
            Legal(job, t) && Succeeded(t) && IsAbort(t[|t| - 4])
  {
    hide Legal, Summary, Calm;
    OneBlockIsLegal(job);
    AbortedEndIsLegal(job, OneBlock(job.image), text);
  }

  function Zeros(n: nat): (s: seq<byte>)
    ensures |s| == n
  {
    seq(n, _ => 0)
  }

  /** One such run: 64 zero bytes, a buffer of 128, and a device that reports "0". */
  lemma AbortDoesNotEndTheUpdate()
    ensures var t := OneBlock(Zeros(64)) + AbortedEnd("0");
            var job := Job(Zeros(64), 128, (s: string) => if s == "0" then 0 else -1);
            Legal(job, t) && Succeeded(t) && IsAbort(t[|t| - 4])
  {
    hide Legal, OneBlock;
    var job := Job(Zeros(64), 128, (s: string) => if s == "0" then 0 else -1);
    SuccessAfterAbort(job, "0");
  }

  /** What a device says after a history when all goes well, with some text as the length. */
  function Reply(t: seq<Event>, text: string): string {
    if t == [] then ""
    else match t[|t| - 1]
         case Wrote(cmd, _) =>
           (match cmd
            case MemDev(code) => if code == 0x13 then "INFO SUOUSB_IMG_STARTED" else "INFO SUOUSB_CMP_OK"
            case PatchData(_, _) => "INFO SUOUSB_CMP_OK"
            case ReadMemInfo => "OK " + text
            case _ => "OK")
         case Answered(_, _, _, _, _) => "OK"
  }

  /** A device that says so after k reads in vain. */
  function Replies(text: string, k: nat): Device {
    (t: seq<Event>, n: nat) => if n < k then "" else Reply(t, text)
  }

  /** Up to 98 reads in vain are in time for every wait of an update. */
  lemma RepliesObliges(job: Job, text: string, k: nat)
    requires k < 99
    ensures Obliging(job, Replies(text, k))
  {
    hide Expects, Reply, Legal, Summary, DataLast;
    forall t, expected, guarded | Legal(job, t) && t != [] && Expects(t, expected, guarded)
      ensures forall n :: n >= 100 ==> InTime(Replies(text, k), t, expected, n)
    {
      ReplyFits(text, t, expected, guarded);
      assert expected <= Replies(text, k)(t, k);
      assert forall j :: 0 <= j < k ==> Replies(text, k)(t, j) == "";
    }
  }

  lemma ReplyFits(text: string, t: seq<Event>, expected: string, guarded: bool)
    requires t != [] && Expects(t, expected, guarded)
    ensures expected <= Reply(t, text)
  {
    assert "OK" <= "OK " + text;
  }

  /**
    * The update itself, on a perfect line to such a device: for every image and buffer of the
    * required size that do not overrun, and every wrong length, it sends an abort and reports success.
    */
  method WrongLengthSucceeds(imagebuf: array<byte>, bufsz: nat, atoi: string -> int, text: string, k: nat)
    returns (link: Link, outcome: Outcome)
    requires 64 <= imagebuf.Length < 0x1_0000_0000 && 128 <= bufsz < 0x1_0000_0000
    requires ToUnsigned(atoi(text)) != imagebuf.Length && k < 99
    ensures fresh(link) && (outcome == if Overruns(imagebuf.Length, bufsz) then Overrun else Success)
    ensures outcome == Success ==> exists i :: 0 <= i < |link.trace| && IsAbort(link.trace[i])
  {
    hide Legal, Obliging, Heard, AllComplete, WireOf, Replies, MemInfoAnswered, WrongLength, Overruns, NoData, GivenUp,
      ReadAll, Messages, HandsOver;
    RepliesObliges(Job(imagebuf[..], bufsz, atoi), text, k);
    link := new Link(Replies(text, k), []);
    outcome := DoFirmwareUpdate(link, imagebuf, bufsz, atoi);
    if outcome == Success {
      ghost var job := Job(imagebuf[..], bufsz, atoi);
      ghost var q :| 0 <= q <= |link.trace| && MemInfoAnswered(link.trace[..q]);
      RepliedLength(job, link.trace, q, text, k);
    }
  }

  lemma RepliedLength(job: Job, t: seq<Event>, q: nat, text: string, k: nat)
    requires q <= |t| && MemInfoAnswered(t[..q]) && Heard(Replies(text, k), t)
    requires ToUnsigned(job.atoi(text)) != |job.image|
    ensures WrongLength(job, t[..q])
  {
    var u, e := t[..q - 1], t[q - 1];
    assert IsWait(Replies(text, k), u, e);
    assert u[|u| - 1] == t[..q][q - 2] && t[..q][q - 1] == e;
    RepliedLine(text, k, u, 0, e.polls);
    assert e.line == "OK " + text;
    assert e.line[3..] == text;
  }

  lemma {:induction false} RepliedLine(text: string, k: nat, t: seq<Event>, i: nat, n: nat)
    requires n > 0
    ensures var line := Waited(Replies(text, k), t, i, n).0; line == "" || line == Reply(t, text)
    decreases n
  {
    if n > 1 && Replies(text, k)(t, i) == "" {
      RepliedLine(text, k, t, i + 1, n - 1);
    }
  }

  // ---------------------------------------------------------------- odd buffers

  /** The first block of an image too large for the buffer, up to its acknowledgement. */
  function FullBlock(image: seq<byte>, bufsz: nat): seq<Event>
    requires bufsz <= |image|
  {
    var c := bufsz / 2;
    HANDSHAKE + [Wrote(LenCommand(bufsz), true), SAID_OK, Wrote(DataCommand(image, 0, c), true),
                 Wrote(DataCommand(image, c, c), true)]
  }

  lemma FullBlockIsLegal(job: Job)
    requires 2 <= job.bufsz < |job.image|
    ensures var t, s := FullBlock(job.image, job.bufsz), Summary(FullBlock(job.image, job.bufsz));
            && Legal(job, t + [ACKED]) && WholeDataLast(t)
            && s.outstanding == 2 * (job.bufsz / 2) && s.announced == Some(job.bufsz % 0x1_0000)
  {
    hide Calm, Summary, MayAnnounce, MayStream, Permitted, Hex, LenCommand, Observe, BlockBytes, Legal;
    var image, bufsz := job.image, job.bufsz;
    var c := bufsz / 2;
    BlockIsFull(|image|, bufsz);
    AnnounceIsLegal(job, bufsz);
    var t := HANDSHAKE + [Wrote(LenCommand(bufsz), true), SAID_OK];
    var t1 := t + [Wrote(DataCommand(image, 0, c), true)];
    var t2 := t1 + [Wrote(DataCommand(image, c, c), true)];
    DataPermitted(job, t, 0, 0, c, 0, true);
    DataPermitted(job, t1, 0, c, c, c, true);
    assert t2 == FullBlock(image, bufsz);
    AckPermitted(job, t2, 0, 2 * c, 2 * c, 300);
    Extend(job, t2, ACKED, t2 + [ACKED]);
    CalmIsLegal(job, t2 + [ACKED]);
  }

  /** A buffer of 129 bytes: the block announced as 129 bytes is acknowledged after 128. */
  lemma OddBufferFallsShort()
    ensures var t := FullBlock(Zeros(200), 129);
            && Legal(Job(Zeros(200), 129, (s: string) => 0), t + [ACKED])
            && Summary(t).outstanding == 128 && Summary(t).announced == Some(129)
  {
    hide Legal, FullBlock, Summary;
    FullBlockIsLegal(Job(Zeros(200), 129, (s: string) => 0));
  }

  // ---------------------------------------------------------------- late lines

  /** A line that only the last read of a wait finds is reported as a timeout, and any earlier one is not. */
  lemma {:induction false} LastReadIsTooLate(device: Device, t: seq<Event>, i: nat, n: nat, k: nat)
    requires k < n && device(t, i + k) != "" && forall j :: i <= j < i + k ==> device(t, j) == ""
    ensures Waited(device, t, i, n) == (device(t, i + k), k == n - 1)
    decreases k
  {
    if k > 0 {
      LastReadIsTooLate(device, t, i + 1, n - 1, k - 1);
    }
  }

  /** The answer OK, found by the last of a hundred reads: the command counts as failed. */
  lemma LateAnswerIsAnError()
    ensures var device: Device := (t: seq<Event>, n: nat) => if n < 99 then "" else OK;
            var (line, timedOut) := Waited(device, [Wrote(WriteStatusOn, true)], 0, 100);
            line == OK && FailedCommand(Answered(OK, line, timedOut, false, 100))
  {
    hide Waited;
    var device: Device := (t: seq<Event>, n: nat) => if n < 99 then "" else OK;
    LastReadIsTooLate(device, [Wrote(WriteStatusOn, true)], 0, 100, 99);
  }

  // ---------------------------------------------------------------- overruns

  /** Which buffer sizes and images the update cannot handle. */
  lemma WhenItOverruns(size: nat, bufsz: nat)
    requires size >= 64 && 128 <= bufsz < 0x1_0000_0000
    ensures Overruns(size, bufsz) <==> bufsz >= 0xFFFF_FF9C || (size > 0x4000_0000 && bufsz / 2 > 0x4000_0000)
  {}

  /**
    * Whatever the image, the first data command of such a run is longer than its buffer, which has at
    * most 98 characters.
    */
  lemma FirstCommandOverruns(image: seq<byte>, bufsz: nat)
    requires |image| >= 64 && 0xFFFF_FF9C <= bufsz < 0x1_0000_0000
    ensures var n := FirstChunk(|image|, bufsz / 2);
            |Render(DataCommand(image, 0, n))| >= 152 > 98 >= FormatBuffer(bufsz / 2)
  {
    hide Decimal, Hex;
    var n := FirstChunk(|image|, bufsz / 2);
    TwoDigits(n);
  }

  lemma TwoDigits(n: nat)
    requires n >= 10
    ensures |Decimal(n)| >= 2
  {}

  /**
    * A device that says its buffer has -1 bytes, on a perfect line: the conversion to an unsigned
    * number passes the check for the least size, and the first data command leaves its buffer.
    */
  method MinusOneOverruns(imagebuf: array<byte>, atoi: string -> int, text: string, k: nat)
    returns (link: Link, outcome: Outcome)
    requires 64 <= imagebuf.Length < 0x1_0000_0000 && atoi("-1") == -1 && k < 99
    ensures fresh(link) && outcome == Overrun && NoData(link.trace)
  {
    hide Legal, Obliging, Heard, AllComplete, WireOf, Replies, MemInfoAnswered, WrongLength, Overruns, NoData, GivenUp,
      ReadAll, Messages, HandsOver;
    var bufsz := ToUnsigned(atoi("-1"));
    RepliesObliges(Job(imagebuf[..], bufsz, atoi), text, k);
    WhenItOverruns(imagebuf.Length, bufsz);
    link := new Link(Replies(text, k), []);
    outcome := DoFirmwareUpdate(link, imagebuf, bufsz, atoi);
  }
}
