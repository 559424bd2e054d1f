/**
  * The protocol of the firmware update as a state machine over what happens on the line: which
  * event may follow which history, and what every history it allows guarantees.
  */
module UsbProtocol {
  import opened Bytes
  import opened UsbCommands

  /**
    * What happens on the line: one call of write_buff, or one wait that polls at most so often for an
    * answer. Guarded waits are those of wait_for_specific_response_or_abort.
    */
  datatype Event = Wrote(cmd: Command, complete: bool)
                 | Answered(expected: string, line: string, timedOut: bool, guarded: bool, polls: nat)

  /** One update: the image, the size of the device's buffer, and the C library's reading of numbers. */
  datatype Job = Job(image: seq<byte>, bufsz: nat, atoi: string -> int)

  // ---------------------------------------------------------------- events

  /** The line starts with the expected text and came in time. */
  predicate Good(e: Event)
    requires e.Answered?
  {
    !e.timedOut && e.expected <= e.line
  }

  predicate IsAck(e: Event) { e.Answered? && e.guarded && e.expected == CMP_OK && Good(e) }

  predicate FailedWait(e: Event) { e.Answered? && e.guarded && !Good(e) }

  predicate FailedCommand(e: Event) { e.Answered? && !e.guarded && !Good(e) }

  predicate IsAbort(e: Event) { e.Wrote? && e.cmd == ABORT }

  predicate IsData(e: Event) { e.Wrote? && e.cmd.PatchData? }

  /** A write that falls short ends the update, except in a data block or when it was an abort. */
  predicate Fatal(e: Event) { e.Wrote? && !e.complete && !e.cmd.PatchData? && e.cmd != ABORT }

  // ---------------------------------------------------------------- what a trace amounts to

  /**
    * data: the decoded payloads of all completely written PATCH_DATA commands; outstanding: the
    * payload bytes handed to the line since the last CMP_OK; announced: the length in the last
    * PATCH_LEN; start: how much data there was at that CMP_OK.
    */
  datatype Seen = Seen(data: seq<byte>, outstanding: nat, announced: Option<nat>, start: nat)

  function Observe(s: Seen, e: Event): Seen {
    match e
    case Wrote(PatchData(count, hex), complete) =>
      s.(data := if complete then s.data + UnHex(hex) else s.data, outstanding := s.outstanding + count)
    case Wrote(PatchLen(lo, hi), _) => s.(announced := Some(LenValue(lo, hi)))
    case Wrote(_, _) => s
    case Answered(_, _, _, _, _) => if IsAck(e) then s.(outstanding := 0, start := |s.data|) else s
  }

  function Summary(t: seq<Event>): Seen
    decreases |t|
  {
    if t == [] then Seen([], 0, None, 0) else Observe(Summary(t[..|t| - 1]), t[|t| - 1])
  }

  // ---------------------------------------------------------------- where a trace stands

  /** A failed guarded wait was answered with an abort: the update is over. */
  predicate Aborted(t: seq<Event>) {
    |t| >= 2 && FailedWait(t[|t| - 2]) && IsAbort(t[|t| - 1])
  }

  /** The last event is a good answer of this kind. */
  predicate GoodAnswer(t: seq<Event>, expected: string, guarded: bool) {
    && t != [] && t[|t| - 1].Answered?
    && t[|t| - 1].expected == expected && t[|t| - 1].guarded == guarded && Good(t[|t| - 1])
  }

  predicate DataLast(t: seq<Event>) { t != [] && IsData(t[|t| - 1]) }

  /** The last event is a data command that was written whole. */
  predicate WholeDataLast(t: seq<Event>) { DataLast(t) && t[|t| - 1].complete }

  /** A block of data has just been acknowledged. */
  predicate BlockAcked(t: seq<Event>) {
    |t| >= 2 && IsAck(t[|t| - 1]) && IsData(t[|t| - 2])
  }

  /** A block may be announced after the handshake or after the acknowledgement of another. */
  predicate MayAnnounce(t: seq<Event>) {
    (|t| == 7 && GoodAnswer(t, OK, false) && t[5] == Wrote(GpioMap, true)) || BlockAcked(t)
  }

  /** Data may follow the answered announcement, more data, or the acknowledgement of the block before. */
  predicate MayStream(t: seq<Event>) {
    || BlockAcked(t)
    || WholeDataLast(t)
    || (|t| >= 2 && GoodAnswer(t, OK, false) && t[|t| - 2].Wrote? && t[|t| - 2].cmd.PatchLen?)
  }

  predicate MemInfoAnswered(t: seq<Event>) {
    |t| >= 2 && t[|t| - 2] == Wrote(ReadMemInfo, true) && GoodAnswer(t, OK, false)
  }

  /** The C conversion of an int to uint32_t. */
  function ToUnsigned(n: int): nat { n % 0x1_0000_0000 }

  /**
    * The text behind the third character of the answer buffer. An answer of two characters leaves
    * there what the line before it, the acknowledgement of the last block, has put there.
    */
  function LengthText(t: seq<Event>): string
    requires MemInfoAnswered(t)
  {
    var line := t[|t| - 1].line;
    if |line| >= 3 then line[3..]
    else if |t| >= 3 && t[|t| - 3].Answered? && |t[|t| - 3].line| >= 3 then t[|t| - 3].line[3..]
    else ""
  }

  /** The device has answered READ_MEMINFO with something other than the size of the image. */
  predicate WrongLength(job: Job, t: seq<Event>)
    requires MemInfoAnswered(t)
  {
    ToUnsigned(job.atoi(LengthText(t))) != |job.image|
  }

  /** Which answer the last event calls for. */
  predicate Expects(t: seq<Event>, expected: string, guarded: bool)
    requires t != []
  {
    match t[|t| - 1]
    case Wrote(cmd, complete) =>
      if cmd.PatchData? then guarded && expected == CMP_OK
      else if Asks(cmd) then complete && !guarded && expected == OK
      else if cmd == START then complete && guarded && expected == IMG_STARTED
      else cmd == END && complete && guarded && expected == CMP_OK
    case Answered(_, _, _, _, _) => GoodAnswer(t, IMG_STARTED, true) && guarded && expected == OK
  }

  /** How much of the remaining bytes the next announced block covers. */
  function BlockBytes(remaining: int, bufsz: nat): nat {
    if remaining > bufsz then bufsz else if remaining < 0 then 0 else remaining
  }

  /** More than one buffer is left from the start of the block on. */
  predicate Full(job: Job, s: Seen) { |job.image| - s.start > job.bufsz }

  /** What a block carries: full ones two chunks of half the buffer, the last one the rest. */
  function BlockLength(job: Job, s: Seen): nat {
    if Full(job, s) then 2 * (job.bufsz / 2) else if s.start <= |job.image| then |job.image| - s.start else 0
  }

  /** What the next data command carries: half the buffer, and at the end of the last block what is left. */
  function ChunkLength(job: Job, s: Seen): int {
    if Full(job, s) || |job.image| - |s.data| >= job.bufsz / 2 then job.bufsz / 2 else |job.image| - |s.data|
  }

  /** The data of a block are over: all of it was sent, or a full block was broken off by a short write. */
  predicate BlockOver(job: Job, t: seq<Event>, s: Seen)
    requires DataLast(t)
  {
    if WholeDataLast(t) then s.outstanding == BlockLength(job, s) else Full(job, s)
  }

  /** How many reads a wait makes: more for what is guarded, and most for the last block. */
  function Patience(job: Job, t: seq<Event>, s: Seen, guarded: bool): nat {
    if !guarded then 100 else if DataLast(t) && !Full(job, s) then 3000 else 300
  }

  // ---------------------------------------------------------------- the protocol

  /** Whether anything may happen at all: a failed wait leaves only the abort, a failed command nothing. */
  predicate Open(t: seq<Event>, e: Event) {
    && !Aborted(t)
    && (t != [] ==> !FailedCommand(t[|t| - 1]) && !Fatal(t[|t| - 1]))
    && (t != [] && FailedWait(t[|t| - 1]) ==> IsAbort(e))
  }

  /** An abort follows a failed wait or a wrong length; an end follows a right length or such an abort. */
  predicate MayAbort(job: Job, t: seq<Event>) {
    t != [] && (FailedWait(t[|t| - 1]) || (MemInfoAnswered(t) && WrongLength(job, t)))
  }

  predicate MayEnd(job: Job, t: seq<Event>) {
    || (MemInfoAnswered(t) && !WrongLength(job, t))
    || (t != [] && IsAbort(t[|t| - 1]) && MemInfoAnswered(t[..|t| - 1]) && WrongLength(job, t[..|t| - 1]))
  }

  predicate MayReset(t: seq<Event>) {
    |t| >= 2 && t[|t| - 2] == Wrote(END, true) && IsAck(t[|t| - 1])
  }

  /** Whether this event may happen after a history that amounts to s. */
  predicate Permitted(job: Job, t: seq<Event>, s: Seen, e: Event) {
    match e
    case Wrote(WriteStatusOn, _) => t == []
    case Wrote(GpioMap, _) => |t| == 5 && GoodAnswer(t, OK, true)
    case Wrote(PatchLen(lo, hi), _) =>
      && MayAnnounce(t) && (BlockAcked(t) ==> !Full(job, s)) && s.start < |job.image|
      && s.outstanding == 0 && LenValue(lo, hi) == BlockBytes(|job.image| - s.start, job.bufsz) % 0x1_0000
    case Wrote(PatchData(count, hex), _) =>
      && MayStream(t) && (BlockAcked(t) ==> Full(job, s))
      && s.announced == Some(BlockBytes(|job.image| - s.start, job.bufsz) % 0x1_0000)
      && 0 < count == |UnHex(hex)| == ChunkLength(job, s) && hex == Hex(UnHex(hex))
      && s.outstanding + count <= BlockLength(job, s)
      && s.data + UnHex(hex) <= job.image
    case Wrote(ReadMemInfo, _) => BlockAcked(t) && s.outstanding == 0 && s.data == job.image
    case Wrote(MemDev(code), _) =>
      if code == 0x13 then |t| == 2 && t[0] == Wrote(WriteStatusOn, true) && GoodAnswer(t, OK, false)
      else if code == 0xFD then MayReset(t)
      else if code == 0xFE then s.outstanding == 0 && s.data == job.image && MayEnd(job, t)
      else code == 0xFF && MayAbort(job, t)
    case Answered(expected, _, _, guarded, polls) =>
      && t != [] && Expects(t, expected, guarded) && (DataLast(t) ==> BlockOver(job, t, s))
      && polls == Patience(job, t, s, guarded)
  }

  /** What may happen on the line after a given history. */
  predicate Allowed(job: Job, t: seq<Event>, e: Event) {
    Open(t, e) && Permitted(job, t, Summary(t), e)
  }

  /** Every event of the trace was allowed by what came before it. */
  predicate Legal(job: Job, t: seq<Event>)
    decreases |t|
  {
    t == [] || (Legal(job, t[..|t| - 1]) && Allowed(job, t[..|t| - 1], t[|t| - 1]))
  }

  /** Nothing has failed at the end of this legal trace. */
  ghost predicate Calm(job: Job, t: seq<Event>) {
    && Legal(job, t) && !Aborted(t)
    && (t != [] ==> !FailedCommand(t[|t| - 1]) && !FailedWait(t[|t| - 1]) && !Fatal(t[|t| - 1]))
  }

  /** Why a run gives up: its last write fell short, its last command failed, or it has aborted. */
  predicate GivenUp(t: seq<Event>) {
    && t != []
    && ((t[|t| - 1].Wrote? && !t[|t| - 1].complete) || FailedCommand(t[|t| - 1]) || Aborted(t))
  }

  /** The reset went out whole. */
  predicate Succeeded(t: seq<Event>) { t != [] && t[|t| - 1] == Wrote(RESET, true) }

  lemma EmptyCalm(job: Job)
    ensures Calm(job, []) && Summary([]) == Seen([], 0, None, 0)
  {}

  lemma Advance(job: Job, t: seq<Event>, e: Event)
    requires Calm(job, t) && Permitted(job, t, Summary(t), e)
    ensures Legal(job, t + [e]) && Summary(t + [e]) == Observe(Summary(t), e)
    ensures Calm(job, t + [e]) <==> (e.Answered? ==> Good(e)) && !Fatal(e)
  {
    hide Permitted;
    assert (t + [e])[..|t|] == t;
  }

  /** A failed guarded wait and the abort that follows it close the trace legally. */
  lemma AbortIsLegal(job: Job, t: seq<Event>, e: Event, complete: bool)
    requires Calm(job, t) && FailedWait(e) && Permitted(job, t, Summary(t), e)
    ensures Legal(job, t + [e] + [Wrote(ABORT, complete)])
    ensures Aborted(t + [e] + [Wrote(ABORT, complete)])
  {
    Advance(job, t, e);
    var u := t + [e];
    assert (u + [Wrote(ABORT, complete)])[..|u|] == u;
    assert Open(u, Wrote(ABORT, complete));
  }

  lemma AnswerPermitted(job: Job, t: seq<Event>, e: Event)
    requires t != [] && e.Answered? && Expects(t, e.expected, e.guarded) && !DataLast(t)
    requires e.polls == if e.guarded then 300 else 100
    ensures Permitted(job, t, Summary(t), e)
  {}

  // ---------------------------------------------------------------- blocks

  /** The state between two blocks: xfered bytes of the image sent and acknowledged. */
  ghost predicate Between(job: Job, t: seq<Event>, xfered: nat) {
    && Calm(job, t) && xfered <= |job.image|
    && var s := Summary(t); s.data == job.image[..xfered] && s.outstanding == 0 && s.start == xfered
  }

  /** The block that starts at this place of the image has been announced, by itself or with those before it. */
  predicate IsAnnounced(job: Job, s: Seen) {
    s.announced == Some(BlockBytes(|job.image| - s.start, job.bufsz) % 0x1_0000)
  }

  /** Inside a block: outstanding bytes have been handed to the line since it began. */
  ghost predicate Inside(job: Job, t: seq<Event>, start: nat, xfered: nat, outstanding: nat) {
    && Calm(job, t) && start <= xfered <= |job.image|
    && var s := Summary(t);
       s.data == job.image[..xfered] && s.outstanding == outstanding && s.start == start && IsAnnounced(job, s)
  }

  /** The block that starts here may be announced. */
  lemma AnnouncePermitted(job: Job, t: seq<Event>, start: nat, n: nat)
    requires Between(job, t, start) && start < |job.image| && MayAnnounce(t)
    requires n == BlockBytes(|job.image| - start, job.bufsz) && (BlockAcked(t) ==> |job.image| - start <= job.bufsz)
    ensures forall complete :: Permitted(job, t, Summary(t), Wrote(LenCommand(n), complete))
  {
    hide Summary, Legal, MayAnnounce, BlockAcked, BlockBytes;
    LenCommandValue(n);
  }

  lemma DataPermitted(job: Job, t: seq<Event>, start: nat, xfered: nat, n: nat, outstanding: nat, complete: bool)
    requires Inside(job, t, start, xfered, outstanding)
    requires MayStream(t) && (BlockAcked(t) ==> |job.image| - start > job.bufsz) && 0 < n
    requires if |job.image| - start > job.bufsz then n == job.bufsz / 2 && outstanding + n <= 2 * (job.bufsz / 2)
             else outstanding == xfered - start
                  && n == if |job.image| - xfered >= job.bufsz / 2 then job.bufsz / 2 else |job.image| - xfered
    requires xfered + n <= |job.image|
    ensures var e := Wrote(DataCommand(job.image, xfered, n), complete);
            && Inside(job, t + [e], start, if complete then xfered + n else xfered, outstanding + n)
            && DataLast(t + [e]) && WholeDataLast(t + [e]) == complete
            && (complete ==> MayStream(t + [e])) && !BlockAcked(t + [e])
  {
    hide Summary, Legal, Hex, UnHex, BlockBytes, MayStream;
    UnHexOfHex(job.image[xfered..xfered + n]);
    assert job.image[..xfered] + job.image[xfered..xfered + n] == job.image[..xfered + n];
    Advance(job, t, Wrote(DataCommand(job.image, xfered, n), complete));
    DataGoesOn(t, Wrote(DataCommand(job.image, xfered, n), complete));
  }

  lemma DataGoesOn(t: seq<Event>, e: Event)
    requires IsData(e)
    ensures !BlockAcked(t + [e]) && (e.complete ==> MayStream(t + [e]))
  {}

  lemma AckPermitted(job: Job, t: seq<Event>, start: nat, xfered: nat, outstanding: nat, polls: nat)
    requires Inside(job, t, start, xfered, outstanding) && DataLast(t)
    requires if |job.image| - start > job.bufsz then WholeDataLast(t) ==> outstanding == 2 * (job.bufsz / 2)
             else WholeDataLast(t) && outstanding == |job.image| - start
    requires polls == if |job.image| - start > job.bufsz then 300 else 3000
    ensures forall line, late :: Permitted(job, t, Summary(t), Answered(CMP_OK, line, late, true, polls))
  {
    hide Summary, Legal;
  }

  // ---------------------------------------------------------------- what legal traces guarantee

  lemma {:induction false} LegalAt(job: Job, t: seq<Event>, i: nat)
    requires Legal(job, t) && i < |t|
    ensures Legal(job, t[..i]) && Allowed(job, t[..i], t[i])
    decreases |t|
  {
    hide Allowed;
    if i < |t| - 1 {
      assert t[..|t| - 1][..i] == t[..i];
      LegalAt(job, t[..|t| - 1], i);
    }
  }

  /** One event adds to the data only what the image goes on with, and not beyond its block. */
  lemma DataStep(job: Job, t: seq<Event>, s: Seen, e: Event)
    requires Permitted(job, t, s, e) && s.data <= job.image
    ensures s.data <= Observe(s, e).data <= job.image
    ensures s.outstanding <= job.bufsz ==> Observe(s, e).outstanding <= job.bufsz
  {
    hide UnHex, LenValue, BlockBytes, BlockOver, ChunkLength, MayStream, MayAnnounce, MayEnd, MayAbort, MayReset,
      BlockAcked, GoodAnswer, Expects;
  }

  /** The decoded payloads only grow, and are always a beginning of the image. */
  lemma {:induction false} DataGrows(job: Job, t: seq<Event>, i: nat)
    requires Legal(job, t) && i <= |t|
    ensures Summary(t[..i]).data <= Summary(t).data <= job.image
    decreases |t|
  {
    hide Permitted, Observe, Open;
    if t != [] {
      var front := t[..|t| - 1];
      DataGrows(job, front, if i < |t| then i else i - 1);
      DataStep(job, front, Summary(front), t[|t| - 1]);
      if i < |t| {
        assert front[..i] == t[..i];
      } else {
        assert t[..i] == t;
      }
    }
  }

  /** Flow control: on every run, what is sent and not yet acknowledged fits the device's buffer. */
  lemma {:induction false} OutstandingFits(job: Job, t: seq<Event>)
    requires Legal(job, t)
    ensures Summary(t).outstanding <= job.bufsz
    decreases |t|
  {
    hide Permitted, Observe, Open;
    if t != [] {
      var front := t[..|t| - 1];
      OutstandingFits(job, front);
      DataGrows(job, front, |front|);
      DataStep(job, front, Summary(front), t[|t| - 1]);
    }
  }

  /** Nothing outstanding means that every data command was followed by a CMP_OK. */
  lemma {:induction false} NothingOutstanding(t: seq<Event>, k: nat)
    requires Summary(t).outstanding == 0 && k < |t| && IsData(t[k]) && t[k].cmd.count > 0
    ensures exists j :: k < j < |t| && IsAck(t[j])
    decreases |t|
  {
    var front, last := t[..|t| - 1], t[|t| - 1];
    if IsAck(last) {
      assert k < |t| - 1 && IsAck(t[|t| - 1]);
    } else {
      assert Summary(front).outstanding == 0;
      assert k < |t| - 1 && front[k] == t[k];
      NothingOutstanding(front, k);
      var j :| k < j < |front| && IsAck(front[j]);
      assert IsAck(t[j]);
    }
  }

  lemma DataIsNotEmpty(job: Job, t: seq<Event>, k: nat)
    requires Legal(job, t) && k < |t| && IsData(t[k])
    ensures t[k].cmd.count > 0
  {
    hide Legal, Summary, UnHex;
    LegalAt(job, t, k);
  }

  /** No block is announced, queried or ended before a CMP_OK has come for all data sent before. */
  lemma BlockNeedsAck(job: Job, t: seq<Event>, i: nat, k: nat)
    requires Legal(job, t) && k < i < |t| && IsData(t[k])
    requires t[i].Wrote? && (t[i].cmd.PatchLen? || t[i].cmd == ReadMemInfo || t[i].cmd == END)
    ensures exists j :: k < j < i && IsAck(t[j])
  {
    hide Legal, Summary;
    LegalAt(job, t, i);
    DataIsNotEmpty(job, t, k);
    NothingOutstanding(t[..i], k);
    var j :| k < j < i && IsAck(t[..i][j]);
    assert IsAck(t[j]);
  }

  /** No data goes out beyond one buffer's worth unless a CMP_OK has come for what went before. */
  lemma DataNeedsAck(job: Job, t: seq<Event>, i: nat, k: nat)
    requires Legal(job, t) && k < i < |t| && IsData(t[k]) && IsData(t[i])
    requires PayloadBetween(t, k, i + 1) > job.bufsz
    ensures exists j :: k < j < i && IsAck(t[j])
  {
    hide Legal, Summary;
    LegalAt(job, t, i);
    if forall j :: k < j < i ==> !IsAck(t[j]) {
      UnackedPayload(t, k, i);
      assert false;
    }
  }

  /** The payload bytes of the data commands among t[k..i]. */
  function PayloadBetween(t: seq<Event>, k: nat, i: nat): nat
    requires k <= i <= |t|
    decreases i - k
  {
    if k == i then 0
    else PayloadBetween(t, k, i - 1) + if IsData(t[i - 1]) then t[i - 1].cmd.count else 0
  }

  lemma {:induction false} UnackedPayload(t: seq<Event>, k: nat, i: nat)
    requires k < i <= |t| && IsData(t[k])
    requires forall j :: k < j < i ==> !IsAck(t[j])
    ensures Summary(t[..i]).outstanding >= PayloadBetween(t, k, i)
    decreases i
  {
    assert t[..i][..i - 1] == t[..i - 1];
    if i - 1 > k {
      UnackedPayload(t, k, i - 1);
    } else {
      assert PayloadBetween(t, k, k) == 0;
    }
  }

  // ---------------------------------------------------------------- how a trace ends

  /** A failed guarded wait is followed by one abort and by nothing else. */
  lemma AbortIsFinal(job: Job, t: seq<Event>, i: nat)
    requires Legal(job, t) && i < |t| && FailedWait(t[i])
    requires !FailedWait(t[|t| - 1])
    ensures i == |t| - 2 && IsAbort(t[|t| - 1])
  {
    hide Legal, Permitted, Summary;
    LegalAt(job, t, i + 1);
    assert t[..i + 1][i] == t[i];
    if i + 2 < |t| {
      var u := t[..i + 2];
      assert u[i] == t[i] && u[i + 1] == t[i + 1];
      LegalAt(job, t, i + 2);
      assert false;
    }
  }

  /** Nothing follows a command that was not answered by OK. */
  lemma FailedCommandIsFinal(job: Job, t: seq<Event>, i: nat)
    requires Legal(job, t) && i < |t| && FailedCommand(t[i])
    ensures i == |t| - 1
  {
    hide Legal, Permitted, Summary;
    if i + 1 < |t| {
      var u := t[..i + 1];
      assert u[i] == t[i];
      LegalAt(job, t, i + 1);
      assert false;
    }
  }

  lemma AfterMemInfo(job: Job, t: seq<Event>, e: Event)
    requires Permitted(job, t, Summary(t), e) && MemInfoAnswered(t)
    ensures e.Wrote? && e.cmd == if WrongLength(job, t) then ABORT else END
  {
    hide Summary, WrongLength, UnHex, LenValue, BlockBytes, BlockOver, BlockLength, ChunkLength, Full;
    assert |OK| == 2 && |IMG_STARTED| == 23;
  }

  /** A write other than data calls for no more than its answer. */
  lemma NothingButAnswer(job: Job, t: seq<Event>)
    requires t != [] && t[|t| - 1].Wrote? && t[|t| - 1].cmd.MemDev?
    ensures !BlockAcked(t) && !MayStream(t) && !MayAnnounce(t)
    ensures !MayAbort(job, t) && !MayReset(t) && !MemInfoAnswered(t)
    ensures forall x, g :: !GoodAnswer(t, x, g)
  {}

  /** After an abort there is only an end, and only when the abort answered a wrong length. */
  lemma AfterAbort(job: Job, t: seq<Event>, e: Event)
    requires Permitted(job, t, Summary(t), e) && t != [] && IsAbort(t[|t| - 1])
    ensures e.Wrote? && e.cmd == END && MemInfoAnswered(t[..|t| - 1]) && WrongLength(job, t[..|t| - 1])
  {
    hide Summary, WrongLength, UnHex, LenValue, BlockBytes, BlockOver, BlockLength, ChunkLength, Full, BlockAcked,
      MayStream, MayAnnounce, MayAbort, MayReset, GoodAnswer, MemInfoAnswered;
    NothingButAnswer(job, t);
  }

  lemma AfterEnd(job: Job, t: seq<Event>, e: Event)
    requires Permitted(job, t, Summary(t), e) && t != [] && t[|t| - 1].Wrote? && t[|t| - 1].cmd == END
    ensures e.Answered? && e.guarded && e.expected == CMP_OK
  {
    hide Summary, WrongLength, UnHex, LenValue, BlockBytes, BlockOver, BlockLength, ChunkLength, Full;
  }

  lemma AfterEndAck(job: Job, t: seq<Event>, e: Event)
    requires Permitted(job, t, Summary(t), e)
    requires |t| >= 2 && t[|t| - 2].Wrote? && t[|t| - 2].cmd == END && IsAck(t[|t| - 1])
    ensures e.Wrote? && e.cmd == RESET
  {
    hide Summary, WrongLength, UnHex, LenValue, BlockBytes, BlockOver, BlockLength, ChunkLength, Full;
    assert |OK| == 2 && |IMG_STARTED| == 23 && |CMP_OK| == 18;
  }

  lemma AfterReset(job: Job, t: seq<Event>, e: Event)
    requires t != [] && t[|t| - 1].Wrote? && t[|t| - 1].cmd == RESET
    ensures !Permitted(job, t, Summary(t), e)
  {
    hide Summary, WrongLength, UnHex, LenValue, BlockBytes, BlockOver, BlockLength, ChunkLength, Full;
  }

  /** Nothing follows the reset. */
  lemma ResetIsFinal(job: Job, t: seq<Event>, i: nat)
    requires Legal(job, t) && i < |t| && t[i].Wrote? && t[i].cmd == RESET
    ensures i == |t| - 1
  {
    hide Legal, Permitted, Summary;
    if i + 1 < |t| {
      assert t[..i + 1][i] == t[i];
      LegalAt(job, t, i + 1);
      AfterReset(job, t[..i + 1], t[i + 1]);
      assert false;
    }
  }

  lemma EndThenWait(job: Job, t: seq<Event>, i: nat)
    requires Legal(job, t) && i + 1 < |t| && t[i].Wrote? && t[i].cmd == END
    ensures t[i + 1].Answered? && (IsAck(t[i + 1]) || FailedWait(t[i + 1]))
  {
    hide Legal, Permitted, Summary, Good;
    LegalAt(job, t, i + 1);
    assert t[..i + 1][i] == t[i];
    AfterEnd(job, t[..i + 1], t[i + 1]);
  }

  lemma EndAckThenReset(job: Job, t: seq<Event>, i: nat)
    requires Legal(job, t) && i + 2 < |t| && t[i].Wrote? && t[i].cmd == END && IsAck(t[i + 1])
    ensures t[i + 2].Wrote? && t[i + 2].cmd == RESET
  {
    hide Legal, Permitted, Summary, IsAck;
    LegalAt(job, t, i + 2);
    assert t[..i + 2][i] == t[i] && t[..i + 2][i + 1] == t[i + 1];
    AfterEndAck(job, t[..i + 2], t[i + 2]);
  }

  /** On a run that ends in a reset, the end command is the third event from the end. */
  lemma EndIsThirdLast(job: Job, t: seq<Event>, i: nat)
    requires Legal(job, t) && Succeeded(t)
    requires i < |t| && t[i].Wrote? && t[i].cmd == END
    ensures i == |t| - 3 && IsAck(t[|t| - 2])
  {
    hide Legal, IsAck, FailedWait;
    EndThenWait(job, t, i);
    if FailedWait(t[i + 1]) {
      LastDidNotFail(t);
      AbortIsFinal(job, t, i + 1);
      AbortIsNotReset(t);
      assert false;
    }
    EndAckThenReset(job, t, i);
    ResetIsFinal(job, t, i + 2);
  }

  lemma LastDidNotFail(t: seq<Event>)
    requires Succeeded(t)
    ensures !FailedWait(t[|t| - 1])
  {}

  lemma AbortIsNotReset(t: seq<Event>)
    requires Succeeded(t)
    ensures !IsAbort(t[|t| - 1])
  {}

  /** On such a run an abort can only have answered a wrong length, right before the end command. */
  lemma AbortIsFourthLast(job: Job, t: seq<Event>, i: nat)
    requires Legal(job, t) && Succeeded(t)
    requires i < |t| && IsAbort(t[i])
    ensures i == |t| - 4 && MemInfoAnswered(t[..i]) && WrongLength(job, t[..i])
  {
    hide Legal, Permitted, Summary, WrongLength;
    AbortIsNotReset(t);
    LegalAt(job, t, i + 1);
    assert t[..i + 1][i] == t[i] && t[..i + 1][..i] == t[..i];
    AfterAbort(job, t[..i + 1], t[i + 1]);
    EndIsThirdLast(job, t, i + 1);
  }

  /**
    * A run that reports success has sent an abort exactly when the length the device answered to
    * READ_MEMINFO converts to something other than the size of the image.
    */
  lemma AbortIffWrongLength(job: Job, t: seq<Event>, q: nat)
    requires Legal(job, t) && Succeeded(t)
    requires q <= |t| && MemInfoAnswered(t[..q])
    ensures (exists i :: 0 <= i < |t| && IsAbort(t[i])) <==> WrongLength(job, t[..q])
  {
    hide Legal, Permitted, Summary, WrongLength;
    assert t[..q][q - 1] == t[q - 1];
    LegalAt(job, t, q);
    AfterMemInfo(job, t[..q], t[q]);
    if WrongLength(job, t[..q]) {
      assert IsAbort(t[q]);
    } else {
      EndIsThirdLast(job, t, q);
      if i :| 0 <= i < |t| && IsAbort(t[i]) {
        AbortIsFourthLast(job, t, i);
        assert false;
      }
    }
  }

  lemma EndNeeds(job: Job, t: seq<Event>, e: Event)
    requires Permitted(job, t, Summary(t), e) && e.Wrote? && e.cmd == END
    ensures Summary(t).data == job.image && MayEnd(job, t)
  {
    hide Summary, MayEnd;
  }

  lemma ResetNeeds(job: Job, t: seq<Event>, e: Event)
    requires Permitted(job, t, Summary(t), e) && e.Wrote? && e.cmd == RESET
    ensures MayReset(t)
  {
    hide Summary, MayReset;
  }

  /** The reset goes out only right after END and the CMP_OK read after it, with the whole image delivered. */
  lemma ResetFollowsEnd(job: Job, t: seq<Event>, i: nat)
    requires Legal(job, t) && i < |t| && t[i].Wrote? && t[i].cmd == RESET
    ensures i >= 2 && t[i - 2] == Wrote(END, true) && IsAck(t[i - 1])
    ensures Summary(t[..i - 2]).data == job.image && MayEnd(job, t[..i - 2])
    ensures Summary(t).data == job.image
  {
    hide Permitted, Legal, Summary, MayEnd;
    LegalAt(job, t, i);
    ResetNeeds(job, t[..i], t[i]);
    LegalAt(job, t, i - 2);
    EndNeeds(job, t[..i - 2], t[i - 2]);
    DataGrows(job, t, i - 2);
  }

  /** Every such run has asked for the length. */
  lemma LengthIsAsked(job: Job, t: seq<Event>)
    requires Legal(job, t) && Succeeded(t)
    ensures exists q :: 0 <= q <= |t| && MemInfoAnswered(t[..q])
  {
    hide Legal, Summary, WrongLength;
    var n := |t|;
    ResetFollowsEnd(job, t, n - 1);
    if !MemInfoAnswered(t[..n - 3]) {
      assert t[..n - 3][..n - 4] == t[..n - 4];
      assert MemInfoAnswered(t[..n - 4]);
    }
  }

  // ---------------------------------------------------------------- how a trace begins

  /** The handshake: what the first seven events are. */
  predicate Opens(i: nat, e: Event) {
    if i == 0 then e == Wrote(WriteStatusOn, true)
    else if i == 2 then e == Wrote(START, true)
    else if i == 5 then e == Wrote(GpioMap, true)
    else if i == 3 then e.Answered? && e.guarded && e.expected == IMG_STARTED && Good(e)
    else if i < 7 then e.Answered? && e.guarded == (i == 4) && e.expected == OK && Good(e)
    else true
  }

  /** Inside the handshake there is no block, no acknowledgement of one and nothing to abort. */
  lemma NoBlockYet(job: Job, t: seq<Event>)
    requires |t| < 7 && (|t| > 0 ==> Opens(|t| - 1, t[|t| - 1])) && (|t| > 1 ==> Opens(|t| - 2, t[|t| - 2]))
    ensures !BlockAcked(t) && !MayStream(t) && !MayAbort(job, t) && !MayReset(t) && !MayEnd(job, t) && !MayAnnounce(t)
  {
    assert |OK| == 2 && |IMG_STARTED| == 23 && |CMP_OK| == 18;
  }

  /** The answer that the handshake calls for after its last event. */
  lemma NextAnswer(t: seq<Event>, expected: string, guarded: bool)
    requires 0 < |t| < 7 && Opens(|t| - 1, t[|t| - 1]) && Expects(t, expected, guarded)
    ensures |t| == 1 || |t| == 3 || |t| == 4 || |t| == 6
    ensures guarded == (|t| == 3 || |t| == 4) && expected == if |t| == 3 then IMG_STARTED else OK
  {
    assert |OK| == 2 && |IMG_STARTED| == 23 && |CMP_OK| == 18;
  }

  /** One more event after a beginning of the handshake. */
  lemma OpensNext(job: Job, t: seq<Event>, s: Seen, e: Event)
    requires forall i :: 0 <= i < |t| && i < 7 ==> Opens(i, t[i])
    requires Permitted(job, t, s, e) && (e.Answered? ==> Good(e)) && !Fatal(e)
    ensures Opens(|t|, e)
  {
    hide BlockOver, BlockLength, ChunkLength, Full, UnHex, LenValue, BlockBytes, BlockAcked, MayStream, MayAbort,
      MayEnd, MayReset, MayAnnounce, Expects, GoodAnswer;
    if |t| < 7 {
      NoBlockYet(job, t);
      if e.Answered? {
        NextAnswer(t, e.expected, e.guarded);
      }
    }
  }

  /** Every undisturbed run begins with the handshake, in this order and fully answered. */
  lemma {:induction false} HandshakeComesFirst(job: Job, t: seq<Event>)
    requires Calm(job, t)
    ensures forall i :: 0 <= i < |t| && i < 7 ==> Opens(i, t[i])
    decreases |t|
  {
    if t != [] {
      hide *;
      var n := |t| - 1;
      CalmBefore(job, t);
      HandshakeComesFirst(job, t[..n]);
      OpensNext(job, t[..n], Summary(t[..n]), t[n]);
      assert forall i :: 0 <= i < n ==> t[..n][i] == t[i];
    }
  }

  /** An undisturbed run was undisturbed before its last event. */
  lemma CalmBefore(job: Job, t: seq<Event>)
    requires Calm(job, t) && t != []
    ensures var u, e := t[..|t| - 1], t[|t| - 1];
            && Calm(job, u) && Permitted(job, u, Summary(u), e) && (e.Answered? ==> Good(e)) && !Fatal(e)
  {
    hide Permitted, Summary;
  }

  lemma ResetOpensNothing(i: nat)
    requires i < 7
    ensures !Opens(i, Wrote(RESET, true))
  {}

  // ---------------------------------------------------------------- successful runs

  /**
    * A run that reports success has delivered the image: the decoded payloads of the completely
    * written data commands, in order, are exactly its bytes, whatever fell short on the way. It
    * began with the handshake, and no wait or command failed.
    */
  lemma SuccessDelivers(job: Job, t: seq<Event>)
    requires Legal(job, t) && Succeeded(t)
    ensures Summary(t).data == job.image
    ensures forall i :: 0 <= i < |t| ==> !FailedWait(t[i]) && !FailedCommand(t[i])
    ensures |t| > 7 && forall i :: 0 <= i < 7 ==> Opens(i, t[i])
  {
    hide Legal, Summary;
    ResetFollowsEnd(job, t, |t| - 1);
    forall i | 0 <= i < |t| ensures !FailedWait(t[i]) && !FailedCommand(t[i]) {
      if FailedWait(t[i]) {
        AbortIsFinal(job, t, i);
      } else if FailedCommand(t[i]) {
        FailedCommandIsFinal(job, t, i);
      }
    }
    HandshakeComesFirst(job, t);
    if |t| <= 7 {
      ResetOpensNothing(|t| - 1);
      assert false;
    }
  }

  // ---------------------------------------------------------------- announced lengths

  lemma Truncation(n: nat)
    ensures n % 0x1_0000 <= n && (n % 0x1_0000 == n <==> n <= 0xFFFF)
  {}

  lemma HalvesMakeWhole(n: nat)
    ensures n - 1 <= 2 * (n / 2) <= n && (2 * (n / 2) == n <==> n % 2 == 0)
  {}

  /**
    * Every acknowledgement of data is at the end of a block: all of it was sent, or a short write
    * broke off a full one.
    */
  lemma AckEndsBlock(job: Job, t: seq<Event>, i: nat)
    requires Legal(job, t) && 0 < i < |t| && IsAck(t[i]) && IsData(t[i - 1])
    ensures var s := Summary(t[..i]);
            && (t[i - 1].complete ==> s.outstanding == BlockLength(job, s))
            && (!t[i - 1].complete ==> Full(job, s))
  {
    hide Summary, Legal, BlockLength, Full;
    LegalAt(job, t, i);
    assert t[..i][i - 1] == t[i - 1];
  }

  lemma DataAnnounced(job: Job, t: seq<Event>, e: Event)
    requires Permitted(job, t, Summary(t), e) && IsData(e)
    ensures IsAnnounced(job, Summary(t + [e]))
  {
    hide UnHex, BlockBytes, MayStream, ChunkLength, BlockLength, BlockAcked, Full;
    assert (t + [e])[..|t|] == t;
  }

  /**
    * The block that is being acknowledged, unless a short write broke it off, carries exactly the
    * announced number of bytes if and only if the number fits two bytes and, for a full block, the
    * buffer size is even.
    */
  lemma BlockMatchesLength(job: Job, t: seq<Event>, i: nat)
    requires Legal(job, t) && 0 < i < |t| && IsAck(t[i]) && IsData(t[i - 1]) && t[i - 1].complete
    ensures var s := Summary(t[..i]);
            && s.announced.Some?
            && (s.outstanding == s.announced.value
                <==> if Full(job, s) then job.bufsz % 2 == 0 && job.bufsz <= 0xFFFF
                     else |job.image| - s.start <= 0xFFFF)
  {
    hide Summary, Legal, Permitted;
    AckEndsBlock(job, t, i);
    LegalAt(job, t, i - 1);
    DataAnnounced(job, t[..i - 1], t[i - 1]);
    assert t[..i] == t[..i - 1] + [t[i - 1]];
    var s := Summary(t[..i]);
    Truncation(BlockBytes(|job.image| - s.start, job.bufsz));
    HalvesMakeWhole(job.bufsz);
  }
}
