/**
  * The framed UART link of the FTDF test tool: the sender, the receiver thread and what the
  * two make of a byte stream that arrives in pieces.
  */
module UartLink {
  import opened Bytes

  const UART_START_FLAG: byte := 0xaa
  const UART_HDR_TYPE_FTDF: byte := 1
  const UART_HDR_TYPE_ACK: byte := 3

  // ---------------------------------------------------------------- checksum

  /** DTS_calcXor. */
  method CalcXor(data: seq<byte>) returns (xor: byte)
    ensures xor == XorFrom(0, data)
  {
    xor := 0;
    for i := 0 to |data|
      invariant xor == XorFrom(0, data[..i])
    {
      assert data[..i + 1] == data[..i] + [data[i]];
      XorFromAppend(0, data[..i], [data[i]]);
      xor := XorByte(xor, data[i]);
    }
    assert data[..|data|] == data;
  }

  // ---------------------------------------------------------------- frames

  /**
    * A frame on the wire whose start flag and declared length are right: length (two bytes),
    * type, start flag, payload, checksum.
    */
  predicate Aligned(w: seq<byte>) {
    |w| >= 5 && w[3] == UART_START_FLAG && (w[0] as int) + 256 * (w[1] as int) == |w|
  }

  /** The checksum covers header and payload. */
  predicate Intact(w: seq<byte>)
    requires |w| >= 5
  {
    XorFrom(0, w[..|w| - 1]) == w[|w| - 1]
  }

  function FrameType(w: seq<byte>): byte
    requires |w| >= 5
  {
    w[2]
  }

  function Payload(w: seq<byte>): seq<byte>
    requires |w| >= 5
  {
    w[4..|w| - 1]
  }

  predicate AllAligned(ws: seq<seq<byte>>) {
    forall i :: 0 <= i < |ws| ==> Aligned(ws[i])
  }

  /** The payload of an intact frame of a type. */
  function DeliveredOne(w: seq<byte>, t: byte): seq<seq<byte>>
    requires |w| >= 5
  {
    if Intact(w) && FrameType(w) == t then [Payload(w)] else []
  }

  /** The payloads of the intact frames of one type, in order. */
  function Delivered(ws: seq<seq<byte>>, t: byte): seq<seq<byte>>
    requires AllAligned(ws)
    decreases |ws|
  {
    if ws == [] then [] else DeliveredOne(ws[0], t) + Delivered(ws[1..], t)
  }

  lemma {:induction false} DeliveredAppend(a: seq<seq<byte>>, b: seq<seq<byte>>, t: byte)
    requires AllAligned(a) && AllAligned(b)
    ensures AllAligned(a + b)
    ensures Delivered(a + b, t) == Delivered(a, t) + Delivered(b, t)
    decreases |a|
  {
    hide DeliveredOne, Aligned;
    if a == [] {
      assert a + b == b;
      assert Delivered(a, t) == [];
    } else {
      assert (a + b)[1..] == a[1..] + b && (a + b)[0] == a[0];
      DeliveredAppend(a[1..], b, t);
      hide Delivered;
      DeliveredFirst(a, t);
      DeliveredFirst(a + b, t);
    }
  }

  lemma DeliveredFirst(ws: seq<seq<byte>>, t: byte)
    requires AllAligned(ws) && ws != []
    ensures |ws[0]| >= 5 && Delivered(ws, t) == DeliveredOne(ws[0], t) + Delivered(ws[1..], t)
  {}

  // ---------------------------------------------------------------- sender

  /** The value (UART_START_FLAG << 24) | (uarttype << 16) | length. */
  function HeaderWord(uarttype: byte, length: nat): nat {
    Or(Or(ShiftLeft(UART_START_FLAG, 24), ShiftLeft(uarttype, 16)), length)
  }

  lemma ShiftFour(x: nat, k: nat)
    ensures ShiftLeft(x, k + 4) == 16 * ShiftLeft(x, k)
    ensures Pow2(k + 4) == 16 * Pow2(k)
  {
    assert ShiftLeft(x, k + 4) == 2 * ShiftLeft(x, k + 3) && Pow2(k + 4) == 2 * Pow2(k + 3);
    assert ShiftLeft(x, k + 3) == 2 * ShiftLeft(x, k + 2) && Pow2(k + 3) == 2 * Pow2(k + 2);
    assert ShiftLeft(x, k + 2) == 2 * ShiftLeft(x, k + 1) && Pow2(k + 2) == 2 * Pow2(k + 1);
  }

  lemma ShiftEight(x: nat)
    ensures ShiftLeft(x, 8) == x * 0x100 && Pow2(8) == 0x100
  {
    ShiftFour(x, 0);
    ShiftFour(x, 4);
  }

  lemma ShiftSixteen(x: nat)
    ensures ShiftLeft(x, 16) == x * 0x1_0000 && Pow2(16) == 0x1_0000
  {
    ShiftEight(x);
    ShiftFour(x, 8);
    ShiftFour(x, 12);
  }

  lemma ShiftTwentyFour(x: nat)
    ensures ShiftLeft(x, 24) == x * 0x100_0000
  {
    ShiftSixteen(x);
    ShiftFour(x, 16);
    ShiftFour(x, 20);
  }

  /** Flag and type share no bits, so the upper half of the header word is 0xaa01. */
  lemma FlagAndType()
    ensures Or(ShiftLeft(UART_START_FLAG, 24), ShiftLeft(UART_HDR_TYPE_FTDF, 16)) == 0xaa01_0000
  {
    hide Or, ShiftLeft;
    ShiftTwentyFour(0xaa);
    ShiftEight(0xaa);
    ShiftEight(0);
    ShiftSixteen(0xaa00);
    ShiftSixteen(1);
    ShiftSixteen(0xaa01);
    OrZero(0xaa);
    OrAbove(0xaa, 0, 1, 8);
    OrAbove(0xaa00, 1, 0, 16);
  }

  lemma HeaderWordValue(length: nat)
    ensures HeaderWord(UART_HDR_TYPE_FTDF, length) == Or(0xaa01, length / 0x1_0000) * 0x1_0000 + length % 0x1_0000
  {
    hide Or, ShiftLeft;
    var hi, lo := length / 0x1_0000, length % 0x1_0000;
    FlagAndType();
    ShiftSixteen(0xaa01);
    ShiftSixteen(hi);
    ShiftSixteen(Or(0xaa01, hi));
    OrAbove(0xaa01, hi, lo, 16);
  }

  /** The bytes DTS_sndToUart writes for a payload: header, payload, checksum. */
  function Frame(payload: seq<byte>): (w: seq<byte>)
    ensures |w| == |payload| + 5
  {
    var data := Le(HeaderWord(UART_HDR_TYPE_FTDF, |payload| + 5), 4) + payload;
    data + [XorFrom(0, data)]
  }

  lemma {:induction false} FrameIsIntact(payload: seq<byte>)
    ensures Intact(Frame(payload)) && Payload(Frame(payload)) == payload
    ensures XorFrom(0, Frame(payload)) == 0
  {
    IntactXorsToZero(Frame(payload));
    var data := Le(HeaderWord(UART_HDR_TYPE_FTDF, |payload| + 5), 4) + payload;
    assert Frame(payload)[..|payload| + 4] == data;
  }

  lemma LeFour(hi: nat, lo: nat)
    requires lo < 0x1_0000
    ensures var s := Le(hi * 0x1_0000 + lo, 4);
            (s[0] as int) + 256 * (s[1] as int) == lo && s[2] == hi % 256 && s[3] == hi / 256 % 256
  {
    var n := hi * 0x1_0000 + lo;
    assert n / 256 == hi * 256 + lo / 256;
    assert n / 256 / 256 == hi && n / 256 / 256 / 256 == hi / 256;
    assert Le(n, 4) == [n % 256, n / 256 % 256, n / 256 / 256 % 256, n / 256 / 256 / 256 % 256];
  }

  /** The frame is well formed exactly when the payload has at most 65530 bytes. */
  lemma {:induction false} FrameAligned(payload: seq<byte>)
    ensures Aligned(Frame(payload)) <==> |payload| <= 65530
    ensures |payload| <= 65530 ==> FrameType(Frame(payload)) == UART_HDR_TYPE_FTDF
    ensures |payload| <= 65530 ==> Frame(payload)[2] == 1 && Frame(payload)[3] == 0xaa
  {
    hide Or, Le;
    var length := |payload| + 5;
    HeaderWordValue(length);
    LeFour(Or(0xaa01, length / 0x1_0000), length % 0x1_0000);
    OrZero(0xaa01);
    var h := Le(HeaderWord(UART_HDR_TYPE_FTDF, length), 4);
    var w := Frame(payload);
    assert w[0] == h[0] && w[1] == h[1] && w[2] == h[2] && w[3] == h[3];
  }

  /** The header fits four bytes exactly when the length does. */
  lemma {:induction false} HeaderWordFits(length: nat)
    ensures HeaderWord(UART_HDR_TYPE_FTDF, length) < 0x1_0000_0000 <==> length < 0x1_0000_0000
  {
    hide Or;
    HeaderWordValue(length);
    ShiftSixteen(0);
    OrBound(0xaa01, length / 0x1_0000, 16);
  }

  function Copies<T>(x: T, n: nat): (r: seq<T>)
    ensures |r| == n && forall i :: 0 <= i < n ==> r[i] == x
    decreases n
  {
    if n == 0 then [] else [x] + Copies(x, n - 1)
  }

  /** How many of the three attempts are made: up to the first acknowledgement. */
  function Attempts(acked: nat -> bool): (n: nat)
    ensures 1 <= n <= 3
    ensures n < 3 ==> acked(n - 1)
    ensures forall i :: 0 <= i < n - 1 ==> !acked(i)
  {
    if acked(0) then 1 else if acked(1) then 2 else 3
  }

  /**
    * DTS_sndToUart: the byte strings written to the port. acked(i) tells whether the wait after
    * the i-th write finds an acknowledgement in the queue.
    */
  method SndToUart(tmpList: seq<seq<byte>>, acked: nat -> bool) returns (written: PyResult<seq<seq<byte>>>)
    ensures written.Raises? <==> |Join(tmpList)| + 5 >= 0x1_0000_0000
    ensures written.Ok? ==> written.value == Copies(Frame(Join(tmpList)), Attempts(acked))
  {
    hide HeaderWord, Le, XorFrom;
    var length := 0;
    for i := 0 to |tmpList|
      invariant length == |Join(tmpList[..i])|
    {
      assert tmpList[..i + 1][..i] == tmpList[..i];
      length := length + |tmpList[i]|;
    }
    assert tmpList[..|tmpList|] == tmpList;
    length := length + 5;
    var hdr := HeaderWord(UART_HDR_TYPE_FTDF, length);
    HeaderWordFits(length);
    if hdr >= 0x1_0000_0000 {
      return Raises;
    }
    var data := Le(hdr, 4) + Join(tmpList);
    var xor := CalcXor(data);
    data := data + [xor];
    var out := [];
    var i := 0;
    while i < 3
      invariant 0 <= i <= 3 && |out| == i
      invariant forall k :: 0 <= k < i ==> out[k] == data && !acked(k)
    {
      out := out + [data];
      if acked(i) {
        break;
      }
      i := i + 1;
    }
    assert out == Copies(data, |out|);
    written := Ok(out);
  }

  // ---------------------------------------------------------------- receiver

  /** The receiver thread between two turns of its loop. */
  datatype Receiver = Receiver(first: bool, msglen: nat, uarttype: nat, rawhdr: seq<byte>,
                               serQueue: seq<seq<byte>>, ackQueue: seq<seq<byte>>, dead: bool)

  /** How many bytes a read of n bytes gets, when the next arrivals bring at most ready bytes. */
  function ReadCount(n: int, ready: nat, pending: nat): nat {
    if n <= 0 then 0 else if n <= ready && n <= pending then n else if ready <= pending then ready else pending
  }

  function Ready(schedule: seq<nat>): nat { if schedule == [] then 0 else schedule[0] }

  function Rest(schedule: seq<nat>): seq<nat> { if schedule == [] then [] else schedule[1..] }

  /** A header was read: keep it unless the start flag is wrong. */
  function TakeHeader(rx: Receiver, hdr: seq<byte>): Receiver
    requires |hdr| == 4
  {
    var msghdr := UnLe(hdr);
    if msghdr / 0x100_0000 % 256 != UART_START_FLAG then rx.(rawhdr := hdr)
    else rx.(rawhdr := hdr, uarttype := msghdr / 0x1_0000 % 256, msglen := msghdr % 0x1_0000, first := false)
  }

  /** The rest of a message was read. */
  function TakeBody(rx: Receiver, rawmsg: seq<byte>): Receiver {
    if |rawmsg| != rx.msglen - 4 then rx.(first := true)
    else if rawmsg == [] then rx.(dead := true)   // rawmsg[-1] raises IndexError in the thread
    else
      var body := rawmsg[..|rawmsg| - 1];
      if rawmsg[|rawmsg| - 1] != XorFrom(0, rx.rawhdr + body) then rx.(first := true)
      else if rx.uarttype == UART_HDR_TYPE_FTDF then rx.(first := true, serQueue := rx.serQueue + [body])
      else if rx.uarttype == UART_HDR_TYPE_ACK then rx.(first := true, ackQueue := rx.ackQueue + [body])
      else rx.(first := true)
  }

  /** The receiver, the bytes still to come and the reads still to come. */
  datatype Config = Config(rx: Receiver, pending: seq<byte>, schedule: seq<nat>)

  /** The bytes one or two reads got of a header, and what they left. */
  datatype Header = Header(raw: seq<byte>, whole: bool, pending: seq<byte>, schedule: seq<nat>)

  /** A short first read is followed by a second one for the rest; no bytes at all end the turn. */
  function HeaderRead(pending: seq<byte>, schedule: seq<nat>): (h: Header)
    ensures h.whole ==> |h.raw| == 4
    ensures schedule != [] ==> |h.schedule| < |schedule|
  {
    var k := ReadCount(4, Ready(schedule), |pending|);
    if k == 0 then Header([], false, pending, Rest(schedule))
    else if k == 4 then Header(pending[..4], true, pending[4..], Rest(schedule))
    else
      var k2 := ReadCount(4 - k, Ready(Rest(schedule)), |pending| - k);
      var rest := Rest(Rest(schedule));
      if k + k2 != 4 then Header(pending[..k], false, pending[k + k2..], rest)
      else Header(pending[..4], true, pending[4..], rest)
  }

  /** A turn of the loop that waits for a header. */
  function HeaderTurn(c: Config): (c': Config)
    requires c.schedule != []
    ensures |c'.schedule| < |c.schedule|
  {
    var h := HeaderRead(c.pending, c.schedule);
    Config(if h.whole then TakeHeader(c.rx, h.raw) else c.rx.(rawhdr := h.raw), h.pending, h.schedule)
  }

  /** A turn of the loop that waits for the rest of a message. */
  function BodyTurn(c: Config): (c': Config)
    requires c.schedule != []
    ensures |c'.schedule| < |c.schedule|
  {
    var k := ReadCount(c.rx.msglen - 4, Ready(c.schedule), |c.pending|);
    Config(TakeBody(c.rx, c.pending[..k]), c.pending[k..], c.schedule[1..])
  }

  /**
    * The whole run of the receiver over the bytes still to come, cut up by the schedule: its
    * i-th entry bounds what the i-th read finds before the port times out. The thread is
    * stopped when the schedule ends.
    */
  function Receive(c: Config): Receiver
    decreases |c.schedule|
  {
    if c.schedule == [] || c.rx.dead then c.rx
    else if c.rx.first then Receive(HeaderTurn(c))
    else Receive(BodyTurn(c))
  }

  /** The port: bytes on their way, and how many of them each coming read finds. */
  class SerialPort {
    var pending: seq<byte>
    var schedule: seq<nat>

    constructor (pending: seq<byte>, schedule: seq<nat>)
      ensures this.pending == pending && this.schedule == schedule
    {
      this.pending, this.schedule := pending, schedule;
    }

    /** serial.Serial.read: at most n bytes, fewer when the timeout strikes. */
    method Read(n: int) returns (r: seq<byte>)
      modifies this
      ensures var k := ReadCount(n, Ready(old(schedule)), |old(pending)|);
              r == old(pending)[..k] && pending == old(pending)[k..]
      ensures schedule == Rest(old(schedule))
    {
      var k := ReadCount(n, Ready(schedule), |pending|);
      r := pending[..k];
      pending := pending[k..];
      schedule := Rest(schedule);
    }
  }

  /** Two reads in a row take what one longer read would. */
  lemma SplitRead(p: seq<byte>, j: nat, k: nat)
    requires j + k <= |p|
    ensures p[..j] + p[j..][..k] == p[..j + k] && p[j..][k..] == p[j + k..]
  {}

  /** DTS_uartThread. */
  class UartThread {
    var rawhdr: seq<byte>
    var serQueue: seq<seq<byte>>
    var ackQueue: seq<seq<byte>>
    var dead: bool

    constructor ()
      ensures rawhdr == [] && serQueue == [] && ackQueue == [] && !dead
    {
      rawhdr, serQueue, ackQueue, dead := [], [], [], false;
    }

    ghost function State(first: bool, msglen: nat, uarttype: nat, port: SerialPort): Config
      reads this, port
    {
      Config(Receiver(first, msglen, uarttype, rawhdr, serQueue, ackQueue, dead), port.pending, port.schedule)
    }

    /** Reads a header into rawhdr, in one go or in two. */
    method ReadRawHeader(port: SerialPort) returns (whole: bool)
      modifies this`rawhdr, port
      ensures Header(rawhdr, whole, port.pending, port.schedule) == HeaderRead(old(port.pending), old(port.schedule))
    {
      rawhdr := port.Read(4);
      if |rawhdr| == 0 {
        return false;
      } else if |rawhdr| < 4 {
        var lenleft := 4 - |rawhdr|;
        var rawhdr2 := port.Read(lenleft);
        SplitRead(old(port.pending), |rawhdr|, |rawhdr2|);
        if |rawhdr2| != lenleft {
          return false;
        }
        rawhdr := rawhdr + rawhdr2;
      }
      whole := true;
    }

    /** The first half of the loop of DTS_uartThread.run. */
    method ReadHeader(port: SerialPort, msglen: nat, uarttype: nat)
      returns (first: bool, msglen': nat, uarttype': nat)
      requires port.schedule != []
      modifies this, port
      ensures State(first, msglen', uarttype', port) == HeaderTurn(old(State(true, msglen, uarttype, port)))
      ensures !first ==> |rawhdr| == 4
    {
      hide HeaderRead, UnLe;
      first, msglen', uarttype' := true, msglen, uarttype;
      var whole := ReadRawHeader(port);
      if !whole {
        return;
      }
      var msghdr := UnLe(rawhdr);
      var startflag := msghdr / 0x100_0000 % 256;
      if startflag != UART_START_FLAG {
        return;
      }
      uarttype' := msghdr / 0x1_0000 % 256;
      msglen' := msghdr % 0x1_0000;
      first := false;
    }

    /** The second half of the loop of DTS_uartThread.run. */
    method ReadBody(port: SerialPort, msglen: nat, uarttype: nat) returns (first: bool)
      requires port.schedule != []
      modifies this, port
      ensures State(first, msglen, uarttype, port) == BodyTurn(old(State(false, msglen, uarttype, port)))
      ensures rawhdr == old(rawhdr)
    {
      first := false;
      var rawmsg := port.Read(msglen - 4);
      if |rawmsg| != msglen - 4 {
        return true;
      }
      if |rawmsg| == 0 {
        dead := true;
        return;
      }
      var body := rawmsg[..|rawmsg| - 1];
      var calcXor := CalcXor(rawhdr + body);
      first := true;
      if rawmsg[|rawmsg| - 1] != calcXor {
        return;
      }
      if uarttype == UART_HDR_TYPE_FTDF {
        serQueue := serQueue + [body];
      } else if uarttype == UART_HDR_TYPE_ACK {
        ackQueue := ackQueue + [body];
      }
    }

    /** DTS_uartThread.run; the stop flag is set once the schedule of reads has run out. */
    method Run(port: SerialPort)
      modifies this, port
      ensures var rx := Receive(old(State(true, 0, UART_HDR_TYPE_FTDF, port)));
              serQueue == rx.serQueue && ackQueue == rx.ackQueue && dead == rx.dead && rawhdr == rx.rawhdr
    {
      hide HeaderTurn, BodyTurn;
      var first := true;
      var msglen: nat := 0;
      var uarttype: nat := UART_HDR_TYPE_FTDF;
      while port.schedule != [] && !dead
        invariant Receive(State(first, msglen, uarttype, port))
                  == Receive(old(State(true, 0, UART_HDR_TYPE_FTDF, port)))
        decreases |port.schedule|
      {
        if first {
          first, msglen, uarttype := ReadHeader(port, msglen, uarttype);
        } else {
          first := ReadBody(port, msglen, uarttype);
        }
      }
    }
  }

  // ---------------------------------------------------------------- what a stream of frames delivers

  /**
    * The schedule feeds the frames so that each header comes in one read or split across two,
    * and each body in one read; idle polls may come before a header.
    */
  predicate Paced(ws: seq<seq<byte>>, schedule: seq<nat>)
    decreases |schedule|
  {
    if ws == [] then true
    else if schedule == [] then false
    else if schedule[0] == 0 then Paced(ws, schedule[1..])
    else if schedule[0] >= 4 then
      |schedule| >= 2 && schedule[1] + 4 >= |ws[0]| && Paced(ws[1..], schedule[2..])
    else
      && |schedule| >= 3 && schedule[0] + schedule[1] >= 4 && schedule[2] + 4 >= |ws[0]|
      && Paced(ws[1..], schedule[3..])
  }

  function Stream(ws: seq<seq<byte>>): seq<byte>
    decreases |ws|
  {
    if ws == [] then [] else ws[0] + Stream(ws[1..])
  }

  /** The fields of a header. */
  lemma HeaderBytes(s: seq<byte>)
    requires |s| == 4
    ensures var h := UnLe(s);
            && h / 0x100_0000 % 256 == s[3] && h / 0x1_0000 % 256 == s[2]
            && h % 0x1_0000 == (s[0] as int) + 256 * (s[1] as int)
  {
    assert s[1..][1..] == s[2..] && s[2..][1..] == s[3..] && s[3..][1..] == [];
    var b1: int, b2: int, b3: int := s[1], s[2], s[3];
    assert UnLe(s[3..]) == b3;
    assert UnLe(s[2..]) == b2 + 256 * b3;
    assert UnLe(s[1..]) == b1 + 256 * (b2 + 256 * b3);
    FourBytes(s[0], s[1], s[2], s[3]);
  }

  lemma FourBytes(b0: byte, b1: byte, b2: byte, b3: byte)
    ensures var lo, hi := (b0 as int) + 256 * (b1 as int), (b2 as int) + 256 * (b3 as int);
            var h := lo + 0x1_0000 * hi;
            h / 0x100_0000 % 256 == b3 && h / 0x1_0000 % 256 == b2 && h % 0x1_0000 == lo
  {}

  lemma HeaderOfAligned(w: seq<byte>)
    requires Aligned(w)
    ensures var h := UnLe(w[..4]);
            h / 0x100_0000 % 256 == UART_START_FLAG && h / 0x1_0000 % 256 == FrameType(w) && h % 0x1_0000 == |w|
  {
    HeaderBytes(w[..4]);
  }

  /** What one whole frame, header and body both read, does to the receiver. */
  function TakeFrame(rx: Receiver, w: seq<byte>): Receiver
    requires Aligned(w)
  {
    TakeBody(TakeHeader(rx, w[..4]), w[4..])
  }

  lemma FrameEffect(rx: Receiver, w: seq<byte>)
    requires Aligned(w) && rx.first && !rx.dead
    ensures var mid := TakeHeader(rx, w[..4]); !mid.first && !mid.dead && mid.msglen == |w|
    ensures var rx' := TakeFrame(rx, w);
            && rx'.first && !rx'.dead
            && rx'.serQueue == rx.serQueue + Delivered([w], UART_HDR_TYPE_FTDF)
            && rx'.ackQueue == rx.ackQueue + Delivered([w], UART_HDR_TYPE_ACK)
  {
    HeaderOfAligned(w);
    assert w[4..][..|w| - 5] == Payload(w);
    assert w[..4] + Payload(w) == w[..|w| - 1];
    assert [w][1..] == [];
  }

  lemma {:induction false} NothingMore(rx: Receiver, schedule: seq<nat>)
    requires rx.first && !rx.dead
    ensures var rx' := Receive(Config(rx, [], schedule));
            rx'.first && !rx'.dead && rx'.serQueue == rx.serQueue && rx'.ackQueue == rx.ackQueue
    decreases |schedule|
  {
    if schedule != [] {
      NothingMore(rx.(rawhdr := []), schedule[1..]);
    }
  }

  /** Reading one frame off the front of the stream, header in one read or in two. */
  lemma {:induction false} ReceiveFrame(rx: Receiver, w: seq<byte>, tail: seq<byte>, schedule: seq<nat>)
    requires Aligned(w) && rx.first && !rx.dead
    requires |schedule| >= 2 && schedule[0] >= 4 && schedule[1] + 4 >= |w|
    ensures Receive(Config(rx, w + tail, schedule)) == Receive(Config(TakeFrame(rx, w), tail, schedule[2..]))
  {
    FrameEffect(rx, w);
    assert (w + tail)[..4] == w[..4];
    var pending := (w + tail)[4..];
    assert pending[..|w| - 4] == w[4..] && pending[|w| - 4..] == tail;
    assert schedule[1..][1..] == schedule[2..];
  }

  lemma {:induction false} ReceiveSplitFrame(rx: Receiver, w: seq<byte>, tail: seq<byte>, schedule: seq<nat>)
    requires Aligned(w) && rx.first && !rx.dead
    requires |schedule| >= 3 && 0 < schedule[0] < 4 && schedule[0] + schedule[1] >= 4 && schedule[2] + 4 >= |w|
    ensures Receive(Config(rx, w + tail, schedule)) == Receive(Config(TakeFrame(rx, w), tail, schedule[3..]))
  {
    FrameEffect(rx, w);
    assert (w + tail)[..4] == w[..4];
    var pending := (w + tail)[4..];
    assert pending[..|w| - 4] == w[4..] && pending[|w| - 4..] == tail;
    assert schedule[1..][1..] == schedule[2..] && schedule[2..][1..] == schedule[3..];
  }

  lemma IdlePoll(rx: Receiver, pending: seq<byte>, schedule: seq<nat>)
    requires rx.first && !rx.dead && schedule != [] && schedule[0] == 0
    ensures Receive(Config(rx, pending, schedule)) == Receive(Config(rx.(rawhdr := []), pending, schedule[1..]))
  {}

  /** From rx to rx', exactly the intact frames among ws were delivered, in order. */
  ghost predicate HasDelivered(rx: Receiver, ws: seq<seq<byte>>, rx': Receiver)
    requires AllAligned(ws)
  {
    && rx'.first && !rx'.dead
    && rx'.serQueue == rx.serQueue + Delivered(ws, UART_HDR_TYPE_FTDF)
    && rx'.ackQueue == rx.ackQueue + Delivered(ws, UART_HDR_TYPE_ACK)
  }

  lemma HasDeliveredFirst(rx: Receiver, ws: seq<seq<byte>>, rx': Receiver)
    requires AllAligned(ws) && ws != [] && rx.first && !rx.dead
    requires HasDelivered(TakeFrame(rx, ws[0]), ws[1..], rx')
    ensures HasDelivered(rx, ws, rx')
  {
    hide TakeFrame, Delivered;
    assert ws == [ws[0]] + ws[1..];
    FrameEffect(rx, ws[0]);
    DeliveredAppend([ws[0]], ws[1..], UART_HDR_TYPE_FTDF);
    DeliveredAppend([ws[0]], ws[1..], UART_HDR_TYPE_ACK);
  }

  /**
    * Whatever the payloads and however each header is cut, the receiver delivers exactly the
    * payloads of the intact FTDF frames on serQueue and of the intact ACK frames on ackQueue.
    */
  lemma {:induction false} StreamDelivered(rx: Receiver, ws: seq<seq<byte>>, schedule: seq<nat>)
    requires AllAligned(ws) && Paced(ws, schedule) && rx.first && !rx.dead
    ensures HasDelivered(rx, ws, Receive(Config(rx, Stream(ws), schedule)))
    decreases |schedule|
  {
    hide TakeFrame, Receive, Aligned, Intact;
    if ws == [] {
      NothingMore(rx, schedule);
    } else if schedule[0] == 0 {
      IdlePoll(rx, Stream(ws), schedule);
      StreamDelivered(rx.(rawhdr := []), ws, schedule[1..]);
    } else {
      hide HasDelivered;
      FrameEffect(rx, ws[0]);
      if schedule[0] >= 4 {
        ReceiveFrame(rx, ws[0], Stream(ws[1..]), schedule);
        StreamDelivered(TakeFrame(rx, ws[0]), ws[1..], schedule[2..]);
      } else {
        ReceiveSplitFrame(rx, ws[0], Stream(ws[1..]), schedule);
        StreamDelivered(TakeFrame(rx, ws[0]), ws[1..], schedule[3..]);
      }
      HasDeliveredFirst(rx, ws, Receive(Config(rx, Stream(ws), schedule)));
    }
  }

  // ---------------------------------------------------------------- starting over

  /**
    * With its queues untouched and waiting for a header, the receiver delivers what comes next as if
    * nothing had been.
    */
  lemma StartsOver(rx: Receiver, mid: Receiver, ws: seq<seq<byte>>, schedule: seq<nat>)
    requires AllAligned(ws) && Paced(ws, schedule) && mid.first && !mid.dead
    requires mid.serQueue == rx.serQueue && mid.ackQueue == rx.ackQueue
    ensures HasDelivered(rx, ws, Receive(Config(mid, Stream(ws), schedule)))
  {
    hide Receive, Delivered, Stream, Paced, Aligned;
    StreamDelivered(mid, ws, schedule);
  }

  /** A frame whose body breaks off is dropped, and the frames after it are delivered. */
  lemma CutBodyIsDropped(rx: Receiver, w: seq<byte>, m: nat, ws: seq<seq<byte>>, schedule: seq<nat>)
    requires rx.first && !rx.dead && Aligned(w) && 4 <= m < |w| && AllAligned(ws) && Paced(ws, schedule)
    ensures HasDelivered(rx, ws, Receive(Config(rx, w[..m] + Stream(ws), [4, m - 4] + schedule)))
  {
    hide Paced, Stream, HasDelivered, Aligned, AllAligned, TakeHeader;
    var mid := CutBodyRead(rx, w, m, Stream(ws), schedule);
    StartsOver(rx, mid, ws, schedule);
  }

  lemma CutBodyRead(rx: Receiver, w: seq<byte>, m: nat, tail: seq<byte>, schedule: seq<nat>) returns (mid: Receiver)
    requires rx.first && !rx.dead && Aligned(w) && 4 <= m < |w|
    ensures mid.first && !mid.dead && mid.serQueue == rx.serQueue && mid.ackQueue == rx.ackQueue
    ensures Receive(Config(rx, w[..m] + tail, [4, m - 4] + schedule)) == Receive(Config(mid, tail, schedule))
  {
    FrameEffect(rx, w);
    hide UnLe;
    var p, s := w[..m] + tail, [4, m - 4] + schedule;
    assert p[..4] == w[..4] && s[1..][1..] == schedule;
    assert p[4..][..m - 4] == w[4..m] && p[4..][m - 4..] == tail;
    var d := HeaderTurn(Config(rx, p, s));
    assert d == Config(TakeHeader(rx, w[..4]), p[4..], s[1..]);
    mid := d.rx.(first := true);
    assert BodyTurn(d) == Config(mid, tail, schedule);
    assert Receive(d) == Receive(Config(mid, tail, schedule));
  }

  /** So is a header that breaks off. */
  lemma CutHeaderIsDropped(rx: Receiver, part: seq<byte>, ws: seq<seq<byte>>, schedule: seq<nat>)
    requires rx.first && !rx.dead && 0 < |part| < 4 && AllAligned(ws) && Paced(ws, schedule)
    ensures HasDelivered(rx, ws, Receive(Config(rx, part + Stream(ws), [|part|, 0] + schedule)))
  {
    hide Paced, Stream, HasDelivered, UnLe;
    var p, s := part + Stream(ws), [|part|, 0] + schedule;
    assert p[..|part|] == part && p[|part|..] == Stream(ws) && s[1..][1..] == schedule;
    assert HeaderTurn(Config(rx, p, s)) == Config(rx.(rawhdr := part), Stream(ws), schedule);
    StartsOver(rx, rx.(rawhdr := part), ws, schedule);
  }

  /** So are four bytes that do not end in the start flag. */
  lemma NoFlagIsDropped(rx: Receiver, h: seq<byte>, ws: seq<seq<byte>>, schedule: seq<nat>)
    requires rx.first && !rx.dead && |h| == 4 && h[3] != 0xaa && AllAligned(ws) && Paced(ws, schedule)
    ensures HasDelivered(rx, ws, Receive(Config(rx, h + Stream(ws), [4] + schedule)))
  {
    HeaderBytes(h);
    hide Paced, Stream, HasDelivered, UnLe;
    var p, s := h + Stream(ws), [4] + schedule;
    assert p[..4] == h && p[4..] == Stream(ws) && s[1..] == schedule;
    assert HeaderTurn(Config(rx, p, s)) == Config(rx.(rawhdr := h), Stream(ws), schedule);
    StartsOver(rx, rx.(rawhdr := h), ws, schedule);
  }

  // ---------------------------------------------------------------- nothing but frames

  /** The strings stand in p at these positions, one after the other and without overlap. */
  ghost predicate SlicesOf(p: seq<byte>, at: seq<nat>, ws: seq<seq<byte>>) {
    && |at| == |ws|
    && (forall n :: 0 <= n < |ws| ==> at[n] + |ws[n]| <= |p| && p[at[n]..at[n] + |ws[n]|] == ws[n])
    && (forall m, n :: 0 <= m < n < |ws| ==> at[m] + |ws[m]| <= at[n])
  }

  /** All bytes of each of them, header, payload and checksum, xor to zero. */
  predicate AllIntact(ws: seq<seq<byte>>) {
    forall i :: 0 <= i < |ws| ==> XorFrom(0, ws[i]) == 0
  }

  lemma IntactXorsToZero(w: seq<byte>)
    requires |w| >= 5
    ensures Intact(w) <==> XorFrom(0, w) == 0
  {
    var n := |w| - 1;
    assert w == w[..n] + [w[n]];
    XorFromAppend(0, w[..n], [w[n]]);
    XorFromOne(XorFrom(0, w[..n]), w[n]);
    XorIsZero(XorFrom(0, w[..n]), w[n]);
  }

  lemma XorFromOne(x: byte, b: byte)
    ensures XorFrom(x, [b]) == XorByte(x, b)
  {
    assert [b][1..] == [];
  }

  /**
    * From rx to rx', the payloads of intact frames that stand in p were queued: FTDF (1) on serQueue,
    * ACK (3) on ackQueue.
    */
  ghost predicate Explained(p: seq<byte>, rx: Receiver, at: seq<nat>, ws: seq<seq<byte>>, rx': Receiver) {
    && SlicesOf(p, at, ws) && AllAligned(ws) && AllIntact(ws)
    && rx'.serQueue == rx.serQueue + Delivered(ws, 1)
    && rx'.ackQueue == rx.ackQueue + Delivered(ws, 3)
  }

  /**
    * Whatever bytes arrive and however they are cut up, the queues receive nothing but the payloads
    * of intact frames that stand in the stream, in order: no short, damaged or invented message.
    */
  lemma ReceiverIsSound(c: Config)
    requires c.rx.first && !c.rx.dead
    ensures exists at, ws :: Explained(c.pending, c.rx, at, ws, Receive(c))
  {
    var at, ws := FindFrames(c);
  }

  lemma {:induction false} FindFrames(c: Config) returns (at: seq<nat>, ws: seq<seq<byte>>)
    requires c.rx.first && !c.rx.dead
    ensures Explained(c.pending, c.rx, at, ws, Receive(c))
    decreases |c.schedule|
  {
    hide HeaderTurn, BodyTurn, Explained;
    if c.schedule == [] {
      at, ws := [], [];
      NothingToExplain(c.pending, c.rx, c.rx);
    } else {
      var d := HeaderTurn(c);
      HeaderTakes(c);
      if d.rx.first {
        at, ws := FindFrames(d);
        at := ExplainedLater(c.pending, |c.pending| - |d.pending|, c.rx, d.rx, at, ws, Receive(c));
      } else if d.schedule == [] {
        at, ws := [], [];
        assert Receive(d) == d.rx;
        NothingToExplain(c.pending, c.rx, d.rx);
      } else {
        var e := BodyTurn(d);
        assert Receive(d) == Receive(e);
        BodyTakes(d);
        if e.rx.dead {
          at, ws := [], [];
          NothingToExplain(c.pending, c.rx, e.rx);
        } else {
          at, ws := FindFrames(e);
          var k := |c.pending| - |e.pending|;
          SliceAfterSlice(c.pending, 4, k - 4);
          if WholeFrame(d) {
            at, ws := ExplainedFirst(c.pending, d, k, c.rx, e.rx, at, ws, Receive(c));
          } else {
            at := ExplainedLater(c.pending, k, c.rx, e.rx, at, ws, Receive(c));
          }
        }
      }
    }
  }

  lemma SliceAfterSlice(p: seq<byte>, i: nat, j: nat)
    requires i + j <= |p|
    ensures p[i..][j..] == p[i + j..]
  {}

  lemma NothingToExplain(p: seq<byte>, rx: Receiver, rx': Receiver)
    requires rx'.serQueue == rx.serQueue && rx'.ackQueue == rx.ackQueue
    ensures Explained(p, rx, [], [], rx')
  {}

  /** The bytes of the message that is waited for: the header that was kept and the body that is read. */
  function FrameRead(c: Config): seq<byte> {
    c.rx.rawhdr + c.pending[..ReadCount(c.rx.msglen - 4, Ready(c.schedule), |c.pending|)]
  }

  /** The body comes whole, and its checksum is right. */
  predicate WholeFrame(c: Config) {
    |FrameRead(c)| >= 5 && |FrameRead(c)| == |c.rx.rawhdr| + c.rx.msglen - 4 && Intact(FrameRead(c))
  }

  /** A header that is taken was the next four bytes; whatever happens, the queues stay as they are. */
  lemma HeaderTakes(c: Config)
    requires c.rx.first && !c.rx.dead && c.schedule != []
    ensures var d := HeaderTurn(c);
            && |d.pending| <= |c.pending| && d.pending == c.pending[|c.pending| - |d.pending|..] && !d.rx.dead
            && d.rx.serQueue == c.rx.serQueue && d.rx.ackQueue == c.rx.ackQueue
            && (!d.rx.first ==>
                  && |c.pending| - |d.pending| == 4 && d.rx.rawhdr == c.pending[..4]
                  && d.rx.rawhdr[3] == UART_START_FLAG
                  && d.rx.msglen == (d.rx.rawhdr[0] as int) + 256 * (d.rx.rawhdr[1] as int)
                  && d.rx.uarttype == d.rx.rawhdr[2])
  {
    var h := HeaderRead(c.pending, c.schedule);
    if h.whole {
      HeaderBytes(h.raw);
    }
  }

  /** A body leaves the queues as they are, unless it completes an intact frame of type 1 or 3. */
  lemma BodyTakes(d: Config)
    requires !d.rx.first && !d.rx.dead && d.schedule != [] && |d.rx.rawhdr| == 4
    ensures var e := BodyTurn(d);
            && |d.rx.rawhdr + d.pending| >= |FrameRead(d)| && e.pending == d.pending[|FrameRead(d)| - 4..]
            && (!e.rx.dead ==> e.rx.first)
            && (e.rx.dead ==> !WholeFrame(d))
            && e.rx.serQueue
               == d.rx.serQueue + (if WholeFrame(d) && d.rx.uarttype == 1 then [Payload(FrameRead(d))] else [])
            && e.rx.ackQueue
               == d.rx.ackQueue + (if WholeFrame(d) && d.rx.uarttype == 3 then [Payload(FrameRead(d))] else [])
  {
    var k := ReadCount(d.rx.msglen - 4, Ready(d.schedule), |d.pending|);
    var rawmsg, w := d.pending[..k], FrameRead(d);
    if k > 0 {
      assert w[..|w| - 1] == d.rx.rawhdr + rawmsg[..k - 1] && w[|w| - 1] == rawmsg[k - 1];
      assert w[4..|w| - 1] == rawmsg[..k - 1];
    }
  }

  /** Frames of the rest of a stream are frames of the stream. */
  lemma ExplainedLater(p: seq<byte>, k: nat, rx: Receiver, mid: Receiver, at: seq<nat>, ws: seq<seq<byte>>,
                       rx': Receiver)
    returns (at': seq<nat>)
    requires k <= |p| && Explained(p[k..], mid, at, ws, rx')
    requires mid.serQueue == rx.serQueue && mid.ackQueue == rx.ackQueue
    ensures Explained(p, rx, at', ws, rx') && |at'| == |at| && forall n :: 0 <= n < |at| ==> at'[n] == at[n] + k
  {
    at' := seq(|at|, i requires 0 <= i < |at| => at[i] + k);
    SlicesLater(p, k, at, ws, at');
    hide SlicesOf, Delivered, Aligned, Intact, AllIntact, AllAligned;
  }

  lemma SlicesLater(p: seq<byte>, k: nat, at: seq<nat>, ws: seq<seq<byte>>, at': seq<nat>)
    requires k <= |p| && SlicesOf(p[k..], at, ws)
    requires |at'| == |at| && forall n :: 0 <= n < |at| ==> at'[n] == at[n] + k
    ensures SlicesOf(p, at', ws)
  {
    forall n | 0 <= n < |ws| ensures at'[n] + |ws[n]| <= |p| && p[at'[n]..at'[n] + |ws[n]|] == ws[n] {
      SliceOfRest(p, k, at[n], |ws[n]|);
    }
  }

  lemma SliceOfRest(p: seq<byte>, k: nat, a: nat, n: nat)
    requires k + a + n <= |p|
    ensures p[k..][a..a + n] == p[k + a..k + a + n]
  {}

  /** An intact frame in front, and the frames after it. */
  lemma ExplainedFirst(p: seq<byte>, d: Config, k: nat, rx: Receiver, mid: Receiver, at: seq<nat>, ws: seq<seq<byte>>,
                       rx': Receiver)
    returns (at': seq<nat>, ws': seq<seq<byte>>)
    requires 4 <= |p| && k <= |p| && d.rx.rawhdr == p[..4] && d.pending == p[4..] && k == |FrameRead(d)|
    requires d.rx.rawhdr[3] == UART_START_FLAG && d.rx.uarttype == d.rx.rawhdr[2]
    requires d.rx.msglen == (d.rx.rawhdr[0] as int) + 256 * (d.rx.rawhdr[1] as int)
    requires WholeFrame(d) && Explained(p[k..], mid, at, ws, rx')
    requires mid.serQueue == rx.serQueue + if d.rx.uarttype == 1 then [Payload(FrameRead(d))] else []
    requires mid.ackQueue == rx.ackQueue + if d.rx.uarttype == 3 then [Payload(FrameRead(d))] else []
    ensures Explained(p, rx, at', ws', rx')
  {
    var w := FrameRead(d);
    FrameReadIs(p, d, k);
    OneFrame(w);
    at' := ExplainedLater(p, k, mid, mid, at, ws, rx');
    FirstSlice(p, w, at', ws);
    ExplainedMeans(p, mid, at, ws, rx', k);
    hide *;
    at', ws' := [0] + at', [w] + ws;
    FirstDelivered(w, ws, 1, rx.serQueue, mid.serQueue, rx'.serQueue);
    FirstDelivered(w, ws, 3, rx.ackQueue, mid.ackQueue, rx'.ackQueue);
    FramesExplain(p, rx, at', ws', rx');
  }

  lemma ExplainedMeans(p: seq<byte>, rx: Receiver, at: seq<nat>, ws: seq<seq<byte>>, rx': Receiver, k: nat)
    requires k <= |p| && Explained(p[k..], rx, at, ws, rx')
    ensures AllAligned(ws) && AllIntact(ws)
    ensures rx'.serQueue == rx.serQueue + Delivered(ws, 1) && rx'.ackQueue == rx.ackQueue + Delivered(ws, 3)
  {}

  lemma FramesExplain(p: seq<byte>, rx: Receiver, at: seq<nat>, ws: seq<seq<byte>>, rx': Receiver)
    requires SlicesOf(p, at, ws) && AllAligned(ws) && AllIntact(ws)
    requires rx'.serQueue == rx.serQueue + Delivered(ws, 1) && rx'.ackQueue == rx.ackQueue + Delivered(ws, 3)
    ensures Explained(p, rx, at, ws, rx')
  {}

  /** A queue that first takes what one frame delivers, and then what others do. */
  lemma FirstDelivered(w: seq<byte>, ws: seq<seq<byte>>, t: byte, q: seq<seq<byte>>, mid: seq<seq<byte>>,
                       q': seq<seq<byte>>)
    requires Aligned(w) && Intact(w) && AllAligned(ws) && AllIntact(ws)
    requires mid == q + (if FrameType(w) == t then [Payload(w)] else []) && q' == mid + Delivered(ws, t)
    ensures AllAligned([w] + ws) && AllIntact([w] + ws) && q' == q + Delivered([w] + ws, t)
  {
    OneFrame(w);
    FirstIntact(w, ws);
    hide *;
    DeliveredAppend([w], ws, t);
    Associative(q, Delivered([w], t), Delivered(ws, t));
  }

  lemma Associative<T>(a: seq<T>, b: seq<T>, c: seq<T>)
    ensures a + b + c == a + (b + c)
  {}

  lemma FirstIntact(w: seq<byte>, ws: seq<seq<byte>>)
    requires Aligned(w) && Intact(w) && AllAligned(ws) && AllIntact(ws)
    ensures AllAligned([w]) && AllAligned([w] + ws) && AllIntact([w] + ws)
  {
    IntactXorsToZero(w);
    hide Aligned, Intact, XorFrom;
  }

  lemma FrameReadIs(p: seq<byte>, d: Config, k: nat)
    requires 4 <= |p| && k <= |p| && d.rx.rawhdr == p[..4] && d.pending == p[4..] && k == |FrameRead(d)|
    requires d.rx.rawhdr[3] == UART_START_FLAG && d.rx.uarttype == d.rx.rawhdr[2]
    requires d.rx.msglen == (d.rx.rawhdr[0] as int) + 256 * (d.rx.rawhdr[1] as int)
    requires WholeFrame(d)
    ensures var w := FrameRead(d);
            w == p[..k] && Aligned(w) && Intact(w) && FrameType(w) == d.rx.uarttype
  {
    hide Intact;
    assert FrameRead(d) == p[..k];
  }

  lemma FirstSlice(p: seq<byte>, w: seq<byte>, at: seq<nat>, ws: seq<seq<byte>>)
    requires w <= p && SlicesOf(p, at, ws) && forall n :: 0 <= n < |at| ==> at[n] >= |w|
    ensures SlicesOf(p, [0] + at, [w] + ws)
  {}

  lemma OneFrame(w: seq<byte>)
    requires Aligned(w) && Intact(w)
    ensures forall t :: Delivered([w], t) == if FrameType(w) == t then [Payload(w)] else []
  {
    assert [w][1..] == [];
  }

  // ---------------------------------------------------------------- what kills the receiver

  /** One turn of the loop. */
  function Turn(c: Config): (c': Config)
    requires c.schedule != []
    ensures |c'.schedule| < |c.schedule|
  {
    if c.rx.first then HeaderTurn(c) else BodyTurn(c)
  }

  /** Where the receiver stands after n turns, or when it stops before that. */
  function After(c: Config, n: nat): Config
    decreases n
  {
    if n == 0 || c.schedule == [] || c.rx.dead then c else After(Turn(c), n - 1)
  }

  /** The next header read is whole, has its start flag and declares a length of 4, and a turn for its body follows. */
  predicate EmptyMessageNext(c: Config) {
    && c.rx.first && !c.rx.dead && c.schedule != []
    && var h := HeaderRead(c.pending, c.schedule);
       h.whole && h.raw[0] == 4 && h.raw[1] == 0 && h.raw[3] == UART_START_FLAG && h.schedule != []
  }

  ghost predicate MeetsEmptyMessage(c: Config) { exists n: nat :: EmptyMessageNext(After(c, n)) }

  lemma MeetsLater(c: Config)
    requires c.schedule != [] && !c.rx.dead
    ensures MeetsEmptyMessage(c) <==> EmptyMessageNext(c) || MeetsEmptyMessage(Turn(c))
  {
    hide EmptyMessageNext, Turn;
    if n: nat :| EmptyMessageNext(After(c, n)) {
      if n > 0 {
        assert EmptyMessageNext(After(Turn(c), n - 1));
      } else {
        assert After(c, 0) == c;
      }
    }
    if EmptyMessageNext(c) {
      assert EmptyMessageNext(After(c, 0));
    }
    if n: nat :| EmptyMessageNext(After(Turn(c), n)) {
      assert EmptyMessageNext(After(c, n + 1));
    }
  }

  /** What a turn that waits for a header can come to. */
  lemma AfterHeader(c: Config)
    requires c.rx.first && !c.rx.dead && c.schedule != []
    ensures var d := HeaderTurn(c);
            && !d.rx.dead
            && (EmptyMessageNext(c) <==> !d.rx.first && d.rx.msglen == 4 && d.schedule != [])
  {
    var h := HeaderRead(c.pending, c.schedule);
    if h.whole {
      HeaderBytes(h.raw);
    }
  }

  lemma AfterBody(c: Config)
    requires !c.rx.first && !c.rx.dead && c.schedule != []
    ensures var d := BodyTurn(c); d.rx.dead == (c.rx.msglen == 4) && (!d.rx.dead ==> d.rx.first)
  {}

  lemma MeetsNone(c: Config)
    requires c.schedule == [] || c.rx.dead
    ensures !MeetsEmptyMessage(c)
  {}

  /** The thread ends with an exception exactly when it comes to a header that declares a length of 4. */
  lemma {:induction false} DeadIffEmptyMessage(c: Config)
    requires c.rx.first && !c.rx.dead
    ensures Receive(c).dead <==> MeetsEmptyMessage(c)
    decreases |c.schedule|
  {
    hide EmptyMessageNext, HeaderTurn, BodyTurn, MeetsEmptyMessage;
    if c.schedule == [] {
      MeetsNone(c);
    } else {
      MeetsLater(c);
      AfterHeader(c);
      var d := HeaderTurn(c);
      if d.rx.first {
        DeadIffEmptyMessage(d);
      } else if d.schedule == [] {
        assert Receive(d) == d.rx;
        MeetsNone(d);
      } else {
        NotAtHeader(d);
        MeetsLater(d);
        AfterBody(d);
        var e := BodyTurn(d);
        assert Receive(d) == Receive(e);
        if e.rx.dead {
          MeetsNone(e);
        } else {
          DeadIffEmptyMessage(e);
        }
      }
    }
  }

  lemma NotAtHeader(c: Config)
    requires !c.rx.first
    ensures !EmptyMessageNext(c)
  {}

  // ---------------------------------------------------------------- sender and receiver together

  /** What the sender writes for a series of payloads: acks[i] tells which of its attempts are acknowledged. */
  function Written(payloads: seq<seq<byte>>, acks: seq<nat -> bool>): seq<seq<byte>>
    requires |payloads| == |acks|
    decreases |payloads|
  {
    if payloads == [] then []
    else Copies(Frame(payloads[0]), Attempts(acks[0])) + Written(payloads[1..], acks[1..])
  }

  /** Every payload as often as it is written. */
  function Repeated(payloads: seq<seq<byte>>, acks: seq<nat -> bool>): (r: seq<seq<byte>>)
    requires |payloads| == |acks|
    ensures |r| >= |payloads|
    decreases |payloads|
  {
    if payloads == [] then []
    else Copies(payloads[0], Attempts(acks[0])) + Repeated(payloads[1..], acks[1..])
  }

  lemma {:induction false} CopiesDelivered(payload: seq<byte>, n: nat)
    requires |payload| <= 65530
    ensures AllAligned(Copies(Frame(payload), n))
    ensures Delivered(Copies(Frame(payload), n), UART_HDR_TYPE_FTDF) == Copies(payload, n)
    ensures Delivered(Copies(Frame(payload), n), UART_HDR_TYPE_ACK) == []
    decreases n
  {
    FrameAligned(payload);
    FrameIsIntact(payload);
    hide Frame, Aligned, Intact, FrameType, Payload;
    if n != 0 {
      CopiesDelivered(payload, n - 1);
      assert Copies(Frame(payload), n)[1..] == Copies(Frame(payload), n - 1);
    }
  }

  lemma {:induction false} WrittenDelivered(payloads: seq<seq<byte>>, acks: seq<nat -> bool>)
    requires |payloads| == |acks| && forall i :: 0 <= i < |payloads| ==> |payloads[i]| <= 65530
    ensures AllAligned(Written(payloads, acks))
    ensures Delivered(Written(payloads, acks), UART_HDR_TYPE_FTDF) == Repeated(payloads, acks)
    ensures Delivered(Written(payloads, acks), UART_HDR_TYPE_ACK) == []
    decreases |payloads|
  {
    if payloads != [] {
      hide Delivered, Copies, Frame, Attempts, Aligned;
      var first := Copies(Frame(payloads[0]), Attempts(acks[0]));
      CopiesDelivered(payloads[0], Attempts(acks[0]));
      WrittenDelivered(payloads[1..], acks[1..]);
      DeliveredAppend(first, Written(payloads[1..], acks[1..]), UART_HDR_TYPE_FTDF);
      DeliveredAppend(first, Written(payloads[1..], acks[1..]), UART_HDR_TYPE_ACK);
    }
  }

  /**
    * Every payload DTS_sndToUart can frame comes out of the receiver, in order, as often as it
    * was written: the receiver does not recognise a frame sent again.
    */
  lemma SentIsReceived(payloads: seq<seq<byte>>, acks: seq<nat -> bool>, schedule: seq<nat>, rx: Receiver)
    requires |payloads| == |acks| && forall i :: 0 <= i < |payloads| ==> |payloads[i]| <= 65530
    requires Paced(Written(payloads, acks), schedule) && rx.first && !rx.dead
    ensures var rx' := Receive(Config(rx, Stream(Written(payloads, acks)), schedule));
            rx'.serQueue == rx.serQueue + Repeated(payloads, acks) && rx'.ackQueue == rx.ackQueue
  {
    hide Paced, Stream, Receive, Written, Repeated, Delivered, AllAligned;
    WrittenDelivered(payloads, acks);
    StreamDelivered(rx, Written(payloads, acks), schedule);
  }

  /** The payloads come out once each exactly when every first attempt is acknowledged. */
  lemma {:induction false} OnceIfAcknowledged(payloads: seq<seq<byte>>, acks: seq<nat -> bool>)
    requires |payloads| == |acks|
    ensures Repeated(payloads, acks) == payloads <==> forall i :: 0 <= i < |acks| ==> acks[i](0)
    decreases |payloads|
  {
    if payloads != [] {
      hide Attempts;
      OnceIfAcknowledged(payloads[1..], acks[1..]);
      var first, rest := Copies(payloads[0], Attempts(acks[0])), Repeated(payloads[1..], acks[1..]);
      if acks[0](0) {
        assert first == [payloads[0]];
        assert first + rest == payloads <==> rest == payloads[1..];
        assert forall i :: 0 < i < |acks| ==> acks[i] == acks[1..][i - 1];
      } else {
        assert |first + rest| > |payloads|;
      }
    }
  }

  /** A payload whose first attempt goes unacknowledged and whose second does not is queued twice. */
  lemma UnacknowledgedArrivesTwice(payload: seq<byte>, acked: nat -> bool, rx: Receiver)
    requires |payload| <= 65530 && !acked(0) && acked(1) && rx.first && !rx.dead
    ensures var k := |payload| + 1;
            var c := Config(rx, Frame(payload) + Frame(payload), [4, k, 4, k]);
            Receive(c).serQueue == rx.serQueue + [payload, payload]
  {
    hide Frame, Receive;
    var k, w := |payload| + 1, Frame(payload);
    var schedule := [4, k, 4, k];
    assert Copies(w, 2) == [w, w] && Copies(payload, 2) == [payload, payload];
    var acks: seq<nat -> bool> := [acked];
    var payloads: seq<seq<byte>> := [payload];
    assert acks[0] == acked && Attempts(acked) == 2;
    assert Written(payloads[1..], acks[1..]) == [] && Repeated(payloads[1..], acks[1..]) == [];
    var ws: seq<seq<byte>> := [w, w];
    assert Written(payloads, acks) == ws && Repeated(payloads, acks) == [payload, payload];
    PacedTwice(w, schedule);
    SentIsReceived(payloads, acks, schedule, rx);
  }

  lemma PacedTwice(w: seq<byte>, schedule: seq<nat>)
    requires |w| >= 5 && schedule == [4, |w| - 4, 4, |w| - 4]
    ensures Paced([w, w], schedule) && Stream([w, w]) == w + w
  {
    var ws: seq<seq<byte>> := [w, w];
    assert ws[1..] == [w] && |ws[1..][1..]| == 0;
    assert schedule[2..] == [4, |w| - 4] && |schedule[2..][2..]| == 0;
    assert Stream(ws[1..]) == w + Stream(ws[1..][1..]);
    assert Paced(ws[1..], schedule[2..]);
  }

  /** One changed byte of type, payload or checksum leaves a frame aligned but no longer intact. */
  lemma {:induction false} OneByteBreaksFrame(w: seq<byte>, k: nat, b: byte)
    requires Aligned(w) && Intact(w)
    requires (k == 2 || 4 <= k < |w|) && w[k] != b
    ensures Aligned(w[k := b]) && !Intact(w[k := b])
  {
    var w' := w[k := b];
    if k == |w| - 1 {
      assert w'[..|w| - 1] == w[..|w| - 1];
    } else {
      assert w'[..|w| - 1] == w[..|w| - 1][k := b];
      XorSeesOneByte(w[..|w| - 1], k, b);
    }
  }

  lemma BadDeliversNothing(before: seq<seq<byte>>, bad: seq<byte>, t: byte)
    requires AllAligned(before) && Aligned(bad) && !Intact(bad)
    ensures AllAligned(before + [bad]) && Delivered(before + [bad], t) == Delivered(before, t)
  {
    assert [bad][1..] == [] && Delivered([bad], t) == [];
    assert AllAligned([bad]);
    hide Delivered, AllAligned;
    DeliveredAppend(before, [bad], t);
  }

  lemma BrokenDeliversNothing(before: seq<seq<byte>>, bad: seq<byte>, after: seq<seq<byte>>, t: byte)
    requires AllAligned(before) && AllAligned(after) && Aligned(bad) && !Intact(bad)
    ensures AllAligned(before + [bad] + after) && AllAligned(before + after)
    ensures Delivered(before + [bad] + after, t) == Delivered(before + after, t)
  {
    hide Delivered, AllAligned, Aligned, Intact;
    BadDeliversNothing(before, bad, t);
    DeliveredAppend(before + [bad], after, t);
    DeliveredAppend(before, after, t);
  }

  /**
    * A frame hit by one wrong byte of type, payload or checksum is dropped, and every frame
    * before and after it is delivered as if it had never been sent.
    */
  lemma {:induction false} CorruptedFrameIsDropped(before: seq<seq<byte>>, w: seq<byte>, k: nat, b: byte,
                                                   after: seq<seq<byte>>, schedule: seq<nat>, rx: Receiver)
    requires AllAligned(before) && AllAligned(after) && Aligned(w) && Intact(w)
    requires (k == 2 || 4 <= k < |w|) && w[k] != b
    requires Paced(before + [w[k := b]] + after, schedule) && rx.first && !rx.dead
    ensures AllAligned(before + after)
    ensures var rx' := Receive(Config(rx, Stream(before + [w[k := b]] + after), schedule));
            && rx'.serQueue == rx.serQueue + Delivered(before + after, UART_HDR_TYPE_FTDF)
            && rx'.ackQueue == rx.ackQueue + Delivered(before + after, UART_HDR_TYPE_ACK)
  {
    OneByteBreaksFrame(w, k, b);
    BrokenDeliversNothing(before, w[k := b], after, UART_HDR_TYPE_FTDF);
    BrokenDeliversNothing(before, w[k := b], after, UART_HDR_TYPE_ACK);
    hide Receive, Delivered, Paced, Stream, Aligned, Intact;
    StreamDelivered(rx, before + [w[k := b]] + after, schedule);
  }
}
