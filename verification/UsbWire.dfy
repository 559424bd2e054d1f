/**
  * The other side of the wire: command lines read as a device reads them, name, connection, count
  * and hex digits, without knowing how they were made.
  */
module UsbWire {
  import opened Bytes
  import opened UsbCommands
  import opened UsbProtocol

  // ---------------------------------------------------------------- reading one line

  /** A command as it is understood: its name, the number of bytes it announces, and the bytes. */
  datatype Message = Message(name: string, count: nat, bytes: seq<byte>)

  datatype Cut = Cut(before: string, after: string)

  /** The text up to a character, and what follows it. */
  function UpTo(s: string, c: char): (r: Option<Cut>)
    ensures r.Some? ==> |r.value.before| + 1 + |r.value.after| == |s|
    decreases |s|
  {
    if s == "" then None
    else if s[0] == c then Some(Cut("", s[1..]))
    else match UpTo(s[1..], c)
         case None => None
         case Some(r) => Some(Cut([s[0]] + r.before, r.after))
  }

  type nibble = x: int | 0 <= x < 16

  function HexDigit(c: char): Option<nibble> {
    if '0' <= c <= '9' then Some((c - '0') as int)
    else if 'A' <= c <= 'F' then Some((c - 'A') as int + 10)
    else if 'a' <= c <= 'f' then Some((c - 'a') as int + 10)
    else None
  }

  /** Pairs of hex digits, high digit first. */
  function ReadHex(s: string): Option<seq<byte>>
    decreases |s|
  {
    if s == "" then Some([])
    else if |s| < 2 || HexDigit(s[0]).None? || HexDigit(s[1]).None? then None
    else match ReadHex(s[2..])
         case None => None
         case Some(rest) => Some([16 * HexDigit(s[0]).value + HexDigit(s[1]).value] + rest)
  }

  function ReadDecimal(s: string): Option<nat>
    decreases |s|
  {
    if s == "" then None
    else
      var n, c := |s| - 1, s[|s| - 1];
      if !('0' <= c <= '9') then None
      else if n == 0 then Some((c - '0') as int)
      else match ReadDecimal(s[..n])
           case None => None
           case Some(high) => Some(10 * high + (c - '0') as int)
  }

  datatype Line = Line(message: Message, rest: string)

  /** One command line of the form "name 0 count digits". */
  function ReadLine(s: string): (r: Option<Line>)
    ensures r.Some? ==> |r.value.rest| < |s|
  {
    match UpTo(s, ' ')
    case None => None
    case Some(name) =>
      match UpTo(name.after, ' ')
      case None => None
      case Some(connection) =>
        match UpTo(connection.after, ' ')
        case None => None
        case Some(count) =>
          match UpTo(count.after, '\n')
          case None => None
          case Some(digits) =>
            if connection.before != "0" || ReadDecimal(count.before).None? || ReadHex(digits.before).None? then None
            else Some(Line(Message(name.before, ReadDecimal(count.before).value, ReadHex(digits.before).value),
                           digits.after))
  }

  /** A whole conversation, line by line. */
  function ReadAll(s: string): Option<seq<Message>>
    decreases |s|
  {
    if s == "" then Some([])
    else match ReadLine(s)
         case None => None
         case Some(line) =>
           match ReadAll(line.rest)
           case None => None
           case Some(more) => Some([line.message] + more)
  }

  // ---------------------------------------------------------------- what was written is what is read

  lemma {:induction false} UpToBack(a: string, c: char, rest: string)
    requires c !in a
    ensures UpTo(a + [c] + rest, c) == Some(Cut(a, rest))
    decreases |a|
  {
    var s := a + [c] + rest;
    if a == "" {
      assert s[1..] == rest;
    } else {
      assert s[1..] == a[1..] + [c] + rest;
      UpToBack(a[1..], c, rest);
      assert [a[0]] + a[1..] == a;
    }
  }

  /** The parts of a line, whatever follows it. */
  lemma LineBack(name: string, count: string, digits: string, rest: string)
    requires ' ' !in name && ' ' !in count && '\n' !in digits
    requires ReadDecimal(count).Some? && ReadHex(digits).Some?
    ensures ReadLine(LineText(LineParts(name, count, digits)) + rest)
            == Some(Line(Message(name, ReadDecimal(count).value, ReadHex(digits).value), rest))
  {
    hide UpTo, ReadDecimal, ReadHex;
    var d := digits + ['\n'] + rest;
    var c := count + [' '] + d;
    var z := "0" + [' '] + c;
    assert name + " 0 " + count + " " + digits + "\n" + rest == name + [' '] + z;
    UpToBack(name, ' ', z);
    UpToBack("0", ' ', c);
    UpToBack(count, ' ', d);
    UpToBack(digits, '\n', rest);
  }

  lemma {:induction false} ReadHexSnoc(s: string, a: char, b: char)
    requires ReadHex(s).Some? && HexDigit(a).Some? && HexDigit(b).Some?
    ensures ReadHex(s + [a, b])
            == Some(ReadHex(s).value + [16 * HexDigit(a).value + HexDigit(b).value])
    decreases |s|
  {
    hide HexDigit;
    var t := s + [a, b];
    if s == "" {
      assert t == [a, b] && t[2..] == "";
      NoDigits();
      var x: seq<byte> := [16 * HexDigit(a).value + HexDigit(b).value];
      assert x + [] == [] + x;
    } else {
      assert t[2..] == s[2..] + [a, b];
      ReadHexSnoc(s[2..], a, b);
      var first: seq<byte> := [16 * HexDigit(s[0]).value + HexDigit(s[1]).value];
      var last: seq<byte> := [16 * HexDigit(a).value + HexDigit(b).value];
      assert first + (ReadHex(s[2..]).value + last) == first + ReadHex(s[2..]).value + last;
    }
  }

  lemma DigitsRead(c: byte)
    ensures var d := Digits(c);
            && HexDigit(d[0]) == Some(c / 16) && HexDigit(d[1]) == Some(c % 16) && 16 * (c / 16) + c % 16 == c
  {}

  /** Hex digits read back, and there is no end of line among them. */
  lemma {:induction false} HexRead(data: seq<byte>)
    ensures ReadHex(Hex(data)) == Some(data) && '\n' !in Hex(data)
    decreases |data|
  {
    hide ReadHex, Digits, HexDigit;
    if data == [] {
      NoDigits();
      HexEmpty();
    } else {
      var front, c := data[..|data| - 1], data[|data| - 1];
      HexRead(front);
      DigitsRead(c);
      NotALineEnd(c);
      ReadHexSnoc(Hex(front), Digits(c)[0], Digits(c)[1]);
      assert Digits(c) == [Digits(c)[0], Digits(c)[1]] && front + [c] == data;
    }
  }

  lemma NoDigits()
    ensures ReadHex("") == Some([])
  {}

  lemma NotALineEnd(c: byte)
    ensures '\n' !in Digits(c)
  {}

  lemma {:induction false} DecimalRead(n: nat)
    ensures ReadDecimal(Decimal(n)) == Some(n) && ' ' !in Decimal(n)
    decreases n
  {
    var digit := '0' + ((n % 10) as char);
    if n >= 10 {
      DecimalRead(n / 10);
      assert Decimal(n) == Decimal(n / 10) + [digit];
      assert (Decimal(n / 10) + [digit])[..|Decimal(n)| - 1] == Decimal(n / 10);
    }
  }

  /** What a command says. */
  function Said(cmd: Command): Message {
    match cmd
    case WriteStatusOn => Message("SUOUSB_WRITE_STATUS", 2, [1, 0])
    case MemDev(code) => Message("SUOUSB_MEM_DEV", 4, [0, 0, 0, code])
    case GpioMap => Message("SUOUSB_GPIO_MAP", 4, [0, 5, 1, 2])
    case PatchLen(lo, hi) => Message("SUOUSB_PATCH_LEN", 2, [lo, hi])
    case PatchData(count, hex) => Message("SUOUSB_PATCH_DATA", count, UnHex(hex))
    case ReadMemInfo => Message("SUOUSB_READ_MEMINFO", 1, [0])
  }

  /** Its digits are those of some bytes. */
  predicate WellFormed(cmd: Command) { cmd.PatchData? ==> cmd.hex == Hex(UnHex(cmd.hex)) }

  lemma StatusDigits()
    ensures ReadHex("0100") == Some([1, 0]) && ReadHex("00") == Some([0])
  {
    NoDigits();
    TwoDigits('0', '0', "");
    TwoDigits('0', '1', "00");
    hide ReadHex;
    assert ['0', '1'] + "00" == "0100" && ['0', '0'] + "" == "00";
    var none: seq<byte> := [];
    assert [0] + none == [0] && [1] + [0] == [1, 0];
  }

  lemma WiringDigits()
    ensures ReadHex("00050102") == Some([0, 5, 1, 2])
  {
    NoDigits();
    TwoDigits('0', '2', "");
    TwoDigits('0', '1', "02");
    TwoDigits('0', '5', "0102");
    TwoDigits('0', '0', "050102");
    hide ReadHex;
    WiringPairs();
    var none: seq<byte> := [];
    assert [2] + none == [2] && [1] + [2] == [1, 2] && [5] + [1, 2] == [5, 1, 2] && [0] + [5, 1, 2] == [0, 5, 1, 2];
  }

  lemma WiringPairs()
    ensures ['0', '2'] + "" == "02" && ['0', '1'] + "02" == "0102"
    ensures ['0', '5'] + "0102" == "050102" && ['0', '0'] + "050102" == "00050102"
  {}

  lemma CodeDigits(code: byte)
    ensures ReadHex("000000" + Digits(code)) == Some([0, 0, 0, code]) && '\n' !in "000000" + Digits(code)
  {
    NoDigits();
    DigitsRead(code);
    NotALineEnd(code);
    hide ReadHex, Digits;
    var d := Digits(code);
    TwoDigits(d[0], d[1], "");
    TwoDigits('0', '0', d);
    TwoDigits('0', '0', "00" + d);
    TwoDigits('0', '0', "0000" + d);
    assert [d[0], d[1]] + "" == d && ['0', '0'] + d == "00" + d;
    assert ['0', '0'] + ("0000" + d) == "000000" + d && ['0', '0'] + ("00" + d) == "0000" + d;
    var none: seq<byte> := [];
    assert [code] + none == [code] && [0] + [code] == [0, code];
    assert [0] + [0, code] == [0, 0, code] && [0] + [0, 0, code] == [0, 0, 0, code];
  }

  lemma LengthDigits(lo: byte, hi: byte)
    ensures ReadHex(HexPair(lo) + HexPair(hi)) == Some([lo, hi]) && '\n' !in HexPair(lo) + HexPair(hi)
  {
    NoDigits();
    PairRead(lo);
    PairRead(hi);
    hide ReadHex, HexPair;
    var p, q := HexPair(lo), HexPair(hi);
    TwoDigits(q[0], q[1], "");
    TwoDigits(p[0], p[1], q);
    assert [q[0], q[1]] + "" == q && [p[0], p[1]] + q == p + q;
    var none: seq<byte> := [];
    assert [hi] + none == [hi] && [lo] + [hi] == [lo, hi];
  }

  lemma PairRead(c: byte)
    ensures var d := HexPair(c);
            && |d| == 2 && HexDigit(d[0]) == Some(c / 16) && HexDigit(d[1]) == Some(c % 16)
            && 16 * (c / 16) + c % 16 == c && '\n' !in d
  {}

  lemma TwoDigits(a: char, b: char, rest: string)
    requires HexDigit(a).Some? && HexDigit(b).Some?
    ensures ReadHex(rest).Some? ==>
              ReadHex([a, b] + rest)
              == Some([16 * HexDigit(a).value + HexDigit(b).value] + ReadHex(rest).value)
  {
    hide HexDigit;
    assert ([a, b] + rest)[2..] == rest;
  }

  lemma SmallNumbers()
    ensures ReadDecimal("1") == Some(1) && ReadDecimal("2") == Some(2) && ReadDecimal("4") == Some(4)
  {}

  /** Every command line is read as what the command says, whatever follows it. */
  lemma CommandRead(cmd: Command, rest: string)
    requires WellFormed(cmd)
    ensures ReadLine(Render(cmd) + rest) == Some(Line(Said(cmd), rest))
  {
    hide ReadLine, ReadDecimal, ReadHex, Hex, UnHex, Render, LineText, Parts;
    PartsRead(cmd);
    LineBack(Parts(cmd).name, Parts(cmd).count, Parts(cmd).digits, rest);
    RenderParts(cmd);
  }

  /** The parts a command line is made of. */
  datatype LineParts = LineParts(name: string, count: string, digits: string)

  function Parts(cmd: Command): LineParts {
    match cmd
    case WriteStatusOn => LineParts("SUOUSB_WRITE_STATUS", "2", "0100")
    case MemDev(code) => LineParts("SUOUSB_MEM_DEV", "4", "000000" + Digits(code))
    case GpioMap => LineParts("SUOUSB_GPIO_MAP", "4", "00050102")
    case PatchLen(lo, hi) => LineParts("SUOUSB_PATCH_LEN", "2", HexPair(lo) + HexPair(hi))
    case PatchData(count, hex) => LineParts("SUOUSB_PATCH_DATA", Decimal(count), hex)
    case ReadMemInfo => LineParts("SUOUSB_READ_MEMINFO", "1", "00")
  }

  function LineText(p: LineParts): string { p.name + " 0 " + p.count + " " + p.digits + "\n" }

  lemma StatusLine()
    ensures "SUOUSB_WRITE_STATUS" + " 0 " + "2" + " " + "0100" + "\n" == "SUOUSB_WRITE_STATUS 0 2 0100\n"
  {}

  lemma WiringLine()
    ensures "SUOUSB_GPIO_MAP" + " 0 " + "4" + " " + "00050102" + "\n" == "SUOUSB_GPIO_MAP 0 4 00050102\n"
  {}

  lemma MemInfoLine()
    ensures "SUOUSB_READ_MEMINFO" + " 0 " + "1" + " " + "00" + "\n" == "SUOUSB_READ_MEMINFO 0 1 00\n"
  {}

  lemma CodeLine(d: string)
    ensures "SUOUSB_MEM_DEV" + " 0 " + "4" + " " + ("000000" + d) + "\n" == "SUOUSB_MEM_DEV 0 4 000000" + d + "\n"
  {
    assert "SUOUSB_MEM_DEV" + " 0 " + "4" + " " + "000000" == "SUOUSB_MEM_DEV 0 4 000000";
    assert "SUOUSB_MEM_DEV" + " 0 " + "4" + " " + ("000000" + d)
           == "SUOUSB_MEM_DEV" + " 0 " + "4" + " " + "000000" + d;
  }

  lemma LengthLine(p: string, q: string)
    ensures "SUOUSB_PATCH_LEN" + " 0 " + "2" + " " + (p + q) + "\n" == "SUOUSB_PATCH_LEN 0 2 " + p + q + "\n"
  {
    assert "SUOUSB_PATCH_LEN" + " 0 " + "2" + " " == "SUOUSB_PATCH_LEN 0 2 ";
    assert "SUOUSB_PATCH_LEN 0 2 " + (p + q) == "SUOUSB_PATCH_LEN 0 2 " + p + q;
  }

  lemma DataLine(n: string, h: string)
    ensures "SUOUSB_PATCH_DATA" + " 0 " + n + " " + h + "\n" == "SUOUSB_PATCH_DATA 0 " + n + " " + h + "\n"
  {
    assert "SUOUSB_PATCH_DATA" + " 0 " == "SUOUSB_PATCH_DATA 0 ";
  }

  lemma RenderParts(cmd: Command)
    ensures Render(cmd) == LineText(Parts(cmd))
  {
    hide Decimal, Digits, HexPair;
    match cmd {
      case WriteStatusOn => StatusLine();
      case MemDev(code) => CodeLine(Digits(code));
      case GpioMap => WiringLine();
      case PatchLen(lo, hi) => LengthLine(HexPair(lo), HexPair(hi));
      case PatchData(count, hex) => DataLine(Decimal(count), hex);
      case ReadMemInfo => MemInfoLine();
    }
  }

  lemma PartsRead(cmd: Command)
    requires WellFormed(cmd)
    ensures var p, m := Parts(cmd), Said(cmd);
            && p.name == m.name && ReadDecimal(p.count) == Some(m.count) && ReadHex(p.digits) == Some(m.bytes)
            && ' ' !in p.name && ' ' !in p.count && '\n' !in p.digits
  {
    NamesHaveNoSpace(cmd);
    hide ReadDecimal, ReadHex, Hex, UnHex, Decimal, Digits, HexPair;
    if cmd.PatchData? {
      HexRead(UnHex(cmd.hex));
      DecimalRead(cmd.count);
    } else {
      SmallNumbers();
      FixedPartsRead(cmd);
    }
  }

  lemma NamesHaveNoSpace(cmd: Command)
    ensures ' ' !in Parts(cmd).name && (!cmd.PatchData? ==> ' ' !in Parts(cmd).count)
  {
    SixNames();
    hide Decimal, Digits, HexPair;
  }

  lemma SixNames()
    ensures ' ' !in "SUOUSB_WRITE_STATUS" && ' ' !in "SUOUSB_MEM_DEV" && ' ' !in "SUOUSB_GPIO_MAP"
    ensures ' ' !in "SUOUSB_PATCH_LEN" && ' ' !in "SUOUSB_PATCH_DATA" && ' ' !in "SUOUSB_READ_MEMINFO"
  {}

  lemma FixedPartsRead(cmd: Command)
    requires !cmd.PatchData?
    ensures ReadHex(Parts(cmd).digits) == Some(Said(cmd).bytes) && '\n' !in Parts(cmd).digits
  {
    hide ReadHex, Digits, HexPair;
    match cmd {
      case WriteStatusOn => StatusDigits();
      case MemDev(code) => CodeDigits(code);
      case GpioMap => WiringDigits();
      case PatchLen(lo, hi) => LengthDigits(lo, hi);
      case ReadMemInfo => StatusDigits();
    }
  }

  // ---------------------------------------------------------------- whole conversations

  /** The commands of a trace, one line after the other. */
  function WireOf(t: seq<Event>): string
    decreases |t|
  {
    if t == [] then ""
    else WireOf(t[..|t| - 1]) + if t[|t| - 1].Wrote? then Render(t[|t| - 1].cmd) else ""
  }

  ghost predicate AllComplete(t: seq<Event>) {
    forall i :: 0 <= i < |t| && t[i].Wrote? ==> t[i].complete
  }

  lemma WireMore(t: seq<Event>, e: Event)
    ensures WireOf(t + [e]) == WireOf(t) + if e.Wrote? then Render(e.cmd) else ""
    ensures AllComplete(t) && (e.Wrote? ==> e.complete) ==> AllComplete(t + [e])
  {
    hide Render;
    assert (t + [e])[..|t|] == t;
  }

  /** What the commands of a trace say. */
  function Messages(t: seq<Event>): seq<Message>
    decreases |t|
  {
    if t == [] then []
    else Messages(t[..|t| - 1]) + if t[|t| - 1].Wrote? then [Said(t[|t| - 1].cmd)] else []
  }

  lemma {:induction false} UpToMore(s: string, c: char, rest: string)
    requires UpTo(s, c).Some?
    ensures UpTo(s + rest, c) == Some(Cut(UpTo(s, c).value.before, UpTo(s, c).value.after + rest))
    decreases |s|
  {
    assert (s + rest)[1..] == s[1..] + rest;
    if s[0] != c {
      UpToMore(s[1..], c, rest);
    }
  }

  lemma ReadLineMore(s: string, rest: string)
    requires ReadLine(s).Some?
    ensures ReadLine(s + rest) == Some(Line(ReadLine(s).value.message, ReadLine(s).value.rest + rest))
  {
    hide UpTo, ReadDecimal, ReadHex;
    var name := UpTo(s, ' ').value;
    var connection := UpTo(name.after, ' ').value;
    var count := UpTo(connection.after, ' ').value;
    UpToMore(s, ' ', rest);
    UpToMore(name.after, ' ', rest);
    UpToMore(connection.after, ' ', rest);
    UpToMore(count.after, '\n', rest);
  }

  /** One more command at the end of a conversation. */
  lemma {:induction false} ReadAllSnoc(s: string, cmd: Command)
    requires ReadAll(s).Some? && WellFormed(cmd)
    ensures ReadAll(s + Render(cmd)) == Some(ReadAll(s).value + [Said(cmd)])
    decreases |s|
  {
    hide ReadLine, Render, WellFormed, Said;
    if s == "" {
      CommandRead(cmd, "");
      assert s + Render(cmd) == Render(cmd) + "" && ReadAll("") == Some([]);
      var one := [Said(cmd)];
      assert one + [] == [] + one;
    } else {
      var line := ReadLine(s).value;
      ReadLineMore(s, Render(cmd));
      ReadAllSnoc(line.rest, cmd);
      var more := ReadAll(line.rest).value;
      assert [line.message] + (more + [Said(cmd)]) == [line.message] + more + [Said(cmd)];
    }
  }

  ghost predicate Readable(t: seq<Event>) {
    forall i :: 0 <= i < |t| && t[i].Wrote? ==> WellFormed(t[i].cmd)
  }

  /** What the commands of a trace put on the wire is read as what they say. */
  lemma {:induction false} WireRead(t: seq<Event>)
    requires Readable(t)
    ensures ReadAll(WireOf(t)) == Some(Messages(t))
    decreases |t|
  {
    hide Render, WellFormed, Said;
    if t != [] {
      var front, last := t[..|t| - 1], t[|t| - 1];
      WireRead(front);
      if last.Wrote? {
        ReadAllSnoc(WireOf(front), last.cmd);
      } else {
        assert WireOf(front) + "" == WireOf(front) && Messages(front) + [] == Messages(front);
      }
    }
  }

  lemma LegalIsReadable(job: Job, t: seq<Event>)
    requires Legal(job, t)
    ensures Readable(t)
  {
    hide Legal, Summary, Hex, UnHex;
    forall i | 0 <= i < |t| && t[i].Wrote? ensures WellFormed(t[i].cmd) {
      LegalAt(job, t, i);
    }
  }

  /** The bytes of the data commands, in order. */
  function Payload(messages: seq<Message>): seq<byte>
    decreases |messages|
  {
    if messages == [] then []
    else
      var m := messages[|messages| - 1];
      Payload(messages[..|messages| - 1]) + if m.name == "SUOUSB_PATCH_DATA" then m.bytes else []
  }

  lemma PayloadSnoc(messages: seq<Message>, m: Message)
    ensures Payload(messages + [m]) == Payload(messages) + if m.name == "SUOUSB_PATCH_DATA" then m.bytes else []
  {
    assert (messages + [m])[..|messages|] == messages;
  }

  lemma OnlyDataIsData(cmd: Command)
    ensures Said(cmd).name == "SUOUSB_PATCH_DATA" <==> cmd.PatchData?
  {
    hide UnHex;
    assert "SUOUSB_PATCH_DATA"[7] == 'P' && "SUOUSB_PATCH_DATA"[13] == 'D' && "SUOUSB_PATCH_LEN"[13] == 'L';
    assert "SUOUSB_WRITE_STATUS"[7] == 'W' && "SUOUSB_MEM_DEV"[7] == 'M' && "SUOUSB_GPIO_MAP"[7] == 'G';
    assert "SUOUSB_READ_MEMINFO"[7] == 'R';
  }

  /** With complete writes, the payload of the conversation is the data of the trace. */
  lemma {:induction false} PayloadIsData(t: seq<Event>)
    requires AllComplete(t)
    ensures Payload(Messages(t)) == Summary(t).data
    decreases |t|
  {
    hide Said, UnHex;
    if t != [] {
      var front, last := t[..|t| - 1], t[|t| - 1];
      PayloadIsData(front);
      if last.Wrote? {
        OnlyDataIsData(last.cmd);
        PayloadSnoc(Messages(front), Said(last.cmd));
        SaidData(last.cmd);
        assert Payload(Messages(front)) + [] == Payload(Messages(front));
      } else {
        assert Messages(front) + [] == Messages(front);
      }
    }
  }

  lemma SaidData(cmd: Command)
    ensures cmd.PatchData? ==> Said(cmd).bytes == UnHex(cmd.hex) && Said(cmd).count == cmd.count
  {}

  lemma {:induction false} MessagesGrow(t: seq<Event>, i: nat)
    requires i <= |t|
    ensures Messages(t[..i]) <= Messages(t)
    decreases |t|
  {
    if i < |t| {
      assert t[..|t| - 1][..i] == t[..i];
      MessagesGrow(t[..|t| - 1], i);
    } else {
      assert t[..i] == t;
    }
  }

  lemma MessagesSnoc(t: seq<Event>, i: nat)
    requires i < |t|
    ensures Messages(t[..i + 1]) == Messages(t[..i]) + if t[i].Wrote? then [Said(t[i].cmd)] else []
  {
    assert t[..i + 1][..i] == t[..i];
  }

  /** The first three messages of every run that goes beyond the handshake. */
  lemma OpeningMessages(t: seq<Event>)
    requires |t| > 6 && forall i :: 0 <= i < 7 ==> Opens(i, t[i])
    ensures Messages(t[..7])
            == [Message("SUOUSB_WRITE_STATUS", 2, [1, 0]), Message("SUOUSB_MEM_DEV", 4, [0, 0, 0, 0x13]),
                Message("SUOUSB_GPIO_MAP", 4, [0, 5, 1, 2])]
  {
    hide Messages;
    NoMessages();
    assert t[..0] == [];
    MessagesSnoc(t, 0);
    MessagesSnoc(t, 1);
    MessagesSnoc(t, 2);
    MessagesSnoc(t, 3);
    MessagesSnoc(t, 4);
    MessagesSnoc(t, 5);
    MessagesSnoc(t, 6);
  }

  lemma NoMessages()
    ensures Messages([]) == []
  {}

  /** The last messages of a successful run: the length is asked for, an abort may follow, then end and reset. */
  lemma ClosingMessages(job: Job, t: seq<Event>)
    requires Legal(job, t) && Succeeded(t)
    ensures |t| >= 3 && Messages(t) == Messages(t[..|t| - 3]) + [Message("SUOUSB_MEM_DEV", 4, [0, 0, 0, 0xFE]),
                                                                Message("SUOUSB_MEM_DEV", 4, [0, 0, 0, 0xFD])]
    ensures Asked(Messages(t[..|t| - 3]))
  {
    hide Messages, Legal, Summary, MayEnd, Asked;
    var n := |t|;
    ResetFollowsEnd(job, t, n - 1);
    MessagesSnoc(t, n - 3);
    MessagesSnoc(t, n - 2);
    MessagesSnoc(t, n - 1);
    assert t[..n] == t;
    EndIsAsked(job, t[..n - 3]);
  }

  /** The last message asks for the length, or is an abort right after that question. */
  predicate Asked(messages: seq<Message>) {
    var n := |messages|;
    || (n >= 1 && messages[n - 1] == Message("SUOUSB_READ_MEMINFO", 1, [0]))
    || (n >= 2 && messages[n - 2] == Message("SUOUSB_READ_MEMINFO", 1, [0])
        && messages[n - 1] == Message("SUOUSB_MEM_DEV", 4, [0, 0, 0, 0xFF]))
  }

  lemma EndIsAsked(job: Job, t: seq<Event>)
    requires MayEnd(job, t)
    ensures Asked(Messages(t))
  {
    hide WrongLength, Messages;
    var n := |t|;
    assert t[..n] == t;
    if MemInfoAnswered(t) {
      MessagesSnoc(t, n - 2);
      MessagesSnoc(t, n - 1);
    } else {
      MessagesSnoc(t, n - 3);
      MessagesSnoc(t, n - 2);
      MessagesSnoc(t, n - 1);
    }
  }

  lemma EndOpensNothing(i: nat)
    requires i < 7
    ensures !Opens(i, Wrote(END, true))
  {}

  lemma EndIsLate(t: seq<Event>)
    requires |t| > 7 && (forall i :: 0 <= i < 7 ==> Opens(i, t[i])) && t[|t| - 3] == Wrote(END, true)
    ensures |t| >= 10
  {
    if |t| < 10 {
      EndOpensNothing(|t| - 3);
      assert false;
    }
  }

  /** A conversation that hands over an image: opened, carried out and closed. */
  ghost predicate HandsOver(messages: seq<Message>, image: seq<byte>) {
    var n := |messages|;
    && n >= 5
    && messages[..3] == [Message("SUOUSB_WRITE_STATUS", 2, [1, 0]), Message("SUOUSB_MEM_DEV", 4, [0, 0, 0, 0x13]),
                         Message("SUOUSB_GPIO_MAP", 4, [0, 5, 1, 2])]
    && messages[n - 2] == Message("SUOUSB_MEM_DEV", 4, [0, 0, 0, 0xFE])
    && messages[n - 1] == Message("SUOUSB_MEM_DEV", 4, [0, 0, 0, 0xFD])
    && Asked(messages[..n - 2]) && Payload(messages) == image
  }

  /** On a line without disturbances, a successful run puts on the wire what a device reads as the image. */
  lemma SuccessIsRead(job: Job, t: seq<Event>)
    requires Legal(job, t) && Succeeded(t) && AllComplete(t)
    ensures ReadAll(WireOf(t)) == Some(Messages(t)) && HandsOver(Messages(t), job.image)
  {
    hide Legal, Messages, ReadAll, WireOf, Payload, Opens, Summary;
    LegalIsReadable(job, t);
    WireRead(t);
    SuccessDelivers(job, t);
    PayloadIsData(t);
    OpeningMessages(t);
    ClosingMessages(job, t);
    ResetFollowsEnd(job, t, |t| - 1);
    EndIsLate(t);
    MessagesGrow(t[..|t| - 3], 7);
    assert t[..|t| - 3][..7] == t[..7];
  }

  // ---------------------------------------------------------------- single messages

  /**
    * A PATCH_LEN tells, low byte first, how much comes next: the buffer size if there is more than
    * that, or all that is left.
    */
  lemma AnnouncesWhatComes(job: Job, t: seq<Event>, i: nat)
    requires Legal(job, t) && i < |t| && t[i].Wrote? && t[i].cmd.PatchLen?
    ensures var m, left := Said(t[i].cmd), |job.image| - |Summary(t[..i]).data|;
            && m.name == "SUOUSB_PATCH_LEN" && m.count == |m.bytes| == 2
            && (m.bytes[0] as int) + 256 * (m.bytes[1] as int)
               == (if left > job.bufsz then job.bufsz else left) % 0x1_0000
            && (i > 7 ==> left <= job.bufsz)
  {
    hide Legal;
    LegalAt(job, t, i);
    DataAtStart(job, t[..i]);
  }

  /** When a block may be announced, it starts where the data end. */
  lemma DataAtStart(job: Job, t: seq<Event>)
    requires Legal(job, t) && MayAnnounce(t)
    ensures |Summary(t).data| == Summary(t).start
    ensures |t| > 7 ==> BlockAcked(t)
  {
    if !BlockAcked(t) {
      hide Legal, Summary, Permitted;
      HandshakeComesFirst(job, t);
      forall i | 0 <= i < |t| ensures !IsData(t[i]) {
        assert Opens(i, t[i]);
      }
      NoDataSeen(t);
    }
  }

  lemma {:induction false} NoDataSeen(t: seq<Event>)
    requires forall i :: 0 <= i < |t| ==> !IsData(t[i])
    ensures Summary(t).data == [] && Summary(t).start == 0
    decreases |t|
  {
    if t != [] {
      NoDataSeen(t[..|t| - 1]);
    }
  }

  /** A PATCH_DATA carries the next bytes of the image: half a buffer, or all that is left. */
  lemma CarriesNextChunk(job: Job, t: seq<Event>, i: nat)
    requires Legal(job, t) && i < |t| && IsData(t[i])
    ensures var m, at := Said(t[i].cmd), |Summary(t[..i]).data|;
            && m.name == "SUOUSB_PATCH_DATA" && m.count == |m.bytes| > 0
            && at + m.count <= |job.image| && m.bytes == job.image[at..at + m.count]
            && (m.count == job.bufsz / 2 || (at + m.count == |job.image| && m.count < job.bufsz / 2))
  {
    hide Legal, Summary, UnHex, Hex;
    LegalAt(job, t, i);
    var s := Summary(t[..i]);
    var b := UnHex(t[i].cmd.hex);
    assert (s.data + b)[|s.data|..] == b;
    assert job.image[..|s.data| + |b|] == s.data + b;
  }
}
