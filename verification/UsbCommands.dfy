/** The text of the firmware update commands: hex digits, lengths and command lines. */
module UsbCommands {
  import opened Bytes

  // ---------------------------------------------------------------- hex

  function NibbleToAscii(c: byte): char
    requires c < 16
  {
    if c < 10 then '0' + (c as char) else 'A' + ((c - 10) as char)
  }

  function NibbleOf(c: char): byte {
    if '0' <= c <= '9' then (c - '0') as int
    else if 'A' <= c <= 'F' then (c - 'A') as int + 10
    else 0
  }

  lemma NibbleBack(c: byte)
    requires c < 16
    ensures NibbleOf(NibbleToAscii(c)) == c
  {}

  /** The two digits of a byte, high nibble first. */
  function Digits(c: byte): (d: string)
    ensures |d| == 2
  {
    [NibbleToAscii(c / 16), NibbleToAscii(c % 16)]
  }

  /** The byte two digits stand for. */
  function ByteOf(a: char, b: char): byte {
    (16 * NibbleOf(a) + NibbleOf(b)) % 256
  }

  lemma DigitsBack(c: byte)
    ensures ByteOf(Digits(c)[0], Digits(c)[1]) == c
  {
    hide NibbleOf, NibbleToAscii;
    NibbleBack(c / 16);
    NibbleBack(c % 16);
  }

  function Hex(data: seq<byte>): (h: string)
    ensures |h| == 2 * |data|
    decreases |data|
  {
    if data == [] then [] else Hex(data[..|data| - 1]) + Digits(data[|data| - 1])
  }

  /** What the device makes of a string of hex digits. */
  function UnHex(h: string): (data: seq<byte>)
    ensures |data| == |h| / 2
    decreases |h|
  {
    if |h| < 2 then [] else UnHex(h[..|h| - 2]) + [ByteOf(h[|h| - 2], h[|h| - 1])]
  }

  lemma HexSnoc(data: seq<byte>, c: byte)
    ensures Hex(data + [c]) == Hex(data) + Digits(c)
  {
    assert (data + [c])[..|data|] == data;
  }

  lemma UnHexSnoc(h: string, d: string)
    requires |d| == 2
    ensures UnHex(h + d) == UnHex(h) + [ByteOf(d[0], d[1])]
  {
    hide ByteOf;
    var e := h + d;
    assert e[..|e| - 2] == h && e[|e| - 2] == d[0] && e[|e| - 1] == d[1];
  }

  lemma HexEmpty()
    ensures Hex([]) == [] && UnHex([]) == []
  {}

  lemma {:induction false} UnHexOfHex(data: seq<byte>)
    ensures UnHex(Hex(data)) == data
    decreases |data|
  {
    hide Hex, UnHex, Digits, ByteOf;
    if data == [] {
      HexEmpty();
    } else {
      var front, c := data[..|data| - 1], data[|data| - 1];
      assert front + [c] == data;
      UnHexOfHex(front);
      HexSnoc(front, c);
      UnHexSnoc(Hex(front), Digits(c));
      DigitsBack(c);
    }
  }

  // ---------------------------------------------------------------- commands

  datatype Command = WriteStatusOn
                   | MemDev(code: byte)
                   | GpioMap
                   | PatchLen(lo: byte, hi: byte)
                   | PatchData(count: nat, hex: string)
                   | ReadMemInfo

  const START := MemDev(0x13)
  const RESET := MemDev(0xFD)
  const END := MemDev(0xFE)
  const ABORT := MemDev(0xFF)

  const IMG_STARTED := "INFO SUOUSB_IMG_STARTED"
  const CMP_OK := "INFO SUOUSB_CMP_OK"
  const OK := "OK"

  /** Commands that are answered by a plain OK. */
  predicate Asks(cmd: Command) { cmd.WriteStatusOn? || cmd.GpioMap? || cmd.PatchLen? || cmd.ReadMemInfo? }

  /** The data command for n bytes of the image from xfered on. */
  function DataCommand(image: seq<byte>, xfered: nat, n: nat): Command
    requires xfered + n <= |image|
  {
    PatchData(n, Hex(image[xfered..xfered + n]))
  }

  /** The two bytes of a PATCH_LEN, low byte first. */
  function LenValue(lo: byte, hi: byte): nat { (lo as int) + 256 * (hi as int) }

  /** The announced length, in the two bytes sprintf is given. */
  function LenCommand(n: nat): Command { PatchLen(n % 256, n / 256 % 256) }

  lemma LenCommandValue(n: nat)
    ensures LenValue(n % 256, n / 256 % 256) == n % 0x1_0000
  {
    var q := n / 256;
    var low := 256 * (q % 256) + n % 256;
    assert n == 0x1_0000 * (q / 256) + low && 0 <= low < 0x1_0000;
    Remainder(q / 256, low);
  }

  lemma Remainder(k: nat, low: nat)
    requires low < 0x1_0000
    ensures (0x1_0000 * k + low) % 0x1_0000 == low
  {}

  // ---------------------------------------------------------------- command lines

  function Decimal(n: nat): (d: string)
    ensures |d| >= 1
  {
    var digit := '0' + ((n % 10) as char);
    if n < 10 then [digit] else Decimal(n / 10) + [digit]
  }

  lemma {:induction false} DecimalLength(n: nat, k: nat)
    requires n < Pow10(k) && k >= 1
    ensures |Decimal(n)| <= k
    decreases k
  {
    if n >= 10 {
      DecimalLength(n / 10, k - 1);
    }
  }

  function Pow10(k: nat): nat { if k == 0 then 1 else 10 * Pow10(k - 1) }

  function LowerHex(c: byte): char
    requires c < 16
  {
    if c < 10 then '0' + (c as char) else 'a' + ((c - 10) as char)
  }

  function HexPair(b: byte): string { [LowerHex(b / 16), LowerHex(b % 16)] }

  function Render(cmd: Command): (text: string)
    ensures text != []
  {
    match cmd
    case WriteStatusOn => "SUOUSB_WRITE_STATUS 0 2 0100\n"
    case MemDev(code) => "SUOUSB_MEM_DEV 0 4 000000" + Digits(code) + "\n"
    case GpioMap => "SUOUSB_GPIO_MAP 0 4 00050102\n"
    case PatchLen(lo, hi) => "SUOUSB_PATCH_LEN 0 2 " + HexPair(lo) + HexPair(hi) + "\n"
    case PatchData(count, hex) => "SUOUSB_PATCH_DATA 0 " + Decimal(count) + " " + hex + "\n"
    case ReadMemInfo => "SUOUSB_READ_MEMINFO 0 1 00\n"
  }

  lemma RenderLength(count: nat, hex: string)
    requires count < 0x1_0000_0000
    ensures |Render(PatchData(count, hex))| <= 33 + |hex|
  {
    hide Decimal;
    assert Pow10(5) == 100000 && Pow10(10) == 100000 * Pow10(5);
    DecimalLength(count, 10);
  }
}
