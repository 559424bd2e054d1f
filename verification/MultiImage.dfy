/**
  * The multi-part flash image: an optional bootloader, two application images and a product
  * header, laid out in one file at offsets the caller chooses.
  */
module MultiImage {
  import opened Buffers
  import opened Bytes

  datatype Destination = Spi | Eeprom

  const PAD: byte := 0xff
  const IMAGE_HEADER_SIZE := 64
  const IMAGE_ID := 3
  const PRODUCT_HEADER_SIZE := 24
  const LIMIT_32 := 0x1_0000_0000

  // ---------------------------------------------------------------- headers

  /** struct an_b_001_spi_header */
  function SpiHeader(size: nat): (h: seq<byte>)
    ensures |h| == 8
  {
    [0x70, 0x50, 0, 0, 0, 0, size / 256 % 256, size % 256]
  }

  /** struct an_b_001_i2c_header */
  function I2cHeader(size: nat, crc: byte): (h: seq<byte>)
    ensures |h| == 32
  {
    [0x70, 0x50, size / 256 % 256, size % 256, crc] + Repeat(0, 27)
  }

  /** struct product_header; the address and its padding stay 0xff. */
  function ProductHeader(off1: nat, off2: nat, cfgOff: nat): (h: seq<byte>)
    ensures |h| == PRODUCT_HEADER_SIZE
  {
    [0x70, 0x52, 0, 0] + Le(off1, 4) + Le(off2, 4) + Repeat(0xff, 6) + Repeat(0xff, 2) + Le(cfgOff, 4)
  }

  // ---------------------------------------------------------------- files

  /** The file after data was written at a position inside it or at its end. */
  function Overwrite(bytes: seq<byte>, pos: nat, data: seq<byte>): seq<byte>
    requires pos <= |bytes|
  {
    bytes[..pos] + data + if pos + |data| <= |bytes| then bytes[pos + |data|..] else []
  }

  /** An open file and its cursor. */
  class File {
    var bytes: seq<byte>
    var pos: nat

    constructor (bytes: seq<byte>)
      ensures this.bytes == bytes && pos == 0
    {
      this.bytes, pos := bytes, 0;
    }

    method Read(count: nat) returns (data: seq<byte>)
      requires pos <= |bytes|
      modifies this`pos
      ensures old(pos) <= pos <= |bytes| && data == bytes[old(pos)..pos]
      ensures |data| == if old(pos) + count <= |bytes| then count else |bytes| - old(pos)
    {
      var n := if pos + count <= |bytes| then count else |bytes| - pos;
      data := bytes[pos..pos + n];
      pos := pos + n;
    }

    method Write(data: seq<byte>)
      requires pos <= |bytes|
      modifies this
      ensures bytes == Overwrite(old(bytes), old(pos), data) && pos == old(pos) + |data| <= |bytes|
    {
      bytes := Overwrite(bytes, pos, data);
      pos := pos + |data|;
    }

    method Seek(offset: nat)
      requires offset <= |bytes|
      modifies this`pos
      ensures pos == offset
    {
      pos := offset;
    }
  }

  /** A file being written at its end. */
  ghost predicate AtEnd(f: File)
    reads f
  {
    f.pos == |f.bytes|
  }

  method Append(outf: File, data: seq<byte>)
    requires AtEnd(outf)
    modifies outf
    ensures AtEnd(outf) && outf.bytes == old(outf.bytes) + data
  {
    outf.Write(data);
  }

  /** add_padding */
  method AddPadding(outf: File, count: nat, pad: byte)
    requires AtEnd(outf)
    modifies outf
    ensures AtEnd(outf) && outf.bytes == old(outf.bytes) + Repeat(pad, count)
  {
    var i := 0;
    while i < count
      invariant 0 <= i <= count
      invariant AtEnd(outf) && outf.bytes == old(outf.bytes) + Repeat(pad, i)
    {
      outf.Write([pad]);
      i := i + 1;
    }
  }

  /** append_file_csum: copies the rest of the input in pieces of 16 bytes and xors it up. */
  method AppendFileCsum(outf: File, inf: File) returns (csum: byte)
    requires outf != inf && AtEnd(outf) && inf.pos == 0
    modifies outf, inf`pos
    ensures AtEnd(outf) && outf.bytes == old(outf.bytes) + inf.bytes
    ensures csum == XorFrom(0, inf.bytes)
  {
    csum := 0;
    var n: nat := 1;
    while n != 0
      invariant inf.pos <= |inf.bytes| && AtEnd(outf)
      invariant outf.bytes == old(outf.bytes) + inf.bytes[..inf.pos]
      invariant csum == XorFrom(0, inf.bytes[..inf.pos])
      invariant n == 0 ==> inf.pos == |inf.bytes|
      decreases |inf.bytes| - inf.pos, n
    {
      ghost var from := inf.pos;
      var data := inf.Read(16);
      n := |data|;
      Append(outf, data);
      assert inf.bytes[..inf.pos] == inf.bytes[..from] + data;
      XorFromAppend(0, inf.bytes[..from], data);
      csum := XorRun(csum, data);
    }
    assert inf.bytes[..|inf.bytes|] == inf.bytes;
  }

  method XorRun(start: byte, data: seq<byte>) returns (csum: byte)
    ensures csum == XorFrom(start, data)
  {
    csum := start;
    for i := 0 to |data|
      invariant csum == XorFrom(start, data[..i])
    {
      assert data[..i + 1] == data[..i] + [data[i]];
      XorFromAppend(start, data[..i], [data[i]]);
      csum := XorByte(csum, data[i]);
    }
    assert data[..|data|] == data;
  }

  /**
    * An image file after its id byte was set. A file shorter than the header structure grows to
    * its size, by what the structure held on the stack before the file was read into it.
    */
  function Activated(bytes: seq<byte>, active: byte, stack: seq<byte>): (r: seq<byte>)
    requires |stack| == IMAGE_HEADER_SIZE
    ensures |r| == ImageSize(bytes) && r[IMAGE_ID] == active
    ensures |bytes| >= IMAGE_HEADER_SIZE ==> r == bytes[IMAGE_ID := active]
    ensures forall i :: 0 <= i < |bytes| && i != IMAGE_ID ==> r[i] == bytes[i]
  {
    (if |bytes| >= IMAGE_HEADER_SIZE then bytes else bytes + stack[|bytes|..])[IMAGE_ID := active]
  }

  /** What a short image grows by. */
  lemma GrowsByStack(bytes: seq<byte>, active: byte, stack: seq<byte>, i: nat)
    requires |stack| == 64 && |bytes| <= i < 64 && i != 3
    ensures |Activated(bytes, active, stack)| == 64 && Activated(bytes, active, stack)[i] == stack[i]
  {}

  function ImageSize(bytes: seq<byte>): (n: nat)
    ensures n >= IMAGE_HEADER_SIZE && n >= |bytes|
  {
    if |bytes| >= IMAGE_HEADER_SIZE then |bytes| else IMAGE_HEADER_SIZE
  }

  /** set_active_image: rewrites the image id in the input file itself. */
  method SetActiveImage(img: File, active: byte, stack: seq<byte>)
    requires img.pos == 0 && |stack| == IMAGE_HEADER_SIZE
    modifies img
    ensures img.bytes == Activated(old(img.bytes), active, stack) && img.pos == 0
  {
    var hdr := img.Read(IMAGE_HEADER_SIZE);
    hdr := hdr + stack[|hdr|..];
    hdr := hdr[IMAGE_ID := active];
    img.Seek(0);
    img.Write(hdr);
    assert img.bytes == Activated(old(img.bytes), active, stack);
    img.Seek(0);
  }

  // ---------------------------------------------------------------- the layout

  /** Where the bootloader part ends. */
  function BootSize(dest: Destination, boot: Option<seq<byte>>): nat {
    match boot
    case None => 0
    case Some(b) => (if dest.Spi? then 8 else 32) + |b|
  }

  /** The bootloader part: its header, whose crc (EEPROM only) is given, and the bootloader. */
  function BootPart(dest: Destination, boot: Option<seq<byte>>, crc: byte): (p: seq<byte>)
    ensures |p| == BootSize(dest, boot)
  {
    match boot
    case None => []
    case Some(b) => (if dest.Spi? then SpiHeader(|b|) else I2cHeader(|b|, crc)) + b
  }

  /** The checksum the finished EEPROM header carries. */
  function BootCrc(boot: Option<seq<byte>>): byte {
    match boot
    case None => 0
    case Some(b) => XorFrom(0, b)
  }

  /**
    * The parts do not overlap, in one of the two allowed orders: boot part, product header,
    * images; or boot part, images, product header.
    */
  predicate HeaderFirst(base: nat, size1: nat, off1: nat, off2: nat, off3: nat) {
    base <= off3 && off3 + PRODUCT_HEADER_SIZE <= off1 && off1 + size1 <= off2
  }

  predicate HeaderLast(base: nat, size1: nat, size2: nat, off1: nat, off2: nat, off3: nat) {
    base <= off1 && off1 + size1 <= off2 && off2 + size2 <= off3
  }

  predicate Fits(base: nat, size1: nat, size2: nat, off1: nat, off2: nat, off3: nat) {
    HeaderFirst(base, size1, off1, off2, off3) || HeaderLast(base, size1, size2, off1, off2, off3)
  }

  function PadTo(bytes: seq<byte>, off: nat): (r: seq<byte>)
    requires |bytes| <= off
    ensures |r| == off
  {
    bytes + Repeat(PAD, off - |bytes|)
  }

  /** The finished file, part by part. */
  function Flash(boot: seq<byte>, img1: seq<byte>, off1: nat, img2: seq<byte>, off2: nat, hdr: seq<byte>, off3: nat)
    : seq<byte>
    requires |hdr| == PRODUCT_HEADER_SIZE && Fits(|boot|, |img1|, |img2|, off1, off2, off3)
  {
    if HeaderFirst(|boot|, |img1|, off1, off2, off3) then
      PadTo(PadTo(PadTo(boot, off3) + hdr, off1) + img1, off2) + img2
    else
      PadTo(PadTo(PadTo(boot, off1) + img1, off2) + img2, off3) + hdr
  }

  /** The file has this part at this offset. */
  predicate PartAt(file: seq<byte>, off: nat, part: seq<byte>) {
    off + |part| <= |file| && file[off..off + |part|] == part
  }

  /** Position i lies outside a part. */
  predicate Clear(i: nat, off: nat, size: nat) {
    i < off || off + size <= i
  }

  /** Every part of the layout is where it belongs, and every byte outside the parts is 0xff. */
  lemma {:induction false} FlashLayout(boot: seq<byte>, img1: seq<byte>, off1: nat, img2: seq<byte>, off2: nat,
                                       hdr: seq<byte>, off3: nat)
    requires |hdr| == PRODUCT_HEADER_SIZE && Fits(|boot|, |img1|, |img2|, off1, off2, off3)
    ensures var f := Flash(boot, img1, off1, img2, off2, hdr, off3);
            && PartAt(f, 0, boot) && PartAt(f, off1, img1) && PartAt(f, off2, img2) && PartAt(f, off3, hdr)
            && |f| == (if off3 < off1 then off2 + |img2| else off3 + PRODUCT_HEADER_SIZE)
            && forall i | |boot| <= i < |f| && Clear(i, off1, |img1|) && Clear(i, off2, |img2|) && Clear(i, off3, |hdr|)
                 :: f[i] == 0xff
  {
    if HeaderFirst(|boot|, |img1|, off1, off2, off3) {
      ThreePads(boot, hdr, off3, img1, off1, img2, off2);
    } else {
      ThreePads(boot, img1, off1, img2, off2, hdr, off3);
    }
  }

  /** Three parts appended after a first one, each at its own offset. */
  lemma {:induction false} ThreePads(boot: seq<byte>, a: seq<byte>, x: nat, b: seq<byte>, y: nat, c: seq<byte>, z: nat)
    requires |boot| <= x && x + |a| <= y && y + |b| <= z
    ensures var f := PadTo(PadTo(PadTo(boot, x) + a, y) + b, z) + c;
            && PartAt(f, 0, boot) && PartAt(f, x, a) && PartAt(f, y, b) && PartAt(f, z, c) && |f| == z + |c|
            && forall i :: |boot| <= i < |f| && Clear(i, x, |a|) && Clear(i, y, |b|) && Clear(i, z, |c|) ==> f[i] == PAD
  {}

  /** Writing the EEPROM header again changes the crc byte and nothing else. */
  lemma {:induction false} RewriteOnlyCrc(file: seq<byte>, size: nat, first: byte, crc: byte)
    requires PartAt(file, 0, I2cHeader(size, first))
    ensures Overwrite(file, 0, I2cHeader(size, crc)) == file[4 := crc]
  {
    var h := I2cHeader(size, first);
    assert file == h + file[32..];
    assert I2cHeader(size, crc) == h[4 := crc];
  }

  lemma CrcByte(size: nat, first: byte, crc: byte, b: seq<byte>)
    ensures (I2cHeader(size, first) + b)[4 := crc] == I2cHeader(size, crc) + b
  {
    assert I2cHeader(size, first)[4 := crc] == I2cHeader(size, crc);
  }

  // ---------------------------------------------------------------- positions in 32 bits

  /** parse_offset, from the number on: only large positive numbers are refused. */
  function ParseOffset(val: int): (off: Option<nat>)
    ensures off.None? <==> val > 1048576
    ensures off.Some? && val >= 0 ==> off.value == val
    ensures off.Some? && -0x8000_0000 <= val < 0 ==> off.value == 0x1_0000_0000 + val
  {
    if val > 0x10_0000 then None else Some(val % LIMIT_32)
  }

  /** The cast (unsigned)offset. */
  function Unsigned(offset: nat): nat { offset % LIMIT_32 }

  /** A part appended at an offset, unless the position of the file, cast to 32 bits, is beyond it. */
  function Grow(bytes: seq<byte>, off: nat, part: seq<byte>): Option<seq<byte>> {
    if Unsigned(|bytes|) > off then None else Some(bytes + Repeat(PAD, off - Unsigned(|bytes|)) + part)
  }

  function Then(bytes: Option<seq<byte>>, off: nat, part: seq<byte>): Option<seq<byte>> {
    match bytes
    case None => None
    case Some(b) => Grow(b, off, part)
  }

  /** The file that the offsets lead to: the product header before the images, after them, or both. */
  function Layout(boot: seq<byte>, img1: seq<byte>, off1: nat, img2: seq<byte>, off2: nat, hdr: seq<byte>, off3: nat)
    : Option<seq<byte>>
  {
    if !(off1 < off2 && off2 < off3) && !(off3 < off1) then None
    else
      var start := if off3 < off1 then Grow(boot, off3, hdr) else Some(boot);
      var images := Then(Then(start, off1, img1), off2, img2);
      if off3 > off2 then Then(images, off3, hdr) else images
  }

  /** A part is appended at its offset exactly when the file was shorter than 2^32 bytes. */
  lemma GrowPlaces(bytes: seq<byte>, off: nat, part: seq<byte>)
    requires Grow(bytes, off, part).Some?
    ensures var f, at := Grow(bytes, off, part).value, |bytes| / LIMIT_32 * LIMIT_32 + off;
            && bytes <= f && |f| == at + |part| && PartAt(f, at, part) && (at == off <==> |bytes| < LIMIT_32)
            && (at == off ==> f == PadTo(bytes, off) + part)
            && forall i :: |bytes| <= i < at ==> f[i] == 0xff
  {
    hide PadTo, Repeat;
    var f, at := Grow(bytes, off, part).value, |bytes| / LIMIT_32 * LIMIT_32 + off;
    var front := bytes + Repeat(PAD, off - Unsigned(|bytes|));
    assert f == front + part && |front| == at;
    if |bytes| < LIMIT_32 {
      PadToMeans(bytes, off);
    }
  }

  lemma PadToMeans(bytes: seq<byte>, off: nat)
    requires |bytes| <= off
    ensures PadTo(bytes, off) == bytes + Repeat(PAD, off - |bytes|)
  {}

  /** No position that is compared with an offset has reached 2^32. */
  predicate Below32(base: nat, size1: nat, size2: nat, off1: nat, off2: nat, off3: nat) {
    && base < LIMIT_32 && off1 + size1 < LIMIT_32
    && (off3 < off1 ==> off3 + PRODUCT_HEADER_SIZE < LIMIT_32) && (off3 > off2 ==> off2 + size2 < LIMIT_32)
  }

  lemma GrowBelow(bytes: seq<byte>, off: nat, part: seq<byte>)
    requires |bytes| < LIMIT_32
    ensures Grow(bytes, off, part) == if |bytes| > off then None else Some(PadTo(bytes, off) + part)
    ensures Grow(bytes, off, part).Some? ==> |Grow(bytes, off, part).value| == off + |part|
  {
    if |bytes| <= off {
      GrowPlaces(bytes, off, part);
    }
  }

  /**
    * The parts fit without overlap exactly when every test passes and no position tested has
    * reached 2^32; the file is then the one the offsets describe, with one product header.
    */
  lemma FitsExactly(boot: seq<byte>, img1: seq<byte>, off1: nat, img2: seq<byte>, off2: nat, hdr: seq<byte>, off3: nat)
    requires off1 < LIMIT_32 && off2 < LIMIT_32 && off3 < LIMIT_32
    requires |hdr| == PRODUCT_HEADER_SIZE && img1 != [] && img2 != []
    ensures var f := Layout(boot, img1, off1, img2, off2, hdr, off3);
            && (Fits(|boot|, |img1|, |img2|, off1, off2, off3)
                <==> f.Some? && Below32(|boot|, |img1|, |img2|, off1, off2, off3))
            && (Fits(|boot|, |img1|, |img2|, off1, off2, off3) ==>
                  f == Some(Flash(boot, img1, off1, img2, off2, hdr, off3)) && (off3 < off1 <==> !(off3 > off2)))
  {
    hide Grow, PadTo;
    if Below32(|boot|, |img1|, |img2|, off1, off2, off3) {
      var start := boot;
      if off3 < off1 {
        GrowBelow(boot, off3, hdr);
        start := if |boot| <= off3 then PadTo(boot, off3) + hdr else boot;
      }
      GrowBelow(start, off1, img1);
      if |start| <= off1 {
        var second := PadTo(start, off1) + img1;
        GrowBelow(second, off2, img2);
        if |second| <= off2 && off3 > off2 {
          GrowBelow(PadTo(second, off2) + img2, off3, hdr);
        }
      }
    }
  }

  /** For arguments that are not negative and parts of less than 4 GB, passing the tests means that the parts fit. */
  lemma OrdinaryOffsets(a1: int, a2: int, a3: int, boot: seq<byte>, img1: seq<byte>, img2: seq<byte>, hdr: seq<byte>)
    requires ParseOffset(a1).Some? && ParseOffset(a2).Some? && ParseOffset(a3).Some?
    requires a1 >= 0 && a2 >= 0 && a3 >= 0
    requires |boot| < LIMIT_32 && 0 < |img1| < LIMIT_32 - 0x10_0000 && 0 < |img2| < LIMIT_32 - 0x10_0000
    requires |hdr| == PRODUCT_HEADER_SIZE
    ensures var off1, off2, off3 := ParseOffset(a1).value, ParseOffset(a2).value, ParseOffset(a3).value;
            Layout(boot, img1, off1, img2, off2, hdr, off3).Some? <==> Fits(|boot|, |img1|, |img2|, off1, off2, off3)
  {
    hide Layout;
    FitsExactly(boot, img1, a1, img2, a2, hdr, a3);
  }

  /**
    * The arguments -64 -32 -16: after an image of 64 bytes the position is 2^32, which the cast
    * takes for 0, so every test passes; the second image begins 2^32 bytes beyond its offset.
    */
  lemma NegativeOffsetsPass(img1: seq<byte>, img2: seq<byte>, hdr: seq<byte>)
    requires |img1| == |img2| == 64 && |hdr| == PRODUCT_HEADER_SIZE
    ensures ParseOffset(-64) == Some(0xFFFF_FFC0) && ParseOffset(-32) == Some(0xFFFF_FFE0)
    ensures ParseOffset(-16) == Some(0xFFFF_FFF0)
    ensures !Fits(0, 64, 64, 0xFFFF_FFC0, 0xFFFF_FFE0, 0xFFFF_FFF0)
    ensures var f := Layout([], img1, 0xFFFF_FFC0, img2, 0xFFFF_FFE0, hdr, 0xFFFF_FFF0);
            && f.Some? && PartAt(f.value, LIMIT_32 + 0xFFFF_FFE0, img2)
            && forall i :: 0xFFFF_FFE0 <= i < LIMIT_32 ==> f.value[i] == img1[i - 0xFFFF_FFC0]
  {
    hide Grow, PadTo, Repeat;
    GrowsTo([], 0xFFFF_FFC0, img1);
    var first := Grow([], 0xFFFF_FFC0, img1).value;
    GrowsTo(first, 0xFFFF_FFE0, img2);
    var second := Grow(first, 0xFFFF_FFE0, img2).value;
    GrowsTo(second, 0xFFFF_FFF0, hdr);
  }

  lemma GrowsTo(bytes: seq<byte>, off: nat, part: seq<byte>)
    requires Unsigned(|bytes|) <= off
    ensures Grow(bytes, off, part).Some?
    ensures var f, at := Grow(bytes, off, part).value, |bytes| / LIMIT_32 * LIMIT_32 + off;
            && bytes <= f && |f| == at + |part| && PartAt(f, at, part)
  {
    hide Repeat;
    GrowPlaces(bytes, off, part);
  }

  /** The arguments -64 0 64: both tests for the product header hold, and it is written twice. */
  lemma HeaderTwice(img1: seq<byte>, img2: seq<byte>, hdr: seq<byte>)
    requires |img1| == |img2| == 64 && |hdr| == PRODUCT_HEADER_SIZE
    ensures var f := Layout([], img1, 0xFFFF_FFC0, img2, 0, hdr, 64);
            f.Some? && PartAt(f.value, 64, hdr) && PartAt(f.value, LIMIT_32 + 64, hdr)
  {
    hide Grow, PadTo, Repeat;
    GrowsTo([], 64, hdr);
    var first := Grow([], 64, hdr).value;
    GrowsTo(first, 0xFFFF_FFC0, img1);
    var second := Grow(first, 0xFFFF_FFC0, img1).value;
    GrowsTo(second, 0, img2);
    var third := Grow(second, 0, img2).value;
    GrowsTo(third, 64, hdr);
  }

  /** One changed byte before the end of the file changes the rest of the run by that byte alone. */
  lemma GrowChanged(x: seq<byte>, off: nat, part: seq<byte>, crc: byte)
    requires 4 < |x|
    ensures Grow(x, off, part).Some? <==> Grow(x[4 := crc], off, part).Some?
    ensures Grow(x, off, part).Some? ==>
              x <= Grow(x, off, part).value && Grow(x[4 := crc], off, part).value == Grow(x, off, part).value[4 := crc]
  {
    hide Repeat;
  }

  lemma ThenChanged(x: Option<seq<byte>>, y: Option<seq<byte>>, off: nat, part: seq<byte>, head: seq<byte>, crc: byte)
    requires Differ(x, y, head, crc)
    ensures Differ(Then(x, off, part), Then(y, off, part), head, crc)
  {
    hide Grow;
    if x.Some? {
      GrowChanged(x.value, off, part, crc);
    }
  }

  /** Two outcomes that begin alike and differ in byte four. */
  predicate Differ(x: Option<seq<byte>>, y: Option<seq<byte>>, head: seq<byte>, crc: byte) {
    |head| > 4 && x.Some? == y.Some? && (x.Some? ==> head <= x.value && y.value == x.value[4 := crc])
  }

  /** The finished file with another crc in its boot part is the finished file with that byte changed. */
  lemma LayoutBootCrc(b: seq<byte>, size: nat, first: byte, crc: byte, img1: seq<byte>, off1: nat, img2: seq<byte>,
                      off2: nat, hdr: seq<byte>, off3: nat)
    ensures Differ(Layout(I2cHeader(size, first) + b, img1, off1, img2, off2, hdr, off3),
                   Layout(I2cHeader(size, crc) + b, img1, off1, img2, off2, hdr, off3), I2cHeader(size, first), crc)
  {
    CrcByte(size, first, crc, b);
    hide I2cHeader, Grow, Then;
    var h := I2cHeader(size, first);
    var x, y := Some(h + b), Some(I2cHeader(size, crc) + b);
    assert Differ(x, y, h, crc);
    assert Then(x, off3, hdr) == Grow(x.value, off3, hdr) && Then(y, off3, hdr) == Grow(y.value, off3, hdr) by {
      ThenSome(x, off3, hdr);
      ThenSome(y, off3, hdr);
    }
    ThenChanged(x, y, off3, hdr, h, crc);
    var x1, y1 := if off3 < off1 then Then(x, off3, hdr) else x, if off3 < off1 then Then(y, off3, hdr) else y;
    ThenChanged(x1, y1, off1, img1, h, crc);
    var x2, y2 := Then(x1, off1, img1), Then(y1, off1, img1);
    ThenChanged(x2, y2, off2, img2, h, crc);
    ThenChanged(Then(x2, off2, img2), Then(y2, off2, img2), off3, hdr, h, crc);
  }

  lemma ThenSome(x: Option<seq<byte>>, off: nat, part: seq<byte>)
    requires x.Some?
    ensures Then(x, off, part) == Grow(x.value, off, part)
  {}

  // ---------------------------------------------------------------- reading the file back

  lemma SliceOfSlice(s: seq<byte>, a: nat, b: nat, i: nat, j: nat)
    requires a <= b <= |s| && i <= j <= b - a
    ensures s[a..b][i..j] == s[a + i..a + j]
  {
    forall k | 0 <= k < j - i ensures s[a..b][i..j][k] == s[a + i..a + j][k] {
      assert s[a..b][i..j][k] == s[a..b][i + k] == s[a + i + k];
    }
  }

  /** A piece of a part stands where it should. */
  lemma PieceAt(file: seq<byte>, off: nat, part: seq<byte>, i: nat, j: nat)
    requires PartAt(file, off, part) && i <= j <= |part|
    ensures PartAt(file, off + i, part[i..j]) && file[off + i..off + j] == part[i..j]
  {
    SliceOfSlice(file, off, off + |part|, i, j);
  }

  /** The fields of the product header, in the file they stand in. */
  lemma HeaderFields(file: seq<byte>, off1: nat, off2: nat, cfgOff: nat, off3: nat)
    requires PartAt(file, off3, ProductHeader(off1, off2, cfgOff))
    ensures off3 + 24 <= |file| && file[off3..off3 + 4] == [0x70, 0x52, 0, 0]
    ensures UnLe(file[off3 + 4..off3 + 8]) == off1 % 0x1_0000_0000
    ensures UnLe(file[off3 + 8..off3 + 12]) == off2 % 0x1_0000_0000
    ensures forall i :: off3 + 12 <= i < off3 + 20 ==> file[i] == 0xff
    ensures UnLe(file[off3 + 20..off3 + 24]) == cfgOff % 0x1_0000_0000
  {
    hide Le, Repeat, UnLe, ProductHeader;
    var h := ProductHeader(off1, off2, cfgOff);
    ProductHeaderPieces(off1, off2, cfgOff);
    Pow256Values();
    UnLeOfLow(off1, 4);
    UnLeOfLow(off2, 4);
    UnLeOfLow(cfgOff, 4);
    PieceAt(file, off3, h, 0, 4);
    PieceAt(file, off3, h, 4, 8);
    PieceAt(file, off3, h, 8, 12);
    PieceAt(file, off3, h, 12, 20);
    PieceAt(file, off3, h, 20, 24);
    forall i | off3 + 12 <= i < off3 + 20 ensures file[i] == 0xff {
      assert file[i] == file[off3 + 12..off3 + 20][i - off3 - 12];
    }
  }

  lemma ProductHeaderPieces(off1: nat, off2: nat, cfgOff: nat)
    ensures var h := ProductHeader(off1, off2, cfgOff);
            && h[..4] == [0x70, 0x52, 0, 0] && h[4..8] == Le(off1, 4) && h[8..12] == Le(off2, 4)
            && (forall i :: 0 <= i < 8 ==> h[12..20][i] == 0xff) && h[20..24] == Le(cfgOff, 4)
  {
    hide Le;
  }

  /**
    * The product header of a file whose parts fit leads to the images: its first pointer to the
    * first image, with id 1, its second to the second image, with id 0.
    */
  lemma PointersLead(boot: seq<byte>, img1: seq<byte>, off1: nat, stack1: seq<byte>, img2: seq<byte>, off2: nat,
                     stack2: seq<byte>, off3: nat, cfgOff: nat)
    requires off1 < LIMIT_32 && off2 < LIMIT_32 && off3 < LIMIT_32
    requires |stack1| == |stack2| == IMAGE_HEADER_SIZE
    requires var a1, a2 := Activated(img1, 1, stack1), Activated(img2, 0, stack2);
             Fits(|boot|, |a1|, |a2|, off1, off2, off3)
    ensures var a1, a2 := Activated(img1, 1, stack1), Activated(img2, 0, stack2);
            var f := Layout(boot, a1, off1, a2, off2, ProductHeader(off1, off2, cfgOff), off3);
            && f.Some? && off3 + 24 <= |f.value| && f.value[off3..off3 + 4] == [0x70, 0x52, 0, 0]
            && (var p := UnLe(f.value[off3 + 4..off3 + 8]); IsImage(f.value, p, img1, 1))
            && (var p := UnLe(f.value[off3 + 8..off3 + 12]); IsImage(f.value, p, img2, 0))
            && UnLe(f.value[off3 + 20..off3 + 24]) == cfgOff % 0x1_0000_0000
            && boot <= f.value
  {
    hide Activated, Layout, Flash, ProductHeader, UnLe, Fits, HeaderFirst, HeaderLast, Clear, IsImage, ImageSize;
    var a1, a2, hdr := Activated(img1, 1, stack1), Activated(img2, 0, stack2), ProductHeader(off1, off2, cfgOff);
    FitsExactly(boot, a1, off1, a2, off2, hdr, off3);
    var f := Flash(boot, a1, off1, a2, off2, hdr, off3);
    PartsStand(boot, a1, off1, a2, off2, hdr, off3);
    HeaderFields(f, off1, off2, cfgOff, off3);
    ActivatedAt(f, off1, img1, 1, stack1);
    ActivatedAt(f, off2, img2, 0, stack2);
  }

  lemma PartsStand(boot: seq<byte>, a1: seq<byte>, off1: nat, a2: seq<byte>, off2: nat, hdr: seq<byte>, off3: nat)
    requires |hdr| == PRODUCT_HEADER_SIZE && Fits(|boot|, |a1|, |a2|, off1, off2, off3)
    ensures var f := Flash(boot, a1, off1, a2, off2, hdr, off3);
            boot <= f && PartAt(f, off1, a1) && PartAt(f, off2, a2) && PartAt(f, off3, hdr)
  {
    hide Flash;
    FlashLayout(boot, a1, off1, a2, off2, hdr, off3);
  }

  /** At this index there is an image with its id byte set, and otherwise as it was. */
  predicate IsImage(file: seq<byte>, at: nat, img: seq<byte>, id: byte) {
    && at + |img| <= |file| && at + 4 <= |file| && file[at + 3] == id
    && forall i :: 0 <= i < |img| && i != 3 ==> file[at + i] == img[i]
  }

  lemma ActivatedAt(file: seq<byte>, off: nat, img: seq<byte>, id: byte, stack: seq<byte>)
    requires |stack| == IMAGE_HEADER_SIZE && PartAt(file, off, Activated(img, id, stack))
    ensures IsImage(file, off, img, id)
  {
    var a := Activated(img, id, stack);
    hide Activated;
    forall i | 0 <= i < |a| ensures file[off + i] == a[i] {
      assert file[off..off + |a|][i] == a[i];
    }
  }

  /**
    * The boot part at the front of a file: magic, length (high byte first) and the bootloader; an
    * EEPROM header also has the xor of the bootloader.
    */
  lemma BootReadsBack(dest: Destination, b: seq<byte>, file: seq<byte>)
    requires BootPart(dest, Some(b), BootCrc(Some(b))) <= file
    ensures var at := if dest.Spi? then 8 else 32;
            at + |b| <= |file| && file[0] == 0x70 && file[1] == 0x50 && file[at..at + |b|] == b
    ensures dest.Spi? ==> file[2] == file[3] == file[4] == file[5] == 0 && BigEndian(file[6], file[7]) == |b| % 0x1_0000
    ensures dest.Eeprom? ==> BigEndian(file[2], file[3]) == |b| % 0x1_0000 && file[4] == XorFrom(0, b)
                             && forall i :: 5 <= i < 32 ==> file[i] == 0
  {
    hide *;
    var at := if dest.Spi? then 8 else 32;
    var part := BootPart(dest, Some(b), BootCrc(Some(b)));
    BootPieces(dest, b, BootCrc(Some(b)));
    PrefixPieces(part, file, at);
    HighAndLow(|b|);
  }

  function BigEndian(hi: byte, lo: byte): nat { 256 * (hi as int) + (lo as int) }

  lemma PrefixPieces(part: seq<byte>, file: seq<byte>, at: nat)
    requires part <= file && at <= |part|
    ensures file[at..|part|] == part[at..]
    ensures forall i :: 0 <= i < at ==> file[i] == part[i]
  {}

  lemma BootPieces(dest: Destination, b: seq<byte>, crc: byte)
    ensures var part, at := BootPart(dest, Some(b), crc), if dest.Spi? then 8 else 32;
            && |part| == at + |b| && part[at..] == b && part[0] == 0x70 && part[1] == 0x50
            && (dest.Spi? ==> part[2] == part[3] == part[4] == part[5] == 0
                              && part[6] == |b| / 256 % 256 && part[7] == |b| % 256)
            && (dest.Eeprom? ==> part[2] == |b| / 256 % 256 && part[3] == |b| % 256 && part[4] == crc
                                 && forall i :: 5 <= i < 32 ==> part[i] == 0)
    ensures BootCrc(Some(b)) == XorFrom(0, b)
  {
    hide Repeat;
  }

  lemma HighAndLow(n: nat)
    ensures BigEndian(n / 256 % 256, n % 256) == n % 0x1_0000
  {}

  // ---------------------------------------------------------------- building the file

  /** Padding up to an offset, unless the position of the file is beyond it. */
  method PadUpTo(outf: File, off: nat) returns (ok: bool)
    requires AtEnd(outf) && off < LIMIT_32
    modifies outf
    ensures ok <==> Grow(old(outf.bytes), off, []).Some?
    ensures ok ==> AtEnd(outf) && outf.bytes == Grow(old(outf.bytes), off, []).value
  {
    hide Repeat;
    var offset := outf.pos;
    if Unsigned(offset) > off {
      return false;
    }
    if off > Unsigned(offset) {
      AddPadding(outf, (off - offset) % LIMIT_32, PAD);
    } else {
      NoPadding(PAD);
    }
    ok := true;
  }

  lemma NoPadding(pad: byte)
    ensures Repeat(pad, 0) == []
  {}

  lemma GrowLater(bytes: seq<byte>, off: nat, part: seq<byte>)
    ensures Grow(bytes, off, part).Some? <==> Grow(bytes, off, []).Some?
    ensures Grow(bytes, off, part).Some? ==> Grow(bytes, off, part).value == Grow(bytes, off, []).value + part
  {
    hide Repeat;
  }

  /** One image: the padding before it, its id byte, its contents. */
  method PlaceImage(outf: File, img: File, off: nat, active: byte, stack: seq<byte>) returns (ok: bool)
    requires outf != img && AtEnd(outf) && off < LIMIT_32
    requires img.pos == 0 && |stack| == IMAGE_HEADER_SIZE
    modifies outf, img
    ensures var grown := Grow(old(outf.bytes), off, Activated(old(img.bytes), active, stack));
            && (ok <==> grown.Some?)
            && (ok ==> AtEnd(outf) && outf.bytes == grown.value)
    ensures img.bytes == if ok then Activated(old(img.bytes), active, stack) else old(img.bytes)
  {
    hide Grow, Activated;
    GrowLater(outf.bytes, off, Activated(img.bytes, active, stack));
    ok := PadUpTo(outf, off);
    if !ok {
      return;
    }
    SetActiveImage(img, active, stack);
    var _ := AppendFileCsum(outf, img);
  }

  /** The stores that fill the product header; the second memset reaches four bytes past the pad. */
  method FillProductHeader(off1: nat, off2: nat, cfgOff: nat) returns (h: seq<byte>)
    ensures h == ProductHeader(off1, off2, cfgOff)
  {
    hide Le, Patched, Repeat;
    var header := new byte[PRODUCT_HEADER_SIZE](_ => 0);
    header[0], header[1] := 0x70, 0x52;
    assert header[..4] == [0x70, 0x52, 0, 0];
    Copy(header, 4, Le(off1, 4));
    Copy(header, 8, Le(off2, 4));
    Copy(header, 12, Repeat(0xff, 6));
    ghost var front := header[..18];
    Copy(header, 18, Repeat(0xff, 6));
    TwoOfSix();
    assert header[..20] == header[..24][..20] == front + Repeat(0xff, 2);
    Copy(header, 20, Le(cfgOff, 4));
    assert header[..24] == header[..];
    h := header[..];
  }

  lemma TwoOfSix()
    ensures Repeat(0xff, 6)[..2] == Repeat(0xff, 2)
  {}

  /** The product header: the padding before it and its 24 bytes. */
  method PlaceProductHeader(outf: File, off1: nat, off2: nat, off3: nat, cfgOff: nat) returns (ok: bool)
    requires AtEnd(outf) && off3 < LIMIT_32
    modifies outf
    ensures var grown := Grow(old(outf.bytes), off3, ProductHeader(off1, off2, cfgOff));
            && (ok <==> grown.Some?)
            && (ok ==> AtEnd(outf) && outf.bytes == grown.value)
  {
    hide Grow, ProductHeader;
    GrowLater(outf.bytes, off3, ProductHeader(off1, off2, cfgOff));
    ok := PadUpTo(outf, off3);
    if ok {
      var header := FillProductHeader(off1, off2, cfgOff);
      Append(outf, header);
    }
  }

  /** The boot part; the EEPROM header is first written with whatever crc byte it holds. */
  method PlaceBoot(outf: File, dest: Destination, bloader: File, garbage: byte) returns (csum: byte)
    requires outf != bloader && outf.bytes == [] && AtEnd(outf) && bloader.pos == 0
    modifies outf, bloader`pos
    ensures AtEnd(outf) && outf.bytes == BootPart(dest, Some(bloader.bytes), garbage)
    ensures csum == BootCrc(Some(bloader.bytes))
  {
    var blSize := |bloader.bytes|;
    if dest.Spi? {
      Append(outf, SpiHeader(blSize));
    } else {
      Append(outf, I2cHeader(blSize, garbage));
    }
    assert outf.bytes == if dest.Spi? then SpiHeader(blSize) else I2cHeader(blSize, garbage);
    csum := AppendFileCsum(outf, bloader);
  }

  /** Only the EEPROM header has a checksum. */
  lemma NoCrc(dest: Destination, boot: Option<seq<byte>>, a: byte, b: byte)
    requires boot.None? || dest.Spi?
    ensures BootPart(dest, boot, a) == BootPart(dest, boot, b)
  {}

  /**
    * create_multi_image, from the parsed offsets on. headerWrites counts how often the product
    * header is written; garbage is the indeterminate crc byte of the first EEPROM header, and
    * stack1 and stack2 are what the image header structures hold before they are read into.
    */
  method CreateMultiImage(dest: Destination, bloader: File?, img1: File, img2: File, outf: File,
                          off1: nat, off2: nat, off3: nat, cfgOff: nat, garbage: byte,
                          stack1: seq<byte>, stack2: seq<byte>)
    returns (ok: bool, ghost headerWrites: nat)
    requires img1 != img2 && outf != img1 && outf != img2 && bloader != img1 && bloader != img2 && bloader != outf
    requires outf.bytes == [] && outf.pos == 0
    requires img1.pos == 0 && img2.pos == 0 && |stack1| == |stack2| == IMAGE_HEADER_SIZE
    requires bloader != null ==> bloader.pos == 0
    requires off1 < LIMIT_32 && off2 < LIMIT_32 && off3 < LIMIT_32
    modifies outf, img1, img2, bloader
    ensures bloader != null ==> bloader.bytes == old(bloader.bytes)
    ensures var boot := if bloader == null then None else Some(bloader.bytes);
            var a1, a2 := Activated(old(img1.bytes), 1, stack1), Activated(old(img2.bytes), 0, stack2);
            var part, hdr := BootPart(dest, boot, BootCrc(boot)), ProductHeader(off1, off2, cfgOff);
            var file := Layout(part, a1, off1, a2, off2, hdr, off3);
            && (ok <==> file.Some?)
            && (ok ==> outf.bytes == file.value && img1.bytes == a1 && img2.bytes == a2)
    ensures ok ==> headerWrites == (if off3 < off1 then 1 else 0) + (if off3 > off2 then 1 else 0)
  {
    hide BootPart, BootCrc, ProductHeader, Grow, I2cHeader, Activated, ImageSize;
    ok, headerWrites := false, 0;
    ghost var boot := if bloader == null then None else Some(bloader.bytes);
    ghost var hdr := ProductHeader(off1, off2, cfgOff);
    ghost var part := BootPart(dest, boot, garbage);
    ghost var a1, a2 := Activated(img1.bytes, 1, stack1), Activated(img2.bytes, 0, stack2);
    FinalBoot(dest, boot, garbage, a1, off1, a2, off2, hdr, off3);
    if !(off1 < off2 && off2 < off3) {
      if !(off3 < off1) {
        return;
      }
    }
    var csum: byte := 0;
    if bloader != null {
      csum := PlaceBoot(outf, dest, bloader, garbage);
    } else {
      NoBoot(dest, garbage);
    }
    assert outf.bytes == part && AtEnd(outf);
    if off3 < off1 {
      ok := PlaceProductHeader(outf, off1, off2, off3, cfgOff);
      if !ok {
        return;
      }
      headerWrites := headerWrites + 1;
    }
    ok := PlaceImage(outf, img1, off1, 1, stack1);
    if !ok {
      return;
    }
    ok := PlaceImage(outf, img2, off2, 0, stack2);
    if !ok {
      return;
    }
    if off3 > off2 {
      ok := PlaceProductHeader(outf, off1, off2, off3, cfgOff);
      if !ok {
        return;
      }
      headerWrites := headerWrites + 1;
    }
    assert Layout(part, a1, off1, a2, off2, hdr, off3) == Some(outf.bytes);
    if bloader != null && dest.Eeprom? {
      RewriteOnlyCrc(outf.bytes, |bloader.bytes|, garbage, csum);
      outf.Seek(0);
      outf.Write(I2cHeader(|bloader.bytes|, csum));
    }
  }

  lemma NoBoot(dest: Destination, crc: byte)
    ensures BootPart(dest, None, crc) == []
  {}

  /** What the finished file with the final boot header is, compared with the one before that was written. */
  lemma FinalBoot(dest: Destination, boot: Option<seq<byte>>, garbage: byte, img1: seq<byte>, off1: nat,
                  img2: seq<byte>, off2: nat, hdr: seq<byte>, off3: nat)
    ensures var first := Layout(BootPart(dest, boot, garbage), img1, off1, img2, off2, hdr, off3);
            var last := Layout(BootPart(dest, boot, BootCrc(boot)), img1, off1, img2, off2, hdr, off3);
            if boot.Some? && dest.Eeprom? then
              && first.Some? == last.Some?
              && (first.Some? ==> PartAt(first.value, 0, I2cHeader(|boot.value|, garbage))
                                  && last.value == first.value[4 := BootCrc(boot)])
            else first == last
  {
    hide Layout, I2cHeader;
    if boot.Some? && dest.Eeprom? {
      var b := boot.value;
      LayoutBootCrc(b, |b|, garbage, BootCrc(boot), img1, off1, img2, off2, hdr, off3);
    } else {
      NoCrc(dest, boot, garbage, BootCrc(boot));
    }
  }
}
