/** PIB attribute values: how each attribute number is laid out, written and read back. */
module PibAttributes {
  import opened Bytes
  import opened Fields
  import opened PayloadIEs
  import opened Tables

  /** The branches of the two attribute functions. */
  datatype Kind = Signed32 | Unsigned64 | Unsigned32 | Octet(size: nat) | Words(size: nat) | Record(size: nat)
                | Devices | SecurityLevels | Slotframes | Links | Keys | Elements | Unknown

  const FTDF_MAX_BEACON_PAYLOAD_LENGTH := 127 - 75
  const FTDF_MAX_HOPPING_SEQUENCE_LENGTH := 16

  /** The attributes the source lists as 32-bit unsigned integers. */
  predicate IsUnsigned32(atr: int) {
    || 2 <= atr <= 7 || 9 <= atr <= 12 || 14 <= atr <= 33 || 36 <= atr <= 40 || atr == 42 || 46 <= atr <= 51
    || 53 <= atr <= 60 || atr == 62 || 64 <= atr <= 66 || atr == 72 || atr == 73 || atr == 75 || 78 <= atr <= 84
    || atr == 86 || 88 <= atr <= 91 || 93 <= atr <= 105
  }

  function KindOf(atr: int): Kind {
    if atr == 87 then Signed32
    else if atr == 1 || atr == 13 || atr == 71 || atr == 77 || atr == 41 then Unsigned64
    else if IsUnsigned32(atr) then Unsigned32
    else if atr == 8 then Octet(FTDF_MAX_BEACON_PAYLOAD_LENGTH)
    else if atr == 74 || atr == 106 || atr == 76 then Octet(8)
    else if atr == 69 then Devices
    else if atr == 70 then SecurityLevels
    else if atr == 68 then Keys
    else if atr == 61 || atr == 92 then Record(12)
    else if atr == 43 then Slotframes
    else if atr == 44 then Links
    else if atr == 63 || atr == 67 then Elements
    else if atr == 52 then Words(FTDF_MAX_HOPPING_SEQUENCE_LENGTH)
    else if atr == 45 then Record(13)
    else Unknown
  }

  /** A Python value handed to the setter or made by the getter. */
  datatype PibValue = Number(n: int) | Array(a: seq<int>) | Fields(ints: seq<int>) | Rows(t: RowTable)
                    | KeyTab(keys: KeyTable) | List(l: Option<IEList>)

  const DEVICE_WIDTHS: seq<nat> := [4, 4, 8, 8, 4]
  const SECURITY_WIDTHS: seq<nat> := [4, 4, 4, 4, 4]
  const SLOTFRAME_WIDTHS: seq<nat> := [4, 4]
  const LINK_WIDTHS: seq<nat> := [4, 4, 4, 4, 4, 4, 4]

  function Fours(n: nat): (w: seq<nat>)
    ensures |w| == n && forall i :: 0 <= i < n ==> w[i] == 4
  {
    seq(n, _ => 4)
  }

  lemma {:induction false} FoursSum(n: nat)
    ensures Sum(Fours(n)) == 4 * n
    decreases n
  {
    if n != 0 {
      assert Fours(n)[..n - 1] == Fours(n - 1);
      FoursSum(n - 1);
    }
  }

  lemma WidthSums()
    ensures Sum(DEVICE_WIDTHS) == 28 && Sum(SECURITY_WIDTHS) == 20
  {
    FoursSum(2);
    FoursSum(5);
    assert Fours(2) == [4, 4] && Fours(5) == SECURITY_WIDTHS;
    assert DEVICE_WIDTHS[..4] == [4, 4, 8, 8] && [4, 4, 8, 8][..3] == [4, 4, 8] && [4, 4, 8][..2] == [4, 4];
    assert Sum([4, 4, 8]) == 16;
    assert Sum([4, 4, 8, 8]) == 24;
  }

  // ---------------------------------------------------------------- signed integers

  predicate Signed32Fits(n: int) { -0x8000_0000 <= n < 0x8000_0000 }

  /** n.to_bytes(4, 'little', signed=True) */
  function LeSigned(n: int): seq<byte>
    requires Signed32Fits(n)
  {
    Le(if n >= 0 then n else n + U32_LIMIT, 4)
  }

  /** int.from_bytes(s, 'little', signed=True) */
  function UnLeSigned(s: seq<byte>): int {
    if s != [] && s[|s| - 1] >= 128 then UnLe(s) - Pow256(|s|) else UnLe(s)
  }

  lemma SignedBack(bs: seq<byte>, n: int)
    requires Signed32Fits(n) && Holds(bs, 0, LeSigned(n))
    ensures UnLeSigned(Slice(bs, 0, 4)) == n
  {
    var u := if n >= 0 then n else n + U32_LIMIT;
    Pow256Values();
    HoldsSlice(bs, 0, Le(u, 4));
    UnLeOfLe(u, 4);
    TopByte(u);
  }

  lemma TopByte(u: nat)
    requires u < U32_LIMIT
    ensures Le(u, 4)[3] == u / 0x100_0000
  {
    assert Le(u, 4)[3] == u / 256 / 256 / 256 % 256;
  }

  // ---------------------------------------------------------------- what the setter accepts and writes

  /** A list of elements, or the integer 0 in its place. */
  predicate IsElements(val: PibValue) { val.List? || val == Number(0) }

  function ElementsOf(val: PibValue): IEList
    requires IsElements(val)
  {
    if val.List? then Given(val.l) else IEList(0, [])
  }

  predicate ValidPib(atr: int, val: PibValue) {
    match KindOf(atr)
    case Signed32 => val.Number? && Signed32Fits(val.n)
    case Unsigned64 => val.Number? && FitsWidth(val.n, 8)
    case Unsigned32 => val.Number? && FitsWidth(val.n, 4)
    case Octet(size) => val.Array? && ValidFixed(val.a, size)
    case Words(size) => val.Array? && ValidInts(Fit(val.a, size), Fours(size))
    case Record(size) => val.Fields? && ValidInts(val.ints, Fours(size))
    case Devices => val.Rows? && ValidRows(val.t.rows, val.t.count, DEVICE_WIDTHS)
    case SecurityLevels => val.Rows? && ValidRows(val.t.rows, val.t.count, SECURITY_WIDTHS)
    case Keys => val.KeyTab? && ValidKeyTable(val.keys)
    case Elements => IsElements(val) && ValidIEList(ElementsOf(val))
    case Slotframes => true
    case Links => true
    case Unknown => true
  }

  function EncPib(atr: int, val: PibValue): seq<byte>
    requires ValidPib(atr, val)
  {
    match KindOf(atr)
    case Signed32 => LeSigned(val.n)
    case Unsigned64 => Le(val.n, 8)
    case Unsigned32 => Le(val.n, 4)
    case Octet(size) => FixedOctets(val.a, size)
    case Words(size) => EncInts(Fit(val.a, size), Fours(size))
    case Record(size) => EncInts(val.ints, Fours(size))
    case Devices => EncCounted(val.t.rows, val.t.count, DEVICE_WIDTHS)
    case SecurityLevels => EncCounted(val.t.rows, val.t.count, SECURITY_WIDTHS)
    case Keys => EncKeyTable(val.keys)
    case Elements => EncIEList(ElementsOf(val))
    case Slotframes => Le(0, 4)
    case Links => Le(0, 4)
    case Unknown => []
  }

  /** DTS_setPIBAttributeValue. */
  method SetPib(atr: int, val: PibValue) returns (r: PyResult<seq<byte>>)
    ensures r == if ValidPib(atr, val) then Ok(EncPib(atr, val)) else Raises
  {
    hide KindOf, Le, ValidFixed, FixedOctets, ValidInts, EncInts, ValidRows, EncCounted, ValidKeyTable, EncKeyTable,
      ValidIEList, EncIEList, Signed32Fits, FitsWidth, LeSigned, Fit, Fours;
    r := Raises;
    match KindOf(atr)
    case Signed32 =>
      if val.Number? && Signed32Fits(val.n) {
        r := Ok(LeSigned(val.n));
      }
    case Unsigned64 =>
      if val.Number? {
        r := ToBytes(val.n, 8);
      }
    case Unsigned32 =>
      if val.Number? {
        r := ToBytes(val.n, 4);
      }
    case Octet(size) =>
      if val.Array? {
        r := SetFixed(val.a, size);
      }
    case Words(size) =>
      if val.Array? {
        r := SetInts(Fit(val.a, size), Fours(size));
      }
    case Record(size) =>
      if val.Fields? {
        r := SetInts(val.ints, Fours(size));
      }
    case Devices =>
      if val.Rows? {
        r := SetRows(val.t.rows, val.t.count, DEVICE_WIDTHS);
      }
    case SecurityLevels =>
      if val.Rows? {
        r := SetRows(val.t.rows, val.t.count, SECURITY_WIDTHS);
      }
    case Keys =>
      if val.KeyTab? {
        r := SetKeyTable(val.keys);
      }
    case Elements =>
      if IsElements(val) {
        r := SetPayloadIEList(if val.List? then val.l else None);
      }
    case Slotframes => r := Ok(Le(0, 4));
    case Links => r := Ok(Le(0, 4));
    case Unknown => r := Ok([]);
  }

  // ---------------------------------------------------------------- reading

  function DecPib(atr: int, bs: seq<byte>): PibValue {
    match KindOf(atr)
    case Signed32 => Number(UnLeSigned(Slice(bs, 0, 4)))
    case Unsigned64 => Number(GetInt(bs, 0, 8))
    case Unsigned32 => Number(GetInt(bs, 0, 4))
    case Octet(size) => Array(ReadOctets(bs, 0, size))
    case Words(size) => Array(GetInts(bs, 0, Fours(size)))
    case Record(size) => Fields(GetInts(bs, 0, Fours(size)))
    case Devices => Rows(DecCounted(bs, 0, DEVICE_WIDTHS).0)
    case SecurityLevels => Rows(DecCounted(bs, 0, SECURITY_WIDTHS).0)
    case Keys => KeyTab(DecKeyTable(bs))
    case Elements => List(Some(DecIEList(bs, true).0))
    case Slotframes => Rows(DecCounted(bs, 0, SLOTFRAME_WIDTHS).0)
    case Links => Rows(DecCounted(bs, 0, LINK_WIDTHS).0)
    case Unknown => Number(0)
  }

  /** DTS_getPIBAttributeValue. */
  method GetPib(atr: int, bs: seq<byte>) returns (val: PibValue)
    ensures val == DecPib(atr, bs)
  {
    hide KindOf, GetInt, GetInts, ReadOctets, DecCounted, DecKeyTable, DecIEList, UnLeSigned;
    var t, be;
    match KindOf(atr)
    case Signed32 => val := Number(UnLeSigned(Slice(bs, 0, 4)));
    case Unsigned64 => val := Number(GetInt(bs, 0, 8));
    case Unsigned32 => val := Number(GetInt(bs, 0, 4));
    case Octet(size) =>
      var a;
      a, be := GetOctets(bs, 0, size);
      val := Array(a);
    case Words(size) => val := Array(GetInts(bs, 0, Fours(size)));
    case Record(size) => val := Fields(GetInts(bs, 0, Fours(size)));
    case Devices =>
      t, be := GetRows(bs, 0, DEVICE_WIDTHS);
      val := Rows(t);
    case SecurityLevels =>
      t, be := GetRows(bs, 0, SECURITY_WIDTHS);
      val := Rows(t);
    case Slotframes =>
      t, be := GetRows(bs, 0, SLOTFRAME_WIDTHS);
      val := Rows(t);
    case Links =>
      t, be := GetRows(bs, 0, LINK_WIDTHS);
      val := Rows(t);
    case Keys =>
      var k := GetKeyTable(bs);
      val := KeyTab(k);
    case Elements =>
      var l;
      l, be := GetPayloadIEList(bs, true);
      val := List(Some(l));
    case Unknown => val := Number(0);
  }

  // ---------------------------------------------------------------- what comes back

  /** What a written value reads back as: counted, cut and filled up; nothing of slotframes and links. */
  function KeptPib(atr: int, val: PibValue): PibValue
    requires ValidPib(atr, val)
  {
    match KindOf(atr)
    case Signed32 => val
    case Unsigned64 => val
    case Unsigned32 => val
    case Octet(size) => Array(Fit(val.a, size))
    case Words(size) => Array(Fit(val.a, size))
    case Record(size) => val
    case Devices => Rows(RowTable(val.t.count, val.t.rows[..val.t.count]))
    case SecurityLevels => Rows(RowTable(val.t.count, val.t.rows[..val.t.count]))
    case Keys => KeyTab(KeptTable(val.keys))
    case Elements => List(Some(Kept(ElementsOf(val), true)))
    case Slotframes => Rows(RowTable(0, []))
    case Links => Rows(RowTable(0, []))
    case Unknown => Number(0)
  }

  lemma ZeroCountBack(bs: seq<byte>, widths: seq<nat>)
    requires Holds(bs, 0, Le(0, 4))
    ensures DecCounted(bs, 0, widths).0 == RowTable(0, [])
  {
    Pow256Values();
    GetIntBack(bs, 0, 0, 4);
  }

  /** Reading an attribute back, whatever follows it, for every attribute number. */
  lemma {:induction false} PibBack(atr: int, val: PibValue, tail: seq<byte>)
    requires ValidPib(atr, val)
    ensures DecPib(atr, EncPib(atr, val) + tail) == KeptPib(atr, val)
  {
    hide KindOf, Le, Holds, ValidFixed, FixedOctets, ValidInts, EncInts, ValidRows, EncCounted, ValidKeyTable,
      EncKeyTable, ValidIEList, EncIEList, LeSigned, Fours, ElementsOf, GetInt, GetInts, ReadOctets, DecCounted,
      DecKeyTable, DecIEList, UnLeSigned, Slice, Kept, KeptTable, Fit;
    var e := EncPib(atr, val);
    var bs := e + tail;
    HoldsPrefix(e, tail);
    match KindOf(atr)
    case Signed32 => SignedBack(bs, val.n);
    case Unsigned64 => GetIntBack(bs, 0, val.n, 8);
    case Unsigned32 => GetIntBack(bs, 0, val.n, 4);
    case Octet(size) => FixedBack(bs, 0, val.a, size);
    case Words(size) => GetIntsBack(bs, 0, Fit(val.a, size), Fours(size));
    case Record(size) => GetIntsBack(bs, 0, val.ints, Fours(size));
    case Devices =>
      assert ValidRows(val.t.rows, val.t.count, DEVICE_WIDTHS);
      CountedBack(bs, 0, val.t.rows, val.t.count, DEVICE_WIDTHS);
    case SecurityLevels =>
      CountedBack(bs, 0, val.t.rows, val.t.count, SECURITY_WIDTHS);
    case Keys => KeyTableBack(val.keys, tail);
    case Elements => IEListBack(ElementsOf(val), tail, true);
    case Slotframes => ZeroCountBack(bs, SLOTFRAME_WIDTHS);
    case Links => ZeroCountBack(bs, LINK_WIDTHS);
    case Unknown =>
  }

  /** Every encoded attribute is a whole number of words. */
  lemma {:induction false} PibWords(atr: int, val: PibValue)
    requires ValidPib(atr, val)
    ensures |EncPib(atr, val)| % 4 == 0
  {
    hide Le, ValidFixed, FixedOctets, ValidInts, EncInts, EncCounted, ValidKeyTable, EncKeyTable, ValidIEList,
      EncIEList, ElementsOf, Fit;
    WidthSums();
    FoursSum(FTDF_MAX_HOPPING_SEQUENCE_LENGTH);
    FoursSum(12);
    FoursSum(13);
    match KindOf(atr)
    case Devices => CountedLength(val.t.rows, val.t.count, DEVICE_WIDTHS);
    case SecurityLevels => CountedLength(val.t.rows, val.t.count, SECURITY_WIDTHS);
    case Keys => KeyTableWords(val.keys);
    case Elements => IEListWords(ElementsOf(val));
    case _ =>
  }

  // ---------------------------------------------------------------- decoded values

  lemma DecodedSigned(s: seq<byte>)
    requires |s| <= 4
    ensures Signed32Fits(UnLeSigned(s))
  {
    if s != [] {
      var k := |s| - 1;
      TopDigit(s);
      HalfRange(s[k], UnLe(s), Pow256(k));
      Pow256Grows(k, 3);
      assert Pow256(3) == 256 * Pow256(2) && Pow256(2) == 256 * Pow256(1) && Pow256(1) == 256;
    }
  }

  lemma HalfRange(d: byte, n: nat, p: nat)
    requires d * p <= n < (d + 1) * p
    ensures d < 128 ==> n < 128 * p
    ensures d >= 128 ==> 128 * p <= n < 256 * p
  {
    if d < 128 {
      Scale(d + 1, 128, p);
    } else {
      Scale(128, d, p);
      Scale(d + 1, 256, p);
    }
  }

  lemma Scale(a: nat, b: nat, p: nat)
    requires a <= b
    ensures a * p <= b * p
  {
    assert b * p == a * p + (b - a) * p;
  }

  /** The last byte of a little-endian integer is its most significant digit. */
  lemma {:induction false} TopDigit(s: seq<byte>)
    requires s != []
    ensures var k := |s| - 1;
            s[k] * Pow256(k) <= UnLe(s) < (s[k] + 1) * Pow256(k)
    decreases |s|
  {
    var k := |s| - 1;
    if k == 0 {
      assert s[1..] == [];
    } else {
      TopDigit(s[1..]);
      Scaled(s[0], UnLe(s[1..]), s[k], Pow256(k - 1));
    }
  }

  lemma Scaled(low: byte, high: nat, d: nat, p: nat)
    requires d * p <= high < (d + 1) * p
    ensures d * (256 * p) <= low + 256 * high < (d + 1) * (256 * p)
  {
    assert d * (256 * p) == 256 * (d * p) && (d + 1) * (256 * p) == 256 * ((d + 1) * p);
  }

  lemma DecodedOctets(bs: seq<byte>, size: nat)
    ensures ValidFixed(ReadOctets(bs, 0, size), size) && Fit(ReadOctets(bs, 0, size), size) == ReadOctets(bs, 0, size)
  {}

  /** Slotframe and link tables are written as empty. */
  predicate Forgotten(atr: int, val: PibValue) {
    (KindOf(atr) == Slotframes || KindOf(atr) == Links) && val.Rows? && val.t.count != 0
  }

  /** Whatever an attribute decodes to is accepted by the setter. */
  lemma DecodedIsValid(atr: int, bs: seq<byte>)
    ensures ValidPib(atr, DecPib(atr, bs))
    ensures KeptPib(atr, DecPib(atr, bs)) == DecPib(atr, bs) <==> !Forgotten(atr, DecPib(atr, bs))
  {
    hide KindOf, ValidFixed, ValidInts, ValidRows, ValidKeyTable, ValidIEList, Signed32Fits, FitsWidth, Fours,
      GetInt, GetInts, ReadOctets, DecCounted, DecKeyTable, DecIEList, UnLeSigned, Slice, Kept, KeptTable, Fit,
      Exact;
    match KindOf(atr)
    case Signed32 => DecodedSigned(Slice(bs, 0, 4));
    case Unsigned64 => GetIntFits(bs, 0, 8);
    case Unsigned32 => GetIntFits(bs, 0, 4);
    case Octet(size) => DecodedOctets(bs, size);
    case Words(size) =>
      GetIntsFit(bs, 0, Fours(size));
      assert Fit(GetInts(bs, 0, Fours(size)), size) == GetInts(bs, 0, Fours(size));
    case Record(size) => GetIntsFit(bs, 0, Fours(size));
    case Devices => DecodedTable(bs, DEVICE_WIDTHS);
    case SecurityLevels => DecodedTable(bs, SECURITY_WIDTHS);
    case Keys => DecodedKeyTable(bs);
    case Elements => DecodedElements(bs);
    case Slotframes => DecodedTable(bs, SLOTFRAME_WIDTHS);
    case Links => DecodedTable(bs, LINK_WIDTHS);
    case Unknown =>
  }

  lemma DecodedTable(bs: seq<byte>, widths: seq<nat>)
    ensures var t := DecCounted(bs, 0, widths).0;
            && ValidRows(t.rows, t.count, widths) && RowTable(t.count, t.rows[..t.count]) == t
            && (t.count == 0 ==> t == RowTable(0, []))
  {
    hide ValidInts, DecCounted;
    DecodedCounted(bs, 0, widths);
    Whole(DecCounted(bs, 0, widths).0.rows, DecCounted(bs, 0, widths).0.count);
  }

  lemma DecodedElements(bs: seq<byte>)
    ensures var v := DecIEList(bs, true).0; ValidIEList(v) && Kept(v, true) == v
  {
    hide ValidIEList, DecIEList, Kept;
    DecodedIsExact(bs, true);
  }

  /**
    * Decode, encode, decode: an attribute is found again as it was found first, unless it is a
    * slotframe or link table with entries, which the setter drops.
    */
  lemma PibStable(atr: int, bs: seq<byte>, tail: seq<byte>)
    ensures ValidPib(atr, DecPib(atr, bs))
    ensures DecPib(atr, EncPib(atr, DecPib(atr, bs)) + tail) == DecPib(atr, bs) <==> !Forgotten(atr, DecPib(atr, bs))
  {
    hide DecPib, EncPib, ValidPib, KeptPib, Forgotten;
    DecodedIsValid(atr, bs);
    PibBack(atr, DecPib(atr, bs), tail);
  }
}
