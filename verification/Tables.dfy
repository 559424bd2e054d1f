/**
  * The counted tables of the PIB. Device, security-level, slotframe and link tables are lists
  * of fixed integer records; the key table nests three counted lists in every entry.
  */
module Tables {
  import opened Bytes
  import opened Fields

  // ---------------------------------------------------------------- lists of integer records

  /** A dictionary with a count and a list; each row holds one record's fields in wire order. */
  datatype RowTable = RowTable(count: int, rows: seq<seq<int>>)

  predicate ValidRows(rows: seq<seq<int>>, n: int, widths: seq<nat>) {
    && U32(n) && n <= |rows|
    && forall i :: 0 <= i < n ==> ValidInts(rows[i], widths)
  }

  function EncRows(rows: seq<seq<int>>, n: nat, widths: seq<nat>): seq<byte>
    requires n <= |rows| && forall i :: 0 <= i < n ==> ValidInts(rows[i], widths)
    decreases n
  {
    if n == 0 then [] else EncRows(rows, n - 1, widths) + EncInts(rows[n - 1], widths)
  }

  /** A count and as many records. */
  function EncCounted(rows: seq<seq<int>>, n: int, widths: seq<nat>): seq<byte>
    requires ValidRows(rows, n, widths)
  {
    Le(n, 4) + EncRows(rows, n, widths)
  }

  /** The common shape of DTS_setDeviceTable and DTS_setSecurityLevelTable. */
  method SetRows(rows: seq<seq<int>>, n: int, widths: seq<nat>) returns (r: PyResult<seq<byte>>)
    ensures r == if ValidRows(rows, n, widths) then Ok(EncCounted(rows, n, widths)) else Raises
  {
    hide ValidInts, EncInts;
    if !U32(n) {
      return Raises;
    }
    var out: seq<byte> := Le(n, 4);
    var i := 0;
    while i < n
      invariant 0 <= i <= n && i <= |rows|
      invariant forall k :: 0 <= k < i ==> ValidInts(rows[k], widths)
      invariant out == Le(n, 4) + EncRows(rows, i, widths)
    {
      if i >= |rows| {
        return Raises;
      }
      var row := SetInts(rows[i], widths);
      if row.Raises? {
        return Raises;
      }
      out := out + row.value;
      i := i + 1;
    }
    return Ok(out);
  }

  function DecRows(bs: seq<byte>, be: nat, n: nat, widths: seq<nat>): (r: (seq<seq<int>>, nat))
    ensures |r.0| == n
    decreases n
  {
    if n == 0 then ([], be)
    else
      var (front, at) := DecRows(bs, be, n - 1, widths);
      (front + [GetInts(bs, at, widths)], at + Sum(widths))
  }

  function DecCounted(bs: seq<byte>, be: nat, widths: seq<nat>): (RowTable, nat) {
    var n := GetInt(bs, be, 4);
    var (rows, end) := DecRows(bs, be + 4, n, widths);
    (RowTable(n, rows), end)
  }

  /** The common shape of DTS_getDeviceTable, DTS_getSecurityLevelTable, DTS_getSlotframeTable and DTS_getLinkTable. */
  method GetRows(bs: seq<byte>, be0: nat, widths: seq<nat>) returns (t: RowTable, be: nat)
    ensures (t, be) == DecCounted(bs, be0, widths)
  {
    hide GetInts;
    be := be0;
    var n := GetInt(bs, be, 4);
    be := be + 4;
    var rows: seq<seq<int>> := [];
    var i := 0;
    while i < n
      invariant 0 <= i <= n && (rows, be) == DecRows(bs, be0 + 4, i, widths)
    {
      rows := rows + [GetInts(bs, be, widths)];
      be := be + Sum(widths);
      i := i + 1;
    }
    t := RowTable(n, rows);
  }

  lemma {:induction false} RowsBack(bs: seq<byte>, be: nat, rows: seq<seq<int>>, n: nat, widths: seq<nat>)
    requires n <= |rows| && forall i :: 0 <= i < n ==> ValidInts(rows[i], widths)
    requires Holds(bs, be, EncRows(rows, n, widths))
    ensures DecRows(bs, be, n, widths) == (rows[..n], be + |EncRows(rows, n, widths)|)
    decreases n
  {
    hide Holds, GetInts, ValidInts, EncInts;
    if n != 0 {
      HoldsAppend(bs, be, EncRows(rows, n - 1, widths), EncInts(rows[n - 1], widths));
      RowsBack(bs, be, rows, n - 1, widths);
      GetIntsBack(bs, be + |EncRows(rows, n - 1, widths)|, rows[n - 1], widths);
      assert rows[..n] == rows[..n - 1] + [rows[n - 1]];
    }
  }

  /** Reading a counted table back returns the counted rows and ends where the writing ended. */
  lemma {:induction false} CountedBack(bs: seq<byte>, be: nat, rows: seq<seq<int>>, n: int, widths: seq<nat>)
    requires ValidRows(rows, n, widths) && Holds(bs, be, EncCounted(rows, n, widths))
    ensures DecCounted(bs, be, widths) == (RowTable(n, rows[..n]), be + |EncCounted(rows, n, widths)|)
  {
    hide Holds, GetInts, ValidInts, GetInt, Le, EncRows, DecRows;
    HoldsAppend(bs, be, Le(n, 4), EncRows(rows, n, widths));
    U32Fits(n);
    GetIntBack(bs, be, n, 4);
    RowsBack(bs, be + 4, rows, n, widths);
  }

  lemma {:induction false} RowsLength(rows: seq<seq<int>>, n: nat, widths: seq<nat>)
    requires n <= |rows| && forall i :: 0 <= i < n ==> ValidInts(rows[i], widths)
    requires Sum(widths) % 4 == 0
    ensures |EncRows(rows, n, widths)| % 4 == 0
    decreases n
  {
    hide ValidInts, EncInts;
    if n != 0 {
      RowsLength(rows, n - 1, widths);
      WordSum(|EncRows(rows, n - 1, widths)|, Sum(widths));
    }
  }

  lemma CountedLength(rows: seq<seq<int>>, n: int, widths: seq<nat>)
    requires ValidRows(rows, n, widths) && Sum(widths) % 4 == 0
    ensures |EncCounted(rows, n, widths)| % 4 == 0
  {
    hide ValidInts, EncRows, Le;
    RowsLength(rows, n, widths);
    WordSum(4, |EncRows(rows, n, widths)|);
  }

  lemma {:induction false} DecodedRows(bs: seq<byte>, be: nat, n: nat, widths: seq<nat>, i: nat)
    requires i < n
    ensures ValidInts(DecRows(bs, be, n, widths).0[i], widths)
    decreases n
  {
    hide GetInts, ValidInts, Sum;
    if i == n - 1 {
      GetIntsFit(bs, DecRows(bs, be, n - 1, widths).1, widths);
    } else {
      DecodedRows(bs, be, n - 1, widths, i);
    }
  }

  lemma DecodedCounted(bs: seq<byte>, be: nat, widths: seq<nat>)
    ensures var t := DecCounted(bs, be, widths).0; ValidRows(t.rows, t.count, widths) && |t.rows| == t.count
  {
    hide ValidInts, GetInt, DecRows;
    GetU32(bs, be);
    var t := DecCounted(bs, be, widths).0;
    forall i | 0 <= i < t.count ensures ValidInts(t.rows[i], widths) {
      DecodedRows(bs, be + 4, t.count, widths, i);
    }
  }

  /** Whatever a table decodes to is accepted by the setter and decodes to itself again. */
  lemma RowsStable(bs: seq<byte>, be: nat, widths: seq<nat>, tail: seq<byte>)
    ensures var t := DecCounted(bs, be, widths).0;
            && ValidRows(t.rows, t.count, widths)
            && DecCounted(EncCounted(t.rows, t.count, widths) + tail, 0, widths).0 == t
  {
    hide EncCounted, DecCounted, ValidRows, Holds;
    DecodedCounted(bs, be, widths);
    var t := DecCounted(bs, be, widths).0;
    var e := EncCounted(t.rows, t.count, widths);
    HoldsPrefix(e, tail);
    CountedBack(e + tail, 0, t.rows, t.count, widths);
    Whole(t.rows, t.count);
  }

  lemma Whole<T>(s: seq<T>, n: nat)
    requires n == |s|
    ensures s[..n] == s
  {}

  // ---------------------------------------------------------------- the key table

  datatype KeyIdLookup = KeyIdLookup(keyIdMode: int, keySource: seq<int>, keyIndex: int, deviceAddrMode: int,
                                     devicePANId: int, deviceAddress: int)

  /** Handles are rows of one integer, usages rows of frame type and command frame id. */
  datatype KeyDescriptor = KeyDescriptor(nrOfLookups: int, lookups: seq<KeyIdLookup>,
                                         nrOfHandles: int, handles: seq<seq<int>>,
                                         nrOfUsages: int, usages: seq<seq<int>>, key: seq<int>)

  datatype KeyTable = KeyTable(nrOfKeys: int, keys: seq<KeyDescriptor>)

  const LOOKUP_WIDTHS: seq<nat> := [4, 4, 4, 8]
  const HANDLE_WIDTHS: seq<nat> := [4]
  const USAGE_WIDTHS: seq<nat> := [4, 4]

  lemma KeyWidths()
    ensures Sum(LOOKUP_WIDTHS) == 20 && Sum(HANDLE_WIDTHS) == 4 && Sum(USAGE_WIDTHS) == 8
  {
    assert LOOKUP_WIDTHS[..3] == [4, 4, 4] && [4, 4, 4][..2] == [4, 4] && [4, 4][..1] == [4] && [4][..0] == [];
    assert Sum([4]) == 4;
    assert Sum([4, 4]) == 8;
    assert Sum([4, 4, 4]) == 12;
  }

  function LookupInts(k: KeyIdLookup): seq<int> {
    [k.keyIndex, k.deviceAddrMode, k.devicePANId, k.deviceAddress]
  }

  predicate ValidLookup(k: KeyIdLookup) {
    U32(k.keyIdMode) && ValidFixed(k.keySource, 8) && ValidInts(LookupInts(k), LOOKUP_WIDTHS)
  }

  predicate ValidLookups(s: seq<KeyIdLookup>, n: int) {
    U32(n) && n <= |s| && forall i :: 0 <= i < n ==> ValidLookup(s[i])
  }

  predicate ValidKey(k: KeyDescriptor) {
    && ValidLookups(k.lookups, k.nrOfLookups)
    && ValidRows(k.handles, k.nrOfHandles, HANDLE_WIDTHS)
    && ValidRows(k.usages, k.nrOfUsages, USAGE_WIDTHS)
    && ValidFixed(k.key, 16)
  }

  predicate ValidKeyTable(t: KeyTable) {
    U32(t.nrOfKeys) && t.nrOfKeys <= |t.keys| && forall i :: 0 <= i < t.nrOfKeys ==> ValidKey(t.keys[i])
  }

  function EncLookup(k: KeyIdLookup): seq<byte>
    requires ValidLookup(k)
  {
    Le(k.keyIdMode, 4) + FixedOctets(k.keySource, 8) + EncInts(LookupInts(k), LOOKUP_WIDTHS)
  }

  function EncLookups(s: seq<KeyIdLookup>, n: nat): seq<byte>
    requires n <= |s| && forall i :: 0 <= i < n ==> ValidLookup(s[i])
    decreases n
  {
    if n == 0 then [] else EncLookups(s, n - 1) + EncLookup(s[n - 1])
  }

  function EncKey(k: KeyDescriptor): seq<byte>
    requires ValidKey(k)
  {
    Le(k.nrOfLookups, 4) + EncLookups(k.lookups, k.nrOfLookups)
    + EncCounted(k.handles, k.nrOfHandles, HANDLE_WIDTHS)
    + EncCounted(k.usages, k.nrOfUsages, USAGE_WIDTHS)
    + FixedOctets(k.key, 16)
  }

  function EncKeys(s: seq<KeyDescriptor>, n: nat): seq<byte>
    requires n <= |s| && forall i :: 0 <= i < n ==> ValidKey(s[i])
    decreases n
  {
    if n == 0 then [] else EncKeys(s, n - 1) + EncKey(s[n - 1])
  }

  function EncKeyTable(t: KeyTable): seq<byte>
    requires ValidKeyTable(t)
  {
    Le(t.nrOfKeys, 4) + EncKeys(t.keys, t.nrOfKeys)
  }

  // the setter

  method SetLookup(k: KeyIdLookup) returns (r: PyResult<seq<byte>>)
    ensures r == if ValidLookup(k) then Ok(EncLookup(k)) else Raises
  {
    hide Le, EncInts, ValidInts, FixedOctets, ValidFixed, LookupInts;
    if !U32(k.keyIdMode) {
      return Raises;
    }
    var source := SetFixed(k.keySource, 8);
    if source.Raises? {
      return Raises;
    }
    var ints := SetInts(LookupInts(k), LOOKUP_WIDTHS);
    if ints.Raises? {
      return Raises;
    }
    return Ok(Le(k.keyIdMode, 4) + source.value + ints.value);
  }

  method SetLookups(s: seq<KeyIdLookup>, n: int) returns (r: PyResult<seq<byte>>)
    ensures r == if ValidLookups(s, n) then Ok(Le(n, 4) + EncLookups(s, n)) else Raises
  {
    hide ValidLookup, EncLookup;
    if !U32(n) {
      return Raises;
    }
    var out: seq<byte> := Le(n, 4);
    var j := 0;
    while j < n
      invariant 0 <= j <= n && j <= |s|
      invariant forall i :: 0 <= i < j ==> ValidLookup(s[i])
      invariant out == Le(n, 4) + EncLookups(s, j)
    {
      if j >= |s| {
        return Raises;
      }
      var lookup := SetLookup(s[j]);
      if lookup.Raises? {
        return Raises;
      }
      out := out + lookup.value;
      j := j + 1;
    }
    return Ok(out);
  }

  method SetKey(k: KeyDescriptor) returns (r: PyResult<seq<byte>>)
    ensures r == if ValidKey(k) then Ok(EncKey(k)) else Raises
  {
    hide Le, ValidLookups, EncLookups, ValidRows, EncCounted, ValidFixed, FixedOctets;
    var lookups := SetLookups(k.lookups, k.nrOfLookups);
    if lookups.Raises? {
      return Raises;
    }
    var handles := SetRows(k.handles, k.nrOfHandles, HANDLE_WIDTHS);
    if handles.Raises? {
      return Raises;
    }
    var usages := SetRows(k.usages, k.nrOfUsages, USAGE_WIDTHS);
    if usages.Raises? {
      return Raises;
    }
    var key := SetFixed(k.key, 16);
    if key.Raises? {
      return Raises;
    }
    return Ok(lookups.value + handles.value + usages.value + key.value);
  }

  /** DTS_setKeyTable. */
  method SetKeyTable(t: KeyTable) returns (r: PyResult<seq<byte>>)
    ensures r == if ValidKeyTable(t) then Ok(EncKeyTable(t)) else Raises
  {
    hide ValidKey, EncKey, Le;
    if !U32(t.nrOfKeys) {
      return Raises;
    }
    var out: seq<byte> := Le(t.nrOfKeys, 4);
    var i := 0;
    while i < t.nrOfKeys
      invariant 0 <= i <= t.nrOfKeys && i <= |t.keys|
      invariant forall k :: 0 <= k < i ==> ValidKey(t.keys[k])
      invariant out == Le(t.nrOfKeys, 4) + EncKeys(t.keys, i)
    {
      if i >= |t.keys| {
        return Raises;
      }
      var key := SetKey(t.keys[i]);
      if key.Raises? {
        return Raises;
      }
      out := out + key.value;
      i := i + 1;
    }
    return Ok(out);
  }

  // the getter

  function DecLookup(bs: seq<byte>, be: nat): KeyIdLookup {
    var ints := GetInts(bs, be + 12, LOOKUP_WIDTHS);
    KeyIdLookup(GetInt(bs, be, 4), ReadOctets(bs, be + 4, 8), ints[0], ints[1], ints[2], ints[3])
  }

  function DecLookups(bs: seq<byte>, be: nat, n: nat): (s: seq<KeyIdLookup>)
    ensures |s| == n
    decreases n
  {
    if n == 0 then [] else DecLookups(bs, be, n - 1) + [DecLookup(bs, be + 32 * (n - 1))]
  }

  function DecKey(bs: seq<byte>, be: nat): (KeyDescriptor, nat) {
    var n := GetInt(bs, be, 4);
    var be1 := be + 4 + 32 * n;
    var (handles, be2) := DecCounted(bs, be1, HANDLE_WIDTHS);
    var (usages, be3) := DecCounted(bs, be2, USAGE_WIDTHS);
    (KeyDescriptor(n, DecLookups(bs, be + 4, n), handles.count, handles.rows, usages.count, usages.rows,
                   ReadOctets(bs, be3, 16)),
     be3 + 16)
  }

  function DecKeys(bs: seq<byte>, be: nat, n: nat): (r: (seq<KeyDescriptor>, nat))
    ensures |r.0| == n
    decreases n
  {
    if n == 0 then ([], be)
    else
      var (front, at) := DecKeys(bs, be, n - 1);
      var (k, end) := DecKey(bs, at);
      (front + [k], end)
  }

  function DecKeyTable(bs: seq<byte>): KeyTable {
    var n := GetInt(bs, 0, 4);
    KeyTable(n, DecKeys(bs, 4, n).0)
  }

  method GetLookup(bs: seq<byte>, be0: nat) returns (k: KeyIdLookup, be: nat)
    ensures k == DecLookup(bs, be0) && be == be0 + 32
  {
    hide GetInt, GetInts, ReadOctets;
    be := be0;
    var keyIdMode := GetInt(bs, be, 4);
    be := be + 4;
    var keySource;
    keySource, be := GetOctets(bs, be, 8);
    var ints := GetInts(bs, be, LOOKUP_WIDTHS);
    be := be + 20;
    k := KeyIdLookup(keyIdMode, keySource, ints[0], ints[1], ints[2], ints[3]);
  }

  method GetLookups(bs: seq<byte>, be0: nat, n: nat) returns (s: seq<KeyIdLookup>, be: nat)
    ensures s == DecLookups(bs, be0, n) && be == be0 + 32 * n
  {
    hide DecLookup;
    s, be := [], be0;
    var j := 0;
    while j < n
      invariant 0 <= j <= n && s == DecLookups(bs, be0, j) && be == be0 + 32 * j
    {
      var lookup;
      lookup, be := GetLookup(bs, be);
      s := s + [lookup];
      j := j + 1;
    }
  }

  method GetKey(bs: seq<byte>, be0: nat) returns (k: KeyDescriptor, be: nat)
    ensures (k, be) == DecKey(bs, be0)
  {
    hide GetInt, DecLookups, DecCounted, ReadOctets;
    be := be0;
    var nrOfLookups := GetInt(bs, be, 4);
    be := be + 4;
    var lookups, handles, usages, key;
    lookups, be := GetLookups(bs, be, nrOfLookups);
    handles, be := GetRows(bs, be, HANDLE_WIDTHS);
    usages, be := GetRows(bs, be, USAGE_WIDTHS);
    key, be := GetOctets(bs, be, 16);
    k := KeyDescriptor(nrOfLookups, lookups, handles.count, handles.rows, usages.count, usages.rows, key);
  }

  /** DTS_getKeyTable. */
  method GetKeyTable(bs: seq<byte>) returns (t: KeyTable)
    ensures t == DecKeyTable(bs)
  {
    hide DecKey;
    var nrOfKeys := GetInt(bs, 0, 4);
    var be := 4;
    var keys: seq<KeyDescriptor> := [];
    var i := 0;
    while i < nrOfKeys
      invariant 0 <= i <= nrOfKeys && (keys, be) == DecKeys(bs, 4, i)
    {
      var k;
      k, be := GetKey(bs, be);
      keys := keys + [k];
      i := i + 1;
    }
    t := KeyTable(nrOfKeys, keys);
  }

  // ---------------------------------------------------------------- what comes back

  function KeptLookup(k: KeyIdLookup): KeyIdLookup {
    k.(keySource := Fit(k.keySource, 8))
  }

  function KeptLookups(s: seq<KeyIdLookup>, n: nat): (r: seq<KeyIdLookup>)
    requires n <= |s|
    ensures |r| == n && forall i :: 0 <= i < n ==> r[i] == KeptLookup(s[i])
  {
    seq(n, i requires 0 <= i < n => KeptLookup(s[i]))
  }

  function KeptKey(k: KeyDescriptor): KeyDescriptor
    requires ValidKey(k)
  {
    k.(lookups := KeptLookups(k.lookups, k.nrOfLookups),
       handles := k.handles[..k.nrOfHandles], usages := k.usages[..k.nrOfUsages], key := Fit(k.key, 16))
  }

  /** Every list cut to its count, every keySource made 8 bytes long and every key 16. */
  function KeptTable(t: KeyTable): (r: KeyTable)
    requires ValidKeyTable(t)
    ensures r.nrOfKeys == t.nrOfKeys == |r.keys| && forall i :: 0 <= i < t.nrOfKeys ==> r.keys[i] == KeptKey(t.keys[i])
  {
    t.(keys := seq(t.nrOfKeys, i requires 0 <= i < t.nrOfKeys => KeptKey(t.keys[i])))
  }

  lemma {:induction false} LookupBack(bs: seq<byte>, be: nat, k: KeyIdLookup)
    requires ValidLookup(k) && Holds(bs, be, EncLookup(k))
    ensures DecLookup(bs, be) == KeptLookup(k) && |EncLookup(k)| == 32
  {
    hide Le, Holds, GetInt, GetInts, ReadOctets, ValidInts, ValidFixed, FixedOctets, EncInts;
    var a, b, c := Le(k.keyIdMode, 4), FixedOctets(k.keySource, 8), EncInts(LookupInts(k), LOOKUP_WIDTHS);
    KeyWidths();
    HoldsAppend(bs, be, a + b, c);
    HoldsAppend(bs, be, a, b);
    U32Fits(k.keyIdMode);
    GetIntBack(bs, be, k.keyIdMode, 4);
    FixedBack(bs, be + 4, k.keySource, 8);
    GetIntsBack(bs, be + 12, LookupInts(k), LOOKUP_WIDTHS);
  }

  lemma {:induction false} LookupsBack(bs: seq<byte>, be: nat, s: seq<KeyIdLookup>, n: nat)
    requires n <= |s| && forall i :: 0 <= i < n ==> ValidLookup(s[i])
    requires Holds(bs, be, EncLookups(s, n))
    ensures |EncLookups(s, n)| == 32 * n
    ensures DecLookups(bs, be, n) == KeptLookups(s, n)
    decreases n
  {
    hide Holds, DecLookup, EncLookup, ValidLookup, KeptLookup;
    if n != 0 {
      HoldsAppend(bs, be, EncLookups(s, n - 1), EncLookup(s[n - 1]));
      LookupsBack(bs, be, s, n - 1);
      LookupBack(bs, be + 32 * (n - 1), s[n - 1]);
      assert KeptLookups(s, n) == KeptLookups(s, n - 1) + [KeptLookup(s[n - 1])];
    }
  }

  lemma {:induction false} KeyBack(bs: seq<byte>, be: nat, k: KeyDescriptor)
    requires ValidKey(k) && Holds(bs, be, EncKey(k))
    ensures DecKey(bs, be) == (KeptKey(k), be + |EncKey(k)|)
  {
    hide Le, Holds, GetInt, ReadOctets, ValidFixed, FixedOctets, ValidRows, EncCounted, DecCounted, ValidLookup,
      EncLookups, DecLookups, KeptLookups;
    var n := k.nrOfLookups;
    var a, b := Le(n, 4), EncLookups(k.lookups, n);
    var c, d := EncCounted(k.handles, k.nrOfHandles, HANDLE_WIDTHS), EncCounted(k.usages, k.nrOfUsages, USAGE_WIDTHS);
    var e := FixedOctets(k.key, 16);
    HoldsAppend(bs, be, a + b + c + d, e);
    HoldsAppend(bs, be, a + b + c, d);
    HoldsAppend(bs, be, a + b, c);
    HoldsAppend(bs, be, a, b);
    U32Fits(n);
    GetIntBack(bs, be, n, 4);
    LookupsBack(bs, be + 4, k.lookups, n);
    CountedBack(bs, be + 4 + 32 * n, k.handles, k.nrOfHandles, HANDLE_WIDTHS);
    CountedBack(bs, be + 4 + 32 * n + |c|, k.usages, k.nrOfUsages, USAGE_WIDTHS);
    FixedBack(bs, be + 4 + 32 * n + |c| + |d|, k.key, 16);
  }

  lemma {:induction false} KeysBack(bs: seq<byte>, be: nat, t: KeyTable, n: nat)
    requires ValidKeyTable(t) && n <= t.nrOfKeys
    requires Holds(bs, be, EncKeys(t.keys, n))
    ensures DecKeys(bs, be, n) == (KeptTable(t).keys[..n], be + |EncKeys(t.keys, n)|)
    decreases n
  {
    hide Holds, DecKey, EncKey, ValidKey, KeptKey;
    if n != 0 {
      HoldsAppend(bs, be, EncKeys(t.keys, n - 1), EncKey(t.keys[n - 1]));
      KeysBack(bs, be, t, n - 1);
      KeyBack(bs, be + |EncKeys(t.keys, n - 1)|, t.keys[n - 1]);
      var k := KeptTable(t).keys;
      assert k[..n] == k[..n - 1] + [k[n - 1]];
    }
  }

  /** Reading an encoded key table, whatever follows it, returns its counted and fitted form. */
  lemma {:induction false} KeyTableBack(t: KeyTable, tail: seq<byte>)
    requires ValidKeyTable(t)
    ensures DecKeyTable(EncKeyTable(t) + tail) == KeptTable(t)
  {
    hide Le, Holds, GetInt, EncKeys, DecKeys, KeptTable, ValidKey;
    var bs := EncKeyTable(t) + tail;
    assert Holds(bs, 0, EncKeyTable(t)) by { HoldsPrefix(EncKeyTable(t), tail); }
    HoldsAppend(bs, 0, Le(t.nrOfKeys, 4), EncKeys(t.keys, t.nrOfKeys));
    U32Fits(t.nrOfKeys);
    GetIntBack(bs, 0, t.nrOfKeys, 4);
    KeysBack(bs, 4, t, t.nrOfKeys);
    assert KeptTable(t).keys[..t.nrOfKeys] == KeptTable(t).keys;
  }

  lemma KeptKeyAgain(k: KeyDescriptor)
    requires ValidKey(k)
    ensures ValidKey(KeptKey(k)) && KeptKey(KeptKey(k)) == KeptKey(k)
  {
    hide ValidInts;
    var r := KeptKey(k);
    assert forall i :: 0 <= i < r.nrOfLookups ==> KeptLookup(r.lookups[i]) == r.lookups[i];
    assert forall i :: 0 <= i < r.nrOfLookups ==> ValidLookup(r.lookups[i]) by {
      forall i | 0 <= i < r.nrOfLookups ensures ValidLookup(r.lookups[i]) {
        assert ValidLookup(k.lookups[i]);
        assert LookupInts(r.lookups[i]) == LookupInts(k.lookups[i]);
      }
    }
    assert KeptKey(r).lookups == r.lookups;
  }

  /** What comes back is accepted again and comes back unchanged: set then get is idempotent. */
  lemma {:induction false} KeyTableIdempotent(t: KeyTable, tail: seq<byte>)
    requires ValidKeyTable(t)
    ensures ValidKeyTable(KeptTable(t))
    ensures DecKeyTable(EncKeyTable(KeptTable(t)) + tail) == KeptTable(t)
  {
    hide ValidKey, KeptKey, EncKeyTable, DecKeyTable;
    var r := KeptTable(t);
    forall i | 0 <= i < r.nrOfKeys ensures ValidKey(r.keys[i]) && KeptKey(r.keys[i]) == r.keys[i] {
      KeptKeyAgain(t.keys[i]);
    }
    KeyTableBack(r, tail);
    assert KeptTable(r) == r;
  }

  // ---------------------------------------------------------------- lengths

  lemma {:induction false} LookupsLength(s: seq<KeyIdLookup>, n: nat)
    requires n <= |s| && forall i :: 0 <= i < n ==> ValidLookup(s[i])
    ensures |EncLookups(s, n)| == 32 * n
    decreases n
  {
    hide Le, FixedOctets, EncInts, ValidInts, ValidFixed;
    if n != 0 {
      KeyWidths();
      LookupsLength(s, n - 1);
    }
  }

  lemma KeyWords(k: KeyDescriptor)
    requires ValidKey(k)
    ensures |EncKey(k)| % 4 == 0
  {
    hide Le, FixedOctets, EncCounted, EncLookups, ValidLookup, ValidRows, ValidFixed;
    KeyWidths();
    LookupsLength(k.lookups, k.nrOfLookups);
    CountedLength(k.handles, k.nrOfHandles, HANDLE_WIDTHS);
    CountedLength(k.usages, k.nrOfUsages, USAGE_WIDTHS);
    KeySize(k);
    hide EncKey;
    var a := |EncCounted(k.handles, k.nrOfHandles, HANDLE_WIDTHS)|;
    WordSum(20 + 32 * k.nrOfLookups, a);
    WordSum(20 + 32 * k.nrOfLookups + a, |EncCounted(k.usages, k.nrOfUsages, USAGE_WIDTHS)|);
  }

  lemma KeySize(k: KeyDescriptor)
    requires ValidKey(k)
    ensures |EncKey(k)|
            == 4 + |EncLookups(k.lookups, k.nrOfLookups)| + |EncCounted(k.handles, k.nrOfHandles, HANDLE_WIDTHS)|
               + |EncCounted(k.usages, k.nrOfUsages, USAGE_WIDTHS)| + 16
  {
    hide Le, EncCounted, EncLookups, ValidLookup, ValidRows, ValidFixed;
  }

  lemma {:induction false} KeysWords(s: seq<KeyDescriptor>, n: nat)
    requires n <= |s| && forall i :: 0 <= i < n ==> ValidKey(s[i])
    ensures |EncKeys(s, n)| % 4 == 0
    decreases n
  {
    hide EncKey, ValidKey;
    if n != 0 {
      KeysWords(s, n - 1);
      KeyWords(s[n - 1]);
      WordSum(|EncKeys(s, n - 1)|, |EncKey(s[n - 1])|);
    }
  }

  lemma {:induction false} KeyTableWords(t: KeyTable)
    requires ValidKeyTable(t)
    ensures |EncKeyTable(t)| % 4 == 0
  {
    hide Le, EncKeys, ValidKey;
    KeysWords(t.keys, t.nrOfKeys);
    WordSum(4, |EncKeys(t.keys, t.nrOfKeys)|);
  }

  // ---------------------------------------------------------------- decoded values

  lemma DecodedLookup(bs: seq<byte>, be: nat)
    ensures ValidLookup(DecLookup(bs, be)) && KeptLookup(DecLookup(bs, be)) == DecLookup(bs, be)
  {
    hide GetInt, GetInts, ValidInts;
    GetU32(bs, be);
    GetIntsFit(bs, be + 12, LOOKUP_WIDTHS);
    assert LookupInts(DecLookup(bs, be)) == GetInts(bs, be + 12, LOOKUP_WIDTHS);
  }

  lemma {:induction false} DecodedLookups(bs: seq<byte>, be: nat, n: nat, i: nat)
    requires i < n
    ensures var k := DecLookups(bs, be, n)[i]; ValidLookup(k) && KeptLookup(k) == k
    decreases n
  {
    hide ValidLookup, KeptLookup, DecLookup;
    if i == n - 1 {
      DecodedLookup(bs, be + 32 * (n - 1));
    } else {
      DecodedLookups(bs, be, n - 1, i);
    }
  }

  lemma DecodedKey(bs: seq<byte>, be: nat)
    ensures ValidKey(DecKey(bs, be).0) && KeptKey(DecKey(bs, be).0) == DecKey(bs, be).0
  {
    hide ValidLookup, KeptLookup, DecLookups, GetInt, DecCounted, ValidRows;
    GetU32(bs, be);
    var k := DecKey(bs, be).0;
    forall i | 0 <= i < k.nrOfLookups ensures ValidLookup(k.lookups[i]) && KeptLookup(k.lookups[i]) == k.lookups[i] {
      DecodedLookups(bs, be + 4, k.nrOfLookups, i);
    }
    var be1 := be + 4 + 32 * k.nrOfLookups;
    DecodedCounted(bs, be1, HANDLE_WIDTHS);
    DecodedCounted(bs, DecCounted(bs, be1, HANDLE_WIDTHS).1, USAGE_WIDTHS);
    Whole(k.handles, k.nrOfHandles);
    Whole(k.usages, k.nrOfUsages);
    assert KeptLookups(k.lookups, k.nrOfLookups) == k.lookups;
  }

  lemma {:induction false} DecodedKeys(bs: seq<byte>, be: nat, n: nat, i: nat)
    requires i < n
    ensures var k := DecKeys(bs, be, n).0[i]; ValidKey(k) && KeptKey(k) == k
    decreases n
  {
    hide ValidKey, KeptKey, DecKey;
    if i == n - 1 {
      DecodedKey(bs, DecKeys(bs, be, n - 1).1);
    } else {
      DecodedKeys(bs, be, n - 1, i);
    }
  }

  lemma DecodedKeyTable(bs: seq<byte>)
    ensures ValidKeyTable(DecKeyTable(bs)) && KeptTable(DecKeyTable(bs)) == DecKeyTable(bs)
  {
    hide ValidKey, KeptKey, DecKeys, GetInt;
    GetU32(bs, 0);
    var t := DecKeyTable(bs);
    forall i | 0 <= i < t.nrOfKeys ensures ValidKey(t.keys[i]) && KeptKey(t.keys[i]) == t.keys[i] {
      DecodedKeys(bs, 4, t.nrOfKeys, i);
    }
    assert KeptTable(t) == t;
  }

  /** Whatever a key table decodes to is accepted by the setter and decodes to itself again. */
  lemma KeyTableStable(bs: seq<byte>, tail: seq<byte>)
    ensures ValidKeyTable(DecKeyTable(bs))
    ensures DecKeyTable(EncKeyTable(DecKeyTable(bs)) + tail) == DecKeyTable(bs)
  {
    hide DecKeyTable, EncKeyTable, ValidKeyTable, KeptTable;
    DecodedKeyTable(bs);
    KeyTableBack(DecKeyTable(bs), tail);
  }
}
