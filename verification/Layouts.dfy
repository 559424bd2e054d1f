/**
  * Where everything stands in an encoded message: the offset and width of every field, in figures,
  * for the element lists, the tables, the attributes and the parameter lists.
  */
module Layouts {
  import opened Bytes
  import opened Fields
  import opened PayloadIEs
  import opened Tables
  import opened PibAttributes
  import Params

  // ---------------------------------------------------------------- pieces

  /** The bytes from an index on are these. */
  predicate OctetsAt(bs: seq<byte>, at: nat, c: seq<int>) {
    at + |c| <= |bs| && forall i :: 0 <= i < |c| ==> bs[at + i] == c[i]
  }

  predicate ZerosAt(bs: seq<byte>, at: nat, n: nat) {
    at + n <= |bs| && forall i :: at <= i < at + n ==> bs[i] == 0
  }

  lemma HoldsOctets(bs: seq<byte>, at: nat, s: seq<byte>)
    requires Holds(bs, at, s)
    ensures OctetsAt(bs, at, s)
  {
    forall i | 0 <= i < |s| ensures bs[at + i] == s[i] {
      assert bs[at..at + |s|][i] == s[i];
    }
  }

  lemma HoldsZeros(bs: seq<byte>, at: nat, n: nat)
    requires Holds(bs, at, Repeat(0, n))
    ensures ZerosAt(bs, at, n)
  {
    HoldsOctets(bs, at, Repeat(0, n));
    forall i | at <= i < at + n ensures bs[i] == 0 {
      assert bs[at + (i - at)] == 0;
    }
  }

  lemma U32At(bs: seq<byte>, at: nat, n: int)
    requires U32(n) && Holds(bs, at, Le(n, 4))
    ensures GetInt(bs, at, 4) == n
  {
    U32Fits(n);
    GetIntBack(bs, at, n, 4);
  }

  /** A count and what follows it. */
  lemma CountFirst(n: int, rest: seq<byte>)
    requires U32(n)
    ensures var bs := Le(n, 4) + rest; Holds(bs, 4, rest) && GetInt(bs, 0, 4) == n && |bs| == 4 + |rest|
  {
    hide Le, GetInt;
    U32At(Le(n, 4) + rest, 0, n);
  }

  /** A byte array and what fills its last word: four zeros after a whole number of words. */
  lemma PaddedAt(bs: seq<byte>, at: nat, c: seq<int>, n: nat)
    requires ValidOctets(c, n) && Holds(bs, at, PaddedOctets(c, n))
    ensures OctetsAt(bs, at, c[..n]) && ZerosAt(bs, at + n, 4 - n % 4)
    ensures |PaddedOctets(c, n)| == n + 4 - n % 4
  {
    HoldsAppend(bs, at, Octets(c, n), Repeat(0, PadLength(n)));
    HoldsOctets(bs, at, Octets(c, n));
    PadIsRest(n);
    HoldsZeros(bs, at + n, PadLength(n));
  }

  lemma PadIsRest(n: nat)
    ensures PadLength(n) == 4 - n % 4
  {}

  /** A list brought to a size keeps its beginning, and what is missing is zero. */
  lemma FitMeans(c: seq<int>, size: nat, i: nat)
    requires i < size
    ensures |Fit(c, size)| == size && Fit(c, size)[i] == if i < |c| then c[i] else 0
  {}

  // ---------------------------------------------------------------- element lists

  /** The size of a sub-element: three integers and its padded bytes. */
  function SubSize(s: SubIE): int { 12 + s.length + 4 - s.length % 4 }

  function SubsSize(s: seq<SubIE>, n: nat): int
    requires n <= |s|
    decreases n
  {
    if n == 0 then 0 else SubsSize(s, n - 1) + SubSize(s[n - 1])
  }

  /** The size of an element: identifier, length, and a counted list of sub-elements or padded bytes. */
  function IESize(e: IE): int
    requires ValidIE(e)
  {
    if e.id == 1 then 12 + SubsSize(e.content.subIEs, e.content.nrOfSubIEs) else 8 + e.length + 4 - e.length % 4
  }

  /** Where element i starts, counted from the first. */
  function IEsSize(s: seq<IE>, n: nat): int
    requires n <= |s| && forall i :: 0 <= i < n ==> ValidIE(s[i])
    decreases n
  {
    if n == 0 then 0 else IEsSize(s, n - 1) + IESize(s[n - 1])
  }

  lemma SubLength(s: SubIE)
    requires ValidSubIE(s)
    ensures |EncSubIE(s)| == SubSize(s)
  {
    hide Le;
    PadIsRest(s.length);
  }

  /** Every sub-element starts where the sizes of those before it say. */
  lemma {:induction false} SubStands(bs: seq<byte>, be: nat, s: seq<SubIE>, n: nat, i: nat)
    requires i < n <= |s| && forall k :: 0 <= k < n ==> ValidSubIE(s[k])
    requires Holds(bs, be, EncSubIEs(s, n))
    ensures SubsSize(s, i) >= 0 && Holds(bs, be + SubsSize(s, i), EncSubIE(s[i]))
    decreases n
  {
    hide Holds, EncSubIE, ValidSubIE, SubSize;
    SubsLength(s, n - 1);
    HoldsAppend(bs, be, EncSubIEs(s, n - 1), EncSubIE(s[n - 1]));
    if i < n - 1 {
      SubStands(bs, be, s, n - 1, i);
    }
  }

  lemma {:induction false} SubsLength(s: seq<SubIE>, n: nat)
    requires n <= |s| && forall i :: 0 <= i < n ==> ValidSubIE(s[i])
    ensures |EncSubIEs(s, n)| == SubsSize(s, n)
    decreases n
  {
    hide EncSubIE, ValidSubIE, SubSize;
    if n != 0 {
      SubsLength(s, n - 1);
      SubLength(s[n - 1]);
    }
  }

  lemma IELength(e: IE)
    requires ValidIE(e)
    ensures |EncIE(e)| == IESize(e)
  {
    hide Le, ValidSubIE, EncSubIEs, SubsSize;
    if e.id == 1 {
      SubsLength(e.content.subIEs, e.content.nrOfSubIEs);
    } else {
      PadIsRest(e.length);
    }
  }

  lemma {:induction false} IEsLength(s: seq<IE>, n: nat)
    requires n <= |s| && forall i :: 0 <= i < n ==> ValidIE(s[i])
    ensures |EncIEs(s, n)| == IEsSize(s, n)
    decreases n
  {
    hide EncIE, ValidIE, IESize;
    if n != 0 {
      IEsLength(s, n - 1);
      IELength(s[n - 1]);
    }
  }

  lemma {:induction false} IEStands(bs: seq<byte>, be: nat, s: seq<IE>, n: nat, i: nat)
    requires i < n <= |s| && forall k :: 0 <= k < n ==> ValidIE(s[k])
    requires Holds(bs, be, EncIEs(s, n))
    ensures IEsSize(s, i) >= 0 && Holds(bs, be + IEsSize(s, i), EncIE(s[i]))
    decreases n
  {
    hide Holds, EncIE, ValidIE, IESize;
    IEsLength(s, n - 1);
    HoldsAppend(bs, be, EncIEs(s, n - 1), EncIE(s[n - 1]));
    if i < n - 1 {
      IEStands(bs, be, s, n - 1, i);
    }
  }

  /** An element stands here: identifier, length, then a count of sub-elements or padded bytes. */
  predicate IEAt(bs: seq<byte>, at: int, e: IE) {
    && at >= 0 && GetInt(bs, at, 4) == e.id && GetInt(bs, at + 4, 4) == e.length
    && if e.id == 1 then e.content.Nested? && GetInt(bs, at + 8, 4) == e.content.nrOfSubIEs
       else
         && (e.content.Raw? ==> 0 <= e.length <= |e.content.bytes| && OctetsAt(bs, at + 8, e.content.bytes[..e.length]))
         && e.length >= 0 && ZerosAt(bs, at + 8 + e.length, 4 - e.length % 4)
  }

  /** A sub-element stands here: type, identifier, length and padded bytes. */
  predicate SubIEAt(bs: seq<byte>, at: int, s: SubIE) {
    && at >= 0 && GetInt(bs, at, 4) == s.subType && GetInt(bs, at + 4, 4) == s.subID
    && GetInt(bs, at + 8, 4) == s.length
    && 0 <= s.length <= |s.bytes| && OctetsAt(bs, at + 12, s.bytes[..s.length])
    && ZerosAt(bs, at + 12 + s.length, 4 - s.length % 4)
  }

  lemma ListStands(v: IEList)
    requires ValidIEList(v)
    ensures 0 <= v.nrOfIEs <= |v.ies| && forall i :: 0 <= i < v.nrOfIEs ==> ValidIE(v.ies[i])
    ensures Holds(EncIEList(v), 4, EncIEs(v.ies, v.nrOfIEs))
    ensures GetInt(EncIEList(v), 0, 4) == v.nrOfIEs && |EncIEList(v)| == 4 + IEsSize(v.ies, v.nrOfIEs)
  {
    hide Holds, Le, ValidIE, EncIEs, GetInt, IEsSize;
    IEsLength(v.ies, v.nrOfIEs);
    CountFirst(v.nrOfIEs, EncIEs(v.ies, v.nrOfIEs));
  }

  /** The fields of element i of an encoded list. */
  lemma IELayout(v: IEList, i: nat)
    requires ValidIEList(v) && i < v.nrOfIEs
    ensures GetInt(EncIEList(v), 0, 4) == v.nrOfIEs && |EncIEList(v)| == 4 + IEsSize(v.ies, v.nrOfIEs)
    ensures IEAt(EncIEList(v), 4 + IEsSize(v.ies, i), v.ies[i])
  {
    hide *;
    ListStands(v);
    IEStands(EncIEList(v), 4, v.ies, v.nrOfIEs, i);
    IEFields(EncIEList(v), 4 + IEsSize(v.ies, i), v.ies[i]);
  }

  lemma WholeHolds(s: seq<byte>)
    ensures Holds(s, 0, s)
  {}

  lemma IEFields(bs: seq<byte>, at: nat, e: IE)
    requires ValidIE(e) && Holds(bs, at, EncIE(e))
    ensures IEAt(bs, at, e)
    ensures e.id == 1 ==> Holds(bs, at + 12, EncSubIEs(e.content.subIEs, e.content.nrOfSubIEs))
  {
    hide Holds, Le, GetInt, ValidSubIE, EncSubIEs, PaddedOctets, OctetsAt, ZerosAt;
    HoldsAppend(bs, at, Le(e.id, 4) + Le(e.length, 4), EncContent(e.id, e.length, e.content));
    HoldsAppend(bs, at, Le(e.id, 4), Le(e.length, 4));
    U32At(bs, at, e.id);
    U32At(bs, at + 4, e.length);
    if e.id == 1 {
      HoldsAppend(bs, at + 8, Le(e.content.nrOfSubIEs, 4), EncSubIEs(e.content.subIEs, e.content.nrOfSubIEs));
      U32At(bs, at + 8, e.content.nrOfSubIEs);
    } else if e.content.Raw? {
      PaddedAt(bs, at + 8, e.content.bytes, e.length);
    } else {
      PaddedAt(bs, at + 8, [], e.length);
    }
  }

  /** The fields of sub-element m of element i. */
  lemma SubIELayout(v: IEList, i: nat, m: nat)
    requires ValidIEList(v) && i < v.nrOfIEs && v.ies[i].id == 1
    requires ValidIE(v.ies[i]) && m < v.ies[i].content.nrOfSubIEs
    ensures var c := v.ies[i].content;
            SubIEAt(EncIEList(v), 4 + IEsSize(v.ies, i) + 12 + SubsSize(c.subIEs, m), c.subIEs[m])
  {
    hide *;
    ListStands(v);
    var bs, e := EncIEList(v), v.ies[i];
    var at := 4 + IEsSize(v.ies, i);
    IEStands(bs, 4, v.ies, v.nrOfIEs, i);
    SubsFit(e);
    IEFields(bs, at, e);
    SubStands(bs, at + 12, e.content.subIEs, e.content.nrOfSubIEs, m);
    SubFields(bs, at + 12 + SubsSize(e.content.subIEs, m), e.content.subIEs[m]);
  }

  lemma SubsFit(e: IE)
    requires ValidIE(e) && e.id == 1
    ensures var c := e.content;
            && c.Nested? && 0 <= c.nrOfSubIEs <= |c.subIEs|
            && forall i :: 0 <= i < c.nrOfSubIEs ==> ValidSubIE(c.subIEs[i])
  {}

  lemma SubFields(bs: seq<byte>, at: nat, s: SubIE)
    requires ValidSubIE(s) && Holds(bs, at, EncSubIE(s))
    ensures SubIEAt(bs, at, s)
  {
    hide Holds, Le, GetInt, PaddedOctets, OctetsAt, ZerosAt;
    HoldsAppend(bs, at, SubHead(s), PaddedOctets(s.bytes, s.length));
    HoldsAppend(bs, at, Le(s.subType, 4) + Le(s.subID, 4), Le(s.length, 4));
    HoldsAppend(bs, at, Le(s.subType, 4), Le(s.subID, 4));
    U32At(bs, at, s.subType);
    U32At(bs, at + 4, s.subID);
    U32At(bs, at + 8, s.length);
    PaddedAt(bs, at + 12, s.bytes, s.length);
  }

  // ---------------------------------------------------------------- counted tables

  /** Where row i starts. */
  function RowStart(be: nat, i: nat, size: nat): nat { be + i * size }

  /** Row i of a counted table is read from its place, rows of one size after the count. */
  lemma {:induction false} RowRead(bs: seq<byte>, be: nat, n: nat, widths: seq<nat>, size: nat, i: nat)
    requires Sum(widths) == size && i < n
    ensures DecRows(bs, be, n, widths).1 == RowStart(be, n, size)
    ensures DecRows(bs, be, n, widths).0[i] == GetInts(bs, RowStart(be, i, size), widths)
    decreases n
  {
    hide GetInts, Sum;
    if n == 1 {
      assert DecRows(bs, be, 0, widths) == ([], be);
    } else {
      RowRead(bs, be, n - 1, widths, size, if i < n - 1 then i else 0);
      assert (n - 1) * size + size == n * size;
    }
  }

  /** Five fields of these widths, one by one. */
  lemma FiveRead(bs: seq<byte>, at: nat, a: nat, b: nat, c: nat, d: nat, e: nat)
    ensures GetInts(bs, at, [a, b, c, d, e])
            == [GetInt(bs, at, a), GetInt(bs, at + a, b), GetInt(bs, at + a + b, c), GetInt(bs, at + a + b + c, d),
                GetInt(bs, at + a + b + c + d, e)]
    ensures Sum([a, b, c, d, e]) == a + b + c + d + e
  {
    hide GetInt;
    var w: seq<nat> := [a, b, c, d, e];
    FourRead(bs, at, a, b, c, d);
    assert w[..4] == [a, b, c, d];
  }

  lemma FourRead(bs: seq<byte>, at: nat, a: nat, b: nat, c: nat, d: nat)
    ensures GetInts(bs, at, [a, b, c, d])
            == [GetInt(bs, at, a), GetInt(bs, at + a, b), GetInt(bs, at + a + b, c), GetInt(bs, at + a + b + c, d)]
    ensures Sum([a, b, c, d]) == a + b + c + d
  {
    hide GetInt;
    var w: seq<nat> := [a, b, c, d];
    TwoRead(bs, at, a, b);
    assert w[..3] == [a, b, c] && [a, b, c][..2] == [a, b];
    assert GetInts(bs, at, [a, b, c]) == GetInts(bs, at, [a, b]) + [GetInt(bs, at + a + b, c)];
    assert Sum([a, b, c]) == a + b + c;
  }

  lemma TwoRead(bs: seq<byte>, at: nat, a: nat, b: nat)
    ensures GetInts(bs, at, [a, b]) == [GetInt(bs, at, a), GetInt(bs, at + a, b)] && Sum([a, b]) == a + b
    ensures GetInts(bs, at, [a]) == [GetInt(bs, at, a)] && Sum([a]) == a
  {
    hide GetInt;
    assert [a, b][..1] == [a] && [a][..0] == [];
    assert GetInts(bs, at, []) == [] && Sum([]) == 0;
  }

  /** PAN id, short address, extended address (8), frame counter (8) and exempt flag. */
  lemma DeviceTableRead(bs: seq<byte>, i: nat)
    requires i < GetInt(bs, 0, 4)
    ensures var at := 4 + 28 * i;
            DecPib(69, bs) == Rows(DecPib(69, bs).t) && DecPib(69, bs).t.count == GetInt(bs, 0, 4)
            && DecPib(69, bs).t.rows[i]
               == [GetInt(bs, at, 4), GetInt(bs, at + 4, 4), GetInt(bs, at + 8, 8), GetInt(bs, at + 16, 8),
                   GetInt(bs, at + 24, 4)]
  {
    hide GetInt;
    FiveRead(bs, 4 + 28 * i, 4, 4, 8, 8, 4);
    RowRead(bs, 4, GetInt(bs, 0, 4), DEVICE_WIDTHS, 28, i);
  }

  /** Five integers of four bytes. */
  lemma SecurityLevelTableRead(bs: seq<byte>, i: nat)
    requires i < GetInt(bs, 0, 4)
    ensures var at := 4 + 20 * i;
            DecPib(70, bs) == Rows(DecPib(70, bs).t) && DecPib(70, bs).t.count == GetInt(bs, 0, 4)
            && DecPib(70, bs).t.rows[i]
               == [GetInt(bs, at, 4), GetInt(bs, at + 4, 4), GetInt(bs, at + 8, 4), GetInt(bs, at + 12, 4),
                   GetInt(bs, at + 16, 4)]
  {
    hide GetInt;
    FiveRead(bs, 4 + 20 * i, 4, 4, 4, 4, 4);
    RowRead(bs, 4, GetInt(bs, 0, 4), SECURITY_WIDTHS, 20, i);
  }

  /** A slotframe is its handle and its size. */
  lemma SlotframeTableRead(bs: seq<byte>, i: nat)
    requires i < GetInt(bs, 0, 4)
    ensures DecPib(43, bs) == Rows(DecPib(43, bs).t) && DecPib(43, bs).t.count == GetInt(bs, 0, 4)
    ensures DecPib(43, bs).t.rows[i] == [GetInt(bs, 4 + 8 * i, 4), GetInt(bs, 8 + 8 * i, 4)]
  {
    hide GetInt;
    TwoRead(bs, 4 + 8 * i, 4, 4);
    RowRead(bs, 4, GetInt(bs, 0, 4), SLOTFRAME_WIDTHS, 8, i);
  }

  /** A link has seven integers of four bytes. */
  lemma LinkTableRead(bs: seq<byte>, i: nat, j: nat)
    requires i < GetInt(bs, 0, 4) && j < 7
    ensures DecPib(44, bs) == Rows(DecPib(44, bs).t) && DecPib(44, bs).t.count == GetInt(bs, 0, 4)
    ensures |DecPib(44, bs).t.rows[i]| == 7 && DecPib(44, bs).t.rows[i][j] == GetInt(bs, 4 + 28 * i + 4 * j, 4)
  {
    hide GetInt, GetInts, Sum;
    FoursSum(7);
    assert Fours(7) == LINK_WIDTHS;
    RowRead(bs, 4, GetInt(bs, 0, 4), LINK_WIDTHS, 28, i);
    FoursRead(bs, 4 + 28 * i, 7);
  }

  lemma {:induction false} FoursRead(bs: seq<byte>, at: nat, n: nat)
    ensures forall j :: 0 <= j < n ==> GetInts(bs, at, Fours(n))[j] == GetInt(bs, at + 4 * j, 4)
    decreases n
  {
    hide GetInt;
    if n != 0 {
      FoursRead(bs, at, n - 1);
      FoursSum(n - 1);
      assert Fours(n)[..n - 1] == Fours(n - 1);
    }
  }

  // ---------------------------------------------------------------- the key table

  lemma {:induction false} RowsSize(rows: seq<seq<int>>, n: nat, widths: seq<nat>, size: nat)
    requires n <= |rows| && forall i :: 0 <= i < n ==> ValidInts(rows[i], widths)
    requires Sum(widths) == size
    ensures |EncRows(rows, n, widths)| == n * size
    decreases n
  {
    hide ValidInts, EncInts, Sum;
    if n != 0 {
      RowsSize(rows, n - 1, widths, size);
      assert (n - 1) * size + size == n * size;
    }
  }

  /** A counted table in an encoding: its count, then its rows, all of one size. */
  lemma CountedAt(bs: seq<byte>, at: nat, rows: seq<seq<int>>, n: nat, widths: seq<nat>, size: nat, j: nat)
    requires ValidRows(rows, n, widths) && Holds(bs, at, EncCounted(rows, n, widths)) && Sum(widths) == size
    ensures GetInt(bs, at, 4) == n && |EncCounted(rows, n, widths)| == RowStart(4, n, size)
    ensures j < n ==> GetInts(bs, RowStart(at + 4, j, size), widths) == rows[j]
  {
    hide ValidInts, GetInt, GetInts, Sum, Holds, Le;
    RowsSize(rows, n, widths, size);
    CountedBack(bs, at, rows, n, widths);
    if j < n {
      RowRead(bs, at + 4, n, widths, size, j);
      assert rows[..n][j] == rows[j];
    }
  }

  /** One lookup descriptor in 32 bytes: mode, eight bytes of key source, index, address mode, PAN id, address (8). */
  predicate LookupAt(bs: seq<byte>, at: int, k: KeyIdLookup) {
    && at >= 0 && GetInt(bs, at, 4) == k.keyIdMode && OctetsAt(bs, at + 4, Fit(k.keySource, 8))
    && GetInt(bs, at + 12, 4) == k.keyIndex && GetInt(bs, at + 16, 4) == k.deviceAddrMode
    && GetInt(bs, at + 20, 4) == k.devicePANId && GetInt(bs, at + 24, 8) == k.deviceAddress
  }

  lemma LookupFields(bs: seq<byte>, at: nat, k: KeyIdLookup)
    requires ValidLookup(k) && Holds(bs, at, EncLookup(k))
    ensures LookupAt(bs, at, k) && |EncLookup(k)| == 32
  {
    hide Holds, Le, GetInt, GetInts, OctetsAt, ValidFixed, FixedOctets, ValidInts, EncInts, Fit;
    KeyWidths();
    var source, ints := FixedOctets(k.keySource, 8), EncInts(LookupInts(k), LOOKUP_WIDTHS);
    HoldsAppend(bs, at, Le(k.keyIdMode, 4) + source, ints);
    HoldsAppend(bs, at, Le(k.keyIdMode, 4), source);
    U32At(bs, at, k.keyIdMode);
    HoldsOctets(bs, at + 4, source);
    GetIntsBack(bs, at + 12, LookupInts(k), LOOKUP_WIDTHS);
    FourRead(bs, at + 12, 4, 4, 4, 8);
    assert LookupInts(k)[0] == k.keyIndex && LookupInts(k)[3] == k.deviceAddress;
    assert LookupInts(k)[1] == k.deviceAddrMode && LookupInts(k)[2] == k.devicePANId;
  }

  lemma {:induction false} LookupStands(bs: seq<byte>, be: nat, s: seq<KeyIdLookup>, n: nat, i: nat)
    requires i < n <= |s| && forall k :: 0 <= k < n ==> ValidLookup(s[k])
    requires Holds(bs, be, EncLookups(s, n))
    ensures LookupAt(bs, be + 32 * i, s[i])
    decreases n
  {
    hide Holds, EncLookup, ValidLookup, LookupAt;
    LookupsLength(s, n - 1);
    HoldsAppend(bs, be, EncLookups(s, n - 1), EncLookup(s[n - 1]));
    if i < n - 1 {
      LookupStands(bs, be, s, n - 1, i);
    } else {
      LookupFields(bs, be + 32 * i, s[i]);
    }
  }

  /** The size of a key descriptor: three counts, their entries and sixteen bytes of key. */
  function KeyLength(k: KeyDescriptor): int {
    (4 + 32 * k.nrOfLookups) + (4 + 4 * k.nrOfHandles) + (4 + 8 * k.nrOfUsages) + 16
  }

  function KeysLength(s: seq<KeyDescriptor>, n: nat): int
    requires n <= |s|
    decreases n
  {
    if n == 0 then 0 else KeysLength(s, n - 1) + KeyLength(s[n - 1])
  }

  /** One key descriptor: counted lookups, counted handles of four bytes, counted usages of two integers, the key. */
  ghost predicate KeyAt(bs: seq<byte>, at: int, k: KeyDescriptor) {
    && at >= 0 && GetInt(bs, at, 4) == k.nrOfLookups && 0 <= k.nrOfLookups <= |k.lookups|
    && (forall j :: 0 <= j < k.nrOfLookups ==> LookupAt(bs, at + 4 + 32 * j, k.lookups[j]))
    && HandlesAt(bs, at + 4 + 32 * k.nrOfLookups, k)
    && UsagesAt(bs, at + 8 + 32 * k.nrOfLookups + 4 * k.nrOfHandles, k)
    && OctetsAt(bs, at + 12 + 32 * k.nrOfLookups + 4 * k.nrOfHandles + 8 * k.nrOfUsages, Fit(k.key, 16))
  }

  ghost predicate HandlesAt(bs: seq<byte>, at: int, k: KeyDescriptor) {
    && at >= 0 && GetInt(bs, at, 4) == k.nrOfHandles && 0 <= k.nrOfHandles <= |k.handles|
    && forall j :: 0 <= j < k.nrOfHandles ==> k.handles[j] == [GetInt(bs, at + 4 + 4 * j, 4)]
  }

  ghost predicate UsagesAt(bs: seq<byte>, at: int, k: KeyDescriptor) {
    && at >= 0 && GetInt(bs, at, 4) == k.nrOfUsages && 0 <= k.nrOfUsages <= |k.usages|
    && forall j :: 0 <= j < k.nrOfUsages ==>
         k.usages[j] == [GetInt(bs, at + 4 + 8 * j, 4), GetInt(bs, at + 8 + 8 * j, 4)]
  }

  lemma HandlesStand(bs: seq<byte>, at: nat, k: KeyDescriptor)
    requires ValidRows(k.handles, k.nrOfHandles, HANDLE_WIDTHS)
    requires Holds(bs, at, EncCounted(k.handles, k.nrOfHandles, HANDLE_WIDTHS))
    ensures HandlesAt(bs, at, k) && |EncCounted(k.handles, k.nrOfHandles, HANDLE_WIDTHS)| == 4 + 4 * k.nrOfHandles
  {
    hide Holds, GetInt, GetInts, EncCounted;
    KeyWidths();
    CountedAt(bs, at, k.handles, k.nrOfHandles, HANDLE_WIDTHS, 4, k.nrOfHandles);
    forall j | 0 <= j < k.nrOfHandles ensures k.handles[j] == [GetInt(bs, at + 4 + 4 * j, 4)] {
      CountedAt(bs, at, k.handles, k.nrOfHandles, HANDLE_WIDTHS, 4, j);
      TwoRead(bs, at + 4 + 4 * j, 4, 4);
    }
  }

  lemma UsagesStand(bs: seq<byte>, at: nat, k: KeyDescriptor)
    requires ValidRows(k.usages, k.nrOfUsages, USAGE_WIDTHS)
    requires Holds(bs, at, EncCounted(k.usages, k.nrOfUsages, USAGE_WIDTHS))
    ensures UsagesAt(bs, at, k) && |EncCounted(k.usages, k.nrOfUsages, USAGE_WIDTHS)| == 4 + 8 * k.nrOfUsages
  {
    hide Holds, GetInt, GetInts, EncCounted;
    KeyWidths();
    CountedAt(bs, at, k.usages, k.nrOfUsages, USAGE_WIDTHS, 8, k.nrOfUsages);
    forall j | 0 <= j < k.nrOfUsages
      ensures k.usages[j] == [GetInt(bs, at + 4 + 8 * j, 4), GetInt(bs, at + 8 + 8 * j, 4)]
    {
      CountedAt(bs, at, k.usages, k.nrOfUsages, USAGE_WIDTHS, 8, j);
      TwoRead(bs, at + 4 + 8 * j, 4, 4);
    }
  }

  lemma KeyFields(bs: seq<byte>, at: nat, k: KeyDescriptor)
    requires ValidKey(k) && Holds(bs, at, EncKey(k))
    ensures KeyAt(bs, at, k) && |EncKey(k)| == KeyLength(k)
  {
    hide Holds, Le, GetInt, ValidRows, EncCounted, EncLookups, ValidLookup, ValidFixed, FixedOctets, LookupAt,
      HandlesAt, UsagesAt, OctetsAt, Fit;
    var n := k.nrOfLookups;
    var count, lookups := Le(n, 4), EncLookups(k.lookups, n);
    var handles := EncCounted(k.handles, k.nrOfHandles, HANDLE_WIDTHS);
    var usages, key := EncCounted(k.usages, k.nrOfUsages, USAGE_WIDTHS), FixedOctets(k.key, 16);
    HoldsAppend(bs, at, count + lookups + handles + usages, key);
    HoldsAppend(bs, at, count + lookups + handles, usages);
    HoldsAppend(bs, at, count + lookups, handles);
    HoldsAppend(bs, at, count, lookups);
    LookupsLength(k.lookups, n);
    U32At(bs, at, n);
    forall j | 0 <= j < n ensures LookupAt(bs, at + 4 + 32 * j, k.lookups[j]) {
      LookupStands(bs, at + 4, k.lookups, n, j);
    }
    HandlesStand(bs, at + 4 + 32 * n, k);
    UsagesStand(bs, at + 4 + 32 * n + |handles|, k);
    HoldsOctets(bs, at + 4 + 32 * n + |handles| + |usages|, key);
    FixedIsFitted(k.key, 16);
  }

  lemma {:induction false} KeyStands(bs: seq<byte>, be: nat, s: seq<KeyDescriptor>, n: nat, i: nat)
    requires i < n <= |s| && forall k :: 0 <= k < n ==> ValidKey(s[k])
    requires Holds(bs, be, EncKeys(s, n))
    ensures KeyAt(bs, be + KeysLength(s, i), s[i])
    decreases n
  {
    hide Holds, EncKey, ValidKey, KeyAt, KeyLength;
    HoldsAppend(bs, be, EncKeys(s, n - 1), EncKey(s[n - 1]));
    KeysSize(bs, be, s, n - 1);
    if i < n - 1 {
      KeyStands(bs, be, s, n - 1, i);
    } else {
      KeyFields(bs, be + KeysLength(s, i), s[i]);
    }
  }

  lemma {:induction false} KeysSize(bs: seq<byte>, be: nat, s: seq<KeyDescriptor>, n: nat)
    requires n <= |s| && (forall k :: 0 <= k < n ==> ValidKey(s[k])) && Holds(bs, be, EncKeys(s, n))
    ensures |EncKeys(s, n)| == KeysLength(s, n)
    decreases n
  {
    hide Holds, EncKey, ValidKey, KeyAt, KeyLength;
    if n != 0 {
      HoldsAppend(bs, be, EncKeys(s, n - 1), EncKey(s[n - 1]));
      KeysSize(bs, be, s, n - 1);
      KeyFields(bs, be + |EncKeys(s, n - 1)|, s[n - 1]);
    }
  }

  lemma KeyTableStands(t: KeyTable)
    requires ValidKeyTable(t)
    ensures 0 <= t.nrOfKeys <= |t.keys| && forall i :: 0 <= i < t.nrOfKeys ==> ValidKey(t.keys[i])
    ensures Holds(EncKeyTable(t), 4, EncKeys(t.keys, t.nrOfKeys))
    ensures GetInt(EncKeyTable(t), 0, 4) == t.nrOfKeys && |EncKeyTable(t)| == 4 + |EncKeys(t.keys, t.nrOfKeys)|
  {
    hide Holds, Le, GetInt, EncKeys, ValidKey;
    CountFirst(t.nrOfKeys, EncKeys(t.keys, t.nrOfKeys));
  }

  /** The fields of key descriptor i of an encoded key table. */
  lemma KeyTableLayout(t: KeyTable, i: nat)
    requires ValidKeyTable(t) && i < t.nrOfKeys
    ensures GetInt(EncKeyTable(t), 0, 4) == t.nrOfKeys && |EncKeyTable(t)| == 4 + KeysLength(t.keys, t.nrOfKeys)
    ensures KeyAt(EncKeyTable(t), 4 + KeysLength(t.keys, i), t.keys[i])
  {
    hide *;
    KeyTableStands(t);
    KeysSize(EncKeyTable(t), 4, t.keys, t.nrOfKeys);
    KeyStands(EncKeyTable(t), 4, t.keys, t.nrOfKeys, i);
  }

  // ---------------------------------------------------------------- attributes

  /** The attributes that are integers of four bytes: all from 1 to 106 but these. */
  predicate FourByteAttribute(atr: int) {
    && 1 <= atr <= 106
    && atr != 1 && atr != 8 && atr != 13 && atr != 34 && atr != 35 && atr != 41 && atr != 43 && atr != 44 && atr != 45
    && atr != 52 && atr != 61 && atr != 63 && atr != 67 && atr != 68 && atr != 69 && atr != 70 && atr != 71 && atr != 74
    && atr != 76 && atr != 77 && atr != 85 && atr != 87 && atr != 92 && atr != 106
  }

  lemma FourByteKind(atr: int)
    requires FourByteAttribute(atr)
    ensures KindOf(atr) == Unsigned32
  {}

  lemma Kinds(atr: int)
    ensures atr in [1, 13, 41, 71, 77] ==> KindOf(atr) == Unsigned64
    ensures atr == 87 ==> KindOf(atr) == Signed32
    ensures atr == 8 ==> KindOf(atr) == Octet(52)
    ensures atr in [74, 76, 106] ==> KindOf(atr) == Octet(8)
    ensures atr in [61, 92] ==> KindOf(atr) == Record(12)
    ensures atr == 45 ==> KindOf(atr) == Record(13)
    ensures atr == 52 ==> KindOf(atr) == Words(16)
    ensures atr in [63, 67] ==> KindOf(atr) == Elements
    ensures atr == 68 ==> KindOf(atr) == Keys
    ensures atr == 69 ==> KindOf(atr) == Devices
    ensures atr == 70 ==> KindOf(atr) == SecurityLevels
    ensures atr in [43, 44] ==> KindOf(atr) == Slotframes || KindOf(atr) == Links
    ensures (atr < 1 || atr > 106 || atr in [34, 35, 85]) ==> KindOf(atr) == Unknown
  {}

  /** Integers: eight bytes for the extended addresses, the counter and the ASN; the transmit power (87) is signed. */
  lemma IntegerAttributes(atr: int, val: PibValue)
    requires ValidPib(atr, val)
    ensures FourByteAttribute(atr) ==>
              val.Number? && |EncPib(atr, val)| == 4 && GetInt(EncPib(atr, val), 0, 4) == val.n
    ensures atr in [1, 13, 41, 71, 77] ==>
              val.Number? && |EncPib(atr, val)| == 8 && GetInt(EncPib(atr, val), 0, 8) == val.n
    ensures atr == 87 ==>
              && val.Number? && |EncPib(atr, val)| == 4
              && GetInt(EncPib(atr, val), 0, 4) == if val.n < 0 then val.n + 0x1_0000_0000 else val.n
  {
    var e := EncPib(atr, val);
    WholeHolds(e);
    Kinds(atr);
    hide Holds, Le, GetInt, KindOf, FourByteAttribute;
    if FourByteAttribute(atr) {
      FourByteKind(atr);
      GetIntBack(e, 0, val.n, 4);
    } else if atr in [1, 13, 41, 71, 77] {
      GetIntBack(e, 0, val.n, 8);
    } else if atr == 87 {
      var u := if val.n < 0 then val.n + 0x1_0000_0000 else val.n;
      U32Fits(u);
      GetIntBack(e, 0, u, 4);
    }
  }

  /**
    * Byte arrays, filled up with zeros: 52 bytes of beacon payload (8), eight bytes of the key
    * sources and PTI (74, 76, 106).
    */
  lemma OctetAttributes(atr: int, val: PibValue)
    requires ValidPib(atr, val)
    ensures atr == 8 ==> val.Array? && EncPib(atr, val) == Fit(val.a, 52)
    ensures atr in [74, 76, 106] ==> val.Array? && EncPib(atr, val) == Fit(val.a, 8)
  {
    Kinds(atr);
    hide KindOf, FourByteAttribute;
  }

  /** Rows of integers of four bytes: metrics (61) and counters (92) have 12, the timeslot template (45) 13. */
  lemma RecordAttributes(atr: int, val: PibValue, j: nat)
    requires ValidPib(atr, val)
    ensures atr in [61, 92] ==> val.Fields? && |val.ints| == 12 && |EncPib(atr, val)| == 48
                                && (j < 12 ==> GetInt(EncPib(atr, val), 4 * j, 4) == val.ints[j])
    ensures atr == 45 ==> val.Fields? && |val.ints| == 13 && |EncPib(atr, val)| == 52
                          && (j < 13 ==> GetInt(EncPib(atr, val), 4 * j, 4) == val.ints[j])
    ensures atr == 52 ==> val.Array? && |EncPib(atr, val)| == 64
                          && (j < 16 ==> GetInt(EncPib(atr, val), 4 * j, 4) == Fit(val.a, 16)[j])
  {
    var e := EncPib(atr, val);
    Kinds(atr);
    hide EncInts, ValidInts, GetInt, Sum, KindOf, FourByteAttribute;
    if atr in [61, 92] {
      FoursBack(e, val.ints, 12);
    } else if atr == 45 {
      FoursBack(e, val.ints, 13);
    } else if atr == 52 {
      FoursBack(e, Fit(val.a, 16), 16);
    }
  }

  lemma FoursBack(e: seq<byte>, vals: seq<int>, n: nat)
    requires ValidInts(vals, Fours(n)) && e == EncInts(vals, Fours(n))
    ensures |vals| == n && |e| == 4 * n && forall j :: 0 <= j < n ==> GetInt(e, 4 * j, 4) == vals[j]
  {
    hide EncInts, GetInt;
    WholeHolds(e);
    FoursSum(n);
    GetIntsBack(e, 0, vals, Fours(n));
    FoursRead(e, 0, n);
  }

  /** Lists and tables: elements (63, 67), keys (68), devices (69), security levels (70); the others are not written. */
  lemma ListAttributes(atr: int, val: PibValue)
    requires ValidPib(atr, val)
    ensures atr in [63, 67] ==> IsElements(val) && EncPib(atr, val) == EncIEList(ElementsOf(val))
    ensures atr == 68 ==> val.KeyTab? && EncPib(atr, val) == EncKeyTable(val.keys)
    ensures atr == 69 ==> val.Rows? && |EncPib(atr, val)| == 4 + 28 * val.t.count
    ensures atr == 70 ==> val.Rows? && |EncPib(atr, val)| == 4 + 20 * val.t.count
    ensures atr in [43, 44] ==> EncPib(atr, val) == [0, 0, 0, 0]
    ensures (atr < 1 || atr > 106 || atr in [34, 35, 85]) ==> EncPib(atr, val) == []
  {
    WidthSums();
    Kinds(atr);
    hide EncIEList, EncKeyTable, ValidIEList, ValidKeyTable, ValidInts, EncRows, Sum, KindOf, FourByteAttribute;
    if atr == 69 {
      RowsSize(val.t.rows, val.t.count, DEVICE_WIDTHS, 28);
    } else if atr == 70 {
      RowsSize(val.t.rows, val.t.count, SECURITY_WIDTHS, 20);
    } else if atr in [43, 44] {
      FourZeros();
    }
  }

  lemma FourZeros()
    ensures Le(0, 4) == [0, 0, 0, 0]
  {
    assert Le(0, 1) == [0] && Le(0, 2) == [0, 0] && Le(0, 3) == [0, 0, 0];
  }

  // ---------------------------------------------------------------- parameter lists

  /** The size of a parameter: its width, its padded bytes, eight bytes of key source, or what is inserted. */
  function ParamSize(p: Params.Param): int
    requires Params.ValidParam(p)
  {
    match p
    case IntP(_, size) => size
    case MemcpyP(_, count) => if count >= 0 then count + 4 - count % 4 else 4 + (-count) % 4
    case KeySourceP(_) => 8
    case IEListP(list) => 4 + IEsSize(Given(list).ies, Given(list).nrOfIEs)
    case PibP(pib, atr) => |EncPib(atr, pib)|
  }

  function ParamsSize(ps: seq<Params.Param>, n: nat): int
    requires n <= |ps| && forall i :: 0 <= i < n ==> Params.ValidParam(ps[i])
    decreases n
  {
    if n == 0 then 0 else ParamsSize(ps, n - 1) + ParamSize(ps[n - 1])
  }

  /** A parameter stands here. */
  predicate ParamAt(bs: seq<byte>, at: int, p: Params.Param)
    requires Params.ValidParam(p)
  {
    && at >= 0
    && match p
       case IntP(value, size) => GetInt(bs, at, size) == value
       case MemcpyP(bytes, count) =>
         count >= 0 ==> OctetsAt(bs, at, bytes[..count]) && ZerosAt(bs, at + count, 4 - count % 4)
       case KeySourceP(source) => OctetsAt(bs, at, Fit(source, 8))
       case IEListP(list) => Holds(bs, at, EncIEList(Given(list)))
       case PibP(pib, atr) => Holds(bs, at, EncPib(atr, pib))
  }

  lemma ParamStands(bs: seq<byte>, at: nat, p: Params.Param)
    requires Params.ValidParam(p) && Holds(bs, at, Params.EncParam(p))
    ensures ParamAt(bs, at, p) && |Params.EncParam(p)| == ParamSize(p)
  {
    hide Holds, Le, GetInt, PaddedOctets, OctetsAt, ZerosAt, EncIEList, ValidIEList, EncPib, ValidPib, IEsSize, Fit,
      ValidFixed, FixedOctets;
    match p
    case IntP(value, size) => GetIntBack(bs, at, value, size);
    case MemcpyP(bytes, count) =>
      if count >= 0 {
        PaddedAt(bs, at, bytes, count);
      } else {
        NegativeCount(bytes, count);
      }
    case KeySourceP(source) =>
      HoldsOctets(bs, at, FixedOctets(source, 8));
      FixedIsFitted(source, 8);
    case IEListP(list) => ListStands(Given(list));
    case PibP(pib, atr) =>
  }

  lemma NegativeCount(c: seq<int>, n: int)
    requires n < 0 && ValidOctets(c, n)
    ensures |PaddedOctets(c, n)| == 4 + (-n) % 4
  {}

  lemma FixedIsFitted(c: seq<int>, size: nat)
    requires ValidFixed(c, size)
    ensures FixedOctets(c, size) == Fit(c, size)
  {}

  /** Every parameter of a message starts where the sizes of those before it say. */
  lemma {:induction false} ParamsLayout(bs: seq<byte>, ps: seq<Params.Param>, n: nat, i: nat)
    requires i < n <= |ps| && forall k :: 0 <= k < n ==> Params.ValidParam(ps[k])
    requires Holds(bs, 0, Params.EncParams(ps, n))
    ensures ParamAt(bs, ParamsSize(ps, i), ps[i]) && |Params.EncParams(ps, n)| == ParamsSize(ps, n)
    decreases n
  {
    hide Holds, Params.EncParam, Params.ValidParam, ParamAt, ParamSize;
    HoldsAppend(bs, 0, Params.EncParams(ps, n - 1), Params.EncParam(ps[n - 1]));
    if n == 1 {
      ParamStands(bs, 0, ps[0]);
    } else {
      ParamsLayout(bs, ps, n - 1, if i < n - 1 then i else 0);
      ParamStands(bs, |Params.EncParams(ps, n - 1)|, ps[n - 1]);
    }
  }
}
