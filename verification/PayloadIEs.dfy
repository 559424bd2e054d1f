/**
  * Payload information-element lists: a counted list of elements, of which those with ID 1
  * carry a counted list of sub-elements, all padded to words.
  */
module PayloadIEs {
  import opened Bytes
  import opened Fields

  /** The dictionary key a sub-element keeps its bytes under. */
  datatype ContentKey = SubContentKey | PlainContentKey

  datatype SubIE = SubIE(subType: int, subID: int, length: int, key: ContentKey, bytes: seq<int>)

  datatype Content = Raw(bytes: seq<int>) | Nested(nrOfSubIEs: int, subIEs: seq<SubIE>)

  datatype IE = IE(id: int, length: int, content: Content)

  datatype IEList = IEList(nrOfIEs: int, ies: seq<IE>)

  // ---------------------------------------------------------------- what the setter accepts

  /** The setter looks for the bytes under 'subContent', and only if there are any. */
  predicate ValidSubIE(s: SubIE) {
    && U32(s.subType) && U32(s.subID) && U32(s.length)
    && (s.length == 0 || s.key == SubContentKey)
    && ValidOctets(s.bytes, s.length)
  }

  predicate ValidContent(id: int, length: int, c: Content) {
    if id == 1 then
      && c.Nested? && U32(c.nrOfSubIEs) && c.nrOfSubIEs <= |c.subIEs|
      && forall i :: 0 <= i < c.nrOfSubIEs ==> ValidSubIE(c.subIEs[i])
    else
      length == 0 || (c.Raw? && ValidOctets(c.bytes, length))
  }

  predicate ValidIE(e: IE) {
    U32(e.id) && U32(e.length) && ValidContent(e.id, e.length, e.content)
  }

  predicate ValidIEList(v: IEList) {
    U32(v.nrOfIEs) && v.nrOfIEs <= |v.ies| && forall i :: 0 <= i < v.nrOfIEs ==> ValidIE(v.ies[i])
  }

  // ---------------------------------------------------------------- the encoding

  function SubHead(s: SubIE): seq<byte>
    requires ValidSubIE(s)
  {
    Le(s.subType, 4) + Le(s.subID, 4) + Le(s.length, 4)
  }

  function EncSubIE(s: SubIE): seq<byte>
    requires ValidSubIE(s)
  {
    SubHead(s) + PaddedOctets(s.bytes, s.length)
  }

  function EncSubIEs(s: seq<SubIE>, n: nat): seq<byte>
    requires n <= |s| && forall i :: 0 <= i < n ==> ValidSubIE(s[i])
    decreases n
  {
    if n == 0 then [] else EncSubIEs(s, n - 1) + EncSubIE(s[n - 1])
  }

  function EncContent(id: int, length: int, c: Content): seq<byte>
    requires U32(length) && ValidContent(id, length, c)
  {
    if id == 1 then Le(c.nrOfSubIEs, 4) + EncSubIEs(c.subIEs, c.nrOfSubIEs)
    else PaddedOctets(if c.Raw? then c.bytes else [], length)
  }

  function EncIE(e: IE): seq<byte>
    requires ValidIE(e)
  {
    (Le(e.id, 4) + Le(e.length, 4)) + EncContent(e.id, e.length, e.content)
  }

  function EncIEs(s: seq<IE>, n: nat): seq<byte>
    requires n <= |s| && forall i :: 0 <= i < n ==> ValidIE(s[i])
    decreases n
  {
    if n == 0 then [] else EncIEs(s, n - 1) + EncIE(s[n - 1])
  }

  function EncIEList(v: IEList): seq<byte>
    requires ValidIEList(v)
  {
    Le(v.nrOfIEs, 4) + EncIEs(v.ies, v.nrOfIEs)
  }

  // ---------------------------------------------------------------- the setter

  method SetSubIE(tmp: SubIE) returns (r: PyResult<seq<byte>>)
    ensures r == if ValidSubIE(tmp) then Ok(EncSubIE(tmp)) else Raises
  {
    hide Le;
    if !U32(tmp.subType) || !U32(tmp.subID) || !U32(tmp.length) {
      return Raises;
    }
    if tmp.length > 0 && tmp.key != SubContentKey {
      return Raises;
    }
    var content := SetOctets(tmp.bytes, tmp.length);
    if content.Raises? {
      return Raises;
    }
    return Ok(Le(tmp.subType, 4) + Le(tmp.subID, 4) + Le(tmp.length, 4) + content.value);
  }

  method SetSubIEs(subIEs: seq<SubIE>, nrOfSubIEs: nat) returns (r: PyResult<seq<byte>>)
    ensures r == if nrOfSubIEs <= |subIEs| && (forall i :: 0 <= i < nrOfSubIEs ==> ValidSubIE(subIEs[i]))
                 then Ok(EncSubIEs(subIEs, nrOfSubIEs)) else Raises
  {
    hide ValidSubIE, EncSubIE;
    var out: seq<byte> := [];
    var m := 0;
    while m < nrOfSubIEs
      invariant 0 <= m <= nrOfSubIEs && m <= |subIEs|
      invariant forall i :: 0 <= i < m ==> ValidSubIE(subIEs[i])
      invariant out == EncSubIEs(subIEs, m)
    {
      if m >= |subIEs| {
        return Raises;
      }
      var s := SetSubIE(subIEs[m]);
      if s.Raises? {
        return Raises;
      }
      out := out + s.value;
      m := m + 1;
    }
    return Ok(out);
  }

  method SetIE(e: IE) returns (r: PyResult<seq<byte>>)
    ensures r == if ValidIE(e) then Ok(EncIE(e)) else Raises
  {
    if !U32(e.id) || !U32(e.length) {
      return Raises;
    }
    var content;
    if e.id == 1 {
      if e.content.Raw? || !U32(e.content.nrOfSubIEs) {
        return Raises;
      }
      content := SetSubIEs(e.content.subIEs, e.content.nrOfSubIEs);
      if content.Ok? {
        content := Ok(Le(e.content.nrOfSubIEs, 4) + content.value);
      }
    } else {
      if e.length > 0 && e.content.Nested? {
        return Raises;
      }
      content := SetOctets(if e.content.Raw? then e.content.bytes else [], e.length);
    }
    if content.Raises? {
      return Raises;
    }
    return Ok(Le(e.id, 4) + Le(e.length, 4) + content.value);
  }

  /** DTS_setPayloadIEList; None stands for the plain integer 0, the empty list. */
  method SetPayloadIEList(val: Option<IEList>) returns (r: PyResult<seq<byte>>)
    ensures r == var v := Given(val); if ValidIEList(v) then Ok(EncIEList(v)) else Raises
  {
    hide ValidIE, EncIE;
    if val.None? {
      assert Le(0, 4) + EncIEs([], 0) == Le(0, 4);
      return Ok(Le(0, 4));
    }
    var v := val.value;
    if !U32(v.nrOfIEs) {
      return Raises;
    }
    var out: seq<byte> := Le(v.nrOfIEs, 4);
    var n := 0;
    while n < v.nrOfIEs
      invariant 0 <= n <= v.nrOfIEs && n <= |v.ies|
      invariant forall i :: 0 <= i < n ==> ValidIE(v.ies[i])
      invariant out == Le(v.nrOfIEs, 4) + EncIEs(v.ies, n)
    {
      if n >= |v.ies| {
        return Raises;
      }
      var e := SetIE(v.ies[n]);
      if e.Raises? {
        return Raises;
      }
      out := out + e.value;
      n := n + 1;
    }
    return Ok(out);
  }

  function Given(val: Option<IEList>): IEList {
    if val.None? then IEList(0, []) else val.value
  }

  // ---------------------------------------------------------------- the getter

  function KeyFor(pib: bool): ContentKey { if pib then SubContentKey else PlainContentKey }

  function DecSubIE(bs: seq<byte>, be: nat, pib: bool): (SubIE, nat) {
    var length := GetInt(bs, be + 8, 4);
    (SubIE(GetInt(bs, be, 4), GetInt(bs, be + 4, 4), length, KeyFor(pib), ReadOctets(bs, be + 12, length)),
     be + 12 + length + PadLength(length))
  }

  function DecSubIEs(bs: seq<byte>, be: nat, n: nat, pib: bool): (r: (seq<SubIE>, nat))
    ensures |r.0| == n
    decreases n
  {
    if n == 0 then ([], be)
    else
      var (front, at) := DecSubIEs(bs, be, n - 1, pib);
      var (s, end) := DecSubIE(bs, at, pib);
      (front + [s], end)
  }

  function DecIE(bs: seq<byte>, be: nat, pib: bool): (IE, nat) {
    var id := GetInt(bs, be, 4);
    var length := GetInt(bs, be + 4, 4);
    if id == 1 then
      var n := GetInt(bs, be + 8, 4);
      var (subIEs, end) := DecSubIEs(bs, be + 12, n, pib);
      (IE(id, length, Nested(n, subIEs)), end)
    else
      (IE(id, length, Raw(ReadOctets(bs, be + 8, length))), be + 8 + length + PadLength(length))
  }

  function DecIEs(bs: seq<byte>, be: nat, n: nat, pib: bool): (r: (seq<IE>, nat))
    ensures |r.0| == n
    decreases n
  {
    if n == 0 then ([], be)
    else
      var (front, at) := DecIEs(bs, be, n - 1, pib);
      var (e, end) := DecIE(bs, at, pib);
      (front + [e], end)
  }

  function DecIEList(bs: seq<byte>, pib: bool): (IEList, nat) {
    var n := GetInt(bs, 0, 4);
    var (ies, end) := DecIEs(bs, 4, n, pib);
    (IEList(n, ies), end)
  }

  method GetSubIE(bs: seq<byte>, be0: nat, pib: bool) returns (s: SubIE, be: nat)
    ensures (s, be) == DecSubIE(bs, be0, pib)
  {
    be := be0;
    var subType := GetInt(bs, be, 4);
    var subID := GetInt(bs, be + 4, 4);
    var subLen := GetInt(bs, be + 8, 4);
    be := be + 12;
    var subContent;
    subContent, be := GetOctets(bs, be, subLen);
    be := be + PadLength(subLen);
    if pib {
      s := SubIE(subType, subID, subLen, SubContentKey, subContent);
    } else {
      s := SubIE(subType, subID, subLen, PlainContentKey, subContent);
    }
  }

  method GetSubIEs(bs: seq<byte>, be0: nat, nrOfSubIEs: nat, pib: bool) returns (subIEs: seq<SubIE>, be: nat)
    ensures (subIEs, be) == DecSubIEs(bs, be0, nrOfSubIEs, pib)
  {
    hide DecSubIE;
    subIEs, be := [], be0;
    var m := 0;
    while m < nrOfSubIEs
      invariant 0 <= m <= nrOfSubIEs && (subIEs, be) == DecSubIEs(bs, be0, m, pib)
    {
      var s;
      s, be := GetSubIE(bs, be, pib);
      subIEs := subIEs + [s];
      m := m + 1;
    }
  }

  method GetIE(bs: seq<byte>, be0: nat, pib: bool) returns (e: IE, be: nat)
    ensures (e, be) == DecIE(bs, be0, pib)
  {
    hide DecSubIEs, ReadOctets;
    be := be0;
    var id := GetInt(bs, be, 4);
    var length := GetInt(bs, be + 4, 4);
    be := be + 8;
    var content;
    if id == 1 {
      var nrOfSubIEs := GetInt(bs, be, 4);
      be := be + 4;
      var subIEs;
      subIEs, be := GetSubIEs(bs, be, nrOfSubIEs, pib);
      content := Nested(nrOfSubIEs, subIEs);
    } else {
      var bytes;
      bytes, be := GetOctets(bs, be, length);
      be := be + PadLength(length);
      content := Raw(bytes);
    }
    e := IE(id, length, content);
  }

  /** DTS_getPayloadIEList; be is the number of bytes read. */
  method GetPayloadIEList(bs: seq<byte>, pib: bool) returns (v: IEList, be: nat)
    ensures (v, be) == DecIEList(bs, pib)
  {
    hide DecIE;
    var nrOfIEs := GetInt(bs, 0, 4);
    be := 4;
    var ies: seq<IE> := [];
    var n := 0;
    while n < nrOfIEs
      invariant 0 <= n <= nrOfIEs && (ies, be) == DecIEs(bs, 4, n, pib)
    {
      var e;
      e, be := GetIE(bs, be, pib);
      ies := ies + [e];
      n := n + 1;
    }
    v := IEList(nrOfIEs, ies);
  }

  // ---------------------------------------------------------------- what comes back

  /** The part of a sub-element that the counts cover, under the key the getter uses. */
  function KeptSubIE(s: SubIE, pib: bool): SubIE
    requires ValidSubIE(s)
  {
    s.(key := KeyFor(pib), bytes := s.bytes[..s.length])
  }

  function KeptSubIEs(s: seq<SubIE>, n: nat, pib: bool): (r: seq<SubIE>)
    requires n <= |s| && forall i :: 0 <= i < n ==> ValidSubIE(s[i])
    ensures |r| == n && forall i :: 0 <= i < n ==> r[i] == KeptSubIE(s[i], pib)
  {
    seq(n, i requires 0 <= i < n => KeptSubIE(s[i], pib))
  }

  function KeptIE(e: IE, pib: bool): IE
    requires ValidIE(e)
  {
    e.(content := if e.id == 1 then Nested(e.content.nrOfSubIEs,
                                           KeptSubIEs(e.content.subIEs, e.content.nrOfSubIEs, pib))
                  else if e.length == 0 then Raw([])
                  else Raw(e.content.bytes[..e.length]))
  }

  function Kept(v: IEList, pib: bool): (r: IEList)
    requires ValidIEList(v)
    ensures r.nrOfIEs == v.nrOfIEs == |r.ies| && forall i :: 0 <= i < v.nrOfIEs ==> r.ies[i] == KeptIE(v.ies[i], pib)
  {
    IEList(v.nrOfIEs, seq(v.nrOfIEs, i requires 0 <= i < v.nrOfIEs => KeptIE(v.ies[i], pib)))
  }

  lemma {:induction false} SubIEBack(bs: seq<byte>, be: nat, s: SubIE, pib: bool)
    requires ValidSubIE(s) && Holds(bs, be, EncSubIE(s))
    ensures DecSubIE(bs, be, pib) == (KeptSubIE(s, pib), be + |EncSubIE(s)|)
  {
    hide Le, Holds, Slice, UnLe, GetInt;
    var a, b, c, d := Le(s.subType, 4), Le(s.subID, 4), Le(s.length, 4), Octets(s.bytes, s.length);
    var p := Repeat(0, PadLength(s.length));
    HoldsAppend(bs, be, a + b + c, d + p);
    HoldsAppend(bs, be, a + b, c);
    HoldsAppend(bs, be, a, b);
    HoldsAppend(bs, be + 12, d, p);
    U32Fits(s.subType);
    U32Fits(s.subID);
    U32Fits(s.length);
    GetIntBack(bs, be, s.subType, 4);
    GetIntBack(bs, be + 4, s.subID, 4);
    GetIntBack(bs, be + 8, s.length, 4);
    ReadOctetsBack(bs, be + 12, s.bytes, s.length);
  }

  lemma {:induction false} SubIEsBack(bs: seq<byte>, be: nat, s: seq<SubIE>, n: nat, pib: bool)
    requires n <= |s| && forall i :: 0 <= i < n ==> ValidSubIE(s[i])
    requires Holds(bs, be, EncSubIEs(s, n))
    ensures DecSubIEs(bs, be, n, pib) == (KeptSubIEs(s, n, pib), be + |EncSubIEs(s, n)|)
    decreases n
  {
    hide Holds, DecSubIE, EncSubIE, ValidSubIE, KeptSubIE;
    if n != 0 {
      HoldsAppend(bs, be, EncSubIEs(s, n - 1), EncSubIE(s[n - 1]));
      SubIEsBack(bs, be, s, n - 1, pib);
      SubIEBack(bs, be + |EncSubIEs(s, n - 1)|, s[n - 1], pib);
      assert KeptSubIEs(s, n, pib) == KeptSubIEs(s, n - 1, pib) + [KeptSubIE(s[n - 1], pib)];
    }
  }

  lemma {:induction false} IEBack(bs: seq<byte>, be: nat, e: IE, pib: bool)
    requires ValidIE(e) && Holds(bs, be, EncIE(e))
    ensures DecIE(bs, be, pib) == (KeptIE(e, pib), be + |EncIE(e)|)
  {
    hide Le, Holds, Slice, UnLe, GetInt, EncSubIEs, DecSubIEs, KeptSubIEs, ValidSubIE;
    var a, b, c := Le(e.id, 4), Le(e.length, 4), EncContent(e.id, e.length, e.content);
    HoldsAppend(bs, be, a + b, c);
    HoldsAppend(bs, be, a, b);
    U32Fits(e.id);
    U32Fits(e.length);
    GetIntBack(bs, be, e.id, 4);
    GetIntBack(bs, be + 4, e.length, 4);
    if e.id == 1 {
      var n := e.content.nrOfSubIEs;
      HoldsAppend(bs, be + 8, Le(n, 4), EncSubIEs(e.content.subIEs, n));
      U32Fits(n);
      GetIntBack(bs, be + 8, n, 4);
      SubIEsBack(bs, be + 12, e.content.subIEs, n, pib);
    } else {
      var bytes := if e.content.Raw? then e.content.bytes else [];
      HoldsAppend(bs, be + 8, Octets(bytes, e.length), Repeat(0, PadLength(e.length)));
      ReadOctetsBack(bs, be + 8, bytes, e.length);
    }
  }

  lemma {:induction false} IEsBack(bs: seq<byte>, be: nat, v: IEList, n: nat, pib: bool)
    requires ValidIEList(v) && n <= v.nrOfIEs
    requires Holds(bs, be, EncIEs(v.ies, n))
    ensures DecIEs(bs, be, n, pib) == (Kept(v, pib).ies[..n], be + |EncIEs(v.ies, n)|)
    decreases n
  {
    hide Holds, DecIE, EncIE, ValidIE, KeptIE;
    if n != 0 {
      HoldsAppend(bs, be, EncIEs(v.ies, n - 1), EncIE(v.ies[n - 1]));
      IEsBack(bs, be, v, n - 1, pib);
      IEBack(bs, be + |EncIEs(v.ies, n - 1)|, v.ies[n - 1], pib);
      var k := Kept(v, pib).ies;
      assert k[..n] == k[..n - 1] + [k[n - 1]];
    }
  }

  /**
    * Reading an encoded list back, at any place in a longer string, returns what the counts
    * cover and consumes exactly the bytes written.
    */
  lemma {:induction false} IEListBack(v: IEList, tail: seq<byte>, pib: bool)
    requires ValidIEList(v)
    ensures DecIEList(EncIEList(v) + tail, pib) == (Kept(v, pib), |EncIEList(v)|)
  {
    hide Le, Holds, EncIEs, DecIEs, GetInt, Kept;
    var bs := EncIEList(v) + tail;
    HoldsPrefix(EncIEList(v), tail);
    HoldsAppend(bs, 0, Le(v.nrOfIEs, 4), EncIEs(v.ies, v.nrOfIEs));
    U32Fits(v.nrOfIEs);
    GetIntBack(bs, 0, v.nrOfIEs, 4);
    IEsBack(bs, 4, v, v.nrOfIEs, pib);
    assert Kept(v, pib).ies[..v.nrOfIEs] == Kept(v, pib).ies;
  }

  /** The counts say exactly how much there is, and sub-elements use the getter's key. */
  ghost predicate Exact(v: IEList, pib: bool) {
    ValidIEList(v) && Kept(v, pib) == v
  }

  /** A list whose counts are right comes back unchanged. */
  lemma {:induction false} ExactListBack(v: IEList, tail: seq<byte>, pib: bool)
    requires Exact(v, pib)
    ensures ValidIEList(v) && DecIEList(EncIEList(v) + tail, pib) == (v, |EncIEList(v)|)
  {
    hide EncIEList, DecIEList, Kept, ValidIEList;
    IEListBack(v, tail, pib);
  }

  // ---------------------------------------------------------------- lengths

  lemma SubIEWords(s: SubIE)
    requires ValidSubIE(s)
    ensures |EncSubIE(s)| % 4 == 0
  {
    hide Le, PaddedOctets;
    PaddedOctetsLength(s.bytes, s.length);
    WordSum(12, |PaddedOctets(s.bytes, s.length)|);
  }

  lemma {:induction false} SubIEsWords(s: seq<SubIE>, n: nat)
    requires n <= |s| && forall i :: 0 <= i < n ==> ValidSubIE(s[i])
    ensures |EncSubIEs(s, n)| % 4 == 0
    decreases n
  {
    hide EncSubIE, ValidSubIE;
    if n != 0 {
      SubIEsWords(s, n - 1);
      SubIEWords(s[n - 1]);
      WordSum(|EncSubIEs(s, n - 1)|, |EncSubIE(s[n - 1])|);
    }
  }

  lemma {:induction false} IEWords(e: IE)
    requires ValidIE(e)
    ensures |EncIE(e)| % 4 == 0
  {
    hide Le, PaddedOctets, EncSubIEs, ValidSubIE;
    if e.id == 1 {
      SubIEsWords(e.content.subIEs, e.content.nrOfSubIEs);
      WordSum(12, |EncSubIEs(e.content.subIEs, e.content.nrOfSubIEs)|);
    } else {
      var bytes := if e.content.Raw? then e.content.bytes else [];
      PaddedOctetsLength(bytes, e.length);
      WordSum(8, |PaddedOctets(bytes, e.length)|);
    }
  }

  lemma {:induction false} IEsWords(s: seq<IE>, n: nat)
    requires n <= |s| && forall i :: 0 <= i < n ==> ValidIE(s[i])
    ensures |EncIEs(s, n)| % 4 == 0
    decreases n
  {
    hide EncIE, ValidIE;
    if n != 0 {
      IEsWords(s, n - 1);
      IEWords(s[n - 1]);
      WordSum(|EncIEs(s, n - 1)|, |EncIE(s[n - 1])|);
    }
  }

  /** Every encoding is a whole number of words. */
  lemma {:induction false} IEListWords(v: IEList)
    requires ValidIEList(v)
    ensures |EncIEList(v)| % 4 == 0
  {
    hide Le, EncIEs, ValidIE;
    IEsWords(v.ies, v.nrOfIEs);
    WordSum(4, |EncIEs(v.ies, v.nrOfIEs)|);
  }

  // ---------------------------------------------------------------- decoded values

  lemma DecodedSubIE(bs: seq<byte>, be: nat, pib: bool)
    ensures var s := DecSubIE(bs, be, pib).0;
            && U32(s.length) && |s.bytes| == s.length && s.key == KeyFor(pib)
            && (ValidSubIE(s) <==> pib || s.length == 0)
            && (ValidSubIE(s) ==> KeptSubIE(s, pib) == s)
  {
    GetU32(bs, be);
    GetU32(bs, be + 4);
    GetU32(bs, be + 8);
  }

  lemma {:induction false} DecodedSubIEs(bs: seq<byte>, be: nat, n: nat, pib: bool, i: nat)
    requires i < n
    ensures var s := DecSubIEs(bs, be, n, pib).0[i];
            && s.key == KeyFor(pib)
            && (ValidSubIE(s) <==> pib || s.length == 0)
            && (ValidSubIE(s) ==> KeptSubIE(s, pib) == s)
    decreases n
  {
    hide ValidSubIE, KeptSubIE, DecSubIE;
    if i == n - 1 {
      DecodedSubIE(bs, DecSubIEs(bs, be, n - 1, pib).1, pib);
    } else {
      DecodedSubIEs(bs, be, n - 1, pib, i);
    }
  }

  /** No sub-element of the element carries bytes. */
  predicate NoSubContent(e: IE) {
    e.id == 1 && e.content.Nested? ==> forall i :: 0 <= i < |e.content.subIEs| ==> e.content.subIEs[i].length == 0
  }

  lemma DecodedIE(bs: seq<byte>, be: nat, pib: bool)
    ensures var e := DecIE(bs, be, pib).0;
            && (ValidIE(e) <==> pib || NoSubContent(e))
            && (ValidIE(e) ==> KeptIE(e, pib) == e)
  {
    hide ValidSubIE, KeptSubIE, DecSubIE, GetInt, DecSubIEs;
    GetU32(bs, be);
    GetU32(bs, be + 4);
    GetU32(bs, be + 8);
    var e := DecIE(bs, be, pib).0;
    if e.id == 1 {
      forall i | 0 <= i < |e.content.subIEs|
        ensures var s := e.content.subIEs[i];
                (ValidSubIE(s) <==> pib || s.length == 0) && (ValidSubIE(s) ==> KeptSubIE(s, pib) == s)
      {
        DecodedSubIEs(bs, be + 12, e.content.nrOfSubIEs, pib, i);
      }
    }
  }

  lemma {:induction false} DecodedIEs(bs: seq<byte>, be: nat, n: nat, pib: bool, i: nat)
    requires i < n
    ensures var e := DecIEs(bs, be, n, pib).0[i];
            && (ValidIE(e) <==> pib || NoSubContent(e))
            && (ValidIE(e) ==> KeptIE(e, pib) == e)
    decreases n
  {
    hide ValidIE, KeptIE, DecIE, NoSubContent;
    if i == n - 1 {
      DecodedIE(bs, DecIEs(bs, be, n - 1, pib).1, pib);
    } else {
      DecodedIEs(bs, be, n - 1, pib, i);
    }
  }

  /**
    * Any byte string decodes to a list with exact counts. What the getter returns is accepted
    * by the setter again exactly when it was read in PIB form, or no sub-element carries bytes:
    * outside the PIB the two sides disagree on the name of the key.
    */
  lemma {:induction false} DecodedIsExact(bs: seq<byte>, pib: bool)
    ensures var v := DecIEList(bs, pib).0;
            && (ValidIEList(v) <==> pib || forall i :: 0 <= i < |v.ies| ==> NoSubContent(v.ies[i]))
            && (ValidIEList(v) ==> Exact(v, pib))
  {
    hide ValidIE, KeptIE, DecIEs, NoSubContent, GetInt;
    var v := DecIEList(bs, pib).0;
    GetU32(bs, 0);
    forall i | 0 <= i < |v.ies|
      ensures (ValidIE(v.ies[i]) <==> pib || NoSubContent(v.ies[i]))
              && (ValidIE(v.ies[i]) ==> KeptIE(v.ies[i], pib) == v.ies[i])
    {
      DecodedIEs(bs, 4, v.nrOfIEs, pib, i);
    }
  }

  /** Decode, encode, decode: the second decoding finds what the first one found. */
  lemma {:induction false} DecodeIsStable(bs: seq<byte>, tail: seq<byte>)
    ensures ValidIEList(DecIEList(bs, true).0)
    ensures DecIEList(EncIEList(DecIEList(bs, true).0) + tail, true).0 == DecIEList(bs, true).0
  {
    hide EncIEList, DecIEList, Kept, ValidIEList, Exact;
    DecodedIsExact(bs, true);
    ExactListBack(DecIEList(bs, true).0, tail, true);
  }

  lemma LeSmall(n: byte)
    ensures Le(n, 4) == [n, 0, 0, 0]
  {
    assert Le(0, 1) == [0];
    assert Le(0, 2) == [0, 0];
    assert Le(0, 3) == [0, 0, 0];
  }

  /** A list of one element with one sub-element, which carries the single byte 5. */
  const ONE_SUB_ELEMENT: seq<byte> := [1, 0, 0, 0] + ([1, 0, 0, 0] + [0, 0, 0, 0] + ([1, 0, 0, 0]
                                      + ([2, 0, 0, 0] + [3, 0, 0, 0] + [1, 0, 0, 0] + ([5] + [0, 0, 0]))))

  lemma OneSubElementIsEncoded()
    ensures var v := IEList(1, [IE(1, 0, Nested(1, [SubIE(2, 3, 1, SubContentKey, [5])]))]);
            ValidIEList(v) && EncIEList(v) == ONE_SUB_ELEMENT
  {
    hide Le;
    LeSmall(0);
    LeSmall(1);
    LeSmall(2);
    LeSmall(3);
    var s := SubIE(2, 3, 1, SubContentKey, [5]);
    assert Repeat(0, 3) == [0, 0, 0];
    assert EncSubIE(s) == [2, 0, 0, 0] + [3, 0, 0, 0] + [1, 0, 0, 0] + ([5] + [0, 0, 0]);
    assert EncSubIEs([s], 1) == EncSubIE(s);
    var e := IE(1, 0, Nested(1, [s]));
    assert EncIEs([e], 1) == EncIE(e);
  }

  /** Received outside the PIB, this list cannot be sent on. */
  lemma ReceivedListIsRefused()
    ensures !ValidIEList(DecIEList(ONE_SUB_ELEMENT, false).0)
  {
    OneSubElementIsEncoded();
    var s := SubIE(2, 3, 1, SubContentKey, [5]);
    var v := IEList(1, [IE(1, 0, Nested(1, [s]))]);
    hide EncIEList, DecIEList;
    IEListBack(v, [], false);
    assert ONE_SUB_ELEMENT + [] == ONE_SUB_ELEMENT;
    var r := DecIEList(ONE_SUB_ELEMENT, false).0;
    assert r.ies[0] == KeptIE(v.ies[0], false);
    assert r.ies[0].content.subIEs[0] == KeptSubIE(s, false);
    assert !ValidSubIE(r.ies[0].content.subIEs[0]);
  }
}
