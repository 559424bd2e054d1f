/**
  * The schema-driven serializer and parser of FTDF messages: DTS_setParams writes a list of
  * values, DTS_getParams reads them back under a schema whose sizes may come from fields read
  * earlier.
  */
module Params {
  import opened Bytes
  import opened Fields
  import opened PayloadIEs
  import P = PibAttributes

  // ---------------------------------------------------------------- writing

  datatype Param = IntP(value: int, size: nat)
                 | MemcpyP(bytes: seq<int>, count: int)
                 | KeySourceP(source: seq<int>)
                 | IEListP(list: Option<IEList>)
                 | PibP(pib: P.PibValue, atr: int)

  predicate ValidParam(p: Param) {
    match p
    case IntP(v, size) => FitsWidth(v, size)
    case MemcpyP(bytes, count) => ValidOctets(bytes, count)
    case KeySourceP(source) => ValidFixed(source, 8)
    case IEListP(list) => ValidIEList(Given(list))
    case PibP(pib, atr) => P.ValidPib(atr, pib)
  }

  function EncParam(p: Param): seq<byte>
    requires ValidParam(p)
  {
    match p
    case IntP(v, size) => Le(v, size)
    case MemcpyP(bytes, count) => PaddedOctets(bytes, count)
    case KeySourceP(source) => FixedOctets(source, 8)
    case IEListP(list) => EncIEList(Given(list))
    case PibP(pib, atr) => P.EncPib(atr, pib)
  }

  /** The caller's key source, which the setter fills up in place to at least eight entries. */
  function Extended(p: Param): Param {
    if p.KeySourceP? && |p.source| < 8 then KeySourceP(Fit(p.source, 8)) else p
  }

  function EncParams(ps: seq<Param>, n: nat): seq<byte>
    requires n <= |ps| && forall i :: 0 <= i < n ==> ValidParam(ps[i])
    decreases n
  {
    if n == 0 then [] else EncParams(ps, n - 1) + EncParam(ps[n - 1])
  }

  predicate ValidParams(ps: seq<Param>) {
    forall i :: 0 <= i < |ps| ==> ValidParam(ps[i])
  }

  /** One entry of DTS_setParams; source is the key source after it was filled up. */
  method SetParam(p: Param) returns (r: PyResult<seq<byte>>, source: seq<int>)
    ensures r == if ValidParam(p) then Ok(EncParam(p)) else Raises
    ensures p.KeySourceP? ==> KeySourceP(source) == Extended(p)
  {
    hide Le, ValidOctets, PaddedOctets, ValidFixed, FixedOctets, ValidIEList, EncIEList, P.ValidPib, P.EncPib, Given;
    source := [];
    match p
    case IntP(v, size) => r := ToBytes(v, size);
    case MemcpyP(bytes, count) => r := SetOctets(bytes, count);
    case KeySourceP(given) =>
      source := given;
      while |source| < 8
        invariant |given| <= |source| && source == Fit(given, |source|)
        invariant |source| <= 8 || source == given
      {
        source := source + [0];
      }
      r := SetFixed(source, 8);
      ExtendedSame(given, source);
    case IEListP(list) => r := SetPayloadIEList(list);
    case PibP(pib, atr) => r := P.SetPib(atr, pib);
  }

  /** Filling up changes neither what is accepted nor what is written. */
  lemma ExtendedSame(given: seq<int>, source: seq<int>)
    requires |given| <= |source| && source == Fit(given, |source|)
    ensures ValidFixed(source, 8) <==> ValidFixed(given, 8)
    ensures ValidFixed(given, 8) ==> FixedOctets(source, 8) == FixedOctets(given, 8)
  {
    forall i | 0 <= i < |given| ensures source[i] == given[i] {}
  }

  /** DTS_setParams; the result is the byte string that joining its list gives. */
  method SetParams(params: array<Param>) returns (r: PyResult<seq<byte>>)
    modifies params
    ensures r == if ValidParams(old(params[..])) then Ok(EncParams(old(params[..]), params.Length)) else Raises
    ensures forall i :: 0 <= i < params.Length ==> params[i] == old(params[i]) || params[i] == Extended(old(params[i]))
    ensures r.Ok? ==> forall i :: 0 <= i < params.Length ==> params[i] == Extended(old(params[i]))
  {
    hide ValidParam, EncParam, Extended;
    var out: seq<byte> := [];
    var n := 0;
    ghost var ps := params[..];
    while n < params.Length
      invariant 0 <= n <= params.Length
      invariant forall i :: 0 <= i < n ==> ValidParam(ps[i]) && params[i] == Extended(ps[i])
      invariant forall i :: n <= i < params.Length ==> params[i] == ps[i]
      invariant out == EncParams(ps, n)
    {
      var e, source := SetParam(params[n]);
      if params[n].KeySourceP? {
        params[n] := KeySourceP(source);
      } else {
        NotExtended(params[n]);
      }
      if e.Raises? {
        return Raises;
      }
      out := out + e.value;
      n := n + 1;
    }
    return Ok(out);
  }

  lemma NotExtended(p: Param)
    requires !p.KeySourceP?
    ensures Extended(p) == p
  {}

  // ---------------------------------------------------------------- reading

  /** How many bytes a memcpy takes: a number, or the value of a field read before. */
  datatype SizeRef = FromKey(key: string) | Fixed(n: int)

  datatype Spec = IntS(size: nat) | MemcpyS(amount: SizeRef) | KeySourceS | IEListS | PibS(attrKey: string)

  datatype Entry = Entry(key: string, spec: Spec)

  datatype Value = IntV(n: int) | BytesV(bytes: seq<int>) | ListV(list: IEList) | PibV(pib: P.PibValue)

  type Dict = map<string, Value>

  /** A dictionary entry used as a number. */
  function Number(d: Dict, key: string): Option<int> {
    if key !in d then None
    else match d[key]
         case IntV(n) => Some(n)
         case PibV(v) => if v.Number? then Some(v.n) else None
         case _ => None
  }

  function SizeOf(d: Dict, size: SizeRef): Option<int> {
    match size
    case FromKey(key) => Number(d, key)
    case Fixed(n) => Some(n)
  }

  function Drop(bs: seq<byte>, be: nat): seq<byte> { if be <= |bs| then bs[be..] else [] }

  function Clamp(n: int): nat { if n < 0 then 0 else n }

  /** The entry's value and the offset after it. */
  function DecEntry(bs: seq<byte>, d: Dict, be: nat, spec: Spec): PyResult<(Value, nat)> {
    match spec
    case IntS(k) => Ok((IntV(GetInt(bs, be, k)), be + k))
    case MemcpyS(size) =>
      (match SizeOf(d, size)
       case None => Raises
       case Some(n) => Ok((BytesV(ReadOctets(bs, be, Clamp(n))), be + Clamp(n) + PadLength(n))))
    case KeySourceS => Ok((BytesV(ReadOctets(bs, be, 8)), be + 8))
    case IEListS =>
      var (list, used) := DecIEList(Drop(bs, be), false);
      Ok((ListV(list), be + used))
    case PibS(attrKey) =>
      if attrKey !in d then Raises
      else Ok((PibV(P.DecPib(Number(d, attrKey).GetOr(-1), Drop(bs, be))), be))
  }

  function DecParams(bs: seq<byte>, schema: seq<Entry>, n: nat): PyResult<(Dict, nat)>
    requires n <= |schema|
    decreases n
  {
    if n == 0 then Ok((map[], 0))
    else match DecParams(bs, schema, n - 1)
         case Raises => Raises
         case Ok((d, be)) =>
           match DecEntry(bs, d, be, schema[n - 1].spec)
           case Raises => Raises
           case Ok((v, end)) => Ok((d[schema[n - 1].key := v], end))
  }

  method GetEntry(bs: seq<byte>, d: Dict, be: nat, spec: Spec) returns (r: PyResult<(Value, nat)>)
    ensures r == DecEntry(bs, d, be, spec)
  {
    hide GetInt, ReadOctets, DecIEList, P.DecPib, Number;
    match spec
    case IntS(k) => r := Ok((IntV(GetInt(bs, be, k)), be + k));
    case MemcpyS(size) =>
      var nrOfBytes := SizeOf(d, size);
      if nrOfBytes.None? {
        return Raises;
      }
      var bytes, be' := GetOctets(bs, be, Clamp(nrOfBytes.value));
      r := Ok((BytesV(bytes), be' + PadLength(nrOfBytes.value)));
    case KeySourceS =>
      var bytes, be' := GetOctets(bs, be, 8);
      r := Ok((BytesV(bytes), be'));
    case IEListS =>
      var list, bytesRead := GetPayloadIEList(Drop(bs, be), false);
      r := Ok((ListV(list), be + bytesRead));
    case PibS(attrKey) =>
      if attrKey !in d {
        return Raises;
      }
      var pib := P.GetPib(Number(d, attrKey).GetOr(-1), Drop(bs, be));
      r := Ok((PibV(pib), be));
  }

  /** DTS_getParams. */
  method GetParams(bytestream: seq<byte>, schema: seq<Entry>) returns (r: PyResult<Dict>)
    ensures r == match DecParams(bytestream, schema, |schema|) case Raises => Raises case Ok((d, _)) => Ok(d)
  {
    hide DecEntry;
    var d: Dict := map[];
    var be := 0;
    var i := 0;
    while i < |schema|
      invariant 0 <= i <= |schema| && DecParams(bytestream, schema, i) == Ok((d, be))
    {
      var e := GetEntry(bytestream, d, be, schema[i].spec);
      if e.Raises? {
        RaisesStays(bytestream, schema, i + 1, |schema|);
        return Raises;
      }
      d := d[schema[i].key := e.value.0];
      be := e.value.1;
      i := i + 1;
    }
    return Ok(d);
  }

  lemma {:induction false} RaisesStays(bs: seq<byte>, schema: seq<Entry>, m: nat, n: nat)
    requires m <= n <= |schema| && DecParams(bs, schema, m).Raises?
    ensures DecParams(bs, schema, n).Raises?
    decreases n
  {
    hide DecEntry;
    if m < n {
      RaisesStays(bs, schema, m, n - 1);
    }
  }

  // ---------------------------------------------------------------- the round trip

  /** Entry i of the schema describes value i; numbers it refers to were sent earlier as integers. */
  ghost predicate Describes(schema: seq<Entry>, ps: seq<Param>, i: nat)
    requires |schema| == |ps| && i < |ps|
  {
    match ps[i]
    case IntP(v, size) => schema[i].spec == IntS(size)
    case MemcpyP(bytes, count) =>
      && 0 <= count && schema[i].spec.MemcpyS?
      && (match schema[i].spec.amount
          case Fixed(n) => n == count
          case FromKey(key) => SentBefore(schema, ps, i, key, count))
    case KeySourceP(source) => schema[i].spec == KeySourceS
    case IEListP(list) => schema[i].spec == IEListS
    case PibP(pib, atr) =>
      i == |ps| - 1 && schema[i].spec.PibS? && SentBefore(schema, ps, i, schema[i].spec.attrKey, atr)
  }

  ghost predicate SentBefore(schema: seq<Entry>, ps: seq<Param>, i: nat, key: string, value: int)
    requires |schema| == |ps| && i < |ps|
  {
    exists j :: 0 <= j < i && schema[j].key == key && ps[j].IntP? && ps[j].value == value
  }

  ghost predicate Matching(schema: seq<Entry>, ps: seq<Param>) {
    && |schema| == |ps|
    && (forall i, j :: 0 <= i < j < |schema| ==> schema[i].key != schema[j].key)
    && forall i :: 0 <= i < |ps| ==> Describes(schema, ps, i)
  }

  /** The value a written parameter reads back as. */
  function KeptParam(p: Param): Value
    requires ValidParam(p)
  {
    match p
    case IntP(v, size) => IntV(v)
    case MemcpyP(bytes, count) => BytesV(bytes[..Clamp(count)])
    case KeySourceP(source) => BytesV(Fit(source, 8))
    case IEListP(list) => ListV(Kept(Given(list), false))
    case PibP(pib, atr) => PibV(P.KeptPib(atr, pib))
  }

  /** After n entries, the dictionary holds exactly their keys with the values that were sent. */
  ghost predicate Recovered(schema: seq<Entry>, ps: seq<Param>, n: nat, d: Dict)
    requires |schema| == |ps| && n <= |ps| && ValidParams(ps)
  {
    && (forall key :: key in d <==> exists i :: 0 <= i < n && schema[i].key == key)
    && forall i :: 0 <= i < n ==> schema[i].key in d && d[schema[i].key] == KeptParam(ps[i])
  }

  lemma NumberSent(schema: seq<Entry>, ps: seq<Param>, n: nat, d: Dict, key: string, value: int)
    requires |schema| == |ps| && n < |ps| && ValidParams(ps) && Recovered(schema, ps, n, d)
    requires SentBefore(schema, ps, n, key, value)
    ensures Number(d, key) == Some(value)
  {
    hide ValidParam;
  }

  lemma {:induction false} EntryBack(bs: seq<byte>, schema: seq<Entry>, ps: seq<Param>, n: nat, d: Dict, be: nat)
    requires |schema| == |ps| && n < |ps| && ValidParams(ps) && Describes(schema, ps, n)
    requires Recovered(schema, ps, n, d)
    requires Holds(bs, be, EncParam(ps[n]))
    ensures DecEntry(bs, d, be, schema[n].spec)
            == Ok((KeptParam(ps[n]), if ps[n].PibP? then be else be + |EncParam(ps[n])|))
  {
    hide Le, Holds, GetInt, ReadOctets, DecIEList, EncIEList, ValidIEList, Kept, Given, ValidFixed, FixedOctets,
      P.DecPib, P.ValidPib, P.EncPib, P.KeptPib, Recovered, SentBefore, Number, ValidParams, Fit;
    assert ValidParam(ps[n]) by { ParamValid(ps, n); }
    var e := EncParam(ps[n]);
    match ps[n]
    case IntP(v, size) => GetIntBack(bs, be, v, size);
    case MemcpyP(bytes, count) =>
      HoldsAppend(bs, be, Octets(bytes, count), Repeat(0, PadLength(count)));
      ReadOctetsBack(bs, be, bytes, count);
      match schema[n].spec.amount {
        case Fixed(k) =>
        case FromKey(key) => NumberSent(schema, ps, n, d, key, count);
      }
    case KeySourceP(source) => FixedBack(bs, be, source, 8);
    case IEListP(list) =>
      SplitAt(bs, be, e);
      IEListBack(Given(list), bs[be + |e|..], false);
    case PibP(pib, atr) =>
      SplitAt(bs, be, e);
      NumberSent(schema, ps, n, d, schema[n].spec.attrKey, atr);
      InDict(d, schema[n].spec.attrKey);
      P.PibBack(atr, pib, bs[be + |e|..]);
  }

  lemma ParamValid(ps: seq<Param>, n: nat)
    requires ValidParams(ps) && n < |ps|
    ensures ValidParam(ps[n])
  {}

  lemma InDict(d: Dict, key: string)
    requires Number(d, key).Some?
    ensures key in d
  {}

  lemma SplitAt(bs: seq<byte>, be: nat, e: seq<byte>)
    requires Holds(bs, be, e)
    ensures be + |e| <= |bs| && Drop(bs, be) == e + bs[be + |e|..]
  {
    assert bs[be..] == bs[be..be + |e|] + bs[be + |e|..];
  }

  lemma {:induction false} ParamsBack(bs: seq<byte>, schema: seq<Entry>, ps: seq<Param>, n: nat)
    requires Matching(schema, ps) && ValidParams(ps) && n <= |ps|
    requires Holds(bs, 0, EncParams(ps, n))
    ensures DecParams(bs, schema, n).Ok?
    ensures Recovered(schema, ps, n, DecParams(bs, schema, n).value.0)
    ensures n < |ps| ==> DecParams(bs, schema, n).value.1 == |EncParams(ps, n)|
    decreases n
  {
    hide Holds, DecEntry, EncParam, ValidParam, KeptParam, Recovered, Describes, Matching;
    MatchingLengths(schema, ps);
    if n == 0 {
      NothingRecovered(schema, ps);
    } else {
      HoldsAppend(bs, 0, EncParams(ps, n - 1), EncParam(ps[n - 1]));
      ParamsBack(bs, schema, ps, n - 1);
      var (d, be) := DecParams(bs, schema, n - 1).value;
      MatchingAt(schema, ps, n - 1);
      EntryBack(bs, schema, ps, n - 1, d, be);
      RecoveredMore(schema, ps, n - 1, d);
    }
  }

  lemma NothingRecovered(schema: seq<Entry>, ps: seq<Param>)
    requires |schema| == |ps| && ValidParams(ps)
    ensures Recovered(schema, ps, 0, map[])
  {
    hide ValidParam;
  }

  /** Only the last value is a PIB attribute. */
  lemma MatchingAt(schema: seq<Entry>, ps: seq<Param>, n: nat)
    requires Matching(schema, ps) && n < |ps|
    ensures |schema| == |ps| && Describes(schema, ps, n)
    ensures ps[n].PibP? ==> n == |ps| - 1
  {
    hide SentBefore;
    assert Describes(schema, ps, n);
  }

  lemma RecoveredMore(schema: seq<Entry>, ps: seq<Param>, n: nat, d: Dict)
    requires Matching(schema, ps) && ValidParams(ps) && n < |ps| && Recovered(schema, ps, n, d)
    ensures Recovered(schema, ps, n + 1, d[schema[n].key := KeptParam(ps[n])])
  {
    hide ValidParam, KeptParam, Describes;
  }

  /**
    * Parsing what was serialized, whatever bytes follow, succeeds and returns exactly the keys
    * of the schema, each with the value that was sent.
    */
  lemma {:induction false} ParamsRoundTrip(schema: seq<Entry>, ps: seq<Param>, tail: seq<byte>)
    requires Matching(schema, ps) && ValidParams(ps)
    ensures var r := DecParams(EncParams(ps, |ps|) + tail, schema, |schema|);
            r.Ok? && Recovered(schema, ps, |ps|, r.value.0)
  {
    hide EncParams, DecParams, Matching, Recovered;
    assert |schema| == |ps| by { MatchingLengths(schema, ps); }
    HoldsPrefix(EncParams(ps, |ps|), tail);
    ParamsBack(EncParams(ps, |ps|) + tail, schema, ps, |ps|);
  }

  lemma MatchingLengths(schema: seq<Entry>, ps: seq<Param>)
    requires Matching(schema, ps)
    ensures |schema| == |ps|
  {}

  // ---------------------------------------------------------------- lengths

  /** Integers of 4 or 8 bytes and everything else the messages use. */
  predicate WordSized(p: Param) {
    (p.IntP? ==> p.size == 4 || p.size == 8) && (p.MemcpyP? ==> p.count >= 0)
  }

  lemma {:induction false} ParamWords(p: Param)
    requires ValidParam(p) && WordSized(p)
    ensures |EncParam(p)| % 4 == 0
  {
    hide Le, PaddedOctets, FixedOctets, EncIEList, P.EncPib, P.ValidPib, ValidIEList, Given;
    match p
    case IntP(v, size) =>
    case MemcpyP(bytes, count) => PaddedOctetsLength(bytes, count);
    case KeySourceP(source) =>
    case IEListP(list) => IEListWords(Given(list));
    case PibP(pib, atr) => P.PibWords(atr, pib);
  }

  /** Every message of such parameters is a whole number of words. */
  lemma {:induction false} ParamsWords(ps: seq<Param>, n: nat)
    requires n <= |ps| && ValidParams(ps) && forall i :: 0 <= i < n ==> WordSized(ps[i])
    ensures |EncParams(ps, n)| % 4 == 0
    decreases n
  {
    hide EncParam, ValidParam, WordSized;
    if n != 0 {
      ParamsWords(ps, n - 1);
      ParamWords(ps[n - 1]);
      WordSum(|EncParams(ps, n - 1)|, |EncParam(ps[n - 1])|);
    }
  }
}
