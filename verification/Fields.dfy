/**
  * What the message codecs share: integers of a fixed width, byte arrays, padding, and the
  * forward reading of a byte string from an offset. Reads past the end yield zeros, as
  * int.from_bytes does on the short slices Python hands it.
  */
module Fields {
  import opened Bytes

  // ---------------------------------------------------------------- one integer

  const U32_LIMIT := 0x1_0000_0000

  predicate U32(n: int) { 0 <= n < U32_LIMIT }

  predicate FitsWidth(n: int, k: nat) { 0 <= n < Pow256(k) }

  /** n.to_bytes(k, 'little') */
  function ToBytes(n: int, k: nat): PyResult<seq<byte>> {
    if FitsWidth(n, k) then Ok(Le(n, k)) else Raises
  }

  lemma U32Fits(n: int)
    ensures U32(n) <==> FitsWidth(n, 4)
  {
    Pow256Values();
  }

  /** int.from_bytes(bs[be:be+k], 'little') */
  function GetInt(bs: seq<byte>, be: nat, k: nat): nat {
    UnLe(Slice(bs, be, be + k))
  }

  lemma {:induction false} Pow256Grows(j: nat, k: nat)
    requires j <= k
    ensures Pow256(j) <= Pow256(k)
    decreases k
  {
    if j < k {
      Pow256Grows(j, k - 1);
    }
  }

  lemma GetIntFits(bs: seq<byte>, be: nat, k: nat)
    ensures FitsWidth(GetInt(bs, be, k), k)
  {
    UnLeBound(Slice(bs, be, be + k));
    Pow256Grows(|Slice(bs, be, be + k)|, k);
  }

  lemma GetU32(bs: seq<byte>, be: nat)
    ensures U32(GetInt(bs, be, 4))
  {
    GetIntFits(bs, be, 4);
    U32Fits(GetInt(bs, be, 4));
  }

  lemma GetIntBack(bs: seq<byte>, be: nat, n: int, k: nat)
    requires FitsWidth(n, k) && Holds(bs, be, Le(n, k))
    ensures GetInt(bs, be, k) == n
  {
    HoldsLe(bs, be, n, k);
  }

  // ---------------------------------------------------------------- byte arrays

  /** c[i].to_bytes(1, 'little') works for every i in range(n). */
  predicate ValidOctets(c: seq<int>, n: int) {
    n <= |c| && forall i :: 0 <= i < n ==> 0 <= c[i] < 256
  }

  function Octets(c: seq<int>, n: int): (s: seq<byte>)
    requires ValidOctets(c, n)
    ensures |s| == if n < 0 then 0 else n
  {
    if n <= 0 then [] else c[..n]
  }

  /** ((int(n / 4) + 1) * 4) - n, where int truncates toward zero. */
  function PadLength(n: int): (p: nat)
    ensures 0 <= n ==> 1 <= p <= 4 && (n + p) % 4 == 0
    ensures 0 <= n && n % 4 == 0 ==> p == 4
    ensures n < 0 ==> p % 4 == (-n) % 4
  {
    ((if n >= 0 then n / 4 else -((-n) / 4)) + 1) * 4 - n
  }

  lemma WordSum(a: nat, b: nat)
    requires a % 4 == 0 && b % 4 == 0
    ensures (a + b) % 4 == 0
  {}

  /** A byte array followed by its padding. */
  function PaddedOctets(c: seq<int>, n: int): (s: seq<byte>)
    requires ValidOctets(c, n)
  {
    Octets(c, n) + Repeat(0, PadLength(n))
  }

  lemma PaddedOctetsLength(c: seq<int>, n: nat)
    requires ValidOctets(c, n)
    ensures |PaddedOctets(c, n)| == n + PadLength(n)
    ensures |PaddedOctets(c, n)| % 4 == 0
  {}

  /** Writes a byte array and its padding. */
  method SetOctets(c: seq<int>, n: int) returns (r: PyResult<seq<byte>>)
    ensures r == if ValidOctets(c, n) then Ok(PaddedOctets(c, n)) else Raises
  {
    var out: seq<byte> := [];
    var i := 0;
    while i < n
      invariant 0 <= i && (0 <= n ==> i <= n) && i <= |c|
      invariant n < 0 ==> i == 0
      invariant forall k :: 0 <= k < i ==> 0 <= c[k] < 256
      invariant out == c[..i]
    {
      if i >= |c| || !(0 <= c[i] < 256) {
        return Raises;
      }
      var b: byte := c[i];
      assert c[..i + 1] == c[..i] + [c[i]];
      out := out + [b];
      i := i + 1;
    }
    var pad := PadLength(n);
    var j := 0;
    var zeros: seq<byte> := [];
    while j < pad
      invariant 0 <= j <= pad && zeros == Repeat(0, j)
    {
      zeros := zeros + [0];
      j := j + 1;
    }
    return Ok(out + zeros);
  }

  /** n bytes from be on. */
  function ReadOctets(bs: seq<byte>, be: nat, n: nat): (c: seq<int>)
    ensures |c| == n
    ensures ValidOctets(c, n)
  {
    seq(n, i => if 0 <= i && be + i < |bs| then bs[be + i] else 0)
  }

  method GetOctets(bs: seq<byte>, be: nat, n: nat) returns (c: seq<int>, be': nat)
    ensures c == ReadOctets(bs, be, n) && be' == be + n
  {
    c, be' := [], be;
    var i := 0;
    while i < n
      invariant 0 <= i <= n && be' == be + i && c == ReadOctets(bs, be, i)
    {
      SliceOne(bs, be');
      c := c + [UnLe(Slice(bs, be', be' + 1))];
      be' := be' + 1;
      i := i + 1;
    }
  }

  lemma SliceOne(bs: seq<byte>, be: nat)
    ensures UnLe(Slice(bs, be, be + 1)) == if be < |bs| then bs[be] else 0
  {
    if be < |bs| {
      assert bs[be..be + 1] == [bs[be]] && [bs[be]][1..] == [];
    }
  }

  lemma {:induction false} ReadOctetsBack(bs: seq<byte>, be: nat, c: seq<int>, n: nat)
    requires ValidOctets(c, n) && Holds(bs, be, Octets(c, n))
    ensures ReadOctets(bs, be, n) == c[..n]
  {
    forall i | 0 <= i < n ensures bs[be + i] == c[i] {
      assert bs[be + i] == bs[be..be + n][i];
    }
  }

  // ---------------------------------------------------------------- arrays of a fixed size

  /** The first size entries are bytes; missing ones will be zeros. */
  predicate ValidFixed(c: seq<int>, size: nat) {
    forall i :: 0 <= i < |c| && i < size ==> 0 <= c[i] < 256
  }

  /** c cut or filled up with zeros to exactly size entries. */
  function Fit(c: seq<int>, size: nat): (r: seq<int>)
    ensures |r| == size
    ensures |c| == size ==> r == c
  {
    if |c| >= size then c[..size] else c + seq(size - |c|, _ => 0)
  }

  function FixedOctets(c: seq<int>, size: nat): (s: seq<byte>)
    requires ValidFixed(c, size)
    ensures |s| == size && s == Fit(c, size)
  {
    Fit(c, size)
  }

  method SetFixed(c: seq<int>, size: nat) returns (r: PyResult<seq<byte>>)
    ensures r == if ValidFixed(c, size) then Ok(FixedOctets(c, size)) else Raises
  {
    var out: seq<byte> := [];
    var k := 0;
    while k < size
      invariant 0 <= k <= size
      invariant forall i :: 0 <= i < |c| && i < k ==> 0 <= c[i] < 256
      invariant out == Fit(c, k)
    {
      if k < |c| {
        if !(0 <= c[k] < 256) {
          return Raises;
        }
        var b: byte := c[k];
        out := out + [b];
      } else {
        out := out + [0];
      }
      k := k + 1;
    }
    return Ok(out);
  }

  lemma {:induction false} FixedBack(bs: seq<byte>, be: nat, c: seq<int>, size: nat)
    requires ValidFixed(c, size) && Holds(bs, be, FixedOctets(c, size))
    ensures ReadOctets(bs, be, size) == Fit(c, size)
  {
    assert ValidOctets(Fit(c, size), size);
    ReadOctetsBack(bs, be, Fit(c, size), size);
  }

  // ---------------------------------------------------------------- records of integers

  predicate ValidInts(vals: seq<int>, widths: seq<nat>) {
    |vals| == |widths| && forall i :: 0 <= i < |vals| ==> FitsWidth(vals[i], widths[i])
  }

  function EncInts(vals: seq<int>, widths: seq<nat>): (s: seq<byte>)
    requires ValidInts(vals, widths)
    ensures |s| == Sum(widths)
    decreases |vals|
  {
    if vals == [] then []
    else EncInts(vals[..|vals| - 1], widths[..|vals| - 1]) + Le(vals[|vals| - 1], widths[|vals| - 1])
  }

  function Sum(widths: seq<nat>): nat
    decreases |widths|
  {
    if widths == [] then 0 else Sum(widths[..|widths| - 1]) + widths[|widths| - 1]
  }

  function GetInts(bs: seq<byte>, be: nat, widths: seq<nat>): (vals: seq<int>)
    ensures |vals| == |widths|
    decreases |widths|
  {
    if widths == [] then []
    else
      var front := widths[..|widths| - 1];
      GetInts(bs, be, front) + [GetInt(bs, be + Sum(front), widths[|widths| - 1])]
  }

  lemma {:induction false} GetIntsFit(bs: seq<byte>, be: nat, widths: seq<nat>)
    ensures ValidInts(GetInts(bs, be, widths), widths)
    decreases |widths|
  {
    hide GetInt, FitsWidth;
    if widths != [] {
      var front := widths[..|widths| - 1];
      GetIntsFit(bs, be, front);
      GetIntFits(bs, be + Sum(front), widths[|widths| - 1]);
    }
  }

  lemma LastOfInts(vals: seq<int>, widths: seq<nat>, k: nat)
    requires ValidInts(vals, widths) && |vals| == k + 1
    ensures |widths| == k + 1 && ValidInts(vals[..k], widths[..k]) && 0 <= vals[k] && FitsWidth(vals[k], widths[k])
    ensures EncInts(vals, widths) == EncInts(vals[..k], widths[..k]) + Le(vals[k], widths[k])
  {}

  lemma LastRead(bs: seq<byte>, be: nat, widths: seq<nat>, k: nat)
    requires |widths| == k + 1
    ensures GetInts(bs, be, widths) == GetInts(bs, be, widths[..k]) + [GetInt(bs, be + Sum(widths[..k]), widths[k])]
  {
    hide GetInt;
  }

  lemma LastIntBack(bs: seq<byte>, be: nat, front: seq<byte>, n: nat, k: nat, s: seq<byte>)
    requires Holds(bs, be, s) && s == front + Le(n, k) && FitsWidth(n, k)
    ensures Holds(bs, be, front) && GetInt(bs, be + |front|, k) == n
  {
    hide Holds, Le, GetInt, FitsWidth;
    HoldsAppend(bs, be, front, Le(n, k));
    GetIntBack(bs, be + |front|, n, k);
  }

  lemma LastMakesWhole(r: seq<int>, front: seq<int>, vals: seq<int>, k: nat)
    requires |vals| == k + 1 && front == vals[..k] && r == front + [vals[k]]
    ensures r == vals
  {}

  lemma NoInts(bs: seq<byte>, be: nat)
    ensures GetInts(bs, be, []) == []
  {}

  lemma {:induction false} GetIntsBack(bs: seq<byte>, be: nat, vals: seq<int>, widths: seq<nat>)
    requires ValidInts(vals, widths) && Holds(bs, be, EncInts(vals, widths))
    ensures GetInts(bs, be, widths) == vals
    decreases |vals|
  {
    assert |vals| == |widths|;
    hide *;
    if widths == [] {
      NoInts(bs, be);
    } else {
      var k := |widths| - 1;
      LastOfInts(vals, widths, k);
      LastRead(bs, be, widths, k);
      LastIntBack(bs, be, EncInts(vals[..k], widths[..k]), vals[k], widths[k], EncInts(vals, widths));
      GetIntsBack(bs, be, vals[..k], widths[..k]);
      LastMakesWhole(GetInts(bs, be, widths), GetInts(bs, be, widths[..k]), vals, k);
    }
  }

  method SetInts(vals: seq<int>, widths: seq<nat>) returns (r: PyResult<seq<byte>>)
    ensures r == if ValidInts(vals, widths) then Ok(EncInts(vals, widths)) else Raises
  {
    if |vals| != |widths| {
      return Raises;
    }
    var out: seq<byte> := [];
    var i := 0;
    while i < |vals|
      invariant 0 <= i <= |vals| && ValidInts(vals[..i], widths[..i])
      invariant out == EncInts(vals[..i], widths[..i])
    {
      if !FitsWidth(vals[i], widths[i]) {
        return Raises;
      }
      assert vals[..i + 1][..i] == vals[..i] && widths[..i + 1][..i] == widths[..i];
      out := out + Le(vals[i], widths[i]);
      i := i + 1;
    }
    assert vals[..i] == vals && widths[..i] == widths;
    return Ok(out);
  }
}
