/** Bytes, little-endian integers, Python-style slices and bitwise operators on naturals. */
module Bytes {

  type byte = x: int | 0 <= x < 256

  datatype Option<+T> = None | Some(value: T) {
    function GetOr(default: T): T {
      match this
      case Some(v) => v
      case None => default
    }
  }

  /** The outcome of a Python function: a value, or some exception. */
  datatype PyResult<+T> = Ok(value: T) | Raises

  // ---------------------------------------------------------------- little-endian integers

  function Pow256(k: nat): (p: nat)
    ensures p >= 1
    decreases k
  {
    if k == 0 then 1 else 256 * Pow256(k - 1)
  }

  lemma Pow256Values()
    ensures Pow256(1) == 0x100 && Pow256(2) == 0x1_0000
    ensures Pow256(4) == 0x1_0000_0000 && Pow256(8) == 0x1_0000_0000_0000_0000
  {
    assert Pow256(3) == 256 * Pow256(2);
    assert Pow256(4) == 256 * Pow256(3);
    assert Pow256(5) == 256 * Pow256(4);
    assert Pow256(6) == 256 * Pow256(5);
    assert Pow256(7) == 256 * Pow256(6);
    assert Pow256(8) == 256 * Pow256(7);
  }

  /** The low k bytes of n, least significant first. */
  function Le(n: nat, k: nat): (s: seq<byte>)
    ensures |s| == k
    decreases k
  {
    if k == 0 then [] else [n % 256] + Le(n / 256, k - 1)
  }

  /** int.from_bytes(s, 'little'); an empty string reads as zero. */
  function UnLe(s: seq<byte>): nat
    decreases |s|
  {
    if s == [] then 0 else s[0] + 256 * UnLe(s[1..])
  }

  lemma {:induction false} UnLeOfLe(n: nat, k: nat)
    requires n < Pow256(k)
    ensures UnLe(Le(n, k)) == n
    decreases k
  {
    if k != 0 {
      assert Le(n, k)[1..] == Le(n / 256, k - 1);
      UnLeOfLe(n / 256, k - 1);
    }
  }

  /** The i-th byte is the i-th digit to the base 256. */
  lemma {:induction false} LeDigits(n: nat, k: nat, i: nat)
    requires i < k
    ensures Le(n, k)[i] == n / Pow256(i) % 256
    decreases i
  {
    if i > 0 {
      LeDigits(n / 256, k - 1, i - 1);
      DivideTwice(n, Pow256(i - 1));
    }
  }

  lemma DivideTwice(n: nat, p: nat)
    requires p > 0
    ensures n / (256 * p) == n / 256 / p
  {
    var q, r := n / 256 / p, n / 256 % p;
    var low := n % 256 + 256 * r;
    assert n / 256 == q * p + r;
    assert n == q * (256 * p) + low by { assert 256 * (q * p) == q * (256 * p); }
    assert low < 256 * p by { assert r <= p - 1; }
    QuotientOf(q, 256 * p, low);
  }

  lemma QuotientOf(q: nat, m: nat, low: nat)
    requires low < m
    ensures (q * m + low) / m == q
  {
    var n := q * m + low;
    RemainderOf(q, m, low);
    assert n == n / m * m + n % m;
    SameFactor(q, n / m, m);
  }

  lemma SameFactor(a: nat, b: nat, m: nat)
    requires a * m == b * m && m > 0
    ensures a == b
  {
    if a > b {
      Larger(a, 0, b, 0, m);
    } else if b > a {
      Larger(b, 0, a, 0, m);
    }
  }

  /** Without a bound on n, its low k bytes come back. */
  lemma {:induction false} UnLeOfLow(n: nat, k: nat)
    ensures UnLe(Le(n, k)) == n % Pow256(k)
    decreases k
  {
    if k != 0 {
      assert Le(n, k)[1..] == Le(n / 256, k - 1);
      UnLeOfLow(n / 256, k - 1);
      LowBytes(n, Pow256(k - 1));
    }
  }

  lemma LowBytes(n: nat, p: nat)
    requires p > 0
    ensures n % (256 * p) == n % 256 + 256 * (n / 256 % p)
  {
    var q, r := n / 256 / p, n / 256 % p;
    var low := n % 256 + 256 * r;
    assert n / 256 == q * p + r;
    assert n == q * (256 * p) + low by { assert 256 * (q * p) == q * (256 * p); }
    assert low < 256 * p by { assert r <= p - 1; }
    RemainderOf(q, 256 * p, low);
  }

  lemma RemainderOf(q: nat, m: nat, low: nat)
    requires low < m
    ensures (q * m + low) % m == low
  {
    var n := q * m + low;
    SameRemainder(q, low, n / m, n % m, m);
  }

  lemma SameRemainder(a: nat, r: nat, b: nat, s: nat, m: nat)
    requires a * m + r == b * m + s && r < m && s < m
    ensures r == s
  {
    if a > b {
      Larger(a, r, b, s, m);
    } else if b > a {
      Larger(b, s, a, r, m);
    }
  }

  lemma Larger(a: nat, r: nat, b: nat, s: nat, m: nat)
    requires a > b && s < m
    ensures a * m + r > b * m + s
  {
    AtLeast(a - b, m);
    assert (a - b) * m == a * m - b * m;
  }

  lemma AtLeast(d: nat, m: nat)
    requires d >= 1
    ensures d * m >= m
  {
    assert d * m == (d - 1) * m + m;
  }

  lemma {:induction false} UnLeBound(s: seq<byte>)
    ensures UnLe(s) < Pow256(|s|)
    decreases |s|
  {
    if s != [] {
      UnLeBound(s[1..]);
    }
  }

  // ---------------------------------------------------------------- slices

  /** s[i:j] with Python's clamping to the end of s. */
  function Slice(s: seq<byte>, i: nat, j: nat): (r: seq<byte>)
    requires i <= j
    ensures |r| <= j - i
  {
    if i >= |s| then [] else if j >= |s| then s[i..] else s[i..j]
  }

  /** Inside bs, the bytes from index be on start with s. */
  predicate Holds(bs: seq<byte>, be: nat, s: seq<byte>) {
    be + |s| <= |bs| && bs[be..be + |s|] == s
  }

  lemma HoldsPrefix(a: seq<byte>, tail: seq<byte>)
    ensures Holds(a + tail, 0, a)
  {}

  lemma HoldsAppend(bs: seq<byte>, be: nat, a: seq<byte>, b: seq<byte>)
    ensures Holds(bs, be, a + b) <==> Holds(bs, be, a) && Holds(bs, be + |a|, b)
  {
    if be + |a| + |b| <= |bs| {
      assert bs[be..be + |a| + |b|] == bs[be..be + |a|] + bs[be + |a|..be + |a| + |b|];
      if bs[be..be + |a| + |b|] == a + b {
        assert a == (a + b)[..|a|] && b == (a + b)[|a|..];
      }
    }
  }

  lemma HoldsSlice(bs: seq<byte>, be: nat, s: seq<byte>)
    requires Holds(bs, be, s)
    ensures Slice(bs, be, be + |s|) == s
  {}

  /** Reading back a little-endian field. */
  lemma HoldsLe(bs: seq<byte>, be: nat, n: nat, k: nat)
    requires n < Pow256(k) && Holds(bs, be, Le(n, k))
    ensures UnLe(Slice(bs, be, be + k)) == n
  {
    HoldsSlice(bs, be, Le(n, k));
    UnLeOfLe(n, k);
  }

  function Join(parts: seq<seq<byte>>): (r: seq<byte>)
    decreases |parts|
  {
    if parts == [] then [] else Join(parts[..|parts| - 1]) + parts[|parts| - 1]
  }

  function Repeat(b: byte, n: nat): (r: seq<byte>)
    ensures |r| == n
    ensures forall i :: 0 <= i < n ==> r[i] == b
  {
    seq(n, _ => b)
  }

  // ---------------------------------------------------------------- bitwise operators

  function Pow2(k: nat): (p: nat)
    ensures p >= 1
    decreases k
  {
    if k == 0 then 1 else 2 * Pow2(k - 1)
  }

  function Xor(a: nat, b: nat): nat {
    if a == 0 && b == 0 then 0 else 2 * Xor(a / 2, b / 2) + (a + b) % 2
  }

  function Or(a: nat, b: nat): nat {
    if a == 0 && b == 0 then 0 else 2 * Or(a / 2, b / 2) + if a % 2 == 1 || b % 2 == 1 then 1 else 0
  }

  /** The binary digits of a number. */
  function Bit(n: nat, i: nat): nat
    decreases i
  {
    if i == 0 then n % 2 else Bit(n / 2, i - 1)
  }

  /** Exclusive or, bit by bit: set where exactly one of the two is. */
  lemma {:induction false} XorBits(a: nat, b: nat, i: nat)
    ensures Bit(Xor(a, b), i) == (Bit(a, i) + Bit(b, i)) % 2
    decreases i
  {
    if i > 0 {
      XorBits(a / 2, b / 2, i - 1);
    }
  }

  /** Or, bit by bit: set where at least one of the two is. */
  lemma {:induction false} OrBits(a: nat, b: nat, i: nat)
    ensures Bit(Or(a, b), i) == if Bit(a, i) == 1 || Bit(b, i) == 1 then 1 else 0
    decreases i
  {
    if i > 0 {
      OrBits(a / 2, b / 2, i - 1);
    }
  }

  lemma {:induction false} XorBound(a: nat, b: nat, k: nat)
    requires a < Pow2(k) && b < Pow2(k)
    ensures Xor(a, b) < Pow2(k)
    decreases k
  {
    if k != 0 {
      XorBound(a / 2, b / 2, k - 1);
    }
  }

  lemma {:induction false} XorCommutes(a: nat, b: nat)
    ensures Xor(a, b) == Xor(b, a)
    decreases a + b
  {
    if a != 0 || b != 0 {
      XorCommutes(a / 2, b / 2);
    }
  }

  lemma XorDigits(a: nat, b: nat)
    ensures Xor(a, b) == 2 * Xor(a / 2, b / 2) + (a + b) % 2
  {}

  lemma SameParity(a: nat, b: nat)
    ensures ((a + b) % 2 + b) % 2 == a % 2
  {}

  lemma XorUnfold(h: nat, r: nat, a: nat)
    requires r < 2
    ensures Xor(2 * h + r, a) == 2 * Xor(h, a / 2) + (r + a) % 2
  {
    assert (2 * h + r) / 2 == h && (2 * h + r + a) % 2 == (r + a) % 2;
  }

  lemma {:induction false} XorCancels(a: nat, b: nat)
    ensures Xor(Xor(a, b), b) == a
    decreases a + b
  {
    if a != 0 || b != 0 {
      hide Xor;
      var h, r := Xor(a / 2, b / 2), (a + b) % 2;
      XorDigits(a, b);
      XorUnfold(h, r, b);
      XorCancels(a / 2, b / 2);
      SameParity(a, b);
    }
  }

  /** A different second operand gives a different xor. */
  lemma XorInjective(a: nat, b: nat, c: nat)
    requires Xor(a, b) == Xor(a, c)
    ensures b == c
  {
    XorCommutes(a, b);
    XorCommutes(a, c);
    XorCancels(b, a);
    XorCancels(c, a);
  }

  function XorByte(a: byte, b: byte): byte {
    XorBound(a, b, 8);
    assert Pow2(8) == 256;
    Xor(a, b)
  }

  lemma {:induction false} OrZero(a: nat)
    ensures Or(a, 0) == a
    decreases a
  {
    if a != 0 {
      OrZero(a / 2);
    }
  }

  lemma {:induction false} OrIsZero(a: nat, b: nat)
    requires Or(a, b) == 0
    ensures a == 0 && b == 0
    decreases a + b
  {
    if a != 0 || b != 0 {
      OrIsZero(a / 2, b / 2);
    }
  }

  lemma {:induction false} OrBound(a: nat, b: nat, k: nat)
    ensures Or(a, b) < Pow2(k) <==> a < Pow2(k) && b < Pow2(k)
    decreases k
  {
    if k == 0 {
      if Or(a, b) == 0 {
        OrIsZero(a, b);
      }
    } else {
      OrBound(a / 2, b / 2, k - 1);
    }
  }

  /** x << k. */
  function ShiftLeft(x: nat, k: nat): nat
    decreases k
  {
    if k == 0 then x else 2 * ShiftLeft(x, k - 1)
  }

  /** Above k bits the two operands combine, below only the second one contributes. */
  lemma {:induction false} OrAbove(x: nat, hi: nat, lo: nat, k: nat)
    requires lo < Pow2(k)
    ensures Or(ShiftLeft(x, k), ShiftLeft(hi, k) + lo) == ShiftLeft(Or(x, hi), k) + lo
    decreases k
  {
    hide Or;
    if k != 0 {
      OrAbove(x, hi, lo / 2, k - 1);
      OrHalf(ShiftLeft(x, k - 1), ShiftLeft(hi, k - 1), lo);
    }
  }

  lemma OrHalf(a: nat, b: nat, lo: nat)
    ensures Or(2 * a, 2 * b + lo) == 2 * Or(a, b + lo / 2) + lo % 2
  {
    assert (2 * a) / 2 == a && (2 * b + lo) / 2 == b + lo / 2;
  }

  // ---------------------------------------------------------------- xor checksums

  /** Only equal bytes xor to zero. */
  lemma XorIsZero(a: byte, b: byte)
    ensures XorByte(a, b) == 0 <==> a == b
  {
    XorZeroEqual(a, b);
  }

  lemma {:induction false} XorZeroEqual(a: nat, b: nat)
    ensures Xor(a, b) == 0 <==> a == b
    decreases a + b
  {
    if a != 0 || b != 0 {
      XorZeroEqual(a / 2, b / 2);
    }
  }


  /** The xor of all bytes of data, on top of a start value. */
  function XorFrom(x: byte, data: seq<byte>): byte
    decreases |data|
  {
    if data == [] then x else XorFrom(XorByte(x, data[0]), data[1..])
  }

  lemma {:induction false} XorFromAppend(x: byte, a: seq<byte>, b: seq<byte>)
    ensures XorFrom(x, a + b) == XorFrom(XorFrom(x, a), b)
    decreases |a|
  {
    if a == [] {
      assert a + b == b;
    } else {
      assert (a + b)[1..] == a[1..] + b;
      XorFromAppend(XorByte(x, a[0]), a[1..], b);
    }
  }

  lemma {:induction false} XorFromInjective(x: byte, y: byte, data: seq<byte>)
    requires XorFrom(x, data) == XorFrom(y, data)
    ensures x == y
    decreases |data|
  {
    if data != [] {
      XorFromInjective(XorByte(x, data[0]), XorByte(y, data[0]), data[1..]);
      XorCancels(x, data[0]);
      XorCancels(y, data[0]);
    }
  }

  /** The checksum tells apart any two strings that differ in one byte. */
  lemma XorSeesOneByte(data: seq<byte>, k: nat, b: byte)
    requires k < |data| && data[k] != b
    ensures XorFrom(0, data[k := b]) != XorFrom(0, data)
  {
    assert data == data[..k] + ([data[k]] + data[k + 1..]);
    assert data[k := b] == data[..k] + ([b] + data[k + 1..]);
    XorFromAppend(0, data[..k], [data[k]] + data[k + 1..]);
    XorFromAppend(0, data[..k], [b] + data[k + 1..]);
    var x := XorFrom(0, data[..k]);
    assert ([data[k]] + data[k + 1..])[1..] == data[k + 1..] == ([b] + data[k + 1..])[1..];
    if XorFrom(0, data[k := b]) == XorFrom(0, data) {
      XorFromInjective(XorByte(x, b), XorByte(x, data[k]), data[k + 1..]);
      XorInjective(x, b, data[k]);
    }
  }
}
