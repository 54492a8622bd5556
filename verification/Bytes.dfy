/** Bytes, optional values, the little-endian size prefix and decimal text, shared by all layers. */
module Bytes {

  type byte = x: int | 0 <= x < 256

  datatype Option<+T> = None | Some(value: T)

  const WORD := 0x1_0000_0000

  function Min(a: nat, b: nat): nat { if a < b then a else b }

  lemma SliceOfSlice<T>(s: seq<T>, from: nat, to: nat, a: nat, b: nat)
    requires from <= to <= |s| && a <= b <= to - from
    ensures s[from..to][a..b] == s[from + a..from + b]
  {
    var x, y := s[from..to][a..b], s[from + a..from + b];
    assert |x| == |y| && forall k | 0 <= k < |x| :: x[k] == s[from + a + k] == y[k];
  }

  /** A 32-bit unsigned value as four bytes, least significant first. */
  function LittleEndian(n: nat): (r: seq<byte>)
    ensures |r| == 4
    ensures n < 256 ==> r == [n, 0, 0, 0]
  {
    [n % 256, n / 0x100 % 256, n / 0x1_0000 % 256, n / 0x100_0000 % 256]
  }

  function FromLittleEndian(s: seq<byte>): (r: nat)
    requires |s| == 4
    ensures r < WORD
  {
    s[0] as nat + 0x100 * (s[1] as nat) + 0x1_0000 * (s[2] as nat) + 0x100_0000 * (s[3] as nat)
  }

  lemma FourBytes(n: nat)
    ensures n % WORD
      == n % 256 + 0x100 * (n / 0x100 % 256) + 0x1_0000 * (n / 0x1_0000 % 256) + 0x100_0000 * (n / 0x100_0000 % 256)
  {
    assert n / 0x1_0000 == n / 0x100 / 256;
    assert n / 0x100_0000 == n / 0x1_0000 / 256;
    var q := n / 0x100_0000 / 256;
    assert n - q * WORD
      == n % 256 + 0x100 * (n / 0x100 % 256) + 0x1_0000 * (n / 0x1_0000 % 256) + 0x100_0000 * (n / 0x100_0000 % 256);
  }

  /** The four bytes in numbers. */
  lemma LittleEndianValue(n: nat)
    requires n < 4294967296
    ensures
      var r := LittleEndian(n);
      n == r[0] as nat + 256 * r[1] as nat + 65536 * r[2] as nat + 16777216 * r[3] as nat
  {
    FourBytes(n);
  }

  lemma LittleEndianRoundTrip(n: nat)
    ensures FromLittleEndian(LittleEndian(n)) == n % WORD
  {
    FourBytes(n);
  }

  /** Quotient and remainder are determined by their defining equation. */
  lemma DivisionIsUnique(x: nat, q: nat, r: nat, d: nat)
    requires r < d && x == q * d + r
    ensures x / d == q && x % d == r
  {
    EqualQuotients(x / d, x % d, q, r, d);
  }

  lemma EqualQuotients(q: nat, r: nat, q': nat, r': nat, d: nat)
    requires r < d && r' < d && q * d + r == q' * d + r'
    ensures q == q' && r == r'
  {
    if q < q' {
      NextMultiple(q, q', d);
    } else if q' < q {
      NextMultiple(q', q, d);
    }
  }

  lemma {:induction false} NextMultiple(q: nat, q': nat, d: nat)
    requires q < q'
    ensures q * d + d <= q' * d
  {
    if q + 1 < q' {
      NextMultiple(q, q' - 1, d);
      assert (q' - 1) * d + d == q' * d;
    } else {
      assert (q + 1) * d == q * d + d;
    }
  }

  //////////////////////////////////////////////////////////////////////////////
  // Byte strings inside a larger text
  //////////////////////////////////////////////////////////////////////////////

  /** Bytes of any number: 1 before each, 0 at the end. */
  function PutBytes(p: seq<byte>): seq<byte>
  {
    if p == [] then [0] else [1, p[0]] + PutBytes(p[1..])
  }

  function GetBytes(s: seq<byte>): (r: Option<(seq<byte>, seq<byte>)>)
    ensures r.Some? ==> |r.value.1| < |s|
  {
    if s == [] then None
    else if s[0] == 0 then Some(([], s[1..]))
    else if |s| < 2 then None
    else
      match GetBytes(s[2..])
      case None => None
      case Some((p, rest)) => Some(([s[1]] + p, rest))
  }

  lemma {:induction false} GetPutBytes(p: seq<byte>, rest: seq<byte>)
    ensures GetBytes(PutBytes(p) + rest) == Some((p, rest))
  {
    var s := PutBytes(p) + rest;
    if p == [] {
      assert s[1..] == rest;
    } else {
      GetPutBytes(p[1..], rest);
      assert s[2..] == PutBytes(p[1..]) + rest;
      assert p == [p[0]] + p[1..];
    }
  }

  //////////////////////////////////////////////////////////////////////////////
  // Decimal text
  //////////////////////////////////////////////////////////////////////////////

  /** The text of %u and %lu. */
  function Decimal(n: nat): (s: string)
    ensures |s| > 0
  {
    (if n < 10 then [] else Decimal(n / 10)) + ["0123456789"[n % 10]]
  }

  function Pow10(k: nat): nat
  {
    if k == 0 then 1 else 10 * Pow10(k - 1)
  }

  lemma {:induction false} DecimalLength(n: nat, k: nat)
    requires 0 < k && n < Pow10(k)
    ensures |Decimal(n)| <= k
    decreases k
  {
    if n >= 10 { DecimalLength(n / 10, k - 1); }
  }

  lemma {:induction false} DecimalInjective(m: nat, n: nat)
    requires Decimal(m) == Decimal(n)
    ensures m == n
  {
    var a, b := Decimal(m), Decimal(n);
    assert a[|a| - 1] == "0123456789"[m % 10] && b[|b| - 1] == "0123456789"[n % 10];
    assert m % 10 == n % 10;
    assert a[..|a| - 1] == if m < 10 then [] else Decimal(m / 10);
    assert b[..|b| - 1] == if n < 10 then [] else Decimal(n / 10);
    if m >= 10 && n >= 10 { DecimalInjective(m / 10, n / 10); }
  }

  lemma OneDigit()
    ensures |Decimal(1)| == 1
  {
  }

  lemma OneMoreZero(k: nat)
    ensures Zeros(k + 1) == Zeros(k) + "0"
  {
  }

  lemma TenToTheNine()
    ensures Pow10(9) == 1_000_000_000 && Pow10(10) == 10_000_000_000
  {
    assert Pow10(3) == 1000;
    assert Pow10(6) == 1_000_000 by { assert Pow10(4) == 10 * Pow10(3) && Pow10(5) == 10 * Pow10(4); }
    assert Pow10(7) == 10 * Pow10(6) && Pow10(8) == 10 * Pow10(7) && Pow10(9) == 10 * Pow10(8);
  }

  function Zeros(k: nat): (s: string)
    ensures |s| == k
  {
    if k == 0 then "" else Zeros(k - 1) + "0"
  }

  lemma {:induction false} TrailingZeros(n: nat, k: nat)
    requires n > 0
    ensures Decimal(n * Pow10(k)) == Decimal(n) + Zeros(k)
  {
    hide Decimal;
    if k > 0 {
      TrailingZeros(n, k - 1);
      PowPositive(k - 1);
      var m := n * Pow10(k - 1);
      assert n * Pow10(k) == 10 * m;
      assert m > 0;
      TimesTen(m);
    }
  }

  lemma TimesTen(m: nat)
    requires m > 0
    ensures Decimal(10 * m) == Decimal(m) + "0"
  {
    assert 10 * m / 10 == m && 10 * m % 10 == 0;
  }

  lemma {:induction false} PowPositive(k: nat)
    ensures Pow10(k) > 0
  {
    if k > 0 { PowPositive(k - 1); }
  }
}
