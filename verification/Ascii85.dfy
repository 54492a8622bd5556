/**
 The binary-to-text coding of ascii85.c: base-85 groups of section 7.4.3 of
 ISO 32000-1 without the end mark, with `z` for a zero group that at least four
 more bytes follow.

 `Encoded` and `Decoded` say what the two C functions compute; the methods work
 in place on calloc'ed buffers exactly as the C code does and are proved against
 them.
 */
module Ascii85 {
  import opened Bytes

  const BANG: byte := 33   // '!'
  const FILL: byte := 117  // 'u'
  const ZERO: byte := 122  // 'z'

  //////////////////////////////////////////////////////////////////////////////
  // Groups
  //////////////////////////////////////////////////////////////////////////////

  function At(g: seq<byte>, i: nat): byte
  {
    if i < |g| then g[i] else 0
  }

  function Word(a: nat, b: nat, c: nat, d: nat): nat
  {
    a * 0x100_0000 + b * 0x1_0000 + c * 0x100 + d
  }

  /** The big-endian value of up to four bytes, missing bytes read as zero. */
  function Pack(g: seq<byte>): (x: nat)
    requires |g| <= 4
    ensures x < WORD
  {
    Word(At(g, 0), At(g, 1), At(g, 2), At(g, 3))
  }

  function Unpack(x: nat): (g: seq<byte>)
    ensures |g| == 4
  {
    [x / 0x100_0000 % 256, x / 0x1_0000 % 256, x / 0x100 % 256, x % 256]
  }

  predicate AllDigits(t: seq<byte>)
  {
    forall i | 0 <= i < |t| :: BANG <= t[i] <= FILL
  }

  /** The n low base-85 digits of x, most significant first, as characters. */
  function Digits(x: nat, n: nat): (t: seq<byte>)
    ensures |t| == n && AllDigits(t)
  {
    if n == 0 then [] else Digits(x / 85, n - 1) + [x % 85 + BANG]
  }

  /** The value of base-85 characters accumulated in a uint32. */
  function Value(t: seq<byte>): (x: nat)
    ensures x < WORD
  {
    if t == [] then 0
    else (Value(t[..|t| - 1]) * 85 + (t[|t| - 1] as int - BANG)) % WORD
  }

  /** The same value without the uint32 wrap. */
  function Horner(t: seq<byte>): int
  {
    if t == [] then 0
    else Horner(t[..|t| - 1]) * 85 + (t[|t| - 1] as int - BANG)
  }

  /** A group of up to four bytes as five characters. */
  function EncodeGroup(g: seq<byte>): (t: seq<byte>)
    requires |g| <= 4
    ensures |t| == 5 && AllDigits(t)
  {
    Digits(Pack(g), 5)
  }

  /** Five characters as four bytes. */
  function DecodeGroup(t: seq<byte>): (g: seq<byte>)
    requires |t| == 5
    ensures |g| == 4
  {
    Unpack(Value(t))
  }

  function Fill(n: nat): (t: seq<byte>)
    ensures |t| == n && AllDigits(t)
    ensures forall c <- t :: c == FILL
  {
    seq(n, _ => FILL)
  }

  //////////////////////////////////////////////////////////////////////////////
  // What the two C functions compute
  //////////////////////////////////////////////////////////////////////////////

  function Encoded(s: seq<byte>): (t: seq<byte>)
  {
    if s == [] then []
    else if |s| < 4 then EncodeGroup(s)[..|s| + 1]
    else if Pack(s[..4]) == 0 && |s| >= 8 then [ZERO] + Encoded(s[4..])
    else EncodeGroup(s[..4]) + Encoded(s[4..])
  }

  /** Digits in groups of five, the last one possibly short, `z` between groups only. */
  predicate WellFormed(t: seq<byte>)
  {
    if t == [] then true
    else if t[0] == ZERO then WellFormed(t[1..])
    else if |t| < 5 then AllDigits(t)
    else AllDigits(t[..5]) && WellFormed(t[5..])
  }

  function Decoded(t: seq<byte>): (s: seq<byte>)
  {
    if t == [] then []
    else if t[0] == ZERO then [0, 0, 0, 0] + Decoded(t[1..])
    else if |t| < 5 then DecodeGroup(t + Fill(5 - |t|))[..|t| - 1]
    else DecodeGroup(t[..5]) + Decoded(t[5..])
  }

  //////////////////////////////////////////////////////////////////////////////
  // Round trip
  //////////////////////////////////////////////////////////////////////////////

  lemma UnpackSum(a: byte, b: byte, c: byte, d: byte)
    ensures Unpack(Word(a, b, c, d)) == [a, b, c, d]
  {
    var x := Word(a, b, c, d);
    DivisionIsUnique(x, a as nat * 0x1_0000 + b as nat * 0x100 + c as nat, d, 0x100);
    DivisionIsUnique(x, a as nat * 0x100 + b as nat, c as nat * 0x100 + d as nat, 0x1_0000);
    DivisionIsUnique(x, a, b as nat * 0x1_0000 + c as nat * 0x100 + d as nat, 0x100_0000);
  }

  lemma UnpackPack(g: seq<byte>)
    requires |g| <= 4
    ensures Unpack(Pack(g))[..|g|] == g
  {
    UnpackSum(At(g, 0), At(g, 1), At(g, 2), At(g, 3));
  }

  /** A partial accumulation that stays below 2^32 never wrapped on the way. */
  lemma {:induction false} NoWrap(t: seq<byte>)
    requires AllDigits(t) && Horner(t) < WORD
    ensures Value(t) == Horner(t)
    ensures forall k | 0 <= k <= |t| :: Horner(t[..k]) < WORD && Value(t[..k]) == Horner(t[..k])
  {
    if t != [] {
      var u := t[..|t| - 1];
      NoWrap(u);
      forall k | 0 <= k <= |t|
        ensures Horner(t[..k]) < WORD && Value(t[..k]) == Horner(t[..k])
      {
        if k < |t| {
          assert u[..k] == t[..k];
        } else {
          assert t[..k] == t;
        }
      }
    }
  }

  lemma {:induction false} HornerDigits(x: nat, n: nat)
    requires x < Pow85(n)
    ensures Horner(Digits(x, n)) == x
    decreases n
  {
    if n > 0 {
      var t := Digits(x, n);
      assert t[..n - 1] == Digits(x / 85, n - 1);
      HornerDigits(x / 85, n - 1);
    }
  }

  function Pow85(n: nat): (r: nat)
    ensures r > 0
  {
    if n == 0 then 1 else 85 * Pow85(n - 1)
  }

  lemma Powers()
    ensures Pow85(0) == 1 && Pow85(1) == 85 && Pow85(2) == 7225 && Pow85(3) == 614125
    ensures Pow85(4) == 52200625 && Pow85(5) == 4437053125 > WORD
    ensures Pow256(1) == 256 && Pow256(2) == 0x1_0000 && Pow256(3) == 0x100_0000
  {
    assert Pow85(3) == 85 * Pow85(2) && Pow85(4) == 85 * Pow85(3) && Pow85(5) == 85 * Pow85(4);
    assert Pow256(3) == 256 * Pow256(2);
  }

  /** Dropping p digits and writing `u` for them rounds the value up within its 85^p block. */
  lemma HornerFilled(x: nat, p: nat)
    requires p <= 4 && x < WORD
    ensures Horner(Digits(x, 5)[..5 - p] + Fill(p)) == x / Pow85(p) * Pow85(p) + Pow85(p) - 1
  {
    hide Digits, Horner, Fill, Pow85;
    DropDigits(x, p);
    BlockQuotient(x, p);
    HornerDigits(x / Pow85(p), 5 - p);
    HornerFill(Digits(x / Pow85(p), 5 - p), p);
  }

  lemma BlockQuotient(x: nat, p: nat)
    requires p <= 4 && x < WORD
    ensures x / Pow85(p) < Pow85(5 - p)
  {
    hide Pow85;
    PowerSplit(p);
    var a, b := Pow85(5 - p), Pow85(p);
    assert x < a * b by { Powers(); }
    QuotientBelow(x, a, b);
  }

  lemma PowerSplit(p: nat)
    requires p <= 4
    ensures Pow85(5 - p) * Pow85(p) == Pow85(5)
  {
    hide Pow85;
    Powers();
    match p {
      case 0 => case 1 => case 2 => case 3 => case 4 =>
    }
  }

  lemma QuotientBelow(x: nat, a: nat, b: nat)
    requires b > 0 && x < a * b
    ensures x / b < a
  {
    assert x / b * b <= x;
    if x / b > a { NextMultiple(a, x / b, b); }
  }

  lemma {:induction false} HornerFill(t: seq<byte>, p: nat)
    requires AllDigits(t)
    ensures Horner(t + Fill(p)) == Horner(t) * Pow85(p) + Pow85(p) - 1
  {
    if p == 0 {
      assert t + Fill(0) == t;
    } else {
      var u := t + Fill(p);
      assert u[..|u| - 1] == t + Fill(p - 1);
      HornerFill(t, p - 1);
      assert Horner(u) == (Horner(t) * Pow85(p - 1) + Pow85(p - 1) - 1) * 85 + 84;
      assert Horner(t) * Pow85(p - 1) * 85 == Horner(t) * (85 * Pow85(p - 1));
    }
  }

  lemma {:induction false} DropDigits(x: nat, p: nat)
    requires p <= 4
    ensures Digits(x, 5)[..5 - p] == Digits(x / Pow85(p), 5 - p)
    decreases p
  {
    hide Digits, Pow85;
    if p == 0 {
      assert Pow85(0) == 1 by { Powers(); }
    } else {
      DropDigits(x, p - 1);
      var d := Pow85(p - 1);
      assert Digits(x, 5)[..5 - p] == Digits(x, 5)[..6 - p][..5 - p];
      DropLastDigit(x / d, 6 - p);
      DivideTwice(x, d);
      assert Pow85(p) == 85 * d by { NextPower(p); }
    }
  }

  lemma DropLastDigit(x: nat, n: nat)
    requires n > 0
    ensures Digits(x, n)[..n - 1] == Digits(x / 85, n - 1)
  {
  }

  lemma NextPower(p: nat)
    requires p > 0
    ensures Pow85(p) == 85 * Pow85(p - 1)
  {
  }

  lemma DivideTwice(x: nat, d: nat)
    requires d > 0
    ensures x / d / 85 == x / (85 * d)
  {
    var y, r, s := x / d, x % d, x / d % 85;
    assert y == y / 85 * 85 + s;
    assert x == y * d + r;
    assert y * d == y / 85 * 85 * d + s * d;
    assert y / 85 * 85 * d == y / 85 * (85 * d);
    NextMultiple(s, 85, d);
    DivisionIsUnique(x, y / 85, s * d + r, 85 * d);
  }

  function Pow256(n: nat): nat
  {
    if n == 0 then 1 else 256 * Pow256(n - 1)
  }

  /**
   The padding arithmetic. Of a last group of k < 4 bytes, the encoder keeps k + 1
   digits; the decoder fills the p = 4 - k missing ones with `u`. The filled value lies in
   [V, V + 256^p), no uint32 step wraps, and so the k kept bytes come back.
   */
  lemma PaddingRecovers(s: seq<byte>)
    requires 0 < |s| < 4
    ensures
      var p, t := 4 - |s|, EncodeGroup(s)[..|s| + 1] + Fill(4 - |s|);
      && Pack(s) <= Horner(t) < Pack(s) + Pow256(p) <= WORD
      && (forall k | 0 <= k <= 5 :: Value(t[..k]) == Horner(t[..k]))
      && DecodeGroup(t)[..|s|] == s
  {
    hide Digits, Horner, Value, Pack, Unpack;
    var p, t := 4 - |s|, EncodeGroup(s)[..|s| + 1] + Fill(4 - |s|);
    var v, w := Pack(s), Horner(t);
    Powers();
    HornerFilled(v, p);
    RoundedUp(v, p);
    PackShort(s);
    NoWrap(t);
    assert t[..5] == t;
    SameHighBytes(s, w);
  }

  lemma RoundedUp(v: nat, p: nat)
    requires 0 < p < 4
    ensures v <= v / Pow85(p) * Pow85(p) + Pow85(p) - 1 < v + Pow256(p)
  {
    hide Pow85, Pow256;
    Powers();
    assert v == v / Pow85(p) * Pow85(p) + v % Pow85(p);
  }

  lemma PackShort(s: seq<byte>)
    requires 0 < |s| < 4
    ensures Pack(s) + Pow256(4 - |s|) <= WORD
  {
    Powers();
  }

  lemma SameHighBytes(s: seq<byte>, w: nat)
    requires 0 < |s| < 4
    requires Pack(s) <= w < Pack(s) + Pow256(4 - |s|)
    ensures Unpack(w)[..|s|] == s
  {
    hide Pow256, Pow85, Unpack;
    Powers();
    var a, b, c, r := At(s, 0), At(s, 1), At(s, 2), w - Pack(s);
    if |s| == 1 {
      HighOne(w, a, r);
    } else if |s| == 2 {
      HighTwo(w, a, b, r);
    } else {
      HighThree(w, a, b, c, r);
    }
  }

  lemma HighOne(w: nat, a: byte, r: nat)
    requires w == a as nat * 0x100_0000 + r && r < 0x100_0000
    ensures Unpack(w)[0] == a
  {
  }

  lemma HighTwo(w: nat, a: byte, b: byte, r: nat)
    requires w == Word(a, b, 0, 0) + r && r < 0x1_0000
    ensures Unpack(w)[0] == a && Unpack(w)[1] == b
  {
    assert w / 0x1_0000 == a as nat * 0x100 + b;
    HighOne(w, a, b as nat * 0x1_0000 + r);
  }

  lemma HighThree(w: nat, a: byte, b: byte, c: byte, r: nat)
    requires w == Word(a, b, c, 0) + r && r < 0x100
    ensures Unpack(w)[0] == a && Unpack(w)[1] == b && Unpack(w)[2] == c
  {
    DivisionIsUnique(w, Word(0, a, b, c), r, 0x100);
    DivisionIsUnique(Word(0, a, b, c), Word(0, 0, a, b), c, 0x100);
    HighTwo(w, a, b, c as nat * 0x100 + r);
  }

  lemma FullGroup(g: seq<byte>)
    requires |g| == 4
    ensures DecodeGroup(EncodeGroup(g)) == g
  {
    hide Digits, Horner, Value, Pack, Unpack;
    Powers();
    HornerDigits(Pack(g), 5);
    NoWrap(EncodeGroup(g));
    UnpackPack(g);
  }

  lemma ZeroGroup(g: seq<byte>)
    requires |g| == 4 && Pack(g) == 0
    ensures g == [0, 0, 0, 0]
  {
    hide Pack;
    UnpackPack(g);
    assert Unpack(0) == [0, 0, 0, 0];
  }

  /** The text an encoder writes is well formed, and decoding it gives back every byte string. */
  lemma {:induction false} RoundTrip(s: seq<byte>)
    ensures WellFormed(Encoded(s))
    ensures Decoded(Encoded(s)) == s
    decreases |s|
  {
    hide EncodeGroup, DecodeGroup, Pack, Fill;
    var t := Encoded(s);
    if s == [] {
    } else if |s| < 4 {
      PaddingRecovers(s);
    } else {
      RoundTrip(s[4..]);
      var rest := Encoded(s[4..]);
      assert s == s[..4] + s[4..];
      if Pack(s[..4]) == 0 && |s| >= 8 {
        ZeroGroup(s[..4]);
        assert t[1..] == rest;
      } else {
        var d := EncodeGroup(s[..4]);
        FullGroup(s[..4]);
        assert t == d + rest && t[..5] == d && t[5..] == rest;
        assert t[0] == d[0] && d[0] <= FILL;
      }
    }
  }

  /** The alphabet and the digit order, pinned by the text "BOu!rDZ" of "hello". */
  lemma TextOfHello()
    ensures Encoded([104, 101, 108, 108, 111]) == [66, 79, 117, 33, 114, 68, 90]
  {
    hide EncodeGroup, Pack;
    var s := [104, 101, 108, 108, 111];
    GroupsOfHello();
    assert s[..4] == [104, 101, 108, 108] && s[4..] == [111];
    assert Encoded([111]) == EncodeGroup([111])[..2];
  }

  lemma GroupsOfHello()
    ensures EncodeGroup([104, 101, 108, 108]) == [66, 79, 117, 33, 114]
    ensures EncodeGroup([111]) == [68, 90, 66, 98, 59]
  {
    hide Digits, Pack;
    assert Pack([104, 101, 108, 108]) == 1751477356 by { PackFour(104, 101, 108, 108); }
    assert Pack([111]) == 1862270976 by { PackFour(111, 0, 0, 0); }
    FiveDigits(1751477356);
    FiveDigits(1862270976);
  }

  lemma PackFour(a: byte, b: byte, c: byte, d: byte)
    ensures Pack([a, b, c, d]) == Word(a, b, c, d) && Pack([a]) == Word(a, 0, 0, 0)
  {
  }

  lemma FiveDigits(x: nat)
    ensures Digits(x, 5) == [
      x / 85 / 85 / 85 / 85 % 85 + BANG, x / 85 / 85 / 85 % 85 + BANG, x / 85 / 85 % 85 + BANG,
       x / 85 % 85 + BANG, x % 85 + BANG]
  {
    assert Digits(x, 5) == Digits(x / 85, 4) + [x % 85 + BANG];
    assert Digits(x / 85, 4) == Digits(x / 85 / 85, 3) + [x / 85 % 85 + BANG];
    assert Digits(x / 85 / 85, 3) == Digits(x / 85 / 85 / 85, 2) + [x / 85 / 85 % 85 + BANG];
    assert Digits(x / 85 / 85 / 85, 2) == Digits(x / 85 / 85 / 85 / 85, 1) + [x / 85 / 85 / 85 % 85 + BANG];
  }

  //////////////////////////////////////////////////////////////////////////////
  // The text in numbers
  //////////////////////////////////////////////////////////////////////////////

  /** Four zero bytes with at least four more behind them are written as `z`, which is 122. */
  lemma WritesZ(s: seq<byte>)
    requires |s| >= 8 && s[..4] == [0, 0, 0, 0]
    ensures Encoded(s) == [122] + Encoded(s[4..])
  {
  }

  /** And `z` is read as four zero bytes, whatever follows. */
  lemma ReadsZ(t: seq<byte>)
    ensures Decoded([122] + t) == [0, 0, 0, 0] + Decoded(t)
  {
    assert ([122] + t)[1..] == t;
  }

  /** The last four bytes are never written as `z`: eight zero bytes are "z!!!!!". */
  lemma TextOfZeros()
    ensures Encoded([0, 0, 0, 0, 0, 0, 0, 0]) == [122, 33, 33, 33, 33, 33]
  {
    hide EncodeGroup;
    hide Encoded;
    var s: seq<byte> := [0, 0, 0, 0, 0, 0, 0, 0];
    assert s[..4] == [0, 0, 0, 0] && s[4..] == [0, 0, 0, 0];
    WritesZ(s);
    LastZeros();
  }

  lemma LastZeros()
    ensures Encoded([0, 0, 0, 0]) == [33, 33, 33, 33, 33]
  {
    hide EncodeGroup, Pack;
    var g: seq<byte> := [0, 0, 0, 0];
    assert g[..4] == g && g[4..] == [];
    ZeroDigits();
    assert Encoded(g) == EncodeGroup(g) + [];
  }

  lemma ZeroDigits()
    ensures EncodeGroup([0, 0, 0, 0]) == [33, 33, 33, 33, 33]
  {
    hide Digits, Pack;
    assert Pack([0, 0, 0, 0]) == 0 by { PackFour(0, 0, 0, 0); }
    DigitsOfZero(5);
  }

  lemma {:induction false} DigitsOfZero(n: nat)
    ensures forall i | 0 <= i < n :: Digits(0, n)[i] == 33
  {
    if n > 0 { DigitsOfZero(n - 1); }
  }

  /** Five characters as digits of base 85, and four bytes as digits of base 256, highest first. */
  lemma HornerOfFive(a: byte, b: byte, c: byte, d: byte, e: byte)
    ensures Horner([a, b, c, d, e]) ==
      (a as int - 33) * 52200625 + (b as int - 33) * 614125 + (c as int - 33) * 7225 + (d as int - 33) * 85
      + (e as int - 33)
  {
    var t1, t2, t3, t4, t5 := [a], [a, b], [a, b, c], [a, b, c, d], [a, b, c, d, e];
    assert t5[..4] == t4 && t4[..3] == t3 && t3[..2] == t2 && t2[..1] == t1 && t1[..0] == [];
    assert Horner(t1) == a as int - 33;
    assert Horner(t2) == Horner(t1) * 85 + (b as int - 33);
    assert Horner(t3) == Horner(t2) * 85 + (c as int - 33);
    assert Horner(t4) == Horner(t3) * 85 + (d as int - 33);
  }

  lemma {:induction false} ValueOfDigits(t: seq<byte>)
    requires forall i | 0 <= i < |t| :: t[i] >= 33
    ensures Horner(t) >= 0 && Value(t) == Horner(t) % 4294967296
  {
    if t != [] {
      var u, d := t[..|t| - 1], t[|t| - 1] as int - 33;
      ValueOfDigits(u);
      var q := Horner(u) / WORD;
      assert Horner(u) * 85 + d == q * 85 * WORD + (Value(u) * 85 + d);
      SameRemainder(Value(u) * 85 + d, q * 85);
    }
  }

  lemma SameRemainder(x: nat, q: nat)
    ensures (q * WORD + x) % WORD == x % WORD
  {
    DivisionIsUnique(q * WORD + x, q + x / WORD, x % WORD, WORD);
  }

  /** Any other four bytes are five characters from '!' to 'u' with the same value. */
  lemma WritesGroup(s: seq<byte>)
    requires |s| >= 4 && !(|s| >= 8 && s[..4] == [0, 0, 0, 0])
    ensures
      var t := Encoded(s);
      && |t| >= 5 && t[5..] == Encoded(s[4..])
      && (forall i | 0 <= i < 5 :: 33 <= t[i] <= 117)
      && (t[0] as int - 33) * 52200625 + (t[1] as int - 33) * 614125 + (t[2] as int - 33) * 7225
           + (t[3] as int - 33) * 85 + (t[4] as int - 33)
         == s[0] as int * 16777216 + s[1] as int * 65536 + s[2] as int * 256 + s[3] as int
  {
    hide Digits, Horner, Word;
    var t, g := Encoded(s), s[..4];
    assert g == [s[0], s[1], s[2], s[3]];
    assert Pack(g) == 0 && |s| >= 8 ==> g == [0, 0, 0, 0] by { WordIsZero(s[0], s[1], s[2], s[3]); }
    var d := EncodeGroup(g);
    assert t == d + Encoded(s[4..]);
    assert d == [t[0], t[1], t[2], t[3], t[4]];
    HornerOfFive(t[0], t[1], t[2], t[3], t[4]);
    assert Horner(d) == Pack(g) by { FullGroupDigits(Pack(g)); }
    WordInNumbers(s[0], s[1], s[2], s[3]);
  }

  lemma FullGroupDigits(x: nat)
    requires x < WORD
    ensures Horner(Digits(x, 5)) == x
  {
    hide Digits, Horner;
    Powers();
    HornerDigits(x, 5);
  }

  lemma WordIsZero(a: byte, b: byte, c: byte, d: byte)
    ensures Word(a, b, c, d) == 0 ==> a == b == c == d == 0
  {
  }

  lemma WordInNumbers(a: nat, b: nat, c: nat, d: nat)
    ensures Word(a, b, c, d) == a * 16777216 + b * 65536 + c * 256 + d
  {
  }

  /** Five characters are read as the four bytes of their value modulo 2^32, highest first. */
  lemma ReadsGroup(t: seq<byte>)
    requires |t| >= 5 && forall i | 0 <= i < 5 :: 33 <= t[i] <= 117
    ensures
      var s := Decoded(t);
      && |s| >= 4 && s[4..] == Decoded(t[5..])
      && s[0] as int * 16777216 + s[1] as int * 65536 + s[2] as int * 256 + s[3] as int
         == ((t[0] as int - 33) * 52200625 + (t[1] as int - 33) * 614125 + (t[2] as int - 33) * 7225
             + (t[3] as int - 33) * 85 + (t[4] as int - 33)) % 4294967296
  {
    hide Value, Horner, Unpack;
    var g := t[..5];
    assert g == [t[0], t[1], t[2], t[3], t[4]];
    HornerOfFive(t[0], t[1], t[2], t[3], t[4]);
    ValueOfDigits(g);
    UnpackInNumbers(Value(g));
    var s := Decoded(t);
    assert s == Unpack(Value(g)) + Decoded(t[5..]);
  }

  lemma UnpackInNumbers(x: nat)
    requires x < WORD
    ensures
      var g := Unpack(x);
      g[0] as int * 16777216 + g[1] as int * 65536 + g[2] as int * 256 + g[3] as int == x
  {
    FourBytes(x);
  }

  /** One to three last bytes are the first characters of the group with zeros behind them. */
  lemma WritesTail(s: seq<byte>)
    requires 1 <= |s| <= 3
    ensures Encoded(s) == Encoded((s + [0, 0, 0])[..4])[..|s| + 1]
  {
    hide Digits, Word;
    var g := (s + [0, 0, 0])[..4];
    assert g[4..] == [] && g[..4] == g;
    assert Pack(g) == Pack(s);
    assert Encoded(g) == EncodeGroup(g) + [];
  }

  /** Up to four last characters are read as if `u`, which is 117, filled their group. */
  lemma ReadsTail(t: seq<byte>)
    requires 1 <= |t| <= 4 && t[0] != 122
    ensures Decoded(t) == Decoded((t + [117, 117, 117, 117])[..5])[..|t| - 1]
  {
    hide DecodeGroup;
    var g := (t + [117, 117, 117, 117])[..5];
    assert g == t + Fill(5 - |t|);
    assert g[..5] == g && g[5..] == [];
    assert Decoded(g) == DecodeGroup(g) + [];
  }

  //////////////////////////////////////////////////////////////////////////////
  // Sizes
  //////////////////////////////////////////////////////////////////////////////

  function Count(t: seq<byte>, c: byte): (n: nat)
    ensures n <= |t|
  {
    if t == [] then 0 else (if t[0] == c then 1 else 0) + Count(t[1..], c)
  }

  lemma {:induction false} CountConcat(a: seq<byte>, b: seq<byte>, c: byte)
    ensures Count(a + b, c) == Count(a, c) + Count(b, c)
  {
    if a == [] {
      assert a + b == b;
    } else {
      assert (a + b)[1..] == a[1..] + b;
      CountConcat(a[1..], b, c);
    }
  }

  lemma {:induction false} CountNone(t: seq<byte>, c: byte)
    requires forall i | 0 <= i < |t| :: t[i] != c
    ensures Count(t, c) == 0
  {
    if t != [] { CountNone(t[1..], c); }
  }

  function EncodeRequired(n: nat): nat
  {
    (n + 3) / 4 * 5
  }

  function EncodePadding(n: nat): nat
  {
    if n % 4 != 0 then 4 - n % 4 else 0
  }

  /** The encoded length, and that no character of the text is NUL. */
  lemma {:induction false} EncodedSize(s: seq<byte>)
    ensures |Encoded(s)| == EncodeRequired(|s|) - EncodePadding(|s|) - 4 * Count(Encoded(s), ZERO)
    ensures forall i | 0 <= i < |Encoded(s)| :: BANG <= Encoded(s)[i] <= FILL || Encoded(s)[i] == ZERO
    decreases |s|
  {
    hide EncodeGroup, Pack, EncodeRequired, EncodePadding;
    var t := Encoded(s);
    if |s| < 4 {
      ShortEncodedSize(|s|);
      CountNone(t, ZERO);
    } else {
      EncodedSize(s[4..]);
      EncodeSizeStep(|s|);
      var rest := Encoded(s[4..]);
      if Pack(s[..4]) == 0 && |s| >= 8 {
        assert t[1..] == rest;
      } else {
        var d := EncodeGroup(s[..4]);
        CountNone(d, ZERO);
        CountConcat(d, rest, ZERO);
      }
    }
  }

  lemma ShortEncodedSize(n: nat)
    requires n < 4
    ensures EncodeRequired(n) - EncodePadding(n) == if n == 0 then 0 else n + 1
  {
  }

  lemma EncodeSizeStep(n: nat)
    requires n >= 4
    ensures EncodeRequired(n) == EncodeRequired(n - 4) + 5 && EncodePadding(n) == EncodePadding(n - 4)
  {
  }

  /** What the decoder allocates, and drops again, for a text of n characters with z of them `z`. */
  function DecodeRequired(n: nat, z: nat): nat
    requires z <= n
  {
    (n - z + 4) / 5 * 4 + z * 4
  }

  function DecodePadding(n: nat, z: nat): nat
  {
    if (n + z * 4) % 5 != 0 then 5 - (n + z * 4) % 5 else 0
  }

  lemma DecodeSizeStep(n: nat, z: nat)
    requires z <= n
    ensures DecodeRequired(n + 5, z) == DecodeRequired(n, z) + 4 && DecodePadding(n + 5, z) == DecodePadding(n, z)
    ensures DecodeRequired(n + 1, z + 1) == DecodeRequired(n, z) + 4
    ensures DecodePadding(n + 1, z + 1) == DecodePadding(n, z)
  {
  }

  /** Prefixing one full group of digits, seen by the decoder and by its size arithmetic. */
  lemma PrependGroup(g: seq<byte>, t: seq<byte>)
    requires |g| == 5 && AllDigits(g)
    ensures WellFormed(g + t) == WellFormed(t)
    ensures Decoded(g + t) == DecodeGroup(g) + Decoded(t)
    ensures Count(g + t, ZERO) == Count(t, ZERO)
    ensures DecodeRequired(|g + t|, Count(g + t, ZERO)) == DecodeRequired(|t|, Count(t, ZERO)) + 4
    ensures DecodePadding(|g + t|, Count(g + t, ZERO)) == DecodePadding(|t|, Count(t, ZERO))
  {
    hide DecodeGroup, Fill, DecodeRequired, DecodePadding;
    assert (g + t)[..5] == g && (g + t)[5..] == t;
    CountNone(g, ZERO);
    CountConcat(g, t, ZERO);
    DecodeSizeStep(|t|, Count(t, ZERO));
  }

  lemma ShortSize(n: nat)
    requires 0 < n < 5
    ensures DecodeRequired(n, 0) - DecodePadding(n, 0) == n - 1
  {
  }

  /** The decoder's size arithmetic gives the decoded length of every well-formed text. */
  lemma {:induction false} DecodedSize(t: seq<byte>)
    requires WellFormed(t)
    ensures |Decoded(t)| == DecodeRequired(|t|, Count(t, ZERO)) - DecodePadding(|t|, Count(t, ZERO))
    decreases |t|
  {
    hide DecodeGroup, Fill, DecodeRequired, DecodePadding;
    if t == [] {
      EmptySize();
    } else if t[0] == ZERO {
      DecodedSize(t[1..]);
      DecodeSizeStep(|t| - 1, Count(t[1..], ZERO));
    } else if |t| < 5 {
      CountNone(t, ZERO);
      ShortSize(|t|);
    } else {
      DecodedSize(t[5..]);
      assert t == t[..5] + t[5..];
      PrependGroup(t[..5], t[5..]);
    }
  }

  lemma EmptySize()
    ensures DecodeRequired(0, 0) == DecodePadding(0, 0) == 0
  {
  }

  /** For the encoder's own texts the decoder computes the length of the original bytes. */
  lemma SizesAgree(s: seq<byte>)
    ensures
      var n, z := |Encoded(s)|, Count(Encoded(s), ZERO);
      DecodeRequired(n, z) - DecodePadding(n, z) == |s|
  {
    RoundTrip(s);
    DecodedSize(Encoded(s));
  }

  //////////////////////////////////////////////////////////////////////////////
  // The z shortcut
  //////////////////////////////////////////////////////////////////////////////

  function ExpandZ(t: seq<byte>): seq<byte>
  {
    if t == [] then []
    else (if t[0] == ZERO then [BANG, BANG, BANG, BANG, BANG] else [t[0]]) + ExpandZ(t[1..])
  }

  lemma {:induction false} ExpandDigits(d: seq<byte>, t: seq<byte>)
    requires AllDigits(d)
    ensures ExpandZ(d + t) == d + ExpandZ(t)
  {
    if d == [] {
      assert d + t == t;
    } else {
      assert (d + t)[1..] == d[1..] + t;
      ExpandDigits(d[1..], t);
      assert d == [d[0]] + d[1..];
    }
  }

  lemma ValueOfBangs()
    ensures DecodeGroup([BANG, BANG, BANG, BANG, BANG]) == [0, 0, 0, 0]
  {
    var t := [BANG, BANG, BANG, BANG, BANG];
    assert Horner(t) == 0 by {
      assert t[..4] == [BANG, BANG, BANG, BANG];
      assert t[..4][..3] == [BANG, BANG, BANG];
      assert t[..4][..3][..2] == [BANG, BANG];
      assert t[..4][..3][..2][..1] == [BANG];
      assert Horner([BANG]) == 0;
      assert Horner([BANG, BANG]) == 0;
      assert Horner([BANG, BANG, BANG]) == 0;
    }
    NoWrap(t);
  }

  /** Writing `!!!!!` for every `z` changes neither the decoded bytes nor any size the decoder computes. */
  lemma {:induction false} ZIsTransparent(t: seq<byte>)
    requires WellFormed(t)
    ensures WellFormed(ExpandZ(t)) && Count(ExpandZ(t), ZERO) == 0
    ensures Decoded(ExpandZ(t)) == Decoded(t)
    ensures DecodeRequired(|ExpandZ(t)|, 0) == DecodeRequired(|t|, Count(t, ZERO))
    ensures DecodePadding(|ExpandZ(t)|, 0) == DecodePadding(|t|, Count(t, ZERO))
    decreases |t|
  {
    hide DecodeGroup, Fill, DecodeRequired, DecodePadding;
    var e := ExpandZ(t);
    if t == [] {
    } else if t[0] == ZERO {
      ZIsTransparent(t[1..]);
      DecodeSizeStep(|t| - 1, Count(t[1..], ZERO));
      var bangs, rest := [BANG, BANG, BANG, BANG, BANG], ExpandZ(t[1..]);
      PrependGroup(bangs, rest);
      ValueOfBangs();
    } else if |t| < 5 {
      ExpandDigits(t, []);
      CountNone(t, ZERO);
      assert t + [] == t;
    } else {
      ZIsTransparent(t[5..]);
      DecodeSizeStep(|t| - 5, Count(t[5..], ZERO));
      assert t == t[..5] + t[5..];
      ExpandDigits(t[..5], t[5..]);
      PrependGroup(t[..5], t[5..]);
      PrependGroup(t[..5], ExpandZ(t[5..]));
    }
  }

  //////////////////////////////////////////////////////////////////////////////
  // ascii85_encode
  //////////////////////////////////////////////////////////////////////////////

  /** The buffer holds text t and its NUL terminator. */
  predicate HoldsText(buf: seq<byte>, t: seq<byte>)
  {
    |t| < |buf| && buf[..|t|] == t && buf[|t|] == 0 && forall i | 0 <= i < |t| :: t[i] != 0
  }

  method Strlen(buf: array<byte>, ghost t: seq<byte>) returns (n: nat)
    requires HoldsText(buf[..], t)
    ensures n == |t|
  {
    n := 0;
    assert buf[..][|t|] == 0;
    while buf[n] != 0
      invariant n <= |t|
      decreases |t| - n
    {
      assert n != |t|;
      n := n + 1;
    }
    assert forall i | 0 <= i < |t| :: buf[..][..|t|][i] != 0;
  }

  /** The text before the padded characters are removed: every group in full. */
  function Groups(s: seq<byte>): (t: seq<byte>)
  {
    if s == [] then []
    else
      var n := if |s| < 4 then |s| else 4;
      if Pack(s[..n]) == 0 && |s| - n >= 4 then [ZERO] + Groups(s[n..])
      else EncodeGroup(s[..n]) + Groups(s[n..])
  }

  lemma {:induction false} GroupsStripped(s: seq<byte>)
    ensures Encoded(s) <= Groups(s) && |Groups(s)| == |Encoded(s)| + EncodePadding(|s|)
    decreases |s|
  {
    hide EncodeGroup, Pack, EncodePadding;
    if |s| < 4 {
      ShortGroups(s);
    } else {
      GroupsStripped(s[4..]);
      EncodeSizeStep(|s|);
    }
  }

  lemma ShortGroups(s: seq<byte>)
    requires |s| < 4
    ensures Encoded(s) <= Groups(s) && |Groups(s)| == |Encoded(s)| + EncodePadding(|s|)
  {
    hide EncodeGroup, Pack;
    if s != [] {
      assert s[..|s|] == s && s[|s|..] == [];
      NoGroups();
    }
  }

  lemma {:induction false} GroupsFit(s: seq<byte>)
    ensures |Groups(s)| <= EncodeRequired(|s|)
    ensures forall i | 0 <= i < |Groups(s)| :: Groups(s)[i] != 0
    decreases |s|
  {
    hide EncodeGroup, Pack, EncodeRequired;
    if |s| < 4 {
      ShortRequired(|s|);
      NoGroups();
      assert s != [] ==> Groups(s[|s|..]) == [];
    } else {
      GroupsFit(s[4..]);
      EncodeSizeStep(|s|);
    }
  }

  lemma ShortRequired(n: nat)
    requires n < 4
    ensures EncodeRequired(n) == if n == 0 then 0 else 5
  {
  }

  lemma PackSnoc(g: seq<byte>, b: byte)
    requires |g| < 4
    ensures Pack(g + [b]) == Pack(g) + b as nat * Pow256(3 - |g|)
  {
    hide Word, Pow256;
    var n, h := |g|, g + [b];
    assert At(h, 0) == if n == 0 then b else At(g, 0);
    assert At(h, 1) == if n == 1 then b else At(g, 1);
    assert At(h, 2) == if n == 2 then b else At(g, 2);
    assert At(h, 3) == if n == 3 then b else At(g, 3);
    WordSnoc(At(g, 0), At(g, 1), At(g, 2), At(g, 3), n, b);
  }

  lemma WordSnoc(p: byte, q: byte, r: byte, s: byte, n: nat, b: byte)
    requires n < 4 && (n == 0 ==> p == 0) && (n == 1 ==> q == 0) && (n == 2 ==> r == 0) && (n == 3 ==> s == 0)
    ensures
      Word(if n == 0 then b else p, if n == 1 then b else q, if n == 2 then b else r, if n == 3 then b else s)
        == Word(p, q, r, s) + b as nat * Pow256(3 - n)
  {
    assert Pow256(0) == 1;
    hide Pow256;
    Powers();
  }

  /** ascii85_encode: the chunk loop, packing up to four bytes of the source from `start`. */
  method PackChunk(source: seq<byte>, start: nat) returns (x: nat, end: nat)
    requires start < |source|
    ensures end == if |source| - start < 4 then |source| else start + 4
    ensures x == Pack(source[start..end])
  {
    hide Pack, Pow256;
    x, end := 0, start;
    assert Pack([]) == 0 by { PackNothing(); }
    assert source[start..end] == [];
    var chunk := 3;
    while chunk >= 0
      invariant chunk >= -1 && end == start + 3 - chunk
      invariant end < |source|
      invariant x == Pack(source[start..end])
      decreases chunk
    {
      PackSnoc(source[start..end], source[end]);
      assert source[start..end] + [source[end]] == source[start..end + 1];
      x := x + source[end] as nat * Pow256(chunk);  // a bitwise or of disjoint bytes
      end := end + 1;
      if end == |source| { break; }
      chunk := chunk - 1;
    }
  }

  lemma PackNothing()
    ensures Pack([]) == 0
  {
  }

  /** ascii85_encode: the digit loop, filling en[w..w + 5] from the last digit back. */
  method StoreGroup(en: array<byte>, w: nat, value: nat)
    requires w + 5 <= en.Length
    modifies en
    ensures en[..w + 5] == old(en[..w]) + Digits(value, 5)
    ensures forall k | w + 5 <= k < en.Length :: en[k] == old(en[k])
  {
    var x: nat, n: nat := value, 5;
    while n > 0
      invariant n <= 5
      invariant en[..w] == old(en[..w])
      invariant forall k | w + 5 <= k < en.Length :: en[k] == old(en[k])
      invariant Digits(x, n) + en[w + n..w + 5] == Digits(value, 5)
    {
      ghost var tail := en[w + n..w + 5];
      n := n - 1;
      en[w + n] := x % 85 + BANG;
      assert en[w + n..w + 5] == [x % 85 + BANG] + tail;
      assert Digits(x, n + 1) + tail == Digits(x / 85, n) + ([x % 85 + BANG] + tail);
      x := x / 85;
    }
    assert en[..w + 5] == en[..w] + en[w..w + 5];
  }

  lemma GroupsStep(source: seq<byte>, src: nat, end: nat)
    requires src < end <= |source|
    requires end == if |source| - src < 4 then |source| else src + 4
    ensures
      var x := Pack(source[src..end]);
      var t := if x == 0 && |source| - end >= 4 then [ZERO] else Digits(x, 5);
      Groups(source[src..]) == t + Groups(source[end..])
  {
    hide Pack, Digits;
    var rest := source[src..];
    assert rest[..end - src] == source[src..end] && rest[end - src..] == source[end..];
  }

  /** ascii85_encode: one round of the main loop. */
  method EncodeChunk(en: array<byte>, w: nat, source: seq<byte>, src: nat) returns (w': nat, end: nat)
    requires src < |source|
    requires w + |Groups(source[src..])| < en.Length
    modifies en
    ensures src < end <= |source| && w <= w' < en.Length
    ensures en[..w'] + Groups(source[end..]) == old(en[..w]) + Groups(source[src..])
    ensures forall k | w' <= k < en.Length :: en[k] == old(en[k])
  {
    hide Groups, Pack, Digits;
    ghost var done := en[..w];
    var x;
    x, end := PackChunk(source, src);
    GroupsStep(source, src, end);
    if x == 0 && |source| - end >= 4 {
      en[w] := ZERO;
      w' := w + 1;
      assert en[..w'] == done + [ZERO];
    } else {
      StoreGroup(en, w, x);
      w' := w + 5;
    }
  }

  method Encode(source: seq<byte>) returns (en: array<byte>)
    ensures fresh(en)
    ensures HoldsText(en[..], Encoded(source))
    ensures
      var n := |Encoded(source)|;
      n < en.Length && en[..n] == Encoded(source) && en[n] == 0 && forall i | 0 <= i < n :: en[i] != 0
  {
    hide Groups, EncodeRequired, EncodePadding, Encoded;
    var required, padding := EncodeRequired(|source|), EncodePadding(|source|);
    en := new byte[required + 1](_ => 0);
    var src, w := 0, 0;
    ghost var all := Groups(source);
    GroupsStripped(source);
    GroupsFit(source);
    assert source[0..] == source;
    while src < |source|
      invariant src <= |source| && w <= required
      invariant en[..w] + Groups(source[src..]) == all
      invariant forall k | w <= k <= required :: en[k] == 0
    {
      assert w + |Groups(source[src..])| == |all|;
      w, src := EncodeChunk(en, w, source, src);
    }
    NoGroups();
    assert source[src..] == [];
    assert en[..w] == all;
    StripPadding(en, all, padding);
  }

  lemma NoGroups()
    ensures Groups([]) == []
  {
  }

  /** ascii85_encode: removing the padded characters one strlen at a time. */
  method StripPadding(en: array<byte>, ghost text: seq<byte>, padding: nat)
    requires padding <= |text| && HoldsText(en[..], text)
    modifies en
    ensures HoldsText(en[..], text[..|text| - padding])
  {
    assert text[..|text|] == text;
    for i := 0 to padding
      invariant HoldsText(en[..], text[..|text| - i])
    {
      ghost var t := text[..|text| - i];
      var n := Strlen(en, t);
      en[n - 1] := 0;
      assert text[..|text| - (i + 1)] == t[..n - 1];
      assert en[..][..n - 1] == t[..n - 1];
    }
  }

  //////////////////////////////////////////////////////////////////////////////
  // ascii85_decode
  //////////////////////////////////////////////////////////////////////////////

  /** Well formed with every group in full. */
  predicate FullGroups(t: seq<byte>)
  {
    if t == [] then true
    else if t[0] == ZERO then FullGroups(t[1..])
    else |t| >= 5 && AllDigits(t[..5]) && FullGroups(t[5..])
  }

  /** Padding a text with `u` completes its last group and only appends decoded bytes. */
  lemma {:induction false} PaddedText(t: seq<byte>)
    requires WellFormed(t)
    ensures
      var z := Count(t, ZERO);
      var padding := DecodePadding(|t|, z);
      var full := t + Fill(padding);
      && FullGroups(full)
      && |Decoded(full)| == DecodeRequired(|t|, z)
      && Decoded(t) <= Decoded(full)
    decreases |t|
  {
    hide DecodeGroup, DecodeRequired, DecodePadding, Fill, Decoded, FullGroups, Count;
    var padding := DecodePadding(|t|, Count(t, ZERO));
    if t == [] {
      PaddedEmpty();
      assert t + Fill(0) == [];
    } else if t[0] == ZERO {
      PaddedText(t[1..]);
      var rest := t[1..] + Fill(padding);
      PrependZ(t[1..]);
      PrependZ(rest);
      DecodeSizeStep(|t| - 1, Count(t[1..], ZERO));
      assert t == [ZERO] + t[1..] && t + Fill(padding) == [ZERO] + rest;
    } else if |t| < 5 {
      PaddedShort(t);
    } else {
      PaddedText(t[5..]);
      var rest := t[5..] + Fill(padding);
      PrependGroup(t[..5], t[5..]);
      assert t == t[..5] + t[5..];
      PrependFull(t[..5], rest);
      assert t + Fill(padding) == t[..5] + rest;
    }
  }

  lemma PaddedEmpty()
    ensures Count([], ZERO) == 0 && DecodePadding(0, 0) == 0 && DecodeRequired(0, 0) == 0
    ensures FullGroups([]) && Decoded([]) == []
  {
    hide Decoded, DecodeRequired, DecodePadding;
    EmptySize();
    NoBytes();
  }

  lemma NoBytes()
    ensures Decoded([]) == []
  {
  }

  lemma PrependZ(t: seq<byte>)
    ensures FullGroups([ZERO] + t) == FullGroups(t)
    ensures Decoded([ZERO] + t) == [0, 0, 0, 0] + Decoded(t)
    ensures Count([ZERO] + t, ZERO) == Count(t, ZERO) + 1
  {
    hide DecodeGroup, Fill;
    assert ([ZERO] + t)[1..] == t;
  }

  lemma PrependFull(g: seq<byte>, t: seq<byte>)
    requires |g| == 5 && AllDigits(g) && FullGroups(t)
    ensures FullGroups(g + t) && Decoded(g + t) == DecodeGroup(g) + Decoded(t)
  {
    hide DecodeGroup, Fill;
    assert (g + t)[..5] == g && (g + t)[5..] == t;
  }

  lemma PaddedShort(t: seq<byte>)
    requires 0 < |t| < 5 && AllDigits(t)
    ensures Count(t, ZERO) == 0 && DecodePadding(|t|, 0) == 5 - |t| && DecodeRequired(|t|, 0) == 4
    ensures
      var full := t + Fill(5 - |t|);
      FullGroups(full) && |Decoded(full)| == 4 && Decoded(t) <= Decoded(full)
  {
    hide DecodeGroup, Fill;
    CountNone(t, ZERO);
    var full := t + Fill(5 - |t|);
    assert full[..5] == full && full[5..] == [];
    assert Decoded([]) == [];
  }

  method CountZ(source: seq<byte>) returns (n: nat)
    ensures n == Count(source, ZERO)
  {
    n := 0;
    var p := 0;
    while p < |source|
      invariant p <= |source| && n + Count(source[p..], ZERO) == Count(source, ZERO)
    {
      assert source[p..][1..] == source[p + 1..];
      if source[p] == ZERO { n := n + 1; }
      p := p + 1;
    }
  }

  /** ascii85_decode: the five-character accumulation in a uint32. */
  method LoadGroup(src: array<byte>, at: nat) returns (x: nat)
    requires at + 5 <= src.Length
    ensures x == Value(src[at..at + 5])
  {
    x := 0;
    for chunk := 0 to 5
      invariant x == Value(src[at..at + chunk])
    {
      ghost var t := src[at..at + chunk + 1];
      assert t[..|t| - 1] == src[at..at + chunk];
      x := (x * 85 + (src[at + chunk] as int - BANG)) % WORD;
    }
  }

  /** ascii85_decode: the four bytes of x, highest first. */
  method StoreWord(en: array<byte>, w: nat, x: nat)
    requires w + 4 <= en.Length
    modifies en
    ensures en[..w + 4] == old(en[..w]) + Unpack(x)
    ensures forall k | w + 4 <= k < en.Length :: en[k] == old(en[k])
  {
    Powers();
    hide Pow85;
    var byte_, at := 3, w;
    while byte_ >= 0
      invariant -1 <= byte_ <= 3 && at == w + 3 - byte_
      invariant en[..w] == old(en[..w])
      invariant forall k | w + 4 <= k < en.Length :: en[k] == old(en[k])
      invariant forall k | w <= k < at :: en[k] == x / Pow256(w + 3 - k) % 256
    {
      en[at] := x / Pow256(byte_) % 256;
      at := at + 1;
      byte_ := byte_ - 1;
    }
    assert en[..w + 4] == en[..w] + en[w..w + 4];
  }

  /** ascii85_decode: the source with `padding` characters `u` after it, NUL terminated. */
  method PadSource(source: seq<byte>, padding: nat) returns (padded: array<byte>)
    ensures fresh(padded) && padded.Length == |source| + padding + 1
    ensures padded[..|source| + padding] == source + Fill(padding)
  {
    padded := new byte[|source| + padding + 1](_ => 0);
    forall i | 0 <= i < |source| { padded[i] := source[i]; }
    for i := 0 to padding
      invariant forall k | 0 <= k < |source| :: padded[k] == source[k]
      invariant forall k | |source| <= k < |source| + i :: padded[k] == FILL
    {
      padded[|source| + i] := FILL;
    }
  }

  lemma DecodedStep(full: seq<byte>, src: nat)
    requires src < |full| && FullGroups(full[src..])
    ensures
      if full[src] == ZERO then
        FullGroups(full[src + 1..]) && Decoded(full[src..]) == Unpack(0) + Decoded(full[src + 1..])
      else
        && src + 5 <= |full| && FullGroups(full[src + 5..])
        && Decoded(full[src..]) == Unpack(Value(full[src..src + 5])) + Decoded(full[src + 5..])
  {
    hide Value, Fill;
    var rest := full[src..];
    if full[src] == ZERO {
      assert rest[1..] == full[src + 1..];
      assert Unpack(0) == [0, 0, 0, 0];
    } else {
      hide Unpack;
      assert rest[..5] == full[src..src + 5] && rest[5..] == full[src + 5..];
    }
  }

  /** ascii85_decode: the main loop over a source of full groups. */
  method DecodeGroups(padded: array<byte>, n: nat, en: array<byte>, ghost full: seq<byte>)
    requires padded != en && n == |full| < padded.Length && padded[..|full|] == full
    requires FullGroups(full) && |Decoded(full)| < en.Length
    requires forall k | 0 <= k < en.Length :: en[k] == 0
    modifies en
    ensures en[..|Decoded(full)|] == Decoded(full)
    ensures forall k | |Decoded(full)| <= k < en.Length :: en[k] == 0
  {
    hide Decoded, FullGroups, Value, Unpack;
    var w: nat, src: nat, paddedLen := 0, 0, n;
    assert full[0..] == full;
    while paddedLen > 0
      invariant 0 <= paddedLen == |full| - src
      invariant FullGroups(full[src..]) && w <= |Decoded(full)|
      invariant en[..w] + Decoded(full[src..]) == Decoded(full)
      invariant forall k | w <= k < en.Length :: en[k] == 0
    {
      DecodedStep(full, src);
      ghost var done := en[..w];
      var x := 0;
      assert padded[src] == padded[..|full|][src];
      if padded[src] == ZERO {
        paddedLen, src := paddedLen - 1, src + 1;
      } else {
        assert padded[src..src + 5] == padded[..|full|][src..src + 5];
        x := LoadGroup(padded, src);
        paddedLen, src := paddedLen - 5, src + 5;
      }
      assert |done + (Unpack(x) + Decoded(full[src..]))| == |Decoded(full)|;
      StoreWord(en, w, x);
      w := w + 4;
    }
    NoBytes();
    assert full[src..] == [];
    assert en[..w] == Decoded(full);
  }

  method Decode(source: seq<byte>) returns (en: array<byte>, len: nat)
    requires WellFormed(source)
    ensures fresh(en) && len < en.Length
    ensures en[..len] == Decoded(source)
    ensures forall k | len <= k < en.Length :: en[k] == 0
  {
    hide DecodeRequired, DecodePadding, Decoded, FullGroups, Fill;
    var z := CountZ(source);
    var required, padding := DecodeRequired(|source|, z), DecodePadding(|source|, z);
    PaddedText(source);
    DecodedSize(source);
    var padded := PadSource(source, padding);
    en := new byte[required + 1](_ => 0);
    ghost var full := source + Fill(padding);
    DecodeGroups(padded, |source| + padding, en, full);

    // The bytes that the fill characters brought are zeroed again.
    for i := 0 to padding
      invariant en[..required - padding] == Decoded(source)
      invariant forall k | required - i <= k <= required :: en[k] == 0
    {
      en[required - 1 - i] := 0;
    }
    len := required - padding;
  }
}
