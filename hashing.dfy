/** `hashString` of server/routes.js: the seed of the option shuffle.

    The loop folds the string's code units into a signed 32-bit integer with
    `hash = (hash << 5) - hash + c; hash &= hash`. JavaScript numbers are
    doubles, so the arithmetic is exact here and only `<<` and `&=` truncate to
    32 bits; the model writes both truncations out. */
module Hashing {
  import opened JsValues

  predicate IsInt32(x: int)
  {
    -0x8000_0000 <= x < 0x8000_0000
  }

  /** ECMAScript ToInt32: the integer in [-2^31, 2^31) congruent to `x`
      modulo 2^32. */
  function ToInt32(x: int): (r: int)
    ensures IsInt32(r)
    ensures (x - r) % 0x1_0000_0000 == 0
  {
    (x + 0x8000_0000) % 0x1_0000_0000 - 0x8000_0000
  }

  /** Adding a multiple of 2^32 does not change ToInt32. */
  lemma ToInt32Shift(y: int, k: int)
    ensures ToInt32(y + 0x1_0000_0000 * k) == ToInt32(y)
  {
    var z := y + 0x8000_0000;
    var q, r := z / 0x1_0000_0000, z % 0x1_0000_0000;
    assert z + 0x1_0000_0000 * k == 0x1_0000_0000 * (q + k) + r;
  }

  /** `h << 5`: the left operand is converted with ToInt32 and the shifted
      value is truncated to 32 bits again. */
  function ShiftLeft5(h: int): (r: int)
    ensures IsInt32(r)
  {
    ToInt32(ToInt32(h) * 32)
  }

  /** One iteration of the loop body, as written:
      `hash = (hash << 5) - hash + character; hash &= hash`. */
  function HashStep(h: int, c: CodeUnit): (r: int)
    ensures IsInt32(r)
  {
    var sum := ShiftLeft5(h) - h + c;
    ToInt32(sum)  // hash & hash == ToInt32(hash)
  }

  /** The value `hashString` returns for `s`: the loop is a left fold of
      HashStep over the code units, starting from 0. */
  function HashString(s: JsStr): (r: int)
    ensures IsInt32(r)
  {
    if s == [] then 0 else HashStep(HashString(s[..|s| - 1]), s[|s| - 1])
  }

  /** The truncating shift makes no difference: each step is
      ToInt32(31 * h + c), the step of `java.lang.String.hashCode`. */
  lemma HashStepIsTimes31(h: int, c: CodeUnit)
    ensures HashStep(h, c) == ToInt32(31 * h + c)
  {
    var t := ToInt32(h);
    var b := (h - t) / 0x1_0000_0000;
    assert h == t + 0x1_0000_0000 * b;
    var u := ShiftLeft5(h);
    var a := (t * 32 - u) / 0x1_0000_0000;
    assert t * 32 == u + 0x1_0000_0000 * a;
    assert 31 * h + c == (u - h + c) + 0x1_0000_0000 * (a + 32 * b);
    ToInt32Shift(u - h + c, a + 32 * b);
  }

  /** Appending one code unit: the hash is a left fold whose step multiplies
      by 31, adds the code unit and wraps to 32 bits. */
  lemma HashAppend(s: JsStr, c: CodeUnit)
    ensures HashString(s + [c]) == ToInt32(31 * HashString(s) + c)
  {
    assert (s + [c])[..|s|] == s;
    HashStepIsTimes31(HashString(s), c);
  }

  /** The unbounded polynomial s[0]*31^(n-1) + ... + s[n-1], the value
      `java.lang.String.hashCode` truncates. */
  function Poly(s: JsStr): int
  {
    if s == [] then 0 else 31 * Poly(s[..|s| - 1]) + s[|s| - 1]
  }

  /** `hashString` equals the Java string hash: the polynomial, wrapped once
      at the end to a signed 32-bit integer. */
  lemma {:induction false} HashIsWrappedPoly(s: JsStr)
    ensures HashString(s) == ToInt32(Poly(s))
  {
    if s != [] {
      var p, c := s[..|s| - 1], s[|s| - 1];
      HashIsWrappedPoly(p);
      HashStepIsTimes31(HashString(p), c);
      WrapBeforeTimes31(Poly(p), c);
    }
  }

  /** Wrapping before the step or only after it gives the same 32-bit value. */
  lemma WrapBeforeTimes31(x: int, c: int)
    ensures ToInt32(31 * ToInt32(x) + c) == ToInt32(31 * x + c)
  {
    var w := ToInt32(x);
    var k := (x - w) / 0x1_0000_0000;
    assert x == w + 0x1_0000_0000 * k;
    assert 31 * x + c == (31 * w + c) + 0x1_0000_0000 * (31 * k);
    ToInt32Shift(31 * w + c, 31 * k);
  }

  /** 31^k. */
  function Pow31(k: nat): int
  {
    if k == 0 then 1 else 31 * Pow31(k - 1)
  }

  /** 31 is invertible modulo 2^32 (31 * 0xBDEF_7BDF == 1 + 23 * 2^32), so a
      multiple of 31 is divisible by 2^32 only if the other factor is. */
  lemma Times31Cancels(x: int)
    requires (31 * x) % 0x1_0000_0000 == 0
    ensures x % 0x1_0000_0000 == 0
  {
    var k := (31 * x) / 0x1_0000_0000;
    assert 31 * x == 0x1_0000_0000 * k;
    assert x * (31 * 0xBDEF_7BDF) == x + 0x1_0000_0000 * (23 * x);
    assert x == 0x1_0000_0000 * (k * 0xBDEF_7BDF - 23 * x);
  }

  lemma {:induction false} TimesPow31Cancels(d: int, k: nat)
    requires (d * Pow31(k)) % 0x1_0000_0000 == 0
    ensures d % 0x1_0000_0000 == 0
  {
    if k > 0 {
      assert d * Pow31(k) == 31 * (d * Pow31(k - 1));
      Times31Cancels(d * Pow31(k - 1));
      TimesPow31Cancels(d, k - 1);
    }
  }

  /** Changing one code unit changes the polynomial by a multiple of 31^k,
      k being the number of units after it. */
  lemma {:induction false} PolyOneUnitDifference(p: JsStr, c1: CodeUnit, c2: CodeUnit, t: JsStr)
    ensures Poly(p + [c1] + t) - Poly(p + [c2] + t) == (c1 - c2) * Pow31(|t|)
  {
    var x1, x2 := p + [c1] + t, p + [c2] + t;
    if t == [] {
      assert x1 == p + [c1] && x2 == p + [c2];
      PolySnoc(p, c1);
      PolySnoc(p, c2);
    } else {
      var t', e := t[..|t| - 1], t[|t| - 1];
      var y1, y2 := p + [c1] + t', p + [c2] + t';
      PolyOneUnitDifference(p, c1, c2, t');
      assert x1 == y1 + [e] && x2 == y2 + [e];
      PolySnoc(y1, e);
      PolySnoc(y2, e);
      TimesThirtyOne(c1 - c2, Pow31(|t'|));
    }
  }

  lemma PolySnoc(p: JsStr, c: CodeUnit)
    ensures Poly(p + [c]) == 31 * Poly(p) + c
  {
    assert (p + [c])[..|p|] == p;
  }

  lemma TimesThirtyOne(d: int, w: int)
    ensures 31 * (d * w) == d * (31 * w)
  {
  }

  /** Values with the same ToInt32 are congruent modulo 2^32. */
  lemma SameInt32Congruent(x: int, y: int)
    requires ToInt32(x) == ToInt32(y)
    ensures (x - y) % 0x1_0000_0000 == 0
  {
    var r := ToInt32(x);
    var k1, k2 := (x - r) / 0x1_0000_0000, (y - r) / 0x1_0000_0000;
    assert x - y == 0x1_0000_0000 * (k1 - k2);
  }

  /** Seed sensitivity: two strings that differ in one code unit, with the
      same units before and after it, never hash alike. Question names "A" and
      "B" with the same salt therefore always get different seeds. */
  lemma HashSeparatesOneUnit(p: JsStr, c1: CodeUnit, c2: CodeUnit, t: JsStr)
    ensures HashString(p + [c1] + t) == HashString(p + [c2] + t) <==> c1 == c2
  {
    var s1, s2 := p + [c1] + t, p + [c2] + t;
    if HashString(s1) == HashString(s2) {
      HashIsWrappedPoly(s1);
      HashIsWrappedPoly(s2);
      SameInt32Congruent(Poly(s1), Poly(s2));
      PolyOneUnitDifference(p, c1, c2, t);
      CongruentDifferenceVanishes(Poly(s1), Poly(s2), c1 - c2, |t|);
    }
  }

  /** A difference of d * 31^k, |d| < 2^16, that is a multiple of 2^32 is 0. */
  lemma CongruentDifferenceVanishes(x: int, y: int, d: int, k: nat)
    requires (x - y) % 0x1_0000_0000 == 0
    requires x - y == d * Pow31(k)
    requires -0x1_0000 < d < 0x1_0000
    ensures d == 0
  {
    TimesPow31Cancels(d, k);
  }

  /** The iterative `hashString`: a loop updating `hash` once per code unit. */
  method HashStringLoop(str: JsStr) returns (hash: int)
    ensures hash == HashString(str)
    ensures IsInt32(hash) && (str == [] ==> hash == 0)
  {
    hash := 0;
    var i := 0;
    while i < |str|
      invariant 0 <= i <= |str|
      invariant hash == HashString(str[..i])
    {
      assert str[..i + 1][..i] == str[..i];
      hash := HashStep(hash, str[i]);
      i := i + 1;
    }
    assert str[..i] == str;
  }
}
