/** Numerals in any base, most significant digit first, and conversion between bases in place. */
module Numerals {
  import opened Words

  ghost function Pow(b: nat, n: nat): nat {
    if n == 0 then 1 else b * Pow(b, n - 1)
  }

  lemma {:induction false} PowPositive(b: nat, n: nat)
    requires b > 0
    ensures Pow(b, n) > 0
  {
    if n > 0 {
      PowPositive(b, n - 1);
      AtLeastOnce(b, Pow(b, n - 1));
    }
  }

  lemma {:induction false} PowAdd(b: nat, m: nat, n: nat)
    ensures Pow(b, m + n) == Pow(b, m) * Pow(b, n)
  {
    if m > 0 {
      PowAdd(b, m - 1, n);
      Associate(b, Pow(b, m - 1), Pow(b, n));
    }
  }

  lemma Associate(a: nat, b: nat, c: nat)
    ensures a * (b * c) == (a * b) * c
  {
  }

  lemma {:induction false} PowMul(b: nat, m: nat, n: nat)
    ensures m * n >= 0 && Pow(Pow(b, m), n) == Pow(b, m * n)
    decreases n
  {
    NonNegative(m, n);
    if n == 0 {
      assert m * 0 == 0;
    } else {
      PowMul(b, m, n - 1);
      assert m * n == m + m * (n - 1);
      PowAdd(b, m, m * (n - 1));
    }
  }

  lemma {:induction false} PowMonotone(a: nat, b: nat, n: nat)
    requires a <= b
    ensures Pow(a, n) <= Pow(b, n)
  {
    if n > 0 {
      PowMonotone(a, b, n - 1);
      NonNegative(b - a, Pow(a, n - 1));
      NonNegative(b, Pow(b, n - 1) - Pow(a, n - 1));
      assert (b - a) * Pow(a, n - 1) == b * Pow(a, n - 1) - a * Pow(a, n - 1);
      assert b * (Pow(b, n - 1) - Pow(a, n - 1)) == b * Pow(b, n - 1) - b * Pow(a, n - 1);
    }
  }

  lemma {:induction false} PowStrict(a: nat, b: nat, n: nat)
    requires a < b && n > 0
    ensures Pow(a, n) < Pow(b, n)
  {
    if n > 1 {
      PowStrict(a, b, n - 1);
      NonNegative(b - a, Pow(a, n - 1));
      AtLeastOnce(Pow(b, n - 1) - Pow(a, n - 1), b);
      assert (b - a) * Pow(a, n - 1) == b * Pow(a, n - 1) - a * Pow(a, n - 1);
      assert (Pow(b, n - 1) - Pow(a, n - 1)) * b == b * Pow(b, n - 1) - b * Pow(a, n - 1);
    }
  }

  lemma {:induction false} PowGrows(b: nat, m: nat, n: nat)
    requires b > 0 && m <= n
    ensures Pow(b, m) <= Pow(b, n)
  {
    PowAdd(b, m, n - m);
    PowPositive(b, n - m);
    AtLeastOnce(Pow(b, n - m), Pow(b, m));
  }

  /** If q digits of one base fit in p of another, then m fit in k whenever m:k is at most q:p. */
  lemma DigitsFit(a: nat, q: nat, b: nat, p: nat, m: nat, k: nat)
    requires b > 0 && q > 0 && Pow(a, q) <= Pow(b, p) && p * m <= q * k
    ensures Pow(a, m) <= Pow(b, k)
  {
    hide Pow;
    NonNegative(q, k);
    NonNegative(p, m);
    if Pow(a, m) > Pow(b, k) {
      PowStrict(Pow(b, k), Pow(a, m), q);
      PowMul(b, k, q);
      PowMul(a, m, q);
      PowMul(a, q, m);
      PowMonotone(Pow(a, q), Pow(b, p), m);
      PowMul(b, p, m);
      assert k * q == q * k && m * q == q * m;
      PowGrows(b, p * m, q * k);
      assert false;
    }
  }

  // ----- Numerals -----------------------------------------------------------------------------------------------

  ghost predicate Digits(s: seq<int>, base: nat) {
    forall i :: 0 <= i < |s| ==> 0 <= s[i] < base
  }

  /** The number that digits stand for. */
  ghost function Num(s: seq<int>, base: nat): int {
    if s == [] then 0 else base * Num(s[..|s| - 1], base) + s[|s| - 1]
  }

  lemma NumSnoc(s: seq<int>, d: int, base: nat)
    ensures Num(s + [d], base) == base * Num(s, base) + d
  {
    assert (s + [d])[..|s|] == s;
  }

  lemma {:induction false} NumCons(d: int, s: seq<int>, base: nat)
    ensures Num([d] + s, base) == d * Pow(base, |s|) + Num(s, base)
  {
    if s == [] {
      assert [d] + s == [d] && [d][..0] == [];
      assert d * Pow(base, 0) == d && base * Num([], base) == 0;
    } else {
      var t, e := s[..|s| - 1], s[|s| - 1];
      NumCons(d, t, base);
      assert [d] + s == ([d] + t) + [e];
      NumSnoc([d] + t, e, base);
      assert base * (d * Pow(base, |t|) + Num(t, base)) == d * (base * Pow(base, |t|)) + base * Num(t, base);
    }
  }

  lemma {:induction false} NumBounds(s: seq<int>, base: nat)
    requires Digits(s, base) && base > 0
    ensures 0 <= Num(s, base) < Pow(base, |s|)
  {
    if s != [] {
      var t := s[..|s| - 1];
      NumBounds(t, base);
      NonNegative(base, Num(t, base));
      AtLeastOnce(Pow(base, |t|) - Num(t, base), base);
      assert (Pow(base, |t|) - Num(t, base)) * base == base * Pow(base, |t|) - base * Num(t, base);
    }
  }

  lemma {:induction false} NumZeros(s: seq<int>, base: nat)
    requires forall i :: 0 <= i < |s| ==> s[i] == 0
    ensures Num(s, base) == 0
  {
    if s != [] {
      NumZeros(s[..|s| - 1], base);
      assert base * 0 == 0;
    }
  }

  /** Leading zeros do not count. */
  lemma {:induction false} NumSkipsZeros(s: seq<int>, k: nat, base: nat)
    requires k <= |s| && forall i :: 0 <= i < k ==> s[i] == 0
    ensures Num(s, base) == Num(s[k..], base)
    decreases |s| - k
  {
    if k == |s| {
      NumZeros(s, base);
    } else {
      var t := s[..|s| - 1];
      NumSkipsZeros(t, k, base);
      assert t[k..] == s[k..][..|s[k..]| - 1];
    }
  }

  /** The digits of a number, without leading zeros. */
  ghost predicate IsNumeral(s: seq<int>, base: nat, n: int) {
    Digits(s, base) && (s != [] ==> s[0] != 0) && Num(s, base) == n
  }

  /** A number has one numeral. */
  lemma {:induction false} OneNumeral(s: seq<int>, t: seq<int>, base: nat, n: int)
    requires base > 1 && IsNumeral(s, base, n) && IsNumeral(t, base, n)
    ensures s == t
    decreases |s|
  {
    if s == [] || t == [] {
      if s != [] { NumeralPositive(s, base, n); }
      if t != [] { NumeralPositive(t, base, n); }
    } else {
      var s', t' := s[..|s| - 1], t[..|t| - 1];
      LastDigit(base, Num(s', base), s[|s| - 1], Num(t', base), t[|t| - 1]);
      OneNumeral(s', t', base, Num(s', base));
      assert s == s' + [s[|s| - 1]] && t == t' + [t[|t| - 1]];
    }
  }

  lemma NumeralPositive(s: seq<int>, base: nat, n: int)
    requires base > 1 && IsNumeral(s, base, n) && s != []
    ensures n > 0
  {
    var t := s[1..];
    assert s == [s[0]] + t;
    NumCons(s[0], t, base);
    assert Digits(t, base);
    NumBounds(t, base);
    PowPositive(base, |t|);
    AtLeastOnce(s[0], Pow(base, |t|));
  }

  lemma LastDigit(base: nat, x: int, d: int, y: int, e: int)
    requires base > 1 && 0 <= d < base && 0 <= e < base && base * x + d == base * y + e
    ensures x == y && d == e
  {
    DivUnique(base * x + d, base, x, d);
    DivUnique(base * y + e, base, y, e);
  }
}
