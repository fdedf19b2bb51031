/** Numbers as sequences of 32-bit words, least significant first. */
module Words {
  const BASE := 0x1_0000_0000

  type Word = x: int | 0 <= x < BASE

  function Pow2(n: nat): nat
    ensures Pow2(n) > 0
  {
    if n == 0 then 1 else 2 * Pow2(n - 1)
  }

  /** The weight of the word at a position. */
  ghost function Weight(i: nat): nat
    ensures Weight(i) > 0
  {
    if i == 0 then 1 else BASE * Weight(i - 1)
  }

  ghost function Val(s: seq<Word>): nat {
    if s == [] then 0 else s[0] + BASE * Val(s[1..])
  }

  lemma {:induction false} Pow2Add(a: nat, b: nat)
    ensures Pow2(a + b) == Pow2(a) * Pow2(b)
  {
    if a > 0 {
      Pow2Add(a - 1, b);
      assert Pow2(a + b) == 2 * (Pow2(a - 1) * Pow2(b)) == (2 * Pow2(a - 1)) * Pow2(b);
    }
  }

  lemma {:induction false} Pow2Monotone(a: nat, b: nat)
    requires a <= b
    ensures Pow2(a) <= Pow2(b)
  {
    if a < b { Pow2Monotone(a, b - 1); }
  }

  lemma Pow2Values()
    ensures Pow2(1) == 2 && Pow2(2) == 4 && Pow2(4) == 16 && Pow2(8) == 256 && Pow2(16) == 0x1_0000 && Pow2(32) == BASE
  {
    assert Pow2(1) == 2 * Pow2(0) && Pow2(2) == 2 * Pow2(1);
    hide Pow2;
    Pow2Add(2, 2);
    Pow2Add(4, 4);
    Pow2Add(8, 8);
    Pow2Add(16, 16);
  }

  lemma {:induction false} WeightIsPow2(i: nat)
    ensures Weight(i) == Pow2(32 * i)
  {
    if i > 0 {
      WeightIsPow2(i - 1);
      Pow2Values();
      Pow2Add(32, 32 * (i - 1));
    }
  }

  lemma {:induction false} WeightAdd(i: nat, j: nat)
    ensures Weight(i + j) == Weight(i) * Weight(j)
  {
    if i > 0 {
      WeightAdd(i - 1, j);
      assert BASE * (Weight(i - 1) * Weight(j)) == (BASE * Weight(i - 1)) * Weight(j);
    }
  }

  // ----- Values ---------------------------------------------------------------------------

  lemma {:induction false} ValBound(s: seq<Word>)
    ensures Val(s) < Weight(|s|)
  {
    if s != [] { ValBound(s[1..]); }
  }

  /** Values of consecutive parts. */
  lemma {:induction false} ValJoin(s: seq<Word>, t: seq<Word>)
    ensures Val(s + t) == Val(s) + Weight(|s|) * Val(t)
  {
    if s == [] {
      assert s + t == t;
    } else {
      ValJoin(s[1..], t);
      assert (s + t)[1..] == s[1..] + t;
      Regroup(Weight(|s| - 1), Val(t));
    }
  }

  lemma Regroup(w: nat, v: nat)
    ensures BASE * (w * v) == (BASE * w) * v
  {
  }

  lemma ValNext(s: seq<Word>, i: nat)
    requires i < |s|
    ensures Val(s[..i + 1]) == Val(s[..i]) + Weight(i) * s[i]
  {
    assert s[..i + 1] == s[..i] + [s[i]];
    ValJoin(s[..i], [s[i]]);
    assert Val([s[i]]) == s[i] by { assert [s[i]][1..] == []; }
  }

  lemma ValSplit(s: seq<Word>, i: nat)
    requires i <= |s|
    ensures Val(s) == Val(s[..i]) + Weight(i) * Val(s[i..])
  {
    assert s == s[..i] + s[i..];
    ValJoin(s[..i], s[i..]);
  }

  lemma ValUpdate(s: seq<Word>, i: nat, x: Word)
    requires i < |s|
    ensures Val(s[i := x]) == Val(s) + Weight(i) * (x - s[i])
  {
    var t := s[i := x];
    ValSplit(s, i);
    ValSplit(t, i);
    assert t[..i] == s[..i] && t[i..][1..] == s[i..][1..];
    var rest := Val(s[i..][1..]);
    assert Weight(i) * (x + BASE * rest) == Weight(i) * (s[i] + BASE * rest) + Weight(i) * (x - s[i]);
  }

  lemma {:induction false} ValZero(s: seq<Word>)
    ensures Val(s) == 0 <==> forall i :: 0 <= i < |s| ==> s[i] == 0
  {
    if s != [] {
      ValZero(s[1..]);
      if forall i :: 0 <= i < |s| ==> s[i] == 0 {
        assert forall i :: 0 <= i < |s[1..]| ==> s[1..][i] == s[i + 1];
      } else {
        var i :| 0 <= i < |s| && s[i] != 0;
        if i > 0 { assert s[1..][i - 1] != 0; }
      }
    }
  }

  // ----- Bits of a word ---------------------------------------------------------------------

  /** Bitwise or. */
  function BitOr(a: nat, b: nat): nat {
    if a == 0 then b else if b == 0 then a
    else 2 * BitOr(a / 2, b / 2) + (if a % 2 == 1 || b % 2 == 1 then 1 else 0)
  }

  /** Or-ing numbers without common bits adds them. */
  lemma {:induction false} OrAdds(a: nat, b: nat, n: nat)
    requires a % Pow2(n) == 0 && b < Pow2(n)
    ensures BitOr(a, b) == a + b && BitOr(b, a) == a + b
  {
    if a != 0 && b != 0 {
      assert n > 0;
      var p := Pow2(n - 1);
      var q := a / (2 * p);
      assert a == 2 * (p * q) by { assert a == (2 * p) * q; }
      assert a / 2 == p * q;
      MultipleOf(p, q);
      OrAdds(a / 2, b / 2, n - 1);
    }
  }

  lemma MultipleOf(p: nat, q: nat)
    requires p > 0
    ensures (p * q) % p == 0 && (p * q) / p == q
  {
    DivUnique(p * q, p, q, 0);
  }

  lemma NonNegative(a: int, b: int)
    requires a >= 0 && b >= 0
    ensures a * b >= 0
  {
  }

  lemma AtLeastOnce(x: int, d: nat)
    requires x >= 1
    ensures x * d >= d
  {
  }

  /** Quotient and remainder are determined by their defining equation. */
  lemma DivUnique(a: int, d: nat, q: int, r: int)
    requires d > 0 && a == q * d + r && 0 <= r < d
    ensures a / d == q && a % d == r
  {
    var q', r' := a / d, a % d;
    assert a == q' * d + r';
    assert (q - q') * d == q * d - q' * d && (q' - q) * d == q' * d - q * d;
    if q > q' {
      AtLeastOnce(q - q', d);
    } else if q < q' {
      AtLeastOnce(q' - q, d);
    }
  }

  /** A 32-bit hash scaled down to a range, in place of the remainder. */
  function Reduce(h: Word, n: nat): (r: nat)
    requires 0 < n
    ensures r < n
  {
    ReducedBelow(h, n);
    h * n / BASE
  }

  lemma ReducedBelow(h: Word, n: nat)
    requires 0 < n
    ensures 0 <= h * n / BASE < n
  {
    NonNegative(h, n);
    NonNegative(BASE - 1 - h, n);
    assert (BASE - 1 - h) * n == (BASE - 1) * n - h * n;
    QuotientBelow(h * n, n);
  }

  lemma QuotientBelow(x: int, n: nat)
    requires 0 <= x < BASE * n
    ensures 0 <= x / BASE < n
  {
  }
}
