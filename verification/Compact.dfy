/** Compact targets and the work a target proves. */
module Compact {
  import opened Words
  import opened Arith256

  const MANTISSA_RANGE := 0x80_0000     // the mantissa has 23 bits
  const EXPONENT_UNIT := 0x100_0000     // the exponent is in the highest byte
  const UINT32_RANGE := 0x1_0000_0000

  function Pow256(n: nat): nat
    ensures Pow256(n) > 0
  {
    Pow2(8 * n)
  }

  function Mantissa(c: nat): nat { c % MANTISSA_RANGE }

  function Exponent(c: nat): nat { c / EXPONENT_UNIT }

  predicate Sign(c: nat) { (c / MANTISSA_RANGE) % 2 == 1 }

  /** The whole number a compact encoding stands for, apart from its sign. */
  ghost function Denoted(c: nat): nat {
    var m, e := Mantissa(c), Exponent(c);
    Scaled(m, e - 3)
  }

  /** A number moved up or down by whole bytes. */
  ghost function Scaled(m: nat, bytes: int): nat {
    if bytes <= 0 then
      DivAtMost(m, Pow256(-bytes));
      m / Pow256(-bytes)
    else
      NonNegative(m, Pow256(bytes));
      m * Pow256(bytes)
  }

  ghost function ByteLength(v: nat): nat {
    if v == 0 then 0 else 1 + ByteLength(v / 256)
  }

  /** The leading three bytes, padded with zeros below if there are fewer. */
  ghost function Leading(v: nat): nat {
    var s := ByteLength(v);
    Scaled(v, 3 - s)
  }

  /** The mantissa and exponent of an encoding: a leading byte of 128 or more would set the sign
      bit, so then a byte is given up. */
  ghost function Normal(v: nat): (nat, nat) {
    var m, s := Leading(v), ByteLength(v);
    if m >= MANTISSA_RANGE then (m / 256, s + 1) else (m, s)
  }

  ghost function Encoded(v: nat, negative: bool): nat {
    var (m, s) := Normal(v);
    m + EXPONENT_UNIT * s + (if negative && m != 0 then MANTISSA_RANGE else 0)
  }

  // ----- Powers of 256 ----------------------------------------------------------------------------

  lemma Pow256Add(a: nat, b: nat)
    ensures Pow256(a + b) == Pow256(a) * Pow256(b)
  {
    Pow2Add(8 * a, 8 * b);
  }

  lemma Pow256Next(n: nat)
    ensures Pow256(n + 1) == 256 * Pow256(n)
  {
    Pow256Add(n, 1);
    Pow2Values();
  }

  lemma Pow256Values()
    ensures Pow256(0) == 1 && Pow256(1) == 256 && Pow256(2) == 0x1_0000 && Pow256(3) == 0x100_0000
    ensures Pow256(32) == MODULUS
  {
    OneIsPow2();
    ModulusIsWeight();
    hide Pow256;
    assert Pow256(0) == 1 && Pow256(32) == MODULUS by { PowersOf256(); }
    Pow256Next(0);
    Pow256Next(1);
    Pow256Next(2);
  }

  lemma PowersOf256()
    ensures Pow256(0) == Pow2(0) && Pow256(32) == Pow2(256)
  {
  }

  lemma Pow256Monotone(a: nat, b: nat)
    requires a <= b
    ensures Pow256(a) <= Pow256(b)
  {
    Pow2Monotone(8 * a, 8 * b);
  }

  // ----- Byte lengths -----------------------------------------------------------------------------

  ghost predicate IsBytes(v: nat, n: nat) {
    if n == 0 then v == 0 else Pow256(n - 1) <= v < Pow256(n)
  }

  lemma {:induction false} ByteBounds(v: nat)
    ensures IsBytes(v, ByteLength(v))
  {
    hide Pow256;
    if v > 0 {
      ByteBounds(v / 256);
      var n := ByteLength(v / 256);
      Pow256Values();
      if n > 0 {
        Pow256Next(n - 1);
      }
      Pow256Next(n);
    }
  }

  lemma BytesUnique(v: nat, n: nat)
    requires IsBytes(v, n)
    ensures n == ByteLength(v)
  {
    hide Pow256, ByteLength;
    var k := ByteLength(v);
    ByteBounds(v);
    if k < n && k > 0 {
      Pow256Monotone(k, n - 1);
    } else if n < k && n > 0 {
      Pow256Monotone(n, k - 1);
    }
  }

  lemma BitsToBytes(v: nat, bits: nat)
    requires IsBits(v, bits)
    ensures (bits + 7) / 8 == ByteLength(v)
  {
    var n := (bits + 7) / 8;
    if bits > 0 {
      Pow2Monotone(bits, 8 * n);
      Pow2Monotone(8 * (n - 1), bits - 1);
    }
    BytesUnique(v, n);
  }

  // ----- Encoding rounds down -----------------------------------------------------------------------

  lemma LeadingBounds(v: nat)
    requires v > 0
    ensures 0x1_0000 <= Leading(v) < EXPONENT_UNIT
  {
    hide Pow256, ByteLength;
    var s := ByteLength(v);
    ByteBounds(v);
    Pow256Values();
    if s == 0 || s == 1 || s == 2 || s == 3 {
      assert Leading(v) == v * Pow256(3 - s) || s == 3;
    } else {
      Pow256Add(2, s - 3);
      Pow256Add(3, s - 3);
      Between(v, Pow256(s - 3), 0x1_0000, EXPONENT_UNIT);
    }
  }

  /** The mantissa is the number cut to whole units of its exponent. */
  ghost predicate Cut(v: nat, m: nat, s: nat) {
    s > 3 && m == v / Pow256(s - 3) && 0x8000 <= m < MANTISSA_RANGE
  }

  /** Encoding is exact, or cuts off bytes below a mantissa of at least fifteen bits. */
  lemma NormalShape(v: nat)
    ensures var (m, s) := Normal(v);
            m < MANTISSA_RANGE && (Scaled(m, s - 3) == v || Cut(v, m, s))
  {
    hide Pow256, ByteLength;
    Pow256Values();
    var m, s := Leading(v), ByteLength(v);
    ByteBounds(v);
    if v > 0 {
      LeadingBounds(v);
      if s > 3 {
        if m >= MANTISSA_RANGE {
          Pow256Next(s - 3);
          CutTwice(v, Pow256(s - 3));
        }
      } else if s == 3 {
        Pow256Next(0);
      } else {
        SmallShape(v, s);
      }
    }
  }

  lemma CutTwice(v: nat, u: nat)
    requires u > 0
    ensures (v / u) / 256 == v / (256 * u)
  {
    var q := (v / u) / 256;
    var r := v % u + u * ((v / u) % 256);
    assert v == (v / u) * u + v % u;
    assert (q * 256 + (v / u) % 256) * u == q * (256 * u) + u * ((v / u) % 256);
    NonNegative(u, (v / u) % 256);
    NonNegative(u, 255 - (v / u) % 256);
    assert u * (255 - (v / u) % 256) == 255 * u - u * ((v / u) % 256);
    DivUnique(v, 256 * u, q, r);
  }

  lemma SmallShape(v: nat, s: nat)
    requires 1 <= s <= 2 && IsBytes(v, s) && s == ByteLength(v)
    ensures var (m, s') := Normal(v); m < MANTISSA_RANGE && Scaled(m, s' - 3) == v
  {
    hide Pow256, ByteLength;
    Pow256Values();
  }

  /** The parts of an encoding can be read back. */
  lemma EncodedParts(v: nat, negative: bool)
    ensures var c, n := Encoded(v, negative), Normal(v);
            && Mantissa(c) == n.0 && Exponent(c) == n.1
            && (Sign(c) <==> negative && n.0 != 0)
            && Denoted(c) == Scaled(n.0, n.1 - 3)
  {
    hide Normal, Scaled, Mantissa, Exponent, Sign;
    NormalMantissa(v);
    var n := Normal(v);
    PackedParts(n.0, n.1, negative && n.0 != 0);
  }

  lemma PackedParts(m: nat, s: nat, sign: bool)
    requires m < MANTISSA_RANGE
    ensures var c := m + EXPONENT_UNIT * s + (if sign then MANTISSA_RANGE else 0);
            Mantissa(c) == m && Exponent(c) == s && Sign(c) == sign
  {
    var high := if sign then 1 else 0;
    var c := m + EXPONENT_UNIT * s + MANTISSA_RANGE * high;
    DivUnique(c, MANTISSA_RANGE, 2 * s + high, m);
    DivUnique(c, EXPONENT_UNIT, s, m + MANTISSA_RANGE * high);
  }

  lemma NormalMantissa(v: nat)
    ensures Normal(v).0 < MANTISSA_RANGE
  {
    hide Scaled;
    NormalShape(v);
  }

  /** No number that the format can express lies between an encoded number and what its
      encoding stands for. */
  lemma GreatestBelow(v: nat, c': nat)
    requires Denoted(c') <= v
    ensures Denoted(c') <= Denoted(Encoded(v, false)) <= v
  {
    hide Normal, Scaled, Pow256, Encoded;
    EncodedParts(v, false);
    NormalShape(v);
    var (m, s) := Normal(v);
    if Cut(v, m, s) && Scaled(m, s - 3) != v {
      ScaledUp(m, s - 3);
      CutBelow(v, m, s, Mantissa(c'), Exponent(c'));
    }
  }

  lemma ScaledUp(m: nat, bytes: nat)
    requires bytes > 0
    ensures Scaled(m, bytes) == m * Pow256(bytes)
  {
  }

  lemma CutBelow(v: nat, m: nat, s: nat, m': nat, e: nat)
    requires Cut(v, m, s) && m' < MANTISSA_RANGE && Scaled(m', e - 3) <= v
    ensures Scaled(m', e - 3) <= m * Pow256(s - 3) <= v
  {
    hide Pow256;
    var u := Pow256(s - 3);
    assert v == m * u + v % u;
    NonNegative(m - 0x8000, u);
    assert (m - 0x8000) * u == m * u - 0x8000 * u;
    if e <= 3 {
      DivAtMost(m', Pow256(3 - e));
      Pow256Values();
      Pow256Monotone(1, s - 3);
    } else if e >= s {
      Pow256Add(e - s, s - 3);
      WholeUnits(v, u, m, m' * Pow256(e - s));
      assert m' * (Pow256(e - s) * u) == m' * Pow256(e - s) * u;
    } else {
      Pow256Next(e - 3);
      Pow256Monotone(e - 2, s - 3);
      NonNegative(MANTISSA_RANGE - m', Pow256(e - 3));
      assert (MANTISSA_RANGE - m') * Pow256(e - 3) == MANTISSA_RANGE * Pow256(e - 3) - m' * Pow256(e - 3);
    }
  }

  lemma WholeUnits(v: nat, u: nat, m: nat, k: int)
    requires u > 0 && m == v / u && k * u <= v
    ensures k * u <= m * u
  {
    assert v < m * u + u;
    assert (k - m - 1) * u == k * u - m * u - u;
    assert (m - k) * u == m * u - k * u;
    if k > m { NonNegative(k - m - 1, u); } else { NonNegative(m - k, u); }
  }

  /** What an encoding stands for has that same encoding. */
  lemma Reencodes(v: nat, negative: bool)
    ensures Encoded(Denoted(Encoded(v, negative)), negative) == Encoded(v, negative)
  {
    hide Normal, Scaled, Pow256;
    EncodedParts(v, negative);
    NormalShape(v);
    var (m, s) := Normal(v);
    if Scaled(m, s - 3) != v {
      ScaledUp(m, s - 3);
      CutIsNormal(m, s);
    }
  }

  lemma CutIsNormal(m: nat, s: nat)
    requires s > 3 && 0x8000 <= m < MANTISSA_RANGE
    ensures Normal(m * Pow256(s - 3)) == (m, s)
  {
    hide Pow256, ByteLength;
    var u := Pow256(s - 3);
    var v := m * u;
    Pow256Values();
    if m >= 0x1_0000 {
      Pow256Add(2, s - 3);
      Pow256Add(3, s - 3);
      Inside(m, u, 0x1_0000, 0x100_0000);
      BytesUnique(v, s);
      MultipleOf(u, m);
    } else {
      Pow256Add(1, s - 3);
      Pow256Add(2, s - 3);
      Inside(m, u, 0x100, 0x1_0000);
      BytesUnique(v, s - 1);
      Pow256Next(s - 4);
      assert v == Pow256(s - 4) * (256 * m);
      MultipleOf(Pow256(s - 4), 256 * m);
    }
  }

  lemma Inside(m: nat, u: nat, lo: nat, hi: nat)
    requires u > 0 && lo <= m < hi
    ensures lo * u <= m * u < hi * u
  {
    NonNegative(m - lo, u);
    NonNegative(hi - 1 - m, u);
    assert (m - lo) * u == m * u - lo * u && (hi - 1 - m) * u == hi * u - u - m * u;
  }

  // ----- The operations -----------------------------------------------------------------------------

  /** Decodes a compact number; the flags tell whether it is negative, and whether it is too large,
      in which case only the low 256 bits are kept. */
  method SetCompact(x: BaseUint, nCompact: nat) returns (negative: bool, overflow: bool)
    requires x.Valid() && nCompact < UINT32_RANGE
    modifies x.pn
    ensures x.Value() == Modulo(Denoted(nCompact))
    ensures negative <==> Denoted(nCompact) != 0 && Sign(nCompact)
    ensures overflow <==> Denoted(nCompact) >= MODULUS
  {
    hide Val, Modulo, Scaled, Pow256;
    var nSize := nCompact / EXPONENT_UNIT;
    var nWord := nCompact % MANTISSA_RANGE;
    DenotedCases(nWord, nSize);
    if nSize <= 3 {
      nWord := nWord / Pow2(8 * (3 - nSize));
      x.Assign(nWord);
      ModuloSmall(nWord);
    } else {
      x.Assign(nWord);
      x.ShiftLeft(8 * (nSize - 3));
    }
    negative := nWord != 0 && (nCompact / MANTISSA_RANGE) % 2 != 0;
    overflow := nWord != 0 && (nSize > 34 || (nWord > 0xff && nSize > 33) || (nWord > 0xffff && nSize > 32));
  }

  lemma DenotedCases(m: nat, e: nat)
    requires m < MANTISSA_RANGE
    ensures e <= 3 ==> Scaled(m, e - 3) == m / Pow2(8 * (3 - e)) <= m
    ensures e > 3 ==> Scaled(m, e - 3) == m * Pow2(8 * (e - 3)) && (Scaled(m, e - 3) == 0 <==> m == 0)
    ensures e > 3 ==> (Scaled(m, e - 3) >= MODULUS <==>
                       m != 0 && (e > 34 || (m > 0xff && e > 33) || (m > 0xffff && e > 32)))
  {
    if e <= 3 {
      DivAtMost(m, Pow2(8 * (3 - e)));
    } else {
      hide Pow2, Modulo;
      TooLarge(m, e);
    }
  }

  /** When a mantissa times a power of 256 reaches two to the power of 256. */
  lemma TooLarge(m: nat, e: nat)
    requires m < MANTISSA_RANGE && e > 3
    ensures m * Pow256(e - 3) == 0 <==> m == 0
    ensures m * Pow256(e - 3) >= MODULUS <==> m != 0 && (e > 34 || (m > 0xff && e > 33) || (m > 0xffff && e > 32))
  {
    hide Pow256;
    Pow256Values();
    var p := Pow256(e - 3);
    if m > 0 {
      AtLeastOnce(m, p);
      if e > 34 {
        Pow256Monotone(32, e - 3);
      } else if e >= 33 {
        Pow256Add(e - 3, 35 - e);
        Threshold(m, p, if e == 34 then 256 else 0x1_0000);
      } else {
        Pow256Monotone(e - 3, 29);
        Pow256Add(29, 3);
        NonNegative(MANTISSA_RANGE - m, p);
        assert (MANTISSA_RANGE - m) * p == MANTISSA_RANGE * p - m * p;
      }
    }
  }

  lemma Threshold(m: nat, p: nat, t: nat)
    requires p > 0 && p * t == MODULUS
    ensures m * p >= MODULUS <==> m >= t
  {
    if m >= t { NonNegative(m - t, p); } else { NonNegative(t - 1 - m, p); }
    assert (m - t) * p == m * p - MODULUS && (t - 1 - m) * p == MODULUS - p - m * p;
  }

  /** Encodes a number, rounding down to the 23 bits the format keeps. */
  method GetCompact(x: BaseUint, fNegative: bool) returns (nCompact: nat)
    requires x.Valid()
    ensures nCompact == Encoded(x.Value(), fNegative)
    ensures Exponent(nCompact) <= 33
  {
    hide Val, Scaled, Pow256, ByteLength, BitOr;
    var bits := x.Bits();
    BitsToBytes(x.Value(), bits);
    var nSize := (bits + 7) / 8;
    nCompact := LeadingBytes(x, nSize);
    LeadingFits(x.Value());
    if (nCompact / MANTISSA_RANGE) % 2 == 1 {
      nCompact := nCompact / 256;
      nSize := nSize + 1;
    }
    assert nCompact < MANTISSA_RANGE && nSize < 256;
    assert Normal(x.Value()) == (nCompact, nSize);
    EncodedParts(x.Value(), fNegative);
    OrParts(nCompact, nSize);
    nCompact := BitOr(nCompact, EXPONENT_UNIT * nSize);
    nCompact := BitOr(nCompact, if fNegative && nCompact % MANTISSA_RANGE != 0 then MANTISSA_RANGE else 0);
  }

  lemma LeadingFits(v: nat)
    ensures Leading(v) < EXPONENT_UNIT
  {
    hide Scaled, ByteLength;
    if v > 0 {
      LeadingBounds(v);
    } else {
      ZeroLeads();
    }
  }

  lemma ZeroLeads()
    ensures Leading(0) == 0
  {
    hide Pow256;
    assert ByteLength(0) == 0;
  }

  method LeadingBytes(x: BaseUint, nSize: nat) returns (m: nat)
    requires x.Valid() && nSize == ByteLength(x.Value()) <= 32
    ensures m == Leading(x.Value())
  {
    hide Val, Pow2, Leading;
    if nSize <= 3 {
      m := x.GetLow64();
      m := (m * Pow2(8 * (3 - nSize))) % UINT32_RANGE;
      SmallLeads(x.Value(), nSize);
    } else {
      var bn := new BaseUint.Copy(x);
      bn.ShiftRight(8 * (nSize - 3));
      m := bn.GetLow64();
      m := m % UINT32_RANGE;
      LargeLeads(x.Value(), nSize);
    }
  }

  lemma SmallLeads(v: nat, n: nat)
    requires n == ByteLength(v) <= 3
    ensures ((v % UINT64_RANGE) * Pow2(8 * (3 - n))) % UINT32_RANGE == Leading(v)
  {
    hide Pow256, Pow2, ByteLength;
    ByteBounds(v);
    Pow256Values();
    Pow256Monotone(n, 3);
    PowerIs(3 - n);
    LeadingFits(v);
    SmallMod(v);
    assert n == 3 ==> v / 1 == v * 1;
  }

  lemma SmallMod(v: nat)
    requires v <= EXPONENT_UNIT
    ensures v % UINT64_RANGE == v && v % UINT32_RANGE == v
  {
  }

  lemma LargeLeads(v: nat, n: nat)
    requires n == ByteLength(v) > 3
    ensures ((v / Pow2(8 * (n - 3))) % UINT64_RANGE) % UINT32_RANGE == Leading(v)
  {
    hide Pow256, Pow2, ByteLength;
    PowerIs(n - 3);
    LeadingFits(v);
    SmallMod(Leading(v));
  }

  lemma PowerIs(n: nat)
    ensures Pow256(n) == Pow2(8 * n)
  {
  }

  lemma OrParts(m: nat, s: nat)
    requires m < MANTISSA_RANGE
    ensures BitOr(m, EXPONENT_UNIT * s) == m + EXPONENT_UNIT * s
    ensures BitOr(m + EXPONENT_UNIT * s, MANTISSA_RANGE) == m + EXPONENT_UNIT * s + MANTISSA_RANGE
    ensures BitOr(m + EXPONENT_UNIT * s, 0) == m + EXPONENT_UNIT * s
  {
    Pow2Values();
    Pow2Add(16, 8);
    assert Pow2(24) == 2 * Pow2(23);
    hide Pow2;
    OrAdds(EXPONENT_UNIT * s, m, 24);
    OrHigh(s, m, MANTISSA_RANGE, 24);
    OrAdds(MANTISSA_RANGE, m, 23);
  }

  /** Or-ing below a power of two leaves what is above alone. */
  lemma {:induction false} OrHigh(h: nat, a: nat, b: nat, n: nat)
    requires a < Pow2(n) && b < Pow2(n)
    ensures h * Pow2(n) >= 0 && BitOr(a + h * Pow2(n), b) == BitOr(a, b) + h * Pow2(n)
  {
    NonNegative(h, Pow2(n));
    if n > 0 {
      var p := Pow2(n - 1);
      assert h * Pow2(n) == 2 * (h * p);
      NonNegative(h, p);
      OrHigh(h, a / 2, b / 2, n - 1);
      OrUnfold(a, b);
      OrUnfold(a + 2 * (h * p), b);
      assert (a + 2 * (h * p)) / 2 == a / 2 + h * p;
    }
  }

  lemma OrUnfold(a: nat, b: nat)
    ensures BitOr(a, b) == 2 * BitOr(a / 2, b / 2) + (if a % 2 == 1 || b % 2 == 1 then 1 else 0)
  {
  }

  /** The expected number of hashes to meet a target: two to the power of 256 divided by the number
      of hashes that meet it. Invalid and zero targets prove no work. */
  method GetBlockProof(nBits: nat) returns (proof: BaseUint)
    requires nBits < UINT32_RANGE
    ensures proof.Valid()
    ensures var t := Denoted(nBits);
            proof.Value() == if t == 0 || Sign(nBits) || t >= MODULUS then 0 else MODULUS / (t + 1)
  {
    hide Val, Modulo, Denoted, Sign;
    var bnTarget := new BaseUint(0);
    var fNegative, fOverflow := SetCompact(bnTarget, nBits);
    var zero := new BaseUint(0);
    var c := bnTarget.CompareTo(zero);
    if fNegative || fOverflow || c == 0 {
      ModuloOfDenoted(nBits);
      return zero;
    }
    ghost var t := Denoted(nBits);
    ModuloSmall(t);
    NotAllOnes(nBits);
    proof := bnTarget.Complement();
    var one := new BaseUint(1);
    bnTarget.AddAssign(one);
    ModuloSmall(t + 1);
    var ok := proof.DivAssign(bnTarget);
    assert ok;
    proof.Increment();
    ProofArithmetic(t);
    ModuloSmall(MODULUS / (t + 1));
  }

  lemma ModuloOfDenoted(c: nat)
    ensures Denoted(c) < MODULUS ==> Modulo(Denoted(c)) == Denoted(c)
  {
    hide Denoted;
  }

  /** No encoding stands for the largest number, so a target plus one never wraps. */
  lemma NotAllOnes(c: nat)
    requires c < UINT32_RANGE && Denoted(c) < MODULUS
    ensures Denoted(c) + 1 < MODULUS
  {
    hide Pow256;
    var m, e := Mantissa(c), Exponent(c);
    if e <= 3 {
      DivAtMost(m, Pow256(3 - e));
    } else {
      Pow256Next(e - 4);
      assert m * (256 * Pow256(e - 4)) == 256 * (m * Pow256(e - 4));
    }
  }

  lemma ProofArithmetic(t: nat)
    requires 0 < t && t + 1 < MODULUS
    ensures MODULUS / (t + 1) == (MODULUS - 1 - t) / (t + 1) + 1 < MODULUS
  {
    var d := t + 1;
    var q, r := (MODULUS - d) / d, (MODULUS - d) % d;
    assert MODULUS == (q + 1) * d + r by { assert (q + 1) * d == q * d + d; }
    DivUnique(MODULUS, d, q + 1, r);
    NonNegative(q + 1, d - 2);
    assert (q + 1) * (d - 2) == (q + 1) * d - 2 * (q + 1);
  }
}
