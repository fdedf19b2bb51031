/** Bech32 strings (the "Bech32" section of BIP 173): a checksum over GF(32) and a base-32 alphabet. */
module Bech32 {
  import opened Wrappers

  // ----- The checksum register ----------------------------------------------------------------------------

  /** A coefficient in GF(32). */
  type Symbol = bv5

  /** The remainder of a polynomial: six coefficients. */
  type Register = bv30

  function Xor(a: Register, b: Register): Register { a ^ b }

  lemma XorLaws(a: Register, b: Register)
    ensures Xor(a, b) == Xor(b, a) && Xor(a, a) == 0 && Xor(a, 0) == a
  {
  }

  lemma XorAssoc(a: Register, b: Register, c: Register)
    ensures Xor(Xor(a, b), c) == Xor(a, Xor(b, c))
  {
  }

  lemma XorSwap(a: Register, b: Register, c: Register, d: Register)
    ensures Xor(Xor(a, b), Xor(c, d)) == Xor(Xor(a, c), Xor(b, d))
  {
    hide Xor;
    XorAssoc(a, b, Xor(c, d));
    XorAssoc(b, c, d);
    XorLaws(b, c);
    XorAssoc(c, b, d);
    XorAssoc(a, c, Xor(b, d));
  }

  /** Cancelling an addend. */
  lemma XorCancel(a: Register, b: Register)
    ensures Xor(a, Xor(a, b)) == b
    ensures Xor(a, b) == 0 <==> a == b
  {
    hide Xor;
    XorAssoc(a, a, b);
    XorLaws(a, b);
    XorLaws(b, 0);
    XorAssoc(a, b, b);
    XorLaws(b, b);
    XorLaws(a, 0);
    XorLaws(0, b);
  }

  predicate HasBit(c: Symbol, bit: Symbol) { c & bit != 0 }

  function Term(on: bool, k: Register): Register { if on then k else 0 }

  lemma TermLinear(x: bool, y: bool, k: Register)
    ensures Term(x != y, k) == Xor(Term(x, k), Term(y, k))
  {
    hide Xor;
    XorLaws(k, k);
    XorLaws(0, k);
    XorLaws(0, 0);
  }

  /** A multiple of the generator's lower part. */
  function Reduction(c: Symbol): Register {
    Xor(Xor(Term(HasBit(c, 1), 0x3b6a57b2), Term(HasBit(c, 2), 0x26508e6d)),
        Xor(Xor(Term(HasBit(c, 4), 0x1ea119fa), Term(HasBit(c, 8), 0x3d4233dd)), Term(HasBit(c, 16), 0x2a1462b3)))
  }

  lemma BitsLinear(c: Symbol, d: Symbol)
    ensures HasBit(c ^ d, 1) == (HasBit(c, 1) != HasBit(d, 1))
    ensures HasBit(c ^ d, 2) == (HasBit(c, 2) != HasBit(d, 2))
    ensures HasBit(c ^ d, 4) == (HasBit(c, 4) != HasBit(d, 4))
    ensures HasBit(c ^ d, 8) == (HasBit(c, 8) != HasBit(d, 8))
    ensures HasBit(c ^ d, 16) == (HasBit(c, 16) != HasBit(d, 16))
  {
  }

  lemma ReductionLinear(c: Symbol, d: Symbol)
    ensures Reduction(c ^ d) == Xor(Reduction(c), Reduction(d))
  {
    hide Term, Xor, HasBit;
    BitsLinear(c, d);
    TermLinear(HasBit(c, 1), HasBit(d, 1), 0x3b6a57b2);
    TermLinear(HasBit(c, 2), HasBit(d, 2), 0x26508e6d);
    TermLinear(HasBit(c, 4), HasBit(d, 4), 0x1ea119fa);
    TermLinear(HasBit(c, 8), HasBit(d, 8), 0x3d4233dd);
    TermLinear(HasBit(c, 16), HasBit(d, 16), 0x2a1462b3);
    var c1, d1 := Term(HasBit(c, 1), 0x3b6a57b2), Term(HasBit(d, 1), 0x3b6a57b2);
    var c2, d2 := Term(HasBit(c, 2), 0x26508e6d), Term(HasBit(d, 2), 0x26508e6d);
    var c4, d4 := Term(HasBit(c, 4), 0x1ea119fa), Term(HasBit(d, 4), 0x1ea119fa);
    var c8, d8 := Term(HasBit(c, 8), 0x3d4233dd), Term(HasBit(d, 8), 0x3d4233dd);
    var c16, d16 := Term(HasBit(c, 16), 0x2a1462b3), Term(HasBit(d, 16), 0x2a1462b3);
    XorSwap(c1, d1, c2, d2);
    XorSwap(c4, d4, c8, d8);
    XorSwap(Xor(c4, c8), Xor(d4, d8), c16, d16);
    XorSwap(Xor(c1, c2), Xor(d1, d2), Xor(Xor(c4, c8), c16), Xor(Xor(d4, d8), d16));
  }

  function Top(c: Register): Symbol { (c >> 25) as bv5 }

  function Moved(c: Register): Register { (c & 0x1ffffff) << 5 }

  function Wide(v: Symbol): Register { v as bv30 }

  /** One more coefficient: multiply by x, add it, and reduce by the generator. */
  function Step(c: Register, v: Symbol): Register {
    Xor(Xor(Moved(c), Wide(v)), Reduction(Top(c)))
  }

  lemma MovedLinear(c: Register, d: Register)
    ensures Moved(Xor(c, d)) == Xor(Moved(c), Moved(d))
  {
  }

  lemma WideLinear(v: Symbol, w: Symbol)
    ensures Wide(v ^ w) == Xor(Wide(v), Wide(w))
  {
  }

  lemma TopLinear(c: Register, d: Register)
    ensures Top(Xor(c, d)) == Top(c) ^ Top(d)
  {
  }

  lemma StepLinear(c: Register, d: Register, v: Symbol, w: Symbol)
    ensures Step(Xor(c, d), v ^ w) == Xor(Step(c, v), Step(d, w))
  {
    hide Moved, Wide, Top, Reduction, Xor;
    MovedLinear(c, d);
    WideLinear(v, w);
    TopLinear(c, d);
    ReductionLinear(Top(c), Top(d));
    XorSwap(Moved(c), Moved(d), Wide(v), Wide(w));
    XorSwap(Xor(Moved(c), Wide(v)), Xor(Moved(d), Wide(w)), Reduction(Top(c)), Reduction(Top(d)));
  }

  /** Multiplying by x loses nothing. */
  lemma StepInjective(c: Register)
    ensures Step(c, 0) == 0 <==> c == 0
  {
  }

  // ----- Folding ------------------------------------------------------------------------------------------

  ghost function Fold(c: Register, s: seq<Symbol>): Register
    decreases |s|
  {
    if s == [] then c else Fold(Step(c, s[0]), s[1..])
  }

  ghost function Zeros(n: nat): (z: seq<Symbol>)
    ensures |z| == n && forall i :: 0 <= i < n ==> z[i] == 0
  {
    seq(n, _ => 0)
  }

  ghost function Difference(s: seq<Symbol>, t: seq<Symbol>): (d: seq<Symbol>)
    requires |s| == |t|
    ensures |d| == |s| && forall i :: 0 <= i < |s| ==> d[i] == s[i] ^ t[i]
  {
    seq(|s|, i requires 0 <= i < |s| => s[i] ^ t[i])
  }

  lemma {:induction false} FoldJoin(c: Register, s: seq<Symbol>, t: seq<Symbol>)
    ensures Fold(c, s + t) == Fold(Fold(c, s), t)
    decreases |s|
  {
    hide Step;
    if s == [] {
      assert s + t == t;
    } else {
      FoldJoin(Step(c, s[0]), s[1..], t);
      assert (s + t)[1..] == s[1..] + t;
    }
  }

  /** The checksum is linear. */
  lemma {:induction false} FoldLinear(c: Register, d: Register, s: seq<Symbol>, t: seq<Symbol>)
    requires |s| == |t|
    ensures Fold(Xor(c, d), Difference(s, t)) == Xor(Fold(c, s), Fold(d, t))
    decreases |s|
  {
    hide Step, Xor;
    if s != [] {
      StepLinear(c, d, s[0], t[0]);
      FoldLinear(Step(c, s[0]), Step(d, t[0]), s[1..], t[1..]);
      assert Difference(s, t)[1..] == Difference(s[1..], t[1..]);
    }
  }

  lemma {:induction false} FoldZeros(c: Register, n: nat)
    ensures Fold(c, Zeros(n)) == 0 <==> c == 0
    decreases n
  {
    hide Step;
    if n > 0 {
      StepInjective(c);
      assert Zeros(n)[1..] == Zeros(n - 1);
      FoldZeros(Step(c, 0), n - 1);
    }
  }

  /** Six coefficients in one register. */
  function Pack(t: seq<Symbol>): Register
    requires |t| == 6
  {
    Packed(t[0], t[1], t[2], t[3], t[4], t[5])
  }

  function Packed(t0: Symbol, t1: Symbol, t2: Symbol, t3: Symbol, t4: Symbol, t5: Symbol): Register {
    ((t0 as bv30) << 25) | ((t1 as bv30) << 20) | ((t2 as bv30) << 15) | ((t3 as bv30) << 10) | ((t4 as bv30) << 5)
    | (t5 as bv30)
  }

  lemma SixSteps(t0: Symbol, t1: Symbol, t2: Symbol, t3: Symbol, t4: Symbol, t5: Symbol)
    ensures Step(Step(Step(Step(Step(Step(0, t0), t1), t2), t3), t4), t5) == Packed(t0, t1, t2, t3, t4, t5)
  {
  }

  lemma PackedZero(t0: Symbol, t1: Symbol, t2: Symbol, t3: Symbol, t4: Symbol, t5: Symbol)
    ensures Packed(t0, t1, t2, t3, t4, t5) == 0 ==> t0 == 0 && t1 == 0 && t2 == 0 && t3 == 0 && t4 == 0 && t5 == 0
  {
  }

  /** Six coefficients are their own remainder. */
  lemma FoldSix(t: seq<Symbol>)
    requires |t| == 6
    ensures Fold(0, t) == Pack(t)
  {
    hide Step, Packed;
    SixSteps(t[0], t[1], t[2], t[3], t[4], t[5]);
    var c1 := Step(0, t[0]);
    var c2 := Step(c1, t[1]);
    var c3 := Step(c2, t[2]);
    FoldThree(0, t[..3]);
    FoldThree(c3, t[3..]);
    FoldJoin(0, t[..3], t[3..]);
    assert t == t[..3] + t[3..];
  }

  lemma FoldThree(c: Register, t: seq<Symbol>)
    requires |t| == 3
    ensures Fold(c, t) == Step(Step(Step(c, t[0]), t[1]), t[2])
  {
    hide Step;
    assert t[1..][1..] == t[2..] && t[2..][1..] == [];
    var c2 := Step(Step(c, t[0]), t[1]);
    assert Fold(c, t) == Fold(Step(c, t[0]), t[1..]) == Fold(c2, t[2..]) == Fold(Step(c2, t[2]), []);
  }

  /** Up to six coefficients with remainder zero are zero. */
  lemma ShortNonZero(e: seq<Symbol>)
    requires |e| <= 6 && Fold(0, e) == 0
    ensures forall i :: 0 <= i < |e| ==> e[i] == 0
  {
    hide Step, Fold, Packed;
    var n := 6 - |e|;
    var t := Zeros(n) + e;
    FoldZeros(0, n);
    FoldJoin(0, Zeros(n), e);
    FoldSix(t);
    PackedZero(t[0], t[1], t[2], t[3], t[4], t[5]);
    forall i | 0 <= i < |e| ensures e[i] == 0 {
      assert t[n + i] == e[i];
    }
  }

  /** The difference of two messages with the same checksum has remainder zero. */
  lemma SameRemainder(c: Register, x: seq<Symbol>, y: seq<Symbol>, z: seq<Symbol>)
    requires |x| == |y| && Fold(c, x + z) == Fold(c, y + z)
    ensures Fold(0, Difference(x, y)) == 0
  {
    hide Step, Fold, Xor;
    var e := Difference(x, y);
    FoldLinear(c, c, x + z, y + z);
    XorLaws(c, c);
    XorCancel(Fold(c, x + z), Fold(c, y + z));
    assert Difference(x + z, y + z) == e + Zeros(|z|) by { DifferenceJoin(x, y, z); }
    FoldJoin(0, e, Zeros(|z|));
    FoldZeros(Fold(0, e), |z|);
  }

  lemma DifferenceJoin(x: seq<Symbol>, y: seq<Symbol>, z: seq<Symbol>)
    requires |x| == |y|
    ensures Difference(x + z, y + z) == Difference(x, y) + Zeros(|z|)
  {
  }

  /** The same, with what comes before them. */
  lemma SameMiddle(c: Register, a: seq<Symbol>, x: seq<Symbol>, y: seq<Symbol>, z: seq<Symbol>)
    requires |x| == |y| && Fold(c, a + x + z) == Fold(c, a + y + z)
    ensures Fold(0, Difference(x, y)) == 0
  {
    hide Step, Fold, Difference;
    assert a + x + z == a + (x + z) && a + y + z == a + (y + z);
    FoldJoin(c, a, x + z);
    FoldJoin(c, a, y + z);
    SameRemainder(Fold(c, a), x, y, z);
  }

  /** Two messages that differ only within six consecutive symbols have different checksums. */
  lemma BurstDetected(c: Register, a: seq<Symbol>, x: seq<Symbol>, y: seq<Symbol>, z: seq<Symbol>)
    requires |x| == |y| <= 6 && Fold(c, a + x + z) == Fold(c, a + y + z)
    ensures x == y
  {
    hide Step, Fold;
    SameMiddle(c, a, x, y, z);
    ShortNonZero(Difference(x, y));
    forall i | 0 <= i < |x| ensures x[i] == y[i] {
      assert Difference(x, y)[i] == 0;
      SameSymbol(x[i], y[i]);
    }
  }

  lemma SameSymbol(v: Symbol, w: Symbol)
    ensures v ^ w == 0 <==> v == w
  {
  }

  /** Computes the remainder by which a message and its checksum are recognised. */
  method PolyMod(v: seq<Symbol>) returns (c: Register)
    ensures c == Fold(1, v)
  {
    c := 1;
    for i := 0 to |v|
      invariant Fold(c, v[i..]) == Fold(1, v)
    {
      c := Step(c, v[i]);
      assert v[i..][1..] == v[i + 1..];
    }
  }

  // ----- Checksums ------------------------------------------------------------------------------------------

  function HighBits(ch: char): Symbol { if ch as int / 32 < 32 then (ch as int / 32) as bv5 else 0 }

  function LowBits(ch: char): Symbol { (ch as int % 32) as bv5 }

  /** The human-readable part as symbols: the high bits, a zero, the low bits. */
  ghost function Expanded(hrp: string): seq<Symbol> {
    seq(|hrp|, i requires 0 <= i < |hrp| => HighBits(hrp[i])) + [0]
    + seq(|hrp|, i requires 0 <= i < |hrp| => LowBits(hrp[i]))
  }

  method ExpandHRP(hrp: string) returns (ret: seq<Symbol>)
    ensures ret == Expanded(hrp)
  {
    ret := seq(|hrp| * 2 + 1, _ => 0);
    for i := 0 to |hrp|
      invariant |ret| == |hrp| * 2 + 1
      invariant forall k :: 0 <= k < i ==> ret[k] == HighBits(hrp[k]) && ret[k + |hrp| + 1] == LowBits(hrp[k])
      invariant ret[|hrp|] == 0
    {
      ret := ret[i := HighBits(hrp[i])][i + |hrp| + 1 := LowBits(hrp[i])];
    }
  }

  ghost predicate Verifies(hrp: string, values: seq<Symbol>) {
    Fold(1, Expanded(hrp) + values) == 1
  }

  method VerifyChecksum(hrp: string, values: seq<Symbol>) returns (ok: bool)
    ensures ok == Verifies(hrp, values)
  {
    var expanded := ExpandHRP(hrp);
    var c := PolyMod(expanded + values);
    ok := c == 1;
  }

  function SymbolAt(c: Register, i: nat): Symbol
    requires i < 6
  {
    if i == 0 then ((c >> 25) & 31) as bv5
    else if i == 1 then ((c >> 20) & 31) as bv5
    else if i == 2 then ((c >> 15) & 31) as bv5
    else if i == 3 then ((c >> 10) & 31) as bv5
    else if i == 4 then ((c >> 5) & 31) as bv5
    else (c & 31) as bv5
  }

  lemma Unpacked(c: Register)
    ensures Packed(SymbolAt(c, 0), SymbolAt(c, 1), SymbolAt(c, 2), SymbolAt(c, 3), SymbolAt(c, 4), SymbolAt(c, 5)) == c
  {
  }

  /** Six symbols that make a message verify. */
  method CreateChecksum(hrp: string, values: seq<Symbol>) returns (ret: seq<Symbol>)
    ensures |ret| == 6 && Verifies(hrp, values + ret)
  {
    hide Step, Fold, SymbolAt, Xor;
    var expanded := ExpandHRP(hrp);
    var enc := expanded + values;
    var c := PolyMod(enc + seq(6, _ => 0));
    var mod := Xor(c, 1);
    ret := [];
    for i := 0 to 6
      invariant |ret| == i && forall k :: 0 <= k < i ==> ret[k] == SymbolAt(mod, k)
    {
      ret := ret + [SymbolAt(mod, i)];
    }
    ChecksumVerifies(enc, ret, mod);
    assert enc + ret == expanded + (values + ret);
  }

  lemma ChecksumVerifies(enc: seq<Symbol>, ret: seq<Symbol>, mod: Register)
    requires mod == Xor(Fold(1, enc + Zeros(6)), 1)
    requires |ret| == 6 && forall k :: 0 <= k < 6 ==> ret[k] == SymbolAt(mod, k)
    ensures Fold(1, enc + ret) == 1
  {
    hide Step, Fold, Xor, Packed, SymbolAt;
    var c := Fold(1, enc + Zeros(6));
    var low := Zeros(|enc|) + ret;
    Unpacked(mod);
    FoldLinear(1, 0, enc + Zeros(6), low);
    XorLaws(1, 0);
    SymbolsCancel(enc, ret);
    FoldZeros(0, |enc|);
    FoldJoin(0, Zeros(|enc|), ret);
    FoldSix(ret);
    XorCancel(c, 1);
  }

  lemma SymbolsCancel(enc: seq<Symbol>, ret: seq<Symbol>)
    requires |ret| == 6
    ensures Difference(enc + Zeros(6), Zeros(|enc|) + ret) == enc + ret
  {
  }

  /** There is only one checksum for a message. */
  lemma ChecksumUnique(hrp: string, values: seq<Symbol>, x: seq<Symbol>, y: seq<Symbol>)
    requires |x| == |y| <= 6 && Verifies(hrp, values + x) && Verifies(hrp, values + y)
    ensures x == y
  {
    hide Fold, Expanded;
    var a := Expanded(hrp) + values;
    assert Expanded(hrp) + (values + x) == a + x + [] && Expanded(hrp) + (values + y) == a + y + [];
    BurstDetected(1, a, x, y, []);
  }

  lemma VerifiesParts(hrp: string, a: seq<Symbol>, x: seq<Symbol>, z: seq<Symbol>)
    ensures Verifies(hrp, a + x + z) <==> Fold(1, (Expanded(hrp) + a) + x + z) == 1
  {
    hide Fold, Expanded;
    var e := Expanded(hrp);
    assert e + (a + x + z) == (e + a) + x + z;
  }

  /** A message changed only within six consecutive symbols does not verify any more. */
  lemma ErrorsDetected(hrp: string, values: seq<Symbol>, values': seq<Symbol>, at: nat)
    requires |values| == |values'| && values != values'
    requires forall i :: 0 <= i < |values| && !(at <= i < at + 6) ==> values[i] == values'[i]
    requires Verifies(hrp, values)
    ensures !Verifies(hrp, values')
  {
    hide Fold, Expanded, Verifies;
    var n := |values|;
    var lo, hi := if at < n then at else n, if at + 6 < n then at + 6 else n;
    var a, x, y, z := values[..lo], values[lo..hi], values'[lo..hi], values[hi..];
    assert values == a + x + z && values' == a + y + z;
    VerifiesParts(hrp, a, x, z);
    VerifiesParts(hrp, a, y, z);
    if Verifies(hrp, values') {
      BurstDetected(1, Expanded(hrp) + a, x, y, z);
    }
  }

  // ----- The alphabet ---------------------------------------------------------------------------------------

  /** The code of the character for a symbol. */
  function CharCode(k: int): (n: nat)
    ensures n != 49 && 33 <= n <= 126 && !(65 <= n <= 90)
  {
    if k == 0 then 113 else if k == 1 then 112 else if k == 2 then 122 else if k == 3 then 114
    else if k == 4 then 121 else if k == 5 then 57 else if k == 6 then 120 else if k == 7 then 56
    else if k == 8 then 103 else if k == 9 then 102 else if k == 10 then 50 else if k == 11 then 116
    else if k == 12 then 118 else if k == 13 then 100 else if k == 14 then 119 else if k == 15 then 48
    else if k == 16 then 115 else if k == 17 then 51 else if k == 18 then 106 else if k == 19 then 110
    else if k == 20 then 53 else if k == 21 then 52 else if k == 22 then 107 else if k == 23 then 104
    else if k == 24 then 99 else if k == 25 then 101 else if k == 26 then 54 else if k == 27 then 109
    else if k == 28 then 117 else if k == 29 then 97 else if k == 30 then 55 else 108
  }

  /** The symbol a character code stands for, in either case, or -1. */
  function RevCode(n: int): (k: int)
    ensures -1 <= k < 32
  {
    if n == 113 || n == 81 then 0 else if n == 112 || n == 80 then 1 else if n == 122 || n == 90 then 2
    else if n == 114 || n == 82 then 3 else if n == 121 || n == 89 then 4 else if n == 57 then 5
    else if n == 120 || n == 88 then 6 else if n == 56 then 7 else if n == 103 || n == 71 then 8
    else if n == 102 || n == 70 then 9 else if n == 50 then 10 else if n == 116 || n == 84 then 11
    else if n == 118 || n == 86 then 12 else if n == 100 || n == 68 then 13
    else if n == 119 || n == 87 then 14 else if n == 48 then 15 else if n == 115 || n == 83 then 16
    else if n == 51 then 17 else if n == 106 || n == 74 then 18 else if n == 110 || n == 78 then 19
    else if n == 53 then 20 else if n == 52 then 21 else if n == 107 || n == 75 then 22
    else if n == 104 || n == 72 then 23 else if n == 99 || n == 67 then 24
    else if n == 101 || n == 69 then 25 else if n == 54 then 26 else if n == 109 || n == 77 then 27
    else if n == 117 || n == 85 then 28 else if n == 97 || n == 65 then 29 else if n == 55 then 30
    else if n == 108 || n == 76 then 31 else -1
  }

  lemma CodeInverse(k: int)
    requires 0 <= k < 32
    ensures RevCode(CharCode(k)) == k
  {
  }

  lemma RevInverse(n: int)
    ensures RevCode(n) != -1 ==> CharCode(RevCode(n)) == if 65 <= n <= 90 then n + 32 else n
  {
  }

  lemma RevCase(n: int)
    ensures 65 <= n <= 90 ==> RevCode(n) == RevCode(n + 32)
  {
  }

  function Charset(v: Symbol): char {
    CharCode(v as int) as char
  }

  function CharsetRev(c: char): Option<Symbol> {
    var k := RevCode(c as int);
    if k == -1 then None else Some(k as bv5)
  }

  lemma SymbolIndex(v: Symbol, k: int)
    requires 0 <= k < 32
    ensures (v as int) as bv5 == v && (k as bv5) as int == k
  {
  }

  predicate IsUpper(c: char) { 65 <= c as int <= 90 }

  predicate IsLower(c: char) { 97 <= c as int <= 122 }

  predicate IsPrintable(c: char) { 33 <= c as int <= 126 }

  function LowerCase(c: char): char {
    if IsUpper(c) then (c as int + 32) as char else c
  }

  /** The alphabet and its inverse, in either case; its characters are printable, of lower case and
      not the separator. */
  lemma Alphabet(c: char, v: Symbol)
    ensures CharsetRev(c) == Some(v) <==> LowerCase(c) == Charset(v)
    ensures Charset(v) != '1' && IsPrintable(Charset(v)) && !IsUpper(Charset(v))
  {
    hide CharCode, RevCode;
    var n := c as int;
    CodeInverse(v as int);
    RevInverse(n);
    RevCase(n);
    SymbolIndex(v, if RevCode(n) == -1 then 0 else RevCode(n));
  }

  // ----- Strings --------------------------------------------------------------------------------------------

  ghost function Lower(s: string): (r: string)
    ensures |r| == |s| && forall i :: 0 <= i < |s| ==> r[i] == LowerCase(s[i])
  {
    seq(|s|, i requires 0 <= i < |s| => LowerCase(s[i]))
  }

  ghost function Chars(v: seq<Symbol>): (r: string)
    ensures |r| == |v| && forall i :: 0 <= i < |v| ==> r[i] == Charset(v[i])
  {
    seq(|v|, i requires 0 <= i < |v| => Charset(v[i]))
  }

  ghost function Text(hrp: string, v: seq<Symbol>): string {
    hrp + ['1'] + Chars(v)
  }

  ghost predicate NoUpper(s: string) {
    forall i :: 0 <= i < |s| ==> !IsUpper(s[i])
  }

  ghost predicate Printable(s: string) {
    forall i :: 0 <= i < |s| ==> IsPrintable(s[i])
  }

  ghost predicate SingleCase(s: string) {
    (forall i :: 0 <= i < |s| ==> !IsUpper(s[i])) || (forall i :: 0 <= i < |s| ==> !IsLower(s[i]))
  }

  /** The string spells the human-readable part, the separator, the values and their checksum. */
  ghost predicate Spells(s: string, hrp: string, values: seq<Symbol>, check: seq<Symbol>) {
    |check| == 6 && Verifies(hrp, values + check) && s == Text(hrp, values + check)
  }

  /** Encodes a human-readable part and values; an upper-case letter in the former is an error. */
  method Encode(hrp: string, values: seq<Symbol>) returns (ret: string, ghost check: seq<Symbol>)
    requires NoUpper(hrp)
    ensures Spells(ret, hrp, values, check)
    ensures |ret| == |hrp| + |values| + 7 && Text(hrp, values) <= ret
  {
    hide Verifies, Charset;
    var checksum := CreateChecksum(hrp, values);
    check := checksum;
    var combined := values + checksum;
    ret := hrp + ['1'];
    for i := 0 to |combined|
      invariant ret == hrp + ['1'] + Chars(combined[..i])
    {
      ret := ret + [Charset(combined[i])];
    }
    assert combined[..|combined|] == combined;
  }

  /** The strings that decode: printable, of one case, at most 90 characters, and in lower case the
      encoding of a non-empty human-readable part. */
  ghost predicate Accepts(str: string, hrp: string, values: seq<Symbol>, check: seq<Symbol>) {
    && Printable(str) && SingleCase(str) && |str| <= 90
    && hrp != "" && Spells(Lower(str), hrp, values, check)
  }

  /** A symbol of a spelled string. */
  lemma SpelledSymbol(str: string, hrp: string, v: seq<Symbol>, i: nat)
    requires Lower(str) == Text(hrp, v) && i < |v|
    ensures |str| == |hrp| + 1 + |v|
    ensures CharsetRev(str[|hrp| + 1 + i]) == Some(v[i]) && str[|hrp| + 1 + i] != '1'
  {
    hide CharsetRev, Charset;
    var k := |hrp| + 1 + i;
    assert |Lower(str)| == |hrp| + 1 + |v|;
    assert Lower(str)[k] == Charset(v[i]);
    Alphabet(str[k], v[i]);
    assert LowerCase('1') == '1';
  }

  lemma SpelledPrefix(str: string, hrp: string, v: seq<Symbol>)
    requires Lower(str) == Text(hrp, v)
    ensures |str| == |hrp| + 1 + |v| && str[|hrp|] == '1' && Lower(str[..|hrp|]) == hrp
  {
    hide Charset, Chars;
    assert |Lower(str)| == |hrp| + 1 + |v|;
    assert Lower(str)[|hrp|] == '1';
    forall i | 0 <= i < |hrp| ensures Lower(str[..|hrp|])[i] == hrp[i] {
      assert Lower(str)[i] == hrp[i];
    }
  }

  /** Where the separator and the symbols of a spelled string are. */
  lemma SpelledAt(str: string, hrp: string, v: seq<Symbol>)
    requires Lower(str) == Text(hrp, v)
    ensures |str| == |hrp| + 1 + |v| && str[|hrp|] == '1' && Lower(str[..|hrp|]) == hrp
    ensures forall i :: 0 <= i < |v| ==> CharsetRev(str[|hrp| + 1 + i]) == Some(v[i])
    ensures forall k :: |hrp| < k < |str| ==> str[k] != '1'
  {
    hide CharsetRev, Charset, Lower, Text;
    SpelledPrefix(str, hrp, v);
    forall i | 0 <= i < |v| ensures CharsetRev(str[|hrp| + 1 + i]) == Some(v[i]) {
      SpelledSymbol(str, hrp, v, i);
    }
    forall k | |hrp| < k < |str| ensures str[k] != '1' {
      SpelledSymbol(str, hrp, v, k - |hrp| - 1);
    }
  }

  lemma SpellsOut(str: string, pos: nat, v: seq<Symbol>)
    requires pos < |str| && |str| == pos + 1 + |v| && str[pos] == '1'
    requires forall i :: 0 <= i < |v| ==> CharsetRev(str[pos + 1 + i]) == Some(v[i])
    ensures Lower(str) == Text(Lower(str[..pos]), v)
  {
    hide CharsetRev, Charset;
    forall i | 0 <= i < |v| ensures Lower(str)[pos + 1 + i] == Charset(v[i]) {
      Alphabet(str[pos + 1 + i], v[i]);
    }
    assert LowerCase('1') == '1';
  }

  /** The position of the last separator, or -1. */
  ghost predicate IsLastOne(str: string, pos: int) {
    && -1 <= pos < |str|
    && (pos >= 0 ==> str[pos] == '1')
    && forall k :: pos < k < |str| ==> str[k] != '1'
  }

  method FindLastOne(str: string) returns (pos: int)
    ensures IsLastOne(str, pos)
  {
    pos := |str| - 1;
    while pos >= 0 && str[pos] != '1'
      invariant -1 <= pos < |str| && forall k :: pos < k < |str| ==> str[k] != '1'
    {
      pos := pos - 1;
    }
  }

  /** What any accepted reading of a string must be. */
  lemma OnlyReading(str: string, pos: int, hrp: string, values: seq<Symbol>, check: seq<Symbol>)
    requires Accepts(str, hrp, values, check) && IsLastOne(str, pos)
    ensures pos == |hrp| > 0 && pos + 7 <= |str| && |str| == pos + 1 + |values + check| && hrp == Lower(str[..pos])
    ensures forall i :: 0 <= i < |values + check| ==> CharsetRev(str[pos + 1 + i]) == Some((values + check)[i])
    ensures Verifies(hrp, values + check)
  {
    hide CharsetRev, Lower, Text, Verifies;
    SpelledAt(str, hrp, values + check);
  }

  method CheckCharacters(str: string) returns (ok: bool)
    ensures ok <==> Printable(str) && SingleCase(str)
  {
    var lower, upper := false, false;
    for i := 0 to |str|
      invariant lower <==> exists k :: 0 <= k < i && IsLower(str[k])
      invariant upper <==> exists k :: 0 <= k < i && IsUpper(str[k])
      invariant forall k :: 0 <= k < i ==> IsPrintable(str[k])
    {
      var c := str[i];
      if IsLower(c) {
        lower := true;
      } else if IsUpper(c) {
        upper := true;
      } else if !IsPrintable(c) {
        return false;
      }
    }
    return !(lower && upper);
  }

  /** The symbols of the characters from a position on, if they are all in the alphabet. */
  method ReadSymbols(str: string, from: nat) returns (ok: bool, values: seq<Symbol>)
    requires from <= |str|
    ensures ok ==> |values| == |str| - from
                   && forall i :: 0 <= i < |values| ==> CharsetRev(str[from + i]) == Some(values[i])
    ensures !ok ==> exists i :: from <= i < |str| && CharsetRev(str[i]) == None
  {
    hide CharsetRev;
    values := [];
    for i := 0 to |str| - from
      invariant |values| == i && forall k :: 0 <= k < i ==> CharsetRev(str[from + k]) == Some(values[k])
    {
      var rev := CharsetRev(str[from + i]);
      if rev == None {
        return false, [];
      }
      values := values + [rev.value];
    }
    return true, values;
  }

  method ToLower(s: string) returns (r: string)
    ensures r == Lower(s)
  {
    r := "";
    for i := 0 to |s|
      invariant r == Lower(s[..i])
    {
      r := r + [LowerCase(s[i])];
    }
    assert s[..|s|] == s;
  }

  /** Decodes a string into its human-readable part and its values. */
  method Decode(str: string) returns (r: Option<(string, seq<Symbol>)>)
    ensures r.Some? ==> exists check :: Accepts(str, r.value.0, r.value.1, check)
    ensures r == None ==> forall hrp, values, check :: !Accepts(str, hrp, values, check)
  {
    hide CharsetRev, Lower, Text, Verifies, IsLastOne, Printable, SingleCase;
    var ok := CheckCharacters(str);
    if !ok {
      return None;
    }
    var pos := FindLastOne(str);
    forall hrp, values, check | Accepts(str, hrp, values, check)
      ensures 0 < pos && pos + 7 <= |str| && (forall i :: pos < i < |str| ==> CharsetRev(str[i]).Some?)
      ensures forall v :: IsReading(str, pos, v) ==> Verifies(Lower(str[..pos]), v)
    {
      OnlyReading(str, pos, hrp, values, check);
      Reading(str, pos, values + check);
    }
    if |str| > 90 || pos == -1 || pos == 0 || pos + 7 > |str| {
      return None;
    }
    var values;
    ok, values := ReadSymbols(str, pos + 1);
    if !ok {
      return None;
    }
    var hrp := ToLower(str[..pos]);
    ok := VerifyChecksum(hrp, values);
    assert IsReading(str, pos, values);
    if !ok {
      return None;
    }
    AcceptedReading(str, pos, values);
    return Some((hrp, values[..|values| - 6]));
  }

  /** The symbols that follow the separator. */
  ghost predicate IsReading(str: string, pos: int, v: seq<Symbol>) {
    0 <= pos < |str| && |str| == pos + 1 + |v|
    && forall i :: 0 <= i < |v| ==> CharsetRev(str[pos + 1 + i]) == Some(v[i])
  }

  lemma Reading(str: string, pos: nat, v: seq<Symbol>)
    requires IsReading(str, pos, v)
    ensures forall i :: pos < i < |str| ==> CharsetRev(str[i]).Some?
    ensures forall v' :: IsReading(str, pos, v') ==> v' == v
  {
    hide CharsetRev;
    forall i | pos < i < |str| ensures CharsetRev(str[i]).Some? {
      var j := i - pos - 1;
      assert CharsetRev(str[pos + 1 + j]) == Some(v[j]);
    }
    forall v' | IsReading(str, pos, v') ensures v' == v {
      assert forall i :: 0 <= i < |v| ==> CharsetRev(str[pos + 1 + i]) == Some(v'[i]);
    }
  }

  lemma AcceptedReading(str: string, pos: nat, v: seq<Symbol>)
    requires Printable(str) && SingleCase(str) && |str| <= 90 && 0 < pos && pos + 7 <= |str|
    requires str[pos] == '1' && IsReading(str, pos, v) && Verifies(Lower(str[..pos]), v)
    ensures Accepts(str, Lower(str[..pos]), v[..|v| - 6], v[|v| - 6..])
  {
    hide CharsetRev, Text, Verifies, Printable, SingleCase;
    SpellsOut(str, pos, v);
    assert v == v[..|v| - 6] + v[|v| - 6..];
  }

  /** Encoding and decoding returns what was encoded, exactly if the human-readable part is not
      empty and printable and the string is not longer than 90 characters. */
  method RoundTrip(hrp: string, values: seq<Symbol>) returns (str: string, r: Option<(string, seq<Symbol>)>)
    requires NoUpper(hrp)
    ensures r == if hrp != "" && Printable(hrp) && |hrp| + 7 + |values| <= 90 then Some((hrp, values)) else None
  {
    hide Lower, Text, Verifies, Printable, NoUpper;
    ghost var check;
    str, check := Encode(hrp, values);
    EncodedAccepted(str, hrp, values, check);
    r := Decode(str);
    forall hrp', values', check' | Accepts(str, hrp', values', check')
      ensures hrp' == hrp && values' == values && check' == check
    {
      OneReading(str, hrp, values, check, hrp', values', check');
    }
  }

  lemma EncodedAccepted(str: string, hrp: string, values: seq<Symbol>, check: seq<Symbol>)
    requires NoUpper(hrp) && Spells(str, hrp, values, check)
    ensures NoUpper(str) && Lower(str) == str
    ensures Accepts(str, hrp, values, check) <==> hrp != "" && Printable(hrp) && |hrp| + 7 + |values| <= 90
  {
    hide Charset, Verifies;
    var v := values + check;
    forall i | 0 <= i < |str|
      ensures !IsUpper(str[i]) && (if i < |hrp| then str[i] == hrp[i] else IsPrintable(str[i]))
    {
      if i > |hrp| {
        assert str[i] == Charset(v[i - |hrp| - 1]);
        Alphabet(str[i], v[i - |hrp| - 1]);
      }
    }
    assert Lower(str) == str;
    PrintablePrefix(str, hrp);
  }

  lemma PrintablePrefix(str: string, hrp: string)
    requires |hrp| <= |str|
    requires forall i :: 0 <= i < |str| ==> if i < |hrp| then str[i] == hrp[i] else IsPrintable(str[i])
    ensures Printable(str) <==> Printable(hrp)
  {
    hide IsPrintable;
    if Printable(str) {
      forall i | 0 <= i < |hrp| ensures IsPrintable(hrp[i]) {
        assert IsPrintable(str[i]);
      }
    }
  }

  /** A string has one reading. */
  lemma OneReading(str: string, hrp: string, values: seq<Symbol>, check: seq<Symbol>,
                   hrp': string, values': seq<Symbol>, check': seq<Symbol>)
    requires Spells(Lower(str), hrp, values, check) && Spells(Lower(str), hrp', values', check')
    ensures hrp' == hrp && values' == values && check' == check
  {
    hide CharsetRev, Lower, Text, Verifies;
    var v, v' := values + check, values' + check';
    SpelledAt(str, hrp, v);
    SpelledAt(str, hrp', v');
    assert |hrp| == |hrp'|;
    SameReading(str, |hrp|, v, v');
    assert values == v[..|v| - 6] && check == v[|v| - 6..];
    assert values' == v'[..|v'| - 6] && check' == v'[|v'| - 6..];
  }

  lemma SameReading(str: string, pos: nat, v: seq<Symbol>, v': seq<Symbol>)
    requires IsReading(str, pos, v) && IsReading(str, pos, v')
    ensures v == v'
  {
    Reading(str, pos, v);
  }

  lemma LowerHasNoUpper(str: string, hrp: string, v: seq<Symbol>)
    requires Lower(str) == Text(hrp, v)
    ensures NoUpper(hrp)
  {
    hide Charset;
    forall i | 0 <= i < |hrp| ensures !IsUpper(hrp[i]) {
      assert hrp[i] == Lower(str)[i] == LowerCase(str[i]);
    }
  }

  /** Decoding and encoding again returns the string in lower case. */
  method Canonical(str: string) returns (r: Option<(string, seq<Symbol>)>, str': string)
    ensures r.Some? ==> str' == Lower(str)
  {
    hide Lower, Text, Verifies;
    r := Decode(str);
    str' := "";
    if r.Some? {
      ghost var check :| Accepts(str, r.value.0, r.value.1, check);
      ghost var check';
      LowerHasNoUpper(str, r.value.0, r.value.1 + check);
      str', check' := Encode(r.value.0, r.value.1);
      ChecksumUnique(r.value.0, r.value.1, check, check');
    }
  }
}
