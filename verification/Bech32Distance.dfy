/** How many errors a Bech32 checksum detects. The generator has three consecutive powers of a primitive
    element of GF(1024) among its roots, so that no sum of up to three terms of degrees less than 1023
    apart is a multiple of it. */
module Bech32Distance {
  import opened Bech32
  import opened GF1024

  // ----- GF(32) inside GF(1024) ----------------------------------------------------------------------------

  function When(on: bool, c: Element): Element { if on then c else 0 }

  /** A symbol as an element of the larger field. */
  function Embed(v: Symbol): Element {
    Plus(Plus(Plus(When(HasBit(v, 1), 0x001), When(HasBit(v, 2), 0x00e)),
              Plus(When(HasBit(v, 4), 0x054), When(HasBit(v, 8), 0x358))),
         When(HasBit(v, 16), 0x0bf))
  }

  lemma WhenPlus(x: bool, y: bool, c: Element)
    ensures When(x != y, c) == Plus(When(x, c), When(y, c))
  {
    hide Plus;
    PlusLaws(c, c);
    PlusLaws(0, c);
    PlusLaws(0, 0);
  }

  lemma EmbedPlus(v: Symbol, w: Symbol)
    ensures Embed(v ^ w) == Plus(Embed(v), Embed(w))
  {
    hide When, Plus, HasBit;
    BitsLinear(v, w);
    WhenPlus(HasBit(v, 1), HasBit(w, 1), 0x001);
    WhenPlus(HasBit(v, 2), HasBit(w, 2), 0x00e);
    WhenPlus(HasBit(v, 4), HasBit(w, 4), 0x054);
    WhenPlus(HasBit(v, 8), HasBit(w, 8), 0x358);
    WhenPlus(HasBit(v, 16), HasBit(w, 16), 0x0bf);
    var v1, w1 := When(HasBit(v, 1), 0x001), When(HasBit(w, 1), 0x001);
    var v2, w2 := When(HasBit(v, 2), 0x00e), When(HasBit(w, 2), 0x00e);
    var v4, w4 := When(HasBit(v, 4), 0x054), When(HasBit(w, 4), 0x054);
    var v8, w8 := When(HasBit(v, 8), 0x358), When(HasBit(w, 8), 0x358);
    var v16, w16 := When(HasBit(v, 16), 0x0bf), When(HasBit(w, 16), 0x0bf);
    PlusSwap(v1, w1, v2, w2);
    PlusSwap(v4, w4, v8, w8);
    PlusSwap(Plus(v1, v2), Plus(w1, w2), Plus(v4, v8), Plus(w4, w8));
    PlusSwap(Plus(Plus(v1, v2), Plus(v4, v8)), Plus(Plus(w1, w2), Plus(w4, w8)), v16, w16);
  }

  lemma EmbedZero(v: Symbol)
    ensures Embed(v) == 0 <==> v == 0
  {
  }

  // ----- Values at a power ---------------------------------------------------------------------------------

  /** The value of a polynomial at the r-th power of the primitive element, `x` standing for what came before. */
  ghost function Value(r: nat, x: Element, s: seq<Symbol>): Element
    decreases |s|
  {
    if s == [] then x else Value(r, Plus(Power(x, r), Embed(s[0])), s[1..])
  }

  lemma {:induction false} ValueJoin(r: nat, x: Element, s: seq<Symbol>, t: seq<Symbol>)
    ensures Value(r, x, s + t) == Value(r, Value(r, x, s), t)
    decreases |s|
  {
    hide Power, Embed, Plus;
    if s == [] {
      assert s + t == t;
    } else {
      ValueJoin(r, Plus(Power(x, r), Embed(s[0])), s[1..], t);
      assert (s + t)[1..] == s[1..] + t;
    }
  }

  lemma {:induction false} ValuePlus(r: nat, x: Element, y: Element, s: seq<Symbol>, t: seq<Symbol>)
    requires |s| == |t|
    ensures Value(r, Plus(x, y), Difference(s, t)) == Plus(Value(r, x, s), Value(r, y, t))
    decreases |s|
  {
    hide Power, Embed, Plus;
    if s != [] {
      PowerPlus(x, y, r);
      EmbedPlus(s[0], t[0]);
      PlusSwap(Power(x, r), Power(y, r), Embed(s[0]), Embed(t[0]));
      ValuePlus(r, Plus(Power(x, r), Embed(s[0])), Plus(Power(y, r), Embed(t[0])), s[1..], t[1..]);
      assert Difference(s, t)[1..] == Difference(s[1..], t[1..]);
    }
  }

  lemma {:induction false} ValueZeros(r: nat, x: Element, n: nat)
    ensures r * n >= 0 && Value(r, x, Zeros(n)) == Power(x, r * n)
    decreases n
  {
    hide Power, Embed, Plus;
    if n == 0 {
      PowerZero(x);
    } else {
      EmbedZero(0);
      PlusLaws(Power(x, r), 0);
      assert Zeros(n)[1..] == Zeros(n - 1);
      ValueZeros(r, Power(x, r), n - 1);
      PowerAdd(x, r, r * (n - 1));
      assert r + r * (n - 1) == r * n;
    }
  }

  lemma ValueOne(r: nat, x: Element, v: Symbol)
    ensures Value(r, x, [v]) == Plus(Power(x, r), Embed(v))
  {
    hide Power, Embed, Plus;
    assert [v][1..] == [];
  }

  // ----- The roots of the generator ---------------------------------------------------------------------------

  ghost function Moves(c: Register, n: nat): Register {
    if n == 0 then c else Moved(Moves(c, n - 1))
  }

  /** The coefficients in a register, highest first. */
  ghost function Symbols(c: Register): (s: seq<Symbol>)
    ensures |s| == 6
  {
    seq(6, i requires 0 <= i < 6 => Top(Moves(c, i)))
  }

  /** The sixth power is the sum that the generator says, times a coefficient. */
  ghost predicate Root(r: nat, t: Symbol) {
    Value(r, 0, Symbols(Reduction(t))) == Power(Embed(t), 6 * r)
  }

  lemma {:induction false} MovesLinear(c: Register, d: Register, n: nat)
    ensures Moves(Xor(c, d), n) == Xor(Moves(c, n), Moves(d, n))
  {
    hide Moved, Xor;
    if n > 0 {
      MovesLinear(c, d, n - 1);
      MovedLinear(Moves(c, n - 1), Moves(d, n - 1));
    }
  }

  lemma SymbolsLinear(c: Register, d: Register)
    ensures Symbols(Xor(c, d)) == Difference(Symbols(c), Symbols(d))
  {
    hide Moves, Top, Xor;
    forall i | 0 <= i < 6 ensures Symbols(Xor(c, d))[i] == Difference(Symbols(c), Symbols(d))[i] {
      MovesLinear(c, d, i);
      TopLinear(Moves(c, i), Moves(d, i));
    }
  }

  lemma {:induction false} MovesNext(c: Register, n: nat)
    ensures Moves(Moved(c), n) == Moves(c, n + 1)
  {
    hide Moved;
    if n > 0 { MovesNext(c, n - 1); }
  }

  lemma SixMoves(c: Register)
    ensures Moved(Moved(Moved(Moved(Moved(Moved(c)))))) == 0 && Top(0) == 0
  {
  }

  lemma SymbolsMoved(c: Register)
    ensures Symbols(Moved(c)) == Symbols(c)[1..] + [0]
  {
    hide Moved, Top;
    var s, t := Symbols(Moved(c)), Symbols(c)[1..] + [0];
    SixMoves(c);
    assert Moves(c, 6) == Moved(Moved(Moved(Moved(Moved(Moved(c)))))) by { MovesSix(c); }
    forall i | 0 <= i < 6 ensures s[i] == t[i] {
      MovesNext(c, i);
    }
  }

  lemma MovesSix(c: Register)
    ensures Moves(c, 6) == Moved(Moved(Moved(Moved(Moved(Moved(c))))))
  {
    hide Moved;
    assert Moves(c, 1) == Moved(c);
    assert Moves(c, 2) == Moved(Moves(c, 1));
    assert Moves(c, 3) == Moved(Moves(c, 2));
    assert Moves(c, 4) == Moved(Moves(c, 3));
    assert Moves(c, 5) == Moved(Moves(c, 4));
  }

  lemma WideMoves(v: Symbol)
    ensures var c1 := Moved(Wide(v)); var c2 := Moved(c1); var c3 := Moved(c2); var c4 := Moved(c3);
            var c5 := Moved(c4);
            Top(Wide(v)) == 0 && Top(c1) == 0 && Top(c2) == 0 && Top(c3) == 0 && Top(c4) == 0 && Top(c5) == v
  {
  }

  lemma SymbolsWide(v: Symbol)
    ensures Symbols(Wide(v)) == Zeros(5) + [v]
  {
    hide Moved, Top, Wide;
    WideMoves(v);
    var c := Wide(v);
    assert Moves(c, 0) == c && Moves(c, 1) == Moved(c) && Moves(c, 2) == Moved(Moved(c));
    assert Moves(c, 3) == Moved(Moves(c, 2)) && Moves(c, 4) == Moved(Moves(c, 3)) && Moves(c, 5) == Moved(Moves(c, 4));
    forall i | 0 <= i < 6 ensures Symbols(c)[i] == (Zeros(5) + [v])[i] {
      assert i == 0 || i == 1 || i == 2 || i == 3 || i == 4 || i == 5;
    }
  }

  /** One step moves the coefficients, lets one in, and adds a multiple of the generator. */
  lemma SymbolsStep(c: Register, v: Symbol)
    ensures Symbols(Step(c, v)) == Difference(Symbols(c)[1..] + [v], Symbols(Reduction(Top(c))))
  {
    hide Moved, Wide, Top, Reduction, Xor, Symbols;
    SymbolsMoved(c);
    SymbolsWide(v);
    SymbolsLinear(Moved(c), Wide(v));
    SymbolsLinear(Xor(Moved(c), Wide(v)), Reduction(Top(c)));
    EntersLast(Symbols(c)[1..], v);
  }

  lemma EntersLast(s: seq<Symbol>, v: Symbol)
    requires |s| == 5
    ensures Difference(s + [0], Zeros(5) + [v]) == s + [v]
  {
    var d, e := Difference(s + [0], Zeros(5) + [v]), s + [v];
    forall i | 0 <= i < 6 ensures d[i] == e[i] {
      ZeroAdds(e[i]);
    }
  }

  lemma ZeroAdds(v: Symbol)
    ensures v ^ 0 == v && 0 ^ v == v && v ^ v == 0
  {
  }

  lemma RootPlus(r: nat, t: Symbol, u: Symbol)
    requires Root(r, t) && Root(r, u)
    ensures Root(r, t ^ u)
  {
    hide Value, Power, Plus, Embed, Symbols, Reduction;
    ReductionLinear(t, u);
    SymbolsLinear(Reduction(t), Reduction(u));
    ValuePlus(r, 0, 0, Symbols(Reduction(t)), Symbols(Reduction(u)));
    PlusLaws(0, 0);
    EmbedPlus(t, u);
    PowerPlus(Embed(t), Embed(u), 6 * r);
  }

  /** The three consecutive powers. */
  predicate IsRootPower(r: nat) { r == 24 || r == 25 || r == 26 }

  function Scale(r: nat, w: Element): Element
    requires IsRootPower(r)
  {
    if r == 24 then Scale24(w) else if r == 25 then Scale25(w) else Scale26(w)
  }

  lemma ScaleIs(r: nat, w: Element)
    requires IsRootPower(r)
    ensures Power(w, r) == Scale(r, w)
  {
    hide Power, Scale24, Scale25, Scale26;
    if r == 24 { Scale24Is(w); } else if r == 25 { Scale25Is(w); } else { Scale26Is(w); }
  }

  function Horner(r: nat, x: Element, e: Element): Element
    requires IsRootPower(r)
  {
    Plus(Scale(r, x), e)
  }

  lemma ValueFirst(r: nat, x: Element, v: Symbol, s: seq<Symbol>)
    requires IsRootPower(r)
    ensures Value(r, x, [v] + s) == Value(r, Horner(r, x, Embed(v)), s)
  {
    hide Power, Scale, Embed, Plus;
    ScaleIs(r, x);
    assert ([v] + s)[1..] == s;
  }

  /** The value of six coefficients. */
  function Horner6(r: nat, x: Element, e0: Element, e1: Element, e2: Element, e3: Element,
                   e4: Element, e5: Element): Element
    requires IsRootPower(r)
  {
    Horner(r, Horner(r, Horner(r, Horner(r, Horner(r, Horner(r, x, e0), e1), e2), e3), e4), e5)
  }

  lemma ValueSix(r: nat, x: Element, v0: Symbol, v1: Symbol, v2: Symbol, v3: Symbol, v4: Symbol, v5: Symbol)
    requires IsRootPower(r)
    ensures Value(r, x, [v0, v1, v2, v3, v4, v5])
            == Horner6(r, x, Embed(v0), Embed(v1), Embed(v2), Embed(v3), Embed(v4), Embed(v5))
  {
    hide Horner, Value, Embed;
    var x0 := Horner(r, x, Embed(v0));
    var x1 := Horner(r, x0, Embed(v1));
    var x2 := Horner(r, x1, Embed(v2));
    var x3 := Horner(r, x2, Embed(v3));
    var x4 := Horner(r, x3, Embed(v4));
    assert [v0, v1, v2, v3, v4, v5] == [v0] + [v1, v2, v3, v4, v5];
    ValueFirst(r, x, v0, [v1, v2, v3, v4, v5]);
    assert [v1, v2, v3, v4, v5] == [v1] + [v2, v3, v4, v5];
    ValueFirst(r, x0, v1, [v2, v3, v4, v5]);
    assert [v2, v3, v4, v5] == [v2] + [v3, v4, v5];
    ValueFirst(r, x1, v2, [v3, v4, v5]);
    assert [v3, v4, v5] == [v3] + [v4, v5];
    ValueFirst(r, x2, v3, [v4, v5]);
    assert [v4, v5] == [v4] + [v5];
    ValueFirst(r, x3, v4, [v5]);
    assert [v5] == [v5] + [];
    ValueFirst(r, x4, v5, []);
    ValueNone(r, Horner(r, x4, Embed(v5)));
  }

  lemma ValueNone(r: nat, x: Element)
    ensures Value(r, x, []) == x
  {
  }

  /** A multiple of the generator's lower part, by its coefficients. */
  lemma RootBy(r: nat, t: Symbol, v0: Symbol, v1: Symbol, v2: Symbol, v3: Symbol, v4: Symbol, v5: Symbol)
    requires IsRootPower(r) && Symbols(Reduction(t)) == [v0, v1, v2, v3, v4, v5]
    requires Horner6(r, 0, Embed(v0), Embed(v1), Embed(v2), Embed(v3), Embed(v4), Embed(v5))
             == Horner6(r, Embed(t), 0, 0, 0, 0, 0, 0)
    ensures Root(r, t)
  {
    hide Horner6, Value, Power, Symbols, Reduction, Embed;
    EmbedZero(0);
    ValueSix(r, 0, v0, v1, v2, v3, v4, v5);
    ValueSix(r, Embed(t), 0, 0, 0, 0, 0, 0);
    assert Zeros(6) == [0, 0, 0, 0, 0, 0];
    ValueZeros(r, Embed(t), 6);
    assert r * 6 == 6 * r;
  }

  lemma SymbolsBy(c: Register, c1: Register, c2: Register, c3: Register, c4: Register, c5: Register)
    requires Moved(c) == c1 && Moved(c1) == c2 && Moved(c2) == c3 && Moved(c3) == c4 && Moved(c4) == c5
    ensures Symbols(c) == [Top(c), Top(c1), Top(c2), Top(c3), Top(c4), Top(c5)]
  {
    hide Moved, Top;
    assert Moves(c, 0) == c && Moves(c, 1) == Moved(c) && Moves(c, 2) == Moved(Moves(c, 1));
    assert Moves(c, 3) == Moved(Moves(c, 2)) && Moves(c, 4) == Moved(Moves(c, 3)) && Moves(c, 5) == Moved(Moves(c, 4));
    var s, t := Symbols(c), [Top(c), Top(c1), Top(c2), Top(c3), Top(c4), Top(c5)];
    forall i | 0 <= i < 6 ensures s[i] == t[i] {
      assert i == 0 || i == 1 || i == 2 || i == 3 || i == 4 || i == 5;
    }
  }

  lemma Generator1()
    ensures Symbols(Reduction(1)) == [29, 22, 20, 21, 29, 18]
  {
    hide Symbols;
    SymbolsBy(0x3b6a57b2, 0x2d4af640, 0x295ec800, 0x2bd90000, 0x3b200000, 0x24000000);
  }

  lemma Generator2()
    ensures Symbols(Reduction(2)) == [19, 5, 1, 3, 19, 13]
  {
    hide Symbols;
    SymbolsBy(0x26508e6d, 0x0a11cda0, 0x0239b400, 0x07368000, 0x26d00000, 0x1a000000);
  }

  lemma Generator4()
    ensures Symbols(Reduction(4)) == [15, 10, 2, 6, 15, 26]
  {
    hide Symbols;
    SymbolsBy(0x1ea119fa, 0x14233f40, 0x0467e800, 0x0cfd0000, 0x1fa00000, 0x34000000);
  }

  lemma Generator8()
    ensures Symbols(Reduction(8)) == [30, 20, 4, 12, 30, 29]
  {
    hide Symbols;
    SymbolsBy(0x3d4233dd, 0x28467ba0, 0x08cf7400, 0x19ee8000, 0x3dd00000, 0x3a000000);
  }

  lemma Generator16()
    ensures Symbols(Reduction(16)) == [21, 1, 8, 24, 21, 19]
  {
    hide Symbols;
    SymbolsBy(0x2a1462b3, 0x028c5660, 0x118acc00, 0x31598000, 0x2b300000, 0x26000000);
  }

  lemma Embedded()
    ensures Embed(1) == 0x001 && Embed(2) == 0x00e && Embed(3) == 0x00f && Embed(4) == 0x054 && Embed(5) == 0x055
            && Embed(6) == 0x05a
    ensures Embed(8) == 0x358 && Embed(10) == 0x356 && Embed(12) == 0x30c && Embed(13) == 0x30d && Embed(15) == 0x303
            && Embed(16) == 0x0bf
    ensures Embed(18) == 0x0b1 && Embed(19) == 0x0b0 && Embed(20) == 0x0eb && Embed(21) == 0x0ea && Embed(22) == 0x0e5
            && Embed(24) == 0x3e7
    ensures Embed(26) == 0x3e9 && Embed(29) == 0x3b2 && Embed(30) == 0x3bd
  {
  }

  lemma Chain(r: nat, x: Element, e0: Element, e1: Element, e2: Element, e3: Element, e4: Element, e5: Element,
              x0: Element, x1: Element, x2: Element, x3: Element, x4: Element, x5: Element)
    requires IsRootPower(r) && Horner(r, x, e0) == x0 && Horner(r, x0, e1) == x1 && Horner(r, x1, e2) == x2
    requires Horner(r, x2, e3) == x3 && Horner(r, x3, e4) == x4 && Horner(r, x4, e5) == x5
    ensures Horner6(r, x, e0, e1, e2, e3, e4, e5) == x5
  {
    hide Horner;
  }

  lemma Row24Of1()
    ensures Horner6(24, 0, 0x3b2, 0x0e5, 0x0eb, 0x0ea, 0x3b2, 0x0b1) == 0x2ba
  {
    hide Horner6;
    Chain(24, 0, 0x3b2, 0x0e5, 0x0eb, 0x0ea, 0x3b2, 0x0b1, 0x3b2, 0x07d, 0x07d, 0x07c, 0x0d4, 0x2ba);
  }

  lemma Lead24Of1()
    ensures Horner6(24, 0x001, 0, 0, 0, 0, 0, 0) == 0x2ba
  {
    hide Horner6;
    Chain(24, 0x001, 0, 0, 0, 0, 0, 0, 0x3f0, 0x24d, 0x2b9, 0x0b9, 0x009, 0x2ba);
  }

  lemma Root24Of1()
    ensures Root(24, 1)
  {
    hide Root, Symbols, Reduction, Horner6, Embed;
    Generator1();
    Embedded();
    Row24Of1();
    Lead24Of1();
    RootBy(24, 1, 29, 22, 20, 21, 29, 18);
  }

  lemma Row24Of2()
    ensures Horner6(24, 0, 0x0b0, 0x055, 0x001, 0x00f, 0x0b0, 0x30d) == 0x1a5
  {
    hide Horner6;
    Chain(24, 0, 0x0b0, 0x055, 0x001, 0x00f, 0x0b0, 0x30d, 0x0b0, 0x2e6, 0x2e6, 0x2e8, 0x17b, 0x1a5);
  }

  lemma Lead24Of2()
    ensures Horner6(24, 0x00e, 0, 0, 0, 0, 0, 0) == 0x1a5
  {
    hide Horner6;
    Chain(24, 0x00e, 0, 0, 0, 0, 0, 0, 0x32c, 0x10c, 0x1b7, 0x37d, 0x07e, 0x1a5);
  }

  lemma Root24Of2()
    ensures Root(24, 2)
  {
    hide Root, Symbols, Reduction, Horner6, Embed;
    Generator2();
    Embedded();
    Row24Of2();
    Lead24Of2();
    RootBy(24, 2, 19, 5, 1, 3, 19, 13);
  }

  lemma Row24Of4()
    ensures Horner6(24, 0, 0x303, 0x356, 0x00e, 0x05a, 0x303, 0x3e9) == 0x2b0
  {
    hide Horner6;
    Chain(24, 0, 0x303, 0x356, 0x00e, 0x05a, 0x303, 0x3e9, 0x303, 0x28d, 0x28d, 0x2d9, 0x3a7, 0x2b0);
  }

  lemma Lead24Of4()
    ensures Horner6(24, 0x054, 0, 0, 0, 0, 0, 0) == 0x2b0
  {
    hide Horner6;
    Chain(24, 0x054, 0, 0, 0, 0, 0, 0, 0x227, 0x12d, 0x24c, 0x149, 0x2f4, 0x2b0);
  }

  lemma Root24Of4()
    ensures Root(24, 4)
  {
    hide Root, Symbols, Reduction, Horner6, Embed;
    Generator4();
    Embedded();
    Row24Of4();
    Lead24Of4();
    RootBy(24, 4, 15, 10, 2, 6, 15, 26);
  }

  lemma Row24Of8()
    ensures Horner6(24, 0, 0x3bd, 0x0eb, 0x054, 0x30c, 0x3bd, 0x3b2) == 0x1c9
  {
    hide Horner6;
    Chain(24, 0, 0x3bd, 0x0eb, 0x054, 0x30c, 0x3bd, 0x3b2, 0x3bd, 0x0af, 0x0af, 0x3f7, 0x066, 0x1c9);
  }

  lemma Lead24Of8()
    ensures Horner6(24, 0x358, 0, 0, 0, 0, 0, 0) == 0x1c9
  {
    hide Horner6;
    Chain(24, 0x358, 0, 0, 0, 0, 0, 0, 0x320, 0x0e3, 0x102, 0x29b, 0x271, 0x1c9);
  }

  lemma Root24Of8()
    ensures Root(24, 8)
  {
    hide Root, Symbols, Reduction, Horner6, Embed;
    Generator8();
    Embedded();
    Row24Of8();
    Lead24Of8();
    RootBy(24, 8, 30, 20, 4, 12, 30, 29);
  }

  lemma Row24Of16()
    ensures Horner6(24, 0, 0x0ea, 0x001, 0x358, 0x3e7, 0x0ea, 0x0b0) == 0x0b8
  {
    hide Horner6;
    Chain(24, 0, 0x0ea, 0x001, 0x358, 0x3e7, 0x0ea, 0x0b0, 0x0ea, 0x3b9, 0x3b9, 0x306, 0x264, 0x0b8);
  }

  lemma Lead24Of16()
    ensures Horner6(24, 0x0bf, 0, 0, 0, 0, 0, 0) == 0x0b8
  {
    hide Horner6;
    Chain(24, 0x0bf, 0, 0, 0, 0, 0, 0, 0x26f, 0x071, 0x179, 0x06b, 0x064, 0x0b8);
  }

  lemma Root24Of16()
    ensures Root(24, 16)
  {
    hide Root, Symbols, Reduction, Horner6, Embed;
    Generator16();
    Embedded();
    Row24Of16();
    Lead24Of16();
    RootBy(24, 16, 21, 1, 8, 24, 21, 19);
  }

  lemma Row25Of1()
    ensures Horner6(25, 0, 0x3b2, 0x0e5, 0x0eb, 0x0ea, 0x3b2, 0x0b1) == 0x0a6
  {
    hide Horner6;
    Chain(25, 0, 0x3b2, 0x0e5, 0x0eb, 0x0ea, 0x3b2, 0x0b1, 0x3b2, 0x1d5, 0x3ad, 0x069, 0x3df, 0x0a6);
  }

  lemma Lead25Of1()
    ensures Horner6(25, 0x001, 0, 0, 0, 0, 0, 0) == 0x0a6
  {
    hide Horner6;
    Chain(25, 0x001, 0, 0, 0, 0, 0, 0, 0x2c3, 0x372, 0x144, 0x1d6, 0x120, 0x0a6);
  }

  lemma Root25Of1()
    ensures Root(25, 1)
  {
    hide Root, Symbols, Reduction, Horner6, Embed;
    Generator1();
    Embedded();
    Row25Of1();
    Lead25Of1();
    RootBy(25, 1, 29, 22, 20, 21, 29, 18);
  }

  lemma Row25Of2()
    ensures Horner6(25, 0, 0x0b0, 0x055, 0x001, 0x00f, 0x0b0, 0x30d) == 0x3c7
  {
    hide Horner6;
    Chain(25, 0, 0x0b0, 0x055, 0x001, 0x00f, 0x0b0, 0x30d, 0x0b0, 0x010, 0x00a, 0x23e, 0x2b6, 0x3c7);
  }

  lemma Lead25Of2()
    ensures Horner6(25, 0x00e, 0, 0, 0, 0, 0, 0) == 0x3c7
  {
    hide Horner6;
    Chain(25, 0x00e, 0, 0, 0, 0, 0, 0, 0x37b, 0x113, 0x2dd, 0x002, 0x0a5, 0x3c7);
  }

  lemma Root25Of2()
    ensures Root(25, 2)
  {
    hide Root, Symbols, Reduction, Horner6, Embed;
    Generator2();
    Embedded();
    Row25Of2();
    Lead25Of2();
    RootBy(25, 2, 19, 5, 1, 3, 19, 13);
  }

  lemma Row25Of4()
    ensures Horner6(25, 0, 0x303, 0x356, 0x00e, 0x05a, 0x303, 0x3e9) == 0x226
  {
    hide Horner6;
    Chain(25, 0, 0x303, 0x356, 0x00e, 0x05a, 0x303, 0x3e9, 0x303, 0x0e0, 0x06c, 0x3be, 0x1ed, 0x226);
  }

  lemma Lead25Of4()
    ensures Horner6(25, 0x054, 0, 0, 0, 0, 0, 0) == 0x226
  {
    hide Horner6;
    Chain(25, 0x054, 0, 0, 0, 0, 0, 0, 0x16d, 0x197, 0x3cf, 0x01c, 0x3d5, 0x226);
  }

  lemma Root25Of4()
    ensures Root(25, 4)
  {
    hide Root, Symbols, Reduction, Horner6, Embed;
    Generator4();
    Embedded();
    Row25Of4();
    Lead25Of4();
    RootBy(25, 4, 15, 10, 2, 6, 15, 26);
  }

  lemma Row25Of8()
    ensures Horner6(25, 0, 0x3bd, 0x0eb, 0x054, 0x30c, 0x3bd, 0x3b2) == 0x32e
  {
    hide Horner6;
    Chain(25, 0, 0x3bd, 0x0eb, 0x054, 0x30c, 0x3bd, 0x3b2, 0x3bd, 0x063, 0x208, 0x0f8, 0x140, 0x32e);
  }

  lemma Lead25Of8()
    ensures Horner6(25, 0x358, 0, 0, 0, 0, 0, 0) == 0x32e
  {
    hide Horner6;
    Chain(25, 0x358, 0, 0, 0, 0, 0, 0, 0x363, 0x38c, 0x256, 0x0a8, 0x2da, 0x32e);
  }

  lemma Root25Of8()
    ensures Root(25, 8)
  {
    hide Root, Symbols, Reduction, Horner6, Embed;
    Generator8();
    Embedded();
    Row25Of8();
    Lead25Of8();
    RootBy(25, 8, 30, 20, 4, 12, 30, 29);
  }

  lemma Row25Of16()
    ensures Horner6(25, 0, 0x0ea, 0x001, 0x358, 0x3e7, 0x0ea, 0x0b0) == 0x23b
  {
    hide Horner6;
    Chain(25, 0, 0x0ea, 0x001, 0x358, 0x3e7, 0x0ea, 0x0b0, 0x0ea, 0x252, 0x2ba, 0x0f3, 0x2e5, 0x23b);
  }

  lemma Lead25Of16()
    ensures Horner6(25, 0x0bf, 0, 0, 0, 0, 0, 0) == 0x23b
  {
    hide Horner6;
    Chain(25, 0x0bf, 0, 0, 0, 0, 0, 0, 0x1fd, 0x1c4, 0x18e, 0x393, 0x3e5, 0x23b);
  }

  lemma Root25Of16()
    ensures Root(25, 16)
  {
    hide Root, Symbols, Reduction, Horner6, Embed;
    Generator16();
    Embedded();
    Row25Of16();
    Lead25Of16();
    RootBy(25, 16, 21, 1, 8, 24, 21, 19);
  }

  lemma Row26Of1()
    ensures Horner6(26, 0, 0x3b2, 0x0e5, 0x0eb, 0x0ea, 0x3b2, 0x0b1) == 0x098
  {
    hide Horner6;
    Chain(26, 0, 0x3b2, 0x0e5, 0x0eb, 0x0ea, 0x3b2, 0x0b1, 0x3b2, 0x285, 0x0aa, 0x137, 0x193, 0x098);
  }

  lemma Lead26Of1()
    ensures Horner6(26, 0x001, 0, 0, 0, 0, 0, 0) == 0x098
  {
    hide Horner6;
    Chain(26, 0x001, 0, 0, 0, 0, 0, 0, 0x0a5, 0x2ad, 0x066, 0x3aa, 0x27d, 0x098);
  }

  lemma Root26Of1()
    ensures Root(26, 1)
  {
    hide Root, Symbols, Reduction, Horner6, Embed;
    Generator1();
    Embedded();
    Row26Of1();
    Lead26Of1();
    RootBy(26, 1, 29, 22, 20, 21, 29, 18);
  }

  lemma Row26Of2()
    ensures Horner6(26, 0, 0x0b0, 0x055, 0x001, 0x00f, 0x0b0, 0x30d) == 0x2b3
  {
    hide Horner6;
    Chain(26, 0, 0x0b0, 0x055, 0x001, 0x00f, 0x0b0, 0x30d, 0x0b0, 0x0df, 0x38f, 0x06f, 0x3b4, 0x2b3);
  }

  lemma Lead26Of2()
    ensures Horner6(26, 0x00e, 0, 0, 0, 0, 0, 0) == 0x2b3
  {
    hide Horner6;
    Chain(26, 0x00e, 0, 0, 0, 0, 0, 0, 0x3d5, 0x16f, 0x264, 0x020, 0x02c, 0x2b3);
  }

  lemma Root26Of2()
    ensures Root(26, 2)
  {
    hide Root, Symbols, Reduction, Horner6, Embed;
    Generator2();
    Embedded();
    Row26Of2();
    Lead26Of2();
    RootBy(26, 2, 19, 5, 1, 3, 19, 13);
  }

  lemma Row26Of4()
    ensures Horner6(26, 0, 0x303, 0x356, 0x00e, 0x05a, 0x303, 0x3e9) == 0x1db
  {
    hide Horner6;
    Chain(26, 0, 0x303, 0x356, 0x00e, 0x05a, 0x303, 0x3e9, 0x303, 0x119, 0x1d6, 0x21a, 0x094, 0x1db);
  }

  lemma Lead26Of4()
    ensures Horner6(26, 0x054, 0, 0, 0, 0, 0, 0) == 0x1db
  {
    hide Horner6;
    Chain(26, 0x054, 0, 0, 0, 0, 0, 0, 0x2da, 0x37f, 0x0b2, 0x1c0, 0x188, 0x1db);
  }

  lemma Root26Of4()
    ensures Root(26, 4)
  {
    hide Root, Symbols, Reduction, Horner6, Embed;
    Generator4();
    Embedded();
    Row26Of4();
    Lead26Of4();
    RootBy(26, 4, 15, 10, 2, 6, 15, 26);
  }

  lemma Row26Of8()
    ensures Horner6(26, 0, 0x3bd, 0x0eb, 0x054, 0x30c, 0x3bd, 0x3b2) == 0x044
  {
    hide Horner6;
    Chain(26, 0, 0x3bd, 0x0eb, 0x054, 0x30c, 0x3bd, 0x3b2, 0x3bd, 0x1fb, 0x002, 0x246, 0x2fb, 0x044);
  }

  lemma Lead26Of8()
    ensures Horner6(26, 0x358, 0, 0, 0, 0, 0, 0) == 0x044
  {
    hide Horner6;
    Chain(26, 0x358, 0, 0, 0, 0, 0, 0, 0x3e5, 0x155, 0x31f, 0x0c6, 0x336, 0x044);
  }

  lemma Root26Of8()
    ensures Root(26, 8)
  {
    hide Root, Symbols, Reduction, Horner6, Embed;
    Generator8();
    Embedded();
    Row26Of8();
    Lead26Of8();
    RootBy(26, 8, 30, 20, 4, 12, 30, 29);
  }

  lemma Row26Of16()
    ensures Horner6(26, 0, 0x0ea, 0x001, 0x358, 0x3e7, 0x0ea, 0x0b0) == 0x3b8
  {
    hide Horner6;
    Chain(26, 0, 0x0ea, 0x001, 0x358, 0x3e7, 0x0ea, 0x0b0, 0x0ea, 0x184, 0x01c, 0x16e, 0x22b, 0x3b8);
  }

  lemma Lead26Of16()
    ensures Horner6(26, 0x0bf, 0, 0, 0, 0, 0, 0) == 0x3b8
  {
    hide Horner6;
    Chain(26, 0x0bf, 0, 0, 0, 0, 0, 0, 0x3fa, 0x233, 0x315, 0x187, 0x2ab, 0x3b8);
  }

  lemma Root26Of16()
    ensures Root(26, 16)
  {
    hide Root, Symbols, Reduction, Horner6, Embed;
    Generator16();
    Embedded();
    Row26Of16();
    Lead26Of16();
    RootBy(26, 16, 21, 1, 8, 24, 21, 19);
  }

  lemma Roots(r: nat)
    requires IsRootPower(r)
    ensures Root(r, 1) && Root(r, 2) && Root(r, 4) && Root(r, 8) && Root(r, 16)
  {
    hide Root;
    if r == 24 {
      Root24Of1();
      Root24Of2();
      Root24Of4();
      Root24Of8();
      Root24Of16();
    } else if r == 25 {
      Root25Of1();
      Root25Of2();
      Root25Of4();
      Root25Of8();
      Root25Of16();
    } else {
      Root26Of1();
      Root26Of2();
      Root26Of4();
      Root26Of8();
      Root26Of16();
    }
  }

  function Bit(t: Symbol, bit: Symbol): Symbol { if HasBit(t, bit) then bit else 0 }

  function Both(v: Symbol, w: Symbol): Symbol { v ^ w }

  lemma BitsOf(t: Symbol)
    ensures t == Both(Both(Both(Both(Bit(t, 1), Bit(t, 2)), Bit(t, 4)), Bit(t, 8)), Bit(t, 16))
  {
  }

  lemma NoRoot(r: nat)
    ensures Root(r, 0)
  {
    hide Value, Power, Symbols;
    EmbedZero(0);
    PowerInjective(0, 0, 6 * r);
    NothingReduced();
    SymbolsZero();
    ValueZeros(r, 0, 6);
    PowerInjective(0, 0, r * 6);
  }

  lemma NothingReduced()
    ensures Reduction(0) == 0
  {
  }

  lemma SymbolsZero()
    ensures Symbols(0) == Zeros(6)
  {
    hide Symbols, Xor;
    SymbolsLinear(0, 0);
    XorLaws(0, 0);
    forall i | 0 <= i < 6 ensures Symbols(0)[i] == Zeros(6)[i] {
      ZeroAdds(Symbols(0)[i]);
    }
  }

  lemma RootBoth(r: nat, t: Symbol, u: Symbol)
    requires Root(r, t) && Root(r, u)
    ensures Root(r, Both(t, u))
  {
    hide Root;
    RootPlus(r, t, u);
  }

  /** The three consecutive powers are roots. */
  lemma IsRoot(r: nat, t: Symbol)
    requires IsRootPower(r)
    ensures Root(r, t)
  {
    hide Root, HasBit, Both;
    Roots(r);
    NoRoot(r);
    BitsOf(t);
    var two := Both(Bit(t, 1), Bit(t, 2));
    var three := Both(two, Bit(t, 4));
    RootBoth(r, Bit(t, 1), Bit(t, 2));
    RootBoth(r, two, Bit(t, 4));
    RootBoth(r, three, Bit(t, 8));
    RootBoth(r, Both(three, Bit(t, 8)), Bit(t, 16));
  }

  // ----- Checksums and values -------------------------------------------------------------------------------

  /** What a register stands for, at a power. */
  ghost function At(r: nat, c: Register): Element {
    Value(r, 0, Symbols(c))
  }

  lemma LastIn(r: nat, s: seq<Symbol>, v: Symbol)
    requires |s| == 6
    ensures Plus(Power(Value(r, 0, s), r), Embed(v)) == Value(r, Embed(s[0]), s[1..] + [v])
  {
    hide Power, Plus, Embed;
    ValueJoin(r, 0, s, [v]);
    ValueOne(r, Value(r, 0, s), v);
    PowerInjective(0, 0, r);
    PlusLaws(0, Embed(s[0]));
    PlusLaws(Embed(s[0]), 0);
    assert (s + [v])[1..] == s[1..] + [v];
  }

  /** At a root, a step multiplies by the power and lets a coefficient in. */
  lemma AtStep(r: nat, c: Register, v: Symbol)
    requires IsRootPower(r)
    ensures At(r, Step(c, v)) == Plus(Power(At(r, c), r), Embed(v))
  {
    hide Value, Power, Plus, Embed, Step, Symbols, Reduction, Top;
    var s, t := Symbols(c), Top(c);
    TopFirst(c);
    var rest := s[1..] + [v];
    SymbolsStep(c, v);
    LastIn(r, s, v);
    IsRoot(r, t);
    ValuePlus(r, 0, 0, rest, Symbols(Reduction(t)));
    PlusLaws(0, 0);
    ValuePlus(r, 0, Embed(t), rest, Zeros(6));
    NothingSubtracted(rest);
    PlusLaws(0, Embed(t));
    PlusLaws(Embed(t), 0);
    ValueZeros(r, Embed(t), 6);
    assert r * 6 == 6 * r;
  }

  lemma TopFirst(c: Register)
    ensures Symbols(c)[0] == Top(c)
  {
  }

  lemma NothingSubtracted(s: seq<Symbol>)
    ensures Difference(s, Zeros(|s|)) == s
  {
    forall i | 0 <= i < |s| ensures Difference(s, Zeros(|s|))[i] == s[i] {
      ZeroAdds(s[i]);
    }
  }

  lemma {:induction false} AtFold(r: nat, c: Register, s: seq<Symbol>)
    requires IsRootPower(r)
    ensures At(r, Fold(c, s)) == Value(r, At(r, c), s)
    decreases |s|
  {
    hide At, Power, Plus, Embed, Step;
    if s != [] {
      AtStep(r, c, s[0]);
      AtFold(r, Step(c, s[0]), s[1..]);
    }
  }

  /** A message with remainder zero has the value zero at a root. */
  lemma ValueVanishes(r: nat, s: seq<Symbol>)
    requires IsRootPower(r) && Fold(0, s) == 0
    ensures Value(r, 0, s) == 0
  {
    hide Value, Fold, Power;
    AtFold(r, 0, s);
    SymbolsZero();
    ValueZeros(r, 0, 6);
    PowerInjective(0, 0, r * 6);
  }

  /** The value of three terms. */
  lemma ThreeValues(r: nat, a: Symbol, m: nat, b: Symbol, n: nat, c: Symbol)
    ensures r * (m + n + 2) >= 0 && r * (n + 1) >= 0
    ensures Value(r, 0, [a] + Zeros(m) + [b] + Zeros(n) + [c])
            == Plus(Plus(Power(Embed(a), r * (m + n + 2)), Power(Embed(b), r * (n + 1))), Embed(c))
  {
    hide Value, Power, Plus, Embed;
    var x, y := Embed(a), Embed(b);
    ProductsNonNegative(r, m, n);
    OneThenZeros(r, 0, a, m);
    PowerInjective(0, 0, r);
    PlusLaws(0, x);
    PlusLaws(x, 0);
    var u := Power(x, r * m);
    ValueJoin(r, 0, [a] + Zeros(m), [b] + Zeros(n));
    OneThenZeros(r, u, b, n);
    PowerPlus(Power(u, r), y, r * n);
    PowerAdd(x, r * m, r);
    PowerAdd(x, r * m + r, r * n);
    var w := Plus(Power(x, r * m + r + r * n), Power(y, r * n));
    assert [a] + Zeros(m) + ([b] + Zeros(n)) == [a] + Zeros(m) + [b] + Zeros(n);
    ValueJoin(r, 0, [a] + Zeros(m) + [b] + Zeros(n), [c]);
    ValueOne(r, w, c);
    PowerPlus(Power(x, r * m + r + r * n), Power(y, r * n), r);
    PowerAdd(x, r * m + r + r * n, r);
    PowerAdd(y, r * n, r);
    assert r * m + r + r * n + r == r * (m + n + 2) && r * n + r == r * (n + 1);
  }

  lemma ProductsNonNegative(r: nat, m: nat, n: nat)
    ensures r * m >= 0 && r * n >= 0 && r * (m + n + 2) >= 0 && r * (n + 1) >= 0
  {
  }

  lemma OneThenZeros(r: nat, x: Element, v: Symbol, n: nat)
    ensures r * n >= 0 && Value(r, x, [v] + Zeros(n)) == Power(Plus(Power(x, r), Embed(v)), r * n)
  {
    hide Value, Power, Plus, Embed;
    ValueJoin(r, x, [v], Zeros(n));
    ValueOne(r, x, v);
    ValueZeros(r, Plus(Power(x, r), Embed(v)), n);
  }

  /** Three coefficients apart with remainder zero are zero. */
  lemma ThreeNonZero(a: Symbol, m: nat, b: Symbol, n: nat, c: Symbol)
    requires m + n + 2 < ORDER && Fold(0, [a] + Zeros(m) + [b] + Zeros(n) + [c]) == 0
    ensures a == 0 && b == 0 && c == 0
  {
    hide Value, Power, Plus, Embed, Fold;
    var s := [a] + Zeros(m) + [b] + Zeros(n) + [c];
    var j, k := m + n + 2, n + 1;
    ValueVanishes(24, s);
    ValueVanishes(25, s);
    ValueVanishes(26, s);
    ThreeValues(24, a, m, b, n, c);
    ThreeValues(25, a, m, b, n, c);
    ThreeValues(26, a, m, b, n, c);
    var x, y := Power(Embed(a), 24 * j), Power(Embed(b), 24 * k);
    PowerAdd(Embed(a), 24 * j, j);
    PowerAdd(Embed(a), 24 * j, 2 * j);
    PowerAdd(Embed(b), 24 * k, k);
    PowerAdd(Embed(b), 24 * k, 2 * k);
    ThreeTerms(x, y, Embed(c), j, k);
    PowerInjective(Embed(a), 0, 24 * j);
    PowerInjective(Embed(b), 0, 24 * k);
    EmbedZero(a);
    EmbedZero(b);
    EmbedZero(c);
  }

  // ----- Errors ----------------------------------------------------------------------------------------------

  /** Two messages differ at most at both ends and at one place between them. */
  ghost predicate DifferAt(x: seq<Symbol>, y: seq<Symbol>, at: nat) {
    0 < at < |x| - 1 && |x| == |y| && forall k :: 0 < k < |x| - 1 && k != at ==> x[k] == y[k]
  }

  lemma DifferenceOfThree(x: seq<Symbol>, y: seq<Symbol>, at: nat)
    requires DifferAt(x, y, at)
    ensures var n := |x| - 1;
            Difference(x, y) == [x[0] ^ y[0]] + Zeros(at - 1) + [x[at] ^ y[at]] + Zeros(n - at - 1) + [x[n] ^ y[n]]
  {
    var n := |x| - 1;
    var d, e := Difference(x, y), [x[0] ^ y[0]] + Zeros(at - 1) + [x[at] ^ y[at]] + Zeros(n - at - 1) + [x[n] ^ y[n]];
    forall k | 0 <= k < |d| ensures d[k] == e[k] {
      SameSymbol(x[k], y[k]);
    }
  }

  /** Two messages that differ in up to three symbols less than 1023 apart have different checksums. */
  lemma ThreeDetected(c: Register, a: seq<Symbol>, x: seq<Symbol>, y: seq<Symbol>, z: seq<Symbol>, at: nat)
    requires DifferAt(x, y, at) && |x| <= ORDER && Fold(c, a + x + z) == Fold(c, a + y + z)
    ensures x == y
  {
    hide Step, Fold, Difference;
    SameMiddle(c, a, x, y, z);
    DifferenceOfThree(x, y, at);
    var n := |x| - 1;
    ThreeNonZero(x[0] ^ y[0], at - 1, x[at] ^ y[at], n - at - 1, x[n] ^ y[n]);
    SameSymbol(x[0], y[0]);
    SameSymbol(x[at], y[at]);
    SameSymbol(x[n], y[n]);
    forall k | 0 <= k < |x| ensures x[k] == y[k] {
    }
  }

  lemma CutOut(s: seq<Symbol>, t: seq<Symbol>, i: nat, j: nat, k: nat)
    requires |s| == |t| && i < j < k < |s|
    requires forall l :: 0 <= l < |s| && l != i && l != j && l != k ==> s[l] == t[l]
    ensures s == s[..i] + s[i..k + 1] + s[k + 1..] && t == s[..i] + t[i..k + 1] + s[k + 1..]
    ensures DifferAt(s[i..k + 1], t[i..k + 1], j - i)
  {
  }

  /** A message with one, two or three changed symbols less than 1023 apart does not verify any more. */
  lemma ThreeErrorsDetected(hrp: string, values: seq<Symbol>, values': seq<Symbol>, i: nat, j: nat, k: nat)
    requires |values| == |values'| && i < j < k < |values| && k - i < ORDER && values != values'
    requires forall l :: 0 <= l < |values| && l != i && l != j && l != k ==> values[l] == values'[l]
    requires Verifies(hrp, values)
    ensures !Verifies(hrp, values')
  {
    hide Fold, Expanded, Verifies, DifferAt;
    var a, x, y, z := values[..i], values[i..k + 1], values'[i..k + 1], values[k + 1..];
    CutOut(values, values', i, j, k);
    VerifiesParts(hrp, a, x, z);
    VerifiesParts(hrp, a, y, z);
    if Verifies(hrp, values') {
      ThreeDetected(1, Expanded(hrp) + a, x, y, z, j - i);
    }
  }

  /** No two strings that decode with the same human-readable part differ in just one, two or three characters
      of the data. */
  lemma NoThreeMistakes(str: string, str': string, hrp: string, values: seq<Symbol>, check: seq<Symbol>,
                        values': seq<Symbol>, check': seq<Symbol>, i: nat, j: nat, k: nat)
    requires Accepts(str, hrp, values, check) && Accepts(str', hrp, values', check') && |values| == |values'|
    requires var m, m' := values + check, values' + check';
             i < j < k < |m| && forall l :: 0 <= l < |m| && l != i && l != j && l != k ==> m[l] == m'[l]
    ensures values == values' && check == check'
  {
    hide Verifies, Charset;
    var m, m' := values + check, values' + check';
    assert |Lower(str)| == |hrp| + 1 + |m|;
    if m != m' {
      ThreeErrorsDetected(hrp, m, m', i, j, k);
    }
    assert values == m[..|values|] && values' == m'[..|values|] && check == m[|values|..] && check' == m'[|values|..];
  }
}
