/** The field of 1024 elements, by multiplication with the powers of a primitive element. */
module GF1024 {
  import Words

  /** The order of the primitive element. */
  const ORDER := 1023

  /** An element of GF(1024): a polynomial in the primitive element, of which the tenth power is the sum of
      its eighth, fifth, first and zeroth. */
  type Element = bv10

  function Plus(a: Element, b: Element): Element { a ^ b }

  lemma PlusLaws(a: Element, b: Element)
    ensures Plus(a, b) == Plus(b, a) && Plus(a, a) == 0 && Plus(a, 0) == a
    ensures Plus(a, b) == 0 <==> a == b
  {
  }

  lemma PlusAssoc(a: Element, b: Element, c: Element)
    ensures Plus(Plus(a, b), c) == Plus(a, Plus(b, c))
  {
  }

  lemma PlusSwap(a: Element, b: Element, c: Element, d: Element)
    ensures Plus(Plus(a, b), Plus(c, d)) == Plus(Plus(a, c), Plus(b, d))
  {
    hide Plus;
    PlusAssoc(a, b, Plus(c, d));
    PlusAssoc(b, c, d);
    PlusLaws(b, c);
    PlusAssoc(c, b, d);
    PlusAssoc(a, c, Plus(b, d));
  }

  function Shift(w: Element): Element { w << 1 }

  predicate HasTop(w: Element) { w & 0x200 != 0 }

  function Feedback(top: bool): Element { if top then 0x123 else 0 }

  /** Multiplication by the primitive element. */
  function Times(w: Element): Element {
    Plus(Shift(w), Feedback(HasTop(w)))
  }

  lemma PartsPlus(a: Element, b: Element)
    ensures Shift(Plus(a, b)) == Plus(Shift(a), Shift(b)) && HasTop(Plus(a, b)) == (HasTop(a) != HasTop(b))
  {
  }

  lemma FeedbackPlus(s: bool, t: bool)
    ensures Feedback(s != t) == Plus(Feedback(s), Feedback(t))
  {
  }

  lemma TimesPlus(a: Element, b: Element)
    ensures Times(Plus(a, b)) == Plus(Times(a), Times(b))
  {
    hide Plus, Shift, HasTop, Feedback;
    PartsPlus(a, b);
    FeedbackPlus(HasTop(a), HasTop(b));
    PlusSwap(Shift(a), Shift(b), Feedback(HasTop(a)), Feedback(HasTop(b)));
  }

  lemma TimesInjective(a: Element, b: Element)
    ensures Times(a) == Times(b) ==> a == b
    ensures Times(0) == 0
  {
  }

  /** Multiplication by a power of the primitive element. */
  ghost function Power(w: Element, n: nat): Element {
    if n == 0 then w else Times(Power(w, n - 1))
  }

  lemma {:induction false} PowerAdd(w: Element, m: nat, n: nat)
    ensures Power(Power(w, m), n) == Power(w, m + n)
    decreases n
  {
    hide Times;
    if n > 0 { PowerAdd(w, m, n - 1); }
  }

  lemma {:induction false} PowerPlus(a: Element, b: Element, n: nat)
    ensures Power(Plus(a, b), n) == Plus(Power(a, n), Power(b, n))
  {
    hide Times, Plus;
    if n > 0 {
      PowerPlus(a, b, n - 1);
      TimesPlus(Power(a, n - 1), Power(b, n - 1));
    }
  }

  lemma {:induction false} PowerInjective(a: Element, b: Element, n: nat)
    ensures Power(a, n) == Power(b, n) ==> a == b
    ensures Power(0, n) == 0
  {
    hide Times;
    if n > 0 {
      TimesInjective(Power(a, n - 1), Power(b, n - 1));
      PowerInjective(a, b, n - 1);
    }
  }

  // ----- Powers as linear maps -------------------------------------------------------------------------------

  function Pick(w: Element, bit: Element, c: Element): Element { if w & bit != 0 then c else 0 }

  /** The sum of the given elements that the bits of `w` choose. */
  function Sum(w: Element, c0: Element, c1: Element, c2: Element, c3: Element, c4: Element,
               c5: Element, c6: Element, c7: Element, c8: Element, c9: Element): Element {
    Plus(Sum5(w, 0x001, c0, 0x002, c1, 0x004, c2, 0x008, c3, 0x010, c4),
         Sum5(w, 0x020, c5, 0x040, c6, 0x080, c7, 0x100, c8, 0x200, c9))
  }

  function Sum5(w: Element, b0: Element, c0: Element, b1: Element, c1: Element, b2: Element, c2: Element,
                b3: Element, c3: Element, b4: Element, c4: Element): Element {
    Plus(Plus(Plus(Pick(w, b0, c0), Pick(w, b1, c1)), Plus(Pick(w, b2, c2), Pick(w, b3, c3))), Pick(w, b4, c4))
  }

  /** Every element is the sum of the powers of two in it. */
  lemma Decomposed(w: Element)
    ensures w == Sum(w, 0x001, 0x002, 0x004, 0x008, 0x010, 0x020, 0x040, 0x080, 0x100, 0x200)
  {
  }

  lemma PowerPick(w: Element, bit: Element, c: Element, n: nat)
    ensures Power(Pick(w, bit, c), n) == Pick(w, bit, Power(c, n))
  {
    hide Power;
    PowerInjective(0, 0, n);
  }

  lemma PowerSum5(w: Element, b0: Element, c0: Element, b1: Element, c1: Element, b2: Element, c2: Element,
                  b3: Element, c3: Element, b4: Element, c4: Element, n: nat)
    ensures Power(Sum5(w, b0, c0, b1, c1, b2, c2, b3, c3, b4, c4), n)
            == Sum5(w, b0, Power(c0, n), b1, Power(c1, n), b2, Power(c2, n), b3, Power(c3, n), b4, Power(c4, n))
  {
    hide Power, Pick, Plus;
    var p0, p1, p2, p3, p4 := Pick(w, b0, c0), Pick(w, b1, c1), Pick(w, b2, c2), Pick(w, b3, c3), Pick(w, b4, c4);
    PowerPick(w, b0, c0, n);
    PowerPick(w, b1, c1, n);
    PowerPick(w, b2, c2, n);
    PowerPick(w, b3, c3, n);
    PowerPick(w, b4, c4, n);
    PowerPlus(p0, p1, n);
    PowerPlus(p2, p3, n);
    PowerPlus(Plus(p0, p1), Plus(p2, p3), n);
    PowerPlus(Plus(Plus(p0, p1), Plus(p2, p3)), p4, n);
  }

  /** A power is known by ten consecutive powers of one. */
  lemma PowerSum(w: Element, n: nat)
    ensures Power(w, n) == Sum(w, Power(1, n), Power(1, n + 1), Power(1, n + 2), Power(1, n + 3), Power(1, n + 4),
                               Power(1, n + 5), Power(1, n + 6), Power(1, n + 7), Power(1, n + 8), Power(1, n + 9))
  {
    hide Power, Sum5, Plus;
    Decomposed(w);
    PowerPlus(Sum5(w, 0x001, 0x001, 0x002, 0x002, 0x004, 0x004, 0x008, 0x008, 0x010, 0x010),
              Sum5(w, 0x020, 0x020, 0x040, 0x040, 0x080, 0x080, 0x100, 0x100, 0x200, 0x200), n);
    PowerSum5(w, 0x001, 0x001, 0x002, 0x002, 0x004, 0x004, 0x008, 0x008, 0x010, 0x010, n);
    PowerSum5(w, 0x020, 0x020, 0x040, 0x040, 0x080, 0x080, 0x100, 0x100, 0x200, 0x200, n);
    Block0();
    PowerAdd(1, 1, n);
    PowerAdd(1, 2, n);
    PowerAdd(1, 3, n);
    PowerAdd(1, 4, n);
    PowerAdd(1, 5, n);
    PowerAdd(1, 6, n);
    PowerAdd(1, 7, n);
    PowerAdd(1, 8, n);
    PowerAdd(1, 9, n);
  }

  // ----- Values of powers --------------------------------------------------------------------------------------

  lemma Next(m: nat, a: Element, b: Element)
    requires Power(1, m) == a && Times(a) == b
    ensures Power(1, m + 1) == b
  {
    hide Times;
  }

  lemma PowerNone()
    ensures Power(1, 0) == 1
  {
  }

  lemma Block0()
    ensures Power(1, 0) == 0x001 && Power(1, 1) == 0x002 && Power(1, 2) == 0x004 && Power(1, 3) == 0x008
            && Power(1, 4) == 0x010
    ensures Power(1, 5) == 0x020 && Power(1, 6) == 0x040 && Power(1, 7) == 0x080 && Power(1, 8) == 0x100
            && Power(1, 9) == 0x200
  {
    hide Power;
    PowerNone();
    Next(0, 0x001, 0x002);
    Next(1, 0x002, 0x004);
    Next(2, 0x004, 0x008);
    Next(3, 0x008, 0x010);
    Next(4, 0x010, 0x020);
    Next(5, 0x020, 0x040);
    Next(6, 0x040, 0x080);
    Next(7, 0x080, 0x100);
    Next(8, 0x100, 0x200);
  }

  lemma Block8()
    ensures Power(1, 8) == 0x100 && Power(1, 9) == 0x200 && Power(1, 10) == 0x123 && Power(1, 11) == 0x246
            && Power(1, 12) == 0x1af
    ensures Power(1, 13) == 0x35e && Power(1, 14) == 0x39f && Power(1, 15) == 0x21d && Power(1, 16) == 0x119
            && Power(1, 17) == 0x232
  {
    hide Power;
    Block0();
    Next(9, 0x200, 0x123);
    Next(10, 0x123, 0x246);
    Next(11, 0x246, 0x1af);
    Next(12, 0x1af, 0x35e);
    Next(13, 0x35e, 0x39f);
    Next(14, 0x39f, 0x21d);
    Next(15, 0x21d, 0x119);
    Next(16, 0x119, 0x232);
  }

  lemma Block1()
    ensures Power(1, 1) == 0x002 && Power(1, 2) == 0x004 && Power(1, 3) == 0x008 && Power(1, 4) == 0x010
            && Power(1, 5) == 0x020
    ensures Power(1, 6) == 0x040 && Power(1, 7) == 0x080 && Power(1, 8) == 0x100 && Power(1, 9) == 0x200
            && Power(1, 10) == 0x123
  {
    hide Power;
    Block0();
    Block8();
  }

  lemma Block2()
    ensures Power(1, 2) == 0x004 && Power(1, 3) == 0x008 && Power(1, 4) == 0x010 && Power(1, 5) == 0x020
            && Power(1, 6) == 0x040
    ensures Power(1, 7) == 0x080 && Power(1, 8) == 0x100 && Power(1, 9) == 0x200 && Power(1, 10) == 0x123
            && Power(1, 11) == 0x246
  {
    hide Power;
    Block0();
    Block8();
  }

  lemma Block5()
    ensures Power(1, 5) == 0x020 && Power(1, 6) == 0x040 && Power(1, 7) == 0x080 && Power(1, 8) == 0x100
            && Power(1, 9) == 0x200
    ensures Power(1, 10) == 0x123 && Power(1, 11) == 0x246 && Power(1, 12) == 0x1af && Power(1, 13) == 0x35e
            && Power(1, 14) == 0x39f
  {
    hide Power;
    Block0();
    Block8();
  }

  function Scale8(w: Element): Element {
    Sum(w, 0x100, 0x200, 0x123, 0x246, 0x1af, 0x35e, 0x39f, 0x21d, 0x119, 0x232)
  }

  lemma Scale8Is(w: Element)
    ensures Power(w, 8) == Scale8(w)
  {
    hide Power, Sum;
    Block8();
    PowerSum(w, 8);
  }

  lemma Scaled8(m: nat, a: Element, b: Element)
    requires Power(1, m) == a && Scale8(a) == b
    ensures Power(1, m + 8) == b
  {
    hide Power, Scale8;
    PowerAdd(1, m, 8);
    Scale8Is(a);
  }

  lemma Block16()
    ensures Power(1, 16) == 0x119 && Power(1, 17) == 0x232 && Power(1, 18) == 0x147 && Power(1, 19) == 0x28e
            && Power(1, 20) == 0x03f
    ensures Power(1, 21) == 0x07e && Power(1, 22) == 0x0fc && Power(1, 23) == 0x1f8 && Power(1, 24) == 0x3f0
            && Power(1, 25) == 0x2c3
  {
    hide Power;
    Block8();
    Scaled8(8, 0x100, 0x119);
    Scaled8(9, 0x200, 0x232);
    Scaled8(10, 0x123, 0x147);
    Scaled8(11, 0x246, 0x28e);
    Scaled8(12, 0x1af, 0x03f);
    Scaled8(13, 0x35e, 0x07e);
    Scaled8(14, 0x39f, 0x0fc);
    Scaled8(15, 0x21d, 0x1f8);
    Scaled8(16, 0x119, 0x3f0);
    Scaled8(17, 0x232, 0x2c3);
  }

  function Scale16(w: Element): Element {
    Sum(w, 0x119, 0x232, 0x147, 0x28e, 0x03f, 0x07e, 0x0fc, 0x1f8, 0x3f0, 0x2c3)
  }

  lemma Scale16Is(w: Element)
    ensures Power(w, 16) == Scale16(w)
  {
    hide Power, Sum;
    Block16();
    PowerSum(w, 16);
  }

  lemma Scaled16(m: nat, a: Element, b: Element)
    requires Power(1, m) == a && Scale16(a) == b
    ensures Power(1, m + 16) == b
  {
    hide Power, Scale16;
    PowerAdd(1, m, 16);
    Scale16Is(a);
  }

  lemma Block24()
    ensures Power(1, 24) == 0x3f0 && Power(1, 25) == 0x2c3 && Power(1, 26) == 0x0a5 && Power(1, 27) == 0x14a
            && Power(1, 28) == 0x294
    ensures Power(1, 29) == 0x00b && Power(1, 30) == 0x016 && Power(1, 31) == 0x02c && Power(1, 32) == 0x058
            && Power(1, 33) == 0x0b0
  {
    hide Power;
    Block8();
    Scaled16(8, 0x100, 0x3f0);
    Scaled16(9, 0x200, 0x2c3);
    Scaled16(10, 0x123, 0x0a5);
    Scaled16(11, 0x246, 0x14a);
    Scaled16(12, 0x1af, 0x294);
    Scaled16(13, 0x35e, 0x00b);
    Scaled16(14, 0x39f, 0x016);
    Scaled16(15, 0x21d, 0x02c);
    Scaled16(16, 0x119, 0x058);
    Scaled16(17, 0x232, 0x0b0);
  }

  function Scale24(w: Element): Element {
    Sum(w, 0x3f0, 0x2c3, 0x0a5, 0x14a, 0x294, 0x00b, 0x016, 0x02c, 0x058, 0x0b0)
  }

  lemma Scale24Is(w: Element)
    ensures Power(w, 24) == Scale24(w)
  {
    hide Power, Sum;
    Block24();
    PowerSum(w, 24);
  }

  lemma Scaled24(m: nat, a: Element, b: Element)
    requires Power(1, m) == a && Scale24(a) == b
    ensures Power(1, m + 24) == b
  {
    hide Power, Scale24;
    PowerAdd(1, m, 24);
    Scale24Is(a);
  }

  lemma Block25()
    ensures Power(1, 25) == 0x2c3 && Power(1, 26) == 0x0a5 && Power(1, 27) == 0x14a && Power(1, 28) == 0x294
            && Power(1, 29) == 0x00b
    ensures Power(1, 30) == 0x016 && Power(1, 31) == 0x02c && Power(1, 32) == 0x058 && Power(1, 33) == 0x0b0
            && Power(1, 34) == 0x160
  {
    hide Power;
    Block1();
    Scaled24(1, 0x002, 0x2c3);
    Scaled24(2, 0x004, 0x0a5);
    Scaled24(3, 0x008, 0x14a);
    Scaled24(4, 0x010, 0x294);
    Scaled24(5, 0x020, 0x00b);
    Scaled24(6, 0x040, 0x016);
    Scaled24(7, 0x080, 0x02c);
    Scaled24(8, 0x100, 0x058);
    Scaled24(9, 0x200, 0x0b0);
    Scaled24(10, 0x123, 0x160);
  }

  function Scale25(w: Element): Element {
    Sum(w, 0x2c3, 0x0a5, 0x14a, 0x294, 0x00b, 0x016, 0x02c, 0x058, 0x0b0, 0x160)
  }

  lemma Scale25Is(w: Element)
    ensures Power(w, 25) == Scale25(w)
  {
    hide Power, Sum;
    Block25();
    PowerSum(w, 25);
  }

  lemma Block26()
    ensures Power(1, 26) == 0x0a5 && Power(1, 27) == 0x14a && Power(1, 28) == 0x294 && Power(1, 29) == 0x00b
            && Power(1, 30) == 0x016
    ensures Power(1, 31) == 0x02c && Power(1, 32) == 0x058 && Power(1, 33) == 0x0b0 && Power(1, 34) == 0x160
            && Power(1, 35) == 0x2c0
  {
    hide Power;
    Block2();
    Scaled24(2, 0x004, 0x0a5);
    Scaled24(3, 0x008, 0x14a);
    Scaled24(4, 0x010, 0x294);
    Scaled24(5, 0x020, 0x00b);
    Scaled24(6, 0x040, 0x016);
    Scaled24(7, 0x080, 0x02c);
    Scaled24(8, 0x100, 0x058);
    Scaled24(9, 0x200, 0x0b0);
    Scaled24(10, 0x123, 0x160);
    Scaled24(11, 0x246, 0x2c0);
  }

  function Scale26(w: Element): Element {
    Sum(w, 0x0a5, 0x14a, 0x294, 0x00b, 0x016, 0x02c, 0x058, 0x0b0, 0x160, 0x2c0)
  }

  lemma Scale26Is(w: Element)
    ensures Power(w, 26) == Scale26(w)
  {
    hide Power, Sum;
    Block26();
    PowerSum(w, 26);
  }

  lemma Block32()
    ensures Power(1, 32) == 0x058 && Power(1, 33) == 0x0b0 && Power(1, 34) == 0x160 && Power(1, 35) == 0x2c0
            && Power(1, 36) == 0x0a3
    ensures Power(1, 37) == 0x146 && Power(1, 38) == 0x28c && Power(1, 39) == 0x03b && Power(1, 40) == 0x076
            && Power(1, 41) == 0x0ec
  {
    hide Power;
    Block16();
    Scaled16(16, 0x119, 0x058);
    Scaled16(17, 0x232, 0x0b0);
    Scaled16(18, 0x147, 0x160);
    Scaled16(19, 0x28e, 0x2c0);
    Scaled16(20, 0x03f, 0x0a3);
    Scaled16(21, 0x07e, 0x146);
    Scaled16(22, 0x0fc, 0x28c);
    Scaled16(23, 0x1f8, 0x03b);
    Scaled16(24, 0x3f0, 0x076);
    Scaled16(25, 0x2c3, 0x0ec);
  }

  function Scale32(w: Element): Element {
    Sum(w, 0x058, 0x0b0, 0x160, 0x2c0, 0x0a3, 0x146, 0x28c, 0x03b, 0x076, 0x0ec)
  }

  lemma Scale32Is(w: Element)
    ensures Power(w, 32) == Scale32(w)
  {
    hide Power, Sum;
    Block32();
    PowerSum(w, 32);
  }

  lemma Scaled32(m: nat, a: Element, b: Element)
    requires Power(1, m) == a && Scale32(a) == b
    ensures Power(1, m + 32) == b
  {
    hide Power, Scale32;
    PowerAdd(1, m, 32);
    Scale32Is(a);
  }

  lemma Block33()
    ensures Power(1, 33) == 0x0b0 && Power(1, 34) == 0x160 && Power(1, 35) == 0x2c0 && Power(1, 36) == 0x0a3
            && Power(1, 37) == 0x146
    ensures Power(1, 38) == 0x28c && Power(1, 39) == 0x03b && Power(1, 40) == 0x076 && Power(1, 41) == 0x0ec
            && Power(1, 42) == 0x1d8
  {
    hide Power;
    Block1();
    Scaled32(1, 0x002, 0x0b0);
    Scaled32(2, 0x004, 0x160);
    Scaled32(3, 0x008, 0x2c0);
    Scaled32(4, 0x010, 0x0a3);
    Scaled32(5, 0x020, 0x146);
    Scaled32(6, 0x040, 0x28c);
    Scaled32(7, 0x080, 0x03b);
    Scaled32(8, 0x100, 0x076);
    Scaled32(9, 0x200, 0x0ec);
    Scaled32(10, 0x123, 0x1d8);
  }

  function Scale33(w: Element): Element {
    Sum(w, 0x0b0, 0x160, 0x2c0, 0x0a3, 0x146, 0x28c, 0x03b, 0x076, 0x0ec, 0x1d8)
  }

  lemma Scale33Is(w: Element)
    ensures Power(w, 33) == Scale33(w)
  {
    hide Power, Sum;
    Block33();
    PowerSum(w, 33);
  }

  lemma Block64()
    ensures Power(1, 64) == 0x0ef && Power(1, 65) == 0x1de && Power(1, 66) == 0x3bc && Power(1, 67) == 0x25b
            && Power(1, 68) == 0x195
    ensures Power(1, 69) == 0x32a && Power(1, 70) == 0x377 && Power(1, 71) == 0x3cd && Power(1, 72) == 0x2b9
            && Power(1, 73) == 0x051
  {
    hide Power;
    Block32();
    Scaled32(32, 0x058, 0x0ef);
    Scaled32(33, 0x0b0, 0x1de);
    Scaled32(34, 0x160, 0x3bc);
    Scaled32(35, 0x2c0, 0x25b);
    Scaled32(36, 0x0a3, 0x195);
    Scaled32(37, 0x146, 0x32a);
    Scaled32(38, 0x28c, 0x377);
    Scaled32(39, 0x03b, 0x3cd);
    Scaled32(40, 0x076, 0x2b9);
    Scaled32(41, 0x0ec, 0x051);
  }

  function Scale64(w: Element): Element {
    Sum(w, 0x0ef, 0x1de, 0x3bc, 0x25b, 0x195, 0x32a, 0x377, 0x3cd, 0x2b9, 0x051)
  }

  lemma Scale64Is(w: Element)
    ensures Power(w, 64) == Scale64(w)
  {
    hide Power, Sum;
    Block64();
    PowerSum(w, 64);
  }

  lemma Scaled64(m: nat, a: Element, b: Element)
    requires Power(1, m) == a && Scale64(a) == b
    ensures Power(1, m + 64) == b
  {
    hide Power, Scale64;
    PowerAdd(1, m, 64);
    Scale64Is(a);
  }

  lemma Block88()
    ensures Power(1, 88) == 0x0ed && Power(1, 89) == 0x1da && Power(1, 90) == 0x3b4 && Power(1, 91) == 0x24b
            && Power(1, 92) == 0x1b5
    ensures Power(1, 93) == 0x36a && Power(1, 94) == 0x3f7 && Power(1, 95) == 0x2cd && Power(1, 96) == 0x0b9
            && Power(1, 97) == 0x172
  {
    hide Power;
    Block24();
    Scaled64(24, 0x3f0, 0x0ed);
    Scaled64(25, 0x2c3, 0x1da);
    Scaled64(26, 0x0a5, 0x3b4);
    Scaled64(27, 0x14a, 0x24b);
    Scaled64(28, 0x294, 0x1b5);
    Scaled64(29, 0x00b, 0x36a);
    Scaled64(30, 0x016, 0x3f7);
    Scaled64(31, 0x02c, 0x2cd);
    Scaled64(32, 0x058, 0x0b9);
    Scaled64(33, 0x0b0, 0x172);
  }

  function Scale88(w: Element): Element {
    Sum(w, 0x0ed, 0x1da, 0x3b4, 0x24b, 0x1b5, 0x36a, 0x3f7, 0x2cd, 0x0b9, 0x172)
  }

  lemma Scale88Is(w: Element)
    ensures Power(w, 88) == Scale88(w)
  {
    hide Power, Sum;
    Block88();
    PowerSum(w, 88);
  }

  lemma Scaled88(m: nat, a: Element, b: Element)
    requires Power(1, m) == a && Scale88(a) == b
    ensures Power(1, m + 88) == b
  {
    hide Power, Scale88;
    PowerAdd(1, m, 88);
    Scale88Is(a);
  }

  lemma Block93()
    ensures Power(1, 93) == 0x36a && Power(1, 94) == 0x3f7 && Power(1, 95) == 0x2cd && Power(1, 96) == 0x0b9
            && Power(1, 97) == 0x172
    ensures Power(1, 98) == 0x2e4 && Power(1, 99) == 0x0eb && Power(1, 100) == 0x1d6 && Power(1, 101) == 0x3ac
            && Power(1, 102) == 0x27b
  {
    hide Power;
    Block5();
    Scaled88(5, 0x020, 0x36a);
    Scaled88(6, 0x040, 0x3f7);
    Scaled88(7, 0x080, 0x2cd);
    Scaled88(8, 0x100, 0x0b9);
    Scaled88(9, 0x200, 0x172);
    Scaled88(10, 0x123, 0x2e4);
    Scaled88(11, 0x246, 0x0eb);
    Scaled88(12, 0x1af, 0x1d6);
    Scaled88(13, 0x35e, 0x3ac);
    Scaled88(14, 0x39f, 0x27b);
  }

  function Scale93(w: Element): Element {
    Sum(w, 0x36a, 0x3f7, 0x2cd, 0x0b9, 0x172, 0x2e4, 0x0eb, 0x1d6, 0x3ac, 0x27b)
  }

  lemma Scale93Is(w: Element)
    ensures Power(w, 93) == Scale93(w)
  {
    hide Power, Sum;
    Block93();
    PowerSum(w, 93);
  }

  lemma Block21()
    ensures Power(1, 21) == 0x07e && Power(1, 22) == 0x0fc && Power(1, 23) == 0x1f8 && Power(1, 24) == 0x3f0
            && Power(1, 25) == 0x2c3
    ensures Power(1, 26) == 0x0a5 && Power(1, 27) == 0x14a && Power(1, 28) == 0x294 && Power(1, 29) == 0x00b
            && Power(1, 30) == 0x016
  {
    hide Power;
    Block5();
    Scaled16(5, 0x020, 0x07e);
    Scaled16(6, 0x040, 0x0fc);
    Scaled16(7, 0x080, 0x1f8);
    Scaled16(8, 0x100, 0x3f0);
    Scaled16(9, 0x200, 0x2c3);
    Scaled16(10, 0x123, 0x0a5);
    Scaled16(11, 0x246, 0x14a);
    Scaled16(12, 0x1af, 0x294);
    Scaled16(13, 0x35e, 0x00b);
    Scaled16(14, 0x39f, 0x016);
  }

  lemma Block85()
    ensures Power(1, 85) == 0x1f1 && Power(1, 86) == 0x3e2 && Power(1, 87) == 0x2e7 && Power(1, 88) == 0x0ed
            && Power(1, 89) == 0x1da
    ensures Power(1, 90) == 0x3b4 && Power(1, 91) == 0x24b && Power(1, 92) == 0x1b5 && Power(1, 93) == 0x36a
            && Power(1, 94) == 0x3f7
  {
    hide Power;
    Block21();
    Scaled64(21, 0x07e, 0x1f1);
    Scaled64(22, 0x0fc, 0x3e2);
    Scaled64(23, 0x1f8, 0x2e7);
    Scaled64(24, 0x3f0, 0x0ed);
    Scaled64(25, 0x2c3, 0x1da);
    Scaled64(26, 0x0a5, 0x3b4);
    Scaled64(27, 0x14a, 0x24b);
    Scaled64(28, 0x294, 0x1b5);
    Scaled64(29, 0x00b, 0x36a);
    Scaled64(30, 0x016, 0x3f7);
  }

  lemma Block128()
    ensures Power(1, 128) == 0x346 && Power(1, 129) == 0x3af && Power(1, 130) == 0x27d && Power(1, 131) == 0x1d9
            && Power(1, 132) == 0x3b2
    ensures Power(1, 133) == 0x247 && Power(1, 134) == 0x1ad && Power(1, 135) == 0x35a && Power(1, 136) == 0x397
            && Power(1, 137) == 0x20d
  {
    hide Power;
    Block64();
    Scaled64(64, 0x0ef, 0x346);
    Scaled64(65, 0x1de, 0x3af);
    Scaled64(66, 0x3bc, 0x27d);
    Scaled64(67, 0x25b, 0x1d9);
    Scaled64(68, 0x195, 0x3b2);
    Scaled64(69, 0x32a, 0x247);
    Scaled64(70, 0x377, 0x1ad);
    Scaled64(71, 0x3cd, 0x35a);
    Scaled64(72, 0x2b9, 0x397);
    Scaled64(73, 0x051, 0x20d);
  }

  function Scale128(w: Element): Element {
    Sum(w, 0x346, 0x3af, 0x27d, 0x1d9, 0x3b2, 0x247, 0x1ad, 0x35a, 0x397, 0x20d)
  }

  lemma Scale128Is(w: Element)
    ensures Power(w, 128) == Scale128(w)
  {
    hide Power, Sum;
    Block128();
    PowerSum(w, 128);
  }

  lemma Scaled128(m: nat, a: Element, b: Element)
    requires Power(1, m) == a && Scale128(a) == b
    ensures Power(1, m + 128) == b
  {
    hide Power, Scale128;
    PowerAdd(1, m, 128);
    Scale128Is(a);
  }

  lemma Block256()
    ensures Power(1, 256) == 0x1e5 && Power(1, 257) == 0x3ca && Power(1, 258) == 0x2b7 && Power(1, 259) == 0x04d
            && Power(1, 260) == 0x09a
    ensures Power(1, 261) == 0x134 && Power(1, 262) == 0x268 && Power(1, 263) == 0x1f3 && Power(1, 264) == 0x3e6
            && Power(1, 265) == 0x2ef
  {
    hide Power;
    Block128();
    Scaled128(128, 0x346, 0x1e5);
    Scaled128(129, 0x3af, 0x3ca);
    Scaled128(130, 0x27d, 0x2b7);
    Scaled128(131, 0x1d9, 0x04d);
    Scaled128(132, 0x3b2, 0x09a);
    Scaled128(133, 0x247, 0x134);
    Scaled128(134, 0x1ad, 0x268);
    Scaled128(135, 0x35a, 0x1f3);
    Scaled128(136, 0x397, 0x3e6);
    Scaled128(137, 0x20d, 0x2ef);
  }

  function Scale256(w: Element): Element {
    Sum(w, 0x1e5, 0x3ca, 0x2b7, 0x04d, 0x09a, 0x134, 0x268, 0x1f3, 0x3e6, 0x2ef)
  }

  lemma Scale256Is(w: Element)
    ensures Power(w, 256) == Scale256(w)
  {
    hide Power, Sum;
    Block256();
    PowerSum(w, 256);
  }

  lemma Scaled256(m: nat, a: Element, b: Element)
    requires Power(1, m) == a && Scale256(a) == b
    ensures Power(1, m + 256) == b
  {
    hide Power, Scale256;
    PowerAdd(1, m, 256);
    Scale256Is(a);
  }

  lemma Block341()
    ensures Power(1, 341) == 0x036 && Power(1, 342) == 0x06c && Power(1, 343) == 0x0d8 && Power(1, 344) == 0x1b0
            && Power(1, 345) == 0x360
    ensures Power(1, 346) == 0x3e3 && Power(1, 347) == 0x2e5 && Power(1, 348) == 0x0e9 && Power(1, 349) == 0x1d2
            && Power(1, 350) == 0x3a4
  {
    hide Power;
    Block85();
    Scaled256(85, 0x1f1, 0x036);
    Scaled256(86, 0x3e2, 0x06c);
    Scaled256(87, 0x2e7, 0x0d8);
    Scaled256(88, 0x0ed, 0x1b0);
    Scaled256(89, 0x1da, 0x360);
    Scaled256(90, 0x3b4, 0x3e3);
    Scaled256(91, 0x24b, 0x2e5);
    Scaled256(92, 0x1b5, 0x0e9);
    Scaled256(93, 0x36a, 0x1d2);
    Scaled256(94, 0x3f7, 0x3a4);
  }

  function Scale341(w: Element): Element {
    Sum(w, 0x036, 0x06c, 0x0d8, 0x1b0, 0x360, 0x3e3, 0x2e5, 0x0e9, 0x1d2, 0x3a4)
  }

  lemma Scale341Is(w: Element)
    ensures Power(w, 341) == Scale341(w)
  {
    hide Power, Sum;
    Block341();
    PowerSum(w, 341);
  }

  lemma Scaled341(m: nat, a: Element, b: Element)
    requires Power(1, m) == a && Scale341(a) == b
    ensures Power(1, m + 341) == b
  {
    hide Power, Scale341;
    PowerAdd(1, m, 341);
    Scale341Is(a);
  }

  lemma Block682()
    ensures Power(1, 682) == 0x037 && Power(1, 683) == 0x06e && Power(1, 684) == 0x0dc && Power(1, 685) == 0x1b8
            && Power(1, 686) == 0x370
    ensures Power(1, 687) == 0x3c3 && Power(1, 688) == 0x2a5 && Power(1, 689) == 0x069 && Power(1, 690) == 0x0d2
            && Power(1, 691) == 0x1a4
  {
    hide Power;
    Block341();
    Scaled341(341, 0x036, 0x037);
    Scaled341(342, 0x06c, 0x06e);
    Scaled341(343, 0x0d8, 0x0dc);
    Scaled341(344, 0x1b0, 0x1b8);
    Scaled341(345, 0x360, 0x370);
    Scaled341(346, 0x3e3, 0x3c3);
    Scaled341(347, 0x2e5, 0x2a5);
    Scaled341(348, 0x0e9, 0x069);
    Scaled341(349, 0x1d2, 0x0d2);
    Scaled341(350, 0x3a4, 0x1a4);
  }

  lemma Block1023()
    ensures Power(1, 1023) == 0x001 && Power(1, 1024) == 0x002 && Power(1, 1025) == 0x004 && Power(1, 1026) == 0x008
            && Power(1, 1027) == 0x010
    ensures Power(1, 1028) == 0x020 && Power(1, 1029) == 0x040 && Power(1, 1030) == 0x080 && Power(1, 1031) == 0x100
            && Power(1, 1032) == 0x200
  {
    hide Power;
    Block682();
    Scaled341(682, 0x037, 0x001);
    Scaled341(683, 0x06e, 0x002);
    Scaled341(684, 0x0dc, 0x004);
    Scaled341(685, 0x1b8, 0x008);
    Scaled341(686, 0x370, 0x010);
    Scaled341(687, 0x3c3, 0x020);
    Scaled341(688, 0x2a5, 0x040);
    Scaled341(689, 0x069, 0x080);
    Scaled341(690, 0x0d2, 0x100);
    Scaled341(691, 0x1a4, 0x200);
  }

  // ----- The order of the primitive element ----------------------------------------------------------------------

  lemma FullTurn(w: Element)
    ensures Power(w, ORDER) == w
  {
    hide Power, Sum;
    Block1023();
    PowerSum(w, ORDER);
    Decomposed(w);
  }

  lemma NoThirdTurn(w: Element)
    ensures Scale341(w) == w ==> w == 0
  {
  }

  lemma NoEleventhTurn(w: Element)
    ensures Scale93(w) == w ==> w == 0
  {
  }

  lemma NoThirtyFirstTurn(w: Element)
    ensures Scale33(w) == w ==> w == 0
  {
  }

  lemma {:induction false} Turns(w: Element, n: nat, times: nat)
    requires Power(w, n) == w
    ensures n * times >= 0 && Power(w, n * times) == w
    decreases times
  {
    hide Power;
    if times == 0 {
      PowerZero(w);
    } else {
      Turns(w, n, times - 1);
      PowerAdd(w, n * (times - 1), n);
      assert n * (times - 1) + n == n * times;
    }
  }

  lemma PowerZero(w: Element)
    ensures Power(w, 0) == w
  {
  }

  /** If `n` turns fix an element and `n * t` leaves remainder one modulo `p`, so does the p-th part of a full turn. */
  lemma PartOfTurn(w: Element, n: nat, t: nat, p: nat, part: nat, u: nat)
    requires Power(w, n) == w && p * part == ORDER && n * t == p * u + 1
    ensures Power(w, part) == w
  {
    hide Power;
    Turns(w, n, t);
    Turns(w, n * t, part);
    FullTurn(w);
    Turns(w, ORDER, u);
    assert (n * t) * part == (p * u + 1) * part == ORDER * u + part by {
      assert (p * u) * part == (p * part) * u;
    }
    PowerAdd(w, ORDER * u, part);
  }

  function Inverse11(j: nat): nat {
    if j == 1 then 1 else if j == 2 then 6 else if j == 3 then 4 else if j == 4 then 3 else if j == 5 then 9
    else if j == 6 then 2 else if j == 7 then 8 else if j == 8 then 7 else if j == 9 then 5 else 10
  }

  function Inverse31(j: nat): nat {
    if j == 1 then 1 else if j == 2 then 16 else if j == 3 then 21 else if j == 4 then 8 else if j == 5 then 25
    else if j == 6 then 26 else if j == 7 then 9 else if j == 8 then 4 else if j == 9 then 7 else if j == 10
    then 28 else if j == 11 then 17 else if j == 12 then 13 else if j == 13 then 12 else if j == 14 then 20 else
    if j == 15 then 29 else if j == 16 then 2 else if j == 17 then 11 else if j == 18 then 19 else if j == 19
    then 18 else if j == 20 then 14 else if j == 21 then 3 else if j == 22 then 24 else if j == 23 then 27 else
    if j == 24 then 22 else if j == 25 then 5 else if j == 26 then 6 else if j == 27 then 23 else if j == 28
    then 10 else if j == 29 then 15 else 30
  }

  lemma Inverses11(j: nat)
    requires 0 < j < 11
    ensures (j * Inverse11(j)) % 11 == 1
  {
  }

  lemma Inverses31(j: nat)
    requires 0 < j < 31
    ensures (j * Inverse31(j)) % 31 == 1
  {
    if j < 16 { LowInverses31(j); } else { HighInverses31(j); }
  }

  lemma LowInverses31(j: nat)
    requires 0 < j < 16
    ensures (j * Inverse31(j)) % 31 == 1
  {
  }

  lemma HighInverses31(j: nat)
    requires 16 <= j < 31
    ensures (j * Inverse31(j)) % 31 == 1
  {
  }

  lemma Invert(n: nat, p: nat, t: nat) returns (u: nat)
    requires p > 1 && ((n % p) * t) % p == 1
    ensures n * t == p * u + 1
  {
    var q, j := n / p, n % p;
    var s := (j * t) / p;
    assert n * t == (p * q + j) * t == p * (q * t) + j * t;
    assert j * t == p * s + 1;
    assert p * (q * t) + p * s == p * (q * t + s);
    Words.NonNegative(q, t);
    Words.NonNegative(j, t);
    u := q * t + s;
  }

  lemma NotByThree(w: Element, n: nat)
    requires n % 3 != 0 && Power(w, n) == w
    ensures w == 0
  {
    hide Power, Sum;
    var u := Invert(n, 3, n % 3);
    PartOfTurn(w, n, n % 3, 3, 341, u);
    Scale341Is(w);
    NoThirdTurn(w);
  }

  lemma NotByEleven(w: Element, n: nat)
    requires n % 11 != 0 && Power(w, n) == w
    ensures w == 0
  {
    hide Power, Sum, Inverse11;
    Inverses11(n % 11);
    var u := Invert(n, 11, Inverse11(n % 11));
    PartOfTurn(w, n, Inverse11(n % 11), 11, 93, u);
    Scale93Is(w);
    NoEleventhTurn(w);
  }

  lemma NotByThirtyOne(w: Element, n: nat)
    requires n % 31 != 0 && Power(w, n) == w
    ensures w == 0
  {
    hide Power, Sum, Inverse31;
    Inverses31(n % 31);
    var u := Invert(n, 31, Inverse31(n % 31));
    PartOfTurn(w, n, Inverse31(n % 31), 31, 33, u);
    Scale33Is(w);
    NoThirtyFirstTurn(w);
  }

  /** Only zero is fixed by less than a full turn. */
  lemma NoEarlierTurn(w: Element, n: nat)
    requires 0 < n < ORDER && Power(w, n) == w
    ensures w == 0
  {
    hide Power;
    assert n % 3 != 0 || n % 11 != 0 || n % 31 != 0;
    if n % 3 != 0 {
      NotByThree(w, n);
    } else if n % 11 != 0 {
      NotByEleven(w, n);
    } else {
      NotByThirtyOne(w, n);
    }
  }

  // ----- Three terms ---------------------------------------------------------------------------------------------

  /** An element and a power of it. */
  ghost function Both(w: Element, n: nat): Element {
    Plus(Power(w, n), w)
  }

  lemma BothTwice(w: Element, n: nat)
    ensures Both(w, 2 * n) == Both(Both(w, n), n)
  {
    hide Power, Plus;
    var v := Power(w, n);
    PowerPlus(v, w, n);
    PowerAdd(w, n, n);
    PlusAssoc(Power(v, n), v, Plus(v, w));
    PlusAssoc(v, v, w);
    PlusLaws(v, v);
    PlusLaws(0, w);
    PlusLaws(w, 0);
  }

  /** What is added to the same element is the same. */
  lemma SameRest(a: Element, b: Element, c: Element)
    requires Plus(Plus(a, b), c) == 0
    ensures c == Plus(a, b)
  {
    hide Plus;
    PlusLaws(Plus(a, b), c);
  }

  lemma Difference2(a: Element, b: Element, a': Element, b': Element)
    requires Plus(a, b) == Plus(a', b')
    ensures Plus(a', a) == Plus(b', b)
  {
    hide Plus;
    PlusSwap(a', a, b', b);
    PlusLaws(a, a');
    PlusLaws(Plus(a', b'), Plus(a, b));
    PlusLaws(Plus(a', a), Plus(b', b));
  }

  /** A sum of three terms that is zero for three consecutive powers of the primitive element is zero term by term. */
  lemma ThreeTerms(a: Element, b: Element, c: Element, m: nat, n: nat)
    requires 0 < n < m < ORDER
    requires Plus(Plus(a, b), c) == 0
    requires Plus(Plus(Power(a, m), Power(b, n)), c) == 0
    requires Plus(Plus(Power(a, 2 * m), Power(b, 2 * n)), c) == 0
    ensures a == 0 && b == 0 && c == 0
  {
    hide Power, Plus;
    SameRest(a, b, c);
    SameRest(Power(a, m), Power(b, n), c);
    SameRest(Power(a, 2 * m), Power(b, 2 * n), c);
    Difference2(a, b, Power(a, m), Power(b, n));
    Difference2(a, b, Power(a, 2 * m), Power(b, 2 * n));
    var w := Both(a, m);
    BothTwice(a, m);
    BothTwice(b, n);
    assert Plus(Power(w, m), w) == Plus(Power(w, n), w);
    Cancel(Power(w, m), Power(w, n), w);
    PowerAdd(w, m - n, n);
    PowerInjective(Power(w, m - n), w, n);
    NoEarlierTurn(w, m - n);
    PlusLaws(Power(a, m), a);
    NoEarlierTurn(a, m);
    PlusLaws(Power(b, n), b);
    NoEarlierTurn(b, n);
    PlusLaws(0, 0);
  }

  lemma Cancel(a: Element, b: Element, w: Element)
    requires Plus(a, w) == Plus(b, w)
    ensures a == b
  {
    hide Plus;
    PlusAssoc(a, w, w);
    PlusAssoc(b, w, w);
    PlusLaws(w, w);
    PlusLaws(a, 0);
    PlusLaws(b, 0);
  }
}
