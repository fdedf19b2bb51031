/** 256-bit unsigned arithmetic on eight 32-bit words. */
module Arith256 {
  import opened Words

  const WIDTH := 8
  const UINT64_RANGE := 0x1_0000_0000_0000_0000

  /** Two to the power of 256. */
  const MODULUS := 0x1_00000000_00000000_00000000_00000000_00000000_00000000_00000000_00000000

  lemma ModulusIsWeight()
    ensures Weight(WIDTH) == MODULUS == Pow2(256)
  {
    WeightIsPow2(8);
    assert Weight(1) == BASE * Weight(0) && Weight(2) == BASE * Weight(1);
    hide Weight, Pow2;
    WeightAdd(2, 2);
    WeightAdd(4, 4);
  }

  ghost function Modulo(x: int): (r: nat)
    ensures r < MODULUS
  {
    x % MODULUS
  }

  /** A number below the modulus that differs from `x` by a multiple of it. */
  lemma ModuloIs(x: int, r: nat, q: int)
    requires x == q * MODULUS + r && r < MODULUS
    ensures Modulo(x) == r
  {
  }

  /** One step of a word-by-word sum with carry. */
  lemma CarryStep(w: nat, n: int, low: int, carry: int, terms: int)
    requires n == low + BASE * carry && n == terms
    ensures w * low + BASE * w * carry == w * terms
  {
    assert w * (low + BASE * carry) == w * low + BASE * w * carry;
  }

  class BaseUint {
    const pn: array<Word>

    ghost predicate Valid() {
      pn.Length == WIDTH
    }

    ghost function Value(): (v: nat)
      requires Valid()
      reads pn
    {
      Val(pn[..])
    }

    lemma Bounded()
      requires Valid()
      ensures Value() < MODULUS
    {
      ModulusIsWeight();
      ValBound(pn[..]);
    }

    /** A number of 64 bits. */
    constructor (b: nat)
      requires b < UINT64_RANGE
      ensures Valid() && fresh(pn) && Value() == b
    {
      pn := new Word[WIDTH](i => 0);
      new;
      pn[0] := b % BASE;
      pn[1] := b / BASE;
      ValSplit(pn[..], 2);
      ValZero(pn[..][2..]);
      ValNext(pn[..], 0);
      ValNext(pn[..], 1);
    }

    /** Assignment of a 64-bit number. */
    method Assign(b: nat)
      requires Valid() && b < UINT64_RANGE
      modifies pn
      ensures Value() == b
    {
      pn[0] := b % BASE;
      pn[1] := b / BASE;
      for i := 2 to WIDTH
        invariant pn[0] == b % BASE && pn[1] == b / BASE
        invariant forall k :: 2 <= k < i ==> pn[k] == 0
      {
        pn[i] := 0;
      }
      ValSplit(pn[..], 2);
      ValZero(pn[..][2..]);
      ValNext(pn[..], 0);
      ValNext(pn[..], 1);
    }

    /** The low 64 bits. */
    method GetLow64() returns (low: nat)
      requires Valid()
      ensures low == Value() % UINT64_RANGE
    {
      hide Val;
      low := pn[0] + BASE * pn[1];
      LowWords(pn[..]);
    }

    constructor Copy(b: BaseUint)
      requires b.Valid()
      ensures Valid() && fresh(pn) && pn[..] == b.pn[..] && Value() == b.Value()
    {
      var words := b.pn[..];
      pn := new Word[WIDTH](i requires 0 <= i < WIDTH => words[i]);
      new;
      assert pn[..] == b.pn[..];
    }

    /** Addition wraps around. */
    method AddAssign(b: BaseUint)
      requires Valid() && b.Valid()
      modifies pn
      ensures Value() == Modulo(old(Value()) + old(b.Value()))
    {
      hide Val, Weight, PartialSum;
      ghost var x, y := pn[..], b.pn[..];
      var carry := 0;
      SumStart(pn[..], x, y);
      for i := 0 to WIDTH
        invariant 0 <= carry <= 1
        invariant forall k :: i <= k < WIDTH ==> pn[k] == x[k] && b.pn[k] == y[k]
        invariant PartialSum(pn[..], x, y, i, carry)
      {
        var n := carry + pn[i] + b.pn[i];
        assert n < UINT64_RANGE;
        SumStep(pn[..], x, y, i, carry);
        pn[i] := n % BASE;
        carry := n / BASE;
      }
      SumEnd(pn[..], x, y, carry);
    }

    /** The one's complement. */
    method Complement() returns (ret: BaseUint)
      requires Valid()
      ensures fresh(ret) && fresh(ret.pn) && ret.Valid()
      ensures ret.Value() == MODULUS - 1 - Value()
    {
      hide Val, Weight;
      ret := new BaseUint(0);
      for i := 0 to WIDTH
        invariant forall k :: 0 <= k < i ==> ret.pn[k] == BASE - 1 - pn[k]
      {
        ret.pn[i] := BASE - 1 - pn[i];
      }
      ComplementVal(pn[..], ret.pn[..]);
      ModulusIsWeight();
    }

    method Increment()
      requires Valid()
      modifies pn
      ensures Value() == Modulo(old(Value()) + 1)
    {
      hide Val, Weight, Modulo;
      ghost var x := pn[..];
      ModulusIsWeight();
      WeightZero();
      Bounded();
      var i, carried := 0, true;
      while i < WIDTH && carried
        invariant 0 <= i <= WIDTH
        invariant Val(pn[..]) == if carried then Val(x) + 1 - Weight(i) else Val(x) + 1
        decreases WIDTH - i, carried
      {
        ghost var z := pn[..];
        pn[i] := (pn[i] + 1) % BASE;
        IncrementStep(z, i);
        assert pn[..] == z[i := (z[i] + 1) % BASE];
        if pn[i] == 0 {
          i := i + 1;
        } else {
          carried := false;
        }
      }
      Bounded();
      ModuloIs(Val(x) + 1, Value(), if carried then 1 else 0);
    }

    method Decrement()
      requires Valid()
      modifies pn
      ensures Value() == Modulo(old(Value()) - 1)
    {
      hide Val, Weight, Modulo;
      ghost var x := pn[..];
      ModulusIsWeight();
      WeightZero();
      var i, borrowed := 0, true;
      while i < WIDTH && borrowed
        invariant 0 <= i <= WIDTH
        invariant Val(pn[..]) == if borrowed then Val(x) - 1 + Weight(i) else Val(x) - 1
        decreases WIDTH - i, borrowed
      {
        ghost var z := pn[..];
        pn[i] := (pn[i] - 1) % BASE;
        DecrementStep(z, i);
        assert pn[..] == z[i := (z[i] - 1) % BASE];
        if pn[i] == BASE - 1 {
          i := i + 1;
        } else {
          borrowed := false;
        }
      }
      Bounded();
      ModuloIs(Val(x) - 1, Value(), if borrowed then -1 else 0);
    }

    /** The two's complement. */
    method Negate() returns (ret: BaseUint)
      requires Valid()
      ensures fresh(ret) && fresh(ret.pn) && ret.Valid()
      ensures ret.Value() == Modulo(0 - Value())
    {
      hide Val, Modulo;
      Bounded();
      ret := Complement();
      ret.Increment();
      NegatedModulo(Value());
    }

    /** Subtraction wraps around. */
    method SubAssign(b: BaseUint)
      requires Valid() && b.Valid()
      modifies pn
      ensures Value() == Modulo(old(Value()) - old(b.Value()))
    {
      hide Val;
      var negated := b.Negate();
      AddAssign(negated);
      SubtractModulo(old(Value()), old(b.Value()));
    }

    /** Multiplication by one word. */
    method MulAssignWord(b32: Word)
      requires Valid()
      modifies pn
      ensures Value() == Modulo(old(Value()) * b32)
    {
      hide Val, Weight, PartialMultiple;
      ghost var x := pn[..];
      var carry := 0;
      MultipleStart(pn[..], x, b32);
      for i := 0 to WIDTH
        invariant 0 <= carry < BASE
        invariant forall k :: i <= k < WIDTH ==> pn[k] == x[k]
        invariant PartialMultiple(pn[..], x, b32, i, carry)
      {
        ProductBound(b32, pn[i]);
        ProductFits(b32 * pn[i], carry, 0);
        var n := carry + b32 * pn[i];
        assert n < UINT64_RANGE;
        MultipleStep(pn[..], x, b32, i, carry);
        pn[i] := n % BASE;
        carry := n / BASE;
      }
      MultipleEnd(pn[..], x, b32, carry);
    }

    /** Multiplication wraps around. */
    method MulAssign(b: BaseUint)
      requires Valid() && b.Valid()
      modifies pn
      ensures Value() == Modulo(old(Value()) * old(b.Value()))
    {
      hide Val, Weight;
      ghost var x, y := pn[..], b.pn[..];
      var a := new BaseUint(0);
      EmptyVal(x);
      for j := 0 to WIDTH
        invariant a.pn.Length == WIDTH && pn[..] == x && b.pn[..] == y
        invariant a.Value() == Modulo(Val(x[..j]) * Val(y))
      {
        a.AddRow(pn[j], b, j);
        RowDone(x, y, j);
      }
      assert x[..WIDTH] == x;
      ghost var product := a.pn[..];
      for i := 0 to WIDTH
        invariant forall k :: 0 <= k < i ==> pn[k] == a.pn[k]
        invariant a.pn[..] == product
      {
        pn[i] := a.pn[i];
      }
      assert pn[..] == a.pn[..];
    }

    /** Adds one word times `b`, moved up `j` words; what overflows is lost. */
    method AddRow(word: Word, b: BaseUint, j: nat)
      requires Valid() && b.Valid() && b.pn != pn && j < WIDTH
      modifies pn
      ensures Value() == Modulo(old(Value()) + Weight(j) * word * b.Value())
    {
      hide Val, Weight, PartialRow;
      ghost var z0, y := pn[..], b.pn[..];
      var carry := 0;
      RowStart(pn[..], word, y, j);
      for i := 0 to WIDTH - j
        invariant 0 <= carry < BASE
        invariant forall k :: i + j <= k < WIDTH ==> pn[k] == z0[k]
        invariant PartialRow(pn[..], z0, word, y, j, i, carry)
      {
        ProductBound(word, b.pn[i]);
        ProductFits(word * b.pn[i], carry, pn[i + j]);
        var n := carry + pn[i + j] + word * b.pn[i];
        assert n < UINT64_RANGE;
        RowStep(pn[..], z0, word, y, j, i, carry);
        pn[i + j] := n % BASE;
        carry := n / BASE;
      }
      RowEnd(pn[..], z0, word, y, j, carry);
    }

    /** Negative, zero or positive as the numbers compare. */
    method CompareTo(b: BaseUint) returns (c: int)
      requires Valid() && b.Valid()
      ensures c == if Value() < b.Value() then -1 else if Value() > b.Value() then 1 else 0
    {
      hide Val;
      for i := WIDTH downto 0
        invariant forall k :: i <= k < WIDTH ==> pn[k] == b.pn[k]
      {
        if pn[i] < b.pn[i] {
          FirstDifference(pn[..], b.pn[..], i);
          return -1;
        }
        if pn[i] > b.pn[i] {
          FirstDifference(b.pn[..], pn[..], i);
          return 1;
        }
      }
      assert pn[..] == b.pn[..];
      return 0;
    }

    /** The number of significant bits. */
    method Bits() returns (n: nat)
      requires Valid()
      ensures n <= 256 && IsBits(Value(), n)
    {
      hide Val, Pow2;
      for pos := WIDTH downto 0
        invariant forall k :: pos <= k < WIDTH ==> pn[k] == 0
      {
        if pn[pos] != 0 {
          n := WordBits(pn[pos]);
          TopWord(pn[..], pos, n);
          return 32 * pos + n;
        }
      }
      ValZero(pn[..]);
      return 0;
    }

    method Clear()
      requires Valid()
      modifies pn
      ensures Value() == 0 && forall m :: 0 <= m < WIDTH ==> pn[m] == 0
    {
      for i := 0 to WIDTH
        invariant forall m :: 0 <= m < i ==> pn[m] == 0
      {
        pn[i] := 0;
      }
      ValZero(pn[..]);
    }

    /** Multiplies by a power of two; what overflows is lost. */
    method ShiftLeft(shift: nat)
      requires Valid()
      modifies pn
      ensures Value() == Modulo(old(Value()) * Pow2(shift))
    {
      hide Val, Weight, Pow2, Modulo, ShiftedLeft, Up, Shl, BitOr, LeftWords, High;
      ghost var x := pn[..];
      var a := new BaseUint.Copy(this);
      Clear();
      var k, s := shift / 32, shift % 32;
      if k < WIDTH { LeftStart(pn[..], x, k, s); }
      for i := 0 to WIDTH
        invariant a.pn[..] == x
        invariant k >= WIDTH ==> Val(pn[..]) == 0
        invariant k < WIDTH ==> ShiftedLeft(pn[..], x, if i + k <= WIDTH then i else WIDTH - k, k, s)
      {
        ghost var z := pn[..];
        if i + k < WIDTH { LeftStep(z, x, i, k, s); }
        if i + k + 1 < WIDTH && s != 0 {
          pn[i + k + 1] := BitOr(pn[i + k + 1], Up(a.pn[i], s));
        }
        if i + k < WIDTH {
          pn[i + k] := BitOr(pn[i + k], Shl(a.pn[i], s));
        }
        if i + k < WIDTH { assert pn[..] == LeftWords(z, x, i, k, s); }
      }
      LeftEnd(pn[..], x, k, s);
    }

    /** Divides by a power of two, rounding down. */
    method ShiftRight(shift: nat)
      requires Valid()
      modifies pn
      ensures Value() == old(Value()) / Pow2(shift)
    {
      hide Val, Weight, Pow2, ShiftedRight, Shr, Down, BitOr;
      ghost var x := pn[..];
      var a := new BaseUint.Copy(this);
      Clear();
      var k, s := shift / 32, shift % 32;
      if k < WIDTH { RightStart(pn[..], x, k, s); }
      for i := 0 to WIDTH
        invariant a.pn[..] == x
        invariant k >= WIDTH ==> Val(pn[..]) == 0
        invariant k < WIDTH ==> ShiftedRight(pn[..], x, i, k, s)
      {
        ghost var z := pn[..];
        if k < WIDTH { RightStep(z, x, i, k, s); }
        if i - k - 1 >= 0 && s != 0 {
          pn[i - k - 1] := BitOr(pn[i - k - 1], Down(a.pn[i], s));
        }
        if i - k >= 0 {
          pn[i - k] := BitOr(pn[i - k], Shr(a.pn[i], s));
        }
        if k < WIDTH { assert pn[..] == RightWords(z, x, i, k, s); }
      }
      RightEnd(pn[..], x, k, s);
    }

    /** Division rounds down. Dividing by zero is an error, and leaves zero behind. */
    method DivAssign(b: BaseUint) returns (ok: bool)
      requires Valid() && b.Valid()
      modifies pn
      ensures ok <==> old(b.Value()) != 0
      ensures Value() == if ok then old(Value()) / old(b.Value()) else 0
    {
      hide Val, Pow2, Modulo, LowClear, Dividing;
      ghost var n, d := Value(), b.Value();
      var div := new BaseUint.Copy(b);
      var num := new BaseUint.Copy(this);
      Clear();
      var numBits := num.Bits();
      var divBits := div.Bits();
      if divBits == 0 {
        return false;
      }
      if divBits > numBits {
        SmallerQuotient(n, d, numBits, divBits);
        return true;
      }
      var shift: int := numBits - divBits;
      Aligned(n, d, numBits, divBits);
      div.ShiftLeft(shift);
      NothingSet(pn[..], shift + 1);
      while shift >= 0
        invariant -1 <= shift < 256
        invariant Dividing(n, d, Value(), num.Value(), div.Value(), shift)
        invariant LowClear(pn[..], shift + 1)
        decreases shift
      {
        DivideStep(num, div, shift, n, d);
        shift := shift - 1;
      }
      DividedAll(n, d, Value(), num.Value(), div.Value());
      return true;
    }

    /** One bit of the quotient. */
    method DivideStep(num: BaseUint, div: BaseUint, shift: nat, ghost n: nat, ghost d: nat)
      requires Valid() && num.Valid() && div.Valid() && shift < 256
      requires pn != num.pn && pn != div.pn && num.pn != div.pn
      requires Dividing(n, d, Value(), num.Value(), div.Value(), shift)
      requires LowClear(pn[..], shift + 1)
      modifies pn, num.pn, div.pn
      ensures Dividing(n, d, Value(), num.Value(), div.Value(), shift - 1)
      ensures LowClear(pn[..], shift)
    {
      hide Val, Pow2, Modulo, LowClear, Dividing, BitOr;
      ghost var q, r, v := Value(), num.Value(), div.Value();
      var c := num.CompareTo(div);
      if c >= 0 {
        num.Bounded();
        num.SubAssign(div);
        ModuloSmall(r - v);
        SetBit(shift);
        BitSet(n, d, q, r, v, shift);
      } else {
        BitUnset(n, d, q, r, v, shift);
        StillClear(pn[..], shift);
      }
      div.ShiftRight(1);
    }

    /** Sets a bit below all bits that are set. */
    method SetBit(shift: nat)
      requires Valid() && shift < 256 && LowClear(pn[..], shift + 1)
      modifies pn
      ensures Value() == old(Value()) + Pow2(shift)
      ensures LowClear(pn[..], shift)
    {
      hide Val, Pow2, LowClear, BitOr;
      ghost var z := pn[..];
      var w := shift / 32;
      BitFits(z, shift);
      pn[w] := BitOr(pn[w], Pow2(shift % 32));
      assert pn[..] == z[w := z[w] + Pow2(shift % 32)];
    }
  }

  /** The first `i` words of the sum are done. */
  ghost predicate PartialSum(z: seq<Word>, x: seq<Word>, y: seq<Word>, i: nat, carry: nat)
    requires i <= |z| == |x| == |y|
  {
    Val(z[..i]) + Weight(i) * carry == Val(x[..i]) + Val(y[..i])
  }

  lemma SumStart(z: seq<Word>, x: seq<Word>, y: seq<Word>)
    requires |z| == |x| == |y|
    ensures PartialSum(z, x, y, 0, 0)
  {
  }

  lemma SumStep(z: seq<Word>, x: seq<Word>, y: seq<Word>, i: nat, carry: nat)
    requires i < |z| == |x| == |y| && PartialSum(z, x, y, i, carry)
    ensures var n := carry + x[i] + y[i]; PartialSum(z[i := n % BASE], x, y, i + 1, n / BASE)
  {
    hide Val;
    var n := carry + x[i] + y[i];
    var z' := z[i := n % BASE];
    ValNext(z', i);
    ValNext(x, i);
    ValNext(y, i);
    assert z'[..i] == z[..i];
    CarryStep(Weight(i), n, n % BASE, n / BASE, n);
    Spread(Weight(i), carry, x[i], y[i]);
  }

  lemma SumEnd(z: seq<Word>, x: seq<Word>, y: seq<Word>, carry: nat)
    requires |z| == |x| == |y| == WIDTH && PartialSum(z, x, y, WIDTH, carry)
    ensures Val(z) == Modulo(Val(x) + Val(y))
  {
    hide Val, Weight, Modulo, PartialSum;
    WholeSum(z, x, y, carry);
    ModulusIsWeight();
    ValBound(z);
    ModuloIs(Val(x) + Val(y), Val(z), carry);
  }

  lemma WholeSum(z: seq<Word>, x: seq<Word>, y: seq<Word>, carry: nat)
    requires |z| == |x| == |y| == WIDTH && PartialSum(z, x, y, WIDTH, carry)
    ensures Val(z) + Weight(WIDTH) * carry == Val(x) + Val(y)
  {
    hide Val, Weight;
    assert z[..WIDTH] == z && x[..WIDTH] == x && y[..WIDTH] == y;
  }

  lemma LowWords(s: seq<Word>)
    requires |s| >= 2
    ensures Val(s) % UINT64_RANGE == s[0] + BASE * s[1]
  {
    assert s[1..][1..] == s[2..];
    assert Val(s) == s[0] + BASE * s[1] + UINT64_RANGE * Val(s[2..]);
  }

  lemma Spread(w: nat, a: int, b: int, c: int)
    ensures w * (a + b + c) == w * a + w * b + w * c
  {
  }

  // ----- Increment, decrement and negation ----------------------------------------------------

  lemma WeightZero()
    ensures Weight(0) == 1
  {
  }

  lemma EmptyVal(x: seq<Word>)
    ensures Val(x[..0]) == 0
  {
  }

  lemma {:induction false} ComplementVal(s: seq<Word>, t: seq<Word>)
    requires |s| == |t| && forall k :: 0 <= k < |s| ==> t[k] == BASE - 1 - s[k]
    ensures Val(s) + Val(t) == Weight(|s|) - 1
  {
    if s != [] { ComplementVal(s[1..], t[1..]); }
  }

  lemma IncrementStep(z: seq<Word>, i: nat)
    requires i < |z|
    ensures var z' := z[i := (z[i] + 1) % BASE];
            Val(z') == if z'[i] == 0 then Val(z) + Weight(i) - Weight(i + 1) else Val(z) + Weight(i)
  {
    hide Val;
    ValUpdate(z, i, (z[i] + 1) % BASE);
  }

  lemma DecrementStep(z: seq<Word>, i: nat)
    requires i < |z|
    ensures var z' := z[i := (z[i] - 1) % BASE];
            Val(z') == if z'[i] == BASE - 1 then Val(z) - Weight(i) + Weight(i + 1) else Val(z) - Weight(i)
  {
    hide Val;
    ValUpdate(z, i, (z[i] - 1) % BASE);
  }

  lemma NegatedModulo(v: nat)
    requires v < MODULUS
    ensures Modulo(MODULUS - 1 - v + 1) == Modulo(0 - v)
  {
  }

  lemma SubtractModulo(a: nat, b: nat)
    ensures Modulo(a + Modulo(0 - b)) == Modulo(a - b)
  {
  }

  // ----- Multiplication -------------------------------------------------------------------------

  lemma ModuloAdd(u: int, v: int)
    ensures Modulo(Modulo(u) + v) == Modulo(u + v)
  {
  }

  lemma ProductBound(a: Word, b: Word)
    ensures 0 <= a * b <= 0xFFFF_FFFE_0000_0001
  {
    NonNegative(a, b);
    NonNegative(a, BASE - 1 - b);
    assert a * (BASE - 1 - b) == (BASE - 1) * a - a * b;
  }

  /** Two words multiplied, with two more added, fit in 64 bits. */
  lemma ProductFits(p: int, c: int, d: Word)
    requires 0 <= c < BASE && 0 <= p <= 0xFFFF_FFFE_0000_0001
    ensures 0 <= c + d + p < UINT64_RANGE && (c + d + p) / BASE < BASE
  {
  }

  ghost predicate PartialMultiple(z: seq<Word>, x: seq<Word>, b: Word, i: nat, carry: nat)
    requires i <= |z| == |x|
  {
    Val(z[..i]) + Weight(i) * carry == Val(x[..i]) * b
  }

  lemma MultipleStart(z: seq<Word>, x: seq<Word>, b: Word)
    requires |z| == |x|
    ensures PartialMultiple(z, x, b, 0, 0)
  {
  }

  lemma MultipleStep(z: seq<Word>, x: seq<Word>, b: Word, i: nat, carry: nat)
    requires i < |z| == |x| && PartialMultiple(z, x, b, i, carry)
    ensures var n := carry + b * x[i]; PartialMultiple(z[i := n % BASE], x, b, i + 1, n / BASE)
  {
    hide Val;
    var n := carry + b * x[i];
    var z' := z[i := n % BASE];
    ValNext(z', i);
    ValNext(x, i);
    assert z'[..i] == z[..i];
    CarryStep(Weight(i), n, n % BASE, n / BASE, n);
    Spread(Weight(i), carry, b * x[i], 0);
    assert (Val(x[..i]) + Weight(i) * x[i]) * b == Val(x[..i]) * b + Weight(i) * (b * x[i]);
  }

  lemma MultipleEnd(z: seq<Word>, x: seq<Word>, b: Word, carry: nat)
    requires |z| == |x| == WIDTH && PartialMultiple(z, x, b, WIDTH, carry)
    ensures Val(z) == Modulo(Val(x) * b)
  {
    hide Val, Weight, Modulo;
    assert z[..WIDTH] == z && x[..WIDTH] == x;
    ModulusIsWeight();
    ValBound(z);
    ModuloIs(Val(x) * b, Val(z), carry);
  }

  /** `i` words of the row are added. */
  ghost predicate PartialRow(z: seq<Word>, z0: seq<Word>, word: Word, y: seq<Word>, j: nat, i: nat, carry: nat)
    requires i + j <= |z| == |z0| && i <= |y|
  {
    && z[i + j..] == z0[i + j..]
    && Val(z[..i + j]) + Weight(i + j) * carry == Val(z0[..i + j]) + Weight(j) * word * Val(y[..i])
  }

  lemma RowStart(z: seq<Word>, word: Word, y: seq<Word>, j: nat)
    requires j <= |z|
    ensures PartialRow(z, z, word, y, j, 0, 0)
  {
  }

  lemma RowStep(z: seq<Word>, z0: seq<Word>, word: Word, y: seq<Word>, j: nat, i: nat, carry: nat)
    requires i + j < |z| == |z0| && i < |y| && PartialRow(z, z0, word, y, j, i, carry)
    ensures z[i + j] == z0[i + j]
    ensures var n := carry + z[i + j] + word * y[i];
            PartialRow(z[i + j := n % BASE], z0, word, y, j, i + 1, n / BASE)
  {
    hide Val;
    assert z[i + j] == z[i + j..][0] == z0[i + j..][0];
    var n := carry + z[i + j] + word * y[i];
    var z' := z[i + j := n % BASE];
    assert z'[i + 1 + j..] == z[i + j..][1..] == z0[i + 1 + j..];
    ValNext(z', i + j);
    ValNext(z0, i + j);
    ValNext(y, i);
    assert z'[..i + j] == z[..i + j];
    var w := Weight(i + j);
    CarryStep(w, n, n % BASE, n / BASE, n);
    Spread(w, carry, z[i + j], word * y[i]);
    WeightAdd(i, j);
    RowTerm(Weight(j), word, Val(y[..i]), Weight(i), y[i], w);
  }

  lemma RowTerm(wj: nat, word: int, v: nat, wi: nat, d: int, w: nat)
    requires w == wi * wj
    ensures wj * word * (v + wi * d) == wj * word * v + w * (word * d)
  {
    assert wj * word * (wi * d) == (wi * wj) * (word * d);
  }

  lemma RowLast(z: seq<Word>, z0: seq<Word>, word: Word, y: seq<Word>, j: nat, carry: nat)
    requires |z| == |z0| == |y| == WIDTH && j < WIDTH && PartialRow(z, z0, word, y, j, WIDTH - j, carry)
    ensures Val(z) + MODULUS * carry == Val(z0) + Weight(j) * word * Val(y[..WIDTH - j])
  {
    hide Val, Weight;
    assert z[..WIDTH] == z && z0[..WIDTH] == z0;
    ModulusIsWeight();
  }

  lemma RowEnd(z: seq<Word>, z0: seq<Word>, word: Word, y: seq<Word>, j: nat, carry: nat)
    requires |z| == |z0| == |y| == WIDTH && j < WIDTH && PartialRow(z, z0, word, y, j, WIDTH - j, carry)
    ensures Val(z) == Modulo(Val(z0) + Weight(j) * word * Val(y))
  {
    hide Val, Weight, Modulo, PartialRow;
    var i := WIDTH - j;
    RowLast(z, z0, word, y, j, carry);
    ValBound(z);
    ValSplit(y, i);
    WeightAdd(j, i);
    ModulusIsWeight();
    RowTotal(Val(z), Val(z0), Weight(j), word, Val(y[..i]), Weight(i), Val(y[i..]), Val(y), carry);
  }

  lemma RowTail(wj: nat, word: int, low: nat, wi: nat, high: nat)
    requires wj * wi == MODULUS
    ensures wj * word * (low + wi * high) == wj * word * low + MODULUS * (word * high)
  {
    assert wj * word * (wi * high) == (wj * wi) * (word * high);
  }

  lemma RowTotal(vz: nat, vz0: nat, wj: nat, word: int, low: nat, wi: nat, high: nat, vy: nat, carry: nat)
    requires wj * wi == MODULUS && vz < MODULUS && vy == low + wi * high
    requires vz + MODULUS * carry == vz0 + wj * word * low
    ensures vz == Modulo(vz0 + wj * word * vy)
  {
    hide Modulo;
    RowTail(wj, word, low, wi, high);
    ModuloIs(vz0 + wj * word * (low + wi * high), vz, carry + word * high);
  }

  lemma RowDone(x: seq<Word>, y: seq<Word>, j: nat)
    requires j < |x|
    ensures Modulo(Modulo(Val(x[..j]) * Val(y)) + Weight(j) * x[j] * Val(y)) == Modulo(Val(x[..j + 1]) * Val(y))
  {
    hide Val, Modulo;
    ValNext(x, j);
    ModuloAdd(Val(x[..j]) * Val(y), Weight(j) * x[j] * Val(y));
    assert (Val(x[..j]) + Weight(j) * x[j]) * Val(y) == Val(x[..j]) * Val(y) + Weight(j) * x[j] * Val(y);
  }

  // ----- Comparison -----------------------------------------------------------------------------

  lemma FirstDifference(x: seq<Word>, y: seq<Word>, i: nat)
    requires i < |x| == |y| && x[i] < y[i]
    requires forall k :: i < k < |x| ==> x[k] == y[k]
    ensures Val(x) < Val(y)
  {
    hide Val;
    assert x[i + 1..] == y[i + 1..];
    ValSplit(x, i + 1);
    ValSplit(y, i + 1);
    ValNext(x, i);
    ValNext(y, i);
    ValBound(x[..i]);
    AtLeastOnce(y[i] - x[i], Weight(i));
    assert Weight(i) * y[i] == Weight(i) * x[i] + (y[i] - x[i]) * Weight(i);
  }

  // ----- Significant bits -------------------------------------------------------------------------

  /** `n` is the position of the highest bit plus one, or zero. */
  ghost predicate IsBits(v: nat, n: nat) {
    if n == 0 then v == 0 else Pow2(n - 1) <= v < Pow2(n)
  }

  method WordBits(w: Word) returns (n: nat)
    requires w != 0
    ensures 0 < n <= 32 && IsBits(w, n)
  {
    hide Pow2;
    Pow2Values();
    for nbits := 32 downto 1
      invariant w < Pow2(nbits)
    {
      TestBit(w, nbits);
      if (w / Pow2(nbits)) % 2 == 1 {
        return nbits + 1;
      }
    }
    OneIsPow2();
    return 1;
  }

  lemma OneIsPow2()
    ensures Pow2(0) == 1
  {
  }

  lemma TestBit(w: nat, n: nat)
    requires w < Pow2(n + 1)
    ensures (w / Pow2(n)) % 2 == 1 <==> w >= Pow2(n)
  {
    var p := Pow2(n);
    assert w < 2 * p;
    if w >= p {
      DivUnique(w, p, 1, w - p);
    } else {
      DivUnique(w, p, 0, w);
    }
  }

  lemma TopWord(s: seq<Word>, pos: nat, n: nat)
    requires pos < |s| && 0 < n && IsBits(s[pos], n)
    requires forall k :: pos < k < |s| ==> s[k] == 0
    ensures IsBits(Val(s), 32 * pos + n)
  {
    hide Val, Pow2, Weight;
    ValSplit(s, pos + 1);
    ValZero(s[pos + 1..]);
    ValNext(s, pos);
    ValBound(s[..pos]);
    WeightIsPow2(pos);
    Pow2Add(32 * pos, n - 1);
    Pow2Add(32 * pos, n);
    Sandwich(Weight(pos), Val(s[..pos]), Pow2(n - 1), s[pos], Pow2(n));
  }

  lemma Sandwich(w: nat, v: nat, lo: nat, x: int, hi: nat)
    requires v < w && lo <= x < hi
    ensures w * lo <= v + w * x < w * hi
  {
    NonNegative(w, x - lo);
    NonNegative(w, hi - 1 - x);
    assert w * (x - lo) == w * x - w * lo && w * (hi - 1 - x) == w * hi - w - w * x;
  }

  // ----- Shifts -----------------------------------------------------------------------------------

  /** A word shifted left, cut into what stays in place and what moves into the next word. */
  lemma WordShift(x: Word, s: nat)
    requires s < 32
    ensures var high := if s == 0 then 0 else x / Pow2(32 - s);
            && x * Pow2(s) == (x * Pow2(s)) % BASE + BASE * high
            && ((x * Pow2(s)) % BASE) % Pow2(s) == 0 && 0 <= high < Pow2(s)
  {
    hide Pow2;
    Pow2Values();
    OneIsPow2();
    if s == 0 {
      assert x * Pow2(0) == x;
    } else {
      Pow2Add(s, 32 - s);
      ShiftSplit(x, Pow2(s), Pow2(32 - s));
    }
  }

  lemma ShiftSplit(x: Word, t: nat, u: nat)
    requires u > 0 && t > 0 && t * u == BASE
    ensures x * t == (x * t) % BASE + BASE * (x / u) && ((x * t) % BASE) % t == 0 && 0 <= x / u < t
  {
    var high, low := x / u, x % u;
    assert x == high * u + low;
    ShiftTerms(x, t, u, high, low);
    DivUnique(x * t, BASE, high, low * t);
    MultipleOf(t, low);
    Between(x, u, 0, t);
  }

  lemma ShiftTerms(x: int, t: nat, u: nat, high: int, low: int)
    requires t > 0 && t * u == BASE && x == high * u + low && 0 <= low < u
    ensures x * t == high * BASE + low * t && 0 <= low * t < BASE
  {
    assert (high * u + low) * t == high * (t * u) + low * t;
    NonNegative(low, t);
    NonNegative(u - 1 - low, t);
    assert (u - 1 - low) * t == t * u - t - low * t;
  }

  lemma Between(v: nat, u: nat, lo: nat, hi: nat)
    requires u > 0 && lo * u <= v < hi * u
    ensures lo <= v / u < hi
  {
    var q := v / u;
    assert q * u <= v < q * u + u;
    assert (lo - 1 - q) * u == lo * u - u - q * u;
    assert (q - hi) * u == q * u - hi * u;
    if q < lo { NonNegative(lo - 1 - q, u); }
    if q >= hi { NonNegative(q - hi, u); }
  }

  /** A word shifted left. */
  function Shl(x: Word, s: nat): Word {
    (x * Pow2(s)) % BASE
  }

  /** What a word shifted left moves into the next one. */
  function Up(x: Word, s: nat): Word
    requires s < 32
  {
    if s == 0 then 0
    else
      DivAtMost(x, Pow2(32 - s));
      x / Pow2(32 - s)
  }

  lemma WordUp(x: Word, s: nat)
    requires s < 32
    ensures x * Pow2(s) == Shl(x, s) + BASE * Up(x, s) && Shl(x, s) % Pow2(s) == 0 && Up(x, s) < Pow2(s)
    ensures s == 0 ==> Up(x, s) == 0
  {
    hide Pow2;
    WordShift(x, s);
  }

  function High(a: seq<Word>, i: int, s: nat): Word
    requires i <= |a| && s < 32
  {
    if i <= 0 then 0 else Up(a[i - 1], s)
  }

  lemma DivAtMost(x: nat, d: nat)
    requires d > 0
    ensures 0 <= x / d <= x
  {
    NonNegative(x / d, d - 1);
    assert x == (x / d) * d + x % d;
    assert (x / d) * (d - 1) == (x / d) * d - x / d;
  }

  /** `i` words are shifted; the next one holds what the last moved up. */
  ghost predicate ShiftedLeft(z: seq<Word>, a: seq<Word>, i: nat, k: nat, s: nat)
    requires i + k <= |z| == |a| && s < 32
  {
    && (forall m :: i + k < m < |z| ==> z[m] == 0)
    && (i + k < |z| ==> z[i + k] == High(a, i, s))
    && Val(z[..i + k]) + Weight(i + k) * High(a, i, s) == Weight(k) * Pow2(s) * Val(a[..i])
  }

  lemma LeftStart(z: seq<Word>, a: seq<Word>, k: nat, s: nat)
    requires |z| == |a| && k < |z| && s < 32 && forall m :: 0 <= m < |z| ==> z[m] == 0
    ensures ShiftedLeft(z, a, 0, k, s)
  {
    ValZero(z[..k]);
  }

  /** Words in disjoint bits are or-ed without loss. */
  lemma OrFits(low: Word, high: Word, s: nat)
    requires s <= 32 && low % Pow2(s) == 0 && high < Pow2(s)
    ensures BitOr(high, low) == high + low < BASE
  {
    hide Pow2;
    OrAdds(low, high, s);
    LowFits(low, high, s);
  }

  lemma OrZero(x: Word)
    ensures BitOr(0, x) == x
  {
  }

  ghost function LeftWords(z: seq<Word>, a: seq<Word>, i: nat, k: nat, s: nat): seq<Word>
    requires i + k < |z| == |a| && s < 32 && z[i + k] + Shl(a[i], s) < BASE
  {
    var z1 := if i + k + 1 < |z| then z[i + k + 1 := High(a, i + 1, s)] else z;
    z1[i + k := z[i + k] + Shl(a[i], s)]
  }

  lemma LeftStep(z: seq<Word>, a: seq<Word>, i: nat, k: nat, s: nat)
    requires i + k < |z| == |a| && s < 32 && ShiftedLeft(z, a, i, k, s)
    ensures BitOr(z[i + k], Shl(a[i], s)) == z[i + k] + Shl(a[i], s) < BASE
    ensures i + k + 1 < |z| ==> z[i + k + 1] == 0 && BitOr(0, Up(a[i], s)) == Up(a[i], s)
    ensures s == 0 ==> Up(a[i], s) == 0
    ensures var z1 := if i + k + 1 < |z| then z[i + k + 1 := Up(a[i], s)] else z;
            LeftWords(z, a, i, k, s) == z1[i + k := BitOr(z[i + k], Shl(a[i], s))]
    ensures ShiftedLeft(LeftWords(z, a, i, k, s), a, i + 1, k, s)
  {
    hide Val, Weight, Pow2, Shl, Up, BitOr;
    WordUp(a[i], s);
    if i > 0 { WordUp(a[i - 1], s); }
    OrFits(Shl(a[i], s), z[i + k], s);
    OrZero(Up(a[i], s));
    LeftValue(z, a, i, k, s);
  }

  lemma LeftValue(z: seq<Word>, a: seq<Word>, i: nat, k: nat, s: nat)
    requires i + k < |z| == |a| && s < 32 && ShiftedLeft(z, a, i, k, s)
    requires z[i + k] + Shl(a[i], s) < BASE
    ensures ShiftedLeft(LeftWords(z, a, i, k, s), a, i + 1, k, s)
  {
    hide Val, Weight, Pow2, Shl, Up;
    var z' := LeftWords(z, a, i, k, s);
    var w := Weight(i + k);
    WordUp(a[i], s);
    ValNext(z', i + k);
    ValNext(a, i);
    assert z'[..i + k] == z[..i + k];
    NextWeight(i + k);
    WeightAdd(k, i);
    LeftTerm(Weight(k), Pow2(s), Val(a[..i]), Weight(i), a[i], w, Shl(a[i], s), Up(a[i], s));
    Spread(w, z[i + k], Shl(a[i], s), 0);
  }

  lemma NextWeight(i: nat)
    ensures Weight(i + 1) == BASE * Weight(i)
  {
  }

  lemma LowFits(low: int, high: int, s: nat)
    requires s <= 32 && 0 <= low < BASE && low % Pow2(s) == 0 && 0 <= high < Pow2(s)
    ensures low + high < BASE
  {
    hide Pow2;
    Pow2Values();
    Pow2Add(s, 32 - s);
    var t, u, q := Pow2(s), Pow2(32 - s), low / Pow2(s);
    assert low == q * t;
    assert (q - u) * t == q * t - BASE;
    if q >= u { NonNegative(q - u, t); }
    NonNegative(u - 1 - q, t);
    assert (u - 1 - q) * t == BASE - t - q * t;
  }

  lemma LeftTerm(wk: nat, t: nat, v: nat, wi: nat, x: int, w: nat, low: int, high: int)
    requires w == wk * wi && x * t == low + BASE * high
    ensures wk * t * (v + wi * x) == wk * t * v + w * low + BASE * w * high
  {
    assert wk * t * (wi * x) == (wk * wi) * (x * t);
    assert w * (low + BASE * high) == w * low + BASE * w * high;
  }

  lemma LeftEnd(z: seq<Word>, a: seq<Word>, k: nat, s: nat)
    requires |z| == |a| == WIDTH && s < 32
    requires if k < WIDTH then ShiftedLeft(z, a, WIDTH - k, k, s) else Val(z) == 0
    ensures Val(z) == Modulo(Val(a) * Pow2(32 * k + s))
  {
    hide Val, Weight, Pow2, Modulo, High;
    ModulusIsWeight();
    if k < WIDTH {
      var i := WIDTH - k;
      ValSplit(a, i);
      WeightAdd(k, i);
      WeightIsPow2(k);
      Pow2Add(32 * k, s);
      assert z[..WIDTH] == z;
      ValBound(z);
      LeftTotal(Val(z), High(a, i, s), Weight(k), Pow2(s), Val(a[..i]), Weight(i), Val(a[i..]), Val(a));
    } else {
      Pow2Add(256, 32 * k + s - 256);
      var rest := Pow2(32 * k + s - 256);
      assert Val(a) * (MODULUS * rest) == (Val(a) * rest) * MODULUS;
      ModuloIs(Val(a) * Pow2(32 * k + s), 0, Val(a) * rest);
    }
  }

  lemma LeftTotal(vz: nat, carry: nat, wk: nat, t: nat, low: nat, wi: nat, high: nat, va: nat)
    requires wk * wi == MODULUS && vz < MODULUS && va == low + wi * high
    requires vz + MODULUS * carry == wk * t * low
    ensures vz == Modulo(va * (wk * t))
  {
    hide Modulo;
    assert va * (wk * t) == wk * t * low + (wk * wi) * (t * high);
    ModuloIs(va * (wk * t), vz, carry + t * high);
  }

  /** What a word shifted right moves into the one below. */
  function Down(x: Word, s: nat): Word
    requires s < 32
  {
    if s == 0 then 0 else (x * Pow2(32 - s)) % BASE
  }

  /** A word shifted right. */
  function Shr(x: Word, s: nat): Word {
    DivAtMost(x, Pow2(s));
    x / Pow2(s)
  }

  /** What shifting right drops. */
  ghost function Rem(x: Word, s: nat): nat {
    x % Pow2(s)
  }

  lemma WordDown(x: Word, s: nat)
    requires s < 32
    ensures x == Shr(x, s) * Pow2(s) + Rem(x, s) && Rem(x, s) < Pow2(s)
    ensures Shr(x, s) < Pow2(32 - s) && Pow2(s) * Down(x, s) == BASE * Rem(x, s)
    ensures Down(x, s) % Pow2(32 - s) == 0
  {
    hide Pow2;
    Pow2Values();
    if s == 0 {
      OneIsPow2();
      MultipleOf(BASE, 0);
    } else {
      WordShift(x, 32 - s);
      Pow2Add(s, 32 - s);
      hide Down, Shr, Rem;
      DownCore(x, Pow2(s), Pow2(32 - s), Shr(x, s), Rem(x, s), Down(x, s));
    }
  }

  lemma DownCore(x: int, t: nat, u: nat, q: int, r: int, down: int)
    requires t * u == BASE && x == q * t + r && x * u == down + BASE * q
    ensures t * down == BASE * r
  {
    assert t * (x * u) == (t * u) * x;
    assert t * (BASE * q) == BASE * (q * t);
    assert t * (down + BASE * q) == t * down + t * (BASE * q);
  }

  /** The words from `k` up to `i` are shifted. */
  ghost predicate ShiftedRight(z: seq<Word>, a: seq<Word>, i: nat, k: nat, s: nat)
    requires i <= |z| == |a| && k < |a| && s < 32
  {
    && (forall m :: i - k <= m < |z| && m >= 0 ==> z[m] == 0)
    && (i > k ==>
          && z[i - k - 1] == Shr(a[i - 1], s)
          && Pow2(s) * Val(z[..i - k]) + Rem(a[k], s) == Val(a[k..i]))
  }

  lemma RightStart(z: seq<Word>, a: seq<Word>, k: nat, s: nat)
    requires |z| == |a| && k < |a| && s < 32 && forall m :: 0 <= m < |z| ==> z[m] == 0
    ensures ShiftedRight(z, a, 0, k, s)
  {
  }

  /** The words after word `i` is shifted. */
  ghost function RightWords(z: seq<Word>, a: seq<Word>, i: nat, k: nat, s: nat): seq<Word>
    requires i < |z| == |a| && k < |a| && s < 32
    requires i > k ==> z[i - k - 1] + Down(a[i], s) < BASE
  {
    var z1 := if i > k then z[i - k - 1 := z[i - k - 1] + Down(a[i], s)] else z;
    if i >= k then z1[i - k := Shr(a[i], s)] else z1
  }

  lemma RightStep(z: seq<Word>, a: seq<Word>, i: nat, k: nat, s: nat)
    requires i < |z| == |a| && k < |a| && s < 32 && ShiftedRight(z, a, i, k, s)
    ensures s == 0 ==> Down(a[i], s) == 0
    ensures i > k ==> BitOr(z[i - k - 1], Down(a[i], s)) == z[i - k - 1] + Down(a[i], s) < BASE
    ensures i >= k ==> z[i - k] == 0 && BitOr(0, Shr(a[i], s)) == Shr(a[i], s)
    ensures ShiftedRight(RightWords(z, a, i, k, s), a, i + 1, k, s)
  {
    assert s == 0 ==> Down(a[i], s) == 0;
    hide Val, Weight, Pow2, Down, Shr, Rem, BitOr;
    OrZero(Shr(a[i], s));
    if i == k {
      FirstRight(z, a, k, s);
    } else if i > k {
      WordDown(a[i], s);
      WordDown(a[i - 1], s);
      OrFits(Down(a[i], s), z[i - k - 1], 32 - s);
      NextRight(z, a, i, k, s);
    }
  }

  lemma FirstRight(z: seq<Word>, a: seq<Word>, k: nat, s: nat)
    requires |z| == |a| && k < |a| && s < 32 && ShiftedRight(z, a, k, k, s)
    ensures ShiftedRight(RightWords(z, a, k, k, s), a, k + 1, k, s)
  {
    hide Val, Weight, Pow2, Down, Shr, Rem;
    WordDown(a[k], s);
    WeightZero();
    var z' := RightWords(z, a, k, k, s);
    ValNext(z', 0);
    EmptyVal(z');
    ValNext(a[k..], 0);
    EmptyVal(a[k..]);
    assert a[k..][..1] == a[k..k + 1];
  }

  lemma NextRight(z: seq<Word>, a: seq<Word>, i: nat, k: nat, s: nat)
    requires k < i < |z| == |a| && s < 32 && ShiftedRight(z, a, i, k, s)
    requires z[i - k - 1] + Down(a[i], s) < BASE
    ensures ShiftedRight(RightWords(z, a, i, k, s), a, i + 1, k, s)
  {
    hide Val, Weight, Pow2, Down, Shr, Rem;
    var n := i - k;
    var down, q, r := Down(a[i], s), Shr(a[i], s), Rem(a[i], s);
    WordDown(a[i], s);
    var z' := RightWords(z, a, i, k, s);
    ValNext(z', n);
    ValUpdate(z[..n], n - 1, z[n - 1] + down);
    assert z'[..n] == z[..n][n - 1 := z[n - 1] + down];
    ValNext(a[k..], n);
    assert a[k..][..n] == a[k..i] && a[k..][..n + 1] == a[k..i + 1];
    NextWeight(n - 1);
    RightTerm(Pow2(s), Weight(n - 1), down, r, Val(z[..n]), q, a[i]);
  }

  lemma RightTerm(t: nat, w: nat, down: int, r: int, v: nat, q: int, x: int)
    requires t * down == BASE * r && x == q * t + r
    ensures t * (v + w * down + BASE * w * q) == t * v + BASE * w * x
  {
    assert t * (w * down) == w * (t * down);
    assert w * (BASE * r) == BASE * w * r;
    assert t * (BASE * w * q) == BASE * w * (q * t);
    assert BASE * w * (q * t + r) == BASE * w * (q * t) + BASE * w * r;
    assert t * (v + w * down + BASE * w * q) == t * v + t * (w * down) + t * (BASE * w * q);
  }

  lemma RightEnd(z: seq<Word>, a: seq<Word>, k: nat, s: nat)
    requires |z| == |a| == WIDTH && s < 32
    requires if k < WIDTH then ShiftedRight(z, a, WIDTH, k, s) else Val(z) == 0
    ensures Val(z) == Val(a) / Pow2(32 * k + s)
  {
    hide Val, Weight, Pow2, Shr, Rem;
    ModulusIsWeight();
    ValBound(a);
    if k < WIDTH {
      ValSplit(a, k);
      ValBound(a[..k]);
      WeightIsPow2(k);
      Pow2Add(32 * k, s);
      assert a[k..WIDTH] == a[k..];
      WordDown(a[k], s);
      RightTail(z, k);
      RightTotal(Val(z), Pow2(s), Rem(a[k], s), Weight(k), Val(a[..k]), Val(a[k..]), Val(a));
    } else {
      Pow2Monotone(256, 32 * k + s);
      DivUnique(Val(a), Pow2(32 * k + s), 0, Val(a));
    }
  }

  lemma RightTail(z: seq<Word>, k: nat)
    requires |z| == WIDTH && k < WIDTH && forall m :: WIDTH - k <= m < WIDTH ==> z[m] == 0
    ensures Val(z[..WIDTH - k]) == Val(z)
  {
    hide Val;
    ValSplit(z, WIDTH - k);
    ValZero(z[WIDTH - k..]);
  }

  lemma RightTotal(vz: nat, t: nat, r: int, wk: nat, low: nat, high: nat, va: nat)
    requires 0 <= r < t && low < wk && t * vz + r == high && va == low + wk * high
    ensures wk * t > 0 && vz == va / (wk * t)
  {
    Regrouped(wk, t, vz, r);
    RestBelow(wk, t, r, low);
    DivUnique(va, wk * t, vz, wk * r + low);
  }

  lemma Regrouped(w: int, t: int, v: int, r: int)
    ensures w * (t * v + r) == v * (w * t) + w * r
  {
  }

  lemma RestBelow(w: nat, t: int, r: int, low: nat)
    requires 0 <= r < t && low < w
    ensures 0 <= w * r + low < w * t
  {
    NonNegative(w, t - 1 - r);
    NonNegative(w, r);
    assert w * (t - 1 - r) == w * t - w - w * r;
  }

  // ----- Division ---------------------------------------------------------------------------------

  /** The bits below position `e` are clear. */
  ghost predicate LowClear(z: seq<Word>, e: nat) {
    && (forall m :: 0 <= m < e / 32 && m < |z| ==> z[m] == 0)
    && (e / 32 < |z| ==> z[e / 32] % Pow2(e % 32) == 0)
  }

  lemma NothingSet(z: seq<Word>, e: nat)
    requires forall m :: 0 <= m < |z| ==> z[m] == 0
    ensures LowClear(z, e)
  {
    MultipleOf(Pow2(e % 32), 0);
  }

  /** The word at a bit position is a multiple of twice the bit. */
  lemma ClearWord(z: seq<Word>, shift: nat)
    requires LowClear(z, shift + 1) && shift / 32 < |z|
    ensures z[shift / 32] % Pow2(shift % 32 + 1) == 0 && z[shift / 32] % Pow2(shift % 32) == 0
  {
    hide Pow2;
    var x, b := z[shift / 32], shift % 32;
    MultipleOf(Pow2(b + 1), 0);
    assert b + 1 < 32 ==> (shift + 1) / 32 == shift / 32 && (shift + 1) % 32 == b + 1;
    var q := x / Pow2(b + 1);
    assert x == q * Pow2(b + 1);
    Pow2Next(b);
    assert q * (2 * Pow2(b)) == Pow2(b) * (2 * q);
    MultipleOf(Pow2(b), 2 * q);
  }

  lemma Pow2Next(n: nat)
    ensures Pow2(n + 1) == 2 * Pow2(n)
  {
  }

  lemma StillClear(z: seq<Word>, shift: nat)
    requires LowClear(z, shift + 1)
    ensures LowClear(z, shift)
  {
    hide Pow2;
    if shift / 32 < |z| { ClearWord(z, shift); }
  }

  lemma BitFits(z: seq<Word>, shift: nat)
    requires LowClear(z, shift + 1) && shift / 32 < |z|
    ensures var w, bit := shift / 32, Pow2(shift % 32);
            && BitOr(z[w], bit) == z[w] + bit < BASE
            && Val(z[w := z[w] + bit]) == Val(z) + Pow2(shift)
            && LowClear(z[w := z[w] + bit], shift)
  {
    hide Val, Pow2, BitOr;
    var w, b := shift / 32, shift % 32;
    var bit := Pow2(b);
    ClearWord(z, shift);
    Pow2Next(b);
    Pow2Values();
    Pow2Monotone(b + 1, 32);
    OrAdds(z[w], bit, b + 1);
    LowFits(z[w], bit, b + 1);
    ValUpdate(z, w, z[w] + bit);
    WeightIsPow2(w);
    Pow2Add(32 * w, b);
    OneMoreMultiple(z[w], bit);
  }

  lemma OneMoreMultiple(x: nat, bit: nat)
    requires bit > 0 && x % bit == 0
    ensures (x + bit) % bit == 0
  {
    var q := x / bit;
    assert x == q * bit && bit * (q + 1) == q * bit + bit;
    MultipleOf(bit, q + 1);
  }

  /** The quotient has its bits above `shift`, and the rest is what is left to divide. */
  ghost predicate Dividing(n: nat, d: nat, q: nat, rest: nat, div: nat, shift: int)
    requires shift >= -1
  {
    && n == q * d + rest
    && if shift == -1 then rest < d else div == d * Pow2(shift) && rest < 2 * div
  }

  lemma SmallerQuotient(n: nat, d: nat, numBits: nat, divBits: nat)
    requires IsBits(n, numBits) && IsBits(d, divBits) && divBits > numBits
    ensures n / d == 0 && d > 0
  {
    hide Pow2;
    Pow2Monotone(numBits, divBits - 1);
    DivUnique(n, d, 0, n);
  }

  lemma Aligned(n: nat, d: nat, numBits: nat, divBits: nat)
    requires IsBits(n, numBits) && IsBits(d, divBits) && 0 < divBits <= numBits <= 256
    ensures var shift := numBits - divBits;
            Modulo(d * Pow2(shift)) == d * Pow2(shift) && Dividing(n, d, 0, n, d * Pow2(shift), shift)
  {
    hide Pow2, Modulo;
    var shift := numBits - divBits;
    AlignedBounds(d, divBits, shift);
    Pow2Next(numBits - 1);
    Pow2Monotone(numBits, 256);
    ModulusIsWeight();
    ModuloSmall(d * Pow2(shift));
  }

  /** A number moved up keeps its leading bit. */
  lemma AlignedBounds(d: nat, bits: nat, shift: nat)
    requires IsBits(d, bits) && 0 < bits
    ensures Pow2(bits + shift - 1) <= d * Pow2(shift) < Pow2(bits + shift)
  {
    hide Pow2;
    Pow2Add(bits, shift);
    Pow2Add(bits - 1, shift);
    var p := Pow2(shift);
    NonNegative(d - Pow2(bits - 1), p);
    NonNegative(Pow2(bits) - 1 - d, p);
    assert (d - Pow2(bits - 1)) * p == d * p - Pow2(bits - 1) * p;
    assert (Pow2(bits) - 1 - d) * p == Pow2(bits) * p - p - d * p;
  }

  lemma ModuloSmall(x: nat)
    requires x < MODULUS
    ensures Modulo(x) == x
  {
  }

  lemma HalfDiv(d: nat, shift: nat)
    ensures shift > 0 ==>
              (d * Pow2(shift)) / Pow2(1) == d * Pow2(shift - 1) && d * Pow2(shift) == 2 * (d * Pow2(shift - 1))
    ensures shift == 0 ==> d * Pow2(shift) == d
  {
    if shift > 0 {
      Pow2Values();
      var p := Pow2(shift - 1);
      assert d * (2 * p) == 2 * (d * p);
    }
  }

  lemma BitSet(n: nat, d: nat, q: nat, rest: nat, div: nat, shift: nat)
    requires Dividing(n, d, q, rest, div, shift) && rest >= div
    ensures Dividing(n, d, q + Pow2(shift), rest - div, div / Pow2(1), shift - 1)
  {
    hide Pow2;
    HalfDiv(d, shift);
    assert (q + Pow2(shift)) * d == q * d + d * Pow2(shift);
  }

  lemma BitUnset(n: nat, d: nat, q: nat, rest: nat, div: nat, shift: nat)
    requires Dividing(n, d, q, rest, div, shift) && rest < div
    ensures Dividing(n, d, q, rest, div / Pow2(1), shift - 1)
  {
    hide Pow2;
    HalfDiv(d, shift);
  }

  lemma DividedAll(n: nat, d: nat, q: nat, rest: nat, div: nat)
    requires Dividing(n, d, q, rest, div, -1)
    ensures d > 0 && n / d == q
  {
    DivUnique(n, d, q, rest);
  }
}
