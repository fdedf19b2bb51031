/** Base58 strings: byte strings as numbers in base 58, with leading zero bytes kept. */
module Base58 {
  import opened Numerals
  import opened Words
  import opened Wrappers

  // ----- Buffer sizes -------------------------------------------------------------------------------------------

  lemma PowerOf58To11()
    ensures Pow(58, 11) == 24986644000165537792
  {
    assert Pow(58, 1) == 58 * Pow(58, 0) == 58;
    hide Pow;
    PowAdd(58, 1, 1);
    assert Pow(58, 2) == 3364;
    PowAdd(58, 2, 2);
    assert Pow(58, 4) == 11316496;
    PowAdd(58, 4, 4);
    assert Pow(58, 8) == 128063081718016;
    PowAdd(58, 8, 2);
    assert Pow(58, 10) == 430804206899405824;
    PowAdd(58, 10, 1);
    assert Pow(58, 11) == 24986644000165537792;
  }

  lemma PowerOf256To8()
    ensures Pow(256, 8) == 18446744073709551616
  {
    assert Pow(256, 1) == 256 * Pow(256, 0) == 256;
    hide Pow;
    PowAdd(256, 1, 1);
    assert Pow(256, 2) == 65536;
    PowAdd(256, 2, 2);
    assert Pow(256, 4) == 4294967296;
    PowAdd(256, 4, 4);
    assert Pow(256, 8) == 18446744073709551616;
  }

  lemma PowerOf58To71()
    ensures Pow(58, 71) ==
      0xf1a10f76073f997e1af0b37f5c795ecf145633452837a5de3fa17ac74b86f60a0ebe5446f358940a4ca12a800000000000000000
  {
    assert Pow(58, 1) == 58 * Pow(58, 0) == 58;
    hide Pow;
    PowAdd(58, 1, 1);
    assert Pow(58, 2) == 3364;
    PowAdd(58, 2, 2);
    assert Pow(58, 4) == 11316496;
    PowAdd(58, 4, 4);
    assert Pow(58, 8) == 128063081718016;
    PowAdd(58, 8, 8);
    assert Pow(58, 16) == 16400152899115243850138976256;
    PowAdd(58, 16, 16);
    assert Pow(58, 32) == 268965015114358137726910587140455987105619365599731777536;
    PowAdd(58, 32, 32);
    assert Pow(58, 64) ==
      0x7853026ae25f4ce0c69893e6f1f86f67aef4db69563516064adeb967a9d66f4fe64b09ec94e5010000000000000000;
    PowAdd(58, 64, 4);
    assert Pow(58, 68) ==
      0x51291d3da279b033ee22c4e4a6e2dedc799439d259d1820f6deea1c2dcc053504eae09c5598944bbfd100000000000000000;
    PowAdd(58, 68, 2);
    assert Pow(58, 70) ==
      0x42a80443deb070f6a6540e34ca0fd38892d9fc7d024451112c093c5a49ccf46cb49e6f8654c8fcb364966400000000000000000;
    PowAdd(58, 70, 1);
    assert Pow(58, 71) ==
      0xf1a10f76073f997e1af0b37f5c795ecf145633452837a5de3fa17ac74b86f60a0ebe5446f358940a4ca12a800000000000000000;
  }

  lemma PowerOf256To52()
    ensures Pow(256, 52) ==
      0x100000000000000000000000000000000000000000000000000000000000000000000000000000000000000000000000000000000
  {
    assert Pow(256, 1) == 256 * Pow(256, 0) == 256;
    hide Pow;
    PowAdd(256, 1, 1);
    assert Pow(256, 2) == 65536;
    PowAdd(256, 2, 2);
    assert Pow(256, 4) == 4294967296;
    PowAdd(256, 4, 4);
    assert Pow(256, 8) == 18446744073709551616;
    PowAdd(256, 8, 8);
    assert Pow(256, 16) == 340282366920938463463374607431768211456;
    PowAdd(256, 16, 16);
    assert Pow(256, 32) == 115792089237316195423570985008687907853269984665640564039457584007913129639936;
    PowAdd(256, 32, 16);
    assert Pow(256, 48) ==
      0x1000000000000000000000000000000000000000000000000000000000000000000000000000000000000000000000000;
    PowAdd(256, 48, 4);
    assert Pow(256, 52) ==
      0x100000000000000000000000000000000000000000000000000000000000000000000000000000000000000000000000000000000;
  }

  /** The buffer for base 58 holds any number of `n` bytes. */
  lemma EncodeBufferSuffices(n: nat)
    ensures Pow(256, n) <= Pow(58, n * 138 / 100 + 1)
  {
    hide Pow;
    PowerOf256To8();
    PowerOf58To11();
    DigitsFit(256, 8, 58, 11, n, n * 138 / 100 + 1);
  }

  /** The buffer for bytes holds any number of `n` base-58 digits. */
  lemma DecodeBufferSuffices(n: nat)
    ensures Pow(58, n) <= Pow(256, n * 733 / 1000 + 1)
  {
    hide Pow;
    PowerOf58To71();
    PowerOf256To52();
    DigitsFit(58, 71, 256, 52, n, n * 733 / 1000 + 1);
  }

  // ----- Conversion in place --------------------------------------------------------------------------------------

  /** The digits above the lowest `length` are zero. */
  ghost predicate ShortOf(s: seq<int>, length: nat) {
    length <= |s| && forall i :: 0 <= i < |s| - length ==> s[i] == 0
  }

  /** `i` digits from the end are done. */
  ghost predicate PartialMulAdd(s: seq<int>, s0: seq<int>, base: nat, factor: nat, digit: int, i: nat, carry: int)
    requires i <= |s| == |s0|
  {
    Num(s[|s| - i..], base) + Pow(base, i) * carry == factor * Num(s0[|s| - i..], base) + digit
  }

  lemma MulAddStart(s: seq<int>, base: nat, factor: nat, digit: int)
    ensures PartialMulAdd(s, s, base, factor, digit, 0, digit)
  {
    assert s[|s|..] == [];
    assert Pow(base, 0) * digit == digit && factor * 0 == 0;
  }

  lemma MulAddStep(s: seq<int>, s0: seq<int>, base: nat, factor: nat, digit: int, i: nat, carry: int)
    requires i < |s| == |s0| && base > 0 && s[|s| - 1 - i] == s0[|s| - 1 - i]
    requires PartialMulAdd(s, s0, base, factor, digit, i, carry)
    ensures var n := carry + factor * s[|s| - 1 - i];
            PartialMulAdd(s[|s| - 1 - i := n % base], s0, base, factor, digit, i + 1, n / base)
  {
    hide Num;
    var j := |s| - 1 - i;
    var n := carry + factor * s[j];
    var s' := s[j := n % base];
    assert s'[j..] == [n % base] + s[j + 1..] && s0[j..] == [s0[j]] + s0[j + 1..];
    NumCons(n % base, s[j + 1..], base);
    NumCons(s0[j], s0[j + 1..], base);
    var p := Pow(base, i);
    CarryOver(p, n, base);
    assert factor * (s0[j] * p + Num(s0[j + 1..], base)) == p * (factor * s0[j]) + factor * Num(s0[j + 1..], base);
    assert p * (carry + factor * s[j]) == p * carry + p * (factor * s[j]);
  }

  lemma CarryOver(p: nat, n: int, base: nat)
    requires base > 0
    ensures (n % base) * p + (base * p) * (n / base) == p * n
  {
    assert n == (n / base) * base + n % base;
    assert p * ((n / base) * base + n % base) == (base * p) * (n / base) + (n % base) * p;
  }

  /** Multiplies the number in the buffer and adds a digit, from the low end upwards and only as
      far as needed; in a buffer that is large enough no carry is left. */
  method MulAdd(b: array<int>, length0: nat, base: nat, factor: nat, digit: int) returns (length: nat)
    requires base > 1 && 0 <= digit < factor && Digits(b[..], base) && ShortOf(b[..], length0)
    requires factor * Num(b[..], base) + digit < Pow(base, b.Length)
    modifies b
    ensures Digits(b[..], base) && ShortOf(b[..], length)
    ensures Num(b[..], base) == factor * old(Num(b[..], base)) + digit
  {
    hide Num, Pow, PartialMulAdd;
    ghost var s0 := b[..];
    var n := b.Length;
    var carry, i := digit, 0;
    MulAddStart(s0, base, factor, digit);
    while (carry != 0 || i < length0) && i < n
      invariant 0 <= i <= n && carry >= 0
      invariant forall k :: 0 <= k < n - i ==> b[k] == s0[k]
      invariant Digits(b[..], base)
      invariant PartialMulAdd(b[..], s0, base, factor, digit, i, carry)
      decreases n - i
    {
      var j := n - 1 - i;
      MulAddStep(b[..], s0, base, factor, digit, i, carry);
      NonNegative(factor, b[j]);
      carry := carry + factor * b[j];
      ghost var s := b[..];
      DivisionBounds(carry, base);
      b[j] := carry % base;
      assert b[..] == s[j := carry % base];
      carry := carry / base;
      i := i + 1;
    }
    MulAddEnd(b[..], s0, base, factor, digit, i, carry);
    assert carry == 0;
    length := i;
  }

  lemma DivisionBounds(x: int, base: nat)
    requires x >= 0 && base > 0
    ensures 0 <= x % base < base && x / base >= 0
  {
  }

  lemma MulAddEnd(s: seq<int>, s0: seq<int>, base: nat, factor: nat, digit: int, i: nat, carry: int)
    requires i <= |s| == |s0| && base > 1 && carry >= 0 && Digits(s, base)
    requires forall k :: 0 <= k < |s| - i ==> s[k] == s0[k] == 0
    requires PartialMulAdd(s, s0, base, factor, digit, i, carry) && (carry == 0 || i == |s|)
    requires factor * Num(s0, base) + digit < Pow(base, |s|)
    ensures carry == 0 && Num(s, base) == factor * Num(s0, base) + digit
  {
    hide Num, Pow;
    var k := |s| - i;
    NumSkipsZeros(s, k, base);
    NumSkipsZeros(s0, k, base);
    NumBounds(s, base);
    if carry > 0 {
      PowPositive(base, |s|);
      AtLeastOnce(carry, Pow(base, |s|));
    }
  }

  /** The digits in the buffer, without leading zeros. */
  method Significant(b: array<int>, length: nat, base: nat) returns (digits: seq<int>)
    requires Digits(b[..], base) && ShortOf(b[..], length)
    ensures IsNumeral(digits, base, Num(b[..], base))
  {
    hide Num;
    var i := b.Length - length;
    while i < b.Length && b[i] == 0
      invariant 0 <= i <= b.Length && forall k :: 0 <= k < i ==> b[k] == 0
    {
      i := i + 1;
    }
    digits := b[i..];
    NumSkipsZeros(b[..], i, base);
    assert b[..][i..] == b[i..];
  }

  // ----- The alphabet ---------------------------------------------------------------------------------------------

  /** The character codes of the digits: 1-9, A-H, J-N, P-Z, a-k and m-z. */
  function DigitCode(d: int): (n: int)
    requires 0 <= d < 58
    ensures 49 <= n <= 122
  {
    if d < 9 then 49 + d
    else if d < 17 then 65 + (d - 9)
    else if d < 22 then 74 + (d - 17)
    else if d < 33 then 80 + (d - 22)
    else if d < 44 then 97 + (d - 33)
    else 109 + (d - 44)
  }

  function CodeDigit(n: int): (d: int)
    ensures -1 <= d < 58
  {
    if 49 <= n <= 57 then n - 49
    else if 65 <= n <= 72 then n - 65 + 9
    else if 74 <= n <= 78 then n - 74 + 17
    else if 80 <= n <= 90 then n - 80 + 22
    else if 97 <= n <= 107 then n - 97 + 33
    else if 109 <= n <= 122 then n - 109 + 44
    else -1
  }

  function CharOf(d: int): char
    requires 0 <= d < 58
  {
    DigitCode(d) as char
  }

  function DigitOf(c: char): int {
    CodeDigit(c as int)
  }

  lemma Alphabet(c: char, d: int)
    requires 0 <= d < 58
    ensures DigitOf(c) == d <==> c == CharOf(d)
    ensures CharOf(0) == '1'
  {
  }

  predicate IsSpace(c: char) {
    c as int == 32 || 9 <= c as int <= 13
  }

  ghost function Chars(ds: seq<int>): (r: string)
    requires Digits(ds, 58)
    ensures |r| == |ds| && forall i :: 0 <= i < |ds| ==> r[i] == CharOf(ds[i])
  {
    seq(|ds|, i requires 0 <= i < |ds| => CharOf(ds[i]))
  }

  ghost function Repeat<T>(x: T, n: nat): (r: seq<T>)
    ensures |r| == n && forall i :: 0 <= i < n ==> r[i] == x
  {
    seq(n, _ => x)
  }

  /** Bytes and a string that stand for each other: as many leading ones as zero bytes, and the same
      number in base 256 and in base 58. */
  ghost predicate Encodes(bytes: seq<int>, str: string, zeroes: nat, rest: seq<int>, digits: seq<int>) {
    && bytes == Repeat(0, zeroes) + rest
    && IsNumeral(rest, 256, Num(rest, 256)) && IsNumeral(digits, 58, Num(rest, 256))
    && str == Repeat('1', zeroes) + Chars(digits)
  }

  /** Encodes bytes; the buffer never overflows. */
  method EncodeBase58(bytes: seq<int>) returns (str: string, ghost zeroes: nat, ghost digits: seq<int>)
    requires Digits(bytes, 256)
    ensures zeroes <= |bytes| && Encodes(bytes, str, zeroes, bytes[zeroes..], digits)
    ensures AllDigits(str, 0, |str|)
  {
    hide Num, Pow;
    var p := 0;
    while p < |bytes| && bytes[p] == 0
      invariant 0 <= p <= |bytes| && forall k :: 0 <= k < p ==> bytes[k] == 0
    {
      p := p + 1;
    }
    zeroes := p;
    var rest := bytes[p..];
    assert bytes == Repeat(0, p) + rest;
    var size := |rest| * 138 / 100 + 1;
    var b58 := new int[size](_ => 0);
    var length := 0;
    EncodeBufferSuffices(|rest|);
    NumZeros(b58[..], 58);
    NoDigits(rest, 256);
    for i := 0 to |rest|
      invariant Digits(b58[..], 58) && ShortOf(b58[..], length)
      invariant Num(b58[..], 58) == Num(rest[..i], 256)
    {
      NextDigit(rest, i, 256);
      NextFits(rest, i, 256, Pow(58, size));
      length := MulAdd(b58, length, 58, 256, rest[i]);
    }
    assert rest[..|rest|] == rest;
    var ds := Significant(b58, length, 58);
    digits := ds;
    str := "";
    for i := 0 to p
      invariant str == Repeat('1', i)
    {
      str := str + ['1'];
    }
    for i := 0 to |ds|
      invariant Digits(ds[..i], 58) && str == Repeat('1', p) + Chars(ds[..i])
    {
      str := str + [CharOf(ds[i])];
    }
    assert ds[..|ds|] == ds;
  }

  lemma NoDigits(s: seq<int>, base: nat)
    ensures Num(s[..0], base) == 0
  {
  }

  lemma NextDigit(s: seq<int>, i: nat, base: nat)
    requires i < |s|
    ensures Num(s[..i + 1], base) == base * Num(s[..i], base) + s[i]
  {
    hide Num;
    assert s[..i + 1] == s[..i] + [s[i]];
    NumSnoc(s[..i], s[i], base);
  }

  /** The number read so far never exceeds what the whole could be. */
  lemma NextFits(s: seq<int>, i: nat, base: nat, limit: nat)
    requires i < |s| && base > 0 && Digits(s, base) && Pow(base, |s|) <= limit
    ensures base * Num(s[..i], base) + s[i] < limit
  {
    hide Num, Pow;
    NextDigit(s, i, base);
    assert Digits(s[..i + 1], base);
    NumBounds(s[..i + 1], base);
    PowGrows(base, i + 1, |s|);
  }

  /** A string up to its first null character. */
  function Terminated(str: string): (s: string)
    ensures s <= str && forall i :: 0 <= i < |s| ==> s[i] as int != 0
    ensures |s| < |str| ==> str[|s|] as int == 0
  {
    if str == "" || str[0] as int == 0 then ""
    else
      var rest := Terminated(str[1..]);
      [str[0]] + rest
  }

  /** Only spaces lie outside the stretch. */
  ghost predicate Framed(s: string, from: nat, to: nat) {
    && from <= to <= |s|
    && (forall k :: 0 <= k < from ==> IsSpace(s[k]))
    && (forall k :: to <= k < |s| ==> IsSpace(s[k]))
  }

  ghost predicate AllDigits(s: string, from: nat, to: nat)
    requires from <= to <= |s|
  {
    forall k :: from <= k < to ==> DigitOf(s[k]) != -1
  }

  ghost function DigitsOf(s: string): (ds: seq<int>)
    ensures |ds| == |s| && forall i :: 0 <= i < |s| ==> ds[i] == DigitOf(s[i])
  {
    seq(|s|, i requires 0 <= i < |s| => DigitOf(s[i]))
  }

  /** The bytes that the stretch of a string between its spaces stands for. */
  ghost predicate Decodes(s: string, bytes: seq<int>, from: nat, to: nat, zeroes: nat, rest: seq<int>) {
    && Framed(s, from, to) && from + zeroes <= to
    && Encodes(bytes, s[from..to], zeroes, rest, DigitsOf(s[from + zeroes..to]))
  }

  /** Decodes a string that may have spaces around it; it fails exactly when what is between them
      is not all in the alphabet. */
  method DecodeBase58(str: string)
    returns (r: Option<seq<int>>, ghost from: nat, ghost to: nat, ghost zeroes: nat, ghost rest: seq<int>)
    ensures r.Some? ==> Decodes(Terminated(str), r.value, from, to, zeroes, rest)
    ensures r == None ==> forall l, m :: Framed(Terminated(str), l, m) ==> !AllDigits(Terminated(str), l, m)
  {
    hide Num, Pow, DigitOf, IsSpace, Terminated;
    from, to, zeroes, rest := 0, 0, 0, [];
    var s := Terminated(str);
    var p := 0;
    while p < |s| && IsSpace(s[p])
      invariant 0 <= p <= |s| && forall k :: 0 <= k < p ==> IsSpace(s[k])
    {
      p := p + 1;
    }
    from := p;
    var ones := 0;
    while p < |s| && s[p] == '1'
      invariant p == from + ones <= |s| && forall k :: from <= k < p ==> s[k] == '1'
      decreases |s| - p
    {
      ones, p := ones + 1, p + 1;
    }
    var ok, bytes;
    ok, p, bytes := ReadNumber(s, p);
    if !ok {
      BadCharacter(s, p);
      return None, from, to, zeroes, rest;
    }
    to := p;
    while p < |s| && IsSpace(s[p])
      invariant to <= p <= |s| && forall k :: to <= k < p ==> IsSpace(s[k])
    {
      p := p + 1;
    }
    if p != |s| {
      InnerSpace(s, from, to, p);
      return None, from, to, zeroes, rest;
    }
    zeroes := ones;
    rest := bytes;
    var out: seq<int> := [];
    for i := 0 to ones
      invariant out == Repeat(0, i)
    {
      out := out + [0];
    }
    DecodedAll(s, from, to, zeroes, rest);
    return Some(out + bytes), from, to, zeroes, rest;
  }

  /** Reads base-58 digits up to a space or the end, as the bytes of a number. */
  method ReadNumber(s: string, start: nat) returns (ok: bool, p: nat, bytes: seq<int>)
    requires start <= |s|
    ensures start <= p <= |s| && (forall k :: start <= k < p ==> !IsSpace(s[k]))
    ensures ok ==> AllDigits(s, start, p) && (p < |s| ==> IsSpace(s[p]))
                   && IsNumeral(bytes, 256, Num(DigitsOf(s[start..p]), 58))
    ensures !ok ==> p < |s| && !IsSpace(s[p]) && DigitOf(s[p]) == -1
  {
    hide Num, Pow, DigitOf, IsSpace;
    p := start;
    var size := (|s| - p) * 733 / 1000 + 1;
    var b256 := new int[size](_ => 0);
    var length := 0;
    DecodeBufferSuffices(|s| - start);
    NumZeros(b256[..], 256);
    NoDigits(DigitsOf(s[start..start]), 58);
    while p < |s| && !IsSpace(s[p])
      invariant start <= p <= |s| && AllDigits(s, start, p) && (forall k :: start <= k < p ==> !IsSpace(s[k]))
      invariant Digits(b256[..], 256) && ShortOf(b256[..], length)
      invariant Num(b256[..], 256) == Num(DigitsOf(s[start..p]), 58)
    {
      var carry := DigitOf(s[p]);
      if carry == -1 {
        return false, p, [];
      }
      NextCharacter(s, start, p, Pow(256, size));
      length := MulAdd(b256, length, 256, 58, carry);
      p := p + 1;
    }
    bytes := Significant(b256, length, 256);
    ok := true;
  }

  lemma BadCharacter(s: string, p: nat)
    requires p < |s| && !IsSpace(s[p]) && DigitOf(s[p]) == -1
    ensures forall l, m :: Framed(s, l, m) ==> !AllDigits(s, l, m)
  {
  }

  lemma InnerSpace(s: string, from: nat, to: nat, p: nat)
    requires from < to < p < |s| && !IsSpace(s[from]) && IsSpace(s[to]) && !IsSpace(s[p])
    ensures forall l, m :: Framed(s, l, m) ==> !AllDigits(s, l, m)
  {
    assert DigitOf(s[to]) == -1;
  }

  lemma NextCharacter(s: string, start: nat, p: nat, limit: nat)
    requires start <= p < |s| && AllDigits(s, start, p) && DigitOf(s[p]) != -1 && Pow(58, |s| - start) <= limit
    ensures 0 <= DigitOf(s[p]) < 58
    ensures Num(DigitsOf(s[start..p + 1]), 58) == 58 * Num(DigitsOf(s[start..p]), 58) + DigitOf(s[p]) < limit
  {
    hide Num, Pow, DigitOf;
    MoreDigits(s, start, p);
    NumSnoc(DigitsOf(s[start..p]), DigitOf(s[p]), 58);
    NumBounds(DigitsOf(s[start..p + 1]), 58);
    PowGrows(58, p + 1 - start, |s| - start);
  }

  lemma MoreDigits(s: string, start: nat, p: nat)
    requires start <= p < |s| && AllDigits(s, start, p) && DigitOf(s[p]) != -1
    ensures 0 <= DigitOf(s[p]) < 58 && Digits(DigitsOf(s[start..p + 1]), 58)
    ensures DigitsOf(s[start..p + 1]) == DigitsOf(s[start..p]) + [DigitOf(s[p])]
  {
    var t := s[start..p + 1];
    forall i | 0 <= i < |t| ensures 0 <= DigitOf(t[i]) < 58 {
      assert t[i] == s[start + i];
      InAlphabet(t[i]);
    }
  }

  lemma DecodedAll(s: string, from: nat, to: nat, zeroes: nat, rest: seq<int>)
    requires Framed(s, from, to) && from + zeroes <= to && AllDigits(s, from + zeroes, to)
    requires forall k :: from <= k < from + zeroes ==> s[k] == '1'
    requires from + zeroes < to ==> s[from + zeroes] != '1'
    requires IsNumeral(rest, 256, Num(DigitsOf(s[from + zeroes..to]), 58))
    ensures Decodes(s, Repeat(0, zeroes) + rest, from, to, zeroes, rest)
  {
    hide Num, Framed;
    FramedRange(s, from, to);
    var t := s[from + zeroes..to];
    var ds := DigitsOf(t);
    forall i | 0 <= i < |t| ensures 0 <= ds[i] < 58 && t[i] == CharOf(ds[i]) && (i == 0 ==> ds[i] != 0) {
      assert t[i] == s[from + zeroes + i];
      InAlphabet(t[i]);
      if i == 0 { Alphabet(t[0], 0); }
    }
    assert t == Chars(ds);
    assert s[from..to] == Repeat('1', zeroes) + t;
  }

  lemma InAlphabet(c: char)
    requires DigitOf(c) != -1
    ensures 0 <= DigitOf(c) < 58 && c == CharOf(DigitOf(c))
  {
  }

  // ----- Round trips ------------------------------------------------------------------------------------------------

  /** Leading items that the rest does not start with can be counted. */
  lemma SameLead<T>(x: T, n: nat, s: seq<T>, m: nat, t: seq<T>)
    requires Repeat(x, n) + s == Repeat(x, m) + t
    requires (s != [] ==> s[0] != x) && (t != [] ==> t[0] != x)
    ensures n == m && s == t
  {
    var a, b := Repeat(x, n) + s, Repeat(x, m) + t;
    assert s == a[n..] && t == b[m..];
  }

  /** Bytes and strings that encode each other determine each other. */
  lemma OneToOne(b: seq<int>, s: string, z: nat, r: seq<int>, d: seq<int>,
                 b': seq<int>, s': string, z': nat, r': seq<int>, d': seq<int>)
    requires Encodes(b, s, z, r, d) && Encodes(b', s', z', r', d')
    ensures b == b' <==> s == s'
  {
    hide Num;
    if b == b' {
      SameLead(0, z, r, z', r');
      OneNumeral(d, d', 58, Num(r, 256));
    }
    if s == s' {
      FirstChar(d);
      FirstChar(d');
      SameLead('1', z, Chars(d), z', Chars(d'));
      CharsInjective(d, d');
      OneNumeral(r, r', 256, Num(r, 256));
    }
  }

  lemma FirstChar(d: seq<int>)
    requires Digits(d, 58) && (d != [] ==> d[0] != 0)
    ensures Chars(d) != [] ==> Chars(d)[0] != '1'
  {
    if d != [] {
      Alphabet('1', d[0]);
      Alphabet('1', 0);
    }
  }

  lemma CharsInjective(d: seq<int>, d': seq<int>)
    requires Digits(d, 58) && Digits(d', 58) && Chars(d) == Chars(d')
    ensures d == d'
  {
    assert |d| == |Chars(d)| == |d'|;
    forall i | 0 <= i < |d| ensures d[i] == d'[i] {
      assert Chars(d)[i] == Chars(d')[i];
      Alphabet(CharOf(d[i]), d[i]);
      Alphabet(CharOf(d[i]), d'[i]);
    }
  }

  /** Every byte string survives encoding and decoding, leading zeros included. */
  method RoundTrip(bytes: seq<int>) returns (str: string, r: Option<seq<int>>)
    requires Digits(bytes, 256)
    ensures r == Some(bytes)
  {
    hide Num, Terminated;
    ghost var z, d, from, to, z', rest';
    str, z, d := EncodeBase58(bytes);
    EncodedText(str, z, d);
    r, from, to, z', rest' := DecodeBase58(str);
    assert Framed(str, 0, |str|);
    WholeText(str, from, to);
    assert str[0..|str|] == str;
    OneToOne(bytes, str, z, bytes[z..], d, r.value, str[from..to], z', rest', DigitsOf(str[from + z'..to]));
  }

  /** An encoded string is all digits, without spaces or null characters. */
  lemma EncodedText(str: string, z: nat, d: seq<int>)
    requires Digits(d, 58) && str == Repeat('1', z) + Chars(d)
    ensures Terminated(str) == str && AllDigits(str, 0, |str|)
    ensures forall k :: 0 <= k < |str| ==> !IsSpace(str[k])
  {
    hide DigitOf, IsSpace, CharOf;
    forall k | 0 <= k < |str| ensures DigitOf(str[k]) != -1 && !IsSpace(str[k]) && str[k] as int != 0 {
      if k < z {
        DigitText(0);
        Alphabet('1', 0);
      } else {
        DigitText(d[k - z]);
      }
    }
  }

  lemma DigitText(d: int)
    requires 0 <= d < 58
    ensures DigitOf(CharOf(d)) == d && !IsSpace(CharOf(d)) && CharOf(d) as int != 0
  {
  }

  lemma WholeText(str: string, from: nat, to: nat)
    requires Framed(str, from, to) && forall k :: 0 <= k < |str| ==> !IsSpace(str[k])
    ensures str == "" || (from == 0 && to == |str|)
    ensures str[from..to] == str
  {
    hide IsSpace;
    if str != "" {
      var first, last := str[0], str[|str| - 1];
      assert from > 0 ==> IsSpace(first);
      assert to < |str| ==> IsSpace(last);
    }
  }

  /** Decoding and encoding again returns the string without the spaces around it. */
  method Canonical(str: string) returns (r: Option<seq<int>>, str': string, ghost from: nat, ghost to: nat)
    ensures r.Some? ==> Framed(Terminated(str), from, to) && str' == Terminated(str)[from..to]
    ensures r.Some? ==> AllDigits(Terminated(str), from, to)
    ensures r == None ==> forall l, m :: Framed(Terminated(str), l, m) ==> !AllDigits(Terminated(str), l, m)
  {
    hide Num, Terminated, Framed;
    ghost var z, rest;
    r, from, to, z, rest := DecodeBase58(str);
    str' := "";
    if r.Some? {
      ghost var s := Terminated(str);
      FramedRange(s, from, to);
      ghost var z', d';
      assert Digits(r.value, 256);
      str', z', d' := EncodeBase58(r.value);
      OneToOne(r.value, s[from..to], z, rest, DigitsOf(s[from + z..to]), r.value, str', z', r.value[z'..], d');
    }
  }

  lemma FramedRange(s: string, from: nat, to: nat)
    requires Framed(s, from, to)
    ensures from <= to <= |s|
  {
  }
}
