/** Golomb-coded sets (the "Golomb-Coded Sets" section of BIP 158). */
module GolombSet {
  import opened Words
  import opened BitStream
  import opened CompactSize
  import opened Stretches
  import opened Wrappers

  ghost function Ones(q: nat): (r: seq<bool>)
    ensures |r| == q && forall i :: 0 <= i < q ==> r[i]
  {
    seq(q, _ => true)
  }

  // ----- Golomb-Rice codes --------------------------------------------------------------------------------------

  /** The quotient in unary, and the remainder in P bits. */
  ghost function Code(x: nat, P: nat): seq<bool> {
    Ones(Quotient(x, P)) + [false] + LowBits(x, P)
  }

  function Quotient(x: nat, P: nat): nat {
    DivNonNegative(x, Pow2(P));
    x / Pow2(P)
  }

  /** A number from its quotient and remainder, in 64 bits. */
  function Joined(q: nat, P: nat, r: nat): nat {
    NonNegative(q, Pow2(P));
    ((q * Pow2(P)) % UINT64_RANGE + r) % UINT64_RANGE
  }

  lemma DivNonNegative(x: nat, d: nat)
    requires d > 0
    ensures x / d >= 0
  {
  }

  method GolombRiceEncode(writer: BitStreamWriter, P: nat, x: nat)
    requires P < 64 && writer.Valid()
    modifies writer
    ensures writer.Valid() && writer.Bits() == old(writer.Bits()) + Code(x, P)
  {
    hide Pow2, Quotient, LowBits, BitStreamWriter.Bits, BitStreamWriter.Padded;
    var q := Quotient(x, P);
    ghost var quotient, start := q, writer.Bits();
    while q > 0
      invariant writer.Valid() && 0 <= q <= quotient && writer.Bits() == start + Ones(quotient - q)
    {
      var nbits := if q <= 64 then q else 64;
      AllOnes(nbits);
      var _ := writer.Write(UINT64_RANGE - 1, nbits);
      assert Ones(quotient - q) + Ones(nbits) == Ones(quotient - q + nbits);
      q := q - nbits;
    }
    var _ := writer.Write(0, 1);
    ZeroBit();
    var _ := writer.Write(x, P);
  }

  lemma ZeroBit()
    ensures LowBits(0, 1) == [false]
  {
    assert LowBits(0, 0) == [];
  }

  /** The low bits of the largest 64-bit number are ones. */
  lemma AllOnes(n: nat)
    requires n <= 64
    ensures LowBits(UINT64_RANGE - 1, n) == Ones(n)
  {
    Pow2Values();
    Pow2Add(32, 32);
    OnesBelow(64, n);
  }

  lemma {:induction false} OnesBelow(k: nat, n: nat)
    requires n <= k
    ensures LowBits(Pow2(k) - 1, n) == Ones(n)
    decreases n
  {
    if n > 0 {
      assert (Pow2(k) - 1) / 2 == Pow2(k - 1) - 1;
      OnesBelow(k - 1, n - 1);
    }
  }

  /** The number of ones from a position on. */
  ghost function OnesFrom(bits: seq<bool>, pos: nat): nat
    decreases |bits| - pos
  {
    if pos < |bits| && bits[pos] then 1 + OnesFrom(bits, pos + 1) else 0
  }

  ghost function ReadCode(bits: seq<bool>, pos: nat, P: nat): Option<(nat, nat)>
    requires pos <= |bits|
  {
    var q := OnesFrom(bits, pos);
    var end := pos + q + 1 + P;
    if end > |bits| then None
    else Some((Joined(q, P, FromBits(bits[end - P..end])), end))
  }

  lemma {:induction false} OnesThenZero(bits: seq<bool>, pos: nat, q: nat)
    requires pos + q < |bits| && !bits[pos + q] && forall i :: pos <= i < pos + q ==> bits[i]
    ensures OnesFrom(bits, pos) == q
    decreases q
  {
    if q > 0 { OnesThenZero(bits, pos + 1, q - 1); }
  }

  lemma UnaryReadsBack(bits: seq<bool>, pos: nat, q: nat)
    requires At(bits, pos, Ones(q) + [false])
    ensures OnesFrom(bits, pos) == q
  {
    var unary := Ones(q) + [false];
    assert bits[pos + q] == bits[pos..pos + q + 1][q] == unary[q];
    forall i | pos <= i < pos + q ensures bits[i] {
      assert bits[i] == bits[pos..pos + q + 1][i - pos] == unary[i - pos];
    }
    OnesThenZero(bits, pos, q);
  }

  /** Decoding a code returns the number that was encoded. */
  lemma CodeReadsBack(bits: seq<bool>, pos: nat, P: nat, x: nat)
    requires At(bits, pos, Code(x, P)) && x < UINT64_RANGE
    ensures pos <= |bits| && ReadCode(bits, pos, P) == Some((x, pos + |Code(x, P)|))
  {
    hide Pow2, OnesFrom, LowBits, FromBits, Quotient, Joined;
    var q := Quotient(x, P);
    AtSplit(bits, pos, Ones(q) + [false], LowBits(x, P));
    UnaryReadsBack(bits, pos, q);
    LowBitsValue(x, P);
    NumberJoined(x, P);
    assert bits[pos + q + 1..pos + q + 1 + P] == LowBits(x, P);
  }

  lemma NumberJoined(x: nat, P: nat)
    requires x < UINT64_RANGE
    ensures Joined(Quotient(x, P), P, x % Pow2(P)) == x
  {
    hide Pow2;
    CodeValue(x, Pow2(P));
  }

  lemma CodeValue(x: nat, p: nat)
    requires p > 0 && x < UINT64_RANGE
    ensures (((x / p) * p) % UINT64_RANGE + x % p) % UINT64_RANGE == x
  {
    assert x == (x / p) * p + x % p;
    NonNegative(x / p, p);
    SmallModulo((x / p) * p, x);
  }

  lemma SmallModulo(y: nat, x: nat)
    requires y <= x < UINT64_RANGE
    ensures y % UINT64_RANGE == y && x % UINT64_RANGE == x
  {
  }

  method GolombRiceDecode(reader: BitStreamReader, P: nat) returns (ok: bool, x: nat)
    requires P < 64 && reader.Valid()
    modifies reader
    ensures reader.Valid()
    ensures ReadCode(reader.Bits(), old(reader.Pos()), P) == if ok then Some((x, reader.Pos())) else None
  {
    hide Joined, BytesBits;
    ghost var bits, start := reader.Bits(), reader.Pos();
    var q, bit := 0, 0;
    ok, bit := reader.Read(1);
    while ok && bit == 1
      invariant reader.Valid()
      invariant OnesFrom(bits, start) == q + OnesFrom(bits, start + q)
      invariant if ok then reader.Pos() == start + q + 1 && bit == (if bits[start + q] then 1 else 0)
                else start + q == |bits|
      decreases |bits| - start - q
    {
      q := q + 1;
      ok, bit := reader.Read(1);
      if ok { OneBit(bits, start + q); }
    }
    if !ok {
      return false, 0;
    }
    var r;
    ok, r := reader.Read(P);
    if !ok {
      return false, 0;
    }
    x := Joined(q, P, r);
  }

  lemma OneBit(bits: seq<bool>, pos: nat)
    requires pos < |bits|
    ensures FromBits(bits[pos..pos + 1]) == if bits[pos] then 1 else 0
  {
    assert bits[pos..pos + 1] == [bits[pos]];
    assert [bits[pos]][..0] == [];
  }

  // ----- Mapping into a range -----------------------------------------------------------------------------------

  /** The upper 64 bits of a product of 64-bit numbers, from products of their 32-bit halves. */
  function MapIntoRange(x: nat, n: nat): (r: nat)
    requires x < UINT64_RANGE && n < UINT64_RANGE
    ensures r == x * n / UINT64_RANGE
  {
    var xHi, xLo, nHi, nLo := x / BASE, x % BASE, n / BASE, n % BASE;
    Pieces(xHi, xLo, nHi, nLo);
    var ac, ad, bc, bd := xHi * nHi, xHi * nLo, xLo * nHi, xLo * nLo;
    var mid34 := bd / BASE + bc % BASE + ad % BASE;
    ac + bc / BASE + ad / BASE + mid34 / BASE
  }

  lemma Pieces(xHi: nat, xLo: nat, nHi: nat, nLo: nat)
    requires xHi < BASE && xLo < BASE && nHi < BASE && nLo < BASE
    ensures var ac, ad, bc, bd := xHi * nHi, xHi * nLo, xLo * nHi, xLo * nLo;
            && ac >= 0 && ad >= 0 && bc >= 0 && bd >= 0
            && ac + bc / BASE + ad / BASE + (bd / BASE + bc % BASE + ad % BASE) / BASE
               == ((xHi * BASE + xLo) * (nHi * BASE + nLo)) / UINT64_RANGE
  {
    var ac, ad, bc, bd := xHi * nHi, xHi * nLo, xLo * nHi, xLo * nLo;
    NonNegative(xHi, nHi);
    NonNegative(xHi, nLo);
    NonNegative(xLo, nHi);
    NonNegative(xLo, nLo);
    Product(xHi, xLo, nHi, nLo);
    UpperHalf(ac, ad, bc, bd);
  }

  lemma Product(a: nat, b: nat, c: nat, d: nat)
    ensures (a * BASE + b) * (c * BASE + d) == UINT64_RANGE * (a * c) + BASE * (a * d) + BASE * (b * c) + b * d
  {
    assert (a * BASE + b) * (c * BASE + d) == (a * BASE) * (c * BASE) + (a * BASE) * d + b * (c * BASE) + b * d;
    assert (a * BASE) * (c * BASE) == BASE * BASE * (a * c);
  }

  lemma UpperHalf(ac: nat, ad: nat, bc: nat, bd: nat)
    ensures ac + bc / BASE + ad / BASE + (bd / BASE + bc % BASE + ad % BASE) / BASE
            == (UINT64_RANGE * ac + BASE * ad + BASE * bc + bd) / UINT64_RANGE
  {
    var mid := bd / BASE + bc % BASE + ad % BASE;
    var r := BASE * (mid % BASE) + bd % BASE;
    DivUnique(UINT64_RANGE * ac + BASE * ad + BASE * bc + bd, UINT64_RANGE, ac + bc / BASE + ad / BASE + mid / BASE, r);
  }

  // ----- Sorted lists as codes of their differences ---------------------------------------------------------------

  ghost predicate Sorted(s: seq<nat>) {
    forall i, j :: 0 <= i < j < |s| ==> s[i] <= s[j]
  }

  ghost predicate Bounded(s: seq<nat>) {
    forall i :: 0 <= i < |s| ==> s[i] < UINT64_RANGE
  }

  /** The codes of the differences of a sorted list. */
  ghost function Codes(values: seq<nat>, last: nat, P: nat): seq<bool>
    requires Sorted(values) && (values != [] ==> last <= values[0])
  {
    if values == [] then [] else Code(values[0] - last, P) + Codes(values[1..], values[0], P)
  }

  /** The list that `n` codes stand for, with the position after them. */
  ghost function ReadAll(bits: seq<bool>, pos: nat, n: nat, P: nat, last: nat): (r: Option<(seq<nat>, nat)>)
    requires pos <= |bits|
    ensures r.Some? ==> |r.value.0| == n
    decreases n
  {
    if n == 0 then Some(([], pos))
    else
      match ReadCode(bits, pos, P)
      case None => None
      case Some((delta, next)) =>
        var value := (last + delta) % UINT64_RANGE;
        match ReadAll(bits, next, n - 1, P, value)
        case None => None
        case Some((rest, end)) => Some(([value] + rest, end))
  }

  /** The codes of a sorted list read back as that list. */
  lemma {:induction false} AllReadBack(bits: seq<bool>, pos: nat, values: seq<nat>, last: nat, P: nat)
    requires Sorted(values) && Bounded(values) && (values != [] ==> last <= values[0])
    requires At(bits, pos, Codes(values, last, P))
    ensures pos <= |bits|
    ensures ReadAll(bits, pos, |values|, P, last) == Some((values, pos + |Codes(values, last, P)|))
    decreases |values|
  {
    hide Code, Codes, ReadCode, Sorted, At;
    if values == [] {
      NoCodes(last, P);
      AtNothing(bits, pos);
    } else {
      CodesCons(values, last, P);
      var code, rest := Code(values[0] - last, P), Codes(values[1..], values[0], P);
      AtSplit(bits, pos, code, rest);
      CodeReadsBack(bits, pos, P, values[0] - last);
      AllReadBack(bits, pos + |code|, values[1..], values[0], P);
      assert values == [values[0]] + values[1..];
    }
  }

  ghost function LastOf(a: seq<nat>, last: nat): nat {
    if a == [] then last else a[|a| - 1]
  }

  lemma SortedParts(a: seq<nat>, x: nat)
    requires Sorted(a + [x])
    ensures Sorted(a)
            && (a != [] ==> Sorted(a[1..] + [x]) && (a + [x])[1..] == a[1..] + [x] && a[0] <= (a[1..] + [x])[0])
    ensures a != [] ==> a[|a| - 1] <= x
  {
    var s := a + [x];
    assert forall i :: 0 <= i < |a| ==> a[i] == s[i];
    if a != [] {
      assert s[1..] == a[1..] + [x];
      assert s[|a| - 1] <= s[|a|];
      assert s[0] <= s[1];
    }
  }

  /** The codes of one more number follow those of the list before it. */
  lemma {:induction false} CodesSnoc(a: seq<nat>, x: nat, last: nat, P: nat)
    requires Sorted(a + [x]) && last <= (a + [x])[0]
    ensures Sorted(a) && (a != [] ==> last <= a[0]) && LastOf(a, last) <= x
    ensures Codes(a + [x], last, P) == Codes(a, last, P) + Code(x - LastOf(a, last), P)
    decreases |a|
  {
    hide Code, Sorted, Codes;
    SortedParts(a, x);
    CodesCons(a + [x], last, P);
    if a == [] {
      assert (a + [x])[1..] == [];
      NoCodes(x, P);
      NoCodes(last, P);
    } else {
      assert (a + [x])[1..] == a[1..] + [x] && (a + [x])[0] == a[0];
      CodesSnoc(a[1..], x, a[0], P);
      CodesCons(a, last, P);
    }
  }

  lemma NoCodes(last: nat, P: nat)
    ensures Sorted([]) && Codes([], last, P) == []
  {
  }

  lemma CodesCons(values: seq<nat>, last: nat, P: nat)
    requires Sorted(values) && values != [] && last <= values[0]
    ensures Sorted(values[1..]) && (values[1..] != [] ==> values[0] <= values[1..][0])
    ensures Codes(values, last, P) == Code(values[0] - last, P) + Codes(values[1..], values[0], P)
  {
    hide Code;
  }

  // ----- Filters ------------------------------------------------------------------------------------------------

  /** A filter: the coding parameter, the number of elements, the range of their hashes, and its
      serialization. */
  datatype Filter = Filter(P: nat, N: nat, F: nat, encoded: seq<Byte>)

  /** Some bytes are exactly the codes of these hashes, and less than a byte besides. */
  ghost predicate Encodes(data: seq<Byte>, P: nat, values: seq<nat>) {
    var r := ReadAll(BytesBits(data), 0, |values|, P, 0);
    r.Some? && r.value.0 == values && 8 * |data| < r.value.1 + 8
  }

  /** The filter holds exactly these hashes. */
  ghost predicate Holds(f: Filter, values: seq<nat>) {
    && f.P < 64 && f.F < UINT64_RANGE && f.N == |values| < BASE
    && WriteCompactSize(f.N) <= f.encoded
    && Encodes(f.encoded[|WriteCompactSize(f.N)|..], f.P, values)
  }

  type HashFunction<!E> = E -> nat

  function HashToRange<E>(hash: HashFunction<E>, F: nat, e: E): nat
    requires F < UINT64_RANGE
  {
    MapIntoRange(hash(e) % UINT64_RANGE, F)
  }

  /** The hashes of a set of elements. */
  ghost predicate AreHashes<E(!new)>(hash: HashFunction<E>, F: nat, elements: set<E>, hashes: seq<nat>)
    requires F < UINT64_RANGE
  {
    && |hashes| == |elements| && Sorted(hashes) && Bounded(hashes)
    && (forall h :: h in hashes <==> exists e :: e in elements && HashToRange(hash, F, e) == h)
    && (forall h :: multiset(hashes)[h] == |Preimage(hash, F, elements, h)|)
  }

  /** The elements with a given hash. */
  ghost function Preimage<E(!new)>(hash: HashFunction<E>, F: nat, elements: set<E>, h: nat): set<E>
    requires F < UINT64_RANGE
  {
    set e | e in elements && HashToRange(hash, F, e) == h
  }

  method InsertSorted(s: seq<nat>, x: nat) returns (r: seq<nat>)
    requires Sorted(s)
    ensures Sorted(r) && |r| == |s| + 1 && (forall h :: h in r <==> h == x || h in s)
    ensures multiset(r) == multiset(s) + multiset{x}
  {
    var i := 0;
    while i < |s| && s[i] < x
      invariant 0 <= i <= |s| && forall k :: 0 <= k < i ==> s[k] < x
    {
      i := i + 1;
    }
    r := s[..i] + [x] + s[i..];
    assert s == s[..i] + s[i..];
    Inserted(s[..i], x, s[i..]);
  }

  lemma Inserted(a: seq<nat>, x: nat, b: seq<nat>)
    ensures multiset(a + [x] + b) == multiset(a + b) + multiset{x}
    ensures forall h :: h in a + [x] + b <==> h == x || h in a + b
  {
  }

  method BuildHashedSet<E(!new)>(hash: HashFunction<E>, F: nat, elements: set<E>) returns (hashes: seq<nat>)
    requires F < UINT64_RANGE
    ensures AreHashes(hash, F, elements, hashes)
  {
    hide MapIntoRange;
    hashes := [];
    var rest := elements;
    while rest != {}
      invariant rest <= elements
      invariant AreHashes(hash, F, elements - rest, hashes)
      decreases |rest|
    {
      var e :| e in rest;
      HashBelow(hash, F, e);
      var more := InsertSorted(hashes, HashToRange(hash, F, e));
      assert elements - (rest - {e}) == elements - rest + {e};
      OneMoreHash(hash, F, elements - rest, e, hashes, more);
      hashes, rest := more, rest - {e};
    }
    assert elements - rest == elements;
  }

  lemma HashBelow<E>(hash: HashFunction<E>, F: nat, e: E)
    requires F < UINT64_RANGE
    ensures HashToRange(hash, F, e) < UINT64_RANGE
  {
    var x := hash(e) % UINT64_RANGE;
    NonNegative(x, F);
    NonNegative(UINT64_RANGE - 1 - x, F);
    assert (UINT64_RANGE - 1 - x) * F == (UINT64_RANGE - 1) * F - x * F;
    UpperBelow(x * F, F);
  }

  lemma UpperBelow(y: int, n: nat)
    requires 0 <= y <= (UINT64_RANGE - 1) * n
    ensures 0 <= y / UINT64_RANGE <= n
  {
  }

  lemma OneMoreHash<E(!new)>(hash: HashFunction<E>, F: nat, elements: set<E>, e: E, hashes: seq<nat>, more: seq<nat>)
    requires F < UINT64_RANGE && e !in elements && AreHashes(hash, F, elements, hashes)
    requires HashToRange(hash, F, e) < UINT64_RANGE
    requires Sorted(more) && |more| == |hashes| + 1
    requires forall h :: h in more <==> h == HashToRange(hash, F, e) || h in hashes
    requires multiset(more) == multiset(hashes) + multiset{HashToRange(hash, F, e)}
    ensures AreHashes(hash, F, elements + {e}, more)
  {
    hide HashToRange, Preimage;
    forall h ensures multiset(more)[h] == |Preimage(hash, F, elements + {e}, h)| {
      PreimageNext(hash, F, elements, e, h);
    }
    forall i | 0 <= i < |more| ensures more[i] < UINT64_RANGE {
      assert more[i] in more;
    }
    forall h ensures h in more <==> exists x :: x in elements + {e} && HashToRange(hash, F, x) == h {
      if h == HashToRange(hash, F, e) {
        assert e in elements + {e};
      } else if h in hashes {
        var x :| x in elements && HashToRange(hash, F, x) == h;
        assert x in elements + {e};
      }
    }
  }

  lemma PreimageNext<E(!new)>(hash: HashFunction<E>, F: nat, elements: set<E>, e: E, h: nat)
    requires F < UINT64_RANGE && e !in elements
    ensures |Preimage(hash, F, elements + {e}, h)|
            == |Preimage(hash, F, elements, h)| + if HashToRange(hash, F, e) == h then 1 else 0
  {
    hide HashToRange;
    var before, after := Preimage(hash, F, elements, h), Preimage(hash, F, elements + {e}, h);
    assert after == if HashToRange(hash, F, e) == h then before + {e} else before;
  }

  /** Builds the filter of a set of elements; fails for more than 32 bits can count. */
  method Build<E(!new)>(hash: HashFunction<E>, P: nat, M: Word, elements: set<E>)
    returns (f: Option<Filter>, ghost hashes: seq<nat>)
    requires P < 64
    ensures f.Some? <==> |elements| < BASE
    ensures f.Some? ==>
              && f.value.P == P && f.value.N == |elements| && f.value.F == Range(|elements|, M)
              && f.value.F < UINT64_RANGE
              && AreHashes(hash, f.value.F, elements, hashes) && Holds(f.value, hashes)
  {
    hide Code, ReadCode, MapIntoRange, Pow2, Encodes, WriteCompactSize;
    hashes := [];
    var N := |elements|;
    if N >= BASE {
      return None, [];
    }
    RangeFits(N, M);
    var F := Range(N, M);
    var size := WriteCompactSize(N);
    var values := BuildHashedSet(hash, F, elements);
    hashes := values;
    var data := WriteAll(P, values);
    f := Some(Filter(P, N, F, size + data));
    assert (size + data)[|size|..] == data;
  }

  /** The range that a filter's hashes are mapped into. */
  function Range(N: nat, M: Word): nat {
    NonNegative(N, M);
    N * M
  }

  lemma RangeFits(n: Word, m: Word)
    ensures Range(n, m) < UINT64_RANGE
  {
    NonNegative(n, m);
    NonNegative(n, BASE - 1 - m);
    assert n * (BASE - 1 - m) == (BASE - 1) * n - n * m;
  }

  method WriteAll(P: nat, values: seq<nat>) returns (data: seq<Byte>)
    requires P < 64 && Sorted(values) && Bounded(values)
    ensures Encodes(data, P, values)
  {
    hide Code, Codes, Pow2, Encodes, Sorted, BytesBits, LowBits, BitStreamWriter.Padded;
    if values == [] {
      NoneEncoded(P);
      return [];
    }
    var writer := new BitStreamWriter();
    var last := 0;
    NoCodes(0, P);
    for i := 0 to |values|
      invariant writer.Valid() && last == if i == 0 then 0 else values[i - 1]
      invariant Sorted(values[..i]) && writer.Bits() == Codes(values[..i], 0, P)
    {
      PrefixSorted(values, i);
      CodesSnoc(values[..i], values[i], 0, P);
      var delta := values[i] - last;
      GolombRiceEncode(writer, P, delta);
      last := values[i];
    }
    assert values[..|values|] == values;
    writer.Flush();
    data := writer.out;
    CodesEncode(data, P, values);
  }

  lemma CodesEncode(data: seq<Byte>, P: nat, values: seq<nat>)
    requires Sorted(values) && Bounded(values)
    requires Codes(values, 0, P) <= BytesBits(data) && 8 * |data| < |Codes(values, 0, P)| + 8
    ensures Encodes(data, P, values)
  {
    hide BytesBits, ReadAll, Codes;
    assert At(BytesBits(data), 0, Codes(values, 0, P));
    AllReadBack(BytesBits(data), 0, values, 0, P);
  }

  lemma PrefixSorted(values: seq<nat>, i: nat)
    requires Sorted(values) && i < |values|
    ensures Sorted(values[..i + 1]) && values[..i + 1] == values[..i] + [values[i]]
  {
  }

  lemma NoneEncoded(P: nat)
    ensures Encodes([], P, [])
  {
  }

  /** Takes a filter from its serialization, if that holds exactly the number of codes it announces. */
  method Parse(P: nat, M: Word, encoded: seq<Byte>) returns (f: Option<Filter>)
    requires P < 64
    ensures f.Some? <==> exists N: nat, values :: N <= MAX_SIZE && Holds(Filter(P, N, Range(N, M), encoded), values)
    ensures f.Some? ==> f.value.N <= MAX_SIZE && f.value == Filter(P, f.value.N, Range(f.value.N, M), encoded)
    ensures f.Some? ==> exists values :: Holds(f.value, values)
  {
    hide Pow2, Encodes, ReadCompactSize, WriteCompactSize, Range;
    var reading := ReadCompactSize(encoded);
    Announced(encoded);
    if !reading.Size? {
      return None;
    }
    var N := reading.n;  // which fits into 32 bits
    RangeFits(N, M);
    var ok := HoldsCodes(P, N, reading.rest);
    if !ok {
      return None;
    }
    f := Some(Filter(P, N, Range(N, M), encoded));
    ghost var values :| |values| == N && Encodes(reading.rest, P, values);
    assert Holds(f.value, values);
  }

  /** The size that a serialization announces is the only one it can have. */
  lemma Announced(encoded: seq<Byte>)
    ensures var r := ReadCompactSize(encoded);
            && (r.Size? ==>
                r.n <= MAX_SIZE && WriteCompactSize(r.n) <= encoded && encoded[|WriteCompactSize(r.n)|..] == r.rest)
            && (forall n: nat :: n < UINT64_RANGE && WriteCompactSize(n) <= encoded ==>
                  if n <= MAX_SIZE then r.Size? && r.n == n else r.TooLarge?)
  {
    hide ReadCompactSize, WriteCompactSize;
    if ReadCompactSize(encoded).Size? {
      ReadIsCanonical(encoded);
    }
    forall n: nat | n < UINT64_RANGE && WriteCompactSize(n) <= encoded
      ensures var r := ReadCompactSize(encoded); if n <= MAX_SIZE then r.Size? && r.n == n else r.TooLarge?
    {
      var size := WriteCompactSize(n);
      assert encoded == size + encoded[|size|..];
      SizeReadsBack(n, encoded[|size|..]);
    }
  }

  /** A filter can be taken from its serialization exactly if its size is not too large to be read. */
  lemma Reparsed(f: Filter, values: seq<nat>, M: Word)
    requires Holds(f, values) && f.F == Range(f.N, M)
    ensures (exists N: nat, v :: N <= MAX_SIZE && Holds(Filter(f.P, N, Range(N, M), f.encoded), v)) <==> f.N <= MAX_SIZE
    ensures forall N: nat, v :: N <= MAX_SIZE && Holds(Filter(f.P, N, Range(N, M), f.encoded), v) ==>
              N == f.N && v == values
  {
    hide Encodes, ReadCompactSize, WriteCompactSize, Range;
    Announced(f.encoded);
    if f.N <= MAX_SIZE {
      assert Holds(Filter(f.P, f.N, Range(f.N, M), f.encoded), values);
    }
    forall N: nat, v | N <= MAX_SIZE && Holds(Filter(f.P, N, Range(N, M), f.encoded), v)
      ensures N == f.N && v == values
    {
      EncodesOne(f.encoded[|WriteCompactSize(N)|..], f.P, v, values);
    }
  }

  /** A list of zeros, each a single bit in its simplest code. */
  ghost function Zeros(n: nat): (r: seq<nat>)
    ensures Sorted(r) && Bounded(r) && |r| == n && forall i :: 0 <= i < n ==> r[i] == 0
  {
    seq(n, _ => 0)
  }

  ghost function ZeroFilter(n: nat, M: Word): Filter {
    Filter(0, n, Range(n, M), WriteCompactSize(n) + Zeros((n + 7) / 8))
  }

  lemma {:induction false} ZeroCodes(n: nat)
    ensures Codes(Zeros(n), 0, 0) == seq(n, _ => false)
  {
    if n > 0 {
      ZeroCodes(n - 1);
      assert Zeros(n)[1..] == Zeros(n - 1);
      assert Code(0, 0) == [false];
    }
  }

  lemma {:induction false} ZeroBytes(n: nat)
    ensures BytesBits(Zeros(n)) == seq(8 * n, _ => false)
  {
    if n > 0 {
      ZeroBytes(n - 1);
      assert Zeros(n)[..n - 1] == Zeros(n - 1);
      NoLowBits(8);
    }
  }

  lemma {:induction false} NoLowBits(n: nat)
    ensures LowBits(0, n) == seq(n, _ => false)
  {
    if n > 0 {
      NoLowBits(n - 1);
    }
  }

  lemma ZerosHeld(n: nat, M: Word)
    requires n < BASE
    ensures Holds(ZeroFilter(n, M), Zeros(n))
  {
    hide Encodes, Codes, BytesBits, WriteCompactSize, Range;
    var f, data := ZeroFilter(n, M), Zeros((n + 7) / 8);
    assert f.encoded[|WriteCompactSize(n)|..] == data;
    ZeroCodes(n);
    ZeroBytes((n + 7) / 8);
    CodesEncode(data, 0, Zeros(n));
    RangeFits(n, M);
  }

  /** A filter can hold more hashes than can be read back. */
  lemma NotReparsed(M: Word)
    ensures Holds(ZeroFilter(MAX_SIZE + 1, M), Zeros(MAX_SIZE + 1))
    ensures var f := ZeroFilter(MAX_SIZE + 1, M);
            !exists N: nat, v :: N <= MAX_SIZE && Holds(Filter(f.P, N, Range(N, M), f.encoded), v)
  {
    hide Holds, Range;
    ZerosHeld(MAX_SIZE + 1, M);
    Reparsed(ZeroFilter(MAX_SIZE + 1, M), Zeros(MAX_SIZE + 1), M);
  }

  lemma EncodesOne(data: seq<Byte>, P: nat, v: seq<nat>, w: seq<nat>)
    requires |v| == |w| && Encodes(data, P, v) && Encodes(data, P, w)
    ensures v == w
  {
  }

  /** Whether some bytes are a number of codes, and less than a byte besides. */
  method HoldsCodes(P: nat, N: nat, data: seq<Byte>) returns (ok: bool)
    requires P < 64
    ensures ok <==> exists values :: |values| == N && Encodes(data, P, values)
  {
    hide ReadCode, Pow2, BytesBits;
    var reader := new BitStreamReader(data);
    ghost var bits := BytesBits(data);
    ghost var all := ReadAll(bits, 0, N, P, 0);
    ghost var value: nat := 0;
    for i := 0 to N
      invariant reader.Valid() && reader.Bits() == bits
      invariant all.Some? <==> ReadAll(bits, reader.Pos(), N - i, P, value).Some?
      invariant all.Some? ==> all.value.1 == ReadAll(bits, reader.Pos(), N - i, P, value).value.1
    {
      var more, delta := GolombRiceDecode(reader, P);
      if !more {
        return false;
      }
      value := (value + delta) % UINT64_RANGE;
    }
    ok := reader.next == |data|;
    assert ok ==> Encodes(data, P, all.value.0);
  }

  ghost predicate Meets(hashes: seq<nat>, values: seq<nat>) {
    exists h :: h in hashes && h in values
  }

  /** Looks for a common hash in one pass over the filter and a sorted list; a filter whose size is too
      large cannot be read. */
  method MatchInternal(f: Filter, hashes: seq<nat>, ghost values: seq<nat>) returns (found: Option<bool>)
    requires Holds(f, values)
    ensures found.Some? <==> f.N <= MAX_SIZE
    ensures found == Some(true) ==> Meets(hashes, values)
    ensures found.Some? && Sorted(hashes) && Sorted(values) ==> (found.value <==> Meets(hashes, values))
  {
    hide ReadCode, Pow2, RuledOut, Beyond, Sorted, WriteCompactSize, ReadCompactSize, BytesBits;
    var reading := ReadCompactSize(f.encoded);
    Announced(f.encoded);
    if !reading.Size? {
      return None;
    }
    var reader := new BitStreamReader(reading.rest);
    ghost var bits := reader.Bits();
    ghost var end := ReadAll(bits, 0, f.N, f.P, 0).value.1;
    ghost var inOrder := Sorted(hashes) && Sorted(values);
    var value: nat, index := 0, 0;
    assert values[0..] == values;
    NoneRuledOut(hashes, values);
    for i := 0 to f.N
      invariant reader.Valid() && reader.Bits() == bits && index <= |hashes|
      invariant ReadAll(bits, reader.Pos(), f.N - i, f.P, value) == Some((values[i..], end))
      invariant inOrder ==> RuledOut(hashes, index, values) && Beyond(hashes, index, values, i)
    {
      var ok, delta := GolombRiceDecode(reader, f.P);
      assert ok;
      value := (value + delta) % UINT64_RANGE;
      assert values[i..][0] == values[i] == value && values[i..][1..] == values[i + 1..];
      while true
        invariant index <= |hashes| && reader.Valid() && reader.Bits() == bits
        invariant ReadAll(bits, reader.Pos(), f.N - i - 1, f.P, value) == Some((values[i + 1..], end))
        invariant inOrder ==> RuledOut(hashes, index, values) && Beyond(hashes, index, values, i)
        decreases |hashes| - index
      {
        if index == |hashes| {
          if inOrder { AllRuledOut(hashes, index, values, i); }
          return Some(false);
        } else if hashes[index] == value {
          assert value in hashes && value in values;
          return Some(true);
        } else if hashes[index] > value {
          if inOrder { BeyondNext(hashes, index, values, i); }
          break;
        }
        if inOrder { RuleOutNext(hashes, index, values, i); }
        index := index + 1;
      }
    }
    if inOrder { AllRuledOut(hashes, index, values, f.N); }
    return Some(false);
  }

  ghost predicate RuledOut(hashes: seq<nat>, index: nat, values: seq<nat>) {
    forall k :: 0 <= k < index && k < |hashes| ==> hashes[k] !in values
  }

  ghost predicate Beyond(hashes: seq<nat>, index: nat, values: seq<nat>, i: nat) {
    forall k, j :: index <= k < |hashes| && 0 <= j < i && j < |values| ==> hashes[k] > values[j]
  }

  lemma NoneRuledOut(hashes: seq<nat>, values: seq<nat>)
    ensures RuledOut(hashes, 0, values) && Beyond(hashes, 0, values, 0)
  {
  }

  lemma BeyondNext(hashes: seq<nat>, index: nat, values: seq<nat>, i: nat)
    requires Sorted(hashes) && index < |hashes| && i < |values| && Beyond(hashes, index, values, i)
    requires hashes[index] > values[i]
    ensures Beyond(hashes, index, values, i + 1)
  {
    forall k | index <= k < |hashes| ensures hashes[k] > values[i] {
      assert hashes[index] <= hashes[k];
    }
  }

  lemma RuleOutNext(hashes: seq<nat>, index: nat, values: seq<nat>, i: nat)
    requires Sorted(values) && index < |hashes| && i < |values|
    requires RuledOut(hashes, index, values) && Beyond(hashes, index, values, i) && hashes[index] < values[i]
    ensures RuledOut(hashes, index + 1, values) && Beyond(hashes, index + 1, values, i)
  {
    forall j | 0 <= j < |values| ensures values[j] != hashes[index] {
      if j >= i { assert values[i] <= values[j]; }
    }
  }

  lemma AllRuledOut(hashes: seq<nat>, index: nat, values: seq<nat>, i: nat)
    requires RuledOut(hashes, index, values) && Beyond(hashes, index, values, i)
    requires index == |hashes| || i == |values|
    ensures !Meets(hashes, values)
  {
    forall h | h in hashes ensures h !in values {
      var k :| 0 <= k < |hashes| && hashes[k] == h;
    }
  }

  /** Whether an element's hash is in the filter. */
  method Match<E(!new)>(hash: HashFunction<E>, f: Filter, e: E, ghost elements: set<E>, ghost hashes: seq<nat>)
    returns (found: Option<bool>)
    requires Holds(f, hashes) && AreHashes(hash, f.F, elements, hashes)
    ensures found.Some? <==> |elements| <= MAX_SIZE
    ensures found.Some? ==>
              (found.value <==> exists x :: x in elements && HashToRange(hash, f.F, x) == HashToRange(hash, f.F, e))
    ensures found.Some? && e in elements ==> found.value
  {
    hide MapIntoRange, Encodes;
    var query := HashToRange(hash, f.F, e);
    found := MatchInternal(f, [query], hashes);
    assert Sorted([query]);
    assert Meets([query], hashes) <==> query in hashes;
  }

  /** Whether the hash of any of a set of elements is in the filter. */
  method MatchAny<E(!new)>(hash: HashFunction<E>, f: Filter, queries: set<E>, ghost elements: set<E>,
                           ghost hashes: seq<nat>)
    returns (found: Option<bool>)
    requires Holds(f, hashes) && AreHashes(hash, f.F, elements, hashes)
    ensures found.Some? <==> |elements| <= MAX_SIZE
    ensures found.Some? ==>
              (found.value <==>
               exists e, x :: e in queries && x in elements && HashToRange(hash, f.F, x) == HashToRange(hash, f.F, e))
    ensures found.Some? && queries * elements != {} ==> found.value
  {
    hide MapIntoRange, Encodes;
    var sorted := BuildHashedSet(hash, f.F, queries);
    found := MatchInternal(f, sorted, hashes);
    CommonHash(hash, f.F, queries, sorted, elements, hashes);
  }

  lemma CommonHash<E(!new)>(hash: HashFunction<E>, F: nat, a: set<E>, s: seq<nat>, b: set<E>, t: seq<nat>)
    requires F < UINT64_RANGE && AreHashes(hash, F, a, s) && AreHashes(hash, F, b, t)
    ensures Meets(s, t) <==> exists e, x :: e in a && x in b && HashToRange(hash, F, x) == HashToRange(hash, F, e)
    ensures a * b != {} ==> Meets(s, t)
  {
    hide HashToRange;
    if Meets(s, t) {
      var h :| h in s && h in t;
      var e :| e in a && HashToRange(hash, F, e) == h;
      var x :| x in b && HashToRange(hash, F, x) == h;
    }
    if e, x :| e in a && x in b && HashToRange(hash, F, x) == HashToRange(hash, F, e) {
      var h := HashToRange(hash, F, e);
      assert h in s && h in t;
    }
    if a * b != {} {
      var e :| e in a * b;
      assert HashToRange(hash, F, e) in s && HashToRange(hash, F, e) in t;
    }
  }
}
