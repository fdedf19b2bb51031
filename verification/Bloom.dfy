/** The rolling Bloom filter: bit-sliced generation labels that are reused in turn. */
module Bloom {
  import opened Words

  // ----- 64-bit words ---------------------------------------------------------------------------------

  /** A 64-bit word, as its bits. */
  type Bits = s: seq<bool> | |s| == 64 witness seq(64, _ => false)

  function All(v: bool): (r: Bits)
    ensures forall c :: 0 <= c < 64 ==> r[c] == v
  {
    seq(64, _ => v)
  }

  function Xor(p: Bits, q: Bits): (r: Bits)
    ensures forall c :: 0 <= c < 64 ==> r[c] == (p[c] != q[c])
  {
    seq(64, c requires 0 <= c < 64 => p[c] != q[c])
  }

  function And(p: Bits, q: Bits): (r: Bits)
    ensures forall c :: 0 <= c < 64 ==> r[c] == (p[c] && q[c])
  {
    seq(64, c requires 0 <= c < 64 => p[c] && q[c])
  }

  function Or(p: Bits, q: Bits): (r: Bits)
    ensures forall c :: 0 <= c < 64 ==> r[c] == (p[c] || q[c])
  {
    seq(64, c requires 0 <= c < 64 => p[c] || q[c])
  }

  function Not(p: Bits): (r: Bits)
    ensures forall c :: 0 <= c < 64 ==> r[c] == !p[c]
  {
    seq(64, c requires 0 <= c < 64 => !p[c])
  }

  /** A single bit shifted to its place. */
  function At(v: bool, bit: nat): (r: Bits)
    requires bit < 64
    ensures forall c :: 0 <= c < 64 ==> r[c] == (v && c == bit)
  {
    seq(64, c => v && c == bit)
  }

  // ----- Labels -----------------------------------------------------------------------------------------

  /** A bit position of a pair of words. */
  datatype Place = Place(pair: nat, bit: nat)

  ghost predicate Inside(data: seq<Bits>, p: Place) {
    2 * p.pair + 1 < |data| && p.bit < 64
  }

  /** The generation a position was last set in, or zero. */
  ghost function Label(data: seq<Bits>, p: Place): nat
    requires Inside(data, p)
  {
    (if data[2 * p.pair][p.bit] then 1 else 0) + (if data[2 * p.pair + 1][p.bit] then 2 else 0)
  }

  type Generation = g: int | 1 <= g <= 3 witness 1

  predicate LowBit(g: Generation) { g % 2 == 1 }

  predicate HighBit(g: Generation) { g / 2 == 1 }

  function NextGeneration(g: Generation): Generation {
    if g + 1 == 4 then 1 else g + 1
  }

  /** How many generations ago a label was current. */
  ghost function Age(g: Generation, mark: nat): nat
    requires 1 <= mark <= 3
  {
    if mark == g then 0 else if NextGeneration(mark) == g then 1 else 2
  }

  /** The pair of words without the bits labelled with a generation. */
  function WipedPair(p1: Bits, p2: Bits, g: Generation): (Bits, Bits) {
    var mask := Or(Xor(p1, All(LowBit(g))), Xor(p2, All(HighBit(g))));
    (And(p1, mask), And(p2, mask))
  }

  /** The word-wise wipe clears exactly the positions labelled with the generation. */
  ghost predicate IsWiped(data: seq<Bits>, data': seq<Bits>, g: Generation) {
    && |data'| == |data|
    && forall p :: Inside(data, p) ==> Label(data', p) == if Label(data, p) == g then 0 else Label(data, p)
  }

  /** The word pair with one position relabelled. */
  function Relabelled(x: Bits, bit: nat, v: bool): Bits
    requires bit < 64
  {
    Or(And(x, Not(At(true, bit))), At(v, bit))
  }

  /** A position relabelled. */
  function Stamped(data: seq<Bits>, p: Place, g: Generation): (r: seq<Bits>)
    requires 2 * p.pair + 1 < |data| && p.bit < 64
    ensures |r| == |data|
  {
    var data1 := data[2 * p.pair := Relabelled(data[2 * p.pair], p.bit, LowBit(g))];
    data1[2 * p.pair + 1 := Relabelled(data1[2 * p.pair + 1], p.bit, HighBit(g))]
  }

  lemma StampedExact(data: seq<Bits>, p: Place, g: Generation, q: Place)
    requires Inside(data, p) && Inside(data, q)
    ensures Label(Stamped(data, p, g), q) == if p == q then g else Label(data, q)
  {
  }

  // ----- Keys -------------------------------------------------------------------------------------------

  type Hashes<!Key> = (nat, Key) -> Word

  /** The position a hash selects in a filter of `size` words. */
  function PlaceOf(h: Word, size: nat): (p: Place)
    requires 0 < size && size % 2 == 0
    ensures 2 * p.pair + 1 < size && p.bit < 64
  {
    Place(Reduce(h, size) / 2, h % 64)
  }

  /** The first `n` positions of a key are labelled at most `d` generations ago. */
  ghost predicate Marked<Key>(data: seq<Bits>, g: Generation, hash: Hashes<Key>, key: Key, n: nat, d: nat) {
    && 0 < |data| && |data| % 2 == 0
    && forall k :: 0 <= k < n ==>
         var mark := Label(data, PlaceOf(hash(k, key), |data|));
         mark != 0 && Age(g, mark) <= d
  }

  /** Exactly the first `n` positions of a key are relabelled. */
  ghost predicate IsStamped<Key>(data: seq<Bits>, data': seq<Bits>, g: Generation, hash: Hashes<Key>, key: Key,
                                 n: nat) {
    && 0 < |data| == |data'| && |data| % 2 == 0
    && forall p :: Inside(data, p) ==>
         Label(data', p) == if IsPlaceOf(|data|, hash, key, n, p) then g else Label(data, p)
  }

  ghost predicate IsPlaceOf<Key>(size: nat, hash: Hashes<Key>, key: Key, n: nat, p: Place)
    requires 0 < size && size % 2 == 0
  {
    exists k :: 0 <= k < n && PlaceOf(hash(k, key), size) == p
  }

  lemma NoneStamped<Key>(data: seq<Bits>, g: Generation, hash: Hashes<Key>, key: Key)
    requires 0 < |data| && |data| % 2 == 0
    ensures IsStamped(data, data, g, hash, key, 0)
  {
  }

  lemma StampedNext<Key>(data0: seq<Bits>, data: seq<Bits>, g: Generation, hash: Hashes<Key>, key: Key, n: nat)
    requires IsStamped(data0, data, g, hash, key, n)
    ensures IsStamped(data0, Stamped(data, PlaceOf(hash(n, key), |data|), g), g, hash, key, n + 1)
  {
    var place := PlaceOf(hash(n, key), |data|);
    var data' := Stamped(data, place, g);
    forall p | Inside(data0, p)
      ensures Label(data', p) == if IsPlaceOf(|data0|, hash, key, n + 1, p) then g else Label(data0, p)
    {
      StampedExact(data, place, g, p);
      PlacesNext(|data0|, hash, key, n, p);
    }
  }

  lemma PlacesNext<Key>(size: nat, hash: Hashes<Key>, key: Key, n: nat, p: Place)
    requires 0 < size && size % 2 == 0
    ensures IsPlaceOf(size, hash, key, n + 1, p) <==>
              IsPlaceOf(size, hash, key, n, p) || PlaceOf(hash(n, key), size) == p
  {
  }

  /** Stamping with the current generation only makes labels newer. */
  lemma StampKeeps<Key>(data: seq<Bits>, p: Place, g: Generation, hash: Hashes<Key>, key: Key, n: nat, d: nat)
    requires Inside(data, p) && Marked(data, g, hash, key, n, d)
    ensures Marked(Stamped(data, p, g), g, hash, key, n, d)
  {
    forall k | 0 <= k < n
      ensures var mark := Label(Stamped(data, p, g), PlaceOf(hash(k, key), |data|)); mark != 0 && Age(g, mark) <= d
    {
      StampedExact(data, p, g, PlaceOf(hash(k, key), |data|));
    }
  }

  /** A key of the current generation or the one before survives the wipe, one generation older. */
  lemma WipeKeeps<Key>(data: seq<Bits>, data': seq<Bits>, g: Generation, hash: Hashes<Key>, key: Key, n: nat, d: nat)
    requires IsWiped(data, data', NextGeneration(g)) && d <= 1 && Marked(data, g, hash, key, n, d)
    ensures Marked(data', NextGeneration(g), hash, key, n, d + 1)
  {
    forall k | 0 <= k < n
      ensures var mark := Label(data', PlaceOf(hash(k, key), |data|));
              mark != 0 && Age(NextGeneration(g), mark) <= d + 1
    {
      assert Inside(data, PlaceOf(hash(k, key), |data|));
    }
  }

  class RollingBloomFilter<Key> {
    const hash: (Word, nat, Key) -> Word     // by tweak and number of the hash function
    const nHashFuncs: nat
    const nEntriesPerGeneration: nat
    var nEntriesThisGeneration: nat
    var nGeneration: Generation
    var nTweak: Word
    var data: seq<Bits>

    // The keys inserted since the last reset: those of the three generations, and those before.
    ghost var forgotten: seq<Key>
    ghost var oldest: seq<Key>
    ghost var previous: seq<Key>
    ghost var current: seq<Key>

    ghost function History(): seq<Key>
      reads this
    {
      forgotten + oldest + previous + current
    }

    function Hash(): Hashes<Key>
      reads this
    {
      var tweak := nTweak;
      (n, key) => hash(tweak, n, key)
    }

    ghost predicate AllMarked(keys: seq<Key>, d: nat)
      reads this
    {
      forall i :: 0 <= i < |keys| ==> Marked(data, nGeneration, Hash(), keys[i], nHashFuncs, d)
    }

    /** The generations before the current one are full, as far back as there are any. */
    ghost predicate Rolled()
      reads this
    {
      && |current| == nEntriesThisGeneration
      && (oldest != [] || forgotten != [] ==> |previous| == nEntriesPerGeneration)
      && (forgotten != [] ==> |oldest| == nEntriesPerGeneration)
    }

    ghost predicate Valid()
      reads this
    {
      && 0 < |data| && |data| % 2 == 0
      && Rolled()
      && AllMarked(current, 0) && AllMarked(previous, 1) && AllMarked(oldest, 2)
    }

    /** The filter answers that it contains the key. */
    ghost predicate Member(key: Key)
      requires Valid()
      reads this
    {
      forall k :: 0 <= k < nHashFuncs ==> Label(data, PlaceOf(Hash()(k, key), |data|)) != 0
    }

    constructor (nHashFuncs: nat, nElements: nat, nWordPairs: nat, hash: (Word, nat, Key) -> Word, tweak: Word)
      requires nWordPairs > 0
      ensures Valid() && History() == [] && nEntriesPerGeneration == (nElements + 1) / 2
    {
      this.hash, this.nHashFuncs, nTweak := hash, nHashFuncs, tweak;
      nEntriesPerGeneration := (nElements + 1) / 2;
      nEntriesThisGeneration, nGeneration := 0, 1;
      data := seq(2 * nWordPairs, _ => All(false));
      forgotten, oldest, previous, current := [], [], [], [];
    }

    method Reset(tweak: Word)
      requires Valid()
      modifies this
      ensures Valid() && History() == []
      ensures forall p :: Inside(data, p) ==> Label(data, p) == 0
    {
      nTweak, nEntriesThisGeneration, nGeneration := tweak, 0, 1;
      data := seq(|data|, _ => All(false));
      forgotten, oldest, previous, current := [], [], [], [];
    }

    /** Wipes what the reused generation number labels. */
    method Wipe(g: Generation)
      requires |data| % 2 == 0
      modifies `data
      ensures IsWiped(old(data), data, g)
    {
      ghost var was := data;
      var p := 0;
      while p < |data|
        invariant 0 <= p <= |data| == |was| && p % 2 == 0
        invariant forall i :: p <= i < |data| ==> data[i] == was[i]
        invariant forall i :: 0 <= i && 2 * i < p ==>
                    (data[2 * i], data[2 * i + 1]) == WipedPair(was[2 * i], was[2 * i + 1], g)
        decreases |data| - p
      {
        var (q1, q2) := WipedPair(data[p], data[p + 1], g);
        data := data[p := q1][p + 1 := q2];
        p := p + 2;
      }
    }

    /** Remembers a key, forgetting the oldest generation when the current one is full. */
    method Insert(key: Key) returns (ghost wiped: seq<Bits>)
      requires Valid()
      modifies this
      ensures Valid() && History() == old(History()) + [key] && nTweak == old(nTweak)
      ensures old(nEntriesThisGeneration != nEntriesPerGeneration) ==>
                nGeneration == old(nGeneration) && IsStamped(old(data), data, nGeneration, Hash(), key, nHashFuncs)
      ensures old(nEntriesThisGeneration == nEntriesPerGeneration) ==>
                && nGeneration == NextGeneration(old(nGeneration)) && IsWiped(old(data), wiped, nGeneration)
                && IsStamped(wiped, data, nGeneration, Hash(), key, nHashFuncs)
    {
      hide Marked, Label, Age, PlaceOf, Stamped, IsWiped, IsStamped;
      wiped := data;
      if nEntriesThisGeneration == nEntriesPerGeneration {
        Roll();
        wiped := data;
      }
      NoneStamped(data, nGeneration, Hash(), key);
      nEntriesThisGeneration := nEntriesThisGeneration + 1;
      NoneMarked(data, nGeneration, Hash(), key);
      ghost var keys := current;
      for n := 0 to nHashFuncs
        invariant 0 < |data| && |data| % 2 == 0
        invariant AllMarked(keys, 0) && AllMarked(previous, 1) && AllMarked(oldest, 2)
        invariant Marked(data, nGeneration, Hash(), key, n, 0)
        invariant IsStamped(wiped, data, nGeneration, Hash(), key, n)
        invariant nGeneration == if old(nEntriesThisGeneration == nEntriesPerGeneration)
                                 then NextGeneration(old(nGeneration)) else old(nGeneration)
        invariant nTweak == old(nTweak) && keys == current && History() == old(History())
        invariant |keys| + 1 == nEntriesThisGeneration
        invariant oldest != [] || forgotten != [] ==> |previous| == nEntriesPerGeneration
        invariant forgotten != [] ==> |oldest| == nEntriesPerGeneration
      {
        var h := hash(nTweak, n, key);
        var place := PlaceOf(h, |data|);
        StampKeepsAll(keys, place, 0);
        StampKeepsAll(previous, place, 1);
        StampKeepsAll(oldest, place, 2);
        StampNext(data, nGeneration, Hash(), key, n);
        StampedNext(wiped, data, nGeneration, Hash(), key, n);
        data := Stamped(data, place, nGeneration);
      }
      current := current + [key];
    }

    lemma StampKeepsAll(keys: seq<Key>, p: Place, d: nat)
      requires Inside(data, p) && AllMarked(keys, d)
      ensures forall i :: 0 <= i < |keys| ==>
                Marked(Stamped(data, p, nGeneration), nGeneration, Hash(), keys[i], nHashFuncs, d)
    {
      hide Marked, Stamped;
      forall i | 0 <= i < |keys|
        ensures Marked(Stamped(data, p, nGeneration), nGeneration, Hash(), keys[i], nHashFuncs, d)
      {
        StampKeeps(data, p, nGeneration, Hash(), keys[i], nHashFuncs, d);
      }
    }

    /** Starts the next generation. */
    method Roll()
      requires Valid() && nEntriesThisGeneration == nEntriesPerGeneration
      modifies this
      ensures Valid() && History() == old(History()) && nTweak == old(nTweak)
      ensures nEntriesThisGeneration == 0 && nGeneration == NextGeneration(old(nGeneration))
      ensures IsWiped(old(data), data, nGeneration)
    {
      hide Marked, IsWiped;
      ghost var was, g, hashes := data, nGeneration, Hash();
      nEntriesThisGeneration := 0;
      nGeneration := NextGeneration(nGeneration);
      Wipe(nGeneration);
      WipedSize(was, data, nGeneration);
      forall i | 0 <= i < |current| ensures Marked(data, nGeneration, hashes, current[i], nHashFuncs, 1) {
        WipeKeeps(was, data, g, hashes, current[i], nHashFuncs, 0);
      }
      forall i | 0 <= i < |previous| ensures Marked(data, nGeneration, hashes, previous[i], nHashFuncs, 2) {
        WipeKeeps(was, data, g, hashes, previous[i], nHashFuncs, 1);
      }
      forgotten, oldest, previous, current := forgotten + oldest, previous, current, [];
    }

    /** Whether all positions of the key are labelled. */
    method Contains(key: Key) returns (found: bool)
      requires Valid()
      ensures found <==> Member(key)
    {
      for n := 0 to nHashFuncs
        invariant forall k :: 0 <= k < n ==> Label(data, PlaceOf(Hash()(k, key), |data|)) != 0
      {
        var h := hash(nTweak, n, key);
        assert h == Hash()(n, key);
        var place := PlaceOf(h, |data|);
        if !Or(data[2 * place.pair], data[2 * place.pair + 1])[place.bit] {
          return false;
        }
      }
      return true;
    }

    /** The filter contains the last entries of two full generations and of the current one. */
    lemma RecentAreMembers(i: nat)
      requires Valid() && |History()| - 2 * nEntriesPerGeneration - nEntriesThisGeneration <= i < |History()|
      ensures Member(History()[i])
    {
      hide Label, PlaceOf;
      var key := History()[i];
      var o, p, c := |forgotten|, |forgotten| + |oldest|, |forgotten| + |oldest| + |previous|;
      if i >= c {
        assert key == current[i - c];
      } else if i >= p {
        assert key == previous[i - p];
      } else {
        assert key == oldest[i - o];
      }
    }
  }

  lemma WipedSize(data: seq<Bits>, data': seq<Bits>, g: Generation)
    requires IsWiped(data, data', g)
    ensures |data'| == |data|
  {
  }

  lemma NoneMarked<Key>(data: seq<Bits>, g: Generation, hash: Hashes<Key>, key: Key)
    requires 0 < |data| && |data| % 2 == 0
    ensures Marked(data, g, hash, key, 0, 0)
  {
  }

  lemma StampNext<Key>(data: seq<Bits>, g: Generation, hash: Hashes<Key>, key: Key, n: nat)
    requires Marked(data, g, hash, key, n, 0)
    ensures Marked(Stamped(data, PlaceOf(hash(n, key), |data|), g), g, hash, key, n + 1, 0)
  {
    var p := PlaceOf(hash(n, key), |data|);
    StampKeeps(data, p, g, hash, key, n, 0);
    StampedExact(data, p, g, p);
  }
}
