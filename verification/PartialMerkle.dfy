/** Partial Merkle trees on the wire (the "Partial Merkle branch format" section of BIP 37):
    building, packing, unpacking and extracting. */
module PartialMerkle {
  import opened MerkleTree
  import opened PackedBits
  import opened Stretches
  import opened Words
  import CompactSize

  // ----- The extraction walk ----------------------------------------------------------------

  /** How far an extraction has read, and what it has found. */
  datatype Cursor = Cursor(bad: bool, bitsUsed: nat, hashUsed: nat, matches: seq<Hash>, indexes: seq<nat>)

  /** One node of the walk, with its failures: it goes on reading after a failure. */
  ghost function Extract(H: Combine, n: nat, bits: seq<bool>, hashes: seq<Hash>, h: nat, pos: nat,
                         c: Cursor): (Hash, Cursor)
  {
    if c.bitsUsed >= |bits| then (NULL_HASH, c.(bad := true))
    else
      var flag := bits[c.bitsUsed];
      var c := c.(bitsUsed := c.bitsUsed + 1);
      if h == 0 || !flag then
        if c.hashUsed >= |hashes| then (NULL_HASH, c.(bad := true))
        else
          var hash := hashes[c.hashUsed];
          var c := c.(hashUsed := c.hashUsed + 1);
          if h == 0 && flag then (hash, c.(matches := c.matches + [hash], indexes := c.indexes + [pos])) else (hash, c)
      else
        var (left, cl) := Extract(H, n, bits, hashes, h - 1, 2 * pos, c);
        if HasRight(n, h, pos) then
          var (right, cr) := Extract(H, n, bits, hashes, h - 1, 2 * pos + 1, cl);
          (H(left, right), if right == left then cr.(bad := true) else cr)
        else
          (H(left, left), cl)
  }

  /** The cursor after reading a partial tree. */
  ghost function Advance(H: Combine, c: Cursor, p: Partial, h: nat, pos: nat): Cursor {
    Cursor(c.bad || !NoTwins(H, p), c.bitsUsed + |Bits(p)|, c.hashUsed + |Hashes(p)|,
           c.matches + Matches(p), c.indexes + Indexes(p, h, pos))
  }

  ghost predicate Written(bits: seq<bool>, hashes: seq<Hash>, c: Cursor, p: Partial) {
    At(bits, c.bitsUsed, Bits(p)) && At(hashes, c.hashUsed, Hashes(p))
  }

  /** The children of a written node are written one after the other. */
  lemma WrittenParts(bits: seq<bool>, hashes: seq<Hash>, c: Cursor, p: Partial)
    requires p.Single? || p.Pair?
    ensures var c1 := c.(bitsUsed := c.bitsUsed + 1);
            Written(bits, hashes, c, p) <==>
              && c.bitsUsed < |bits| && bits[c.bitsUsed]
              && Written(bits, hashes, c1, p.left)
              && (p.Pair? ==> Written(bits, hashes, c1.(bitsUsed := c1.bitsUsed + |Bits(p.left)|,
                                                        hashUsed := c1.hashUsed + |Hashes(p.left)|), p.right))
  {
    hide At, Bits, Hashes;
    InOrder(p);
    AtOne(bits, c.bitsUsed, true);
    if p.Single? {
      AtSplit(bits, c.bitsUsed, [true], Bits(p.left));
    } else {
      AtSplit(bits, c.bitsUsed, [true], Bits(p.left) + Bits(p.right));
      AtSplit(bits, c.bitsUsed + 1, Bits(p.left), Bits(p.right));
      AtSplit(hashes, c.hashUsed, Hashes(p.left), Hashes(p.right));
    }
  }

  lemma InOrder(p: Partial)
    requires p.Single? || p.Pair?
    ensures p.Single? ==> Bits(p) == [true] + Bits(p.left) && Hashes(p) == Hashes(p.left)
    ensures p.Pair? ==>
              Bits(p) == [true] + (Bits(p.left) + Bits(p.right)) && Hashes(p) == Hashes(p.left) + Hashes(p.right)
  {
  }

  lemma WrittenHere(bits: seq<bool>, hashes: seq<Hash>, c: Cursor, p: Partial)
    requires p.Leaf? || p.Pruned?
    ensures Written(bits, hashes, c, p) <==>
            && c.bitsUsed < |bits| && bits[c.bitsUsed] == (p.Leaf? && p.matched)
            && c.hashUsed < |hashes| && hashes[c.hashUsed] == p.hash
  {
  }

  /** Reading back a written partial tree yields its hash and its matches, and finds it bad
      exactly when two siblings coincide. */
  lemma {:induction false} ReadsBack(H: Combine, n: nat, bits: seq<bool>, hashes: seq<Hash>,
                                     h: nat, pos: nat, c: Cursor, p: Partial)
    requires Shaped(p, n, h, pos) && Written(bits, hashes, c, p)
    ensures Extract(H, n, bits, hashes, h, pos, c) == (Eval(H, p), Advance(H, c, p, h, pos))
    decreases h
  {
    hide Written, HasRight, Advance;
    if p.Single? || p.Pair? {
      WrittenParts(bits, hashes, c, p);
      var c1 := c.(bitsUsed := c.bitsUsed + 1);
      ReadsBack(H, n, bits, hashes, h - 1, 2 * pos, c1, p.left);
      if p.Pair? {
        var cl := Advance(H, c1, p.left, h - 1, 2 * pos);
        AdvanceMoves(H, c1, p.left, h - 1, 2 * pos);
        WrittenMoved(bits, hashes, c1.(bitsUsed := cl.bitsUsed, hashUsed := cl.hashUsed), cl, p.right);
        ReadsBack(H, n, bits, hashes, h - 1, 2 * pos + 1, cl, p.right);
        AdvancePair(H, c, p, h, pos);
      } else {
        AdvanceSingle(H, c, p, h, pos);
      }
    } else {
      WrittenHere(bits, hashes, c, p);
      AdvanceHere(H, c, p, h, pos);
    }
  }

  lemma AdvanceSingle(H: Combine, c: Cursor, p: Partial, h: nat, pos: nat)
    requires p.Single? && h > 0
    ensures Advance(H, c, p, h, pos) == Advance(H, c.(bitsUsed := c.bitsUsed + 1), p.left, h - 1, 2 * pos)
  {
  }

  lemma AdvanceHere(H: Combine, c: Cursor, p: Partial, h: nat, pos: nat)
    requires p.Leaf? || p.Pruned?
    ensures var c1 := c.(bitsUsed := c.bitsUsed + 1, hashUsed := c.hashUsed + 1);
            Advance(H, c, p, h, pos)
            == if p.Leaf? && p.matched then c1.(matches := c.matches + [p.hash], indexes := c.indexes + [pos]) else c1
  {
    assert c.matches + [] == c.matches && c.indexes + [] == c.indexes;
  }

  lemma AdvancePair(H: Combine, c: Cursor, p: Partial, h: nat, pos: nat)
    requires p.Pair? && h > 0
    ensures var c1 := c.(bitsUsed := c.bitsUsed + 1);
            var cr := Advance(H, Advance(H, c1, p.left, h - 1, 2 * pos), p.right, h - 1, 2 * pos + 1);
            Advance(H, c, p, h, pos) == if Eval(H, p.right) == Eval(H, p.left) then cr.(bad := true) else cr
  {
    assert c.matches + Matches(p.left) + Matches(p.right) == c.matches + Matches(p);
    assert c.indexes + Indexes(p.left, h - 1, 2 * pos) + Indexes(p.right, h - 1, 2 * pos + 1)
           == c.indexes + Indexes(p, h, pos);
  }

  lemma WrittenMoved(bits: seq<bool>, hashes: seq<Hash>, c: Cursor, c': Cursor, p: Partial)
    requires c.bitsUsed == c'.bitsUsed && c.hashUsed == c'.hashUsed
    ensures Written(bits, hashes, c, p) == Written(bits, hashes, c', p)
  {
  }

  /** Whatever is read without a failure was a written partial tree. */
  lemma {:induction false} ReadsOnlyTrees(H: Combine, n: nat, bits: seq<bool>, hashes: seq<Hash>,
                                          h: nat, pos: nat, c: Cursor) returns (p: Partial)
    requires !Extract(H, n, bits, hashes, h, pos, c).1.bad
    ensures Shaped(p, n, h, pos) && Written(bits, hashes, c, p)
    ensures Extract(H, n, bits, hashes, h, pos, c) == (Eval(H, p), Advance(H, c, p, h, pos))
    ensures !c.bad && NoTwins(H, p)
  {
    hide Written, HasRight, Advance, NoTwins, Eval;
    var c1 := c.(bitsUsed := c.bitsUsed + 1);
    BadStays(H, n, bits, hashes, h, pos, c);
    if h == 0 || !bits[c.bitsUsed] {
      p := if h == 0 then Leaf(bits[c.bitsUsed], hashes[c.hashUsed]) else Pruned(hashes[c.hashUsed]);
      WrittenHere(bits, hashes, c, p);
    } else {
      var (left, cl) := Extract(H, n, bits, hashes, h - 1, 2 * pos, c1);
      BadStays(H, n, bits, hashes, h - 1, 2 * pos + 1, cl);
      var pl := ReadsOnlyTrees(H, n, bits, hashes, h - 1, 2 * pos, c1);
      AdvanceMoves(H, c1, pl, h - 1, 2 * pos);
      if HasRight(n, h, pos) {
        var pr := ReadsOnlyTrees(H, n, bits, hashes, h - 1, 2 * pos + 1, cl);
        p := Pair(pl, pr);
        WrittenMoved(bits, hashes, c1.(bitsUsed := cl.bitsUsed, hashUsed := cl.hashUsed), cl, pr);
      } else {
        p := Single(pl);
      }
      WrittenParts(bits, hashes, c, p);
    }
    ReadsBack(H, n, bits, hashes, h, pos, c, p);
    AdvanceMoves(H, c, p, h, pos);
  }

  lemma AdvanceMoves(H: Combine, c: Cursor, p: Partial, h: nat, pos: nat)
    ensures var c' := Advance(H, c, p, h, pos);
            && c'.bitsUsed == c.bitsUsed + |Bits(p)| && c'.hashUsed == c.hashUsed + |Hashes(p)|
            && (c'.bad <==> c.bad || !NoTwins(H, p))
  {
  }

  lemma {:induction false} BadStays(H: Combine, n: nat, bits: seq<bool>, hashes: seq<Hash>, h: nat, pos: nat, c: Cursor)
    ensures c.bad ==> Extract(H, n, bits, hashes, h, pos, c).1.bad
  {
    if h > 0 && c.bitsUsed < |bits| && bits[c.bitsUsed] {
      var c1 := c.(bitsUsed := c.bitsUsed + 1);
      BadStays(H, n, bits, hashes, h - 1, 2 * pos, c1);
      BadStays(H, n, bits, hashes, h - 1, 2 * pos + 1, Extract(H, n, bits, hashes, h - 1, 2 * pos, c1).1);
    }
  }

  // ----- The acceptance tests -----------------------------------------------------------------

  /** The least height at which the tree has a single node. */
  ghost predicate IsHeight(n: nat, h: nat) {
    CalcTreeWidth(n, h) <= 1 && forall k :: 0 <= k < h ==> CalcTreeWidth(n, k) > 1
  }

  method TreeHeight(n: nat) returns (h: nat)
    ensures IsHeight(n, h)
  {
    h := 0;
    while CalcTreeWidth(n, h) > 1
      invariant forall k :: 0 <= k < h ==> CalcTreeWidth(n, k) > 1
      decreases n - h
    {
      NodeExists(n, h, 1);
      Pow2Grows(h);
      h := h + 1;
    }
  }

  lemma RootCoversAll(n: nat, h: nat)
    requires n > 0 && IsHeight(n, h)
    ensures Lo(h, 0) == 0 && n <= Lo(h, 1) && Last(n, h) == 0
  {
    NodeExists(n, h, 0);
    NodeExists(n, h, 1);
  }

  /** What an extraction reports. */
  datatype Extracted = Extracted(root: Hash, bad: bool, matches: seq<Hash>, indexes: seq<nat>)

  /** The whole extraction. The indexes are added to those the caller already has. */
  ghost function ExtractAll(H: Combine, limit: nat, n: nat, bits: seq<bool>, hashes: seq<Hash>, bad: bool,
                            indexes: seq<nat>, h: nat): Extracted
  {
    if n == 0 || n > limit || |hashes| > n || |bits| < |hashes| then Extracted(NULL_HASH, bad, [], indexes)
    else
      var (root, c) := Extract(H, n, bits, hashes, h, 0, Cursor(bad, 0, 0, [], indexes));
      var whole := !c.bad && (c.bitsUsed + 7) / 8 == (|bits| + 7) / 8 && c.hashUsed == |hashes|;
      Extracted(if whole then root else NULL_HASH, c.bad, c.matches, c.indexes)
  }

  /** Anything accepted is a partial tree of the right shape, read to the end. */
  lemma AcceptedIsTree(H: Combine, limit: nat, n: nat, bits: seq<bool>, hashes: seq<Hash>, bad: bool, h: nat)
    returns (p: Partial)
    requires ExtractAll(H, limit, n, bits, hashes, bad, [], h).root != NULL_HASH
    ensures Shaped(p, n, h, 0) && Hashes(p) == hashes && Bits(p) <= bits
    ensures ExtractAll(H, limit, n, bits, hashes, bad, [], h)
            == Extracted(Eval(H, p), false, Matches(p), Indexes(p, h, 0))
  {
    hide Shaped, Extract, Eval, NoTwins, Bits, Hashes;
    var c := Cursor(bad, 0, 0, [], []);
    p := ReadsOnlyTrees(H, n, bits, hashes, h, 0, c);
    assert c.matches + Matches(p) == Matches(p) && c.indexes + Indexes(p, h, 0) == Indexes(p, h, 0);
    assert Hashes(p) == hashes[0..|hashes|] == hashes;
  }

  /** Any flag bits and hashes whatever that are accepted with the true root of a block with as
      many transactions yield only txids of that block, each at its own place, in order, unless
      they exhibit a collision of the hash function. */
  lemma AcceptedIsGenuine(H: Combine, limit: nat, txids: seq<Hash>, bits: seq<bool>, hashes: seq<Hash>,
                          bad: bool, h: nat)
    returns (p: Partial)
    requires IsHeight(|txids|, h) && |txids| > 0
    requires var e := ExtractAll(H, limit, |txids|, bits, hashes, bad, [], h);
             e.root == CalcHash(H, txids, h, 0) != NULL_HASH
    ensures Shaped(p, |txids|, h, 0) && Hashes(p) == hashes && Bits(p) <= bits && Eval(H, p) == CalcHash(H, txids, h, 0)
    ensures var e := ExtractAll(H, limit, |txids|, bits, hashes, bad, [], h);
            Collides(H, txids, p, h, 0)
            || (Genuine(txids, e.matches, e.indexes) && Increasing(e.indexes, 0, |txids|))
  {
    hide CalcHash, Shaped, Genuine, Collides, Lo, IsHeight, ExtractAll, Increasing, Last, Eval;
    RootCoversAll(|txids|, h);
    p := AcceptedIsTree(H, limit, |txids|, bits, hashes, bad, h);
    Sound(H, txids, p, h, 0);
    IndexesIncrease(p, |txids|, h, 0);
    if Genuine(txids, Matches(p), Indexes(p, h, 0)) {
      GenuineBounded(txids, Matches(p), Indexes(p, h, 0), Lo(h, 0), Lo(h, 1));
    }
  }

  lemma GenuineBounded(txids: seq<Hash>, matches: seq<Hash>, indexes: seq<nat>, lo: nat, hi: nat)
    requires Genuine(txids, matches, indexes) && Increasing(indexes, lo, hi)
    ensures Increasing(indexes, 0, |txids|)
  {
  }

  /** With a hash function that no two pairs share a value of, what is accepted is genuine. */
  lemma InjectiveIsGenuine(H: Combine, limit: nat, txids: seq<Hash>, bits: seq<bool>, hashes: seq<Hash>,
                           bad: bool, h: nat)
    requires IsHeight(|txids|, h) && |txids| > 0 && PairInjective(H)
    requires var e := ExtractAll(H, limit, |txids|, bits, hashes, bad, [], h);
             e.root == CalcHash(H, txids, h, 0) != NULL_HASH
    ensures var e := ExtractAll(H, limit, |txids|, bits, hashes, bad, [], h);
            Genuine(txids, e.matches, e.indexes) && Increasing(e.indexes, 0, |txids|)
  {
    hide CalcHash, Shaped, Genuine, Collides, ExtractAll, Increasing;
    var p := AcceptedIsGenuine(H, limit, txids, bits, hashes, bad, h);
    NoCollision(H, txids, p, h, 0);
  }

  /** What was built is accepted with the true root and yields exactly the matches, if and only
      if no two siblings among the visited nodes have the same hash. Up to seven padding bits
      may follow the flag bits. */
  lemma BuiltIsAccepted(H: Combine, limit: nat, txids: seq<Hash>, mask: seq<bool>, bits: seq<bool>, h: nat)
    requires 0 < |txids| == |mask| <= limit && IsHeight(|txids|, h)
    requires var b := Bits(Prune(H, txids, mask, h, 0)); b <= bits && (|bits| + 7) / 8 == (|b| + 7) / 8
    ensures var p := Prune(H, txids, mask, h, 0);
            var e := ExtractAll(H, limit, |txids|, bits, Hashes(p), false, [], h);
            && e.root == (if NoTwins(H, p) then CalcHash(H, txids, h, 0) else NULL_HASH)
            && e.bad == !NoTwins(H, p)
            && Exact(txids, mask, 0, |txids|, e.matches, e.indexes)
  {
    hide CalcHash, Shaped, Prune, NoTwins, Lo, Exact, Written, Extract;
    RootCoversAll(|txids|, h);
    var p := Prune(H, txids, mask, h, 0);
    var c := Cursor(false, 0, 0, [], []);
    PruneFaithful(H, txids, mask, h, 0);
    PruneExact(H, txids, mask, h, 0);
    HashesAtMostLeaves(H, txids, mask, h, 0);
    BitCount(p);
    WrittenFirst(bits, c, p);
    ReadsBack(H, |txids|, bits, Hashes(p), h, 0, c, p);
    assert c.matches + Matches(p) == Matches(p) && c.indexes + Indexes(p, h, 0) == Indexes(p, h, 0);
    ExactWhole(txids, mask, Lo(h, 1), Matches(p), Indexes(p, h, 0));
  }

  lemma WrittenFirst(bits: seq<bool>, c: Cursor, p: Partial)
    requires Bits(p) <= bits && c.bitsUsed == c.hashUsed == 0
    ensures Written(bits, Hashes(p), c, p)
  {
  }

  lemma ExactWhole(txids: seq<Hash>, mask: seq<bool>, hi: nat, matches: seq<Hash>, indexes: seq<nat>)
    requires Exact(txids, mask, 0, hi, matches, indexes) && |txids| == |mask| <= hi
    ensures Exact(txids, mask, 0, |txids|, matches, indexes)
  {
  }

  /** The promised numbers of hashes and bits; the promise of two bits per hash less one is kept
      exactly when no match lies below a node without a right child. */
  lemma BuiltSizes(H: Combine, txids: seq<Hash>, mask: seq<bool>, h: nat)
    requires 0 < |txids| == |mask| && IsHeight(|txids|, h)
    ensures var p := Prune(H, txids, mask, h, 0);
            && |Hashes(p)| <= |txids|
            && |Hashes(p)| <= 1 + |Matches(p)| * h
            && |Bits(p)| <= 1 + 2 * (|Matches(p)| * h)
            && |Bits(p)| == 2 * |Hashes(p)| - 1 + LoneLevels(mask, h)
            && (|Bits(p)| <= 2 * |Hashes(p)| - 1 <==> forall k :: 0 < k <= h ==> !LoneMatch(mask, k))
  {
    hide Prune, Lo, LoneMatch, IsHeight;
    RootCoversAll(|txids|, h);
    HashesAtMostLeaves(H, txids, mask, h, 0);
    SizePerMatch(H, txids, mask, h, 0);
    BitCount(Prune(H, txids, mask, h, 0));
    SinglesCount(H, txids, mask, h, 0);
    NoLoneLevels(mask, h);
  }

  lemma {:induction false} NoLoneLevels(mask: seq<bool>, h: nat)
    ensures LoneLevels(mask, h) == 0 <==> forall k :: 0 < k <= h ==> !LoneMatch(mask, k)
  {
    hide LoneMatch;
    if h > 0 { NoLoneLevels(mask, h - 1); }
  }

  lemma FiveWidths()
    ensures CalcTreeWidth(5, 0) == 5 && CalcTreeWidth(5, 1) == 3 && CalcTreeWidth(5, 2) == 2 && CalcTreeWidth(5, 3) == 1
    ensures Lo(1, 2) == 4 && IsHeight(5, 3)
  {
    assert Pow2(1) == 2 && Pow2(2) == 4 && Pow2(3) == 8;
  }

  /** With five transactions of which only the last matches, the promise is broken. */
  lemma TooManyBits(H: Combine, txids: seq<Hash>)
    requires |txids| == 5
    ensures IsHeight(5, 3) && Lo(3, 0) == 0
    ensures var p := Prune(H, txids, [false, false, false, false, true], 3, 0);
            |Bits(p)| > 2 * |Hashes(p)| - 1
  {
    hide Prune, CalcTreeWidth, Pow2, Bits, Hashes;
    var mask := [false, false, false, false, true];
    FiveWidths();
    assert mask[4];
    assert AnyMatch(mask, 4, 5);
    assert LoneMatch(mask, 1);
    BuiltSizes(H, txids, mask, 3);
  }

  // ----- The serialized size ------------------------------------------------------------------

  function SizeOfSize(n: nat): nat {
    |CompactSize.WriteCompactSize(n)|
  }

  lemma SizesOfSizes(n: nat)
    ensures SizeOfSize(n) == if n < 253 then 1 else if n <= 0xFFFF then 3 else if n <= 0xFFFF_FFFF then 5 else 9
  {
  }

  /** The number of transactions, the hashes and the bytes of flag bits, the latter two with their counts. */
  ghost function SerializedSize(hashes: nat, bits: nat): nat {
    var bytes := (bits + 7) / 8;
    4 + SizeOfSize(hashes) + 32 * hashes + SizeOfSize(bytes) + bytes
  }

  /** 10 + ceil(32.25 * N). */
  ghost function PromisedSize(hashes: nat): nat {
    10 + 32 * hashes + (hashes + 3) / 4
  }

  /** How many bits more than two per hash less one there is room for. */
  ghost function SpareBits(hashes: nat): int {
    8 * ((hashes + 3) / 4) - (2 * hashes - 1)
      + (if hashes <= 252 then 32 else if hashes <= 1000 then 16 else if hashes <= 1004 then 8 else 0)
  }

  lemma SizeFits(hashes: nat, extra: nat)
    requires hashes > 0
    ensures SerializedSize(hashes, 2 * hashes - 1 + extra) <= PromisedSize(hashes)
            <==> hashes <= 0xFFFF && extra <= SpareBits(hashes)
  {
    hide SizeOfSize;
    var bytes := (2 * hashes - 1 + extra + 7) / 8;
    SizesOfSizes(hashes);
    SizesOfSizes(bytes);
  }

  /** The promised size is kept exactly up to 65535 hashes, and unless matches lie below nodes without
      a right child at too many heights. */
  lemma BuiltSize(H: Combine, txids: seq<Hash>, mask: seq<bool>, h: nat)
    requires 0 < |txids| == |mask| && IsHeight(|txids|, h)
    ensures Lo(h, 0) == 0
    ensures var p := Prune(H, txids, mask, h, 0);
            SerializedSize(|Hashes(p)|, |Bits(p)|) <= PromisedSize(|Hashes(p)|)
            <==> |Hashes(p)| <= 0xFFFF && LoneLevels(mask, h) <= SpareBits(|Hashes(p)|)
  {
    hide Prune, Lo, LoneMatch, IsHeight, SerializedSize, SpareBits, PromisedSize;
    RootCoversAll(|txids|, h);
    BitCount(Prune(H, txids, mask, h, 0));
    BuiltSizes(H, txids, mask, h);
    SizeFits(|Hashes(Prune(H, txids, mask, h, 0))|, LoneLevels(mask, h));
  }

  /** Up to 2^17 transactions and 1000 hashes it is always kept. */
  lemma SmallSizes(H: Combine, txids: seq<Hash>, mask: seq<bool>, h: nat)
    requires 0 < |txids| == |mask| <= 0x2_0000 && IsHeight(|txids|, h)
    ensures Lo(h, 0) == 0
    ensures var p := Prune(H, txids, mask, h, 0);
            |Hashes(p)| <= 1000 ==> SerializedSize(|Hashes(p)|, |Bits(p)|) <= PromisedSize(|Hashes(p)|)
  {
    hide Prune, Lo, IsHeight, SerializedSize, PromisedSize;
    BuiltSize(H, txids, mask, h);
    HeightAtMost(|txids|, h);
  }

  lemma HeightAtMost(n: nat, h: nat)
    requires n <= 0x2_0000 && IsHeight(n, h)
    ensures h <= 17
  {
    Pow2Values();
    Pow2Add(16, 1);
    NodeExists(n, 17, 1);
    assert Lo(17, 1) == Pow2(17);
  }

  lemma ThousandWidths()
    ensures CalcTreeWidth(1012, 2) == 253 && CalcTreeWidth(1012, 3) == 127 && CalcTreeWidth(1012, 4) == 64
    ensures Lo(3, 126) == 1008 && Lo(4, 63) == 1008 && Lo(10, 1) == 1024 && Lo(10, 0) == 0
  {
    assert Pow2(2) == 4 && Pow2(3) == 8 && Pow2(4) == 16;
    Pow2Values();
    Pow2Add(8, 2);
  }

  /** With 1012 transactions that all match, one byte too many is needed. */
  lemma TooLarge(H: Combine, txids: seq<Hash>)
    requires |txids| == 1012
    ensures IsHeight(1012, 10) && Lo(10, 0) == 0
    ensures var p := Prune(H, txids, seq(1012, _ => true), 10, 0);
            |Hashes(p)| == 1012 && SerializedSize(1012, |Bits(p)|) > PromisedSize(1012) == 32647
  {
    hide Prune, CalcTreeWidth, Pow2, Bits, Hashes, Lo, IsHeight, SerializedSize;
    var mask := seq(1012, _ => true);
    ThousandWidths();
    ThousandHeight();
    assert mask[1008] && AnyMatch(mask, 1008, 1012);
    assert LoneMatch(mask, 3) && LoneMatch(mask, 4);
    TwoLevels(mask, 3, 4, 10);
    AllStored(H, txids, mask, 10, 0);
    BuiltSize(H, txids, mask, 10);
  }

  lemma ThousandHeight()
    ensures IsHeight(1012, 10)
  {
    forall k: nat | k < 10 ensures CalcTreeWidth(1012, k) > 1 {
      NodeExists(1012, k, 1);
      Pow2Monotone(k, 9);
      Pow2Values();
      Pow2Add(8, 1);
      assert Lo(k, 1) == Pow2(k);
    }
    Pow2Values();
    Pow2Add(8, 2);
    NodeExists(1012, 10, 1);
    assert Lo(10, 1) == Pow2(10);
  }

  lemma {:induction false} LevelsAdd(mask: seq<bool>, k: nat, h: nat)
    requires 0 < k <= h && LoneMatch(mask, k)
    ensures LoneLevels(mask, h) >= 1
  {
    hide LoneMatch;
    if k < h { LevelsAdd(mask, k, h - 1); }
  }

  lemma {:induction false} TwoLevels(mask: seq<bool>, j: nat, k: nat, h: nat)
    requires 0 < j < k <= h && LoneMatch(mask, j) && LoneMatch(mask, k)
    ensures LoneLevels(mask, h) >= 2
  {
    hide LoneMatch;
    if k < h { TwoLevels(mask, j, k, h - 1); } else { LevelsAdd(mask, j, h - 1); }
  }

  // ----- Packing ------------------------------------------------------------------------------

  /** Packs bits eight to a byte, least significant first. */
  method Pack(bits: seq<bool>) returns (bytes: seq<bv8>)
    ensures |bytes| == (|bits| + 7) / 8
    ensures forall p :: 0 <= p < 8 * |bytes| ==> BitAt(bytes, p) == (p < |bits| && bits[p])
  {
    bytes := seq((|bits| + 7) / 8, _ => 0);
    forall p | 0 <= p < 8 * |bytes| ensures !BitAt(bytes, p) {
      OneBit(0, 0, p % 8);
    }
    for i := 0 to |bits|
      invariant |bytes| == (|bits| + 7) / 8
      invariant forall p :: 0 <= p < 8 * |bytes| ==> BitAt(bytes, p) == (p < i && bits[p])
    {
      if bits[i] {
        forall p | 0 <= p < 8 * |bytes| ensures BitAt(SetBit(bytes, i), p) == (i == p || BitAt(bytes, p)) {
          BitsExact(bytes, i, p);
        }
        bytes := SetBit(bytes, i);
      }
    }
  }

  /** Unpacks every bit of every byte. */
  method Unpack(bytes: seq<bv8>) returns (bits: seq<bool>)
    ensures |bits| == 8 * |bytes| && forall p :: 0 <= p < |bits| ==> bits[p] == BitAt(bytes, p)
  {
    bits := [];
    for p := 0 to 8 * |bytes|
      invariant |bits| == p && forall q :: 0 <= q < p ==> bits[q] == BitAt(bytes, q)
    {
      bits := bits + [BitAt(bytes, p)];
    }
  }

  // ----- The tree object ------------------------------------------------------------------------

  /** The bits and hashes of a node are its own, followed by those of its children. */
  lemma PruneStep(H: Combine, txids: seq<Hash>, mask: seq<bool>, h: nat, pos: nat)
    requires Lo(h, pos) < |txids| == |mask|
    ensures var p := Prune(H, txids, mask, h, pos);
            var flag := AnyMatch(mask, Lo(h, pos), Lo(h, pos + 1));
            if h == 0 || !flag then Bits(p) == [flag] && Hashes(p) == [CalcHash(H, txids, h, pos)]
            else
              && Lo(h - 1, 2 * pos) < |txids| && (HasRight(|txids|, h, pos) <==> Lo(h - 1, 2 * pos + 1) < |txids|)
              && var left := Prune(H, txids, mask, h - 1, 2 * pos);
              if HasRight(|txids|, h, pos) then
                var right := Prune(H, txids, mask, h - 1, 2 * pos + 1);
                Bits(p) == [true] + Bits(left) + Bits(right) && Hashes(p) == Hashes(left) + Hashes(right)
              else Bits(p) == [true] + Bits(left) && Hashes(p) == Hashes(left)
  {
    hide Lo, Pow2, CalcTreeWidth;
    LoZero(pos);
    LoZero(pos + 1);
    if h == 0 {
      AnyMatchStep(mask, pos, pos);
    } else {
      Halves(h, pos);
      NodeExists(|txids|, h - 1, 2 * pos + 1);
    }
  }

  class PartialMerkleTree {
    const H: Combine
    var nTransactions: nat
    var vBits: seq<bool>
    var vHash: seq<Hash>
    var fBad: bool

    /** Builds the partial tree for a list of txids and the mask that selects some of them. */
    constructor (H: Combine, vTxid: seq<Hash>, vMatch: seq<bool>)
      requires 0 < |vTxid| == |vMatch|
      ensures this.H == H && nTransactions == |vTxid| && !fBad
      ensures forall h :: IsHeight(|vTxid|, h) ==>
                Lo(h, 0) == 0 && vBits == Bits(Prune(H, vTxid, vMatch, h, 0))
                && vHash == Hashes(Prune(H, vTxid, vMatch, h, 0))
    {
      this.H := H;
      nTransactions, vBits, vHash, fBad := |vTxid|, [], [], false;
      new;
      var nHeight := TreeHeight(nTransactions);
      RootCoversAll(|vTxid|, nHeight);
      TraverseAndBuild(nHeight, 0, vTxid, vMatch);
      forall h | IsHeight(|vTxid|, h) ensures h == nHeight {
        SameHeight(|vTxid|, h, nHeight);
      }
    }

    /** Reads a partial tree off the wire. */
    constructor FromWire(H: Combine, nTransactions: nat, vHash: seq<Hash>, vBytes: seq<bv8>)
      ensures this.H == H && this.nTransactions == nTransactions && this.vHash == vHash && !fBad
      ensures |vBits| == 8 * |vBytes| && forall p :: 0 <= p < |vBits| ==> vBits[p] == BitAt(vBytes, p)
    {
      this.H, this.nTransactions, this.vHash, fBad := H, nTransactions, vHash, false;
      var bits := Unpack(vBytes);
      vBits := bits;
    }

    /** Appends the flag bits and hashes of the subtree at a node. */
    method TraverseAndBuild(height: nat, pos: nat, vTxid: seq<Hash>, vMatch: seq<bool>)
      requires Lo(height, pos) < |vTxid| == |vMatch| == nTransactions
      modifies this`vBits, this`vHash
      ensures vBits == old(vBits) + Bits(Prune(H, vTxid, vMatch, height, pos))
      ensures vHash == old(vHash) + Hashes(Prune(H, vTxid, vMatch, height, pos))
      decreases height
    {
      hide Lo, Pow2, CalcTreeWidth, CalcHash, Prune, Bits, Hashes, AnyMatch;
      PruneStep(H, vTxid, vMatch, height, pos);
      var fParentOfMatch := ParentOfMatch(height, pos, vMatch);
      vBits := vBits + [fParentOfMatch];
      if height == 0 || !fParentOfMatch {
        vHash := vHash + [CalcHash(H, vTxid, height, pos)];
      } else {
        TraverseAndBuild(height - 1, pos * 2, vTxid, vMatch);
        if pos * 2 + 1 < CalcTreeWidth(nTransactions, height - 1) {
          TraverseAndBuild(height - 1, pos * 2 + 1, vTxid, vMatch);
        }
      }
    }

    /** Whether a matched txid lies below a node. */
    method ParentOfMatch(height: nat, pos: nat, vMatch: seq<bool>) returns (found: bool)
      requires |vMatch| == nTransactions
      ensures found <==> AnyMatch(vMatch, Lo(height, pos), Lo(height, pos + 1))
    {
      hide AnyMatch, Pow2;
      found := false;
      AnyMatchStep(vMatch, Lo(height, pos), Lo(height, pos));
      Ordered(pos, pos + 1, Pow2(height));
      var p := pos * Pow2(height);
      var end := (pos + 1) * Pow2(height);
      while p < end && p < nTransactions
        invariant Lo(height, pos) <= p <= end
        invariant found <==> AnyMatch(vMatch, Lo(height, pos), p)
        decreases nTransactions - p
      {
        AnyMatchStep(vMatch, Lo(height, pos), p);
        found := found || vMatch[p];
        p := p + 1;
      }
      AnyMatchEnd(vMatch, Lo(height, pos), p, Lo(height, pos + 1));
    }

    /** Reads one subtree, advancing the counters and appending the matches. */
    method TraverseAndExtract(height: nat, pos: nat, nBitsUsed0: nat, nHashUsed0: nat,
                              vMatch0: seq<Hash>, vnIndex0: seq<nat>)
      returns (hash: Hash, nBitsUsed: nat, nHashUsed: nat, vMatch: seq<Hash>, vnIndex: seq<nat>)
      modifies this`fBad
      ensures (hash, Cursor(fBad, nBitsUsed, nHashUsed, vMatch, vnIndex))
              == Extract(H, nTransactions, vBits, vHash, height, pos,
                         Cursor(old(fBad), nBitsUsed0, nHashUsed0, vMatch0, vnIndex0))
      decreases height
    {
      hide CalcTreeWidth;
      nBitsUsed, nHashUsed, vMatch, vnIndex := nBitsUsed0, nHashUsed0, vMatch0, vnIndex0;
      if nBitsUsed >= |vBits| {
        fBad := true;
        hash := NULL_HASH;
        return;
      }
      var fParentOfMatch := vBits[nBitsUsed];
      nBitsUsed := nBitsUsed + 1;
      if height == 0 || !fParentOfMatch {
        if nHashUsed >= |vHash| {
          fBad := true;
          hash := NULL_HASH;
          return;
        }
        hash := vHash[nHashUsed];
        nHashUsed := nHashUsed + 1;
        if height == 0 && fParentOfMatch {
          vMatch, vnIndex := vMatch + [hash], vnIndex + [pos];
        }
      } else {
        var left, right;
        left, nBitsUsed, nHashUsed, vMatch, vnIndex :=
          TraverseAndExtract(height - 1, pos * 2, nBitsUsed, nHashUsed, vMatch, vnIndex);
        if pos * 2 + 1 < CalcTreeWidth(nTransactions, height - 1) {
          right, nBitsUsed, nHashUsed, vMatch, vnIndex :=
            TraverseAndExtract(height - 1, pos * 2 + 1, nBitsUsed, nHashUsed, vMatch, vnIndex);
          if right == left {
            fBad := true;
          }
        } else {
          right := left;
        }
        hash := H(left, right);
      }
    }

    /** Returns the root and the matches, or a null root on any irregularity. */
    method ExtractMatches(limit: nat, vnIndex0: seq<nat>) returns (root: Hash, vMatch: seq<Hash>, vnIndex: seq<nat>)
      modifies this`fBad
      ensures forall h :: IsHeight(nTransactions, h) ==>
                Extracted(root, fBad, vMatch, vnIndex)
                == ExtractAll(H, limit, nTransactions, vBits, vHash, old(fBad), vnIndex0, h)
    {
      hide Extract, IsHeight;
      vMatch, vnIndex := [], vnIndex0;
      if nTransactions == 0 || nTransactions > limit || |vHash| > nTransactions || |vBits| < |vHash| {
        root := NULL_HASH;
        return;
      }
      var nHeight := TreeHeight(nTransactions);
      forall h | IsHeight(nTransactions, h) ensures h == nHeight {
        SameHeight(nTransactions, h, nHeight);
      }
      var nBitsUsed, nHashUsed;
      root, nBitsUsed, nHashUsed, vMatch, vnIndex := TraverseAndExtract(nHeight, 0, 0, 0, vMatch, vnIndex);
      if fBad || (nBitsUsed + 7) / 8 != (|vBits| + 7) / 8 || nHashUsed != |vHash| {
        root := NULL_HASH;
      }
    }
  }

  lemma AnyMatchStep(mask: seq<bool>, lo: nat, p: nat)
    ensures !AnyMatch(mask, p, p)
    ensures lo <= p < |mask| ==> (AnyMatch(mask, lo, p + 1) <==> AnyMatch(mask, lo, p) || mask[p])
  {
  }

  lemma AnyMatchEnd(mask: seq<bool>, lo: nat, p: nat, end: nat)
    requires p == end || |mask| <= p <= end
    ensures AnyMatch(mask, lo, p) <==> AnyMatch(mask, lo, end)
  {
  }

  lemma SameHeight(n: nat, h: nat, h': nat)
    requires IsHeight(n, h) && IsHeight(n, h')
    ensures h == h'
  {
  }

  /** From txids and a mask over the wire to the matches: the true root and exactly the matched
      txids with their places, or a null root exactly when two visited siblings coincide. */
  method Transmit(H: Combine, limit: nat, vTxid: seq<Hash>, vMatch: seq<bool>)
    returns (root: Hash, matches: seq<Hash>, indexes: seq<nat>)
    requires 0 < |vTxid| == |vMatch| <= limit
    ensures forall h :: IsHeight(|vTxid|, h) ==>
              && Lo(h, 0) == 0
              && root == if NoTwins(H, Prune(H, vTxid, vMatch, h, 0)) then CalcHash(H, vTxid, h, 0) else NULL_HASH
    ensures Exact(vTxid, vMatch, 0, |vTxid|, matches, indexes)
  {
    hide Extract, ExtractAll, IsHeight, Prune, CalcHash, NoTwins, Exact, BitAt;
    var sent := new PartialMerkleTree(H, vTxid, vMatch);
    var bytes := Pack(sent.vBits);
    var received := new PartialMerkleTree.FromWire(H, sent.nTransactions, sent.vHash, bytes);
    var h := TreeHeight(|vTxid|);
    forall h' | IsHeight(|vTxid|, h') ensures h' == h {
      SameHeight(|vTxid|, h', h);
    }
    assert sent.vBits <= received.vBits;
    BuiltIsAccepted(H, limit, vTxid, vMatch, received.vBits, h);
    assert received.vHash == Hashes(Prune(H, vTxid, vMatch, h, 0));
    root, matches, indexes := received.ExtractMatches(limit, []);
    assert IsHeight(received.nTransactions, h);
    assert root == ExtractAll(H, limit, |vTxid|, received.vBits, received.vHash, false, [], h).root;
  }
}
