/** The Merkle tree over a block's transactions, its partial trees, and what a partial tree
    that evaluates to the root proves. */
module MerkleTree {
  import opened Bounds
  import opened Words

  type Hash = nat

  const NULL_HASH: Hash := 0

  type Combine = (Hash, Hash) -> Hash

  lemma {:induction false} Pow2Grows(h: nat)
    ensures Pow2(h) > h
  {
    if h > 0 { Pow2Grows(h - 1); }
  }

  /** The first leaf under a node. */
  ghost function Lo(h: nat, pos: nat): nat {
    pos * Pow2(h)
  }

  lemma LoZero(pos: nat)
    ensures Lo(0, pos) == pos
  {
  }

  lemma Halves(h: nat, pos: nat)
    requires h > 0
    ensures Lo(h - 1, 2 * pos) == Lo(h, pos)
    ensures Lo(h - 1, 2 * pos + 2) == Lo(h, pos + 1)
    ensures Lo(h, pos) < Lo(h - 1, 2 * pos + 1) < Lo(h, pos + 1)
  {
    var p := Pow2(h - 1);
    Pow2Grows(h - 1);
    assert 2 * pos * p == pos * (2 * p);
    assert (2 * pos + 2) * p == (pos + 1) * (2 * p);
    assert (2 * pos + 1) * p == 2 * pos * p + p;
  }

  /** The number of nodes at a height. */
  function CalcTreeWidth(n: nat, h: nat): nat {
    Pow2Grows(h);
    (n + Pow2(h) - 1) / Pow2(h)
  }

  lemma Ordered(a: int, b: int, p: nat)
    requires a <= b
    ensures a * p <= b * p && (b - 1) * p == b * p - p
  {
  }

  lemma DivCeil(n: nat, p: nat, pos: nat)
    requires p > 0
    ensures pos < (n + p - 1) / p <==> pos * p < n
  {
    var q := (n + p - 1) / p;
    assert q * p <= n + p - 1 < q * p + p;
    if pos < q {
      Ordered(pos, q - 1, p);
    } else {
      Ordered(q, pos, p);
    }
  }

  /** A node exists exactly when a leaf lies under it. */
  lemma NodeExists(n: nat, h: nat, pos: nat)
    ensures pos < CalcTreeWidth(n, h) <==> Lo(h, pos) < n
  {
    Pow2Grows(h);
    DivCeil(n, Pow2(h), pos);
  }

  ghost predicate HasRight(n: nat, h: nat, pos: nat)
    requires h > 0
  {
    2 * pos + 1 < CalcTreeWidth(n, h - 1)
  }

  /** The hash of a node: a txid, or its two children combined, a missing right child
      standing for a copy of the left one. */
  function CalcHash(H: Combine, txids: seq<Hash>, h: nat, pos: nat): Hash
    requires Lo(h, pos) < |txids|
  {
    if h == 0 then txids[pos]
    else
      Halves(h, pos);
      NodeExists(|txids|, h - 1, 2 * pos + 1);
      var left := CalcHash(H, txids, h - 1, 2 * pos);
      var right := if 2 * pos + 1 < CalcTreeWidth(|txids|, h - 1)
                   then CalcHash(H, txids, h - 1, 2 * pos + 1) else left;
      H(left, right)
  }

  // ----- Partial trees --------------------------------------------------------------------

  /** What a partial Merkle tree encodes: at the leaves txids, matched or not; above them
      hashes of unexplored branches, and explored nodes with one or two children. */
  datatype Partial =
    | Leaf(matched: bool, hash: Hash)
    | Pruned(hash: Hash)
    | Single(left: Partial)
    | Pair(left: Partial, right: Partial)

  /** The partial tree has the shape of the subtree at a node of a tree with `n` leaves. */
  ghost predicate Shaped(p: Partial, n: nat, h: nat, pos: nat)
    decreases h
  {
    if h == 0 then p.Leaf?
    else
      match p
      case Leaf(_, _) => false
      case Pruned(_) => true
      case Single(l) => !HasRight(n, h, pos) && Shaped(l, n, h - 1, 2 * pos)
      case Pair(l, r) =>
        HasRight(n, h, pos) && Shaped(l, n, h - 1, 2 * pos) && Shaped(r, n, h - 1, 2 * pos + 1)
  }

  ghost function Eval(H: Combine, p: Partial): Hash {
    match p
    case Leaf(_, x) => x
    case Pruned(x) => x
    case Single(l) => H(Eval(H, l), Eval(H, l))
    case Pair(l, r) => H(Eval(H, l), Eval(H, r))
  }

  /** No two sibling hashes coincide. */
  ghost predicate NoTwins(H: Combine, p: Partial) {
    match p
    case Leaf(_, _) => true
    case Pruned(_) => true
    case Single(l) => NoTwins(H, l)
    case Pair(l, r) => NoTwins(H, l) && NoTwins(H, r) && Eval(H, l) != Eval(H, r)
  }

  /** The flag bits, one per node in depth-first order. */
  ghost function Bits(p: Partial): seq<bool> {
    match p
    case Leaf(m, _) => [m]
    case Pruned(_) => [false]
    case Single(l) => [true] + Bits(l)
    case Pair(l, r) => [true] + Bits(l) + Bits(r)
  }

  /** The stored hashes in depth-first order. */
  ghost function Hashes(p: Partial): seq<Hash> {
    match p
    case Leaf(_, x) => [x]
    case Pruned(x) => [x]
    case Single(l) => Hashes(l)
    case Pair(l, r) => Hashes(l) + Hashes(r)
  }

  /** The positions of the matched leaves. */
  ghost function Indexes(p: Partial, h: nat, pos: nat): seq<nat> {
    match p
    case Leaf(m, _) => if m then [pos] else []
    case Pruned(_) => []
    case Single(l) => if h == 0 then [] else Indexes(l, h - 1, 2 * pos)
    case Pair(l, r) => if h == 0 then [] else Indexes(l, h - 1, 2 * pos) + Indexes(r, h - 1, 2 * pos + 1)
  }

  /** The txids at the matched leaves. */
  ghost function Matches(p: Partial): seq<Hash> {
    match p
    case Leaf(m, x) => if m then [x] else []
    case Pruned(_) => []
    case Single(l) => Matches(l)
    case Pair(l, r) => Matches(l) + Matches(r)
  }

  // ----- Soundness ------------------------------------------------------------------------

  /** Somewhere in the partial tree, two different pairs of hashes were combined to the same
      hash: the pair in the partial tree and the pair in the true tree. */
  ghost predicate Collides(H: Combine, txids: seq<Hash>, p: Partial, h: nat, pos: nat)
    requires Shaped(p, |txids|, h, pos) && Lo(h, pos) < |txids|
    decreases h
  {
    if h == 0 || p.Pruned? then false
    else
      Halves(h, pos);
      NodeExists(|txids|, h - 1, 2 * pos + 1);
      var l := CalcHash(H, txids, h - 1, 2 * pos);
      match p
      case Single(pl) =>
        || (Eval(H, pl) != l && H(Eval(H, pl), Eval(H, pl)) == H(l, l))
        || Collides(H, txids, pl, h - 1, 2 * pos)
      case Pair(pl, pr) =>
        var r := CalcHash(H, txids, h - 1, 2 * pos + 1);
        || ((Eval(H, pl), Eval(H, pr)) != (l, r) && H(Eval(H, pl), Eval(H, pr)) == H(l, r))
        || Collides(H, txids, pl, h - 1, 2 * pos)
        || Collides(H, txids, pr, h - 1, 2 * pos + 1)
  }

  ghost predicate Increasing(s: seq<nat>, lo: nat, hi: nat) {
    && (forall i :: 0 <= i < |s| ==> lo <= s[i] < hi)
    && (forall i, j :: 0 <= i < j < |s| ==> s[i] < s[j])
  }

  /** The reported txids sit at the reported places. */
  ghost predicate Genuine(txids: seq<Hash>, matches: seq<Hash>, indexes: seq<nat>) {
    && |matches| == |indexes|
    && forall i :: 0 <= i < |indexes| ==> indexes[i] < |txids| && txids[indexes[i]] == matches[i]
  }

  lemma {:induction false} IndexesIncrease(p: Partial, n: nat, h: nat, pos: nat)
    requires Shaped(p, n, h, pos)
    ensures Increasing(Indexes(p, h, pos), Lo(h, pos), Lo(h, pos + 1)) && |Indexes(p, h, pos)| == |Matches(p)|
    decreases h
  {
    if h > 0 && !p.Pruned? {
      Halves(h, pos);
      IndexesIncrease(p.left, n, h - 1, 2 * pos);
      if p.Pair? { IndexesIncrease(p.right, n, h - 1, 2 * pos + 1); }
    }
  }

  /** A partial tree that evaluates to the true hash reports only true txids at their true
      places, unless it exhibits a collision of the hash function. */
  lemma {:induction false} Sound(H: Combine, txids: seq<Hash>, p: Partial, h: nat, pos: nat)
    requires Shaped(p, |txids|, h, pos) && Lo(h, pos) < |txids|
    requires Eval(H, p) == CalcHash(H, txids, h, pos)
    ensures Collides(H, txids, p, h, pos) || Genuine(txids, Matches(p), Indexes(p, h, pos))
    decreases h
  {
    hide Lo, Pow2, CalcTreeWidth;
    LoZero(pos);
    if h > 0 && !p.Pruned? && !Collides(H, txids, p, h, pos) {
      Halves(h, pos);
      NodeExists(|txids|, h - 1, 2 * pos + 1);
      Sound(H, txids, p.left, h - 1, 2 * pos);
      if p.Pair? { Sound(H, txids, p.right, h - 1, 2 * pos + 1); }
    }
  }

  ghost predicate PairInjective(H: Combine) {
    forall a, b, c, d :: H(a, b) == H(c, d) ==> a == c && b == d
  }

  lemma {:induction false} NoCollision(H: Combine, txids: seq<Hash>, p: Partial, h: nat, pos: nat)
    requires Shaped(p, |txids|, h, pos) && Lo(h, pos) < |txids| && PairInjective(H)
    ensures !Collides(H, txids, p, h, pos)
    decreases h
  {
    if h > 0 && !p.Pruned? {
      Halves(h, pos);
      NodeExists(|txids|, h - 1, 2 * pos + 1);
      NoCollision(H, txids, p.left, h - 1, 2 * pos);
      if p.Pair? { NoCollision(H, txids, p.right, h - 1, 2 * pos + 1); }
    }
  }

  // ----- Building -------------------------------------------------------------------------

  ghost predicate AnyMatch(mask: seq<bool>, lo: nat, hi: nat) {
    exists i :: lo <= i < hi && i < |mask| && mask[i]
  }

  /** The partial tree that explores exactly the nodes with a match below. */
  ghost function Prune(H: Combine, txids: seq<Hash>, mask: seq<bool>, h: nat, pos: nat): Partial
    requires Lo(h, pos) < |txids| == |mask|
  {
    if h == 0 then Leaf(mask[pos], txids[pos])
    else if !AnyMatch(mask, Lo(h, pos), Lo(h, pos + 1)) then Pruned(CalcHash(H, txids, h, pos))
    else
      Halves(h, pos);
      NodeExists(|txids|, h - 1, 2 * pos + 1);
      var left := Prune(H, txids, mask, h - 1, 2 * pos);
      if HasRight(|txids|, h, pos) then Pair(left, Prune(H, txids, mask, h - 1, 2 * pos + 1)) else Single(left)
  }

  /** Pruning keeps the shape and the hash of the subtree. */
  lemma {:induction false} PruneFaithful(H: Combine, txids: seq<Hash>, mask: seq<bool>, h: nat, pos: nat)
    requires Lo(h, pos) < |txids| == |mask|
    ensures Shaped(Prune(H, txids, mask, h, pos), |txids|, h, pos)
    ensures Eval(H, Prune(H, txids, mask, h, pos)) == CalcHash(H, txids, h, pos)
  {
    if h > 0 && AnyMatch(mask, Lo(h, pos), Lo(h, pos + 1)) {
      Halves(h, pos);
      NodeExists(|txids|, h - 1, 2 * pos + 1);
      PruneFaithful(H, txids, mask, h - 1, 2 * pos);
      if HasRight(|txids|, h, pos) { PruneFaithful(H, txids, mask, h - 1, 2 * pos + 1); }
    }
  }

  /** Pruning reports exactly the matched positions below the node, with their txids. */
  ghost predicate Exact(txids: seq<Hash>, mask: seq<bool>, lo: nat, hi: nat, matches: seq<Hash>, indexes: seq<nat>) {
    && Genuine(txids, matches, indexes)
    && Increasing(indexes, lo, hi)
    && forall i :: i in indexes <==> lo <= i < hi && i < |mask| && mask[i]
  }

  lemma ExactJoin(txids: seq<Hash>, mask: seq<bool>, lo: nat, mid: nat, hi: nat,
                  matches: seq<Hash>, indexes: seq<nat>, matches': seq<Hash>, indexes': seq<nat>)
    requires lo <= mid <= hi
    requires Exact(txids, mask, lo, mid, matches, indexes) && Exact(txids, mask, mid, hi, matches', indexes')
    ensures Exact(txids, mask, lo, hi, matches + matches', indexes + indexes')
  {
  }

  lemma {:induction false} PruneExact(H: Combine, txids: seq<Hash>, mask: seq<bool>, h: nat, pos: nat)
    requires Lo(h, pos) < |txids| == |mask|
    ensures var p := Prune(H, txids, mask, h, pos);
            Exact(txids, mask, Lo(h, pos), Lo(h, pos + 1), Matches(p), Indexes(p, h, pos))
  {
    hide Lo, Pow2, CalcTreeWidth;
    LoZero(pos);
    LoZero(pos + 1);
    if h > 0 {
      Halves(h, pos);
      if AnyMatch(mask, Lo(h, pos), Lo(h, pos + 1)) {
        hide AnyMatch, Exact;
        NodeExists(|txids|, h - 1, 2 * pos + 1);
        PruneExact(H, txids, mask, h - 1, 2 * pos);
        var p := Prune(H, txids, mask, h, pos);
        var mid := Lo(h - 1, 2 * pos + 1);
        if HasRight(|txids|, h, pos) {
          PruneExact(H, txids, mask, h - 1, 2 * pos + 1);
          ExactJoin(txids, mask, Lo(h, pos), mid, Lo(h, pos + 1), Matches(p.left), Indexes(p.left, h - 1, 2 * pos),
                    Matches(p.right), Indexes(p.right, h - 1, 2 * pos + 1));
        } else {
          NothingBeyond(txids, mask, Lo(h, pos), mid, Lo(h, pos + 1), Matches(p.left), Indexes(p.left, h - 1, 2 * pos));
        }
      }
    }
  }

  lemma NothingBeyond(txids: seq<Hash>, mask: seq<bool>, lo: nat, mid: nat, hi: nat,
                      matches: seq<Hash>, indexes: seq<nat>)
    requires Exact(txids, mask, lo, mid, matches, indexes) && |mask| <= mid <= hi
    ensures Exact(txids, mask, lo, hi, matches, indexes)
  {
  }

  // ----- Sizes ------------------------------------------------------------------------------

  ghost function Singles(p: Partial): nat {
    match p
    case Leaf(_, _) => 0
    case Pruned(_) => 0
    case Single(l) => 1 + Singles(l)
    case Pair(l, r) => Singles(l) + Singles(r)
  }

  /** Two bits per hash less one, and one more for every node with a single child. */
  lemma {:induction false} BitCount(p: Partial)
    ensures |Bits(p)| == 2 * |Hashes(p)| - 1 + Singles(p)
    ensures |Hashes(p)| >= 1
  {
    if p.Single? || p.Pair? { BitCount(p.left); }
    if p.Pair? { BitCount(p.right); }
  }

  /** No more hashes than leaves below the node. */
  lemma {:induction false} HashesAtMostLeaves(H: Combine, txids: seq<Hash>, mask: seq<bool>, h: nat, pos: nat)
    requires Lo(h, pos) < |txids| == |mask|
    ensures |Hashes(Prune(H, txids, mask, h, pos))| <= Min(Lo(h, pos + 1), |txids|) - Lo(h, pos)
  {
    hide Lo, Pow2, CalcTreeWidth, AnyMatch;
    LoZero(pos);
    LoZero(pos + 1);
    if h > 0 {
      Halves(h, pos);
      if AnyMatch(mask, Lo(h, pos), Lo(h, pos + 1)) {
        NodeExists(|txids|, h - 1, 2 * pos + 1);
        HashesAtMostLeaves(H, txids, mask, h - 1, 2 * pos);
        if HasRight(|txids|, h, pos) { HashesAtMostLeaves(H, txids, mask, h - 1, 2 * pos + 1); }
      }
    }
  }

  lemma Distribute(a: nat, b: nat, h: nat)
    requires h > 0
    ensures (a + b) * h == a * (h - 1) + b * (h - 1) + a + b
  {
  }

  /** A logarithmic number of hashes and bits per match. */
  lemma {:induction false} SizePerMatch(H: Combine, txids: seq<Hash>, mask: seq<bool>, h: nat, pos: nat)
    requires Lo(h, pos) < |txids| == |mask|
    ensures var p := Prune(H, txids, mask, h, pos);
            && |Hashes(p)| <= 1 + |Matches(p)| * h
            && |Bits(p)| <= 1 + 2 * (|Matches(p)| * h)
  {
    hide Lo, Pow2, CalcTreeWidth, AnyMatch;
    var p := Prune(H, txids, mask, h, pos);
    if h > 0 && AnyMatch(mask, Lo(h, pos), Lo(h, pos + 1)) {
      Halves(h, pos);
      NodeExists(|txids|, h - 1, 2 * pos + 1);
      SomeMatch(H, txids, mask, h, pos);
      SizePerMatch(H, txids, mask, h - 1, 2 * pos);
      if HasRight(|txids|, h, pos) {
        SizePerMatch(H, txids, mask, h - 1, 2 * pos + 1);
        Distribute(|Matches(p.left)|, |Matches(p.right)|, h);
      } else {
        Distribute(|Matches(p.left)|, 0, h);
      }
    }
  }

  lemma SomeMatch(H: Combine, txids: seq<Hash>, mask: seq<bool>, h: nat, pos: nat)
    requires Lo(h, pos) < |txids| == |mask| && AnyMatch(mask, Lo(h, pos), Lo(h, pos + 1))
    ensures |Matches(Prune(H, txids, mask, h, pos))| >= 1
  {
    hide Lo, Prune, Matches, Indexes;
    PruneExact(H, txids, mask, h, pos);
    var i :| Lo(h, pos) <= i < Lo(h, pos + 1) && i < |mask| && mask[i];
    assert i in Indexes(Prune(H, txids, mask, h, pos), h, pos);
  }

  /** The last node at a height. */
  ghost function Last(n: nat, h: nat): int {
    CalcTreeWidth(n, h) - 1
  }

  /** The last node's last child is the last node one level down. */
  lemma LastChild(n: nat, h: nat, pos: nat)
    requires h > 0 && Lo(h, pos) < n
    ensures pos <= Last(n, h) && (pos == Last(n, h) <==> Lo(h, pos + 1) >= n)
    ensures pos == Last(n, h) ==> Last(n, h - 1) == if HasRight(n, h, pos) then 2 * pos + 1 else 2 * pos
    ensures pos < Last(n, h) ==> HasRight(n, h, pos) && 2 * pos + 1 < Last(n, h - 1)
  {
    Halves(h, pos);
    NodeExists(n, h, pos);
    NodeExists(n, h, pos + 1);
    NodeExists(n, h - 1, 2 * pos);
    NodeExists(n, h - 1, 2 * pos + 1);
    NodeExists(n, h - 1, 2 * pos + 2);
    hide Lo, Pow2, CalcTreeWidth;
  }

  /** A matched leaf lies below a node at height `h` that has no right child. */
  ghost predicate LoneMatch(mask: seq<bool>, h: nat)
    requires h > 0
  {
    var last := Last(|mask|, h);
    last >= 0 && !HasRight(|mask|, h, last) && AnyMatch(mask, Lo(h, last), |mask|)
  }

  /** At how many heights that happens. */
  ghost function LoneLevels(mask: seq<bool>, h: nat): (r: nat)
    ensures r <= h
  {
    if h == 0 then 0 else LoneLevels(mask, h - 1) + (if LoneMatch(mask, h) then 1 else 0)
  }

  /** A lone match lies below the last node of every greater height. */
  lemma {:induction false} LoneMatchBelow(mask: seq<bool>, h: nat, pos: nat)
    requires Lo(h, pos) < |mask| && pos == Last(|mask|, h) && LoneLevels(mask, h) > 0
    ensures AnyMatch(mask, Lo(h, pos), |mask|)
  {
    if !LoneMatch(mask, h) {
      LastChild(|mask|, h, pos);
      Halves(h, pos);
      var child := Last(|mask|, h - 1);
      NodeExists(|mask|, h - 1, child);
      hide Lo, Pow2, CalcTreeWidth, LoneMatch;
      LoneMatchBelow(mask, h - 1, child);
    }
  }

  /** A node with a single child is met at every height at which a match lies below one. */
  lemma {:induction false} SinglesCount(H: Combine, txids: seq<Hash>, mask: seq<bool>, h: nat, pos: nat)
    requires Lo(h, pos) < |txids| == |mask|
    ensures Singles(Prune(H, txids, mask, h, pos)) == if pos == Last(|mask|, h) then LoneLevels(mask, h) else 0
  {
    hide Lo, Pow2, CalcTreeWidth, Last;
    LoZero(pos);
    if h > 0 {
      LastChild(|mask|, h, pos);
      Halves(h, pos);
      NodeExists(|mask|, h - 1, 2 * pos + 1);
      if AnyMatch(mask, Lo(h, pos), Lo(h, pos + 1)) {
        SinglesCount(H, txids, mask, h - 1, 2 * pos);
        if HasRight(|txids|, h, pos) { SinglesCount(H, txids, mask, h - 1, 2 * pos + 1); }
      } else if pos == Last(|mask|, h) && LoneLevels(mask, h) > 0 {
        LoneMatchBelow(mask, h, pos);
      }
    }
  }

  /** If everything is matched, every leaf is stored. */
  lemma {:induction false} AllStored(H: Combine, txids: seq<Hash>, mask: seq<bool>, h: nat, pos: nat)
    requires Lo(h, pos) < |txids| == |mask| && forall i :: 0 <= i < |mask| ==> mask[i]
    ensures |Hashes(Prune(H, txids, mask, h, pos))| == Min(Lo(h, pos + 1), |txids|) - Lo(h, pos)
  {
    hide Lo, Pow2, CalcTreeWidth;
    LoZero(pos);
    LoZero(pos + 1);
    if h > 0 {
      Halves(h, pos);
      assert mask[Lo(h, pos)];
      NodeExists(|txids|, h - 1, 2 * pos + 1);
      AllStored(H, txids, mask, h - 1, 2 * pos);
      if HasRight(|txids|, h, pos) { AllStored(H, txids, mask, h - 1, 2 * pos + 1); }
    }
  }
}
