/** The block tree with its skip pointers, and the active chain. */
module Chain {
  import Words

  // ----- Skip heights -------------------------------------------------------------------------------

  function BitAnd(a: nat, b: nat): (r: nat)
    ensures r <= a && r <= b
  {
    if a == 0 || b == 0 then 0
    else 2 * BitAnd(a / 2, b / 2) + (if a % 2 == 1 && b % 2 == 1 then 1 else 0)
  }

  function InvertLowestOne(n: nat): (r: nat)
    ensures n > 0 ==> r < n
  {
    if n == 0 then 0 else BitAnd(n, n - 1)
  }

  lemma {:induction false} BitAndSelf(a: nat)
    ensures BitAnd(a, a) == a
  {
    if a > 0 { BitAndSelf(a / 2); }
  }

  lemma OddInverted(m: nat)
    ensures InvertLowestOne(2 * m + 1) == 2 * m
  {
    BitAndSelf(m);
  }

  lemma EvenInverted(n: int)
    requires n > 0
    ensures InvertLowestOne(2 * n) == 2 * InvertLowestOne(n)
  {
    assert (2 * n - 1) / 2 == n - 1;
  }

  /** The lowest one bit becomes zero and every other bit stays. */
  lemma {:induction false} LowestOneInverted(m: nat, k: nat)
    ensures InvertLowestOne((2 * m + 1) * Words.Pow2(k)) == 2 * m * Words.Pow2(k)
  {
    hide InvertLowestOne;
    var p := Words.Pow2(k);
    if k == 0 {
      OddInverted(m);
    } else {
      var half := Words.Pow2(k - 1);
      LowestOneInverted(m, k - 1);
      hide Words.Pow2;
      Doubled(2 * m + 1, half, p);
      Doubled(2 * m, half, p);
      EvenInverted((2 * m + 1) * half);
    }
  }

  lemma Doubled(a: nat, half: nat, p: nat)
    requires p == 2 * half
    ensures a * p == 2 * (a * half) && (a > 0 && half > 0 ==> a * half > 0)
  {
  }

  /** The height a skip pointer leads to. */
  function GetSkipHeight(height: nat): (r: nat)
    ensures height > 0 ==> r < height
  {
    if height < 2 then 0
    else if height % 2 == 1 then InvertLowestOne(InvertLowestOne(height - 1)) + 1
    else InvertLowestOne(height)
  }

  // ----- The block tree -----------------------------------------------------------------------------

  class BlockIndex {
    const pprev: BlockIndex?
    const nHeight: nat
    var pskip: BlockIndex?
    ghost const ancestors: seq<BlockIndex>    // from the genesis block up to the parent

    /** The ancestors are those of the walk back to the genesis block. */
    ghost predicate Linked()
      decreases |ancestors|
    {
      && nHeight == |ancestors|
      && if pprev == null then ancestors == []
         else ancestors == pprev.ancestors + [pprev] && pprev.Linked()
    }

    ghost function Path(): (p: seq<BlockIndex>)
      ensures |p| > 0 && p[|p| - 1] == this
    {
      ancestors + [this]
    }

    ghost predicate SkipOk()
      reads this
    {
      pskip != null ==> GetSkipHeight(nHeight) < |ancestors| && pskip == ancestors[GetSkipHeight(nHeight)]
    }

    ghost predicate Valid()
      reads Path()
    {
      Linked() && forall i :: 0 <= i < |Path()| ==> Path()[i].SkipOk()
    }

    /** A block on top of another one, or a genesis block. */
    constructor (parent: BlockIndex?)
      requires parent != null ==> parent.Valid()
      ensures pprev == parent && Valid()
      ensures ancestors == if parent == null then [] else parent.Path()
      ensures pskip == if parent == null then null else Path()[GetSkipHeight(nHeight)]
    {
      pprev := parent;
      nHeight := if parent == null then 0 else parent.nHeight + 1;
      ancestors := if parent == null then [] else parent.ancestors + [parent];
      pskip := null;
      new;
      if parent != null {
        BuildSkip();
        assert forall i :: 0 <= i < |ancestors| ==> Path()[i] == parent.Path()[i] && Path()[i].SkipOk();
      }
    }

    /** Points the skip pointer at the ancestor it is due. */
    method BuildSkip()
      requires Linked() && (pprev != null ==> pprev.Valid())
      modifies this`pskip
      ensures pprev == null ==> pskip == old(pskip)
      ensures pprev != null ==> pskip == Path()[GetSkipHeight(nHeight)]
    {
      if pprev != null {
        pskip := pprev.GetAncestor(GetSkipHeight(nHeight));
      }
    }

    /** The block that a plain walk back to the height reaches, found along the skip pointers. */
    method GetAncestor(height: int) returns (r: BlockIndex?)
      requires Valid()
      ensures r == if 0 <= height <= nHeight then WalkBack(this, height) else null
      ensures 0 <= height <= nHeight ==> r == Path()[height]
    {
      if height > nHeight || height < 0 {
        return null;
      }
      hide Linked, GetSkipHeight;
      var pindexWalk := this;
      var heightWalk := nHeight;
      while heightWalk > height
        invariant height <= heightWalk <= nHeight && pindexWalk == Path()[heightWalk]
        decreases heightWalk
      {
        PathBelow(this, heightWalk);
        assert pindexWalk.SkipOk();
        var heightSkip := GetSkipHeight(heightWalk);
        var heightSkipPrev := GetSkipHeight(heightWalk - 1);
        if pindexWalk.pskip != null
           && (heightSkip == height
               || (heightSkip > height && !(heightSkipPrev < heightSkip - 2 && heightSkipPrev >= height))) {
          pindexWalk := pindexWalk.pskip;
          heightWalk := heightSkip;
        } else {
          assert pindexWalk.pprev != null;
          pindexWalk := pindexWalk.pprev;
          heightWalk := heightWalk - 1;
        }
      }
      r := pindexWalk;
      WalkIsPath(this, height);
    }
  }

  /** The plain walk along the parents down to a height. */
  ghost function WalkBack(b: BlockIndex, height: nat): BlockIndex
    requires b.Linked()
    decreases b.nHeight
  {
    if b.nHeight <= height then b
    else
      ParentLinked(b);
      WalkBack(b.pprev, height)
  }

  lemma ParentLinked(b: BlockIndex)
    requires b.Linked() && b.nHeight > 0
    ensures b.pprev != null && b.pprev.Linked() && b.pprev.nHeight == b.nHeight - 1 && b.pprev.Path() == b.ancestors
  {
  }

  lemma {:induction false} WalkIsPath(b: BlockIndex, height: nat)
    requires b.Linked() && height <= b.nHeight
    ensures |b.Path()| == b.nHeight + 1 && WalkBack(b, height) == b.Path()[height]
    decreases b.nHeight
  {
    if height < b.nHeight {
      ParentLinked(b);
      WalkIsPath(b.pprev, height);
    }
  }

  /** Blocks on a path have the lower part of it as their own path. */
  lemma {:induction false} PathBelow(b: BlockIndex, i: nat)
    requires b.Linked() && i <= b.nHeight
    ensures |b.Path()| == b.nHeight + 1
    ensures var x := b.Path()[i];
            && x.Linked() && x.nHeight == i && x.ancestors == b.Path()[..i] && x.Path() == b.Path()[..i + 1]
            && x.pprev == if i == 0 then null else b.Path()[i - 1]
    decreases b.nHeight
  {
    if i == b.nHeight {
      assert b.Path()[..i + 1] == b.Path() && b.Path()[..i] == b.ancestors;
    } else {
      ParentLinked(b);
      PathBelow(b.pprev, i);
      assert b.Path()[..i + 1] == b.ancestors[..i + 1] && b.Path()[..i] == b.ancestors[..i];
    }
  }

  /** A block common to two paths is at the same place on both, with the same blocks below. */
  lemma CommonPrefix(a: BlockIndex, b: BlockIndex, x: BlockIndex)
    requires a.Linked() && b.Linked() && x in a.Path() && x in b.Path()
    ensures x.nHeight <= a.nHeight && x.nHeight <= b.nHeight
    ensures a.Path()[..x.nHeight + 1] == b.Path()[..x.nHeight + 1] && a.Path()[x.nHeight] == x == b.Path()[x.nHeight]
  {
    hide BlockIndex.Linked;
    PathBelow(a, 0);
    PathBelow(b, 0);
    var i :| 0 <= i < |a.Path()| && a.Path()[i] == x;
    var j :| 0 <= j < |b.Path()| && b.Path()[j] == x;
    PathBelow(a, i);
    PathBelow(b, j);
  }

  /** No common block of two paths is higher than `h`. */
  ghost predicate CommonBelow(a: BlockIndex, b: BlockIndex, h: int) {
    forall x :: x in a.Path() && x in b.Path() ==> x.nHeight <= h
  }

  lemma CommonBelowBoth(a: BlockIndex, b: BlockIndex)
    requires a.Linked() && b.Linked()
    ensures CommonBelow(a, b, a.nHeight) && CommonBelow(a, b, b.nHeight)
  {
    forall x | x in a.Path() && x in b.Path() ensures x.nHeight <= a.nHeight && x.nHeight <= b.nHeight {
      CommonPrefix(a, b, x);
    }
  }

  lemma CommonLower(a: BlockIndex, b: BlockIndex, h: nat)
    requires a.Linked() && b.Linked() && h < |a.Path()| && h < |b.Path()|
    requires CommonBelow(a, b, h) && a.Path()[h] != b.Path()[h]
    ensures CommonBelow(a, b, h - 1)
  {
    hide BlockIndex.Linked;
    forall x | x in a.Path() && x in b.Path() ensures x.nHeight <= h - 1 {
      CommonPrefix(a, b, x);
    }
  }

  /** The highest block on both paths, or null if there is none. */
  ghost predicate IsFork(p: seq<BlockIndex>, q: seq<BlockIndex?>, r: BlockIndex?) {
    && (r != null ==> r in p && r in q)
    && forall x: BlockIndex :: x in p && x in q ==> r != null && x.nHeight <= r.nHeight
  }

  /** The last block two branches have in common. */
  method LastCommonAncestor(pa0: BlockIndex, pb0: BlockIndex) returns (r: BlockIndex?)
    requires pa0.Valid() && pb0.Valid()
    ensures IsFork(pa0.Path(), pb0.Path(), r)
  {
    hide BlockIndex.Linked, CommonBelow;
    PathBelow(pa0, pa0.nHeight);
    PathBelow(pb0, pb0.nHeight);
    CommonBelowBoth(pa0, pb0);
    var pa: BlockIndex?, pb: BlockIndex? := pa0, pb0;
    ghost var h: int := pa0.nHeight;
    if pa0.nHeight > pb0.nHeight {
      pa := pa0.GetAncestor(pb0.nHeight);
      h := pb0.nHeight;
    } else if pb0.nHeight > pa0.nHeight {
      pb := pb0.GetAncestor(pa0.nHeight);
    }
    while pa != pb && pa != null && pb != null
      invariant -1 <= h <= pa0.nHeight && h <= pb0.nHeight
      invariant if h == -1 then pa == null && pb == null else pa == pa0.Path()[h] && pb == pb0.Path()[h]
      invariant CommonBelow(pa0, pb0, h)
      decreases h
    {
      PathBelow(pa0, h);
      PathBelow(pb0, h);
      CommonLower(pa0, pb0, h);
      pa := pa.pprev;
      pb := pb.pprev;
      h := h - 1;
    }
    assert pa == pb;
    r := pa;
    ForkFound(pa0, pb0, r, h);
  }

  lemma ForkFound(a: BlockIndex, b: BlockIndex, r: BlockIndex?, h: int)
    requires a.Linked() && b.Linked() && CommonBelow(a, b, h) && -1 <= h <= a.nHeight && h <= b.nHeight
    requires if h == -1 then r == null else h < |a.Path()| && h < |b.Path()| && r == a.Path()[h] == b.Path()[h]
    ensures IsFork(a.Path(), b.Path(), r)
  {
    hide BlockIndex.Linked;
    if h >= 0 { PathBelow(a, h); }
  }

  // ----- The active chain ---------------------------------------------------------------------------

  /** A vector cut to a length, or filled up with null pointers. */
  function Resized(v: seq<BlockIndex?>, n: nat): (r: seq<BlockIndex?>)
    ensures |r| == n
  {
    if n <= |v| then v[..n] else v + seq(n - |v|, _ => null)
  }

  class ActiveChain {
    var vChain: seq<BlockIndex?>

    /** Slot i holds the tip's ancestor at height i. */
    ghost predicate Valid()
      reads this
    {
      vChain == [] || (var tip := vChain[|vChain| - 1]; tip != null && tip.Linked() && vChain == tip.Path())
    }

    constructor ()
      ensures Valid() && vChain == []
    {
      vChain := [];
    }

    /** The block at a height, or null. */
    function At(height: int): (r: BlockIndex?)
      reads this
    {
      if height < 0 || height >= |vChain| then null else vChain[height]
    }

    function Tip(): BlockIndex?
      reads this
    {
      if |vChain| > 0 then vChain[|vChain| - 1] else null
    }

    function Height(): int
      reads this
    {
      |vChain| - 1
    }

    predicate Contains(pindex: BlockIndex)
      reads this
    {
      At(pindex.nHeight) == pindex
    }

    /** The lookup by height tells membership. */
    lemma ContainsExactly(pindex: BlockIndex)
      requires Valid() && pindex.Linked()
      ensures Contains(pindex) <==> pindex in vChain
    {
      hide BlockIndex.Linked;
      if pindex in vChain {
        var i :| 0 <= i < |vChain| && vChain[i] == pindex;
        var tip := vChain[|vChain| - 1];
        PathBelow(tip, tip.nHeight);
        PathBelow(tip, i);
      }
    }

    /** Makes a block the tip, rewriting slots only down to the fork with the previous chain. */
    method SetTip(tip: BlockIndex?)
      requires Valid() && (tip != null ==> tip.Linked())
      modifies this
      ensures Valid() && vChain == if tip == null then [] else tip.Path()
    {
      hide BlockIndex.Linked, Rewritten, Resized;
      if tip == null {
        vChain := [];
        return;
      }
      PathBelow(tip, tip.nHeight);
      ghost var was, path := vChain, tip.Path();
      var n := tip.nHeight + 1;
      vChain := Resized(vChain, n);
      ghost var resized := vChain;
      ghost var h: int := tip.nHeight;
      var pindex: BlockIndex? := tip;
      NoneRewritten(resized, path);
      while pindex != null && vChain[pindex.nHeight] != pindex
        invariant -1 <= h < n
        invariant if h == -1 then pindex == null else pindex == path[h] && pindex.nHeight == h
        invariant vChain == Rewritten(resized, path, h)
        decreases h
      {
        WalkDown(tip, h);
        RewriteNext(resized, path, h);
        vChain := vChain[pindex.nHeight := pindex];
        pindex := pindex.pprev;
        h := h - 1;
      }
      AllRewritten(was, tip, h);
    }

    /** The highest block of a branch that is on the active chain. */
    method FindFork(pindex0: BlockIndex?) returns (r: BlockIndex?)
      requires Valid() && (pindex0 != null ==> pindex0.Valid())
      ensures pindex0 == null ==> r == null
      ensures pindex0 != null ==> IsFork(pindex0.Path(), vChain, r)
    {
      hide BlockIndex.Linked, CommonBelow;
      r := pindex0;
      if r == null {
        return;
      }
      PathBelow(pindex0, pindex0.nHeight);
      if vChain == [] {
        r := r.GetAncestor(Height());
        return;
      }
      ghost var tip := vChain[|vChain| - 1];
      PathBelow(tip, tip.nHeight);
      CommonBelowBoth(pindex0, tip);
      ghost var h: int := pindex0.nHeight;
      if r.nHeight > Height() {
        r := r.GetAncestor(Height());
        h := Height();
        PathBelow(pindex0, h);
      }
      while r != null && !Contains(r)
        invariant -1 <= h <= pindex0.nHeight && h <= tip.nHeight
        invariant if h == -1 then r == null else r == pindex0.Path()[h] && r.nHeight == h
        invariant CommonBelow(pindex0, tip, h)
        decreases h
      {
        WalkDown(pindex0, h);
        CommonLower(pindex0, tip, h);
        r := r.pprev;
        h := h - 1;
      }
      ForkFound(pindex0, tip, r, h);
    }

    /** The blocks of a locator: the block itself or else the tip, then ancestors ever farther
        below, down to the genesis block. */
    method GetLocator(pindex0: BlockIndex?) returns (have: seq<BlockIndex>)
      requires Valid() && (pindex0 != null ==> pindex0.Valid()) && (Tip() != null ==> Tip().Valid())
      ensures pindex0 == null && vChain == [] ==> have == []
      ensures pindex0 != null || vChain != [] ==> IsLocator(if pindex0 != null then pindex0 else Tip(), have)
    {
      hide BlockIndex.Linked, Gap, Step, GetSkipHeight, Listed, Contains, Entry;
      have := [];
      var nStep := 1;
      var pindex: BlockIndex? := if pindex0 != null then pindex0 else Tip();
      if pindex == null {
        return;
      }
      ghost var start: BlockIndex := pindex;
      FirstEntry(start);
      while true
        invariant pindex != null && nStep == Step(|have|) && Entry(start, pindex, |have|)
        invariant Listed(start, have)
        invariant forall i :: 0 <= i < |have| ==> have[i].nHeight > 0
        decreases pindex.nHeight
      {
        ListedNext(start, have, pindex);
        have := have + [pindex];
        if pindex.nHeight == 0 {
          break;
        }
        var nHeight := if pindex.nHeight - nStep > 0 then pindex.nHeight - nStep else 0;
        NextEntry(start, pindex, |have| - 1, nHeight);
        pindex := StepBack(pindex, nHeight);
        if |have| > 10 {
          nStep := nStep * 2;
        }
      }
    }

    /** An ancestor, by its slot in the active chain if the block is there, else by skipping. */
    method StepBack(pindex: BlockIndex, height: nat) returns (r: BlockIndex)
      requires Valid() && pindex.Valid() && height <= pindex.nHeight < |pindex.Path()|
      ensures r == pindex.Path()[height]
    {
      hide BlockIndex.Linked, GetSkipHeight;
      if Contains(pindex) {
        SlotIsAncestor(vChain, pindex, height);
        r := At(height);
      } else {
        r := pindex.GetAncestor(height);
      }
    }
  }

  /** The block that is due as entry `k` of a locator. */
  ghost predicate Entry(start: BlockIndex, b: BlockIndex, k: nat) {
    var h := Below(start.nHeight, k);
    h < |start.Path()| && b == start.Path()[h] && b.nHeight == h
  }

  lemma FirstEntry(start: BlockIndex)
    requires start.Valid()
    ensures Entry(start, start, 0) && Step(0) == 1 && Listed(start, [])
  {
    hide BlockIndex.Linked, GetSkipHeight;
    PathBelow(start, start.nHeight);
    GapSteps(0);
  }

  lemma ListedNext(start: BlockIndex, have: seq<BlockIndex>, b: BlockIndex)
    requires Listed(start, have) && Entry(start, b, |have|)
    ensures Listed(start, have + [b])
  {
    hide BlockIndex.Valid, Below;
  }

  lemma NextEntry(start: BlockIndex, b: BlockIndex, k: nat, height: nat)
    requires start.Valid() && Entry(start, b, k) && b.nHeight > 0
    requires height == if b.nHeight - Step(k) > 0 then b.nHeight - Step(k) else 0
    ensures b.Valid() && height < b.nHeight < |b.Path()| && Entry(start, b.Path()[height], k + 1)
    ensures b.Path()[height].nHeight == height
    ensures Step(k + 1) == if k + 1 > 10 then 2 * Step(k) else Step(k)
  {
    hide BlockIndex.Linked, GetSkipHeight, Gap, Step;
    GapSteps(k);
    PathBelow(start, b.nHeight);
    PathBelow(start, height);
    ValidBelow(start, b.nHeight);
  }

  /** How far entry `k` of a locator is below its first. */
  function Gap(k: nat): nat {
    if k <= 10 then k else 9 + Words.Pow2(k - 10)
  }

  function Step(k: nat): nat {
    if k <= 10 then 1 else Words.Pow2(k - 10)
  }

  function Below(height: nat, k: nat): nat {
    if Gap(k) < height then height - Gap(k) else 0
  }

  lemma GapSteps(k: nat)
    ensures Gap(0) == 0 && Step(0) == 1
    ensures Gap(k + 1) == Gap(k) + Step(k) && Step(k) >= 1
    ensures Step(k + 1) == if k + 1 > 10 then 2 * Step(k) else Step(k)
  {
  }

  ghost predicate Listed(start: BlockIndex, have: seq<BlockIndex>) {
    forall i :: 0 <= i < |have| ==>
      var h := Below(start.nHeight, i);
      h < |start.Path()| && have[i] == start.Path()[h] && have[i].nHeight == h
  }

  /** Entries at ever larger gaps, ending with the first genesis block. */
  ghost predicate IsLocator(start: BlockIndex, have: seq<BlockIndex>) {
    && |have| > 0
    && Listed(start, have)
    && (forall i :: 0 <= i < |have| - 1 ==> have[i].nHeight > 0)
    && have[|have| - 1].nHeight == 0
  }

  /** A locator starts at its block, goes strictly down, and has only logarithmically many entries. */
  lemma LocatorShape(start: BlockIndex, have: seq<BlockIndex>)
    requires start.Linked() && IsLocator(start, have)
    ensures have[0] == start
    ensures forall i, j :: 0 <= i < j < |have| ==> have[j].nHeight < have[i].nHeight
    ensures |have| >= 13 ==> 9 + Words.Pow2(|have| - 12) < start.nHeight
  {
    hide BlockIndex.Linked;
    PathBelow(start, start.nHeight);
    forall i, j | 0 <= i < j < |have| ensures have[j].nHeight < have[i].nHeight {
      GapGrows(i, j);
    }
    if |have| >= 13 {
      assert have[|have| - 2].nHeight > 0;
    }
  }

  lemma {:induction false} GapGrows(i: nat, j: nat)
    requires i < j
    ensures Gap(i) < Gap(j)
  {
    GapSteps(j - 1);
    if i < j - 1 { GapGrows(i, j - 1); }
  }

  lemma ValidBelow(b: BlockIndex, i: nat)
    requires b.Valid() && i <= b.nHeight
    ensures i < |b.Path()| && b.Path()[i].Valid()
  {
    hide BlockIndex.Linked, GetSkipHeight;
    PathBelow(b, i);
  }

  lemma SlotIsAncestor(vChain: seq<BlockIndex?>, pindex: BlockIndex, height: nat)
    requires vChain != [] && var tip := vChain[|vChain| - 1]; tip != null && tip.Linked() && vChain == tip.Path()
    requires pindex.Linked() && pindex.nHeight < |vChain| && vChain[pindex.nHeight] == pindex
             && height <= pindex.nHeight
    ensures vChain[height] == pindex.Path()[height]
  {
    hide BlockIndex.Linked;
    var tip := vChain[|vChain| - 1];
    PathBelow(tip, tip.nHeight);
    PathBelow(tip, pindex.nHeight);
  }

  /** The slots above `h` rewritten. */
  ghost function Rewritten(resized: seq<BlockIndex?>, path: seq<BlockIndex>, h: int): seq<BlockIndex?>
    requires -1 <= h < |resized| == |path|
    ensures |Rewritten(resized, path, h)| == |path|
  {
    resized[..h + 1] + path[h + 1..]
  }

  lemma NoneRewritten(resized: seq<BlockIndex?>, path: seq<BlockIndex>)
    requires |resized| == |path| > 0
    ensures Rewritten(resized, path, |path| - 1) == resized
  {
  }

  /** Rewriting may stop at a block that is already in its slot. */
  lemma AllRewritten(was: seq<BlockIndex?>, tip: BlockIndex, h: int)
    requires tip.Linked() && |tip.Path()| == tip.nHeight + 1 && -1 <= h <= tip.nHeight
    requires was == [] || (var last := was[|was| - 1]; last != null && last.Linked() && was == last.Path())
    requires var v := Rewritten(Resized(was, tip.nHeight + 1), tip.Path(), h); h >= 0 ==> v[h] == tip.Path()[h]
    ensures Rewritten(Resized(was, tip.nHeight + 1), tip.Path(), h) == tip.Path()
  {
    hide BlockIndex.Linked, BlockIndex.Path, Resized, Rewritten;
    var path, resized := tip.Path(), Resized(was, tip.nHeight + 1);
    if h >= 0 {
      RewrittenAt(resized, path, h, h);
      ResizedAt(was, tip.nHeight + 1, h);
    }
    forall i | 0 <= i < |path| ensures Rewritten(resized, path, h)[i] == path[i] {
      RewrittenAt(resized, path, h, i);
      ResizedAt(was, tip.nHeight + 1, i);
      if i <= h { SameBelow(was, tip, h, i); }
    }
  }

  lemma RewrittenAt(resized: seq<BlockIndex?>, path: seq<BlockIndex>, h: int, i: nat)
    requires -1 <= h < |resized| == |path| && i < |path|
    ensures Rewritten(resized, path, h)[i] == if i <= h then resized[i] else path[i]
  {
  }

  lemma ResizedAt(v: seq<BlockIndex?>, n: nat, i: nat)
    requires i < n
    ensures Resized(v, n)[i] == if i < |v| then v[i] else null
  {
  }

  lemma RewriteNext(resized: seq<BlockIndex?>, path: seq<BlockIndex>, h: nat)
    requires h < |resized| == |path|
    ensures Rewritten(resized, path, h)[h := path[h]] == Rewritten(resized, path, h - 1)
  {
  }

  lemma WalkDown(tip: BlockIndex, h: nat)
    requires tip.Linked() && h <= tip.nHeight
    ensures |tip.Path()| == tip.nHeight + 1
    ensures tip.Path()[h].pprev == if h == 0 then null else tip.Path()[h - 1]
    ensures h > 0 ==> tip.Path()[h - 1].nHeight == h - 1
  {
    hide BlockIndex.Linked;
    PathBelow(tip, h);
    if h > 0 { PathBelow(tip, h - 1); }
  }

  lemma SameBelow(was: seq<BlockIndex?>, tip: BlockIndex, h: nat, i: nat)
    requires i <= h < |was| && h <= tip.nHeight && tip.Linked() && |tip.Path()| == tip.nHeight + 1
    requires var last := was[|was| - 1]; last != null && last.Linked() && was == last.Path()
    requires was[h] == tip.Path()[h]
    ensures was[i] == tip.Path()[i]
  {
    hide BlockIndex.Linked, BlockIndex.Path;
    var last := was[|was| - 1];
    PathBelow(last, last.nHeight);
    PathBelow(last, h);
    PathBelow(tip, h);
    assert last.Path()[..h + 1][i] == tip.Path()[..h + 1][i];
  }
}
