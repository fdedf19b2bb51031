/** The block assembler: which mempool transactions go into a block, and in what order. */
module Assembler {
  import opened Bounds
  import opened Sets
  import opened Mempool
  import opened Miner

  const RESERVED_WEIGHT := 4000
  const RESERVED_SIGOPS := 400
  const MAX_CONSECUTIVE_FAILURES := 1000
  const UINT_RANGE := 0x1_0000_0000

  /** What running a contract came to: failure, or the gas it used and the cost of the transfers and
      refunds it generated. */
  datatype Execution = Failed | Succeeded(usedGas: nat, weight: nat, sigOps: nat, txs: nat)

  datatype Call = Call(gas: nat, gasPrice: nat)

  /** The contract calls that a transaction stands for, if they can be extracted. */
  datatype Extraction = NotExtracted | Extracted(calls: seq<Call>)

  datatype GasRules = GasRules(stakingDisabled: bool, txGasLimit: nat, softBlockGasLimit: nat, minGasPrice: nat)

  ghost function GasOf(calls: seq<Call>): nat {
    if calls == [] then 0 else GasOf(calls[..|calls| - 1]) + calls[|calls| - 1].gas
  }

  /** No call asks for more gas than is left in the block or pays too little for it, and together they
      do not ask for more than a transaction may. */
  ghost predicate Affordable(calls: seq<Call>, usedGas: nat, rules: GasRules) {
    && (calls != [] ==> GasOf(calls) <= rules.txGasLimit)
    && forall k :: 0 <= k < |calls| ==>
         usedGas + calls[k].gas <= rules.softBlockGasLimit && calls[k].gasPrice >= rules.minGasPrice
  }

  lemma GasNext(calls: seq<Call>, i: nat)
    requires i < |calls|
    ensures GasOf(calls[..i + 1]) == GasOf(calls[..i]) + calls[i].gas
  {
    assert calls[..i + 1][..i] == calls[..i];
  }

  lemma {:induction false} GasGrows(calls: seq<Call>, i: nat)
    requires i <= |calls|
    ensures GasOf(calls[..i]) <= GasOf(calls)
    decreases |calls| - i
  {
    if i < |calls| {
      GasNext(calls, i);
      GasGrows(calls, i + 1);
    } else {
      assert calls[..i] == calls;
    }
  }

  method AffordsGas(calls: seq<Call>, usedGas: nat, rules: GasRules) returns (ok: bool)
    ensures ok <==> Affordable(calls, usedGas, rules)
  {
    hide GasOf;
    var txGas := 0;
    NoGas(calls);
    for i := 0 to |calls|
      invariant txGas == GasOf(calls[..i]) && (i > 0 ==> txGas <= rules.txGasLimit)
      invariant forall k :: 0 <= k < i ==>
                  usedGas + calls[k].gas <= rules.softBlockGasLimit && calls[k].gasPrice >= rules.minGasPrice
    {
      GasNext(calls, i);
      GasGrows(calls, i + 1);
      txGas := txGas + calls[i].gas;
      if txGas > rules.txGasLimit {
        return false;
      }
      if usedGas + calls[i].gas > rules.softBlockGasLimit {
        return false;
      }
      if calls[i].gasPrice < rules.minGasPrice {
        return false;
      }
    }
    assert calls[..|calls|] == calls;
    return true;
  }

  lemma NoGas(calls: seq<Call>)
    ensures GasOf(calls[..0]) == 0
  {
  }

  ghost function Elems(s: seq<TxId>): set<TxId> { set t | t in s }

  lemma ElemsNext(s: seq<TxId>, i: nat)
    requires i < |s|
    ensures Elems(s[..i + 1]) == Elems(s[..i]) + {s[i]} && s[..i + 1] == s[..i] + [s[i]]
  {
  }

  lemma NotEarlier(s: seq<TxId>, i: nat)
    requires NoDuplicates(s) && i < |s|
    ensures s[i] !in Elems(s[..i])
  {
  }

  // ----- Placement ----------------------------------------------------------------------

  /** The block and the set of chosen transactions agree, and the order is valid. */
  ghost predicate Chosen(pool: Pool, block: seq<TxId>, inBlock: set<TxId>) {
    && NoDuplicates(block)
    && AncestorsFirst(pool, block)
    && (forall t :: t in block <==> t in inBlock)
    && (forall t :: t in inBlock ==> t in pool.size && t in pool.acceptable && pool.acceptable[t])
  }

  lemma ChosenNext(pool: Pool, block: seq<TxId>, inBlock: set<TxId>, t: TxId)
    requires Chosen(pool, block, inBlock) && t !in inBlock
    requires t in pool.ancestors && pool.ancestors[t] <= inBlock
    requires t in pool.size && t in pool.acceptable && pool.acceptable[t]
    ensures Chosen(pool, block + [t], inBlock + {t})
  {
    var block' := block + [t];
    forall i | 0 <= i < |block'|
      ensures block'[i] in pool.ancestors && forall a :: a in pool.ancestors[block'[i]] ==> a in block'[..i]
    {
      assert block'[..i] == block[..i];
    }
  }

  lemma AncestorsChosen(pool: Pool, block: seq<TxId>, inBlock: set<TxId>, t: TxId)
    requires Chosen(pool, block, inBlock) && t in inBlock
    ensures t in pool.ancestors && pool.ancestors[t] <= inBlock
  {
    var i :| 0 <= i < |block| && block[i] == t;
    forall a | a in pool.ancestors[t] ensures a in inBlock {
      assert a in block[..i];
    }
  }

  lemma AncestorClosed(pool: Pool, t: TxId, a: TxId)
    requires pool.Valid() && t in pool.Txs() && a in pool.ancestors[t]
    ensures a in pool.Txs() && pool.ancestors[a] <= pool.ancestors[t] && a !in pool.ancestors[a]
  {
    hide Pool.Totalled;
  }

  lemma AncestorsCounted(pool: Pool, t: TxId)
    requires pool.Valid() && t in pool.Txs()
    ensures pool.totals[t].count == |pool.ancestors[t]| + 1
  {
    hide Pool.Closed, Total;
  }

  /** A transaction has more ancestors than any of its ancestors. */
  lemma AncestorCounts(pool: Pool, t: TxId, a: TxId)
    requires pool.Valid() && t in pool.Txs() && a in pool.ancestors[t]
    ensures a in pool.Txs() && pool.totals[a].count < pool.totals[t].count
  {
    hide Total, Pool.Closed, Pool.Totalled;
    AncestorClosed(pool, t, a);
    AncestorsCounted(pool, t);
    AncestorsCounted(pool, a);
    SmallerCount(pool.ancestors[a], pool.ancestors[t] - {a});
  }

  lemma {:induction false} SmallerCount(s: set<TxId>, s': set<TxId>)
    requires s <= s'
    ensures |s| <= |s'|
  {
    if s != {} {
      var t := Member(s);
      SmallerCount(s - {t}, s' - {t});
    }
  }

  /** `sorted` lists the package once each, by ancestor count. */
  ghost predicate SortedPackage(pool: Pool, package: set<TxId>, sorted: seq<TxId>) {
    && NoDuplicates(sorted)
    && (forall t :: t in sorted <==> t in package)
    && (forall t :: t in sorted ==> t in pool.totals)
    && (forall i, j :: 0 <= i < j < |sorted| ==> pool.totals[sorted[i]].count <= pool.totals[sorted[j]].count)
  }

  lemma MissingAncestor(pool: Pool, inBlock: set<TxId>, iter: TxId, t: TxId, a: TxId)
    requires pool.Valid() && iter in pool.Txs()
    requires t in Missing(pool, iter, inBlock)
    ensures t in pool.Txs()
    ensures t !in inBlock
    ensures a in pool.ancestors[t] && a !in inBlock ==> a in Missing(pool, iter, inBlock)
  {
    hide Pool.Totalled;
    assert t != iter ==> t in pool.ancestors[iter];
  }

  /** What a sorted package needs is already chosen, or earlier in the package. */
  lemma PackageOrdered(pool: Pool, inBlock: set<TxId>, iter: TxId, sorted: seq<TxId>, i: nat)
    requires pool.Valid() && iter in pool.Txs() && i < |sorted|
    requires SortedPackage(pool, Missing(pool, iter, inBlock), sorted)
    ensures sorted[i] in pool.Txs() && pool.ancestors[sorted[i]] <= inBlock + Elems(sorted[..i])
    ensures sorted[i] !in inBlock + Elems(sorted[..i])
  {
    hide Pool.Closed, Pool.Totalled, Missing;
    var t := sorted[i];
    assert t in Missing(pool, iter, inBlock);
    MissingAncestor(pool, inBlock, iter, t, t);
    NotEarlier(sorted, i);
    forall a | a in pool.ancestors[t] ensures a in inBlock + Elems(sorted[..i]) {
      AncestorCounts(pool, t, a);
      if a !in inBlock {
        MissingAncestor(pool, inBlock, iter, t, a);
        var j :| 0 <= j < |sorted| && sorted[j] == a;
        assert j < i;
        assert sorted[..i][j] == a;
      }
    }
  }

  /** The transaction the package was chosen for comes last. */
  lemma IterLast(pool: Pool, inBlock: set<TxId>, iter: TxId, sorted: seq<TxId>)
    requires pool.Valid() && iter in pool.Txs() && iter !in inBlock
    requires SortedPackage(pool, Missing(pool, iter, inBlock), sorted)
    ensures |sorted| > 0 && sorted[|sorted| - 1] == iter
    ensures forall j :: 0 <= j < |sorted| - 1 ==> sorted[j] != iter
  {
    hide Pool.Closed, Pool.Totalled;
    assert iter in Missing(pool, iter, inBlock);
    var j :| 0 <= j < |sorted| && sorted[j] == iter;
    var last := sorted[|sorted| - 1];
    if last != iter {
      assert last in Missing(pool, iter, inBlock);
      AncestorCounts(pool, iter, last);
    }
  }

  /** Orders a package by ancestor count. */
  method SortForBlock(pool: Pool, package: set<TxId>) returns (sorted: seq<TxId>)
    requires package <= pool.totals.Keys
    ensures SortedPackage(pool, package, sorted)
  {
    sorted := [];
    var rest := package;
    while rest != {}
      invariant rest <= package
      invariant SortedPackage(pool, package - rest, sorted)
      invariant forall s, t :: s in sorted && t in rest ==> pool.totals[s].count <= pool.totals[t].count
      decreases |rest|
    {
      var t := Fewest(pool, rest);
      sorted, rest := sorted + [t], rest - {t};
    }
    assert package - rest == package;
  }

  method Fewest(pool: Pool, rest: set<TxId>) returns (t: TxId)
    requires rest != {} && rest <= pool.totals.Keys
    ensures t in rest && forall u :: u in rest ==> pool.totals[t].count <= pool.totals[u].count
  {
    NonEmpty(rest);
    t :| t in rest;
    var unseen := rest - {t};
    while unseen != {}
      invariant t in rest && unseen <= rest
      invariant forall u :: u in rest - unseen ==> pool.totals[t].count <= pool.totals[u].count
      decreases |unseen|
    {
      NonEmpty(unseen);
      var u :| u in unseen;
      if pool.totals[u].count < pool.totals[t].count {
        t := u;
      }
      unseen := unseen - {u};
    }
  }

  // ----- Budget -------------------------------------------------------------------------

  /** Virtual sizes round a quarter of the weight up. */
  ghost predicate Weighed(pool: Pool) {
    forall t :: t in pool.size ==> Cost(t, pool.weight) <= WITNESS_SCALE_FACTOR * pool.size[t]
  }

  ghost predicate NoContracts(pool: Pool) {
    forall t :: t in pool.isContract ==> !pool.isContract[t]
  }

  /** Limits that the whole pool cannot reach. */
  ghost predicate Roomy(pool: Pool, maxWeight: nat, maxSigOps: nat) {
    && Weighed(pool)
    && RESERVED_WEIGHT + WITNESS_SCALE_FACTOR * Total(pool.Txs(), pool.size) < maxWeight
    && RESERVED_SIGOPS + Total(pool.Txs(), pool.sigOps) < maxSigOps
  }

  /** Limits that twice the pool cannot reach. */
  ghost predicate TwiceRoomy(pool: Pool, maxWeight: nat, maxSigOps: nat) {
    && RESERVED_WEIGHT + Total(pool.Txs(), pool.weight)
       + WITNESS_SCALE_FACTOR * Total(pool.Txs(), pool.size) < maxWeight
    && RESERVED_SIGOPS + 2 * Total(pool.Txs(), pool.sigOps) < maxSigOps
  }

  /** A pool that could be taken whole if every transaction were acceptable. */
  ghost predicate Ample(pool: Pool, maxWeight: nat, maxSigOps: nat) {
    Roomy(pool, maxWeight, maxSigOps) && NoContracts(pool)
  }

  /** The transaction and all its ancestors are acceptable. */
  ghost predicate Eligible(pool: Pool, t: TxId) {
    t in pool.ancestors && forall a :: a in pool.Package(t) ==> a in pool.acceptable && pool.acceptable[a]
  }

  ghost function Ineligible(pool: Pool): set<TxId> {
    set t | t in pool.ancestors && !Eligible(pool, t)
  }

  /** Only eligible transactions are ever chosen. */
  lemma ChosenEligible(pool: Pool, block: seq<TxId>, inBlock: set<TxId>, t: TxId)
    requires Chosen(pool, block, inBlock) && t in inBlock
    ensures Eligible(pool, t)
  {
    var i :| 0 <= i < |block| && block[i] == t;
    forall a | a in pool.Package(t) ensures a in inBlock {
      assert a != t ==> a in block[..i];
    }
  }

  /** What an eligible transaction still needs is acceptable, and what an ineligible one needs is not. */
  lemma MissingAcceptable(pool: Pool, block: seq<TxId>, inBlock: set<TxId>, t: TxId)
    requires Chosen(pool, block, inBlock) && t in pool.ancestors
    ensures Eligible(pool, t) <==>
              forall a :: a in Missing(pool, t, inBlock) ==> a in pool.acceptable && pool.acceptable[a]
  {
    if forall a :: a in Missing(pool, t, inBlock) ==> a in pool.acceptable && pool.acceptable[a] {
      forall a | a in pool.Package(t) ensures a in pool.acceptable && pool.acceptable[a] {
        assert a !in inBlock ==> a in Missing(pool, t, inBlock);
      }
    }
  }

  /** With room for the whole pool there is room for what any package still needs. */
  lemma RoomForMissing(pool: Pool, block: seq<TxId>, inBlock: set<TxId>, c: Counters, t: TxId,
                       maxWeight: nat, maxSigOps: nat)
    requires pool.Valid() && Roomy(pool, maxWeight, maxSigOps) && t in pool.Txs() && inBlock <= pool.Txs()
    requires Counted(pool, block, inBlock, Transfers(0, 0, 0), c)
    ensures c.weight + WITNESS_SCALE_FACTOR * Total(Missing(pool, t, inBlock), pool.size) < maxWeight
    ensures c.sigOps + Total(Missing(pool, t, inBlock), pool.sigOps) < maxSigOps
  {
    AncestorsInPool(pool, t);
    hide Total, Pool.Closed, Pool.Totalled;
    var missing := Missing(pool, t, inBlock);
    TotalUnion(inBlock, missing, pool.size);
    TotalUnion(inBlock, missing, pool.sigOps);
    TotalSubset(inBlock + missing, pool.Txs(), pool.size);
    TotalSubset(inBlock + missing, pool.Txs(), pool.sigOps);
    TotalBounded(inBlock, pool.weight, pool.size);
  }

  /** With twice the room there is room for any stale totals too. */
  lemma RoomForAny(pool: Pool, block: seq<TxId>, inBlock: set<TxId>, c: Counters, t: TxId, size: int, cost: int,
                   maxWeight: nat, maxSigOps: nat)
    requires pool.Valid() && TwiceRoomy(pool, maxWeight, maxSigOps) && t in pool.Txs() && inBlock <= pool.Txs()
    requires Counted(pool, block, inBlock, Transfers(0, 0, 0), c)
    requires size <= pool.totals[t].size && cost <= pool.totals[t].sigOps
    ensures c.weight + WITNESS_SCALE_FACTOR * size < maxWeight && c.sigOps + cost < maxSigOps
  {
    AncestorsInPool(pool, t);
    hide Total, Pool.Closed;
    TotalSubset(inBlock, pool.Txs(), pool.weight);
    TotalSubset(inBlock, pool.Txs(), pool.sigOps);
    TotalSubset(pool.Package(t), pool.Txs(), pool.size);
    TotalSubset(pool.Package(t), pool.Txs(), pool.sigOps);
  }

  /** What the chosen transactions cost, with the reserve for the coinbase, is within the limits. */
  ghost predicate WithinBudget(pool: Pool, inBlock: set<TxId>, maxWeight: nat, maxSigOps: nat) {
    && (Weighed(pool) ==> RESERVED_WEIGHT + Total(inBlock, pool.weight) <= Max(RESERVED_WEIGHT, maxWeight))
    && RESERVED_SIGOPS + Total(inBlock, pool.sigOps) <= Max(RESERVED_SIGOPS, maxSigOps)
  }

  /** A package that passes the test stays within the limits, in whole or in part. */
  lemma PackageFits(pool: Pool, inBlock: set<TxId>, package: set<TxId>, part: set<TxId>, weight: nat, sigOps: nat,
                    size: int, cost: int, maxWeight: nat, maxSigOps: nat)
    requires package <= pool.size.Keys && package !! inBlock && part <= package
    requires weight >= RESERVED_WEIGHT + Total(inBlock, pool.weight)
    requires sigOps >= RESERVED_SIGOPS + Total(inBlock, pool.sigOps)
    requires size >= Total(package, pool.size) && cost >= Total(package, pool.sigOps)
    requires weight + WITNESS_SCALE_FACTOR * size < maxWeight && sigOps + cost < maxSigOps
    ensures WithinBudget(pool, inBlock + part, maxWeight, maxSigOps)
  {
    hide Total;
    TotalUnion(inBlock, part, pool.weight);
    TotalUnion(inBlock, part, pool.sigOps);
    TotalSubset(part, package, pool.weight);
    TotalSubset(part, package, pool.sigOps);
    if Weighed(pool) {
      TotalBounded(package, pool.weight, pool.size);
    }
  }

  // ----- The assembler --------------------------------------------------------------------

  /** Why the selection goes on or ends: no candidates left, out of time, a fee rate too low, or too
      many failures in a nearly full block. */
  datatype End = GoOn | Exhausted | OutOfTime | LowFee | NearlyFull

  /** Costs of the transfers that contracts generated. */
  datatype Transfers = Transfers(weight: nat, sigOps: nat, txs: nat)

  ghost function FeesOf(pool: Pool, block: seq<TxId>): int {
    if block == [] then 0
    else
      var t := block[|block| - 1];
      FeesOf(pool, block[..|block| - 1]) + (if t in pool.fee then pool.fee[t] else 0)
  }

  lemma FeesNext(pool: Pool, block: seq<TxId>, t: TxId)
    requires t in pool.fee
    ensures FeesOf(pool, block + [t]) == FeesOf(pool, block) + pool.fee[t]
  {
    assert (block + [t])[..|block|] == block;
  }

  /** The counters of a block under construction. */
  datatype Counters = Counters(weight: nat, sigOps: nat, txs: nat, fees: int)

  /** The counters are those of the chosen transactions, the transfers and the reserve. */
  ghost predicate Counted(pool: Pool, block: seq<TxId>, inBlock: set<TxId>, transfers: Transfers, c: Counters) {
    && c.weight == RESERVED_WEIGHT + Total(inBlock, pool.weight) + transfers.weight
    && c.sigOps == RESERVED_SIGOPS + Total(inBlock, pool.sigOps) + transfers.sigOps
    && c.txs == |block| + transfers.txs
    && c.fees == FeesOf(pool, block)
  }

  lemma CountedNext(pool: Pool, block: seq<TxId>, inBlock: set<TxId>, transfers: Transfers, c: Counters, t: TxId)
    requires pool.Valid() && t in pool.Txs() && t !in inBlock
    requires Counted(pool, block, inBlock, transfers, c)
    ensures Counted(pool, block + [t], inBlock + {t}, transfers,
                    Counters(c.weight + pool.weight[t], c.sigOps + pool.sigOps[t], c.txs + 1, c.fees + pool.fee[t]))
  {
    hide Total, Pool.Closed, Pool.Totalled;
    TotalWithout(inBlock + {t}, pool.weight, t);
    TotalWithout(inBlock + {t}, pool.sigOps, t);
    assert inBlock + {t} - {t} == inBlock;
    FeesNext(pool, block, t);
  }

  /** Dropping entries keeps the rest covered. */
  ghost predicate Shrunk(modified0: ModifiedSet, modified: ModifiedSet) {
    forall t :: t in modified ==> t in modified0 && modified[t] == modified0[t]
  }

  /** Only entries of `sorted` went away, the first `i` among them. */
  ghost predicate Cleared(modified0: ModifiedSet, modified: ModifiedSet, sorted: seq<TxId>, i: nat) {
    && Shrunk(modified0, modified)
    && (forall t :: t in modified0 && t !in sorted ==> t in modified)
    && forall j :: 0 <= j < i && j < |sorted| ==> sorted[j] !in modified
  }

  lemma ClearNone(modified0: ModifiedSet, sorted: seq<TxId>)
    ensures Cleared(modified0, modified0, sorted, 0)
  {
  }

  lemma ClearNext(modified0: ModifiedSet, modified: ModifiedSet, gone: set<TxId>, sorted: seq<TxId>, i: nat)
    requires Cleared(modified0, modified, sorted, i) && i < |sorted| && sorted[i] in gone
    requires forall t :: t in gone ==> t in sorted
    ensures Cleared(modified0, modified - gone, sorted, i + 1)
  {
  }

  lemma ClearAll(modified0: ModifiedSet, modified: ModifiedSet, sorted: seq<TxId>)
    requires Cleared(modified0, modified, sorted, |sorted|)
    ensures Shrunk(modified0, modified) && forall t :: t in sorted ==> t !in modified
    ensures forall t :: t in modified0 && t !in sorted ==> t in modified
  {
  }

  lemma ShrunkGenuine(pool: Pool, modified0: ModifiedSet, modified: ModifiedSet, inBlock: set<TxId>)
    requires Genuine(pool, modified0, inBlock) && Shrunk(modified0, modified)
    ensures Genuine(pool, modified, inBlock)
  {
    hide Explained;
  }

  /** Dropping the entries of a package keeps the others corrected for all chosen ancestors. */
  lemma ShrunkCurrent(pool: Pool, modified0: ModifiedSet, modified: ModifiedSet, inBlock: set<TxId>, package: set<TxId>,
                      outside: set<TxId>)
    requires Current(pool, modified0, inBlock, inBlock + outside) && Shrunk(modified0, modified)
    requires forall t :: t in modified0 && t !in package ==> t in modified
    ensures Current(pool, modified, inBlock, inBlock + package + outside)
  {
    hide Traced;
    forall t | t in pool.ancestors && t !in inBlock + package + outside ensures UpToDate(pool, modified, inBlock, t) {
      assert UpToDate(pool, modified0, inBlock, t);
    }
  }

  /** New entries are never for chosen transactions: those had every ancestor before. */
  lemma HeirsNotChosen(pool: Pool, block: seq<TxId>, inBlock: set<TxId>, added: set<TxId>,
                       modified0: ModifiedSet, modified: ModifiedSet)
    requires Chosen(pool, block, inBlock) && inBlock !! added
    requires Tracked(pool, added, added, modified0, modified) && modified0.Keys !! inBlock + added
    ensures modified.Keys !! inBlock + added
  {
    hide Chosen;
    forall d | d in modified && d !in modified0
      ensures d !in inBlock && d !in added
    {
      var it :| it in added && Heir(pool, added, it, d);
      if d in inBlock {
        AncestorsChosen(pool, block, inBlock, d);
      }
    }
  }

  lemma EmptyBlock(pool: Pool, maxWeight: nat, maxSigOps: nat)
    ensures Chosen(pool, [], {}) && WithinBudget(pool, {}, maxWeight, maxSigOps)
    ensures Counted(pool, [], {}, Transfers(0, 0, 0), Counters(RESERVED_WEIGHT, RESERVED_SIGOPS, 0, 0))
  {
  }

  class BlockAssembler {
    const pool: Pool
    const nBlockMaxWeight: nat
    const dgpMaxBlockWeight: nat
    const dgpMaxBlockSigOps: nat
    const minFee: int -> int                        // the fee demanded for a package of a given size
    const timeUp: nat -> bool                       // whether a reading of the clock is past the time limit
    const tooLate: nat -> bool                      // whether it is past the time limit less the time for a contract
    const rules: GasRules
    const extract: TxId -> Extraction
    const execute: (TxId, seq<TxId>) -> Execution   // what running a contract on top of a block comes to

    var nBlockWeight: nat
    var nBlockSigOpsCost: nat
    var nBlockTx: nat
    var nFees: int
    var inBlock: set<TxId>
    var block: seq<TxId>                // the mempool transactions of the block, in order
    var readings: nat                   // how often the clock was read
    var usedGas: nat
    ghost var transfers: Transfers

    ghost function Counts(): Counters
      reads this
    {
      Counters(nBlockWeight, nBlockSigOpsCost, nBlockTx, nFees)
    }

    /** Holds all the time, in the middle of a package too. */
    ghost predicate Sound()
      reads this
    {
      && Chosen(pool, block, inBlock)
      && Counted(pool, block, inBlock, transfers, Counts())
      && (NoContracts(pool) ==> transfers == Transfers(0, 0, 0) && usedGas == 0)
      && usedGas <= rules.softBlockGasLimit
    }

    /** Holds between packages. */
    ghost predicate Valid()
      reads this
    {
      pool.Valid() && Sound() && WithinBudget(pool, inBlock, nBlockMaxWeight, dgpMaxBlockSigOps)
    }

    /** Holds between packages, with the entries corrected so far. */
    ghost predicate Working(modified: ModifiedSet)
      reads this
    {
      && Valid()
      && Genuine(pool, modified, inBlock)
      && modified.Keys !! inBlock
    }

    constructor (pool: Pool, nBlockMaxWeight: nat, dgpMaxBlockWeight: nat, dgpMaxBlockSigOps: nat, minFee: int -> int,
                 timeUp: nat -> bool, tooLate: nat -> bool, rules: GasRules, extract: TxId -> Extraction,
                 execute: (TxId, seq<TxId>) -> Execution)
      requires pool.Valid()
      ensures this.pool == pool && this.nBlockMaxWeight == nBlockMaxWeight
      ensures this.dgpMaxBlockWeight == dgpMaxBlockWeight && this.dgpMaxBlockSigOps == dgpMaxBlockSigOps
      ensures this.minFee == minFee && this.timeUp == timeUp && this.tooLate == tooLate && readings == 0
      ensures this.rules == rules && this.extract == extract && this.execute == execute && usedGas == 0
      ensures Valid() && block == []
    {
      hide Total, Pool.Valid, Chosen, Counted, WithinBudget;
      this.pool, this.nBlockMaxWeight := pool, nBlockMaxWeight;
      this.dgpMaxBlockWeight, this.dgpMaxBlockSigOps := dgpMaxBlockWeight, dgpMaxBlockSigOps;
      this.minFee, this.timeUp, this.tooLate := minFee, timeUp, tooLate;
      this.rules, this.extract, this.execute := rules, extract, execute;
      readings, usedGas := 0, 0;
      nBlockWeight, nBlockSigOpsCost, nBlockTx, nFees := RESERVED_WEIGHT, RESERVED_SIGOPS, 0, 0;
      inBlock, block, transfers := {}, [], Transfers(0, 0, 0);
      new;
      EmptyBlock(pool, nBlockMaxWeight, dgpMaxBlockSigOps);
    }

    /** Some reading of the clock since `from` was past the time limit. */
    ghost predicate TimeRanOut(from: nat)
      reads this
    {
      exists k :: from <= k < readings && timeUp(k)
    }

    method ReadClock() returns (up: bool)
      modifies `readings
      ensures readings == old(readings) + 1 && up == timeUp(old(readings))
      ensures Sound() == old(Sound())
      ensures forall modified :: Working(modified) == old(Working(modified))
    {
      up := timeUp(readings);
      readings := readings + 1;
    }

    /** Whether a package of this size and cost still fits. */
    method TestPackage(packageSize: int, packageSigOpsCost: int) returns (fits: bool)
      ensures fits <==> nBlockWeight + WITNESS_SCALE_FACTOR * packageSize < nBlockMaxWeight
                        && nBlockSigOpsCost + packageSigOpsCost < dgpMaxBlockSigOps
    {
      if nBlockWeight + WITNESS_SCALE_FACTOR * packageSize >= nBlockMaxWeight {
        return false;
      }
      if nBlockSigOpsCost + packageSigOpsCost >= dgpMaxBlockSigOps {
        return false;
      }
      return true;
    }

    /** Whether every transaction of a package may be in this block at all. */
    method TestPackageTransactions(package: set<TxId>) returns (ok: bool)
      requires package <= pool.acceptable.Keys
      ensures ok <==> forall t :: t in package ==> pool.acceptable[t]
    {
      var rest := package;
      while rest != {}
        invariant rest <= package
        invariant forall t :: t in package - rest ==> pool.acceptable[t]
        decreases |rest|
      {
        NonEmpty(rest);
        var t :| t in rest;
        if !pool.acceptable[t] {
          return false;
        }
        rest := rest - {t};
      }
      return true;
    }

    /** Places one transaction whose ancestors are all placed. */
    method AddToBlock(iter: TxId)
      requires pool.Valid() && Sound() && iter in pool.Txs() && iter !in inBlock
      requires pool.ancestors[iter] <= inBlock && pool.acceptable[iter]
      modifies this
      ensures Sound()
      ensures block == old(block) + [iter] && inBlock == old(inBlock) + {iter} && transfers == old(transfers)
      ensures Counts() == Counters(old(nBlockWeight) + pool.weight[iter], old(nBlockSigOpsCost) + pool.sigOps[iter],
                                   old(nBlockTx) + 1, old(nFees) + pool.fee[iter])
      ensures readings == old(readings) && usedGas == old(usedGas)
    {
      hide Total, Pool.Closed, Pool.Totalled, Chosen, Counted;
      ChosenNext(pool, block, inBlock, iter);
      CountedNext(pool, block, inBlock, transfers, Counts(), iter);
      block := block + [iter];
      nBlockWeight := nBlockWeight + pool.weight[iter];
      nBlockTx := nBlockTx + 1;
      nBlockSigOpsCost := nBlockSigOpsCost + pool.sigOps[iter];
      nFees := nFees + pool.fee[iter];
      inBlock := inBlock + {iter};
    }

    /** There is time and gas to run the contract. */
    ghost predicate Runnable(iter: TxId)
      reads this
    {
      var x := extract(iter);
      !tooLate(readings) && !rules.stakingDisabled && x.Extracted? && Affordable(x.calls, usedGas, rules)
    }

    /** What running a contract came to is within the limits. */
    predicate Placeable(iter: TxId, e: Execution)
      reads this
    {
      && iter in pool.weight && iter in pool.sigOps
      && e.Succeeded? && usedGas + e.usedGas <= rules.softBlockGasLimit
      && (nBlockSigOpsCost + pool.sigOps[iter] + e.sigOps) * WITNESS_SCALE_FACTOR <= dgpMaxBlockSigOps
      && nBlockWeight + pool.weight[iter] + e.weight <= dgpMaxBlockWeight
    }

    /** What running a contract on top of the block comes to. */
    function Outcome(iter: TxId): Execution
      reads this
    {
      execute(iter, block)
    }

    method MayRun(iter: TxId) returns (ok: bool)
      modifies `readings
      ensures readings == old(readings) + 1 && ok == old(Runnable(iter)) && Sound() == old(Sound())
    {
      hide Affordable;
      readings := readings + 1;
      if tooLate(readings - 1) || rules.stakingDisabled {
        return false;
      }
      var x := extract(iter);
      if x.NotExtracted? {
        return false;
      }
      ok := AffordsGas(x.calls, usedGas, rules);
    }

    /** A contract was placed, with what running it came to. */
    twostate predicate Placed(iter: TxId, e: Execution)
      reads this
    {
      && e.Succeeded? && iter in pool.weight && iter in pool.sigOps && iter in pool.fee
      && block == old(block) + [iter] && inBlock == old(inBlock) + {iter} && usedGas == old(usedGas) + e.usedGas
      && nBlockWeight == old(nBlockWeight) + pool.weight[iter] + e.weight
      && nBlockSigOpsCost == old(nBlockSigOpsCost) + pool.sigOps[iter] + e.sigOps
      && nBlockTx == old(nBlockTx) + 1 + e.txs && nFees == old(nFees) + pool.fee[iter]
    }

    method PlaceContract(iter: TxId, e: Execution)
      requires pool.Valid() && Sound() && iter in pool.Txs() && iter !in inBlock && pool.isContract[iter]
      requires pool.ancestors[iter] <= inBlock && pool.acceptable[iter]
      requires Placeable(iter, e)
      modifies this
      ensures Sound() && readings == old(readings) && Placed(iter, e)
    {
      hide Total, Pool.Closed, Pool.Totalled, Chosen, Counted, NoContracts;
      ContractSeen(pool, iter);
      AddToBlock(iter);
      CountedTransfers(pool, block, inBlock, transfers, Counts(), e);
      usedGas := usedGas + e.usedGas;
      nBlockWeight := nBlockWeight + e.weight;
      nBlockSigOpsCost := nBlockSigOpsCost + e.sigOps;
      nBlockTx := nBlockTx + e.txs;
      transfers := Transfers(transfers.weight + e.weight, transfers.sigOps + e.sigOps, transfers.txs + e.txs);
    }

    /** Runs a contract, if there is time and gas for it; it is placed with its transfers only if the
        block then stays within the limits of the chain, and otherwise nothing changes. */
    method AttemptToAddContractToBlock(iter: TxId) returns (added: bool)
      requires pool.Valid() && Sound() && iter in pool.Txs() && iter !in inBlock && pool.isContract[iter]
      requires pool.ancestors[iter] <= inBlock && pool.acceptable[iter]
      modifies this
      ensures readings == old(readings) + 1
      ensures added <==> old(Runnable(iter)) && old(Placeable(iter, Outcome(iter)))
      ensures !added ==> block == old(block) && inBlock == old(inBlock) && Counts() == old(Counts())
                         && transfers == old(transfers) && usedGas == old(usedGas)
      ensures added ==> Placed(iter, old(Outcome(iter)))
      ensures Sound()
    {
      hide Total, Pool.Closed, Pool.Totalled, Sound, Runnable;
      var ok := MayRun(iter);
      if !ok {
        return false;
      }
      var e := Outcome(iter);
      if !Placeable(iter, e) {
        return false;
      }
      PlaceContract(iter, e);
      return true;
    }

    /** Places the transactions of a sorted package one by one. Once one fails or time runs out
        the rest are skipped; every member of the package loses its corrected entry. */
    method AddSorted(iter: TxId, sorted: seq<TxId>, usingModified: bool, modified0: ModifiedSet, failed0: set<TxId>)
      returns (modified: ModifiedSet, failed: set<TxId>, wasAdded: bool, late: bool)
      requires pool.Valid() && Sound() && iter in pool.Txs() && iter !in inBlock
      requires SortedPackage(pool, Missing(pool, iter, inBlock), sorted)
      requires forall t :: t in sorted ==> t in pool.acceptable && pool.acceptable[t]
      requires usingModified ==> iter in modified0
      modifies this
      ensures Sound() && Shrunk(modified0, modified)
      ensures forall t :: t in sorted ==> t !in modified
      ensures forall t :: t in modified0 && t !in sorted ==> t in modified
      ensures old(inBlock) <= inBlock <= old(inBlock) + Elems(sorted)
      ensures wasAdded ==> inBlock == old(inBlock) + Elems(sorted) && block == old(block) + sorted
      ensures old(block) <= block <= old(block) + sorted
      ensures NoContracts(pool) && !late ==> wasAdded
      ensures old(readings) <= readings && (late ==> TimeRanOut(old(readings)))
      ensures failed0 <= failed && (wasAdded ==> failed == failed0)
    {
      hide Total, Pool.Valid, Chosen, Counted, Missing, SortedPackage, Elems, Sound, NoContracts, NoDuplicates, Shrunk,
           Cleared;
      modified, failed, wasAdded, late := modified0, failed0, true, false;
      ghost var placed := 0;
      IterLast(pool, inBlock, iter, sorted);
      NoElems(sorted);
      ClearNone(modified0, sorted);
      for i := 0 to |sorted|
        invariant Sound() && Cleared(modified0, modified, sorted, i)
        invariant 0 <= placed <= i && (wasAdded ==> placed == i)
        invariant block == old(block) + sorted[..placed] && inBlock == old(inBlock) + Elems(sorted[..placed])
        invariant usingModified && wasAdded && i < |sorted| ==> iter in modified
        invariant NoContracts(pool) && !late ==> wasAdded
        invariant old(readings) <= readings && (late ==> TimeRanOut(old(readings)))
        invariant failed0 <= failed && (wasAdded ==> failed == failed0)
      {
        var gone := {sorted[i]};
        var up := false;
        if wasAdded {
          up := ReadClock();
        }
        if !wasAdded || up {
          wasAdded, late := false, late || up;
        } else {
          wasAdded := AddOne(old(block), old(inBlock), iter, sorted, i);
          if wasAdded {
            placed := placed + 1;
          } else if usingModified {
            assert iter in modified;
            gone, failed := gone + {iter}, failed + {iter};
          }
        }
        ClearNext(modified0, modified, gone, sorted, i);
        modified := modified - gone;
      }
      ElemsPrefix(old(block), sorted, placed);
      ClearAll(modified0, modified, sorted);
    }

    /** Places the next transaction of a package, running it first if it is a contract. */
    method AddOne(ghost block0: seq<TxId>, ghost inBlock0: set<TxId>, ghost iter: TxId, sorted: seq<TxId>, i: nat)
      returns (added: bool)
      requires pool.Valid() && Sound() && iter in pool.Txs() && i < |sorted|
      requires SortedPackage(pool, Missing(pool, iter, inBlock0), sorted)
      requires sorted[i] in pool.acceptable && pool.acceptable[sorted[i]]
      requires block == block0 + sorted[..i] && inBlock == inBlock0 + Elems(sorted[..i])
      modifies this
      ensures Sound()
      ensures !added ==> block == old(block) && inBlock == old(inBlock)
      ensures NoContracts(pool) ==> added
      ensures old(readings) <= readings
      ensures added ==> block == block0 + sorted[..i + 1] && inBlock == inBlock0 + Elems(sorted[..i + 1])
    {
      hide Total, Pool.Closed, Pool.Totalled, Chosen, Counted, Missing, SortedPackage, Elems;
      PackageOrdered(pool, inBlock0, iter, sorted, i);
      ElemsNext(sorted, i);
      if pool.isContract[sorted[i]] {
        added := AttemptToAddContractToBlock(sorted[i]);
      } else {
        AddToBlock(sorted[i]);
        added := true;
      }
    }

    /** The totals tested for a candidate: its corrected entry, or the pool's own. */
    function Candidate(iter: TxId, usingModified: bool, modified: ModifiedSet): Modified
      requires iter in pool.totals && (usingModified ==> iter in modified)
    {
      if usingModified then modified[iter]
      else Modified(pool.totals[iter].size, pool.totals[iter].modFees, pool.totals[iter].sigOps)
    }

    /** The recorded fees do not pay for the recorded size. */
    predicate TooCheap(c: Modified) {
      c.modFees < minFee(c.size)
    }

    /** Less than the reserve is left, in unsigned arithmetic. */
    predicate Crowded()
      reads this
    {
      nBlockWeight > (nBlockMaxWeight - RESERVED_WEIGHT) % UINT_RANGE
    }

    /** The candidate's totals passed the test. */
    ghost predicate Fits(c: Modified)
      reads this
    {
      && nBlockWeight + WITNESS_SCALE_FACTOR * c.size < nBlockMaxWeight
      && nBlockSigOpsCost + c.sigOps < dgpMaxBlockSigOps
    }

    /** The entries of eligible packages are corrected for all chosen ancestors. */
    ghost predicate Exact(modified: ModifiedSet)
      reads `inBlock
    {
      Current(pool, modified, inBlock, inBlock + Ineligible(pool))
    }

    /** A candidate is explained by what was included. */
    lemma Trace(iter: TxId, usingModified: bool, modified: ModifiedSet) returns (gone: set<TxId>, first: TxId)
      requires Working(modified) && iter in pool.Txs() && iter !in inBlock && (usingModified ==> iter in modified)
      ensures Candidate(iter, usingModified, modified) == Corrected(pool, iter, gone, first)
      ensures gone <= pool.ancestors[iter] * inBlock && (gone != {} ==> first in gone)
      ensures Exact(modified) && Eligible(pool, iter) && (usingModified <==> iter in modified) ==>
                gone == pool.ancestors[iter] * inBlock
    {
      hide Total, Fees, Pool.Closed, Pool.Totalled, Sound, WithinBudget, Eligible;
      if usingModified {
        assert Explained(pool, iter, modified[iter], inBlock);
        gone, first :| gone <= inBlock && Traced(pool, iter, modified[iter], gone, first);
        if Exact(modified) && Eligible(pool, iter) {
          assert UpToDate(pool, modified, inBlock, iter);
          gone := pool.ancestors[iter] * inBlock;
          first :| Traced(pool, iter, modified[iter], gone, first);
        }
      } else {
        gone, first := {}, iter;
        if Exact(modified) && Eligible(pool, iter) {
          assert UpToDate(pool, modified, inBlock, iter);
        }
      }
    }

    /** Any part of a package that fits keeps the block within the limits. */
    lemma PartFits(iter: TxId, usingModified: bool, modified: ModifiedSet, part: set<TxId>)
      requires Working(modified) && iter in pool.Txs() && iter !in inBlock && (usingModified ==> iter in modified)
      requires Fits(Candidate(iter, usingModified, modified)) && part <= Missing(pool, iter, inBlock)
      ensures WithinBudget(pool, inBlock + part, nBlockMaxWeight, dgpMaxBlockSigOps)
    {
      hide Total, Pool.Closed, Pool.Totalled, WithinBudget, Chosen, Candidate, Genuine, Corrected, FeesOf, NoContracts;
      var c := Candidate(iter, usingModified, modified);
      AncestorsInPool(pool, iter);
      var gone, first := Trace(iter, usingModified, modified);
      CorrectedCovers(pool, iter, gone, first, inBlock);
      PackageFits(pool, inBlock, Missing(pool, iter, inBlock), part, nBlockWeight, nBlockSigOpsCost,
                  c.size, c.sigOps, nBlockMaxWeight, dgpMaxBlockSigOps);
    }

    /** Sorts, places and accounts for a package that passed every test. */
    method AddPackage(iter: TxId, package: set<TxId>, usingModified: bool, modified0: ModifiedSet, failed0: set<TxId>)
      returns (modified: ModifiedSet, failed: set<TxId>, wasAdded: bool, late: bool, nUpdated: nat)
      requires Working(modified0) && iter in pool.Txs() && iter !in inBlock && (usingModified ==> iter in modified0)
      requires package == Missing(pool, iter, inBlock) && package <= pool.Txs() && package !! inBlock && iter in package
      requires forall t :: t in package ==> t in pool.acceptable && pool.acceptable[t]
      requires Fits(Candidate(iter, usingModified, modified0))
      modifies this
      ensures Working(modified)
      ensures old(inBlock) <= inBlock && old(block) <= block
      ensures wasAdded ==> inBlock == old(inBlock) + package
      ensures !wasAdded ==> modified.Keys <= modified0.Keys - {iter}
      ensures failed0 <= failed && (wasAdded ==> modified0.Keys - package <= modified.Keys && failed == failed0)
      ensures wasAdded && old(Exact(modified0)) ==> Exact(modified)
      ensures NoContracts(pool) && !late ==> wasAdded
      ensures old(readings) <= readings && (late ==> TimeRanOut(old(readings)))
    {
      hide Total, Pool.Closed, Pool.Totalled, Chosen, Counted, Genuine, Current, WithinBudget, SortedPackage, Elems,
           Missing, Shrunk, NoContracts, Fits, Candidate;
      var sorted := SortForBlock(pool, package);
      SortedElems(pool, package, sorted);
      forall part | part <= package
        ensures WithinBudget(pool, inBlock + part, nBlockMaxWeight, dgpMaxBlockSigOps)
      {
        PartFits(iter, usingModified, modified0, part);
      }
      var inBlock0, block0 := inBlock, block;
      modified, failed, wasAdded, late := AddSorted(iter, sorted, usingModified, modified0, failed0);
      nUpdated := 0;
      assert inBlock == inBlock0 + (inBlock - inBlock0) && inBlock - inBlock0 <= package;
      ShrunkGenuine(pool, modified0, modified, inBlock0);
      ShrunkKeys(modified0, modified, inBlock0, package);
      GenuineMore(pool, modified, inBlock0, inBlock);
      if wasAdded {
        var modified1 := modified;
        ghost var outside := inBlock0 + package + Ineligible(pool);
        if Current(pool, modified0, inBlock0, inBlock0 + Ineligible(pool)) {
          ShrunkCurrent(pool, modified0, modified1, inBlock0, package, Ineligible(pool));
        }
        modified, nUpdated := UpdatePackagesForAdded(pool, package, modified1, inBlock0, outside);
        HeirsNotChosen(pool, block0, inBlock0, package, modified1, modified);
      }
    }

    /** With room for the whole pool, every eligible candidate fits. */
    lemma CandidateHasRoom(iter: TxId, usingModified: bool, modified: ModifiedSet)
      requires Working(modified) && iter in pool.Txs() && iter !in inBlock && (usingModified <==> iter in modified)
      ensures Ample(pool, nBlockMaxWeight, dgpMaxBlockSigOps) && Exact(modified) && Eligible(pool, iter) ==>
                Fits(Candidate(iter, usingModified, modified))
    {
      hide Total, Pool.Closed, Pool.Totalled, Counted, WithinBudget, Roomy, NoDuplicates, AncestorsFirst, Candidate,
           Genuine, Corrected, Exact, Eligible;
      if Ample(pool, nBlockMaxWeight, dgpMaxBlockSigOps) && Exact(modified) && Eligible(pool, iter) {
        var gone, first := Trace(iter, usingModified, modified);
        CorrectedCovers(pool, iter, gone, first, inBlock);
        RoomForMissing(pool, block, inBlock, Counts(), iter, nBlockMaxWeight, dgpMaxBlockSigOps);
      }
    }

    /** A package that is not chosen, as it is recorded after `gone` was included. */
    ghost predicate Remaining(t: TxId, gone: set<TxId>, first: TxId)
      reads this
    {
      && t in pool.totals && t in pool.ancestors && t !in inBlock
      && gone <= pool.ancestors[t] * inBlock && (gone != {} ==> first in gone)
    }

    /** A package is left over whose recorded fees are too low. */
    ghost predicate CheapLeft(t: TxId, gone: set<TxId>, first: TxId)
      reads this
    {
      Remaining(t, gone, first) && TooCheap(Corrected(pool, t, gone, first))
    }

    /** A package is left over whose recorded totals do not fit. */
    ghost predicate LargeLeft(t: TxId, gone: set<TxId>, first: TxId)
      reads this
    {
      Remaining(t, gone, first) && !Fits(Corrected(pool, t, gone, first))
    }

    /** Some package is left over that is too cheap; if `exact`, it is recorded as it is after all its
        chosen ancestors, or it is not eligible. */
    ghost predicate TooCheapLeft(exact: bool)
      reads this
    {
      exists t, gone, first :: CheapLeft(t, gone, first)
                               && (exact && Eligible(pool, t) ==> gone == pool.ancestors[t] * inBlock)
    }

    /** Some package is left over that is too large; if `ample`, it is not eligible. */
    ghost predicate TooLargeLeft(ample: bool)
      reads this
    {
      exists t, gone, first :: LargeLeft(t, gone, first) && (ample ==> !Eligible(pool, t))
    }

    /** With room for twice the pool nothing left over is too large, however it is recorded. */
    lemma NothingTooLarge(ample: bool)
      requires Valid() && NoContracts(pool) && TwiceRoomy(pool, nBlockMaxWeight, dgpMaxBlockSigOps)
      ensures !TooLargeLeft(ample)
    {
      hide Total, Pool.Closed, Pool.Totalled, Counted, WithinBudget, TwiceRoomy, NoDuplicates, AncestorsFirst,
           Corrected;
      forall t, gone, first | Remaining(t, gone, first) ensures Fits(Corrected(pool, t, gone, first)) {
        var m := Corrected(pool, t, gone, first);
        CorrectedCovers(pool, t, gone, first, inBlock);
        RoomForAny(pool, block, inBlock, Counts(), t, m.size, m.sigOps, nBlockMaxWeight, dgpMaxBlockSigOps);
      }
    }

    /** Why a candidate ended the selection, as a fact about what is left over. */
    lemma Left(iter: TxId, usingModified: bool, modified: ModifiedSet)
      requires Working(modified) && iter in pool.Txs() && iter !in inBlock && (usingModified <==> iter in modified)
      ensures TooCheap(Candidate(iter, usingModified, modified)) ==> TooCheapLeft(Exact(modified))
      ensures !Fits(Candidate(iter, usingModified, modified)) ==>
                TooLargeLeft(Ample(pool, nBlockMaxWeight, dgpMaxBlockSigOps) && Exact(modified))
    {
      hide Total, Fees, Pool.Closed, Pool.Totalled, Genuine, Exact, Sound, WithinBudget, Fits, TooCheap, Candidate,
           Corrected, Ample, Eligible;
      CandidateHasRoom(iter, usingModified, modified);
      var gone, first := Trace(iter, usingModified, modified);
      assert Remaining(iter, gone, first);
      assert TooCheap(Candidate(iter, usingModified, modified)) ==> CheapLeft(iter, gone, first);
      assert !Fits(Candidate(iter, usingModified, modified)) ==> LargeLeft(iter, gone, first);
    }

    lemma RoomIsLeft()
      requires Valid()
      ensures NoContracts(pool) && TwiceRoomy(pool, nBlockMaxWeight, dgpMaxBlockSigOps) ==>
                !TooLargeLeft(false) && !TooLargeLeft(true)
    {
      hide *;
      if NoContracts(pool) && TwiceRoomy(pool, nBlockMaxWeight, dgpMaxBlockSigOps) {
        NothingTooLarge(false);
        NothingTooLarge(true);
      }
    }

    /** What is chosen is eligible, so if all else is not, the eligible are chosen exactly. */
    lemma TakenExactly(t: TxId)
      requires Valid() && t in pool.Txs() && t in inBlock + Ineligible(pool)
      ensures t in inBlock <==> Eligible(pool, t)
    {
      hide Total, Pool.Closed, Pool.Totalled, Counted, WithinBudget, Eligible;
      if t in inBlock {
        ChosenEligible(pool, block, inBlock, t);
      }
    }

    /** Tests one candidate and, if it passes, adds its package. */
    method Consider(iter: TxId, usingModified: bool, modified0: ModifiedSet, failed0: set<TxId>, nFailed0: nat)
      returns (modified: ModifiedSet, failed: set<TxId>, nFailed: nat, end: End, selected: bool, late: bool,
               nUpdated: nat)
      requires Working(modified0) && iter in pool.Txs() && iter !in inBlock && (usingModified <==> iter in modified0)
      modifies this
      ensures Working(modified)
      ensures old(inBlock) <= inBlock && old(block) <= block && failed0 <= failed
      ensures selected ==> iter in inBlock && modified0.Keys - inBlock <= modified.Keys && failed == failed0
      ensures Ample(pool, nBlockMaxWeight, dgpMaxBlockSigOps) && old(Exact(modified0)) && !late ==>
                && Exact(modified) && (failed0 <= Ineligible(pool) ==> failed <= Ineligible(pool))
                && modified0.Keys <= modified.Keys + inBlock + Ineligible(pool)
                && (end == LowFee || end == NearlyFull || iter in inBlock + Ineligible(pool))
      ensures end == GoOn && !selected && usingModified ==> modified.Keys <= modified0.Keys - {iter}
      ensures end == GoOn && !selected ==> modified.Keys <= modified0.Keys
      ensures old(readings) <= readings && (late ==> TimeRanOut(old(readings)))
      ensures end == LowFee <==> TooCheap(Candidate(iter, usingModified, modified0))
      ensures end == LowFee ==> TooCheapLeft(old(Exact(modified0)))
      ensures end == GoOn || end == LowFee || end == NearlyFull
      ensures end != GoOn ==>
                inBlock == old(inBlock) && block == old(block) && Counts() == old(Counts()) && !late && !selected
      ensures end == NearlyFull ==>
                && Crowded() && nFailed > MAX_CONSECUTIVE_FAILURES
                && TooLargeLeft(Ample(pool, nBlockMaxWeight, dgpMaxBlockSigOps) && old(Exact(modified0)))
    {
      hide Total, Pool.Closed, Pool.Totalled, Chosen, Counted, Genuine, Exact, WithinBudget, NoContracts, Missing,
           TooCheapLeft, TooLargeLeft, Corrected, Candidate, Crowded, TooCheap, Roomy, Eligible, Ineligible;
      modified, failed, nFailed := modified0, failed0, nFailed0;
      end, selected, late, nUpdated := GoOn, false, false, 0;
      var c := Candidate(iter, usingModified, modified0);
      Left(iter, usingModified, modified0);
      if TooCheap(c) {
        end := LowFee;
        return;
      }
      var fits := TestPackage(c.size, c.sigOps);
      CandidateHasRoom(iter, usingModified, modified0);
      IneligibleExactly(pool, iter);
      if !fits {
        modified, failed := DropFailed(iter, usingModified, modified0, failed0);
        nFailed := nFailed + 1;
        if nFailed > MAX_CONSECUTIVE_FAILURES && Crowded() {
          end := NearlyFull;
        }
        return;
      }
      var package := pool.ancestors[iter] - inBlock + {iter};
      PackageIsMissing(pool, iter, inBlock);
      MissingAcceptable(pool, block, inBlock, iter);
      var allowed := TestPackageTransactions(package);
      if !allowed {
        modified, failed := DropFailed(iter, usingModified, modified0, failed0);
        return;
      }
      nFailed := 0;
      modified, failed, selected, late, nUpdated := AddPackage(iter, package, usingModified, modified0, failed0);
    }

    /** A failed candidate from the corrected entries is dropped and remembered. */
    method DropFailed(iter: TxId, usingModified: bool, modified0: ModifiedSet, failed0: set<TxId>)
      returns (modified: ModifiedSet, failed: set<TxId>)
      requires Working(modified0)
      ensures Working(modified) && modified.Keys <= modified0.Keys
      ensures Exact(modified0) && iter in Ineligible(pool) ==> Exact(modified)
      ensures if usingModified then modified == modified0 - {iter} && failed == failed0 + {iter}
              else modified == modified0 && failed == failed0
    {
      hide Total, Pool.Valid, Chosen, Counted, Genuine, WithinBudget, NoContracts, Current, Ineligible;
      modified, failed := modified0, failed0;
      if usingModified {
        modified, failed := modified0 - {iter}, failed0 + {iter};
        if Exact(modified0) && iter in Ineligible(pool) {
          ShrunkCurrent(pool, modified0, modified, inBlock, {iter}, Ineligible(pool));
          assert inBlock + {iter} + Ineligible(pool) == inBlock + Ineligible(pool);
        }
        ShrunkGenuine(pool, modified0, modified, inBlock);
      }
    }

    /** The best corrected entry, or the next transaction in order. */
    method PickCandidate(order: seq<TxId>, mi0: nat, modified: ModifiedSet)
      returns (iter: TxId, usingModified: bool, mi: nat)
      requires Working(modified) && (forall t :: t in order ==> t in pool.Txs()) && mi0 <= |order|
      requires if mi0 == |order| then modified != map[] else order[mi0] !in modified && order[mi0] !in inBlock
      ensures iter in pool.Txs() && iter !in inBlock
      ensures if usingModified then iter in modified && mi == mi0
              else mi0 < |order| && iter == order[mi0] && iter !in modified && mi == mi0 + 1
    {
      hide Total, Pool.Closed, Pool.Totalled, Chosen, Counted, Genuine, WithinBudget;
      var better: bool := *;
      usingModified := mi0 == |order| || (modified != map[] && better);
      if usingModified {
        iter :| iter in modified;
        EntryInPool(pool, modified, inBlock, iter);
        mi := mi0;
      } else {
        iter := order[mi0];
        mi := mi0 + 1;
      }
    }

    /** If fees are not prioritised, what is recorded of a package after all its chosen ancestors is
        exactly the size and the fees of the rest. */
    lemma CheapPackage(t: TxId, gone: set<TxId>, first: TxId)
      requires pool.Valid() && CheapLeft(t, gone, first) && gone == pool.ancestors[t] * inBlock
      requires forall a :: a in gone ==> Fee(a, pool.fee) == Fee(a, pool.modFee)
      ensures Fees(Missing(pool, t, inBlock), pool.modFee) < minFee(Total(Missing(pool, t, inBlock), pool.size))
    {
      hide Total, Fees, Fee, Pool.Closed, Pool.Totalled;
      CorrectedCovers(pool, t, gone, first, inBlock);
      FeesExact(pool, t, gone, first);
      assert pool.Package(t) - gone == Missing(pool, t, inBlock);
    }

    /** Greedy selection over the pool's score order and the corrected entries. Which corrected
        entry scores best and how it compares with the next in order are left open. `late` tells
        that time ran out inside a package. From a pool that fits exactly the eligible transactions
        are taken, unless time runs out or a package left over is too cheap or, not being eligible,
        too large; with room for twice the pool none is too large. */
    method AddPackageTxs(order: seq<TxId>)
      returns (nPackagesSelected: nat, nDescendantsUpdated: nat, end: End, late: bool)
      requires Valid() && forall t :: t in order ==> t in pool.Txs()
      modifies this
      ensures Valid() && old(block) <= block
      ensures Ample(pool, nBlockMaxWeight, dgpMaxBlockSigOps) && end == Exhausted && !late ==>
                forall t :: t in order ==> (t in inBlock <==> Eligible(pool, t))
      ensures end != GoOn && (end == OutOfTime || late ==> TimeRanOut(old(readings)))
      ensures end == LowFee ==> TooCheapLeft(Ample(pool, nBlockMaxWeight, dgpMaxBlockSigOps) && !late)
      ensures end == NearlyFull ==>
                Crowded() && TooLargeLeft(Ample(pool, nBlockMaxWeight, dgpMaxBlockSigOps) && !late)
      ensures NoContracts(pool) && TwiceRoomy(pool, nBlockMaxWeight, dgpMaxBlockSigOps) ==> end != NearlyFull
    {
      hide Total, Pool.Valid, Chosen, Counted, Genuine, Exact, WithinBudget, Ample, NoContracts, Crowded, TooCheap,
           Candidate, CheapLeft, LargeLeft, Eligible, Ineligible, TwiceRoomy;
      nPackagesSelected, nDescendantsUpdated, late := 0, 0, false;
      var modified := Start();
      var failed: set<TxId>, nFailed: nat, mi: nat := {}, 0, 0;
      while mi < |order| || modified != map[]
        invariant mi <= |order| && Working(modified) && old(block) <= block
        invariant old(readings) <= readings && (late ==> TimeRanOut(old(readings)))
        invariant Ample(pool, nBlockMaxWeight, dgpMaxBlockSigOps) && !late ==>
                    && Exact(modified) && failed <= Ineligible(pool)
                    && forall j :: 0 <= j < mi ==> order[j] in inBlock + modified.Keys + Ineligible(pool)
        decreases pool.Txs() - inBlock, |order| - mi, modified.Keys
      {
        var up := ReadClock();
        if up {
          end := OutOfTime;
          return;
        }
        if mi < |order| && (order[mi] in modified || order[mi] in inBlock || order[mi] in failed) {
          mi := mi + 1;
          continue;
        }
        var iter, usingModified;
        iter, usingModified, mi := PickCandidate(order, mi, modified);
        assert iter !in inBlock;
        var selected, outOfTime, n;
        modified, failed, nFailed, end, selected, outOfTime, n :=
          Consider(iter, usingModified, modified, failed, nFailed);
        late := late || outOfTime;
        if end != GoOn {
          RoomIsLeft();
          return;
        }
        if selected {
          nPackagesSelected, nDescendantsUpdated := nPackagesSelected + 1, nDescendantsUpdated + n;
        }
      }
      end := Exhausted;
      if Ample(pool, nBlockMaxWeight, dgpMaxBlockSigOps) && !late {
        forall t | t in order ensures t in inBlock <==> Eligible(pool, t) {
          TakenExactly(t);
        }
      }
    }

    /** Entries for the descendants of whatever the block already holds. */
    method Start() returns (modified: ModifiedSet)
      requires Valid()
      ensures Working(modified) && Exact(modified)
    {
      hide Total, Pool.Closed, Pool.Totalled, Counted, WithinBudget, NoContracts, Ineligible;
      var n;
      modified, n := UpdatePackagesForAdded(pool, inBlock, map[], {}, inBlock + Ineligible(pool));
      assert {} + inBlock == inBlock;
      HeirsNotChosen(pool, [], {}, inBlock, map[], modified);
    }

    /** Without contracts, the counters a template reports never exceed the configured limits. */
    lemma LimitsKept()
      requires Valid() && NoContracts(pool) && Weighed(pool)
      ensures nBlockWeight == RESERVED_WEIGHT + Total(inBlock, pool.weight) <= Max(RESERVED_WEIGHT, nBlockMaxWeight)
      ensures nBlockSigOpsCost == RESERVED_SIGOPS + Total(inBlock, pool.sigOps)
              <= Max(RESERVED_SIGOPS, dgpMaxBlockSigOps)
      ensures nBlockTx == |block|
    {
      hide Total;
    }

    /** With contracts, the gas they use never exceeds the soft limit, and the counters are those of the
        chosen transactions and of the transfers that contracts generated. */
    lemma GasKept()
      requires Valid()
      ensures usedGas <= rules.softBlockGasLimit
      ensures nBlockWeight == RESERVED_WEIGHT + Total(inBlock, pool.weight) + transfers.weight
      ensures nBlockSigOpsCost == RESERVED_SIGOPS + Total(inBlock, pool.sigOps) + transfers.sigOps
    {
      hide Total;
    }
  }

  lemma IneligibleExactly(pool: Pool, t: TxId)
    requires t in pool.ancestors
    ensures t in Ineligible(pool) <==> !Eligible(pool, t)
  {
    hide Eligible;
  }

  lemma ContractSeen(pool: Pool, t: TxId)
    requires t in pool.isContract && pool.isContract[t]
    ensures !NoContracts(pool)
  {
  }

  lemma EntryInPool(pool: Pool, modified: ModifiedSet, inBlock: set<TxId>, t: TxId)
    requires Genuine(pool, modified, inBlock) && t in modified
    ensures t in pool.ancestors
  {
    assert Explained(pool, t, modified[t], inBlock);
  }

  lemma AncestorsInPool(pool: Pool, t: TxId)
    requires pool.Valid() && t in pool.Txs()
    ensures pool.ancestors[t] <= pool.Txs()
  {
  }

  lemma LastAdded(ancestors: set<TxId>, inBlock: set<TxId>, iter: TxId)
    requires iter !in inBlock
    ensures ancestors - inBlock + {iter} == ancestors + {iter} - inBlock
  {
  }

  lemma PackageIsMissing(pool: Pool, iter: TxId, inBlock: set<TxId>)
    requires pool.Valid() && iter in pool.Txs() && iter !in inBlock
    ensures var package := pool.ancestors[iter] - inBlock + {iter};
            package == Missing(pool, iter, inBlock) && package <= pool.Txs()
  {
    AncestorsInPool(pool, iter);
    hide Pool.Valid;
    LastAdded(pool.ancestors[iter], inBlock, iter);
  }

  lemma ShrunkKeys(modified0: ModifiedSet, modified: ModifiedSet, inBlock: set<TxId>, package: set<TxId>)
    requires Shrunk(modified0, modified) && modified0.Keys !! inBlock
    requires forall t :: t in package ==> t !in modified
    ensures modified.Keys <= modified0.Keys - package && modified.Keys !! inBlock + package
  {
  }

  lemma SortedElems(pool: Pool, package: set<TxId>, sorted: seq<TxId>)
    requires SortedPackage(pool, package, sorted)
    ensures Elems(sorted) == package && forall t :: t in sorted <==> t in package
  {
  }

  lemma NoElems(s: seq<TxId>)
    ensures Elems(s[..0]) == {}
  {
  }

  lemma ElemsPrefix(block: seq<TxId>, s: seq<TxId>, i: nat)
    requires i <= |s|
    ensures Elems(s[..i]) <= Elems(s) && block <= block + s[..i] <= block + s
    ensures i == |s| ==> s[..i] == s
  {
  }

  lemma CountedTransfers(pool: Pool, block: seq<TxId>, inBlock: set<TxId>, transfers: Transfers, c: Counters,
                         e: Execution)
    requires Counted(pool, block, inBlock, transfers, c) && e.Succeeded?
    ensures Counted(pool, block, inBlock,
                    Transfers(transfers.weight + e.weight, transfers.sigOps + e.sigOps, transfers.txs + e.txs),
                    Counters(c.weight + e.weight, c.sigOps + e.sigOps, c.txs + e.txs, c.fees))
  {
    hide Total;
  }
}
