/** Block assembly: greedy selection of transaction packages, with cached scores that
    go stale, contract executions that fail in the middle of a package, and early exits. */
module Miner {
  import opened Sets
  import opened Mempool

  /** A package whose ancestor totals were corrected for transactions already chosen. */
  datatype Modified = Modified(size: int, modFees: int, sigOps: int)

  type ModifiedSet = map<TxId, Modified>

  // ----- Invariants -------------------------------------------------------------------

  ghost predicate NoDuplicates(block: seq<TxId>) {
    forall i, j :: 0 <= i < j < |block| ==> block[i] != block[j]
  }

  /** Every ancestor of a chosen transaction is chosen, and placed before it. */
  ghost predicate AncestorsFirst(pool: Pool, block: seq<TxId>) {
    forall i :: 0 <= i < |block| ==>
      block[i] in pool.ancestors && forall a :: a in pool.ancestors[block[i]] ==> a in block[..i]
  }

  /** What a package still needs. */
  ghost function Missing(pool: Pool, t: TxId, inBlock: set<TxId>): set<TxId>
    requires t in pool.ancestors
  {
    pool.Package(t) - inBlock
  }

  // ----- Corrected totals ---------------------------------------------------------------

  /** The totals of a package after its ancestors `gone` were included: their sizes and signature
      costs less, the modified fee of the first of them, and the base fees of the others. */
  ghost function Corrected(pool: Pool, t: TxId, gone: set<TxId>, first: TxId): Modified
    requires t in pool.totals
  {
    var c := pool.totals[t];
    if gone == {} then Modified(c.size, c.modFees, c.sigOps)
    else Modified(c.size - Total(gone, pool.size),
                  c.modFees - Fee(first, pool.modFee) - Fees(gone - {first}, pool.fee),
                  c.sigOps - Total(gone, pool.sigOps))
  }

  /** An entry is that of a package whose ancestors `gone` were included since it was made. */
  ghost predicate Traced(pool: Pool, t: TxId, m: Modified, gone: set<TxId>, first: TxId) {
    && t in pool.totals && t in pool.ancestors
    && first in gone && gone <= pool.ancestors[t]
    && m == Corrected(pool, t, gone, first)
  }

  ghost predicate Explained(pool: Pool, t: TxId, m: Modified, inBlock: set<TxId>) {
    exists gone, first :: gone <= inBlock && Traced(pool, t, m, gone, first)
  }

  /** Every entry is the pool's, less some of what was included. */
  ghost predicate Genuine(pool: Pool, modified: ModifiedSet, inBlock: set<TxId>) {
    forall t :: t in modified ==> Explained(pool, t, modified[t], inBlock)
  }

  /** The entries are those of the packages with chosen ancestors, corrected for all of these. */
  ghost predicate Current(pool: Pool, modified: ModifiedSet, chosen: set<TxId>, outside: set<TxId>) {
    forall t :: t in pool.ancestors && t !in outside ==> UpToDate(pool, modified, chosen, t)
  }

  ghost predicate UpToDate(pool: Pool, modified: ModifiedSet, chosen: set<TxId>, t: TxId)
    requires t in pool.ancestors
  {
    var gone := pool.ancestors[t] * chosen;
    if gone == {} then t !in modified
    else t in modified && exists first :: Traced(pool, t, modified[t], gone, first)
  }

  /** Choosing more transactions leaves the entries explained. */
  lemma GenuineMore(pool: Pool, modified: ModifiedSet, inBlock: set<TxId>, inBlock': set<TxId>)
    requires Genuine(pool, modified, inBlock) && inBlock <= inBlock'
    ensures Genuine(pool, modified, inBlock')
  {
    hide Traced;
    forall t | t in modified ensures Explained(pool, t, modified[t], inBlock') {
      assert Explained(pool, t, modified[t], inBlock);
    }
  }

  lemma TotalsOf(pool: Pool, t: TxId)
    requires pool.Valid() && t in pool.Txs()
    ensures pool.totals[t].size == Total(pool.Package(t), pool.size)
    ensures pool.totals[t].sigOps == Total(pool.Package(t), pool.sigOps)
    ensures pool.totals[t].modFees == Fees(pool.Package(t), pool.modFee)
  {
    hide Total, Fees, Pool.Closed;
  }

  /** A package without some of its ancestors. */
  lemma Split(pool: Pool, t: TxId, gone: set<TxId>)
    requires pool.Valid() && t in pool.Txs() && gone <= pool.ancestors[t]
    ensures pool.totals[t].size == Total(gone, pool.size) + Total(pool.Package(t) - gone, pool.size)
    ensures pool.totals[t].sigOps == Total(gone, pool.sigOps) + Total(pool.Package(t) - gone, pool.sigOps)
    ensures pool.totals[t].modFees == Fees(gone, pool.modFee) + Fees(pool.Package(t) - gone, pool.modFee)
  {
    hide Total, Fees, Pool.Closed, Pool.Totalled;
    TotalsOf(pool, t);
    var rest := pool.Package(t) - gone;
    assert gone + rest == pool.Package(t);
    TotalUnion(gone, rest, pool.size);
    TotalUnion(gone, rest, pool.sigOps);
    FeesUnion(gone, rest, pool.modFee);
  }

  /** Corrected totals are never below what the package still needs, nor above the pool's; they are
      exactly what it needs once they are corrected for all chosen ancestors. */
  lemma CorrectedCovers(pool: Pool, t: TxId, gone: set<TxId>, first: TxId, inBlock: set<TxId>)
    requires pool.Valid() && t in pool.Txs() && gone <= pool.ancestors[t] * inBlock
    ensures var m := Corrected(pool, t, gone, first);
            && pool.totals[t].size >= m.size >= Total(Missing(pool, t, inBlock), pool.size)
            && pool.totals[t].sigOps >= m.sigOps >= Total(Missing(pool, t, inBlock), pool.sigOps)
    ensures gone == pool.ancestors[t] * inBlock && t !in inBlock ==>
              var m := Corrected(pool, t, gone, first);
              m.size == Total(Missing(pool, t, inBlock), pool.size)
              && m.sigOps == Total(Missing(pool, t, inBlock), pool.sigOps)
  {
    hide Total, Fees, Pool.Closed, Pool.Totalled;
    Split(pool, t, gone);
    NoTotal(pool.size);
    NoTotal(pool.sigOps);
    var rest := pool.Package(t) - gone;
    TotalSubset(Missing(pool, t, inBlock), rest, pool.size);
    TotalSubset(Missing(pool, t, inBlock), rest, pool.sigOps);
    if gone == pool.ancestors[t] * inBlock && t !in inBlock {
      assert rest == Missing(pool, t, inBlock);
    }
  }

  lemma NoTotal(cost: map<TxId, nat>)
    ensures Total({}, cost) == 0
  {
  }

  /** The fees left in an entry are those of what is left of the package if and only if the ancestors
      included after the first have the same fees before and after prioritisation, in total. */
  lemma FeesExactly(pool: Pool, t: TxId, gone: set<TxId>, first: TxId)
    requires pool.Valid() && t in pool.Txs() && first in gone && gone <= pool.ancestors[t]
    ensures Corrected(pool, t, gone, first).modFees == Fees(pool.Package(t) - gone, pool.modFee)
            <==> Fees(gone - {first}, pool.fee) == Fees(gone - {first}, pool.modFee)
  {
    hide Total, Fees, Pool.Valid;
    Split(pool, t, gone);
    FeesWithout(gone, pool.modFee, first);
  }

  /** Without prioritisation they always are. */
  lemma FeesExact(pool: Pool, t: TxId, gone: set<TxId>, first: TxId)
    requires pool.Valid() && t in pool.Txs() && gone <= pool.ancestors[t] && (gone != {} ==> first in gone)
    requires forall a :: a in gone ==> Fee(a, pool.fee) == Fee(a, pool.modFee)
    ensures Corrected(pool, t, gone, first).modFees == Fees(pool.Package(t) - gone, pool.modFee)
  {
    hide Total, Pool.Valid, Fee;
    if gone == {} {
      Split(pool, t, gone);
    } else {
      SameFees(gone - {first}, pool.fee, pool.modFee);
      FeesExactly(pool, t, gone, first);
    }
  }

  const ONES: map<TxId, nat> := map[0 := 1, 1 := 1, 2 := 1]
  const BASE_FEES: map<TxId, int> := map[0 := 10, 1 := 0, 2 := 0]
  const MOD_FEES: map<TxId, int> := map[0 := 10, 1 := 5, 2 := 0]

  /** A transaction with two independent ancestors, one of them prioritised. */
  ghost function PrioritisedParent(): Pool {
    Pool(ONES, ONES, ONES, BASE_FEES, MOD_FEES, map[0 := false, 1 := false, 2 := false],
         map[0 := true, 1 := true, 2 := true], map[0 := {}, 1 := {}, 2 := {0, 1}],
         map[0 := Totals(1, 1, 10, 1), 1 := Totals(1, 1, 5, 1), 2 := Totals(3, 3, 15, 3)])
  }

  lemma PrioritisedParentKeyed()
    ensures PrioritisedParent().Keyed() && PrioritisedParent().Txs() == {0, 1, 2}
  {
    var pool := PrioritisedParent();
    assert ONES.Keys == {0, 1, 2} && BASE_FEES.Keys == {0, 1, 2} && MOD_FEES.Keys == {0, 1, 2};
    assert pool.isContract.Keys == {0, 1, 2} && pool.acceptable.Keys == {0, 1, 2};
    assert pool.ancestors.Keys == {0, 1, 2} && pool.totals.Keys == {0, 1, 2};
  }

  lemma PrioritisedParentTables()
    ensures var pool := PrioritisedParent();
            && pool.size == ONES && pool.sigOps == ONES && pool.fee == BASE_FEES && pool.modFee == MOD_FEES
            && 0 in pool.ancestors && pool.ancestors[0] == {} && 1 in pool.ancestors && pool.ancestors[1] == {}
            && 2 in pool.ancestors && pool.ancestors[2] == {0, 1}
            && 0 in pool.totals && pool.totals[0] == Totals(1, 1, 10, 1)
            && 1 in pool.totals && pool.totals[1] == Totals(1, 1, 5, 1)
            && 2 in pool.totals && pool.totals[2] == Totals(3, 3, 15, 3)
  {
  }

  lemma PrioritisedParentSums()
    ensures Total({0}, ONES) == 1 && Total({1}, ONES) == 1 && Total({0, 1, 2}, ONES) == 3
    ensures Fees({0}, MOD_FEES) == 10 && Fees({1}, MOD_FEES) == 5 && Fees({2}, MOD_FEES) == 0
    ensures Fees({0, 1, 2}, MOD_FEES) == 15 && Fees({1}, BASE_FEES) == 0 && Fee(0, MOD_FEES) == 10
  {
    hide Total, Fees;
    SmallTotals(ONES);
    SmallFees(MOD_FEES, 10, 5, 0);
    SmallFees(BASE_FEES, 10, 0, 0);
  }

  lemma PrioritisedParentValid()
    ensures PrioritisedParent().Valid()
  {
    hide Total, Fees, PrioritisedParent, ONES, BASE_FEES, MOD_FEES;
    PrioritisedParentKeyed();
    PrioritisedParentTables();
    var pool := PrioritisedParent();
    assert pool.Closed();
    forall t | t in pool.Txs() ensures Adds(pool, t) {
      ExampleAdds(t);
    }
  }

  ghost predicate Adds(pool: Pool, t: TxId)
    requires t in pool.totals && t in pool.ancestors
  {
    && pool.totals[t].count == |pool.ancestors[t]| + 1
    && pool.totals[t].size == Total(pool.ancestors[t] + {t}, pool.size)
    && pool.totals[t].sigOps == Total(pool.ancestors[t] + {t}, pool.sigOps)
    && pool.totals[t].modFees == Fees(pool.ancestors[t] + {t}, pool.modFee)
  }

  lemma ExampleAdds(t: TxId)
    requires t in {0, 1, 2}
    ensures var pool := PrioritisedParent(); t in pool.totals && t in pool.ancestors && Adds(pool, t)
  {
    hide Total, Fees, PrioritisedParent, ONES, BASE_FEES, MOD_FEES;
    PrioritisedParentTables();
    PrioritisedParentSums();
    if t == 2 {
      assert {0, 1} + {2} == {0, 1, 2};
      assert |{0, 1}| == 2;
    } else {
      assert {} + {t} == {t};
    }
  }

  lemma SmallTotals(cost: map<TxId, nat>)
    requires Cost(0, cost) == Cost(1, cost) == Cost(2, cost) == 1
    ensures Total({0}, cost) == 1 && Total({1}, cost) == 1 && Total({0, 1, 2}, cost) == 3
  {
    TotalWithout({0}, cost, 0);
    TotalWithout({1}, cost, 1);
    TotalWithout({2}, cost, 2);
    TotalWithout({0, 1, 2}, cost, 0);
    TotalWithout({1, 2}, cost, 1);
    assert {0, 1, 2} - {0} == {1, 2} && {1, 2} - {1} == {2};
    assert {0} - {0} == {} && {1} - {1} == {} && {2} - {2} == {};
  }

  lemma SmallFees(fee: map<TxId, int>, f0: int, f1: int, f2: int)
    requires Fee(0, fee) == f0 && Fee(1, fee) == f1 && Fee(2, fee) == f2
    ensures Fees({0}, fee) == f0 && Fees({1}, fee) == f1 && Fees({2}, fee) == f2 && Fees({0, 1, 2}, fee) == f0 + f1 + f2
  {
    FeesWithout({0}, fee, 0);
    FeesWithout({1}, fee, 1);
    FeesWithout({2}, fee, 2);
    FeesWithout({0, 1, 2}, fee, 0);
    FeesWithout({1, 2}, fee, 1);
    assert {0, 1, 2} - {0} == {1, 2} && {1, 2} - {1} == {2};
    assert {0} - {0} == {} && {1} - {1} == {} && {2} - {2} == {};
  }

  // ----- Updating packages for included ancestors ----------------------------------------

  /** The entry of a descendant after one more of its ancestors was included. */
  function Updated(pool: Pool, modified: ModifiedSet, desc: TxId, it: TxId): Modified
    requires pool.Valid() && desc in pool.Txs() && it in pool.Txs()
  {
    if desc in modified then
      var m := modified[desc];
      Modified(m.size - pool.size[it], m.modFees - pool.fee[it], m.sigOps - pool.sigOps[it])
    else
      var c := pool.totals[desc];
      Modified(c.size - pool.size[it], c.modFees - pool.modFee[it], c.sigOps - pool.sigOps[it])
  }

  /** The fee and the size by which a transaction ranks: its own or those with its ancestors, whichever
      is the lower rate. */
  function Score(pool: Pool, t: TxId, m: Modified): (int, int)
    requires t in pool.modFee && t in pool.size
  {
    if pool.modFee[t] * m.size > m.modFees * pool.size[t] then (m.modFees, m.size) else (pool.modFee[t], pool.size[t])
  }

  /** Strictly the higher rate, so that the transaction is considered first. */
  predicate Outranks(a: (int, int), b: (int, int)) {
    a.0 * b.1 > a.1 * b.0
  }

  /** With prioritisation the fees left need not be those of the rest. By their scores 0 is included first,
      then 1, each before 2; the second is taken off with its base fee, and its bonus stays. */
  lemma FeesDrift()
    ensures var pool := PrioritisedParent();
            && pool.Valid() && pool.Txs() == {0, 1, 2} && pool.ancestors[2] == {0, 1}
            && var first := Updated(pool, map[], 2, 0);
            var second := Updated(pool, map[2 := first], 2, 1);
            var s0 := Score(pool, 0, Start(pool, map[], 0));
            var s1 := Score(pool, 1, Start(pool, map[], 1));
            && Outranks(s0, s1) && Outranks(s1, Score(pool, 2, Start(pool, map[], 2)))
            && Outranks(s1, Score(pool, 2, first))
            && second == Corrected(pool, 2, {0, 1}, 0) && second.modFees == 5
            && Fees(Missing(pool, 2, {0, 1}), pool.modFee) == 0
  {
    hide Total, Fees, Pool.Valid, PrioritisedParent, ONES, BASE_FEES, MOD_FEES;
    PrioritisedParentKeyed();
    PrioritisedParentTables();
    PrioritisedParentValid();
    PrioritisedParentSums();
    PrioritisedParentLookups();
    assert {0, 1} - {0} == {1};
    assert PrioritisedParent().Package(2) - {0, 1} == {2};
  }

  lemma PrioritisedParentLookups()
    ensures forall t :: t in {0, 1, 2} ==> t in ONES && ONES[t] == 1
    ensures 0 in MOD_FEES && MOD_FEES[0] == 10 && 1 in MOD_FEES && MOD_FEES[1] == 5 && 2 in MOD_FEES && MOD_FEES[2] == 0
    ensures 0 in BASE_FEES && BASE_FEES[0] == 10 && 1 in BASE_FEES && BASE_FEES[1] == 0
    ensures Total({0, 1}, ONES) == 2
  {
    hide Total;
    TotalWithout({0, 1}, ONES, 0);
    TotalWithout({1}, ONES, 1);
    NoTotal(ONES);
    assert {0, 1} - {0} == {1} && {1} - {1} == {};
  }

  /** The transactions outside `added` that descend from `it`. */
  ghost predicate Heir(pool: Pool, added: set<TxId>, it: TxId, d: TxId) {
    d in pool.ancestors && d !in added && it in pool.ancestors[d]
  }

  /** The transactions outside `added` that descend from one of `done`. */
  ghost predicate HeirOfAny(pool: Pool, added: set<TxId>, done: set<TxId>, d: TxId) {
    exists it :: it in done && Heir(pool, added, it, d)
  }

  /** Entries exist for those that had one and for the heirs of `done`. */
  ghost predicate Tracked(pool: Pool, added: set<TxId>, done: set<TxId>, modified0: ModifiedSet,
                          modified: ModifiedSet) {
    forall d :: d in modified <==> d in modified0 || HeirOfAny(pool, added, done, d)
  }

  lemma TrackedFirst(pool: Pool, added: set<TxId>, modified0: ModifiedSet)
    ensures Tracked(pool, added, {}, modified0, modified0)
  {
  }

  lemma TrackedNext(pool: Pool, added: set<TxId>, done: set<TxId>, it: TxId,
                    modified0: ModifiedSet, modified: ModifiedSet, modified': ModifiedSet)
    requires Tracked(pool, added, done, modified0, modified)
    requires forall d :: d in modified' <==> d in modified || Heir(pool, added, it, d)
    ensures Tracked(pool, added, done + {it}, modified0, modified')
  {
    hide Heir;
    forall d ensures HeirOfAny(pool, added, done + {it}, d)
                     <==> HeirOfAny(pool, added, done, d) || Heir(pool, added, it, d)
    {
    }
  }

  /** `modified` is `modified0` with the entries of `heirs` replaced by updated ones. */
  ghost predicate HeirsUpdated(pool: Pool, modified0: ModifiedSet, modified: ModifiedSet, it: TxId, heirs: set<TxId>)
    requires pool.Valid() && it in pool.Txs() && heirs <= pool.Txs()
  {
    && modified.Keys == modified0.Keys + heirs
    && (forall d :: d in modified && d !in heirs ==> modified[d] == modified0[d])
    && (forall d :: d in heirs ==> modified[d] == Updated(pool, modified0, d, it))
  }

  // ----- What an update subtracts -------------------------------------------------------------

  /** The totals an entry starts from. */
  function Start(pool: Pool, modified: ModifiedSet, d: TxId): Modified
    requires d in pool.totals || d in modified
  {
    if d in modified then modified[d]
    else Modified(pool.totals[d].size, pool.totals[d].modFees, pool.totals[d].sigOps)
  }

  /** The included transactions that an entry is corrected for. */
  ghost function Included(pool: Pool, added: set<TxId>, done: set<TxId>, d: TxId): set<TxId> {
    if d in pool.ancestors && d !in added then done * pool.ancestors[d] else {}
  }

  /** Totals are lower by exactly those of `gone`, the first of them counted with its modified fee
      if the entry is new. */
  ghost predicate Taken(pool: Pool, start: Modified, isNew: bool, gone: set<TxId>, m: Modified) {
    && m.size == start.size - Total(gone, pool.size)
    && m.sigOps == start.sigOps - Total(gone, pool.sigOps)
    && if isNew then
         exists first :: first in gone
                         && m.modFees == start.modFees - Fee(first, pool.modFee) - Fees(gone - {first}, pool.fee)
       else
         m.modFees == start.modFees - Fees(gone, pool.fee)
  }

  lemma NothingTaken(pool: Pool, m: Modified)
    ensures Taken(pool, m, false, {}, m)
  {
  }

  lemma OneTaken(pool: Pool, m: Modified, it: TxId)
    requires it in pool.size && it in pool.sigOps && it in pool.modFee
    ensures Taken(pool, m, true, {it},
                  Modified(m.size - pool.size[it], m.modFees - pool.modFee[it], m.sigOps - pool.sigOps[it]))
  {
    TotalWithout({it}, pool.size, it);
    TotalWithout({it}, pool.sigOps, it);
    assert {it} - {it} == {};
  }

  lemma OneMoreTaken(pool: Pool, start: Modified, isNew: bool, gone: set<TxId>, m: Modified, it: TxId)
    requires Taken(pool, start, isNew, gone, m) && it !in gone && it in pool.size && it in pool.sigOps && it in pool.fee
    ensures Taken(pool, start, isNew, gone + {it},
                  Modified(m.size - pool.size[it], m.modFees - pool.fee[it], m.sigOps - pool.sigOps[it]))
  {
    hide Total, Fees;
    var more := gone + {it};
    assert more - {it} == gone;
    TotalWithout(more, pool.size, it);
    TotalWithout(more, pool.sigOps, it);
    FeesWithout(more, pool.fee, it);
    if isNew {
      var first :| first in gone
                   && m.modFees == start.modFees - Fee(first, pool.modFee) - Fees(gone - {first}, pool.fee);
      FeesWithout(more - {first}, pool.fee, it);
      assert more - {first} - {it} == gone - {first};
      assert first in more;
    }
  }

  /** Every entry is lower by exactly what was included. */
  ghost predicate Subtracted(pool: Pool, added: set<TxId>, done: set<TxId>, modified0: ModifiedSet,
                             modified: ModifiedSet) {
    forall d :: d in modified ==>
      && (d in pool.totals || d in modified0)
      && Taken(pool, Start(pool, modified0, d), d !in modified0, Included(pool, added, done, d), modified[d])
  }

  lemma SubtractedFirst(pool: Pool, added: set<TxId>, modified0: ModifiedSet)
    ensures Subtracted(pool, added, {}, modified0, modified0)
  {
    hide Taken;
    forall d | d in modified0
      ensures Taken(pool, Start(pool, modified0, d), false, Included(pool, added, {}, d), modified0[d])
    {
      assert Included(pool, added, {}, d) == {};
      NothingTaken(pool, modified0[d]);
    }
  }

  lemma IncludedNext(pool: Pool, added: set<TxId>, done: set<TxId>, it: TxId, d: TxId)
    requires it !in done
    ensures var before, after := Included(pool, added, done, d), Included(pool, added, done + {it}, d);
            if Heir(pool, added, it, d) then it !in before && after == before + {it} else after == before
  {
  }

  lemma SubtractedNext(pool: Pool, added: set<TxId>, done: set<TxId>, it: TxId, heirs: set<TxId>,
                       modified0: ModifiedSet, modified: ModifiedSet, modified': ModifiedSet)
    requires pool.Valid() && it in pool.Txs() && it !in done && heirs <= pool.Txs()
    requires forall d :: d in heirs <==> Heir(pool, added, it, d)
    requires Subtracted(pool, added, done, modified0, modified) && Tracked(pool, added, done, modified0, modified)
    requires HeirsUpdated(pool, modified, modified', it, heirs)
    ensures Subtracted(pool, added, done + {it}, modified0, modified')
  {
    hide Total, Pool.Closed, Pool.Totalled, Included, Heir, HeirOfAny, Taken;
    forall d | d in modified'
      ensures d in pool.totals || d in modified0
      ensures Taken(pool, Start(pool, modified0, d), d !in modified0, Included(pool, added, done + {it}, d),
                    modified'[d])
    {
      IncludedNext(pool, added, done, it, d);
      var gone := Included(pool, added, done, d);
      if d in heirs {
        if d in modified {
          OneMoreTaken(pool, Start(pool, modified0, d), d !in modified0, gone, modified[d], it);
        } else {
          NotYetTracked(pool, added, done, modified0, modified, d);
          assert gone + {it} == {it};
          OneTaken(pool, Start(pool, modified0, d), it);
        }
      }
    }
  }

  /** A descendant without an entry has had no ancestor included. */
  lemma NotYetTracked(pool: Pool, added: set<TxId>, done: set<TxId>, modified0: ModifiedSet, modified: ModifiedSet,
                      d: TxId)
    requires Tracked(pool, added, done, modified0, modified) && d !in modified
    ensures Included(pool, added, done, d) == {} && d !in modified0
  {
    assert !HeirOfAny(pool, added, done, d);
    assert forall it :: it in done ==> !Heir(pool, added, it, d);
    assert Included(pool, added, done, d) == {};
  }

  /** After an update every entry is still explained by what was included. */
  lemma GenuineAfter(pool: Pool, before: set<TxId>, added: set<TxId>, modified0: ModifiedSet, modified: ModifiedSet)
    requires pool.Valid() && added !! before && Genuine(pool, modified0, before)
    requires Subtracted(pool, added, added, modified0, modified) && Tracked(pool, added, added, modified0, modified)
    ensures Genuine(pool, modified, before + added)
  {
    hide Total, Fees, Pool.Closed, Pool.Totalled, Traced, Taken;
    forall d | d in modified ensures Explained(pool, d, modified[d], before + added) {
      var more := Included(pool, added, added, d);
      if d in modified0 {
        assert Explained(pool, d, modified0[d], before);
        var gone, first :| gone <= before && Traced(pool, d, modified0[d], gone, first);
        TracedMore(pool, d, modified0[d], gone, first, more, modified[d]);
        assert gone + more <= before + added;
      } else {
        var first := TracedAnew(pool, d, more, modified[d]);
        assert more <= before + added;
      }
    }
  }

  lemma TracedMore(pool: Pool, d: TxId, m: Modified, gone: set<TxId>, first: TxId, more: set<TxId>, m': Modified)
    requires Traced(pool, d, m, gone, first) && more <= pool.ancestors[d] && more !! gone
             && Taken(pool, m, false, more, m')
    ensures Traced(pool, d, m', gone + more, first)
  {
    hide Total, Fees;
    TotalUnion(gone, more, pool.size);
    TotalUnion(gone, more, pool.sigOps);
    assert gone + more - {first} == (gone - {first}) + more;
    FeesUnion(gone - {first}, more, pool.fee);
  }

  lemma TracedAnew(pool: Pool, d: TxId, gone: set<TxId>, m: Modified) returns (first: TxId)
    requires d in pool.totals && d in pool.ancestors && gone <= pool.ancestors[d]
    requires Taken(pool, Modified(pool.totals[d].size, pool.totals[d].modFees, pool.totals[d].sigOps), true, gone, m)
    ensures Traced(pool, d, m, gone, first)
  {
    hide Total, Fees;
    first :| first in gone
             && m.modFees == pool.totals[d].modFees - Fee(first, pool.modFee) - Fees(gone - {first}, pool.fee);
  }

  /** Entries that were corrected for all chosen ancestors still are. */
  lemma CurrentAfter(pool: Pool, before: set<TxId>, added: set<TxId>, outside: set<TxId>,
                     modified0: ModifiedSet, modified: ModifiedSet)
    requires pool.Valid() && added !! before && before + added <= outside && Current(pool, modified0, before, outside)
    requires Subtracted(pool, added, added, modified0, modified) && Tracked(pool, added, added, modified0, modified)
    ensures Current(pool, modified, before + added, outside)
  {
    hide Total, Fees, Pool.Closed, Pool.Totalled, UpToDate, Tracked, Subtracted;
    forall t | t in pool.ancestors && t !in outside ensures UpToDate(pool, modified, before + added, t) {
      UpToDateAfter(pool, before, added, modified0, modified, t);
    }
  }

  lemma UpToDateAfter(pool: Pool, before: set<TxId>, added: set<TxId>, modified0: ModifiedSet, modified: ModifiedSet,
                      t: TxId)
    requires pool.Valid() && added !! before && t in pool.ancestors && t !in before + added
    requires UpToDate(pool, modified0, before, t)
    requires Subtracted(pool, added, added, modified0, modified) && Tracked(pool, added, added, modified0, modified)
    ensures UpToDate(pool, modified, before + added, t)
  {
    hide Total, Fees, Pool.Closed, Pool.Totalled, Traced, Taken;
    var gone, more := pool.ancestors[t] * before, Included(pool, added, added, t);
    assert pool.ancestors[t] * (before + added) == gone + more;
    if t in modified0 {
      var first :| Traced(pool, t, modified0[t], gone, first);
      TracedMore(pool, t, modified0[t], gone, first, more, modified[t]);
      InGone(pool, t, modified0[t], gone, first);
    } else if more == {} {
      forall it | it in added ensures !Heir(pool, added, it, t) {
        assert it !in more;
      }
    } else {
      var it := Member(more);
      assert Heir(pool, added, it, t);
      var first := TracedAnew(pool, t, more, modified[t]);
      assert gone + more == more;
    }
  }

  lemma InGone(pool: Pool, t: TxId, m: Modified, gone: set<TxId>, first: TxId)
    requires Traced(pool, t, m, gone, first)
    ensures first in gone
  {
  }

  /** Subtracts each newly included transaction from its descendants' totals, creating
      entries for descendants that have none. No unsigned total ever underflows. */
  method UpdatePackagesForAdded(pool: Pool, added: set<TxId>, modified0: ModifiedSet,
                                ghost before: set<TxId>, ghost outside: set<TxId>)
    returns (modified: ModifiedSet, nUpdated: nat)
    requires pool.Valid() && added <= pool.Txs() && added !! before && before + added <= outside
    requires Genuine(pool, modified0, before)
    ensures Genuine(pool, modified, before + added)
    ensures Current(pool, modified0, before, outside) ==> Current(pool, modified, before + added, outside)
    ensures Tracked(pool, added, added, modified0, modified)
    ensures Subtracted(pool, added, added, modified0, modified)
  {
    hide Total, Pool.Valid, Genuine, Current, Heir, Tracked, Subtracted, HeirsUpdated;
    modified, nUpdated := modified0, 0;
    var rest := added;
    ghost var done: set<TxId> := {};
    TrackedFirst(pool, added, modified0);
    SubtractedFirst(pool, added, modified0);
    while rest != {}
      invariant added == done + rest && done !! rest
      invariant Tracked(pool, added, done, modified0, modified)
      invariant Subtracted(pool, added, done, modified0, modified)
      decreases |rest|
    {
      NonEmpty(rest);
      var it :| it in rest;
      var modified', n, heirs := UpdateDescendants(pool, added, it, modified);
      SubtractedNext(pool, added, done, it, heirs, modified0, modified, modified');
      TrackedNext(pool, added, done, it, modified0, modified, modified');
      modified, nUpdated := modified', nUpdated + n;
      done, rest := done + {it}, rest - {it};
    }
    assert done == added;
    GenuineAfter(pool, before, added, modified0, modified);
    if Current(pool, modified0, before, outside) {
      CurrentAfter(pool, before, added, outside, modified0, modified);
    }
  }

  /** The descendants of one transaction that are not themselves being included. */
  method UpdateDescendants(pool: Pool, added: set<TxId>, it: TxId, modified0: ModifiedSet)
    returns (modified: ModifiedSet, nUpdated: nat, ghost heirs: set<TxId>)
    requires pool.Valid() && it in pool.Txs()
    ensures heirs <= pool.Txs() && (forall d :: d in heirs <==> Heir(pool, added, it, d))
    ensures HeirsUpdated(pool, modified0, modified, it, heirs) && nUpdated == |heirs|
    ensures forall d :: d in modified <==> d in modified0 || Heir(pool, added, it, d)
  {
    hide Total, Pool.Closed, Pool.Totalled, Updated, HeirsUpdated;
    modified, nUpdated := modified0, 0;
    var rest := set d | d in pool.Txs() && d !in added && it in pool.ancestors[d];
    heirs := rest;
    assert heirs - rest == {};
    NoneUpdated(pool, modified0, it);
    while rest != {}
      invariant rest <= heirs
      invariant HeirsUpdated(pool, modified0, modified, it, heirs - rest) && nUpdated == |heirs| - |rest|
      decreases |rest|
    {
      NonEmpty(rest);
      var d :| d in rest;
      UpdateOne(pool, modified0, modified, it, heirs - rest, d);
      assert heirs - rest + {d} == heirs - (rest - {d});
      modified := modified[d := Updated(pool, modified, d, it)];
      nUpdated := nUpdated + 1;
      rest := rest - {d};
    }
    assert heirs - rest == heirs;
    UpdatedKeys(pool, modified0, modified, it, heirs);
  }

  lemma UpdatedKeys(pool: Pool, modified0: ModifiedSet, modified: ModifiedSet, it: TxId, heirs: set<TxId>)
    requires pool.Valid() && it in pool.Txs() && heirs <= pool.Txs()
             && HeirsUpdated(pool, modified0, modified, it, heirs)
    ensures modified.Keys == modified0.Keys + heirs
  {
    hide Pool.Valid, Updated;
  }

  lemma NoneUpdated(pool: Pool, modified0: ModifiedSet, it: TxId)
    requires pool.Valid() && it in pool.Txs()
    ensures HeirsUpdated(pool, modified0, modified0, it, {})
  {
    hide Pool.Valid, Updated;
  }

  lemma UpdateOne(pool: Pool, modified0: ModifiedSet, modified: ModifiedSet, it: TxId, done: set<TxId>, d: TxId)
    requires pool.Valid() && it in pool.Txs() && done <= pool.Txs()
    requires HeirsUpdated(pool, modified0, modified, it, done) && d in pool.Txs() && d !in done
    ensures HeirsUpdated(pool, modified0, modified[d := Updated(pool, modified, d, it)], it, done + {d})
  {
    hide Total, Pool.Closed, Pool.Totalled;
    assert Updated(pool, modified, d, it) == Updated(pool, modified0, d, it);
    hide Updated;
  }
}
