/** What block assembly sees of the memory pool: a dependency graph with sizes and
    signature costs, and for each transaction its totals including all ancestors. */
module Mempool {
  import opened Sets

  type TxId = nat

  const WITNESS_SCALE_FACTOR := 4

  /** Totals over a transaction and its in-pool ancestors, as the pool caches them. */
  datatype Totals = Totals(count: nat, size: nat, modFees: int, sigOps: nat)

  datatype Pool = Pool(
    size: map<TxId, nat>,             // virtual size
    weight: map<TxId, nat>,
    sigOps: map<TxId, nat>,
    fee: map<TxId, int>,
    modFee: map<TxId, int>,           // fee including prioritisation
    isContract: map<TxId, bool>,
    acceptable: map<TxId, bool>,      // final, and no premature witness
    ancestors: map<TxId, set<TxId>>,
    totals: map<TxId, Totals>)
  {
    function Txs(): set<TxId> { size.Keys }

    /** A transaction with all its ancestors. */
    function Package(t: TxId): set<TxId>
      requires t in ancestors
    {
      ancestors[t] + {t}
    }

    /** Every table has an entry for every transaction. */
    ghost predicate Keyed() {
      && weight.Keys == sigOps.Keys == fee.Keys == modFee.Keys == Txs()
      && isContract.Keys == acceptable.Keys == ancestors.Keys == totals.Keys == Txs()
    }

    /** The ancestor sets are those of an acyclic dependency relation. */
    ghost predicate Closed()
      requires Keyed()
    {
      && (forall t :: t in Txs() ==> ancestors[t] <= Txs() && t !in ancestors[t])
      && (forall t, a :: t in Txs() && a in ancestors[t] ==> a in Txs() && ancestors[a] <= ancestors[t])
    }

    /** The cached totals are the true ones. */
    ghost predicate Totalled()
      requires Keyed()
    {
      forall t :: t in Txs() ==>
        && totals[t].count == |ancestors[t]| + 1
        && totals[t].size == Total(ancestors[t] + {t}, size)
        && totals[t].sigOps == Total(ancestors[t] + {t}, sigOps)
        && totals[t].modFees == Fees(ancestors[t] + {t}, modFee)
    }

    /** What the pool keeps true of its caches. */
    ghost predicate Valid() {
      Keyed() && Closed() && Totalled()
    }
  }

  lemma NonEmpty(s: set<TxId>)
    requires s != {}
    ensures exists t :: t in s
  {
    var t := Member(s);
  }

  /** The sum of a cost over a set of transactions; those without a cost count nothing. */
  ghost function Total(s: set<TxId>, cost: map<TxId, nat>): nat {
    if s == {} then 0
    else
      NonEmpty(s);
      var t :| t in s;
      (if t in cost then cost[t] else 0) + Total(s - {t}, cost)
  }

  ghost function Cost(t: TxId, cost: map<TxId, nat>): nat {
    if t in cost then cost[t] else 0
  }

  lemma {:induction false} TotalWithout(s: set<TxId>, cost: map<TxId, nat>, t: TxId)
    requires t in s
    ensures Total(s, cost) == Cost(t, cost) + Total(s - {t}, cost)
  {
    var u :| u in s && Total(s, cost) == Cost(u, cost) + Total(s - {u}, cost);
    if u != t {
      TotalWithout(s - {u}, cost, t);
      TotalWithout(s - {t}, cost, u);
      assert s - {u} - {t} == s - {t} - {u};
    }
  }

  /** The sum of fees over a set of transactions; they may be negative. */
  ghost function Fees(s: set<TxId>, fee: map<TxId, int>): int {
    if s == {} then 0
    else
      NonEmpty(s);
      var t :| t in s;
      Fee(t, fee) + Fees(s - {t}, fee)
  }

  ghost function Fee(t: TxId, fee: map<TxId, int>): int {
    if t in fee then fee[t] else 0
  }

  lemma {:induction false} FeesWithout(s: set<TxId>, fee: map<TxId, int>, t: TxId)
    requires t in s
    ensures Fees(s, fee) == Fee(t, fee) + Fees(s - {t}, fee)
  {
    var u :| u in s && Fees(s, fee) == Fee(u, fee) + Fees(s - {u}, fee);
    if u != t {
      FeesWithout(s - {u}, fee, t);
      FeesWithout(s - {t}, fee, u);
      assert s - {u} - {t} == s - {t} - {u};
    }
  }

  lemma {:induction false} FeesUnion(s: set<TxId>, s': set<TxId>, fee: map<TxId, int>)
    requires s !! s'
    ensures Fees(s + s', fee) == Fees(s, fee) + Fees(s', fee)
  {
    if s' == {} {
      assert s + s' == s;
    } else {
      var t := Member(s');
      FeesWithout(s', fee, t);
      FeesWithout(s + s', fee, t);
      assert s + s' - {t} == s + (s' - {t});
      FeesUnion(s, s' - {t}, fee);
    }
  }

  lemma {:induction false} SameFees(s: set<TxId>, fee: map<TxId, int>, fee': map<TxId, int>)
    requires forall t :: t in s ==> Fee(t, fee) == Fee(t, fee')
    ensures Fees(s, fee) == Fees(s, fee')
  {
    if s != {} {
      var t := Member(s);
      FeesWithout(s, fee, t);
      FeesWithout(s, fee', t);
      SameFees(s - {t}, fee, fee');
    }
  }

  lemma {:induction false} TotalUnion(s: set<TxId>, s': set<TxId>, cost: map<TxId, nat>)
    requires s !! s'
    ensures Total(s + s', cost) == Total(s, cost) + Total(s', cost)
  {
    if s' == {} {
      assert s + s' == s;
    } else {
      var t := Member(s');
      TotalWithout(s', cost, t);
      TotalWithout(s + s', cost, t);
      assert s + s' - {t} == s + (s' - {t});
      TotalUnion(s, s' - {t}, cost);
    }
  }

  lemma {:induction false} TotalSubset(s: set<TxId>, s': set<TxId>, cost: map<TxId, nat>)
    requires s <= s'
    ensures Total(s, cost) <= Total(s', cost)
  {
    if s != {} {
      var t := Member(s);
      TotalWithout(s, cost, t);
      TotalWithout(s', cost, t);
      TotalSubset(s - {t}, s' - {t}, cost);
    }
  }

  /** A bound per transaction is a bound on the totals. */
  lemma {:induction false} TotalBounded(s: set<TxId>, cost: map<TxId, nat>, other: map<TxId, nat>)
    requires forall t :: t in s ==> Cost(t, cost) <= WITNESS_SCALE_FACTOR * Cost(t, other)
    ensures Total(s, cost) <= WITNESS_SCALE_FACTOR * Total(s, other)
  {
    if s != {} {
      var t := Member(s);
      TotalWithout(s, cost, t);
      TotalWithout(s, other, t);
      TotalBounded(s - {t}, cost, other);
    }
  }
}
