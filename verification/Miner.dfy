/** Block assembly of src/miner.cpp: a greedy choice of transaction packages over the dependency
    order of the mempool, with package totals that are corrected lazily as ancestors are included.

    The score order is arbitrary: which of two candidates is better (floating point in the source)
    is any answer. The mempool is given by its ancestor relation and the totals it caches are the
    sums over that relation. */
module Miner {
  import opened Basics

  const MAX_BLOCK_SIGOPS_COST := 80000
  const WITNESS_SCALE_FACTOR := 4
  const COINBASE_WEIGHT := 4000
  const COINBASE_SIGOPS := 400
  const MAX_CONSECUTIVE_FAILURES := 1000

  type Tx = nat

  //////////////////////////////////////////////////////////////////////////////
  // Sums over sets of transactions
  //////////////////////////////////////////////////////////////////////////////

  ghost function Sum(m: map<Tx, int>, s: set<Tx>): int
    requires s <= m.Keys
  {
    if s == {} then 0
    else
      var x :| x in s;
      m[x] + Sum(m, s - {x})
  }

  lemma {:induction false} SumTake(m: map<Tx, int>, s: set<Tx>, x: Tx)
    requires s <= m.Keys && x in s
    ensures Sum(m, s) == m[x] + Sum(m, s - {x})
    decreases s
  {
    var y :| y in s && Sum(m, s) == m[y] + Sum(m, s - {y});
    if y != x {
      SumTake(m, s - {y}, x);
      SumTake(m, s - {x}, y);
      assert s - {y} - {x} == s - {x} - {y};
    }
  }

  lemma {:induction false} SumSplit(m: map<Tx, int>, s: set<Tx>, t: set<Tx>)
    requires s <= m.Keys && t <= s
    ensures Sum(m, s) == Sum(m, t) + Sum(m, s - t)
    decreases t
  {
    if t == {} {
      assert s - t == s;
    } else {
      var x :| x in t;
      SumTake(m, t, x);
      SumTake(m, s, x);
      SumSplit(m, s - {x}, t - {x});
      assert s - {x} - (t - {x}) == s - t;
    }
  }

  lemma SumJoin(m: map<Tx, int>, s: set<Tx>, t: set<Tx>)
    requires s <= m.Keys && t <= m.Keys && s !! t
    ensures Sum(m, s + t) == Sum(m, s) + Sum(m, t)
  {
    SumSplit(m, s + t, s);
    assert s + t - s == t;
  }

  lemma {:induction false} SumAtLeast(m: map<Tx, int>, s: set<Tx>)
    requires s <= m.Keys && forall x <- s :: m[x] >= 0
    ensures Sum(m, s) >= 0
    decreases s
  {
    if s != {} {
      var x :| x in s;
      SumTake(m, s, x);
      SumAtLeast(m, s - {x});
    }
  }

  lemma {:induction false} SumScaled(w: map<Tx, int>, z: map<Tx, int>, s: set<Tx>)
    requires s <= w.Keys && s <= z.Keys && forall x <- s :: w[x] <= WITNESS_SCALE_FACTOR * z[x]
    ensures Sum(w, s) <= WITNESS_SCALE_FACTOR * Sum(z, s)
    decreases s
  {
    if s != {} {
      var x :| x in s;
      SumTake(w, s, x);
      SumTake(z, s, x);
      SumScaled(w, z, s - {x});
    }
  }

  //////////////////////////////////////////////////////////////////////////////
  // The mempool
  //////////////////////////////////////////////////////////////////////////////

  /** CTxMemPoolModifiedEntry, and the totals over a package that the mempool caches. */
  datatype Totals = Totals(size: int, fees: int, sigops: int)

  /** `order` is the mempool sorted by ancestor score; `final` and `segwit` are the verdicts of
      IsFinalTx for the next block and of HasWitness; `cached` are the totals each entry carries. */
  datatype Pool = Pool(
    order: seq<Tx>, ancestors: map<Tx, set<Tx>>, cached: map<Tx, Totals>,
    size: map<Tx, int>, weight: map<Tx, int>, sigops: map<Tx, int>,
    fee: map<Tx, int>, modifiedFee: map<Tx, int>, final: set<Tx>, segwit: set<Tx>)
  {
    ghost predicate Valid() {
      && Numbered()
      && (forall x <- order :: x in ancestors)
      && (forall x <- ancestors :: AncestorsOk(x) && NumbersOk(x))
      && (forall x <- ancestors :: cached[x] == SumTotals(Package(x)))
    }

    ghost predicate Numbered() {
      && size.Keys == weight.Keys == sigops.Keys == fee.Keys == modifiedFee.Keys == cached.Keys == ancestors.Keys
      && forall x <- ancestors :: ancestors[x] <= ancestors.Keys
    }

    /** Ancestors are transitively closed and a transaction is not its own ancestor. */
    ghost predicate AncestorsOk(x: Tx)
      requires Numbered() && x in ancestors
    {
      x !in ancestors[x] && forall y <- ancestors[x] :: ancestors[y] <= ancestors[x]
    }

    ghost predicate NumbersOk(x: Tx)
      requires Numbered() && x in ancestors
    {
      && size[x] >= 0 && sigops[x] >= 0 && 0 <= weight[x] <= WITNESS_SCALE_FACTOR * size[x]
      && fee[x] >= 0
    }

    /** The larger of the two fees that the source subtracts for an included ancestor. */
    ghost function MostFee(): (m: map<Tx, int>)
      requires Numbered()
      ensures m.Keys == ancestors.Keys
    {
      map x | x in ancestors :: Max(fee[x], modifiedFee[x])
    }

    /** The least that can be left of the fees of a package when `included` is in the block. */
    ghost function FeeFloor(x: Tx, included: set<Tx>): int
      requires Numbered() && x in ancestors
    {
      cached[x].fees - Sum(MostFee(), ancestors[x] * included)
    }

    /** A transaction with its ancestors. */
    ghost function Package(x: Tx): set<Tx>
      requires Numbered() && x in ancestors
      ensures Package(x) <= ancestors.Keys
    {
      ancestors[x] + {x}
    }

    ghost function SumTotals(s: set<Tx>): Totals
      requires Numbered() && s <= ancestors.Keys
    {
      Totals(Sum(size, s), Sum(modifiedFee, s), Sum(sigops, s))
    }

    /** What of the package of `x` is not yet among `included`. */
    ghost function Remaining(x: Tx, included: set<Tx>): set<Tx>
      requires Numbered() && x in ancestors
    {
      Package(x) - included
    }
  }

  /** Totals of an entry after its ancestor `y` is taken out; `fee` is what the source subtracts:
      the modified fee when the entry is made, the plain fee when it is updated. */
  function Less(pool: Pool, t: Totals, y: Tx, fee: map<Tx, int>): Totals
    requires y in pool.size && y in fee && y in pool.sigops
  {
    Totals(t.size - pool.size[y], t.fees - fee[y], t.sigops - pool.sigops[y])
  }

  ghost predicate AtLeast(t: Totals, u: Totals) {
    t.size >= u.size && t.sigops >= u.sigops
  }

  ghost predicate SameSizes(t: Totals, u: Totals) {
    t.size == u.size && t.sigops == u.sigops
  }

  lemma TotalsTake(pool: Pool, s: set<Tx>, y: Tx, t: Totals, fee: map<Tx, int>)
    requires pool.Numbered() && s <= pool.ancestors.Keys && y in s && y in fee
    ensures AtLeast(t, pool.SumTotals(s)) ==> AtLeast(Less(pool, t, y, fee), pool.SumTotals(s - {y}))
    ensures SameSizes(t, pool.SumTotals(s)) ==> SameSizes(Less(pool, t, y, fee), pool.SumTotals(s - {y}))
  {
    SumTake(pool.size, s, y);
    SumTake(pool.sigops, s, y);
  }

  /** Taking an ancestor that was still to come out of a package total. */
  lemma LessRemaining(pool: Pool, x: Tx, y: Tx, included: set<Tx>, t: Totals, fee: map<Tx, int>)
    requires pool.Numbered() && x in pool.ancestors && y in pool.ancestors[x] && y !in included && y in fee
    ensures AtLeast(t, pool.SumTotals(pool.Remaining(x, included))) ==>
              AtLeast(Less(pool, t, y, fee), pool.SumTotals(pool.Remaining(x, included + {y})))
    ensures SameSizes(t, pool.SumTotals(pool.Remaining(x, included))) ==>
              SameSizes(Less(pool, t, y, fee), pool.SumTotals(pool.Remaining(x, included + {y})))
  {
    var rest := pool.Remaining(x, included);
    assert pool.Remaining(x, included + {y}) == rest - {y};
    TotalsTake(pool, rest, y, t, fee);
  }

  lemma TotalsAtLeast(pool: Pool, s: set<Tx>, t: set<Tx>)
    requires pool.Numbered() && t <= s <= pool.ancestors.Keys
    requires forall x <- pool.ancestors :: pool.NumbersOk(x)
    ensures AtLeast(pool.SumTotals(s), pool.SumTotals(t))
  {
    SumSplit(pool.size, s, t);
    SumSplit(pool.sigops, s, t);
    forall y <- s - t ensures pool.NumbersOk(y) {
    }
    SumAtLeast(pool.size, s - t);
    SumAtLeast(pool.sigops, s - t);
  }

  /** The totals the mempool caches never understate what remains of a package. */
  lemma CachedAtLeast(pool: Pool, x: Tx, included: set<Tx>)
    requires pool.Valid() && x in pool.ancestors
    ensures AtLeast(pool.cached[x], pool.SumTotals(pool.Remaining(x, included)))
    ensures pool.ancestors[x] !! included && x !in included ==>
              SameSizes(pool.cached[x], pool.SumTotals(pool.Remaining(x, included)))
  {
    hide Pool.AncestorsOk, Sum;
    TotalsAtLeast(pool, pool.Package(x), pool.Remaining(x, included));
    if pool.ancestors[x] !! included && x !in included {
      assert pool.Remaining(x, included) == pool.Package(x);
    }
  }

  //////////////////////////////////////////////////////////////////////////////
  // The modified set
  //////////////////////////////////////////////////////////////////////////////

  type Modified = map<Tx, Totals>

  /** What holds of `x` while `included` is in the block. A modified entry never understates what
      remains of its package, nor overstates the package, and its fees are not below the floor. Unless `x`
      is in `skip`, its sizes are exact: those of the modified entry if it has one, else those cached,
      because then no ancestor is included. */
  ghost predicate Tracked(pool: Pool, included: set<Tx>, modified: Modified, skip: set<Tx>, x: Tx)
    requires pool.Numbered() && x in pool.ancestors
  {
    && (x in modified ==> AtLeast(modified[x], pool.SumTotals(pool.Remaining(x, included))))
    && (x in modified ==> AtLeast(pool.cached[x], modified[x]))
    && (x in modified ==> modified[x].fees >= pool.FeeFloor(x, included))
    && (x !in skip ==>
          if x in modified then SameSizes(modified[x], pool.SumTotals(pool.Remaining(x, included)))
          else pool.ancestors[x] !! included)
  }

  /** `skip` are the transactions in the block and those that failed before. */
  ghost predicate TrackedAll(pool: Pool, included: set<Tx>, modified: Modified, skip: set<Tx>)
    requires pool.Numbered()
  {
    && modified.Keys <= pool.ancestors.Keys
    && forall x <- pool.ancestors :: Tracked(pool, included, modified, skip, x)
  }

  /** One turn of the inner loop of UpdatePackagesForAdded: `y` is in the block now, `x` descends
      from it. */
  function Updated(pool: Pool, modified: Modified, x: Tx, y: Tx): Modified
    requires x in pool.cached && y in pool.size && y in pool.fee && y in pool.modifiedFee && y in pool.sigops
  {
    modified[x := if x in modified then Less(pool, modified[x], y, pool.fee)
                  else Less(pool, pool.cached[x], y, pool.modifiedFee)]
  }

  lemma LessAtMost(pool: Pool, most: Totals, t: Totals, y: Tx, fee: map<Tx, int>)
    requires pool.Valid() && y in pool.ancestors && y in fee
    requires t == most || AtLeast(most, t)
    ensures AtLeast(most, Less(pool, t, y, fee))
  {
    hide Pool.AncestorsOk;
    assert pool.NumbersOk(y);
  }

  /** Subtracting either fee of an ancestor stays above the floor. */
  lemma FloorStep(pool: Pool, included: set<Tx>, x: Tx, y: Tx)
    requires pool.Valid() && x in pool.ancestors && y in pool.ancestors[x] && y !in included
    ensures pool.FeeFloor(x, included) <= pool.cached[x].fees
    ensures pool.FeeFloor(x, included + {y}) == pool.FeeFloor(x, included) - pool.MostFee()[y]
    ensures pool.MostFee()[y] >= pool.fee[y] && pool.MostFee()[y] >= pool.modifiedFee[y]
  {
    hide Pool.AncestorsOk, Pool.SumTotals, Pool.Package;
    var most, inside := pool.MostFee(), pool.ancestors[x] * included;
    assert pool.ancestors[x] * (included + {y}) == inside + {y};
    SumAppend(most, inside, y);
    forall z <- inside ensures most[z] >= 0 {
      assert pool.NumbersOk(z);
    }
    SumAtLeast(most, inside);
  }

  lemma UpdatedTracked(pool: Pool, included: set<Tx>, modified: Modified, skip: set<Tx>, x: Tx, y: Tx)
    requires pool.Valid() && x in pool.ancestors && y in pool.ancestors[x] && y !in included && included <= skip
    requires Tracked(pool, included, modified, skip, x)
    ensures Tracked(pool, included + {y}, Updated(pool, modified, x, y), skip, x)
  {
    hide Pool.AncestorsOk, Pool.SumTotals, Pool.Remaining, Pool.FeeFloor, Pool.MostFee, AtLeast, SameSizes;
    FloorStep(pool, included, x, y);
    if x in modified {
      LessRemaining(pool, x, y, included, modified[x], pool.fee);
      LessAtMost(pool, pool.cached[x], modified[x], y, pool.fee);
    } else {
      CachedAtLeast(pool, x, included);
      LessAtMost(pool, pool.cached[x], pool.cached[x], y, pool.modifiedFee);
      LessRemaining(pool, x, y, included, pool.cached[x], pool.modifiedFee);
    }
  }

  lemma UntouchedTracked(pool: Pool, included: set<Tx>, modified: Modified, skip: set<Tx>, x: Tx, y: Tx)
    requires pool.Numbered() && x in pool.ancestors && y !in pool.Package(x)
    requires Tracked(pool, included, modified, skip, x)
    ensures Tracked(pool, included + {y}, modified, skip, x)
  {
    assert pool.Remaining(x, included + {y}) == pool.Remaining(x, included);
    assert pool.ancestors[x] * (included + {y}) == pool.ancestors[x] * included;
  }

  ghost function DescendantsOf(pool: Pool, y: Tx): set<Tx> {
    set x | x in pool.ancestors && y in pool.ancestors[x]
  }

  /** Part-way through the descendants of `y`: those in `todo` are not yet updated. */
  ghost predicate HalfTracked(pool: Pool, included: set<Tx>, modified: Modified, skip: set<Tx>, y: Tx, todo: set<Tx>)
    requires pool.Numbered()
  {
    && modified.Keys <= pool.ancestors.Keys
    && forall x <- pool.ancestors ::
         Tracked(pool, if x in todo then included else included + {y}, modified, skip, x)
  }

  lemma HalfTrackedStart(pool: Pool, included: set<Tx>, modified: Modified, skip: set<Tx>, y: Tx, added: set<Tx>)
    requires pool.Numbered() && TrackedAll(pool, included, modified, skip)
    requires y in added && added <= skip && added !! modified.Keys
    ensures HalfTracked(pool, included, modified, skip, y, DescendantsOf(pool, y) - added)
  {
    var todo := DescendantsOf(pool, y) - added;
    forall x <- pool.ancestors ensures Tracked(pool, if x in todo then included else included + {y}, modified, skip, x) {
      assert Tracked(pool, included, modified, skip, x);
      if x !in todo && x !in added {
        UntouchedTracked(pool, included, modified, skip, x, y);
      }
    }
  }

  lemma OtherTracked(pool: Pool, included: set<Tx>, modified: Modified, skip: set<Tx>, z: Tx, x: Tx, t: Totals)
    requires pool.Numbered() && z in pool.ancestors && z != x && Tracked(pool, included, modified, skip, z)
    ensures Tracked(pool, included, modified[x := t], skip, z)
  {
  }

  lemma HalfTrackedStep(pool: Pool, included: set<Tx>, modified: Modified, skip: set<Tx>, y: Tx, todo: set<Tx>, x: Tx)
    requires pool.Valid() && y !in included && included <= skip && y in pool.ancestors
    requires HalfTracked(pool, included, modified, skip, y, todo) && x in todo && todo <= DescendantsOf(pool, y)
    ensures HalfTracked(pool, included, Updated(pool, modified, x, y), skip, y, todo - {x})
  {
    hide Pool.AncestorsOk, Pool.NumbersOk, Pool.SumTotals, Less, Tracked;
    var modified', todo' := Updated(pool, modified, x, y), todo - {x};
    forall z <- pool.ancestors ensures Tracked(pool, if z in todo' then included else included + {y}, modified', skip, z) {
      assert Tracked(pool, if z in todo then included else included + {y}, modified, skip, z);
      if z == x {
        UpdatedTracked(pool, included, modified, skip, x, y);
      } else {
        OtherTracked(pool, if z in todo then included else included + {y}, modified, skip, z, x, modified'[x]);
      }
    }
  }

  lemma HalfTrackedDone(pool: Pool, included: set<Tx>, modified: Modified, skip: set<Tx>, y: Tx)
    requires pool.Numbered() && HalfTracked(pool, included, modified, skip, y, {})
    ensures TrackedAll(pool, included + {y}, modified, skip)
  {
    forall x <- pool.ancestors ensures Tracked(pool, included + {y}, modified, skip, x) {
      assert Tracked(pool, if x in {} then included else included + {y}, modified, skip, x);
    }
  }

  //////////////////////////////////////////////////////////////////////////////
  // The block
  //////////////////////////////////////////////////////////////////////////////

  ghost function Elements(txs: seq<Tx>): set<Tx> {
    set x | x in txs
  }

  /** No transaction twice, and every in-mempool ancestor of a transaction earlier in the block. */
  ghost predicate InOrder(pool: Pool, txs: seq<Tx>) {
    && (forall i | 0 <= i < |txs| :: txs[i] in pool.ancestors && pool.ancestors[txs[i]] <= Elements(txs[..i]))
    && (forall i, j | 0 <= i < j < |txs| :: txs[i] != txs[j])
  }

  lemma InOrderClosed(pool: Pool, txs: seq<Tx>, x: Tx)
    requires InOrder(pool, txs) && x in txs
    ensures x in pool.ancestors && pool.ancestors[x] <= Elements(txs)
  {
    var i :| 0 <= i < |txs| && txs[i] == x;
    assert Elements(txs[..i]) <= Elements(txs);
  }

  lemma InOrderAppend(pool: Pool, txs: seq<Tx>, x: Tx)
    requires InOrder(pool, txs) && x in pool.ancestors && x !in txs && pool.ancestors[x] <= Elements(txs)
    ensures InOrder(pool, txs + [x]) && Elements(txs + [x]) == Elements(txs) + {x}
  {
    var txs' := txs + [x];
    forall i | 0 <= i < |txs'| ensures txs'[i] in pool.ancestors && pool.ancestors[txs'[i]] <= Elements(txs'[..i]) {
      if i < |txs| { assert txs'[..i] == txs[..i]; } else { assert txs'[..i] == txs; }
    }
  }

  /** Sorting by ancestor count is a valid block order: an ancestor has fewer ancestors. */
  lemma AncestorCount(pool: Pool, x: Tx, y: Tx)
    requires pool.Valid() && x in pool.ancestors && y in pool.ancestors[x]
    ensures |pool.ancestors[y]| < |pool.ancestors[x]|
  {
    assert pool.AncestorsOk(x) && pool.AncestorsOk(y);
    Smaller(pool.ancestors[y], pool.ancestors[x], y);
  }

  lemma Smaller(s: set<Tx>, t: set<Tx>, y: Tx)
    requires s <= t && y in t && y !in s
    ensures |s| < |t|
  {
    SubsetSize(s, t - {y});
  }

  lemma {:induction false} SubsetSize(s: set<Tx>, t: set<Tx>)
    requires s <= t
    ensures |s| <= |t|
    decreases s
  {
    if s != {} {
      var x :| x in s;
      SubsetSize(s - {x}, t - {x});
    }
  }

  ghost predicate SortedByCount(pool: Pool, txs: seq<Tx>) {
    && (forall x <- txs :: x in pool.ancestors)
    && forall i, j | 0 <= i < j < |txs| :: |pool.ancestors[txs[i]]| <= |pool.ancestors[txs[j]]|
  }

  lemma PackageClosed(pool: Pool, iter: Tx, x: Tx)
    requires pool.Valid() && iter in pool.ancestors && x in pool.Package(iter)
    ensures pool.ancestors[x] <= pool.Package(iter)
  {
    hide Pool.AncestorsOk, Pool.NumbersOk, Pool.SumTotals, Pool.Package;
    assert pool.AncestorsOk(iter);
    ClosedPackage(pool, iter, x);
  }

  lemma ClosedPackage(pool: Pool, iter: Tx, x: Tx)
    requires pool.Numbered() && iter in pool.ancestors && pool.AncestorsOk(iter) && x in pool.Package(iter)
    ensures pool.ancestors[x] <= pool.Package(iter)
  {
    if x != iter {
      assert x in pool.ancestors[iter];
    }
  }

  /** Every ancestor of a package member is in the block or earlier in the sorted package. */
  lemma SortedReady(pool: Pool, iter: Tx, included: set<Tx>, txs: seq<Tx>, k: nat)
    requires pool.Valid() && iter in pool.ancestors
    requires SortedByCount(pool, txs) && Elements(txs) == pool.Remaining(iter, included) && k < |txs|
    ensures pool.ancestors[txs[k]] <= included + Elements(txs[..k])
  {
    hide Pool.AncestorsOk, Pool.NumbersOk, Pool.SumTotals;
    var x := txs[k];
    assert x in Elements(txs);
    forall z <- pool.ancestors[x] ensures z in included + Elements(txs[..k]) {
      PackageClosed(pool, iter, x);
      if z !in included {
        assert z in Elements(txs);
        var j :| 0 <= j < |txs| && txs[j] == z;
        AncestorCount(pool, x, z);
      }
    }
  }

  lemma ErasedTracked(pool: Pool, included: set<Tx>, modified: Modified, skip: set<Tx>, gone: set<Tx>)
    requires pool.Numbered() && TrackedAll(pool, included, modified, skip)
    ensures TrackedAll(pool, included, modified - gone, skip + gone)
  {
    forall x <- pool.ancestors ensures Tracked(pool, included, modified - gone, skip + gone, x) {
      assert Tracked(pool, included, modified, skip, x);
    }
  }

  lemma {:induction false} SumAppend(m: map<Tx, int>, s: set<Tx>, x: Tx)
    requires s <= m.Keys && x in m && x !in s
    ensures Sum(m, s + {x}) == Sum(m, s) + m[x]
  {
    SumTake(m, s + {x}, x);
    assert s + {x} - {x} == s;
  }

  const MAX_BLOCK_WEIGHT := 4000000

  /** The weight limit, kept between 4000 and 4000 below the consensus limit. */
  function ClampedWeight(requested: nat): nat {
    var most := if requested < MAX_BLOCK_WEIGHT - 4000 then requested else MAX_BLOCK_WEIGHT - 4000;
    if most < 4000 then 4000 else most
  }

  lemma ElementsNone(txs: seq<Tx>)
    ensures Elements(txs[..0]) == {}
  {
  }

  lemma ElementsStep(txs: seq<Tx>, i: nat)
    requires i < |txs| && forall i, j | 0 <= i < j < |txs| :: txs[i] != txs[j]
    ensures txs[..i + 1] == txs[..i] + [txs[i]]
    ensures Elements(txs[..i + 1]) == Elements(txs[..i]) + {txs[i]}
    ensures txs[i] in Elements(txs) && txs[i] !in Elements(txs[..i])
  {
  }

  ghost predicate AddableAt(pool: Pool, included: set<Tx>, txs: seq<Tx>, i: nat)
    requires i < |txs|
  {
    txs[i] in pool.ancestors && txs[i] !in included && pool.ancestors[txs[i]] <= included + Elements(txs[..i])
  }

  /** Transactions that can be appended to a block holding `included`, in this order. */
  ghost predicate Addable(pool: Pool, included: set<Tx>, txs: seq<Tx>) {
    && (forall i | 0 <= i < |txs| :: AddableAt(pool, included, txs, i))
    && (forall i, j | 0 <= i < j < |txs| :: txs[i] != txs[j])
  }

  lemma SortedAddable(pool: Pool, iter: Tx, included: set<Tx>, txs: seq<Tx>)
    requires pool.Valid() && iter in pool.ancestors
    requires SortedByCount(pool, txs) && Elements(txs) == pool.Remaining(iter, included)
    requires forall i, j | 0 <= i < j < |txs| :: txs[i] != txs[j]
    ensures Addable(pool, included, txs)
  {
    hide Pool.AncestorsOk, Pool.NumbersOk, Pool.SumTotals;
    forall i | 0 <= i < |txs| ensures AddableAt(pool, included, txs, i) {
      SortedReady(pool, iter, included, txs, i);
      assert txs[i] in Elements(txs);
    }
  }

  lemma ClosedBlock(pool: Pool, txs: seq<Tx>)
    requires InOrder(pool, txs)
    ensures forall x <- Elements(txs) :: x in pool.ancestors && pool.ancestors[x] <= Elements(txs)
  {
    forall x <- Elements(txs) ensures x in pool.ancestors && pool.ancestors[x] <= Elements(txs) {
      InOrderClosed(pool, txs, x);
    }
  }

  lemma EmptyTracked(pool: Pool, skip: set<Tx>)
    requires pool.Numbered()
    ensures TrackedAll(pool, {}, map[], skip)
  {
  }

  /** Whichever table a candidate is taken from, its totals never understate. */
  lemma ChosenBounded(pool: Pool, included: set<Tx>, modified: Modified, skip: set<Tx>, x: Tx)
    requires pool.Valid() && x in pool.ancestors && TrackedAll(pool, included, modified, skip)
    ensures AtLeast(pool.cached[x], pool.SumTotals(pool.Remaining(x, included)))
    ensures x in modified ==> AtLeast(modified[x], pool.SumTotals(pool.Remaining(x, included)))
                              && AtLeast(pool.cached[x], modified[x])
  {
    hide Pool.AncestorsOk, Pool.NumbersOk;
    CachedAtLeast(pool, x, included);
    assert Tracked(pool, included, modified, skip, x);
  }

  /** The weight and sigop cost that a package really adds are covered by its tested totals. */
  lemma FitsLimits(pool: Pool, included: set<Tx>, package: set<Tx>, t: Totals)
    requires pool.Valid() && included <= pool.ancestors.Keys && package <= pool.ancestors.Keys && package !! included
    requires AtLeast(t, pool.SumTotals(package))
    ensures Sum(pool.weight, included + package) <= Sum(pool.weight, included) + WITNESS_SCALE_FACTOR * t.size
    ensures Sum(pool.sigops, included + package) <= Sum(pool.sigops, included) + t.sigops
    ensures Sum(pool.weight, included) <= Sum(pool.weight, included + package)
    ensures Sum(pool.sigops, included) <= Sum(pool.sigops, included + package)
  {
    hide Pool.AncestorsOk, Sum;
    forall x <- package
      ensures 0 <= pool.weight[x] <= WITNESS_SCALE_FACTOR * pool.size[x] && pool.sigops[x] >= 0
    {
      assert pool.NumbersOk(x);
    }
    SumAtLeast(pool.weight, package);
    SumAtLeast(pool.sigops, package);
    hide Pool.Valid, Pool.NumbersOk;
    SumJoin(pool.weight, included, package);
    SumJoin(pool.sigops, included, package);
    SumScaled(pool.weight, pool.size, package);
  }

  lemma KnownKeys(pool: Pool, included: set<Tx>, modified: Modified, skip: set<Tx>)
    requires pool.Numbered() && TrackedAll(pool, included, modified, skip)
    ensures modified.Keys <= pool.ancestors.Keys
  {
  }

  lemma OrderKnown(pool: Pool)
    requires pool.Valid()
    ensures pool.Numbered() && forall x <- pool.order :: x in pool.ancestors
  {
  }

  /** A request within the range is granted, any other is moved to the nearest end of it. */
  lemma Clamped(requested: nat)
    ensures 4000 <= ClampedWeight(requested) <= MAX_BLOCK_WEIGHT - 4000
    ensures 4000 <= requested <= MAX_BLOCK_WEIGHT - 4000 ==> ClampedWeight(requested) == requested
    ensures requested < 4000 ==> ClampedWeight(requested) == 4000
    ensures requested > MAX_BLOCK_WEIGHT - 4000 ==> ClampedWeight(requested) == MAX_BLOCK_WEIGHT - 4000
  {
  }

  /** Why `x` is not in the finished block: a transaction of its package is not final or has an
      untimely witness, or the package, going by the cached totals, does not fit on top. */
  ghost predicate LeftOut(pool: Pool, vtx: seq<Tx>, maxWeight: nat, includeWitness: bool, x: Tx)
    requires pool.Numbered()
  {
    && x in pool.ancestors && Elements(vtx) <= pool.ancestors.Keys
    && (|| (exists y <- pool.Package(x) :: y !in pool.final || (!includeWitness && y in pool.segwit))
        || COINBASE_WEIGHT + Sum(pool.weight, Elements(vtx)) + WITNESS_SCALE_FACTOR * pool.cached[x].size >= maxWeight
        || COINBASE_SIGOPS + Sum(pool.sigops, Elements(vtx)) + pool.cached[x].sigops >= MAX_BLOCK_SIGOPS_COST)
  }

  /** What is left of the package of `x`, with some size between that of what remains and that of the
      whole, and fees not below the floor, is below the threshold. */
  ghost predicate PaysTooLittle(pool: Pool, minFee: int -> int, included: set<Tx>, x: Tx)
    requires pool.Numbered() && x in pool.ancestors
  {
    exists size :: pool.SumTotals(pool.Remaining(x, included)).size <= size <= pool.cached[x].size
                   && pool.FeeFloor(x, included) < minFee(size)
  }

  lemma FloorBelow(pool: Pool, included: set<Tx>, x: Tx)
    requires pool.Valid() && x in pool.ancestors
    ensures pool.FeeFloor(x, included) <= pool.cached[x].fees
  {
    hide Pool.AncestorsOk, Pool.SumTotals, Pool.Package;
    var most, inside := pool.MostFee(), pool.ancestors[x] * included;
    forall z <- inside ensures most[z] >= 0 {
      assert pool.NumbersOk(z);
    }
    SumAtLeast(most, inside);
  }

  class BlockAssembler {
    const pool: Pool
    const maxWeight: nat
    const minFee: int -> int
    const includeWitness: bool
    var inBlock: set<Tx>
    var vtx: seq<Tx>
    var blockWeight: int
    var blockSigOps: int
    var fees: int

    /** The block is in dependency order and the counters are the sums over it. */
    ghost predicate Counted()
      requires pool.Numbered()
      reads this
    {
      && InOrder(pool, vtx)
      && inBlock == Elements(vtx)
      && inBlock <= pool.ancestors.Keys
      && blockWeight == COINBASE_WEIGHT + Sum(pool.weight, inBlock)
      && blockSigOps == COINBASE_SIGOPS + Sum(pool.sigops, inBlock)
      && fees == Sum(pool.fee, inBlock)
    }

    ghost predicate WithinLimits()
      reads this
    {
      vtx != [] ==> blockWeight < maxWeight && blockSigOps < MAX_BLOCK_SIGOPS_COST
    }

    constructor (pool: Pool, maxWeight: nat, minFee: int -> int, includeWitness: bool)
      requires pool.Valid()
      ensures this.pool.Valid() && Counted() && WithinLimits() && Allowed() && vtx == []
      ensures this.pool == pool && this.minFee == minFee && this.includeWitness == includeWitness
      ensures this.maxWeight == ClampedWeight(maxWeight)
    {
      this.pool, this.minFee, this.includeWitness := pool, minFee, includeWitness;
      this.maxWeight := ClampedWeight(maxWeight);
      inBlock, vtx := {}, [];
      blockWeight, blockSigOps, fees := COINBASE_WEIGHT, COINBASE_SIGOPS, 0;
    }

    method AddToBlock(x: Tx)
      requires pool.Numbered() && Counted() && x in pool.ancestors && x !in inBlock && pool.ancestors[x] <= inBlock
      modifies this
      ensures Counted() && vtx == old(vtx) + [x] && inBlock == old(inBlock) + {x}
    {
      hide Pool.AncestorsOk, Pool.NumbersOk, Pool.SumTotals, InOrder;
      InOrderAppend(pool, vtx, x);
      SumAppend(pool.weight, inBlock, x);
      SumAppend(pool.sigops, inBlock, x);
      SumAppend(pool.fee, inBlock, x);
      vtx := vtx + [x];
      blockWeight := blockWeight + pool.weight[x];
      blockSigOps := blockSigOps + pool.sigops[x];
      fees := fees + pool.fee[x];
      inBlock := inBlock + {x};
    }

    /** std::sort by ancestor count; ties, which the source breaks by hash, in any order. */
    method SortForBlock(package: set<Tx>) returns (sorted: seq<Tx>)
      requires package <= pool.ancestors.Keys
      ensures SortedByCount(pool, sorted) && Elements(sorted) == package
      ensures forall i, j | 0 <= i < j < |sorted| :: sorted[i] != sorted[j]
    {
      sorted := [];
      var rest := package;
      while rest != {}
        invariant rest <= package && rest !! Elements(sorted) && Elements(sorted) + rest == package
        invariant SortedByCount(pool, sorted)
        invariant forall i, j | 0 <= i < j < |sorted| :: sorted[i] != sorted[j]
        invariant forall x, y | x in sorted && y in rest :: |pool.ancestors[x]| <= |pool.ancestors[y]|
        decreases rest
      {
        var x := FewestAncestors(rest);
        ghost var sorted0 := sorted;
        sorted := sorted + [x];
        assert Elements(sorted) == Elements(sorted0) + {x};
        rest := rest - {x};
      }
    }

    method FewestAncestors(txs: set<Tx>) returns (x: Tx)
      requires txs != {} && txs <= pool.ancestors.Keys
      ensures x in txs && forall y <- txs :: |pool.ancestors[x]| <= |pool.ancestors[y]|
    {
      x :| x in txs;
      var rest := txs - {x};
      while rest != {}
        invariant x in txs && x !in rest && rest <= txs
        invariant forall y <- txs - rest :: |pool.ancestors[x]| <= |pool.ancestors[y]|
        decreases rest
      {
        var y :| y in rest;
        if |pool.ancestors[y]| < |pool.ancestors[x]| {
          x := y;
        }
        rest := rest - {y};
      }
    }

    /** Corrects the totals of every descendant of the transactions just added. */
    method UpdatePackagesForAdded(added: set<Tx>, modified: Modified, ghost included: set<Tx>, ghost skip: set<Tx>)
      returns (updated: Modified)
      requires pool.Valid() && TrackedAll(pool, included, modified, skip) && modified.Keys <= pool.ancestors.Keys
      requires included + added <= skip && added <= pool.ancestors.Keys
      requires added !! included && added !! modified.Keys && included !! modified.Keys
      requires forall x <- included :: x in pool.ancestors && pool.ancestors[x] <= included
      ensures TrackedAll(pool, included + added, updated, skip)
      ensures updated.Keys !! included + added && modified.Keys <= updated.Keys <= pool.ancestors.Keys
    {
      hide Pool.AncestorsOk, Pool.NumbersOk, Pool.SumTotals, Pool.Package, Pool.Remaining, Tracked, TrackedAll, HalfTracked;
      updated := modified;
      ghost var done := included;
      var todo := added;
      while todo != {}
        invariant todo <= added && done == included + (added - todo)
        invariant TrackedAll(pool, done, updated, skip) && updated.Keys !! included + added
        invariant modified.Keys <= updated.Keys <= pool.ancestors.Keys
        decreases todo
      {
        var y :| y in todo;
        updated := UpdateDescendants(y, added, updated, done, skip, included);
        todo := todo - {y};
        assert done + {y} == included + (added - todo);
        done := done + {y};
      }
      assert done == included + added;
    }

    method UpdateDescendants(y: Tx, added: set<Tx>, modified: Modified, ghost done: set<Tx>, ghost skip: set<Tx>, ghost included: set<Tx>)
      returns (updated: Modified)
      requires pool.Valid() && y in pool.ancestors && TrackedAll(pool, done, modified, skip)
      requires y in added && y !in done && done <= skip && added <= skip && included <= done
      requires modified.Keys !! included + added && y !in included
      requires forall x <- included :: x in pool.ancestors && pool.ancestors[x] <= included
      ensures TrackedAll(pool, done + {y}, updated, skip) && updated.Keys !! included + added
      ensures modified.Keys <= updated.Keys <= pool.ancestors.Keys
    {
      hide Pool.AncestorsOk, Pool.NumbersOk, Pool.SumTotals, Pool.Package, Pool.Remaining, Tracked, TrackedAll, HalfTracked, Less;
      updated := modified;
      var todo := (set x | x in pool.ancestors && y in pool.ancestors[x]) - added;
      assert todo == DescendantsOf(pool, y) - added;
      HalfTrackedStart(pool, done, modified, skip, y, added);
      while todo != {}
        invariant todo <= DescendantsOf(pool, y) - added
        invariant HalfTracked(pool, done, updated, skip, y, todo) && updated.Keys !! included + added
        invariant modified.Keys <= updated.Keys
        decreases todo
      {
        var x :| x in todo;
        HalfTrackedStep(pool, done, updated, skip, y, todo, x);
        updated := Updated(pool, updated, x, y);
        todo := todo - {x};
      }
      HalfTrackedDone(pool, done, updated, skip, y);
      KnownKeys(pool, done + {y}, updated, skip);
    }

    method AddSorted(sorted: seq<Tx>)
      requires pool.Numbered() && Counted() && Addable(pool, inBlock, sorted)
      modifies this
      ensures Counted() && inBlock == old(inBlock) + Elements(sorted) && vtx == old(vtx) + sorted
    {
      hide Pool.Numbered, InOrder, Sum, Elements;
      ElementsNone(sorted);
      for i := 0 to |sorted|
        invariant Counted() && inBlock == old(inBlock) + Elements(sorted[..i]) && vtx == old(vtx) + sorted[..i]
      {
        ElementsStep(sorted, i);
        assert AddableAt(pool, old(inBlock), sorted, i);
        AddToBlock(sorted[i]);
      }
      assert sorted[..|sorted|] == sorted;
    }

    /** Adds what remains of the package of `iter`, ancestors first. */
    method AddPackage(iter: Tx, ghost package: set<Tx>) returns (sorted: seq<Tx>)
      requires pool.Valid() && Counted() && iter in pool.ancestors && package == pool.Remaining(iter, inBlock)
      modifies this
      ensures Counted() && inBlock == old(inBlock) + package && vtx == old(vtx) + sorted && Elements(sorted) == package
    {
      hide Pool.AncestorsOk, Pool.NumbersOk, Pool.SumTotals, InOrder, Sum, Addable;
      var unconfirmed := (pool.ancestors[iter] + {iter}) - inBlock;
      sorted := SortForBlock(unconfirmed);
      SortedAddable(pool, iter, inBlock, sorted);
      AddSorted(sorted);
    }

    predicate TestPackage(t: Totals)
      reads this
    {
      && blockWeight + WITNESS_SCALE_FACTOR * t.size < maxWeight
      && blockSigOps + t.sigops < MAX_BLOCK_SIGOPS_COST
    }

    /** Everything in the block is final, and carries no witness when those are not included. */
    ghost predicate Allowed()
      reads this
    {
      forall x <- inBlock :: x in pool.final && (includeWitness || x !in pool.segwit)
    }

    predicate TestPackageTransactions(package: set<Tx>) {
      forall x <- package :: x in pool.final && (includeWitness || x !in pool.segwit)
    }

    /** What holds at every turn of the loop in addPackageTxs. */
    ghost predicate Tracking(modified: Modified, failed: set<Tx>)
      requires pool.Numbered()
      reads this
    {
      && Counted() && WithinLimits() && Allowed()
      && modified.Keys !! inBlock && modified.Keys <= pool.ancestors.Keys
      && TrackedAll(pool, inBlock, modified, failed + inBlock)
    }

    /** Includes what remains of the package of `iter`, whose stored totals passed the test. */
    method Include(iter: Tx, t: Totals, modified: Modified, ghost failed: set<Tx>) returns (updated: Modified)
      requires pool.Valid() && Tracking(modified, failed)
      requires iter in pool.ancestors && iter !in inBlock
      requires AtLeast(t, pool.SumTotals(pool.Remaining(iter, inBlock))) && TestPackage(t)
      requires forall x <- pool.Remaining(iter, inBlock) :: x in pool.final && (includeWitness || x !in pool.segwit)
      modifies this
      ensures Tracking(updated, failed)
      ensures inBlock == old(inBlock) + pool.Remaining(iter, old(inBlock)) && iter in inBlock && old(vtx) <= vtx
      ensures old(blockWeight) <= blockWeight && old(blockSigOps) <= blockSigOps
      ensures modified.Keys <= updated.Keys + inBlock
    {
      hide Pool.AncestorsOk, Pool.NumbersOk, InOrder, Sum, TrackedAll, AtLeast, Tracked;
      ghost var before := inBlock;
      ghost var package := pool.Remaining(iter, inBlock);
      ClosedBlock(pool, vtx);
      FitsLimits(pool, inBlock, package, t);
      ErasedTracked(pool, inBlock, modified, failed + inBlock, package);
      var sorted := AddPackage(iter, package);
      var added := set x | x in sorted;
      assert added == package;
      assert failed + before + package == failed + inBlock;
      updated := UpdatePackagesForAdded(added, modified - added, before, failed + inBlock);
    }

    lemma TrackingErased(modified: Modified, failed: set<Tx>, iter: Tx)
      requires pool.Numbered() && Tracking(modified, failed)
      ensures Tracking(modified - {iter}, failed + {iter})
    {
      ErasedTracked(pool, inBlock, modified, failed + inBlock, {iter});
      assert failed + {iter} + inBlock == failed + inBlock + {iter};
    }

    lemma TrackingChosen(modified: Modified, failed: set<Tx>, iter: Tx)
      requires pool.Valid() && Tracking(modified, failed)
      requires iter in modified || iter in pool.ancestors
      ensures iter in pool.ancestors
      ensures AtLeast(pool.cached[iter], pool.SumTotals(pool.Remaining(iter, inBlock)))
      ensures iter in modified ==>
                && iter !in inBlock && AtLeast(modified[iter], pool.SumTotals(pool.Remaining(iter, inBlock)))
                && AtLeast(pool.cached[iter], modified[iter])
    {
      ChosenBounded(pool, inBlock, modified, failed + inBlock, iter);
    }

    /** The entry to evaluate next, from the modified set or the mempool order. */
    method Choose(mi: nat, modified: Modified) returns (iter: Tx, usingModified: bool, mi': nat)
      requires mi < |pool.order| || modified != map[]
      ensures usingModified ==> iter in modified && mi' == mi
      ensures !usingModified ==> mi < |pool.order| && iter == pool.order[mi] && mi' == mi + 1
    {
      var modifiedIsBetter: bool := *;
      if mi >= |pool.order| || (modified != map[] && modifiedIsBetter) {
        iter :| iter in modified;
        usingModified, mi' := true, mi;
      } else {
        iter, usingModified, mi' := pool.order[mi], false, mi + 1;
      }
    }

    /** `x` cannot join the block: its package holds a transaction that is not allowed in, or, going
        by the totals the mempool caches, it does not fit. */
    ghost predicate NoRoom(x: Tx)
      requires pool.Numbered()
      reads this
    {
      && x in pool.ancestors
      && (!TestPackage(pool.cached[x]) || !TestPackageTransactions(pool.Package(x)))
    }

    lemma NoRoomMeans(x: Tx)
      requires pool.Numbered() && Counted() && NoRoom(x)
      ensures LeftOut(pool, vtx, maxWeight, includeWitness, x)
    {
    }

    lemma RejectedNoRoom(x: Tx, t: Totals)
      requires pool.Numbered() && x in pool.ancestors && (t == pool.cached[x] || AtLeast(pool.cached[x], t))
      requires !TestPackage(t) || !TestPackageTransactions((pool.ancestors[x] + {x}) - inBlock)
      ensures NoRoom(x)
    {
    }

    /** The selection may stop here: the block is nearly full, or what is left of some package does not pay
        for its size. */
    ghost predicate MayStop()
      requires pool.Numbered()
      reads this
    {
      || blockWeight > maxWeight - 4000
      || exists x :: x in pool.ancestors && x !in inBlock && PaysTooLittle(pool, minFee, inBlock, x)
    }

    /** addPackageTxs: the block stays in dependency order and within the limits, all in it is final, the
        stored totals never understate, and unless an entry failed before they are exact. If it is not cut
        short, every transaction left out has no room. */
    method AddPackageTxs() returns (cutShort: bool, ghost modifiedLeft: Modified, ghost failedLeft: set<Tx>)
      requires pool.Valid() && Counted() && WithinLimits() && Allowed()
      modifies this
      ensures Tracking(modifiedLeft, failedLeft) && old(vtx) <= vtx
      ensures forall x <- vtx :: x in pool.final && (includeWitness || x !in pool.segwit)
      ensures cutShort ==> MayStop()
      ensures !cutShort ==> forall x <- pool.order :: x in inBlock || NoRoom(x)
    {
      hide *;
      OrderKnown(pool);
      var modified := Start();
      var failed: set<Tx> := {};
      ghost var rejected: set<Tx> := {};
      var mi: nat, consecutiveFailed := 0, 0;
      cutShort := false;
      while !cutShort && (mi < |pool.order| || modified != map[])
        invariant mi <= |pool.order| && Tracking(modified, failed) && old(vtx) <= vtx
        invariant failed <= rejected && forall x <- rejected :: NoRoom(x)
        invariant cutShort ==> MayStop()
        invariant forall k | 0 <= k < mi :: pool.order[k] in inBlock + modified.Keys + rejected
        decreases !cutShort, pool.ancestors.Keys - inBlock, |pool.order| - mi, modified.Keys
      {
        if mi < |pool.order| && (pool.order[mi] in modified || pool.order[mi] in inBlock || pool.order[mi] in failed) {
          mi := mi + 1;
          continue;
        }
        var iter, usingModified, mi' := Choose(mi, modified);
        TrackingChosen(modified, failed, iter);
        assert iter !in inBlock;
        var t := if usingModified then modified[iter] else pool.cached[iter];
        if t.fees < minFee(t.size) {
          TooLittle(modified, failed, iter, t);
          cutShort := true;
        } else if !TestPackage(t) || !TestPackageTransactions((pool.ancestors[iter] + {iter}) - inBlock) {
          RejectedNoRoom(iter, t);
          rejected := rejected + {iter};
          if !TestPackage(t) {
            consecutiveFailed := consecutiveFailed + 1;
            cutShort := consecutiveFailed > MAX_CONSECUTIVE_FAILURES && blockWeight > maxWeight - 4000;
            NearlyFull();
          }
          if usingModified {
            TrackingErased(modified, failed, iter);
            modified, failed := modified - {iter}, failed + {iter};
          }
          mi := mi';
        } else {
          consecutiveFailed := 0;
          AllFinal(iter);
          modified := IncludeNext(iter, t, modified, failed, rejected);
          mi := mi';
        }
      }
      modifiedLeft, failedLeft := modified, failed;
      TrackingAllowed(modified, failed);
    }

    lemma NearlyFull()
      requires pool.Numbered()
      ensures blockWeight > maxWeight - 4000 ==> MayStop()
    {
    }

    lemma AllFinal(iter: Tx)
      requires pool.Numbered() && iter in pool.ancestors
      requires TestPackageTransactions((pool.ancestors[iter] + {iter}) - inBlock)
      ensures forall x <- pool.Remaining(iter, inBlock) :: x in pool.final && (includeWitness || x !in pool.segwit)
    {
    }

    lemma TrackingAllowed(modified: Modified, failed: set<Tx>)
      requires pool.Numbered() && Tracking(modified, failed)
      ensures forall x <- vtx :: x in pool.final && (includeWitness || x !in pool.segwit)
    {
    }

    lemma TooLittle(modified: Modified, failed: set<Tx>, x: Tx, t: Totals)
      requires pool.Valid() && Tracking(modified, failed) && x in pool.ancestors && x !in inBlock
      requires t == pool.cached[x] || (x in modified && t == modified[x])
      requires t.fees < minFee(t.size)
      ensures MayStop()
    {
      hide Pool.AncestorsOk, Pool.NumbersOk, InOrder, Sum, Pool.FeeFloor;
      assert Tracked(pool, inBlock, modified, failed + inBlock, x);
      CachedAtLeast(pool, x, inBlock);
      FloorBelow(pool, inBlock, x);
      assert PaysTooLittle(pool, minFee, inBlock, x);
    }

    method Start() returns (modified: Modified)
      requires pool.Valid() && Counted() && WithinLimits() && Allowed()
      ensures Tracking(modified, {})
    {
      hide Pool.AncestorsOk, Pool.NumbersOk, InOrder, Sum, TrackedAll, Tracked, Pool.SumTotals;
      EmptyTracked(pool, inBlock);
      modified := UpdatePackagesForAdded(inBlock, map[], {}, inBlock);
      assert {} + inBlock == inBlock;
    }

    /** Include, with what it means for the transactions already considered. */
    method IncludeNext(iter: Tx, t: Totals, modified: Modified, ghost failed: set<Tx>, ghost rejected: set<Tx>)
      returns (updated: Modified)
      requires pool.Valid() && Tracking(modified, failed)
      requires iter in pool.ancestors && iter !in inBlock
      requires AtLeast(t, pool.SumTotals(pool.Remaining(iter, inBlock))) && TestPackage(t)
      requires forall x <- pool.Remaining(iter, inBlock) :: x in pool.final && (includeWitness || x !in pool.segwit)
      requires forall x <- rejected :: NoRoom(x)
      modifies this
      ensures Tracking(updated, failed) && iter in inBlock && old(inBlock) <= inBlock && old(vtx) <= vtx
      ensures modified.Keys + old(inBlock) <= updated.Keys + inBlock
      ensures forall x <- rejected :: NoRoom(x)
    {
      updated := Include(iter, t, modified, failed);
    }
  }

  /** The transaction selection of CreateNewBlock: no duplicates, every in-mempool ancestor earlier,
      and weight and sigop cost, with what is reserved for the coinbase, within the limits. */
  method SelectTransactions(pool: Pool, maxWeight: nat, minFee: int -> int, includeWitness: bool)
    returns (vtx: seq<Tx>, cutShort: bool)
    requires pool.Valid()
    ensures InOrder(pool, vtx) && Elements(vtx) <= pool.ancestors.Keys
    ensures 4000 + Sum(pool.weight, Elements(vtx)) <= 4000000 - 4000
    ensures vtx != [] ==> 4000 + Sum(pool.weight, Elements(vtx)) < ClampedWeight(maxWeight)
    ensures 400 + Sum(pool.sigops, Elements(vtx)) < 80000
    ensures forall x <- vtx :: x in pool.final && (includeWitness || x !in pool.segwit)
    ensures !cutShort ==> forall x <- pool.order :: x in vtx || LeftOut(pool, vtx, ClampedWeight(maxWeight), includeWitness, x)
    ensures cutShort ==>
              || COINBASE_WEIGHT + Sum(pool.weight, Elements(vtx)) > ClampedWeight(maxWeight) - 4000
              || exists x :: x in pool.ancestors && x !in vtx && PaysTooLittle(pool, minFee, Elements(vtx), x)
  {
    hide InOrder, TrackedAll, Tracked, LeftOut, BlockAssembler.NoRoom, ClampedWeight, Pool.Valid, Pool.Numbered, PaysTooLittle;
    OrderKnown(pool);
    Clamped(maxWeight);
    var assembler := new BlockAssembler(pool, maxWeight, minFee, includeWitness);
    ghost var modified, failed;
    cutShort, modified, failed := assembler.AddPackageTxs();
    vtx := assembler.vtx;
    assert assembler.inBlock == Elements(vtx);
    if !cutShort {
      forall x <- pool.order ensures x in vtx || LeftOut(pool, vtx, ClampedWeight(maxWeight), includeWitness, x) {
        if x !in vtx {
          assert x !in assembler.inBlock;
          assembler.NoRoomMeans(x);
        }
      }
    }
  }
}
