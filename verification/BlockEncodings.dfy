/** Compact blocks (src/blockencodings.h, src/blockencodings.cpp; sections "HeaderAndShortIDs" and
    "BlockTransactionsRequest" of BIP 152): the differential encoding of index lists, the placing of
    prefilled transactions and short ids, and the reconstruction of a block.

    Short ids are the values of a function on transaction hashes. How entries spread over the buckets
    of the hash map is a parameter that can only lead to a failure. */
module BlockEncodings {
  import opened Basics

  const INDEX_LIMIT: nat := 0x1_0000

  type Index = n: nat | n < INDEX_LIMIT witness 0

  //////////////////////////////////////////////////////////////////////////////
  // Differential indexes
  //////////////////////////////////////////////////////////////////////////////

  ghost predicate Increasing(s: seq<nat>) {
    forall i | 0 < i < |s| :: s[i - 1] < s[i]
  }

  /** What is written for each index: the distance from the one before. A negative distance is a large
      64-bit number. */
  function Difference(indexes: seq<Index>, i: nat): nat
    requires i < |indexes|
  {
    (indexes[i] as int - (if i == 0 then 0 else indexes[i - 1] as int + 1)) % 0x1_0000_0000_0000_0000
  }

  method EncodeIndexes(indexes: seq<Index>) returns (diffs: seq<nat>)
    ensures |diffs| == |indexes| && forall i | 0 <= i < |diffs| :: diffs[i] == Difference(indexes, i)
  {
    diffs := [];
    for i := 0 to |indexes|
      invariant |diffs| == i && forall j | 0 <= j < i :: diffs[j] == Difference(indexes, j)
    {
      diffs := diffs + [Difference(indexes, i)];
    }
  }

  /** The indexes of a list of differences, as far as they are below the limit: the running offset is a
      16-bit number. */
  ghost function Sums(diffs: seq<nat>): (r: Option<seq<Index>>)
    ensures r.Some? ==> |r.value| == |diffs|
  {
    if diffs == [] then Some([]) else More(Sums(diffs[..|diffs| - 1]), diffs[|diffs| - 1])
  }

  function Offset(before: seq<Index>): Index {
    if before == [] then 0 else (before[|before| - 1] + 1) % INDEX_LIMIT
  }

  ghost function More(before: Option<seq<Index>>, d: nat): (r: Option<seq<Index>>)
    ensures r.Some? ==> before.Some? && |r.value| == |before.value| + 1
  {
    if before == None || d + Offset(before.value) >= INDEX_LIMIT then None
    else Some(before.value + [d + Offset(before.value)])
  }

  lemma SumsNext(diffs: seq<nat>, j: nat)
    requires j < |diffs|
    ensures Sums(diffs[..j + 1]) == More(Sums(diffs[..j]), diffs[j])
  {
    assert diffs[..j + 1][..j] == diffs[..j];
  }

  method DecodeIndexes(diffs: seq<nat>) returns (r: Option<seq<Index>>)
    ensures r == Sums(diffs)
  {
    for i := 0 to |diffs|
      invariant forall j | 0 <= j < i :: diffs[j] < INDEX_LIMIT
    {
      if diffs[i] >= INDEX_LIMIT {
        TooLarge(diffs, i);
        return None;
      }
    }
    hide Sums;
    var indexes: seq<Index> := [];
    SumsNone();
    var offset: Index := 0;
    assert diffs[..0] == [];
    for j := 0 to |diffs|
      invariant Sums(diffs[..j]) == Some(indexes)
      invariant offset == Offset(indexes)
    {
      SumsNext(diffs, j);
      if diffs[j] + offset >= INDEX_LIMIT {
        NoSums(diffs, j + 1);
        return None;
      }
      indexes := indexes + [diffs[j] + offset];
      offset := (indexes[j] + 1) % INDEX_LIMIT;
    }
    assert diffs[..|diffs|] == diffs;
    return Some(indexes);
  }

  lemma SumsNone()
    ensures Sums([]) == Some([])
  {
  }

  lemma {:induction false} NoSums(diffs: seq<nat>, n: nat)
    requires n <= |diffs| && Sums(diffs[..n]) == None
    ensures Sums(diffs) == None
  {
    if n == |diffs| {
      assert diffs[..n] == diffs;
    } else {
      assert diffs[..|diffs| - 1][..n] == diffs[..n];
      NoSums(diffs[..|diffs| - 1], n);
    }
  }

  lemma TooLarge(diffs: seq<nat>, i: nat)
    requires i < |diffs| && diffs[i] >= INDEX_LIMIT
    ensures Sums(diffs) == None
  {
    SumsNext(diffs, i);
    NoSums(diffs, i + 1);
  }

  /** Every strictly increasing list survives the way through its differences. */
  lemma {:induction false} IndexesRoundTrip(indexes: seq<Index>, diffs: seq<nat>)
    requires Increasing(indexes)
    requires |diffs| == |indexes| && forall i | 0 <= i < |diffs| :: diffs[i] == Difference(indexes, i)
    ensures Sums(diffs) == Some(indexes)
  {
    hide Difference, Sums;
    if indexes == [] {
      SumsNone();
    } else {
      var n := |indexes| - 1;
      forall i | 0 <= i < n ensures diffs[..n][i] == Difference(indexes[..n], i) {
        DifferencePrefix(indexes, i, n);
      }
      IndexesRoundTrip(indexes[..n], diffs[..n]);
      assert indexes == indexes[..n] + [indexes[n]];
      assert diffs[..n + 1] == diffs;
      SumsNext(diffs, n);
      DifferencePlain(indexes, n);
    }
  }

  lemma DifferencePrefix(indexes: seq<Index>, i: nat, n: nat)
    requires i < n <= |indexes|
    ensures Difference(indexes[..n], i) == Difference(indexes, i)
  {
  }

  lemma DifferencePlain(indexes: seq<Index>, i: nat)
    requires i < |indexes| && (i > 0 ==> indexes[i - 1] < indexes[i])
    ensures Difference(indexes, i) + Offset(indexes[..i]) == indexes[i]
  {
  }

  /** A decoded list has as many indexes as differences, and is strictly increasing exactly if the highest
      index is not followed by another one. */
  lemma {:induction false} SumsIncreasing(diffs: seq<nat>)
    requires Sums(diffs).Some?
    ensures var r := Sums(diffs).value;
            && |r| == |diffs|
            && (Increasing(r) <==> forall i | 0 <= i < |r| - 1 :: r[i] != INDEX_LIMIT - 1)
  {
    if diffs != [] {
      var n := |diffs| - 1;
      SumsIncreasing(diffs[..n]);
      var before, r := Sums(diffs[..n]).value, Sums(diffs).value;
      assert r == before + [diffs[n] + Offset(before)];
      assert r[..n] == before;
      assert Increasing(r) <==> Increasing(before) && (n > 0 ==> r[n - 1] < r[n]) by {
        assert forall i | 0 <= i < n :: before[i] == r[i];
      }
      if n > 0 {
        assert r[n - 1] == before[n - 1];
        assert r[n - 1] < r[n] <==> r[n - 1] != INDEX_LIMIT - 1;
      }
    }
  }

  function Total(diffs: seq<nat>): nat {
    if diffs == [] then 0 else Total(diffs[..|diffs| - 1]) + diffs[|diffs| - 1]
  }

  /** While the list is increasing, its last index is the sum of the differences and of the steps between. */
  lemma {:induction false} SumsTotal(diffs: seq<nat>)
    requires diffs != [] && Sums(diffs).Some? && Increasing(Sums(diffs).value)
    ensures Sums(diffs).value[|diffs| - 1] == Total(diffs) + |diffs| - 1
  {
    var n := |diffs| - 1;
    var before, r := Sums(diffs[..n]).value, Sums(diffs).value;
    assert r == before + [diffs[n] + Offset(before)];
    if n > 0 {
      assert forall i | 0 <= i < n :: before[i] == r[i];
      SumsTotal(diffs[..n]);
      assert r[n - 1] < r[n];
    }
  }

  /** Exactly which differences are accepted and give an increasing list: those whose sum leaves room for
      the steps between the indexes. */
  lemma {:induction false} DecodedIncreasing(diffs: seq<nat>)
    ensures Sums(diffs).Some? && Increasing(Sums(diffs).value) <==> Total(diffs) + |diffs| <= INDEX_LIMIT
  {
    if diffs != [] {
      var n := |diffs| - 1;
      DecodedIncreasing(diffs[..n]);
      if Sums(diffs).Some? && Increasing(Sums(diffs).value) {
        SumsTotal(diffs);
      }
      if Total(diffs) + |diffs| <= INDEX_LIMIT {
        var before := Sums(diffs[..n]).value;
        if n > 0 {
          SumsTotal(diffs[..n]);
        }
        assert Sums(diffs).value == before + [diffs[n] + Offset(before)];
      }
    }
  }

  /** The offset starts again at zero after the highest index. */
  lemma OffsetWraps()
    ensures Sums([0xFFFF, 0]) == Some([0xFFFF, 0])
  {
    var d := [0xFFFF, 0];
    assert d[..0] == [] && d[..2] == d;
    SumsNext(d, 0);
    var none: seq<Index>, r: seq<Index> := [], [0xFFFF];
    assert none + r == r;
    assert Sums(d[..1]) == Some(r);
    SumsNext(d, 1);
    assert More(Some(r), 0) == Some(r + [0]) && r + [0] == [0xFFFF, 0];
  }

  //////////////////////////////////////////////////////////////////////////////
  // Messages
  //////////////////////////////////////////////////////////////////////////////

  /** A transaction is known by its witness hash. */
  datatype Tx = Tx(hash: nat, isNull: bool)

  /** The index is the distance from the prefilled transaction before. */
  datatype Prefilled = Prefilled(index: Index, tx: Tx)

  datatype CompactBlock = CompactBlock(headerNull: bool, shortIds: seq<nat>, prefilled: seq<Prefilled>)

  datatype Status = Ok | Invalid | Failed | CheckBlockFailed

  /** GetMaxBlockWeight() / MIN_SERIALIZABLE_TRANSACTION_WEIGHT */
  const MAX_TRANSACTIONS: nat := 4000000 / 40

  function TxCount(m: CompactBlock): nat {
    |m.shortIds| + |m.prefilled|
  }

  /** The place of the last of the first `n` prefilled transactions. */
  function Place(prefilled: seq<Prefilled>, n: nat): (p: int)
    requires n <= |prefilled|
    ensures p >= n - 1
  {
    if n == 0 then -1 else Place(prefilled, n - 1) + prefilled[n - 1].index + 1
  }

  /** No prefilled transaction is null or goes past the end of what is accounted for. */
  ghost predicate WellPlaced(m: CompactBlock, n: nat)
    requires n <= |m.prefilled|
  {
    forall i | 0 <= i < n :: PlacedAt(m, i)
  }

  ghost predicate PlacedAt(m: CompactBlock, i: nat)
    requires i < |m.prefilled|
  {
    && !m.prefilled[i].tx.isNull
    && Place(m.prefilled, i + 1) < INDEX_LIMIT
    && Place(m.prefilled, i + 1) <= |m.shortIds| + i
  }

  /** The block with the first `n` prefilled transactions in place. */
  ghost function Laid(m: CompactBlock, n: nat): (r: seq<Option<Tx>>)
    requires n <= |m.prefilled| && WellPlaced(m, n)
    ensures |r| == TxCount(m)
    ensures forall p | Place(m.prefilled, n) < p < |r| :: r[p] == None
  {
    if n == 0 then seq(TxCount(m), _ => None)
    else
      assert PlacedAt(m, n - 1);
      Laid(m, n - 1)[Place(m.prefilled, n) := Some(m.prefilled[n - 1].tx)]
  }

  /** The open places among the first `n`. */
  ghost function Open(s: seq<Option<Tx>>, n: nat): (r: seq<nat>)
    requires n <= |s|
    ensures |r| <= n
  {
    if n == 0 then []
    else if s[n - 1] == None then Open(s, n - 1) + [n - 1]
    else Open(s, n - 1)
  }

  /** They are in ascending order, and are all there are. */
  lemma {:induction false} OpenFacts(s: seq<Option<Tx>>, n: nat)
    requires n <= |s|
    ensures var r := Open(s, n);
            && (forall i | 0 <= i < |r| :: r[i] < n && s[r[i]] == None)
            && (forall i, j | 0 <= i < j < |r| :: r[i] < r[j])
            && (forall p | 0 <= p < n && s[p] == None :: p in r)
  {
    if n > 0 {
      OpenFacts(s, n - 1);
      hide Open;
      OpenNext(s, n - 1);
      var before, r := Open(s, n - 1), Open(s, n);
      forall i | 0 <= i < |r| ensures r[i] < n && s[r[i]] == None {
        if i < |before| {
          assert r[i] == before[i];
        }
      }
      forall p | 0 <= p < n && s[p] == None ensures p in r {
        if p < n - 1 {
          assert p in before;
        }
      }
    }
  }

  lemma {:induction false} OpenPrefix(s: seq<Option<Tx>>, n: nat, k: nat)
    requires k <= n <= |s|
    ensures Open(s, k) <= Open(s, n)
  {
    if k < n {
      OpenPrefix(s, n - 1, k);
    }
  }

  /** Among more places there are at most as many more open ones. */
  lemma {:induction false} OpenGrowth(s: seq<Option<Tx>>, n: nat, k: nat)
    requires k <= n <= |s|
    ensures |Open(s, k)| <= |Open(s, n)| <= |Open(s, k)| + n - k
  {
    if k < n {
      OpenGrowth(s, n - 1, k);
    }
  }

  /** Before the open place number `i` there are `i` open places, and none since the one before. */
  lemma OpenBefore(s: seq<Option<Tx>>, i: nat)
    requires i < |Open(s, |s|)|
    ensures var open := Open(s, |s|);
            && i <= open[i] < |s| && s[open[i]] == None && |Open(s, open[i])| == i
            && (forall q | (if i == 0 then 0 else open[i - 1] + 1) <= q < open[i] :: s[q].Some?)
  {
    hide Open;
    var open := Open(s, |s|);
    OpenFacts(s, |s|);
    var p := open[i];
    OpenFacts(s, p);
    OpenPrefix(s, |s|, p);
    OpenPrefix(s, |s|, p + 1);
    OpenNext(s, p);
    var l := |Open(s, p)|;
    assert open[l] == Open(s, p + 1)[l] == p;
    OpenGrowth(s, p, 0);
    NoneOpen(s);
    forall q | (if i == 0 then 0 else open[i - 1] + 1) <= q < p ensures s[q].Some? {
      NotBetween(open, i, q);
    }
  }

  lemma NotBetween(open: seq<nat>, i: nat, q: nat)
    requires i < |open| && forall j, k | 0 <= j < k < |open| :: open[j] < open[k]
    requires (if i == 0 then 0 else open[i - 1] + 1) <= q < open[i]
    ensures q !in open
  {
    forall j | 0 <= j < |open| ensures open[j] != q {
      assert j < i ==> open[j] <= open[i - 1];
      assert j >= i ==> open[j] >= open[i];
    }
  }

  lemma OpenNext(s: seq<Option<Tx>>, n: nat)
    requires n < |s|
    ensures s[n].Some? ==> Open(s, n + 1) == Open(s, n)
    ensures s[n].None? ==> Open(s, n + 1) == Open(s, n) + [n]
  {
  }

  /** Prefilled transactions and short ids are as many as there are places: there is one open place for
      each short id. */
  lemma {:induction false} OpenCount(m: CompactBlock, n: nat)
    requires n <= |m.prefilled| && WellPlaced(m, n)
    ensures |Open(Laid(m, n), TxCount(m))| == TxCount(m) - n
  {
    if n == 0 {
      AllOpen(Laid(m, 0), TxCount(m));
    } else {
      OpenCount(m, n - 1);
      assert PlacedAt(m, n - 1);
      OpenTaken(Laid(m, n - 1), Place(m.prefilled, n), m.prefilled[n - 1].tx, TxCount(m));
    }
  }

  /** A place as the 16-bit number it is stored as. */
  function Stored(p: nat): nat {
    p % INDEX_LIMIT
  }

  /** The places of the short ids are stored as 16-bit numbers. They keep their values exactly in blocks
      of at most 65536 transactions: the last place of a larger one is always open. */
  lemma PlacesFit(m: CompactBlock)
    requires WellPlaced(m, |m.prefilled|)
    ensures (forall p | p in Open(Laid(m, |m.prefilled|), TxCount(m)) :: Stored(p) == p) <==> TxCount(m) <= INDEX_LIMIT
  {
    hide Open;
    var n, laid := TxCount(m), Laid(m, |m.prefilled|);
    OpenFacts(laid, n);
    if n > INDEX_LIMIT {
      assert m.prefilled != [] ==> PlacedAt(m, |m.prefilled| - 1);
      assert laid[n - 1] == None;
      assert n - 1 in Open(laid, n) && Stored(n - 1) != n - 1;
    } else {
      forall p <- Open(laid, n) ensures Stored(p) == p {
        var i :| 0 <= i < |Open(laid, n)| && Open(laid, n)[i] == p;
      }
    }
  }

  lemma {:induction false} AllOpen(s: seq<Option<Tx>>, n: nat)
    requires n <= |s| && forall p | 0 <= p < |s| :: s[p] == None
    ensures |Open(s, n)| == n
  {
    if n > 0 {
      AllOpen(s, n - 1);
    }
  }

  lemma {:induction false} OpenTaken(s: seq<Option<Tx>>, p: nat, tx: Tx, n: nat)
    requires n <= |s| && p < |s| && s[p] == None
    ensures |Open(s[p := Some(tx)], n)| == |Open(s, n)| - if p < n then 1 else 0
  {
    if n > 0 {
      OpenTaken(s, p, tx, n - 1);
    }
  }

  //////////////////////////////////////////////////////////////////////////////
  // The search for open places
  //////////////////////////////////////////////////////////////////////////////

  /** The place looked at after `n` steps of the 16-bit offset. */
  function Probe(i: nat, from: Index, n: int): nat {
    i + (from + n) % INDEX_LIMIT
  }

  /** The loop for short id `i` ends after `n` steps, and looks at no place outside the block. */
  ghost predicate EndsAfter(s: seq<Option<Tx>>, i: nat, from: Index, n: int) {
    && n >= 0 && Probe(i, from, n) < |s| && s[Probe(i, from, n)] == None
    && forall k | 0 <= k < n :: Probe(i, from, k) < |s| && s[Probe(i, from, k)].Some?
  }

  ghost predicate Ends(s: seq<Option<Tx>>, i: nat, from: Index) {
    exists n :: EndsAfter(s, i, from, n)
  }

  /** The offset that the loop for short id `i` starts with: that of the one before. */
  ghost function From(open: seq<nat>, i: nat): Index
    requires i <= |open|
  {
    if i == 0 then 0 else (open[i - 1] - (i - 1)) % INDEX_LIMIT
  }

  ghost predicate MappingEnds(m: CompactBlock)
    requires WellPlaced(m, |m.prefilled|)
  {
    var laid := Laid(m, |m.prefilled|);
    var open := Open(laid, TxCount(m));
    |open| == |m.shortIds| && forall i | 0 <= i < |m.shortIds| :: Ends(laid, i, From(open, i))
  }

  /** All 16-bit places are taken, and there is something to place. */
  predicate NoPlaceLeft(m: CompactBlock) {
    |m.prefilled| == INDEX_LIMIT && m.shortIds != []
  }

  lemma {:induction false} PlaceSteps(prefilled: seq<Prefilled>, n: nat, k: nat)
    requires k <= n <= |prefilled|
    ensures Place(prefilled, n) - Place(prefilled, k) >= n - k
  {
    if k < n {
      PlaceSteps(prefilled, n - 1, k);
    }
  }

  /** With as many prefilled transactions as there are 16-bit numbers, each place below is taken. */
  lemma {:induction false} AllTaken(m: CompactBlock, n: nat)
    requires n <= |m.prefilled| == INDEX_LIMIT && WellPlaced(m, |m.prefilled|) && WellPlaced(m, n)
    ensures forall p | 0 <= p < n :: Laid(m, n)[p].Some?
  {
    if n > 0 {
      AllTaken(m, n - 1);
      PlaceSteps(m.prefilled, INDEX_LIMIT, n);
      assert PlacedAt(m, INDEX_LIMIT - 1) && PlacedAt(m, n - 1);
      assert Place(m.prefilled, n) == n - 1;
    }
  }

  /** At most all 16-bit numbers are places of prefilled transactions. */
  lemma PrefilledFit(m: CompactBlock)
    requires WellPlaced(m, |m.prefilled|)
    ensures |m.prefilled| <= INDEX_LIMIT
  {
    if m.prefilled != [] {
      assert PlacedAt(m, |m.prefilled| - 1);
    }
  }

  /** The open place number `i` is found by the 16-bit offset. */
  lemma SearchEnds(m: CompactBlock, i: nat)
    requires WellPlaced(m, |m.prefilled|) && |m.prefilled| < INDEX_LIMIT && i < |m.shortIds|
    ensures var laid := Laid(m, |m.prefilled|);
            var open := Open(laid, TxCount(m));
            |open| == |m.shortIds| && EndsAfter(laid, i, From(open, i), open[i] - i - From(open, i))
  {
    hide Laid, Open, WellPlaced, EndsAfter, From;
    var laid := Laid(m, |m.prefilled|);
    var open := Open(laid, TxCount(m));
    OpenCount(m, |m.prefilled|);
    OffsetBound(laid, i);
    if i > 0 {
      OffsetBound(laid, i - 1);
    }
    FromPlain(open, i);
    StepsEnd(laid, i, From(open, i), open[i]);
  }

  lemma FromPlain(open: seq<nat>, i: nat)
    requires i <= |open| && (i > 0 ==> 0 <= open[i - 1] - (i - 1) < INDEX_LIMIT)
    ensures From(open, i) == if i == 0 then 0 else open[i - 1] - (i - 1)
  {
  }

  lemma StepsEnd(s: seq<Option<Tx>>, i: nat, from: Index, p: nat)
    requires i + from <= p < |s| && s[p] == None && p - i < INDEX_LIMIT
    requires forall q | i + from <= q < p :: s[q].Some?
    ensures EndsAfter(s, i, from, p - i - from)
  {
    hide Probe;
    forall k | 0 <= k <= p - i - from ensures Probe(i, from, k) == i + from + k {
      ProbePlain(i, from, k);
    }
  }

  lemma ProbePlain(i: nat, from: Index, k: nat)
    requires from + k < INDEX_LIMIT
    ensures Probe(i, from, k) == i + from + k
  {
  }

  /** The offset of an open place is the number of taken places before it. */
  lemma OffsetBound(s: seq<Option<Tx>>, i: nat)
    requires i < |Open(s, |s|)|
    ensures var open := Open(s, |s|);
            && i <= open[i] < |s| && s[open[i]] == None
            && open[i] - i <= |s| - |open|
            && (forall q | (if i == 0 then 0 else open[i - 1] + 1) <= q < open[i] :: s[q].Some?)
            && (i > 0 ==> open[i - 1] < open[i])
  {
    hide Open;
    var open := Open(s, |s|);
    OpenBefore(s, i);
    OpenGrowth(s, |s|, open[i]);
    OpenFacts(s, |s|);
  }

  /** The search ends for every short id exactly if not all 16-bit places are taken. */
  lemma MappingEndsExact(m: CompactBlock)
    requires WellPlaced(m, |m.prefilled|)
    ensures MappingEnds(m) <==> !NoPlaceLeft(m)
  {
    hide Laid, Open, WellPlaced, EndsAfter;
    PrefilledFit(m);
    OpenCount(m, |m.prefilled|);
    var laid := Laid(m, |m.prefilled|);
    var open := Open(laid, TxCount(m));
    assert !NoPlaceLeft(m) && m.shortIds != [] ==> |m.prefilled| < INDEX_LIMIT;
    if NoPlaceLeft(m) {
      forall n ensures !EndsAfter(laid, 0, 0, n) {
        NeverEnds(m, n);
      }
      assert !Ends(laid, 0, From(open, 0));
    } else {
      forall i | 0 <= i < |m.shortIds| ensures Ends(laid, i, From(open, i)) {
        SearchEnds(m, i);
        assert EndsAfter(laid, i, From(open, i), open[i] - i - From(open, i));
      }
    }
  }

  /** However often the offset is stepped, the place is taken. */
  lemma NeverEnds(m: CompactBlock, n: int)
    requires WellPlaced(m, |m.prefilled|) && NoPlaceLeft(m)
    ensures !EndsAfter(Laid(m, |m.prefilled|), 0, 0, n)
    ensures Laid(m, |m.prefilled|)[Probe(0, 0, n)].Some?
  {
    hide WellPlaced, Laid;
    AllTaken(m, |m.prefilled|);
  }

  /** Such a message: one short id, and all 16-bit places prefilled. */
  ghost function FullMessage(): CompactBlock {
    CompactBlock(false, [0], seq(INDEX_LIMIT, _ => Prefilled(0, Tx(1, false))))
  }

  lemma {:induction false} PlaceZero(prefilled: seq<Prefilled>, n: nat)
    requires n <= |prefilled| && forall i | 0 <= i < |prefilled| :: prefilled[i].index == 0
    ensures Place(prefilled, n) == n - 1
  {
    if n > 0 {
      PlaceZero(prefilled, n - 1);
    }
  }

  /** It is accepted, and the search for the place of its short id does not end. */
  lemma SearchNeedNotEnd()
    ensures Acceptable(FullMessage()) && !MappingEnds(FullMessage())
  {
    hide Laid, MappingEnds, Place;
    var m := FullMessage();
    forall i | 0 <= i < |m.prefilled| ensures PlacedAt(m, i) {
      PlaceZero(m.prefilled, i + 1);
    }
    MappingEndsExact(m);
  }

  //////////////////////////////////////////////////////////////////////////////
  // Reconstruction
  //////////////////////////////////////////////////////////////////////////////

  /** Transactions of the memory pool or of the extra list, with the hashes they are listed under. */
  type Listing = seq<(nat, Tx)>

  type ShortId = nat -> nat

  ghost function IdSet(ids: seq<nat>, n: nat): set<nat>
    requires n <= |ids|
  {
    set i | 0 <= i < n :: ids[i]
  }

  ghost predicate NoDuplicates(ids: seq<nat>, n: nat)
    requires n <= |ids|
  {
    forall i, j | 0 <= i < j < n :: ids[i] != ids[j]
  }

  /** The ids are as many as their set exactly if there are no duplicates. */
  lemma {:induction false} IdSetSize(ids: seq<nat>, n: nat)
    requires n <= |ids|
    ensures |IdSet(ids, n)| <= n
    ensures |IdSet(ids, n)| == n <==> NoDuplicates(ids, n)
  {
    if n > 0 {
      IdSetSize(ids, n - 1);
      assert IdSet(ids, n) == IdSet(ids, n - 1) + {ids[n - 1]};
      assert ids[n - 1] in IdSet(ids, n - 1) <==> exists i :: 0 <= i < n - 1 && ids[i] == ids[n - 1];
    } else {
      assert IdSet(ids, 0) == {};
    }
  }

  /** Where each short id belongs, as the 16-bit number that is stored for it. */
  ghost predicate Located(ids: seq<nat>, places: seq<nat>, where: map<nat, nat>) {
    && |ids| == |places|
    && where.Keys == IdSet(ids, |ids|)
    && forall i | 0 <= i < |ids| :: ids[i] in where && where[ids[i]] == Stored(places[i])
  }

  /** What a search for transactions looks through, what is there before it, and where each short id belongs. */
  datatype Search = Search(shortId: ShortId, pool: Listing, extra: Listing, base: seq<Option<Tx>>, where: map<nat, nat>)
  {
    ghost predicate Ok() {
      forall id <- where :: where[id] < |base|
    }

    /** A transaction with this hash goes to the place `p`. */
    predicate Hits(hash: nat, p: nat) {
      shortId(hash) in where && where[shortId(hash)] == p
    }

    /** One of the first `n` listed transactions goes to the place `p`. */
    ghost predicate Listed(list: Listing, n: nat, p: nat)
      requires n <= |list|
    {
      exists j :: 0 <= j < n && Hits(list[j].0, p)
    }

    ghost predicate ListedAs(list: Listing, n: nat, p: nat, tx: Tx)
      requires n <= |list|
    {
      exists j :: 0 <= j < n && Hits(list[j].0, p) && list[j].1 == tx
    }

    /** Nothing listed is confused at a place: at most one entry of the pool goes there, and all entries of
        both lists that do are one transaction. */
    ghost predicate Unambiguous(p: nat) {
      && (forall i, j | 0 <= i < j < |pool| :: !(Hits(pool[i].0, p) && Hits(pool[j].0, p)))
      && (forall i, j | 0 <= i < |pool| && 0 <= j < |extra| && Hits(pool[i].0, p) && Hits(extra[j].0, p) ::
            pool[i].1.hash == extra[j].1.hash)
      && (forall i, j | 0 <= i < j < |extra| && Hits(extra[i].0, p) && Hits(extra[j].0, p) ::
            extra[i].1.hash == extra[j].1.hash)
    }
  }

  /** Of the first `k` entries of the pool at most one goes to the place `p`, and all entries seen that do are the
      transaction with this hash. */
  ghost predicate AgreeTo(c: Search, p: nat, k: nat, e: nat, hash: nat)
    requires k <= |c.pool| && e <= |c.extra|
  {
    && (forall i, j | 0 <= i < j < k :: !(c.Hits(c.pool[i].0, p) && c.Hits(c.pool[j].0, p)))
    && (forall i | 0 <= i < k && c.Hits(c.pool[i].0, p) :: c.pool[i].1.hash == hash)
    && (forall i | 0 <= i < e && c.Hits(c.extra[i].0, p) :: c.extra[i].1.hash == hash)
  }

  /** What is in each place when `k` entries of the pool and `e` of the extra list have been seen. */
  ghost predicate Searched(c: Search, avail: seq<Option<Tx>>, have: seq<bool>, k: nat, e: nat)
    requires k <= |c.pool| && e <= |c.extra|
  {
    && |avail| == |have| == |c.base|
    && (forall p | 0 <= p < |c.base| :: SearchedAt(c, p, avail[p], have[p], k, e))
  }

  ghost predicate SearchedAt(c: Search, p: nat, tx: Option<Tx>, have: bool, k: nat, e: nat)
    requires k <= |c.pool| && e <= |c.extra| && p < |c.base|
  {
    && (!have ==> tx == c.base[p])
    && (have <==> c.Listed(c.pool, k, p) || c.Listed(c.extra, e, p))
    && (have && tx.Some? ==> c.ListedAs(c.pool, k, p, tx.value) || c.ListedAs(c.extra, e, p, tx.value))
    && (c.Unambiguous(p) && have ==> tx.Some?)
    && (have && tx.Some? ==> AgreeTo(c, p, k, e, tx.value.hash))
  }

  /** One entry of the pool. */
  lemma SeenPool(c: Search, p: nat, tx: Option<Tx>, have: bool, k: nat)
    requires p < |c.base| && k < |c.pool| && SearchedAt(c, p, tx, have, k, 0)
    ensures var hit := c.Hits(c.pool[k].0, p);
            var tx' := if !hit then tx else AfterPool(have, c.pool[k].1);
            SearchedAt(c, p, tx', have || hit, k + 1, 0)
  {
    assert !c.Listed(c.extra, 0, p);
    if c.Hits(c.pool[k].0, p) {
      assert c.Listed(c.pool, k + 1, p) && c.ListedAs(c.pool, k + 1, p, c.pool[k].1);
      if c.Listed(c.pool, k, p) {
        assert !c.Unambiguous(p);
      }
    }
    assert c.Listed(c.pool, k, p) ==> c.Listed(c.pool, k + 1, p);
    assert tx.Some? && c.ListedAs(c.pool, k, p, tx.value) ==> c.ListedAs(c.pool, k + 1, p, tx.value);
  }

  /** One entry of the extra list. */
  lemma SeenExtra(c: Search, p: nat, tx: Option<Tx>, have: bool, k: nat, e: nat)
    requires p < |c.base| && k <= |c.pool| && e < |c.extra| && SearchedAt(c, p, tx, have, k, e)
    ensures var hit := c.Hits(c.extra[e].0, p);
            var tx' := if !hit then tx else AfterExtra(tx, have, c.extra[e].1);
            SearchedAt(c, p, tx', have || hit, k, e + 1)
  {
    if c.Hits(c.extra[e].0, p) {
      assert c.Listed(c.extra, e + 1, p) && c.ListedAs(c.extra, e + 1, p, c.extra[e].1);
    }
    assert c.Listed(c.extra, e, p) ==> c.Listed(c.extra, e + 1, p);
    assert tx.Some? && c.ListedAs(c.extra, e, p, tx.value) ==> c.ListedAs(c.extra, e + 1, p, tx.value);
  }

  /** The outcome of a pool entry for the place it goes to. */
  function AfterPool(have: bool, found: Tx): Option<Tx> {
    if !have then Some(found) else None
  }

  function AfterExtra(tx: Option<Tx>, have: bool, found: Tx): Option<Tx> {
    if !have then Some(found)
    else if tx.Some? && tx.value.hash != found.hash then None
    else tx
  }

  /** The places that have been filled from the lists and not emptied again. */
  ghost function Filled(avail: seq<Option<Tx>>, have: seq<bool>): set<nat>
    requires |avail| == |have|
  {
    set p: nat | p < |avail| && have[p] && avail[p].Some?
  }

  lemma FilledStep(avail: seq<Option<Tx>>, have: seq<bool>, p: nat, tx: Option<Tx>)
    requires |avail| == |have| && p < |avail|
    ensures var before, after := Filled(avail, have), Filled(avail[p := tx], have[p := true]);
            && after == (if tx.Some? then before + {p} else before - {p})
            && |after| == |before| + (if tx.Some? then 1 else 0) - (if have[p] && avail[p].Some? then 1 else 0)
  {
    var before, after := Filled(avail, have), Filled(avail[p := tx], have[p := true]);
    assert after == if tx.Some? then before + {p} else before - {p};
  }

  ghost function Image(where: map<nat, nat>, ids: set<nat>): set<nat>
    requires ids <= where.Keys
  {
    set id <- ids :: where[id]
  }

  lemma {:induction false} ImageSize(where: map<nat, nat>, ids: set<nat>)
    requires ids <= where.Keys
    ensures |Image(where, ids)| <= |ids|
    decreases ids
  {
    if ids == {} {
      assert Image(where, ids) == {};
    } else {
      var id :| id in ids;
      ImageSize(where, ids - {id});
      assert Image(where, ids) == Image(where, ids - {id}) + {where[id]};
    }
  }

  /** When as many places are filled as there are short ids, the place of each is. */
  lemma AllFilled(c: Search, avail: seq<Option<Tx>>, have: seq<bool>, k: nat, e: nat)
    requires k <= |c.pool| && e <= |c.extra| && Searched(c, avail, have, k, e) && c.Ok()
    requires |Filled(avail, have)| == |c.where|
    ensures forall id <- c.where :: have[c.where[id]] && avail[c.where[id]].Some?
  {
    var filled, image := Filled(avail, have), Image(c.where, c.where.Keys);
    ImageSize(c.where, c.where.Keys);
    forall p <- filled ensures p in image {
      assert SearchedAt(c, p, avail[p], have[p], k, e);
    }
    SubsetSize(filled, image);
    forall id <- c.where ensures c.where[id] in filled {
      assert c.where[id] in image;
    }
  }

  lemma SubsetSize(a: set<nat>, b: set<nat>)
    requires a <= b && |b| <= |a|
    ensures a == b
  {
    assert b == a + (b - a);
  }

  class PartiallyDownloadedBlock {
    var headerNull: bool
    var txnAvailable: seq<Option<Tx>>
    var prefilledCount: nat
    var mempoolCount: nat

    constructor ()
      ensures headerNull && txnAvailable == [] && mempoolCount == 0
    {
      headerNull, txnAvailable, prefilledCount, mempoolCount := true, [], 0, 0;
    }

    /** Puts the prefilled transactions in their places. */
    method PlacePrefilled(m: CompactBlock) returns (ok: bool)
      modifies this`txnAvailable
      ensures ok <==> WellPlaced(m, |m.prefilled|)
      ensures ok ==> txnAvailable == Laid(m, |m.prefilled|)
    {
      txnAvailable := seq(TxCount(m), _ => None);
      var last := -1;
      for i := 0 to |m.prefilled|
        invariant WellPlaced(m, i) && txnAvailable == Laid(m, i)
        invariant last == Place(m.prefilled, i)
      {
        if m.prefilled[i].tx.isNull {
          assert !PlacedAt(m, i);
          return false;
        }
        last := last + m.prefilled[i].index + 1;
        if last >= INDEX_LIMIT {
          assert !PlacedAt(m, i);
          return false;
        }
        if last > |m.shortIds| + i {
          assert !PlacedAt(m, i);
          return false;
        }
        assert PlacedAt(m, i);
        txnAvailable := txnAvailable[last := Some(m.prefilled[i].tx)];
      }
      return true;
    }

    /** Moves the 16-bit offset on to the next open place. With fewer taken places than 16-bit numbers it
        does not wrap. */
    method SkipTaken(i: nat, from: Index) returns (offset: Index)
      requires i + from <= |txnAvailable| && |Open(txnAvailable, i + from)| == i
      requires i < |Open(txnAvailable, |txnAvailable|)|
      requires |txnAvailable| - |Open(txnAvailable, |txnAvailable|)| < INDEX_LIMIT
      ensures from <= offset && i + offset < |txnAvailable|
      ensures i + offset == Open(txnAvailable, |txnAvailable|)[i]
      ensures |Open(txnAvailable, i + offset + 1)| == i + 1
      ensures EndsAfter(txnAvailable, i, from, offset - from)
    {
      hide Open;
      ghost var s := txnAvailable;
      offset := from;
      SearchStep(s, i, offset);
      while txnAvailable[i + offset].Some?
        invariant from <= offset && i + offset < |s| && |Open(s, i + offset)| == i
        invariant forall k | 0 <= k < offset - from :: Probe(i, from, k) < |s| && s[Probe(i, from, k)].Some?
        decreases |s| - offset
      {
        SearchStep(s, i, offset);
        offset := (offset + 1) % INDEX_LIMIT;
        SearchStep(s, i, offset);
      }
      OpenNext(s, i + offset);
      OpenPrefix(s, |s|, i + offset + 1);
    }

    /** Gives the short ids the open places, in order, as 16-bit numbers. */
    method MapShortIds(m: CompactBlock, uneven: nat -> bool) returns (ok: bool, where: map<nat, nat>)
      requires WellPlaced(m, |m.prefilled|) && txnAvailable == Laid(m, |m.prefilled|)
      requires !NoPlaceLeft(m)
      ensures ok ==>
                && NoDuplicates(m.shortIds, |m.shortIds|)
                && Located(m.shortIds, Open(txnAvailable, TxCount(m)), where)
                && |where| == |m.shortIds|
      ensures !ok ==> !NoDuplicates(m.shortIds, |m.shortIds|) || exists i :: 0 <= i < |m.shortIds| && uneven(i)
    {
      hide Laid, WellPlaced, Open, LocatedUpTo, Located, NoDuplicates, Stored;
      OpenCount(m, |m.prefilled|);
      PrefilledFit(m);
      ghost var places := Open(txnAvailable, |txnAvailable|);
      where := map[];
      var offset: Index := 0;
      NoneOpen(txnAvailable);
      LocatedNone(m.shortIds, places);
      for i := 0 to |m.shortIds|
        invariant i + offset <= |txnAvailable| && |Open(txnAvailable, i + offset)| == i
        invariant LocatedUpTo(m.shortIds, places, where, i)
      {
        offset := SkipTaken(i, offset);
        LocatedNext(m.shortIds, places, where, i);
        where := where[m.shortIds[i] := Stored(i + offset)];
        if uneven(i) {
          return false, where;
        }
      }
      LocatedDone(m.shortIds, places, where);
      return |where| == |m.shortIds|, where;
    }

    /** Looks through the memory pool, until all places are filled. */
    method SearchPool(where: map<nat, nat>, ghost c: Search, shortId: ShortId, pool: Listing)
        returns (have: seq<bool>, ghost k: nat)
      requires c.Ok() && c.where == where
      requires c.shortId == shortId && c.pool == pool && txnAvailable == c.base && mempoolCount == 0
      modifies this`txnAvailable, this`mempoolCount
      ensures k <= |pool| && |have| == |c.base| == |txnAvailable|
      ensures Searched(c, txnAvailable, have, k, 0) && PoolDone(c, k)
      ensures mempoolCount == |Filled(txnAvailable, have)|
    {
      hide Searched, Filled;
      have := seq(|txnAvailable|, _ => false);
      SearchStart(c);
      var i := 0;
      while i < |pool|
        invariant 0 <= i <= |pool| && |txnAvailable| == |have| == |c.base|
        invariant Searched(c, txnAvailable, have, i, 0)
        invariant mempoolCount == |Filled(txnAvailable, have)|
      {
        var id := shortId(pool[i].0);
        if id in where {
          var p := where[id];
          PoolHit(c, txnAvailable, have, i, p);
          FilledStep(txnAvailable, have, p, AfterPool(have[p], pool[i].1));
          if !have[p] {
            txnAvailable := txnAvailable[p := Some(pool[i].1)];
            have := have[p := true];
            mempoolCount := mempoolCount + 1;
          } else {
            assert have[p := true] == have;
            if txnAvailable[p].Some? {
              txnAvailable := txnAvailable[p := None];
              mempoolCount := mempoolCount - 1;
            } else {
              assert txnAvailable[p := None] == txnAvailable;
            }
          }
        } else {
          PoolMiss(c, txnAvailable, have, i);
        }
        i := i + 1;
        if mempoolCount == |where| {
          AllFilled(c, txnAvailable, have, i, 0);
          PoolFilled(c, txnAvailable, have, i);
          return have, i;
        }
      }
      return have, i;
    }

    /** Looks through the extra transactions, until all places are filled. */
    method SearchExtra(where: map<nat, nat>, ghost c: Search, shortId: ShortId, extra: Listing, seen: seq<bool>, ghost k: nat)
      requires c.Ok() && c.where == where
      requires c.shortId == shortId && c.extra == extra
      requires k <= |c.pool| && |seen| == |c.base| == |txnAvailable|
      requires Searched(c, txnAvailable, seen, k, 0) && PoolDone(c, k)
      requires mempoolCount == |Filled(txnAvailable, seen)|
      modifies this`txnAvailable, this`mempoolCount
      ensures Found(c, txnAvailable)
    {
      hide Searched, Filled, Found;
      var have := seen;
      var i := 0;
      while i < |extra|
        invariant 0 <= i <= |extra| && |txnAvailable| == |have| == |c.base|
        invariant Searched(c, txnAvailable, have, k, i) && PoolDone(c, k)
        invariant mempoolCount == |Filled(txnAvailable, have)|
      {
        var id := shortId(extra[i].0);
        if id in where {
          var p := where[id];
          ExtraHit(c, txnAvailable, have, k, i, p);
          FilledStep(txnAvailable, have, p, AfterExtra(txnAvailable[p], have[p], extra[i].1));
          if !have[p] {
            txnAvailable := txnAvailable[p := Some(extra[i].1)];
            have := have[p := true];
            mempoolCount := mempoolCount + 1;
          } else {
            assert have[p := true] == have;
            if txnAvailable[p].Some? && txnAvailable[p].value.hash != extra[i].1.hash {
              txnAvailable := txnAvailable[p := None];
              mempoolCount := mempoolCount - 1;
            } else {
              assert txnAvailable[p := txnAvailable[p]] == txnAvailable;
            }
          }
        } else {
          ExtraMiss(c, txnAvailable, have, k, i);
        }
        i := i + 1;
        if mempoolCount == |where| {
          AllFilled(c, txnAvailable, have, k, i);
          SearchDone(c, txnAvailable, have, k, i);
          return;
        }
      }
      SearchDone(c, txnAvailable, have, k, i);
    }

    /** Every message for which the search for places ends. What is found is in the 16-bit places of the short
        ids; those are the right places in blocks of at most 65536 transactions. */
    method InitData(m: CompactBlock, shortId: ShortId, pool: Listing, extra: Listing, uneven: nat -> bool)
        returns (status: Status)
      requires headerNull && txnAvailable == [] && mempoolCount == 0
      requires Acceptable(m) ==> !NoPlaceLeft(m)
      modifies this
      ensures status == Invalid <==> !Acceptable(m)
      ensures status == Failed ==>
                !NoDuplicates(m.shortIds, |m.shortIds|) || exists i :: 0 <= i < |m.shortIds| && uneven(i)
      ensures status == Ok ==>
                && !headerNull && NoDuplicates(m.shortIds, |m.shortIds|)
                && Found(SearchFor(m, shortId, pool, extra), txnAvailable)
                && (TxCount(m) <= INDEX_LIMIT ==> FoundById(m, shortId, pool, extra, txnAvailable))
      ensures status in {Ok, Invalid, Failed}
    {
      hide WellPlaced, Laid, Open, Found, FoundById, Located, PoolDone, Searched, Filled, NoDuplicates;
      if m.headerNull || (|m.shortIds| == 0 && |m.prefilled| == 0) {
        return Invalid;
      }
      if |m.shortIds| + |m.prefilled| > MAX_TRANSACTIONS {
        return Invalid;
      }
      headerNull := m.headerNull;
      var ok := PlacePrefilled(m);
      if !ok {
        return Invalid;
      }
      prefilledCount := |m.prefilled|;
      var where;
      ok, where := MapShortIds(m, uneven);
      if !ok {
        return Failed;
      }
      SearchOk(m, shortId, pool, extra, where);
      ghost var c := SearchFor(m, shortId, pool, extra);
      var have;
      ghost var k;
      have, k := SearchPool(where, c, shortId, pool);
      SearchExtra(where, c, shortId, extra, have, k);
      if TxCount(m) <= INDEX_LIMIT {
        FoundInPlace(m, shortId, pool, extra, txnAvailable);
      }
      return Ok;
    }

    /** Puts the missing transactions into the open places, in order. */
    method FillBlock(missing: seq<Tx>, check: seq<Tx> -> Status) returns (status: Status, vtx: seq<Tx>)
      requires !headerNull
      modifies this
      ensures |missing| == |Open(old(txnAvailable), |old(txnAvailable)|)| ==>
                && vtx == Merged(old(txnAvailable), missing, |old(txnAvailable)|)
                && status == check(vtx) && headerNull
      ensures |missing| != |Open(old(txnAvailable), |old(txnAvailable)|)| ==> status == Invalid
    {
      hide Merged;
      vtx := [];
      var offset := 0;
      ghost var avail := txnAvailable;
      MergedNone(avail, missing);
      for i := 0 to |txnAvailable|
        invariant offset == |Open(avail, i)| <= |missing|
        invariant vtx == Merged(avail, missing, i)
        invariant |txnAvailable| == |avail|
        invariant forall j | i <= j < |avail| :: txnAvailable[j] == avail[j]
      {
        MergedNext(avail, missing, i);
        OpenPrefix(avail, |avail|, i + 1);
        if txnAvailable[i].None? {
          if |missing| <= offset {
            return Invalid, vtx;
          }
          vtx := vtx + [missing[offset]];
          offset := offset + 1;
        } else {
          vtx := vtx + [txnAvailable[i].value];
          txnAvailable := txnAvailable[i := None];
        }
      }
      headerNull := true;
      txnAvailable := [];
      if |missing| != offset {
        return Invalid, vtx;
      }
      status := check(vtx);
    }
  }

  /** One step of the search, which does not wrap. */
  lemma SearchStep(s: seq<Option<Tx>>, i: nat, offset: Index)
    requires i + offset <= |s| && |Open(s, i + offset)| == i < |Open(s, |s|)|
    requires |s| - |Open(s, |s|)| < INDEX_LIMIT
    ensures i + offset < |s|
    ensures s[i + offset].Some? ==> offset + 1 < INDEX_LIMIT && |Open(s, i + offset + 1)| == i
  {
    OpenGrowth(s, |s|, i + offset);
    if i + offset < |s| {
      OpenNext(s, i + offset);
      OpenGrowth(s, |s|, i + offset + 1);
    }
  }

  /** The message has a header and some transactions, not too many, and its prefilled ones are well placed. */
  ghost predicate Acceptable(m: CompactBlock) {
    && !m.headerNull && 0 < TxCount(m) <= MAX_TRANSACTIONS
    && WellPlaced(m, |m.prefilled|)
  }

  /** Each short id with the 16-bit number of its place. */
  ghost function WhereTo(ids: seq<nat>, places: seq<nat>, n: nat): (where: map<nat, nat>)
    requires n <= |ids| == |places|
  {
    if n == 0 then map[] else WhereTo(ids, places, n - 1)[ids[n - 1] := Stored(places[n - 1])]
  }

  lemma {:induction false} WhereToLocated(ids: seq<nat>, places: seq<nat>, n: nat)
    requires n <= |ids| == |places|
    ensures LocatedUpTo(ids, places, WhereTo(ids, places, n), n)
  {
    hide LocatedUpTo;
    if n == 0 {
      LocatedNone(ids, places);
    } else {
      WhereToLocated(ids, places, n - 1);
      LocatedNext(ids, places, WhereTo(ids, places, n - 1), n - 1);
    }
  }

  lemma LocatedUnique(ids: seq<nat>, places: seq<nat>, where: map<nat, nat>)
    requires NoDuplicates(ids, |ids|) && Located(ids, places, where)
    ensures where == WhereTo(ids, places, |ids|)
  {
    hide Stored, WhereTo;
    var to := WhereTo(ids, places, |ids|);
    WhereToLocated(ids, places, |ids|);
    assert where.Keys == to.Keys;
    forall id <- where ensures where[id] == to[id] {
      var i :| 0 <= i < |ids| && ids[i] == id;
    }
  }

  ghost function SearchFor(m: CompactBlock, shortId: ShortId, pool: Listing, extra: Listing): Search
    requires WellPlaced(m, |m.prefilled|) && NoDuplicates(m.shortIds, |m.shortIds|)
  {
    var base := Laid(m, |m.prefilled|);
    OpenCount(m, |m.prefilled|);
    Search(shortId, pool, extra, base, WhereTo(m.shortIds, Open(base, TxCount(m)), |m.shortIds|))
  }

  lemma SearchForParts(m: CompactBlock, shortId: ShortId, pool: Listing, extra: Listing)
    requires WellPlaced(m, |m.prefilled|) && NoDuplicates(m.shortIds, |m.shortIds|)
    ensures var c := SearchFor(m, shortId, pool, extra);
            && c.shortId == shortId && c.pool == pool && c.extra == extra && c.base == Laid(m, |m.prefilled|)
            && Located(m.shortIds, Open(c.base, TxCount(m)), c.where)
  {
    hide WellPlaced, Laid, Open, WhereTo, Stored;
    OpenCount(m, |m.prefilled|);
    WhereToLocated(m.shortIds, Open(Laid(m, |m.prefilled|), TxCount(m)), |m.shortIds|);
  }

  lemma StoredSmall(p: nat)
    ensures Stored(p) <= p && (p < INDEX_LIMIT ==> Stored(p) == p)
  {
  }

  /** A hit is stored for some short id. */
  lemma HitId(c: Search, ids: seq<nat>, places: seq<nat>, hash: nat, p: nat) returns (j: nat)
    requires Located(ids, places, c.where) && c.Hits(hash, p)
    ensures j < |ids| && ids[j] == c.shortId(hash) && p == Stored(places[j])
  {
    hide Stored;
    assert c.shortId(hash) in IdSet(ids, |ids|);
    j :| 0 <= j < |ids| && ids[j] == c.shortId(hash);
  }

  /** Stored places are within the block. */
  lemma SearchOk(m: CompactBlock, shortId: ShortId, pool: Listing, extra: Listing, where: map<nat, nat>)
    requires WellPlaced(m, |m.prefilled|) && NoDuplicates(m.shortIds, |m.shortIds|)
    requires Located(m.shortIds, Open(Laid(m, |m.prefilled|), TxCount(m)), where)
    ensures SearchFor(m, shortId, pool, extra).Ok() && SearchFor(m, shortId, pool, extra).where == where
  {
    hide WellPlaced, Laid, Open, NoDuplicates, WhereTo, Stored, SearchFor;
    var c := SearchFor(m, shortId, pool, extra);
    var open := Open(Laid(m, |m.prefilled|), TxCount(m));
    SearchForParts(m, shortId, pool, extra);
    OpenFacts(Laid(m, |m.prefilled|), TxCount(m));
    LocatedUnique(m.shortIds, open, where);
    LocatedUnique(m.shortIds, open, c.where);
    forall id <- where ensures where[id] < TxCount(m) {
      var i :| 0 <= i < |m.shortIds| && m.shortIds[i] == id;
      StoredSmall(open[i]);
    }
  }

  /** The first `n` transactions, with the open places filled from the missing ones in order. */
  ghost function Merged(avail: seq<Option<Tx>>, missing: seq<Tx>, n: nat): (r: seq<Tx>)
    requires n <= |avail| && |Open(avail, n)| <= |missing|
    ensures |r| == n
  {
    if n == 0 then []
    else if avail[n - 1].Some? then Merged(avail, missing, n - 1) + [avail[n - 1].value]
    else Merged(avail, missing, n - 1) + [missing[|Open(avail, n - 1)|]]
  }

  lemma MergedNone(avail: seq<Option<Tx>>, missing: seq<Tx>)
    ensures Merged(avail, missing, 0) == []
  {
  }

  lemma MergedNext(avail: seq<Option<Tx>>, missing: seq<Tx>, i: nat)
    requires i < |avail| && |Open(avail, i)| <= |missing|
    ensures avail[i].Some? ==> Merged(avail, missing, i + 1) == Merged(avail, missing, i) + [avail[i].value]
    ensures avail[i].None? && |Open(avail, i)| < |missing| ==>
              Merged(avail, missing, i + 1) == Merged(avail, missing, i) + [missing[|Open(avail, i)|]]
  {
  }

  lemma NoneOpen(s: seq<Option<Tx>>)
    ensures Open(s, 0) == []
  {
  }

  /** Where the first `n` short ids belong; with duplicates, the last place counts. */
  ghost predicate LocatedUpTo(ids: seq<nat>, places: seq<nat>, where: map<nat, nat>, n: nat)
    requires |ids| == |places|
  {
    && n <= |ids| && where.Keys == IdSet(ids, n)
    && (NoDuplicates(ids, n) ==> forall j | 0 <= j < n :: ids[j] in where && where[ids[j]] == Stored(places[j]))
  }

  lemma LocatedNone(ids: seq<nat>, places: seq<nat>)
    requires |ids| == |places|
    ensures LocatedUpTo(ids, places, map[], 0)
  {
  }

  lemma LocatedNext(ids: seq<nat>, places: seq<nat>, where: map<nat, nat>, i: nat)
    requires |ids| == |places| && i < |ids| && LocatedUpTo(ids, places, where, i)
    ensures LocatedUpTo(ids, places, where[ids[i] := Stored(places[i])], i + 1)
  {
    assert IdSet(ids, i + 1) == IdSet(ids, i) + {ids[i]};
  }

  lemma LocatedDone(ids: seq<nat>, places: seq<nat>, where: map<nat, nat>)
    requires |ids| == |places| && LocatedUpTo(ids, places, where, |ids|)
    ensures |where| == |ids| <==> NoDuplicates(ids, |ids|)
    ensures |where| == |ids| ==> Located(ids, places, where)
  {
    IdSetSize(ids, |ids|);
    assert |where| == |where.Keys|;
  }

  /** Nothing has been seen yet. */
  lemma SearchStart(c: Search)
    ensures Searched(c, c.base, seq(|c.base|, _ => false), 0, 0)
    ensures |Filled(c.base, seq(|c.base|, _ => false))| == 0
  {
    var none := seq(|c.base|, _ => false);
    assert Filled(c.base, none) == {};
    forall p | 0 <= p < |c.base| ensures SearchedAt(c, p, c.base[p], none[p], 0, 0) {
      assert !c.Listed(c.pool, 0, p) && !c.Listed(c.extra, 0, p);
    }
  }

  lemma PoolMiss(c: Search, avail: seq<Option<Tx>>, have: seq<bool>, k: nat)
    requires k < |c.pool| && Searched(c, avail, have, k, 0)
    requires c.shortId(c.pool[k].0) !in c.where
    ensures Searched(c, avail, have, k + 1, 0)
  {
    hide SearchedAt;
    var next := k + 1;
    forall p | 0 <= p < |c.base| ensures SearchedAt(c, p, avail[p], have[p], next, 0) {
      SeenPool(c, p, avail[p], have[p], k);
    }
  }

  lemma PoolHit(c: Search, avail: seq<Option<Tx>>, have: seq<bool>, k: nat, p: nat)
    requires k < |c.pool| && Searched(c, avail, have, k, 0)
    requires p < |c.base| && c.Hits(c.pool[k].0, p)
    ensures Searched(c, avail[p := AfterPool(have[p], c.pool[k].1)], have[p := true], k + 1, 0)
  {
    hide SearchedAt, AfterPool;
    var a, h := avail[p := AfterPool(have[p], c.pool[k].1)], have[p := true];
    var next := k + 1;
    forall q | 0 <= q < |c.base| ensures SearchedAt(c, q, a[q], h[q], next, 0) {
      SeenPool(c, q, avail[q], have[q], k);
    }
  }

  lemma ExtraMiss(c: Search, avail: seq<Option<Tx>>, have: seq<bool>, k: nat, e: nat)
    requires k <= |c.pool| && e < |c.extra| && Searched(c, avail, have, k, e)
    requires c.shortId(c.extra[e].0) !in c.where
    ensures Searched(c, avail, have, k, e + 1)
  {
    hide SearchedAt;
    var next := e + 1;
    forall p | 0 <= p < |c.base| ensures SearchedAt(c, p, avail[p], have[p], k, next) {
      SeenExtra(c, p, avail[p], have[p], k, e);
    }
  }

  lemma ExtraHit(c: Search, avail: seq<Option<Tx>>, have: seq<bool>, k: nat, e: nat, p: nat)
    requires k <= |c.pool| && e < |c.extra| && Searched(c, avail, have, k, e)
    requires p < |c.base| && c.Hits(c.extra[e].0, p)
    ensures Searched(c, avail[p := AfterExtra(avail[p], have[p], c.extra[e].1)], have[p := true], k, e + 1)
  {
    hide SearchedAt, AfterExtra;
    var a, h := avail[p := AfterExtra(avail[p], have[p], c.extra[e].1)], have[p := true];
    var next := e + 1;
    forall q | 0 <= q < |c.base| ensures SearchedAt(c, q, a[q], h[q], k, next) {
      SeenExtra(c, q, avail[q], have[q], k, e);
    }
  }

  /** The whole pool was looked through, or something was found there for every short id. */
  ghost predicate PoolDone(c: Search, k: nat)
    requires k <= |c.pool|
  {
    k == |c.pool| || forall id <- c.where :: c.Listed(c.pool, k, c.where[id])
  }

  lemma PoolFilled(c: Search, avail: seq<Option<Tx>>, have: seq<bool>, k: nat)
    requires c.Ok() && k <= |c.pool| && Searched(c, avail, have, k, 0)
    requires forall id <- c.where :: have[c.where[id]]
    ensures PoolDone(c, k)
  {
    forall id <- c.where ensures c.Listed(c.pool, k, c.where[id]) {
      var p := c.where[id];
      assert SearchedAt(c, p, avail[p], have[p], k, 0);
      assert !c.Listed(c.extra, 0, p);
    }
  }

  /** What the reconstruction may rely on: where nothing listed goes nothing has changed, what is in another
      place is listed for it, and what is listed without ambiguity has been found. */
  ghost predicate Found(c: Search, avail: seq<Option<Tx>>) {
    && |avail| == |c.base|
    && (forall p | 0 <= p < |c.base| :: FoundAt(c, p, avail[p]))
    && exists k, e :: 0 <= k <= |c.pool| && 0 <= e <= |c.extra| && LookedThrough(c, avail, k, e)
  }

  /** `k` entries of the pool and `e` of the extra list were looked at, all of them unless something was found for every
      short id; and what is in a place then agrees with all that was seen for it. */
  ghost predicate LookedThrough(c: Search, avail: seq<Option<Tx>>, k: nat, e: nat)
    requires |avail| == |c.base| && k <= |c.pool| && e <= |c.extra|
  {
    && PoolDone(c, k)
    && (e == |c.extra| || forall id <- c.where :: c.where[id] < |avail| && avail[c.where[id]].Some?)
    && forall p | 0 <= p < |avail| && avail[p].Some? && (c.Listed(c.pool, k, p) || c.Listed(c.extra, e, p)) ::
         AgreeTo(c, p, k, e, avail[p].value.hash)
  }

  /** Two entries of the pool for one place leave it empty, to be asked for, whenever nothing is listed for some
      other short id, so that the search cannot stop early. */
  lemma DoubleEmpty(c: Search, avail: seq<Option<Tx>>, id: nat, p: nat, i: nat, j: nat)
    requires c.Ok() && Found(c, avail)
    requires id in c.where && c.base[c.where[id]] == None
    requires !c.Listed(c.pool, |c.pool|, c.where[id]) && !c.Listed(c.extra, |c.extra|, c.where[id])
    requires i < j < |c.pool| && p < |c.base| && c.Hits(c.pool[i].0, p) && c.Hits(c.pool[j].0, p)
    ensures avail[p] == None
  {
    hide FoundAt;
    var k, e :| 0 <= k <= |c.pool| && 0 <= e <= |c.extra| && LookedThrough(c, avail, k, e);
    assert FoundAt(c, c.where[id], avail[c.where[id]]);
    NothingThere(c, c.where[id], avail[c.where[id]]);
    ListedMore(c, k, c.where[id]);
    assert c.Listed(c.pool, |c.pool|, p);
  }

  lemma ListedMore(c: Search, k: nat, p: nat)
    requires k <= |c.pool|
    ensures c.Listed(c.pool, k, p) ==> c.Listed(c.pool, |c.pool|, p)
  {
  }

  lemma NothingThere(c: Search, p: nat, tx: Option<Tx>)
    requires p < |c.base| && FoundAt(c, p, tx)
    requires !c.Listed(c.pool, |c.pool|, p) && !c.Listed(c.extra, |c.extra|, p)
    ensures tx == c.base[p]
  {
  }

  ghost predicate FoundAt(c: Search, p: nat, tx: Option<Tx>)
    requires p < |c.base|
  {
    if c.Listed(c.pool, |c.pool|, p) || c.Listed(c.extra, |c.extra|, p) then
      && (tx.Some? ==> c.ListedAs(c.pool, |c.pool|, p, tx.value) || c.ListedAs(c.extra, |c.extra|, p, tx.value))
      && (c.Unambiguous(p) ==> tx.Some?)
    else tx == c.base[p]
  }

  lemma SearchDone(c: Search, avail: seq<Option<Tx>>, have: seq<bool>, k: nat, e: nat)
    requires c.Ok() && k <= |c.pool| && e <= |c.extra| && Searched(c, avail, have, k, e)
    requires PoolDone(c, k)
    requires e == |c.extra| || forall id <- c.where :: have[c.where[id]] && avail[c.where[id]].Some?
    ensures Found(c, avail)
  {
    hide SearchedAt, FoundAt;
    forall p | 0 <= p < |c.base| ensures FoundAt(c, p, avail[p]) {
      SearchDoneAt(c, p, avail[p], have[p], k, e);
    }
    SearchLooked(c, avail, have, k, e);
  }

  lemma SearchLooked(c: Search, avail: seq<Option<Tx>>, have: seq<bool>, k: nat, e: nat)
    requires c.Ok() && k <= |c.pool| && e <= |c.extra| && Searched(c, avail, have, k, e)
    requires PoolDone(c, k)
    requires e == |c.extra| || forall id <- c.where :: have[c.where[id]] && avail[c.where[id]].Some?
    ensures LookedThrough(c, avail, k, e)
  {
    hide AgreeTo;
    forall p | 0 <= p < |avail| && avail[p].Some? && (c.Listed(c.pool, k, p) || c.Listed(c.extra, e, p))
      ensures AgreeTo(c, p, k, e, avail[p].value.hash)
    {
      assert SearchedAt(c, p, avail[p], have[p], k, e);
    }
  }

  lemma SearchDoneAt(c: Search, p: nat, tx: Option<Tx>, have: bool, k: nat, e: nat)
    requires p < |c.base| && k <= |c.pool| && e <= |c.extra| && SearchedAt(c, p, tx, have, k, e)
    requires (exists id :: id in c.where && c.where[id] == p) ==>
               (k == |c.pool| || c.Listed(c.pool, k, p)) && (e == |c.extra| || (have && tx.Some?))
    ensures FoundAt(c, p, tx)
  {
    if tx.Some? {
      assert c.ListedAs(c.pool, k, p, tx.value) ==> c.ListedAs(c.pool, |c.pool|, p, tx.value);
      assert c.ListedAs(c.extra, e, p, tx.value) ==> c.ListedAs(c.extra, |c.extra|, p, tx.value);
    }
    assert c.Listed(c.pool, k, p) ==> c.Listed(c.pool, |c.pool|, p);
    assert c.Listed(c.extra, e, p) ==> c.Listed(c.extra, |c.extra|, p);
    if c.Listed(c.pool, |c.pool|, p) {
      var j :| 0 <= j < |c.pool| && c.Hits(c.pool[j].0, p);
      assert c.shortId(c.pool[j].0) in c.where;
    }
    if c.Listed(c.extra, |c.extra|, p) {
      var j :| 0 <= j < |c.extra| && c.Hits(c.extra[j].0, p);
      assert c.shortId(c.extra[j].0) in c.where;
    }
  }

  //////////////////////////////////////////////////////////////////////////////
  // Blocks of at most 65536 transactions
  //////////////////////////////////////////////////////////////////////////////

  /** A listed transaction has the short id `id`. */
  ghost predicate ListedUnder(shortId: ShortId, list: Listing, id: nat) {
    exists j :: 0 <= j < |list| && shortId(list[j].0) == id
  }

  ghost predicate ListedUnderAs(shortId: ShortId, list: Listing, id: nat, tx: Tx) {
    exists j :: 0 <= j < |list| && shortId(list[j].0) == id && list[j].1 == tx
  }

  /** At most one entry of the pool has the short id, and all entries of both lists that do are one transaction. */
  ghost predicate UnambiguousId(shortId: ShortId, pool: Listing, extra: Listing, id: nat) {
    && (forall i, j | 0 <= i < j < |pool| :: !(shortId(pool[i].0) == id && shortId(pool[j].0) == id))
    && (forall i, j | 0 <= i < |pool| && 0 <= j < |extra| && shortId(pool[i].0) == id && shortId(extra[j].0) == id ::
          pool[i].1.hash == extra[j].1.hash)
    && (forall i, j | 0 <= i < j < |extra| && shortId(extra[i].0) == id && shortId(extra[j].0) == id ::
          extra[i].1.hash == extra[j].1.hash)
  }

  /** The prefilled transactions are as they were, and each open place has what is listed under its short id. */
  ghost predicate FoundById(m: CompactBlock, shortId: ShortId, pool: Listing, extra: Listing, avail: seq<Option<Tx>>)
    requires WellPlaced(m, |m.prefilled|)
  {
    var laid := Laid(m, |m.prefilled|);
    var open := Open(laid, TxCount(m));
    && |avail| == TxCount(m) && |open| == |m.shortIds|
    && (forall p | 0 <= p < |avail| && laid[p].Some? :: avail[p] == laid[p])
    && forall i | 0 <= i < |open| :: open[i] < |avail| && FoundUnder(shortId, pool, extra, m.shortIds[i], avail[open[i]])
  }

  ghost predicate FoundUnder(shortId: ShortId, pool: Listing, extra: Listing, id: nat, tx: Option<Tx>) {
    && (tx.Some? ==> ListedUnderAs(shortId, pool, id, tx.value) || ListedUnderAs(shortId, extra, id, tx.value))
    && (ListedUnder(shortId, pool, id) || ListedUnder(shortId, extra, id) ==>
          UnambiguousId(shortId, pool, extra, id) ==> tx.Some?)
  }

  /** The open place number `i` gets exactly what has short id number `i`. */
  lemma HitsExact(m: CompactBlock, c: Search, i: nat, hash: nat)
    requires WellPlaced(m, |m.prefilled|) && NoDuplicates(m.shortIds, |m.shortIds|) && TxCount(m) <= INDEX_LIMIT
    requires c == SearchFor(m, c.shortId, c.pool, c.extra) && i < |m.shortIds|
    ensures |c.base| == TxCount(m)
    ensures var open := Open(c.base, TxCount(m));
            |open| == |m.shortIds| && (c.Hits(hash, open[i]) <==> c.shortId(hash) == m.shortIds[i])
  {
    hide WellPlaced, Laid, Open, NoDuplicates, SearchFor, Stored;
    SearchForParts(m, c.shortId, c.pool, c.extra);
    var open := Open(c.base, TxCount(m));
    OpenFacts(c.base, TxCount(m));
    HitsAt(c, m.shortIds, open, i, hash);
  }

  lemma HitsAt(c: Search, ids: seq<nat>, places: seq<nat>, i: nat, hash: nat)
    requires Located(ids, places, c.where) && i < |ids|
    requires forall j | 0 <= j < |places| :: places[j] < INDEX_LIMIT
    requires forall j, k | 0 <= j < k < |places| :: places[j] < places[k]
    ensures c.Hits(hash, places[i]) <==> c.shortId(hash) == ids[i]
  {
    hide Stored, IdSet;
    StoredSmall(places[i]);
    if c.Hits(hash, places[i]) {
      var j := HitId(c, ids, places, hash, places[i]);
      StoredSmall(places[j]);
    }
  }

  /** Nothing is stored for the place of a prefilled transaction. */
  lemma HitsOpen(m: CompactBlock, c: Search, p: nat, hash: nat)
    requires WellPlaced(m, |m.prefilled|) && NoDuplicates(m.shortIds, |m.shortIds|) && TxCount(m) <= INDEX_LIMIT
    requires c == SearchFor(m, c.shortId, c.pool, c.extra) && c.Hits(hash, p)
    ensures p < |c.base| && c.base[p] == None
  {
    hide WellPlaced, Laid, Open, NoDuplicates, SearchFor, Stored;
    SearchForParts(m, c.shortId, c.pool, c.extra);
    var open := Open(c.base, TxCount(m));
    OpenFacts(c.base, TxCount(m));
    var j := HitId(c, m.shortIds, open, hash, p);
    StoredSmall(open[j]);
  }

  lemma FoundInPlace(m: CompactBlock, shortId: ShortId, pool: Listing, extra: Listing, avail: seq<Option<Tx>>)
    requires WellPlaced(m, |m.prefilled|) && NoDuplicates(m.shortIds, |m.shortIds|) && TxCount(m) <= INDEX_LIMIT
    requires Found(SearchFor(m, shortId, pool, extra), avail)
    ensures FoundById(m, shortId, pool, extra, avail)
  {
    hide WellPlaced, Laid, Open, NoDuplicates, FoundAt, FoundUnder;
    var c := SearchFor(m, shortId, pool, extra);
    var open := Open(c.base, TxCount(m));
    OpenCount(m, |m.prefilled|);
    OpenFacts(c.base, TxCount(m));
    forall p | 0 <= p < |avail| && c.base[p].Some? ensures avail[p] == c.base[p] {
      PrefilledKept(m, c, p, avail[p]);
    }
    forall i | 0 <= i < |open| ensures FoundUnder(shortId, pool, extra, m.shortIds[i], avail[open[i]]) {
      FoundUnderId(m, c, i, avail[open[i]]);
    }
  }

  lemma PrefilledKept(m: CompactBlock, c: Search, p: nat, tx: Option<Tx>)
    requires WellPlaced(m, |m.prefilled|) && NoDuplicates(m.shortIds, |m.shortIds|) && TxCount(m) <= INDEX_LIMIT
    requires c == SearchFor(m, c.shortId, c.pool, c.extra) && p < |c.base| && c.base[p].Some? && FoundAt(c, p, tx)
    ensures tx == c.base[p]
  {
    hide WellPlaced, Laid, Open, NoDuplicates, SearchFor;
    if c.Listed(c.pool, |c.pool|, p) {
      var j :| 0 <= j < |c.pool| && c.Hits(c.pool[j].0, p);
      HitsOpen(m, c, p, c.pool[j].0);
    }
    if c.Listed(c.extra, |c.extra|, p) {
      var j :| 0 <= j < |c.extra| && c.Hits(c.extra[j].0, p);
      HitsOpen(m, c, p, c.extra[j].0);
    }
  }

  lemma FoundUnderId(m: CompactBlock, c: Search, i: nat, tx: Option<Tx>)
    requires WellPlaced(m, |m.prefilled|) && NoDuplicates(m.shortIds, |m.shortIds|) && TxCount(m) <= INDEX_LIMIT
    requires c == SearchFor(m, c.shortId, c.pool, c.extra) && i < |m.shortIds|
    requires |c.base| == TxCount(m)
    requires var open := Open(c.base, TxCount(m));
             |open| == |m.shortIds| && open[i] < |c.base| && c.base[open[i]] == None && FoundAt(c, open[i], tx)
    ensures FoundUnder(c.shortId, c.pool, c.extra, m.shortIds[i], tx)
  {
    hide WellPlaced, Laid, Open, NoDuplicates, SearchFor;
    SearchForParts(m, c.shortId, c.pool, c.extra);
    var p, id := Open(c.base, TxCount(m))[i], m.shortIds[i];
    forall hash: nat ensures c.Hits(hash, p) <==> c.shortId(hash) == id {
      HitsExact(m, c, i, hash);
    }
    SameListings(c, p, id, tx);
  }

  lemma SameListings(c: Search, p: nat, id: nat, tx: Option<Tx>)
    requires forall hash: nat :: c.Hits(hash, p) <==> c.shortId(hash) == id
    requires p < |c.base| && c.base[p] == None && FoundAt(c, p, tx)
    ensures FoundUnder(c.shortId, c.pool, c.extra, id, tx)
  {
  }

  //////////////////////////////////////////////////////////////////////////////
  // A block through its compact form
  //////////////////////////////////////////////////////////////////////////////

  /** The message that announces a block: the first transaction in full, the others by short id. */
  function Announce(block: seq<Tx>, shortId: ShortId): (m: CompactBlock)
    requires block != []
  {
    CompactBlock(false, seq<nat>(|block| - 1, i requires 0 <= i < |block| - 1 => shortId(block[i + 1].hash)),
                 [Prefilled(0, block[0])])
  }

  /** The message is about the block: the prefilled transactions are those of the block, and the short ids
      are those of the others in order. */
  ghost predicate Describes(m: CompactBlock, block: seq<Tx>, shortId: ShortId) {
    && |block| == TxCount(m) && WellPlaced(m, |m.prefilled|)
    && var base := Laid(m, |m.prefilled|);
       var places := Open(base, TxCount(m));
       && |places| == |m.shortIds|
       && (forall p | 0 <= p < |block| && base[p].Some? :: base[p].value == block[p])
       && (forall i | 0 <= i < |places| :: places[i] < |block| && m.shortIds[i] == shortId(block[places[i]].hash))
  }

  lemma AnnounceDescribes(block: seq<Tx>, shortId: ShortId)
    requires block != [] && !block[0].isNull
    ensures Describes(Announce(block, shortId), block, shortId)
  {
    var m := Announce(block, shortId);
    assert PlacedAt(m, 0);
    var base := Laid(m, 1);
    assert base == [Some(block[0])] + seq(|block| - 1, _ => None);
    OpenTail(base, |block|);
    OpenCount(m, 1);
  }

  /** All places but the first are open. */
  lemma {:induction false} OpenTail(base: seq<Option<Tx>>, n: nat)
    requires 0 < n <= |base| && base[0].Some? && forall p | 0 < p < |base| :: base[p] == None
    ensures |Open(base, n)| == n - 1 && forall i | 0 <= i < n - 1 :: Open(base, n)[i] == i + 1
  {
    if n > 1 {
      OpenTail(base, n - 1);
    } else {
      assert Open(base, 0) == [];
    }
  }

  /** No listed transaction has the short id of another transaction of the block. */
  ghost predicate NoClash(m: CompactBlock, block: seq<Tx>, shortId: ShortId, pool: Listing, extra: Listing)
    requires Describes(m, block, shortId)
  {
    var open := Open(Laid(m, |m.prefilled|), TxCount(m));
    forall i, tx | 0 <= i < |open| && (ListedUnderAs(shortId, pool, m.shortIds[i], tx)
                                       || ListedUnderAs(shortId, extra, m.shortIds[i], tx)) ::
      tx == block[open[i]]
  }

  /** Without a clash, everything that is available is in its place. */
  lemma AvailableRight(m: CompactBlock, block: seq<Tx>, shortId: ShortId, pool: Listing, extra: Listing, avail: seq<Option<Tx>>)
    requires Describes(m, block, shortId)
    requires FoundById(m, shortId, pool, extra, avail) && NoClash(m, block, shortId, pool, extra)
    ensures |avail| == |block| && forall p | 0 <= p < |avail| && avail[p].Some? :: avail[p].value == block[p]
  {
    hide Laid, WellPlaced, Open;
    var laid := Laid(m, |m.prefilled|);
    var open := Open(laid, TxCount(m));
    OpenFacts(laid, TxCount(m));
    forall p | 0 <= p < |avail| && avail[p].Some? ensures avail[p].value == block[p] {
      if laid[p] == None {
        var i :| 0 <= i < |open| && open[i] == p;
        assert FoundUnder(shortId, pool, extra, m.shortIds[i], avail[open[i]]);
      }
    }
  }

  /** The last place of a block of more than 65536 transactions: it is open, belongs to the last short id, and
      is stored as another place. */
  lemma LastPlace(m: CompactBlock)
    requires WellPlaced(m, |m.prefilled|) && TxCount(m) > INDEX_LIMIT
    ensures var open := Open(Laid(m, |m.prefilled|), TxCount(m));
            && |open| == |m.shortIds| > 0 && open[|open| - 1] == TxCount(m) - 1
            && Stored(TxCount(m) - 1) < TxCount(m) - 1
  {
    hide Open;
    var n, laid := TxCount(m), Laid(m, |m.prefilled|);
    assert m.prefilled != [] ==> PlacedAt(m, |m.prefilled| - 1);
    assert laid[n - 1] == None;
    OpenNext(laid, n - 1);
    OpenCount(m, |m.prefilled|);
  }

  /** Above 65536 transactions that fails for every message without duplicate short ids: with only the last
      transaction of the block in the pool, it is put where another one belongs. */
  lemma Misplaced(m: CompactBlock, block: seq<Tx>, shortId: ShortId, avail: seq<Option<Tx>>)
    requires Describes(m, block, shortId) && NoDuplicates(m.shortIds, |m.shortIds|) && TxCount(m) > INDEX_LIMIT
    requires forall i, j | 0 <= i < j < |block| :: block[i] != block[j]
    requires var last := block[|block| - 1]; Found(SearchFor(m, shortId, [(last.hash, last)], []), avail)
    ensures NoClash(m, block, shortId, [(block[|block| - 1].hash, block[|block| - 1])], [])
    ensures var p := Stored(|block| - 1); p < |avail| && avail[p].Some? && avail[p].value != block[p]
  {
    hide Laid, WellPlaced, Open, NoDuplicates;
    var last := block[|block| - 1];
    var c := SearchFor(m, shortId, [(last.hash, last)], []);
    var open := Open(c.base, TxCount(m));
    LastPlace(m);
    var p := Stored(|block| - 1);
    assert m.shortIds[|open| - 1] == shortId(last.hash);
    assert c.where[m.shortIds[|open| - 1]] == p;
    assert c.Hits(c.pool[0].0, p) && c.Listed(c.pool, 1, p) && c.Unambiguous(p);
    assert FoundAt(c, p, avail[p]);
    OnlyLast(m, block, shortId);
  }

  lemma OnlyLast(m: CompactBlock, block: seq<Tx>, shortId: ShortId)
    requires Describes(m, block, shortId) && NoDuplicates(m.shortIds, |m.shortIds|) && TxCount(m) > INDEX_LIMIT
    ensures NoClash(m, block, shortId, [(block[|block| - 1].hash, block[|block| - 1])], [])
  {
    hide Laid, WellPlaced, Open;
    LastPlace(m);
    var open := Open(Laid(m, |m.prefilled|), TxCount(m));
    assert m.shortIds[|open| - 1] == shortId(block[|block| - 1].hash);
  }

  /** The transactions of a block at the open places. */
  ghost function Missing(block: seq<Tx>, avail: seq<Option<Tx>>, n: nat): (r: seq<Tx>)
    requires n <= |avail| == |block|
    ensures |r| == |Open(avail, n)|
  {
    if n == 0 then []
    else if avail[n - 1] == None then Missing(block, avail, n - 1) + [block[n - 1]]
    else Missing(block, avail, n - 1)
  }

  lemma {:induction false} MergedMissing(block: seq<Tx>, avail: seq<Option<Tx>>, n: nat)
    requires n <= |avail| == |block|
    requires forall p | 0 <= p < |avail| && avail[p].Some? :: avail[p].value == block[p]
    ensures forall missing: seq<Tx> | Missing(block, avail, n) <= missing :: Merged(avail, missing, n) == block[..n]
  {
    if n > 0 {
      MergedMissing(block, avail, n - 1);
      forall missing: seq<Tx> | Missing(block, avail, n) <= missing ensures Merged(avail, missing, n) == block[..n] {
        assert Missing(block, avail, n - 1) <= missing;
        assert block[..n] == block[..n - 1] + [block[n - 1]];
      }
    }
  }

  /** A receiver that accepts the message and is given the missing transactions gets the block. The places that
      are open in between are `avail`. */
  method Reconstruct(m: CompactBlock, ghost block: seq<Tx>, shortId: ShortId, pool: Listing, extra: Listing,
      uneven: nat -> bool, part: PartiallyDownloadedBlock, missing: seq<Tx>, check: seq<Tx> -> Status)
      returns (accepted: Status, status: Status, vtx: seq<Tx>, ghost avail: seq<Option<Tx>>)
    requires part.headerNull && part.txnAvailable == [] && part.mempoolCount == 0
    requires TxCount(m) <= INDEX_LIMIT && !m.headerNull && 0 < TxCount(m)
    requires Describes(m, block, shortId) && NoClash(m, block, shortId, pool, extra)
    modifies part
    ensures accepted == Ok || accepted == Failed
    ensures accepted == Failed ==>
              !NoDuplicates(m.shortIds, |m.shortIds|) || exists i :: 0 <= i < |m.shortIds| && uneven(i)
    ensures accepted == Ok ==>
              && |avail| == |block|
              && (missing == Missing(block, avail, |block|) ==> vtx == block && status == check(block))
              && (|missing| != |Missing(block, avail, |block|)| ==> status == Invalid)
  {
    hide Laid, Open, Merged, Missing, Found, FoundById, NoClash;
    status, vtx, avail := Failed, [], [];
    accepted := part.InitData(m, shortId, pool, extra, uneven);
    if accepted == Ok {
      avail := part.txnAvailable;
      AvailableRight(m, block, shortId, pool, extra, avail);
      MergedMissing(block, avail, |block|);
      assert block[..|block|] == block;
      status, vtx := part.FillBlock(missing, check);
    }
  }
}
