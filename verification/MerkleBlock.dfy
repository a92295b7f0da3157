/** Partial merkle trees of src/merkleblock.cpp (section "Partial Merkle branch format" of BIP 37):
    the traversal that builds one, the traversal that extracts from one, and the packing of the
    flag bits into bytes.

    Hash values are numbers and the hash of a pair is a function `pair`, injective where stated. */
module MerkleBlock {
  import opened Basics
  import opened Bits

  type Hash = nat

  const ZERO: Hash := 0

  /** GetMaxBlockWeight() / MIN_TRANSACTION_WEIGHT */
  const MAX_TRANSACTIONS := 4000000 / 240

  ghost predicate Injective(pair: (Hash, Hash) -> Hash) {
    forall a, b, c, d :: pair(a, b) == pair(c, d) ==> a == c && b == d
  }

  ghost predicate Distinct(txids: seq<Hash>) {
    forall i, j | 0 <= i < j < |txids| :: txids[i] != txids[j]
  }

  //////////////////////////////////////////////////////////////////////////////
  // The shape of the tree
  //////////////////////////////////////////////////////////////////////////////

  /** The number of nodes at height `h` of the tree over `n` transactions. */
  function CalcTreeWidth(n: nat, h: nat): nat {
    (n + Pow2(h) - 1) / Pow2(h)
  }

  lemma MulMono(a: nat, b: nat, p: nat)
    requires a <= b
    ensures a * p <= b * p
  {
  }

  lemma CeilDiv(n: nat, p: nat, w: nat, pos: nat)
    requires p >= 1 && w * p <= n + p - 1 < w * p + p
    ensures pos < w <==> pos * p < n
  {
    if pos < w {
      MulMono(pos + 1, w, p);
    } else {
      MulMono(w, pos, p);
    }
  }

  /** A node exists exactly when its first leaf does. */
  lemma WidthLeaves(n: nat, h: nat, pos: nat)
    ensures pos < CalcTreeWidth(n, h) <==> pos * Pow2(h) < n
  {
    CeilDiv(n, Pow2(h), CalcTreeWidth(n, h), pos);
  }

  lemma ChildLeaves(h: nat, pos: nat)
    requires h > 0
    ensures (2 * pos) * Pow2(h - 1) == pos * Pow2(h)
    ensures (2 * pos + 1) * Pow2(h - 1) == pos * Pow2(h) + Pow2(h - 1)
    ensures (2 * pos + 2) * Pow2(h - 1) == (pos + 1) * Pow2(h)
  {
  }

  lemma LeftChild(n: nat, h: nat, pos: nat)
    requires h > 0 && pos < CalcTreeWidth(n, h)
    ensures 2 * pos < CalcTreeWidth(n, h - 1)
  {
    WidthLeaves(n, h, pos);
    WidthLeaves(n, h - 1, 2 * pos);
    ChildLeaves(h, pos);
  }

  //////////////////////////////////////////////////////////////////////////////
  // Hashes
  //////////////////////////////////////////////////////////////////////////////

  function CalcHash(pair: (Hash, Hash) -> Hash, txids: seq<Hash>, h: nat, pos: nat): Hash
    requires pos < CalcTreeWidth(|txids|, h)
    decreases h
  {
    if h == 0 then
      WidthLeaves(|txids|, 0, pos);
      txids[pos]
    else
      LeftChild(|txids|, h, pos);
      var left := CalcHash(pair, txids, h - 1, 2 * pos);
      var right := if 2 * pos + 1 < CalcTreeWidth(|txids|, h - 1)
                   then CalcHash(pair, txids, h - 1, 2 * pos + 1) else left;
      pair(left, right)
  }

  /** With distinct transactions, nodes of one height have distinct hashes. */
  lemma {:induction false} CalcHashInjective(pair: (Hash, Hash) -> Hash, txids: seq<Hash>, h: nat, p: nat, q: nat)
    requires Injective(pair) && Distinct(txids)
    requires p < CalcTreeWidth(|txids|, h) && q < CalcTreeWidth(|txids|, h)
    requires CalcHash(pair, txids, h, p) == CalcHash(pair, txids, h, q)
    ensures p == q
    decreases h
  {
    if h == 0 {
      WidthLeaves(|txids|, 0, p);
      WidthLeaves(|txids|, 0, q);
    } else {
      LeftChild(|txids|, h, p);
      LeftChild(|txids|, h, q);
      CalcHashInjective(pair, txids, h - 1, 2 * p, 2 * q);
    }
  }

  //////////////////////////////////////////////////////////////////////////////
  // Building
  //////////////////////////////////////////////////////////////////////////////

  /** What a partial tree is made from: all transactions of a block, and which of them match. */
  datatype Block = Block(pair: (Hash, Hash) -> Hash, txids: seq<Hash>, matches: seq<bool>)

  /** The flag bits and hashes stored for a subtree. */
  datatype Encoding = Encoding(bits: seq<bool>, hashes: seq<Hash>)

  /** The matched positions in [lo, hi), in order. */
  function Matched(matches: seq<bool>, lo: nat, hi: nat): (ps: seq<nat>)
    requires lo <= hi <= |matches|
    ensures forall i | 0 <= i < |ps| :: lo <= ps[i] < hi && matches[ps[i]]
    decreases hi - lo
  {
    if lo == hi then []
    else (if matches[lo] then [lo] else []) + Matched(matches, lo + 1, hi)
  }

  /** All of them: each matched position is listed, and listed once, in ascending order. */
  lemma MatchedAll(matches: seq<bool>, lo: nat, hi: nat)
    requires lo <= hi <= |matches|
    ensures forall p | lo <= p < hi && matches[p] :: p in Matched(matches, lo, hi)
    ensures forall i, j | 0 <= i < j < |Matched(matches, lo, hi)| :: Matched(matches, lo, hi)[i] < Matched(matches, lo, hi)[j]
  {
    hide Matched;
    MatchedListed(matches, lo, hi);
    MatchedAscending(matches, lo, hi);
  }

  lemma {:induction false} MatchedAscending(matches: seq<bool>, lo: nat, hi: nat)
    requires lo <= hi <= |matches|
    ensures forall i, j | 0 <= i < j < |Matched(matches, lo, hi)| :: Matched(matches, lo, hi)[i] < Matched(matches, lo, hi)[j]
    decreases hi - lo
  {
    if lo < hi {
      MatchedAscending(matches, lo + 1, hi);
      var rest := Matched(matches, lo + 1, hi);
      if matches[lo] {
        Prepended(lo, rest);
        assert Matched(matches, lo, hi) == [lo] + rest;
      } else {
        assert Matched(matches, lo, hi) == rest;
      }
    }
  }

  lemma {:induction false} MatchedListed(matches: seq<bool>, lo: nat, hi: nat)
    requires lo <= hi <= |matches|
    ensures forall p | lo <= p < hi && matches[p] :: p in Matched(matches, lo, hi)
    decreases hi - lo
  {
    if lo < hi {
      MatchedListed(matches, lo + 1, hi);
      forall p | lo <= p < hi && matches[p] ensures p in Matched(matches, lo, hi) {
        if p > lo {
          assert p in Matched(matches, lo + 1, hi);
        }
      }
    }
  }

  lemma Prepended(lo: nat, rest: seq<nat>)
    requires forall i | 0 <= i < |rest| :: lo < rest[i]
    requires forall i, j | 0 <= i < j < |rest| :: rest[i] < rest[j]
    ensures forall i, j | 0 <= i < j < |[lo] + rest| :: ([lo] + rest)[i] < ([lo] + rest)[j]
  {
  }

  lemma {:induction false} MatchedSplit(matches: seq<bool>, lo: nat, mid: nat, hi: nat)
    requires lo <= mid <= hi <= |matches|
    ensures Matched(matches, lo, hi) == Matched(matches, lo, mid) + Matched(matches, mid, hi)
    decreases mid - lo
  {
    if lo < mid {
      MatchedSplit(matches, lo + 1, mid, hi);
    }
  }

  /** The leaves below a node are those from First to Last, exclusive. */
  function First(h: nat, pos: nat): nat {
    pos * Pow2(h)
  }

  function Last(n: nat, h: nat, pos: nat): nat {
    if (pos + 1) * Pow2(h) < n then (pos + 1) * Pow2(h) else n
  }

  lemma LeavesOrdered(n: nat, h: nat, pos: nat)
    requires pos < CalcTreeWidth(n, h)
    ensures First(h, pos) < Last(n, h, pos) <= n
  {
    WidthLeaves(n, h, pos);
  }

  function MatchedBelow(b: Block, h: nat, pos: nat): (ps: seq<nat>)
    requires |b.txids| == |b.matches| && pos < CalcTreeWidth(|b.txids|, h)
    ensures forall i | 0 <= i < |ps| :: ps[i] < |b.txids|
  {
    LeavesOrdered(|b.txids|, h, pos);
    Matched(b.matches, First(h, pos), Last(|b.txids|, h, pos))
  }

  /** The leaves below a node are those below its children. */
  lemma LeavesSplit(n: nat, h: nat, pos: nat)
    requires h > 0 && pos < CalcTreeWidth(n, h)
    ensures First(h, pos) == First(h - 1, 2 * pos) && 2 * pos < CalcTreeWidth(n, h - 1)
    ensures if 2 * pos + 1 < CalcTreeWidth(n, h - 1)
            then Last(n, h - 1, 2 * pos) == First(h - 1, 2 * pos + 1) && Last(n, h, pos) == Last(n, h - 1, 2 * pos + 1)
            else Last(n, h, pos) == Last(n, h - 1, 2 * pos)
  {
    LeftChild(n, h, pos);
    ChildLeaves(h, pos);
    WidthLeaves(n, h - 1, 2 * pos + 1);
  }

  lemma MatchedBelowSplit(b: Block, h: nat, pos: nat)
    requires |b.txids| == |b.matches| && h > 0 && pos < CalcTreeWidth(|b.txids|, h)
    ensures 2 * pos < CalcTreeWidth(|b.txids|, h - 1)
    ensures MatchedBelow(b, h, pos)
            == MatchedBelow(b, h - 1, 2 * pos)
               + if 2 * pos + 1 < CalcTreeWidth(|b.txids|, h - 1) then MatchedBelow(b, h - 1, 2 * pos + 1) else []
  {
    var n := |b.txids|;
    LeavesSplit(n, h, pos);
    LeavesOrdered(n, h, pos);
    LeavesOrdered(n, h - 1, 2 * pos);
    if 2 * pos + 1 < CalcTreeWidth(n, h - 1) {
      LeavesOrdered(n, h - 1, 2 * pos + 1);
      MatchedSplit(b.matches, First(h, pos), First(h - 1, 2 * pos + 1), Last(n, h, pos));
    }
  }

  lemma MatchedLeaf(b: Block, pos: nat)
    requires |b.txids| == |b.matches| && pos < CalcTreeWidth(|b.txids|, 0)
    ensures pos < |b.txids| && MatchedBelow(b, 0, pos) == if b.matches[pos] then [pos] else []
  {
    WidthLeaves(|b.txids|, 0, pos);
    assert Last(|b.txids|, 0, pos) == pos + 1;
    assert Matched(b.matches, pos + 1, pos + 1) == [];
  }

  function Build(b: Block, h: nat, pos: nat): Encoding
    requires |b.txids| == |b.matches| && pos < CalcTreeWidth(|b.txids|, h)
    decreases h
  {
    var flag := MatchedBelow(b, h, pos) != [];
    if h == 0 || !flag then Encoding([flag], [CalcHash(b.pair, b.txids, h, pos)])
    else
      LeftChild(|b.txids|, h, pos);
      var left := Build(b, h - 1, 2 * pos);
      var right := if 2 * pos + 1 < CalcTreeWidth(|b.txids|, h - 1) then Build(b, h - 1, 2 * pos + 1)
                   else Encoding([], []);
      Encoding([flag] + left.bits + right.bits, left.hashes + right.hashes)
  }

  lemma BuildLeaf(b: Block, h: nat, pos: nat)
    requires |b.txids| == |b.matches| && pos < CalcTreeWidth(|b.txids|, h)
    requires h == 0 || MatchedBelow(b, h, pos) == []
    ensures Build(b, h, pos) == Encoding([MatchedBelow(b, h, pos) != []], [CalcHash(b.pair, b.txids, h, pos)])
  {
  }

  /** A node with matches below it stores a flag and what its children store. */
  lemma BuildNode(b: Block, h: nat, pos: nat)
    requires |b.txids| == |b.matches| && h > 0 && pos < CalcTreeWidth(|b.txids|, h) && MatchedBelow(b, h, pos) != []
    ensures 2 * pos < CalcTreeWidth(|b.txids|, h - 1)
    ensures var enc, left := Build(b, h, pos), Build(b, h - 1, 2 * pos);
            if 2 * pos + 1 < CalcTreeWidth(|b.txids|, h - 1) then
              var right := Build(b, h - 1, 2 * pos + 1);
              enc.bits == [true] + (left.bits + right.bits) && enc.hashes == left.hashes + right.hashes
            else enc.bits == [true] + left.bits && enc.hashes == left.hashes
  {
    LeftChild(|b.txids|, h, pos);
  }

  /** One hash, and one more for each level above each match. */
  function PerMatch(m: nat, h: nat): nat {
    1 + m * h
  }

  lemma PerMatchJoin(l: nat, r: nat, h: nat)
    requires h > 0 && l + r > 0
    ensures PerMatch(l, h - 1) + PerMatch(r, h - 1) <= PerMatch(l + r, h)
    ensures PerMatch(l, h - 1) >= 1 && PerMatch(r, h - 1) >= 1
  {
  }

  lemma BuildSizeStop(b: Block, h: nat, pos: nat)
    requires |b.txids| == |b.matches| && pos < CalcTreeWidth(|b.txids|, h)
    requires h == 0 || |MatchedBelow(b, h, pos)| == 0
    ensures |Build(b, h, pos).hashes| == 1 == |Build(b, h, pos).bits| <= Last(|b.txids|, h, pos) - First(h, pos)
    ensures PerMatch(|MatchedBelow(b, h, pos)|, h) >= 1
  {
    hide CalcTreeWidth, Pow2, First, Last, Matched, MatchedBelow, CalcHash;
    LeavesOrdered(|b.txids|, h, pos);
  }

  /** The stored hashes of a subtree: no more than its leaves, no more than one plus its height for
      each match, and no more than its flag bits. */
  lemma {:induction false} BuildSize(b: Block, h: nat, pos: nat)
    requires |b.txids| == |b.matches| && pos < CalcTreeWidth(|b.txids|, h)
    ensures 1 <= |Build(b, h, pos).hashes| <= Last(|b.txids|, h, pos) - First(h, pos)
    ensures |Build(b, h, pos).hashes| <= PerMatch(|MatchedBelow(b, h, pos)|, h)
    ensures |Build(b, h, pos).hashes| <= |Build(b, h, pos).bits|
    decreases h
  {
    hide *;
    var n, m := |b.txids|, |MatchedBelow(b, h, pos)|;
    if h == 0 || m == 0 {
      BuildSizeStop(b, h, pos);
    } else {
      LeavesSplit(n, h, pos);
      BuildNode(b, h, pos);
      MatchedBelowSplit(b, h, pos);
      BuildSize(b, h - 1, 2 * pos);
      var l := |MatchedBelow(b, h - 1, 2 * pos)|;
      if 2 * pos + 1 < CalcTreeWidth(n, h - 1) {
        BuildSize(b, h - 1, 2 * pos + 1);
        PerMatchJoin(l, |MatchedBelow(b, h - 1, 2 * pos + 1)|, h);
      } else {
        PerMatchJoin(l, 0, h);
      }
    }
  }

  //////////////////////////////////////////////////////////////////////////////
  // Extracting
  //////////////////////////////////////////////////////////////////////////////

  /** The outcome of extracting a subtree: its hash, how many bits and hashes have been used, the
      matches found with their indices, and whether the data are bad. */
  datatype Extraction = Extraction(hash: Hash, nBits: nat, nHashes: nat, found: seq<Hash>, at: seq<nat>, bad: bool)

  function Extract(pair: (Hash, Hash) -> Hash, n: nat, bits: seq<bool>, hashes: seq<Hash>, h: nat, pos: nat, nBits: nat, nHashes: nat): Extraction
    decreases h
  {
    if nBits >= |bits| then Extraction(ZERO, nBits, nHashes, [], [], true)
    else if h == 0 || !bits[nBits] then
      if nHashes >= |hashes| then Extraction(ZERO, nBits + 1, nHashes, [], [], true)
      else
        var hash := hashes[nHashes];
        if h == 0 && bits[nBits] then Extraction(hash, nBits + 1, nHashes + 1, [hash], [pos], false)
        else Extraction(hash, nBits + 1, nHashes + 1, [], [], false)
    else
      var left := Extract(pair, n, bits, hashes, h - 1, 2 * pos, nBits + 1, nHashes);
      if 2 * pos + 1 < CalcTreeWidth(n, h - 1) then
        var right := Extract(pair, n, bits, hashes, h - 1, 2 * pos + 1, left.nBits, left.nHashes);
        Extraction(pair(left.hash, right.hash), right.nBits, right.nHashes, left.found + right.found, left.at + right.at,
                   left.bad || right.bad || left.hash == right.hash)
      else
        left.(hash := pair(left.hash, left.hash))
  }

  function TxidsAt(txids: seq<Hash>, ps: seq<nat>): (ts: seq<Hash>)
    requires forall i | 0 <= i < |ps| :: ps[i] < |txids|
    ensures |ts| == |ps| && forall i | 0 <= i < |ps| :: ts[i] == txids[ps[i]]
  {
    if ps == [] then [] else [txids[ps[0]]] + TxidsAt(txids, ps[1..])
  }

  /** `part` lies in `all` from `at` on. */
  ghost predicate PartAt<T>(all: seq<T>, at: nat, part: seq<T>) {
    at + |part| <= |all| && all[at..at + |part|] == part
  }

  lemma PartAtSplit<T>(all: seq<T>, at: nat, a: seq<T>, b: seq<T>)
    requires PartAt(all, at, a + b)
    ensures PartAt(all, at, a) && PartAt(all, at + |a|, b)
  {
    assert all[at..at + |a|] == (a + b)[..|a|];
    assert all[at + |a|..at + |a| + |b|] == (a + b)[|a|..];
  }

  /** What extracting a stored subtree should give: its true hash, exactly its matched transactions
      with their positions, and everything used up that was stored for it. */
  ghost function Expected(b: Block, h: nat, pos: nat, nBits: nat, nHashes: nat): Extraction
    requires |b.txids| == |b.matches| && pos < CalcTreeWidth(|b.txids|, h)
  {
    var enc, ps := Build(b, h, pos), MatchedBelow(b, h, pos);
    Extraction(CalcHash(b.pair, b.txids, h, pos), nBits + |enc.bits|, nHashes + |enc.hashes|, TxidsAt(b.txids, ps), ps, false)
  }

  lemma {:induction false} TxidsAtAppend(txids: seq<Hash>, ps: seq<nat>, qs: seq<nat>)
    requires forall i | 0 <= i < |ps| :: ps[i] < |txids|
    requires forall i | 0 <= i < |qs| :: qs[i] < |txids|
    ensures TxidsAt(txids, ps + qs) == TxidsAt(txids, ps) + TxidsAt(txids, qs)
  {
  }

  /** The step from children to parent, on both sides. */
  lemma ExpectedNode(b: Block, h: nat, pos: nat, nBits: nat, nHashes: nat)
    requires |b.txids| == |b.matches| && h > 0 && pos < CalcTreeWidth(|b.txids|, h) && MatchedBelow(b, h, pos) != []
    ensures 2 * pos < CalcTreeWidth(|b.txids|, h - 1)
    ensures var left := Expected(b, h - 1, 2 * pos, nBits + 1, nHashes);
            Expected(b, h, pos, nBits, nHashes) ==
            if 2 * pos + 1 < CalcTreeWidth(|b.txids|, h - 1) then
              var right := Expected(b, h - 1, 2 * pos + 1, left.nBits, left.nHashes);
              Extraction(b.pair(left.hash, right.hash), right.nBits, right.nHashes, left.found + right.found, left.at + right.at, false)
            else left.(hash := b.pair(left.hash, left.hash))
  {
    hide CalcTreeWidth, Build, MatchedBelow, TxidsAt;
    BuildNode(b, h, pos);
    MatchedBelowSplit(b, h, pos);
    if 2 * pos + 1 < CalcTreeWidth(|b.txids|, h - 1) {
      TxidsAtAppend(b.txids, MatchedBelow(b, h - 1, 2 * pos), MatchedBelow(b, h - 1, 2 * pos + 1));
    }
  }

  /** Extracting at the place where a subtree was stored recovers it. */
  lemma {:induction false} ExtractBuild(b: Block, bits: seq<bool>, hashes: seq<Hash>, h: nat, pos: nat, nBits: nat, nHashes: nat)
    requires Injective(b.pair) && Distinct(b.txids)
    requires |b.txids| == |b.matches| && pos < CalcTreeWidth(|b.txids|, h)
    requires PartAt(bits, nBits, Build(b, h, pos).bits) && PartAt(hashes, nHashes, Build(b, h, pos).hashes)
    ensures Extract(b.pair, |b.txids|, bits, hashes, h, pos, nBits, nHashes) == Expected(b, h, pos, nBits, nHashes)
    decreases h
  {
    if h > 0 && MatchedBelow(b, h, pos) != [] {
      ExtractBuildNode(b, bits, hashes, h, pos, nBits, nHashes);
    } else {
      hide CalcTreeWidth, Pow2, First, Last, Matched, MatchedBelow, Injective, Distinct;
      assert bits[nBits] == Build(b, h, pos).bits[0] && hashes[nHashes] == Build(b, h, pos).hashes[0];
      if h == 0 {
        MatchedLeaf(b, pos);
      }
    }
  }

  lemma {:induction false} ExtractBuildNode(b: Block, bits: seq<bool>, hashes: seq<Hash>, h: nat, pos: nat, nBits: nat, nHashes: nat)
    requires Injective(b.pair) && Distinct(b.txids)
    requires |b.txids| == |b.matches| && h > 0 && pos < CalcTreeWidth(|b.txids|, h) && MatchedBelow(b, h, pos) != []
    requires PartAt(bits, nBits, Build(b, h, pos).bits) && PartAt(hashes, nHashes, Build(b, h, pos).hashes)
    ensures Extract(b.pair, |b.txids|, bits, hashes, h, pos, nBits, nHashes) == Expected(b, h, pos, nBits, nHashes)
    decreases h, 0
  {
    hide *;
    BuildNode(b, h, pos);
    ExpectedNode(b, h, pos, nBits, nHashes);
    var n, left := |b.txids|, Build(b, h - 1, 2 * pos);
    var both := 2 * pos + 1 < CalcTreeWidth(n, h - 1);
    var rest := if both then left.bits + Build(b, h - 1, 2 * pos + 1).bits else left.bits;
    PartAtSplit(bits, nBits, [true], rest);
    PartAtOne(bits, nBits, true);
    ExtractNode(b.pair, n, bits, hashes, h, pos, nBits, nHashes);
    if both {
      var right := Build(b, h - 1, 2 * pos + 1);
      PartAtSplit(bits, nBits + 1, left.bits, right.bits);
      PartAtSplit(hashes, nHashes, left.hashes, right.hashes);
      ExtractBuild(b, bits, hashes, h - 1, 2 * pos, nBits + 1, nHashes);
      ExpectedParts(b, h - 1, 2 * pos, nBits + 1, nHashes);
      ExtractBuild(b, bits, hashes, h - 1, 2 * pos + 1, nBits + 1 + |left.bits|, nHashes + |left.hashes|);
      ExpectedParts(b, h - 1, 2 * pos + 1, nBits + 1 + |left.bits|, nHashes + |left.hashes|);
      SiblingsDiffer(b.pair, b.txids, h - 1, 2 * pos);
    } else {
      ExtractBuild(b, bits, hashes, h - 1, 2 * pos, nBits + 1, nHashes);
    }
  }

  lemma PartAtOne<T>(all: seq<T>, at: nat, x: T)
    requires PartAt(all, at, [x])
    ensures at < |all| && all[at] == x
  {
    assert all[at..at + 1][0] == all[at];
  }

  lemma ExpectedParts(b: Block, h: nat, pos: nat, nBits: nat, nHashes: nat)
    requires |b.txids| == |b.matches| && pos < CalcTreeWidth(|b.txids|, h)
    ensures var e := Expected(b, h, pos, nBits, nHashes);
            && e.hash == CalcHash(b.pair, b.txids, h, pos) && !e.bad
            && e.nBits == nBits + |Build(b, h, pos).bits| && e.nHashes == nHashes + |Build(b, h, pos).hashes|
  {
  }

  /** One step of the extraction that does not descend. */
  lemma ExtractStop(pair: (Hash, Hash) -> Hash, n: nat, bits: seq<bool>, hashes: seq<Hash>, h: nat, pos: nat, nBits: nat, nHashes: nat)
    requires nBits >= |bits| || h == 0 || !bits[nBits]
    ensures Extract(pair, n, bits, hashes, h, pos, nBits, nHashes) ==
            if nBits >= |bits| then Extraction(ZERO, nBits, nHashes, [], [], true)
            else if nHashes >= |hashes| then Extraction(ZERO, nBits + 1, nHashes, [], [], true)
            else if bits[nBits] then Extraction(hashes[nHashes], nBits + 1, nHashes + 1, [hashes[nHashes]], [pos], false)
            else Extraction(hashes[nHashes], nBits + 1, nHashes + 1, [], [], false)
  {
  }

  /** One step of the extraction that descends. */
  lemma ExtractNode(pair: (Hash, Hash) -> Hash, n: nat, bits: seq<bool>, hashes: seq<Hash>, h: nat, pos: nat, nBits: nat, nHashes: nat)
    requires h > 0 && nBits < |bits| && bits[nBits]
    ensures var left := Extract(pair, n, bits, hashes, h - 1, 2 * pos, nBits + 1, nHashes);
            Extract(pair, n, bits, hashes, h, pos, nBits, nHashes) ==
            if 2 * pos + 1 < CalcTreeWidth(n, h - 1) then
              var right := Extract(pair, n, bits, hashes, h - 1, 2 * pos + 1, left.nBits, left.nHashes);
              Extraction(pair(left.hash, right.hash), right.nBits, right.nHashes, left.found + right.found, left.at + right.at,
                         left.bad || right.bad || left.hash == right.hash)
            else left.(hash := pair(left.hash, left.hash))
  {
  }

  lemma SiblingsDiffer(pair: (Hash, Hash) -> Hash, txids: seq<Hash>, h: nat, pos: nat)
    requires Injective(pair) && Distinct(txids) && pos + 1 < CalcTreeWidth(|txids|, h)
    ensures CalcHash(pair, txids, h, pos) != CalcHash(pair, txids, h, pos + 1)
  {
    if CalcHash(pair, txids, h, pos) == CalcHash(pair, txids, h, pos + 1) {
      CalcHashInjective(pair, txids, h, pos, pos + 1);
    }
  }

  //////////////////////////////////////////////////////////////////////////////
  // Soundness of what is extracted
  //////////////////////////////////////////////////////////////////////////////

  /** Every match reported is the transaction really at the reported index, and the indices ascend
      within [lo, hi). */
  ghost predicate Genuine(txids: seq<Hash>, found: seq<Hash>, at: seq<nat>, lo: nat, hi: nat) {
    && |found| == |at| && hi <= |txids|
    && (forall i | 0 <= i < |at| :: lo <= at[i] < hi && found[i] == txids[at[i]])
    && (forall i, j | 0 <= i < j < |at| :: at[i] < at[j])
  }

  lemma GenuineJoin(txids: seq<Hash>, f: seq<Hash>, a: seq<nat>, g: seq<Hash>, b: seq<nat>, lo: nat, mid: nat, hi: nat)
    requires Genuine(txids, f, a, lo, mid) && Genuine(txids, g, b, mid, hi) && lo <= mid <= hi
    ensures Genuine(txids, f + g, a + b, lo, hi)
  {
  }

  lemma LeafRange(n: nat, pos: nat)
    requires pos < CalcTreeWidth(n, 0)
    ensures First(0, pos) == pos < n && Last(n, 0, pos) == pos + 1
  {
    WidthLeaves(n, 0, pos);
  }

  lemma ExtractSoundStop(pair: (Hash, Hash) -> Hash, txids: seq<Hash>, bits: seq<bool>, hashes: seq<Hash>, h: nat, pos: nat, nBits: nat, nHashes: nat)
    requires pos < CalcTreeWidth(|txids|, h) && (h == 0 || nBits >= |bits| || !bits[nBits])
    requires var e := Extract(pair, |txids|, bits, hashes, h, pos, nBits, nHashes);
             !e.bad && e.hash == CalcHash(pair, txids, h, pos)
    ensures var e := Extract(pair, |txids|, bits, hashes, h, pos, nBits, nHashes);
            Genuine(txids, e.found, e.at, First(h, pos), Last(|txids|, h, pos))
  {
    hide CalcTreeWidth, Pow2;
    LeavesOrdered(|txids|, h, pos);
    if h == 0 {
      LeafRange(|txids|, pos);
    }
  }

  /** Whatever the bits and hashes, a traversal that meets no bad data and arrives at the true hash
      of a node reports only genuine matches. */
  lemma {:induction false} ExtractSound(pair: (Hash, Hash) -> Hash, txids: seq<Hash>, bits: seq<bool>, hashes: seq<Hash>, h: nat, pos: nat, nBits: nat, nHashes: nat)
    requires Injective(pair) && pos < CalcTreeWidth(|txids|, h)
    requires var e := Extract(pair, |txids|, bits, hashes, h, pos, nBits, nHashes);
             !e.bad && e.hash == CalcHash(pair, txids, h, pos)
    ensures var e := Extract(pair, |txids|, bits, hashes, h, pos, nBits, nHashes);
            Genuine(txids, e.found, e.at, First(h, pos), Last(|txids|, h, pos))
    decreases h
  {
    hide CalcTreeWidth, Pow2, First, Last, Extract, Genuine;
    var n := |txids|;
    LeavesOrdered(n, h, pos);
    if h == 0 || nBits >= |bits| || !bits[nBits] {
      ExtractSoundStop(pair, txids, bits, hashes, h, pos, nBits, nHashes);
    } else {
      LeavesSplit(n, h, pos);
      ExtractNode(pair, n, bits, hashes, h, pos, nBits, nHashes);
      var left := Extract(pair, n, bits, hashes, h - 1, 2 * pos, nBits + 1, nHashes);
      ExtractSound(pair, txids, bits, hashes, h - 1, 2 * pos, nBits + 1, nHashes);
      if 2 * pos + 1 < CalcTreeWidth(n, h - 1) {
        var right := Extract(pair, n, bits, hashes, h - 1, 2 * pos + 1, left.nBits, left.nHashes);
        ExtractSound(pair, txids, bits, hashes, h - 1, 2 * pos + 1, left.nBits, left.nHashes);
        LeavesOrdered(n, h - 1, 2 * pos);
        LeavesOrdered(n, h - 1, 2 * pos + 1);
        GenuineJoin(txids, left.found, left.at, right.found, right.at,
                    First(h, pos), First(h - 1, 2 * pos + 1), Last(n, h, pos));
      }
    }
  }

  //////////////////////////////////////////////////////////////////////////////
  // Whole trees
  //////////////////////////////////////////////////////////////////////////////

  lemma WidthShrinks(n: nat, h: nat)
    requires CalcTreeWidth(n, h) > 1
    ensures 1 <= CalcTreeWidth(n, h + 1) < CalcTreeWidth(n, h)
  {
    var w := CalcTreeWidth(n, h + 1);
    WidthLeaves(n, h, 0);
    WidthLeaves(n, h + 1, 0);
    LeftChild(n, h + 1, w - 1);
  }

  function HeightFrom(n: nat, h: nat): (height: nat)
    ensures CalcTreeWidth(n, height) <= 1
    ensures CalcTreeWidth(n, h) >= 1 ==> CalcTreeWidth(n, height) == 1
    decreases CalcTreeWidth(n, h)
  {
    if CalcTreeWidth(n, h) <= 1 then h
    else
      WidthShrinks(n, h);
      HeightFrom(n, h + 1)
  }

  /** The height at which one node is left. */
  function Height(n: nat): (h: nat)
    ensures n > 0 ==> CalcTreeWidth(n, h) == 1
  {
    HeightFrom(n, 0)
  }

  function Root(pair: (Hash, Hash) -> Hash, txids: seq<Hash>): Hash
    requires |txids| > 0
  {
    CalcHash(pair, txids, Height(|txids|), 0)
  }

  datatype Result = Failed | Extracted(root: Hash, found: seq<Hash>, at: seq<nat>)

  /** CPartialMerkleTree::ExtractMatches; the source returns a zero hash when it fails. */
  function ExtractMatches(pair: (Hash, Hash) -> Hash, n: nat, bits: seq<bool>, hashes: seq<Hash>): Result {
    if n == 0 || n > MAX_TRANSACTIONS || |hashes| > n || |bits| < |hashes| then Failed
    else
      var e := Extract(pair, n, bits, hashes, Height(n), 0, 0, 0);
      if e.bad || (e.nBits + 7) / 8 != (|bits| + 7) / 8 || e.nHashes != |hashes| then Failed
      else Extracted(e.hash, e.found, e.at)
  }

  lemma WholeTree(n: nat)
    requires n > 0
    ensures First(Height(n), 0) == 0 && Last(n, Height(n), 0) == n
  {
    var h := Height(n);
    WidthLeaves(n, h, 1);
  }

  /** The true root and exactly the matched transactions, each once, in ascending order with its position. */
  ghost predicate ExactMatches(b: Block, r: Result)
    requires 0 < |b.txids| == |b.matches|
  {
    && r.Extracted? && r.root == Root(b.pair, b.txids) && |r.found| == |r.at|
    && (forall p: nat :: p in r.at <==> p < |b.matches| && b.matches[p])
    && (forall i | 0 <= i < |r.at| :: r.at[i] < |b.txids| && r.found[i] == b.txids[r.at[i]])
    && (forall i, j | 0 <= i < j < |r.at| :: r.at[i] < r.at[j])
  }

  lemma MatchedExactly(b: Block)
    requires 0 < |b.txids| == |b.matches|
    ensures var ps := Matched(b.matches, 0, |b.txids|);
            ExactMatches(b, Extracted(Root(b.pair, b.txids), TxidsAt(b.txids, ps), ps))
  {
    hide Matched, TxidsAt, Root;
    MatchedAll(b.matches, 0, |b.txids|);
  }

  lemma ExtractAccepted(pair: (Hash, Hash) -> Hash, n: nat, bits: seq<bool>, hashes: seq<Hash>)
    requires 0 < n <= MAX_TRANSACTIONS && |hashes| <= n && |hashes| <= |bits|
    requires var e := Extract(pair, n, bits, hashes, Height(n), 0, 0, 0);
             !e.bad && (e.nBits + 7) / 8 == (|bits| + 7) / 8 && e.nHashes == |hashes|
    ensures var e := Extract(pair, n, bits, hashes, Height(n), 0, 0, 0);
            ExtractMatches(pair, n, bits, hashes) == Extracted(e.hash, e.found, e.at)
  {
    hide CalcTreeWidth, Extract, Height;
  }

  /** Extracting from the partial tree of a block, however its flag bits are padded to whole bytes,
      gives the block's merkle root and exactly the matched transactions with their positions. */
  lemma RoundTrip(b: Block, padding: seq<bool>)
    requires Injective(b.pair) && Distinct(b.txids) && |b.txids| == |b.matches|
    requires 0 < |b.txids| <= MAX_TRANSACTIONS
    requires var enc := Build(b, Height(|b.txids|), 0); (|enc.bits + padding| + 7) / 8 == (|enc.bits| + 7) / 8
    ensures var n, enc := |b.txids|, Build(b, Height(|b.txids|), 0);
            var ps := Matched(b.matches, 0, n);
            ExtractMatches(b.pair, n, enc.bits + padding, enc.hashes)
            == Extracted(Root(b.pair, b.txids), TxidsAt(b.txids, ps), ps)
    ensures var enc := Build(b, Height(|b.txids|), 0);
            ExactMatches(b, ExtractMatches(b.pair, |b.txids|, enc.bits + padding, enc.hashes))
  {
    hide CalcTreeWidth, Pow2, Build, Extract, Injective, Distinct, CalcHash, Height, Matched, TxidsAt, ExtractMatches, ExactMatches, First, Last, PerMatch;
    var n, h := |b.txids|, Height(|b.txids|);
    var enc := Build(b, h, 0);
    WholeTree(n);
    BuildSize(b, h, 0);
    assert (enc.bits + padding)[..|enc.bits|] == enc.bits;
    assert enc.hashes[..|enc.hashes|] == enc.hashes;
    ExtractBuild(b, enc.bits + padding, enc.hashes, h, 0, 0, 0);
    ExtractAccepted(b.pair, n, enc.bits + padding, enc.hashes);
    MatchedExactly(b);
  }

  /** The number of stored hashes is at most the number of transactions, and at most one plus the
      height of the tree for each match. */
  lemma StoredHashes(b: Block)
    requires |b.txids| == |b.matches| && |b.txids| > 0
    ensures var n := |b.txids|;
            var stored := |Build(b, Height(n), 0).hashes|;
            stored <= n && stored <= 1 + |Matched(b.matches, 0, n)| * Height(n)
  {
    hide CalcTreeWidth, Pow2, Build, Height, First, Last, Matched;
    WholeTree(|b.txids|);
    BuildSize(b, Height(|b.txids|), 0);
  }

  //////////////////////////////////////////////////////////////////////////////
  // What is refused
  //////////////////////////////////////////////////////////////////////////////

  /** A traversal without bad data does not depend on what follows the bits and hashes it has used. */
  lemma {:induction false} ExtractMore(pair: (Hash, Hash) -> Hash, n: nat, bits: seq<bool>, hashes: seq<Hash>,
      moreBits: seq<bool>, moreHashes: seq<Hash>, h: nat, pos: nat, nBits: nat, nHashes: nat)
    requires !Extract(pair, n, bits, hashes, h, pos, nBits, nHashes).bad
    ensures Extract(pair, n, bits + moreBits, hashes + moreHashes, h, pos, nBits, nHashes)
         == Extract(pair, n, bits, hashes, h, pos, nBits, nHashes)
    decreases h
  {
    hide Extract, CalcTreeWidth;
    if nBits >= |bits| || h == 0 || !bits[nBits] {
      ExtractStop(pair, n, bits, hashes, h, pos, nBits, nHashes);
      ExtractStop(pair, n, bits + moreBits, hashes + moreHashes, h, pos, nBits, nHashes);
    } else {
      ExtractNode(pair, n, bits, hashes, h, pos, nBits, nHashes);
      ExtractNode(pair, n, bits + moreBits, hashes + moreHashes, h, pos, nBits, nHashes);
      var left := Extract(pair, n, bits, hashes, h - 1, 2 * pos, nBits + 1, nHashes);
      ExtractMore(pair, n, bits, hashes, moreBits, moreHashes, h - 1, 2 * pos, nBits + 1, nHashes);
      if 2 * pos + 1 < CalcTreeWidth(n, h - 1) {
        ExtractMore(pair, n, bits, hashes, moreBits, moreHashes, h - 1, 2 * pos + 1, left.nBits, left.nHashes);
      }
    }
  }

  /** A hash too many is refused, whatever it is. */
  lemma MoreHashesRefused(pair: (Hash, Hash) -> Hash, n: nat, bits: seq<bool>, hashes: seq<Hash>, more: seq<Hash>)
    requires ExtractMatches(pair, n, bits, hashes).Extracted? && more != []
    ensures ExtractMatches(pair, n, bits, hashes + more) == Failed
  {
    hide Extract, Height;
    ExtractMore(pair, n, bits, hashes, [], more, Height(n), 0, 0, 0);
    assert bits + [] == bits;
  }

  /** Bits too many are refused exactly if they reach into a further byte. */
  lemma MoreBitsRefused(pair: (Hash, Hash) -> Hash, n: nat, bits: seq<bool>, hashes: seq<Hash>, more: seq<bool>)
    requires ExtractMatches(pair, n, bits, hashes).Extracted?
    ensures ExtractMatches(pair, n, bits + more, hashes)
         == if (|bits + more| + 7) / 8 == (|bits| + 7) / 8 then ExtractMatches(pair, n, bits, hashes) else Failed
  {
    hide Extract, Height;
    ExtractMore(pair, n, bits, hashes, more, [], Height(n), 0, 0, 0);
    assert hashes + [] == hashes;
  }

  /** An empty tree, one of too many transactions, more hashes than transactions and fewer bits than hashes. */
  lemma SizesRefused(pair: (Hash, Hash) -> Hash, n: nat, bits: seq<bool>, hashes: seq<Hash>)
    requires n == 0 || n > 16666 || |hashes| > n || |bits| < |hashes|
    ensures ExtractMatches(pair, n, bits, hashes) == Failed
  {
  }

  /** A node whose two children have the same hash makes the tree bad. */
  lemma TwinsRefused(pair: (Hash, Hash) -> Hash, n: nat, bits: seq<bool>, hashes: seq<Hash>, h: nat, pos: nat, nBits: nat, nHashes: nat)
    requires h > 0 && nBits < |bits| && bits[nBits] && 2 * pos + 1 < CalcTreeWidth(n, h - 1)
    ensures var left := Extract(pair, n, bits, hashes, h - 1, 2 * pos, nBits + 1, nHashes);
            var right := Extract(pair, n, bits, hashes, h - 1, 2 * pos + 1, left.nBits, left.nHashes);
            left.hash == right.hash ==> Extract(pair, n, bits, hashes, h, pos, nBits, nHashes).bad
  {
    hide Extract, CalcTreeWidth;
    ExtractNode(pair, n, bits, hashes, h, pos, nBits, nHashes);
  }

  //////////////////////////////////////////////////////////////////////////////
  // The root of a block
  //////////////////////////////////////////////////////////////////////////////

  /** The next level of a merkle tree: neighbours are hashed in pairs, the last one with itself if it is left over. */
  function Paired(pair: (Hash, Hash) -> Hash, level: seq<Hash>): (next: seq<Hash>)
    ensures |next| == (|level| + 1) / 2
  {
    seq((|level| + 1) / 2, i requires 0 <= i < (|level| + 1) / 2 =>
      pair(level[2 * i], if 2 * i + 1 < |level| then level[2 * i + 1] else level[2 * i]))
  }

  /** The merkle root, level by level. */
  function MerkleRoot(pair: (Hash, Hash) -> Hash, level: seq<Hash>): Hash
    requires |level| > 0
    decreases |level|
  {
    if |level| == 1 then level[0] else MerkleRoot(pair, Paired(pair, level))
  }

  function Level(pair: (Hash, Hash) -> Hash, txids: seq<Hash>, h: nat): seq<Hash> {
    if h == 0 then txids else Paired(pair, Level(pair, txids, h - 1))
  }

  lemma WidthHalf(n: nat, h: nat)
    requires h > 0
    ensures CalcTreeWidth(n, h) == (CalcTreeWidth(n, h - 1) + 1) / 2
  {
    hide CalcTreeWidth, Pow2;
    var w := CalcTreeWidth(n, h);
    NodeAbove(n, h, w);
    if w > 0 {
      NodeAbove(n, h, w - 1);
    }
  }

  /** A node exists exactly if its left child does. */
  lemma NodeAbove(n: nat, h: nat, pos: nat)
    requires h > 0
    ensures pos < CalcTreeWidth(n, h) <==> 2 * pos < CalcTreeWidth(n, h - 1)
  {
    hide CalcTreeWidth, Pow2;
    WidthLeaves(n, h, pos);
    WidthLeaves(n, h - 1, 2 * pos);
    ChildLeaves(h, pos);
  }

  /** The node above two neighbours of a level is the node of the next level. */
  lemma LevelNode(pair: (Hash, Hash) -> Hash, txids: seq<Hash>, h: nat, level: seq<Hash>, pos: nat)
    requires h > 0 && |level| == CalcTreeWidth(|txids|, h - 1) && pos < CalcTreeWidth(|txids|, h)
    requires forall k: nat | k < |level| :: CalcHash(pair, txids, h - 1, k) == level[k]
    ensures pos < |Paired(pair, level)| && CalcHash(pair, txids, h, pos) == Paired(pair, level)[pos]
  {
    hide CalcTreeWidth, CalcHash;
    NodeAbove(|txids|, h, pos);
    HashOfPair(pair, txids, h, pos);
    assert CalcHash(pair, txids, h - 1, 2 * pos) == level[2 * pos];
    if 2 * pos + 1 < |level| {
      assert CalcHash(pair, txids, h - 1, 2 * pos + 1) == level[2 * pos + 1];
    }
  }

  lemma HashOfPair(pair: (Hash, Hash) -> Hash, txids: seq<Hash>, h: nat, pos: nat)
    requires h > 0 && pos < CalcTreeWidth(|txids|, h)
    ensures 2 * pos < CalcTreeWidth(|txids|, h - 1)
    ensures var left := CalcHash(pair, txids, h - 1, 2 * pos);
            CalcHash(pair, txids, h, pos) == pair(left, if 2 * pos + 1 < CalcTreeWidth(|txids|, h - 1)
                                                        then CalcHash(pair, txids, h - 1, 2 * pos + 1) else left)
  {
    hide CalcTreeWidth;
    LeftChild(|txids|, h, pos);
  }

  /** CalcHash is the node of that level. */
  lemma {:induction false} LevelHash(pair: (Hash, Hash) -> Hash, txids: seq<Hash>, h: nat)
    ensures |Level(pair, txids, h)| == CalcTreeWidth(|txids|, h)
    ensures forall pos: nat | pos < CalcTreeWidth(|txids|, h) :: CalcHash(pair, txids, h, pos) == Level(pair, txids, h)[pos]
    decreases h
  {
    hide CalcTreeWidth, CalcHash, Paired;
    if h == 0 {
      LeafLevel(pair, txids);
    } else {
      LevelHash(pair, txids, h - 1);
      WidthHalf(|txids|, h);
      forall pos: nat | pos < CalcTreeWidth(|txids|, h) ensures CalcHash(pair, txids, h, pos) == Level(pair, txids, h)[pos] {
        LevelNode(pair, txids, h, Level(pair, txids, h - 1), pos);
      }
    }
  }

  lemma LeafLevel(pair: (Hash, Hash) -> Hash, txids: seq<Hash>)
    ensures CalcTreeWidth(|txids|, 0) == |txids|
    ensures forall pos: nat | pos < |txids| :: CalcHash(pair, txids, 0, pos) == txids[pos]
  {
    assert Pow2(0) == 1;
  }

  lemma {:induction false} LevelRoot(pair: (Hash, Hash) -> Hash, txids: seq<Hash>, h: nat)
    requires |txids| > 0 && CalcTreeWidth(|txids|, h) >= 1
    ensures |Level(pair, txids, h)| == CalcTreeWidth(|txids|, h)
    ensures MerkleRoot(pair, Level(pair, txids, h)) == CalcHash(pair, txids, HeightFrom(|txids|, h), 0)
    decreases CalcTreeWidth(|txids|, h)
  {
    hide CalcTreeWidth, CalcHash;
    LevelHash(pair, txids, h);
    if CalcTreeWidth(|txids|, h) > 1 {
      WidthShrinks(|txids|, h);
      LevelRoot(pair, txids, h + 1);
    }
  }

  /** The root that is extracted is the merkle root computed level by level. */
  lemma RootExact(pair: (Hash, Hash) -> Hash, txids: seq<Hash>)
    requires |txids| > 0
    ensures Root(pair, txids) == MerkleRoot(pair, txids)
  {
    hide CalcTreeWidth, CalcHash;
    WidthLeaves(|txids|, 0, 0);
    LevelRoot(pair, txids, 0);
  }

  /** An object with the true number of transactions that yields the true root reports only
      transactions that are really at the reported indices, in ascending order. */
  lemma Soundness(pair: (Hash, Hash) -> Hash, txids: seq<Hash>, bits: seq<bool>, hashes: seq<Hash>)
    requires Injective(pair) && |txids| > 0
    requires var r := ExtractMatches(pair, |txids|, bits, hashes); r.Extracted? && r.root == Root(pair, txids)
    ensures var r := ExtractMatches(pair, |txids|, bits, hashes); Genuine(txids, r.found, r.at, 0, |txids|)
  {
    hide CalcTreeWidth, Pow2, Extract, Height, Genuine, CalcHash;
    WholeTree(|txids|);
    ExtractSound(pair, txids, bits, hashes, Height(|txids|), 0, 0, 0);
  }

  //////////////////////////////////////////////////////////////////////////////
  // Flag bits on the wire
  //////////////////////////////////////////////////////////////////////////////

  /** `bytes` holds the first `k` of `bits`, least significant bit first, and zeros after them. */
  ghost predicate Packed(bytes: seq<bv8>, bits: seq<bool>, k: nat) {
    && k <= |bits| && |bytes| == (|bits| + 7) / 8
    && forall p | 0 <= p < 8 * |bytes| :: Has(bytes[p / 8], p % 8) == (p < k && bits[p])
  }

  method PackBits(bits: seq<bool>) returns (bytes: seq<bv8>)
    ensures Packed(bytes, bits, |bits|)
  {
    hide Bit, Has;
    bytes := seq((|bits| + 7) / 8, _ => 0);
    forall p | 0 <= p < 8 * |bytes| ensures !Has(bytes[p / 8], p % 8) {
      Uniform(p % 8);
    }
    for p := 0 to |bits|
      invariant Packed(bytes, bits, p)
    {
      ghost var before := bytes;
      if bits[p] {
        bytes := bytes[p / 8 := bytes[p / 8] | Bit(p % 8)];
      }
      forall q | 0 <= q < 8 * |bytes|
        ensures Has(bytes[q / 8], q % 8) == (q < p + 1 && bits[q])
      {
        SetBit(before[p / 8], p % 8, q % 8);
      }
    }
  }

  method UnpackBits(bytes: seq<bv8>) returns (bits: seq<bool>)
    ensures |bits| == 8 * |bytes|
    ensures forall p | 0 <= p < |bits| :: bits[p] == Has(bytes[p / 8], p % 8)
  {
    bits := [];
    for p := 0 to 8 * |bytes|
      invariant |bits| == p
      invariant forall q | 0 <= q < p :: bits[q] == Has(bytes[q / 8], q % 8)
    {
      bits := bits + [Has(bytes[p / 8], p % 8)];
    }
  }

  /** Unpacking what was packed gives the bits back, followed by zeros to the next whole byte. */
  lemma UnpackedBits(bits: seq<bool>, bytes: seq<bv8>, unpacked: seq<bool>)
    requires Packed(bytes, bits, |bits|)
    requires |unpacked| == 8 * |bytes|
    requires forall p | 0 <= p < |unpacked| :: unpacked[p] == Has(bytes[p / 8], p % 8)
    ensures |bits| <= |unpacked| && (|unpacked| + 7) / 8 == (|bits| + 7) / 8
    ensures unpacked == bits + seq(|unpacked| - |bits|, _ => false)
  {
  }

  /** The round trip through the wire format: the bits are packed by the sender and unpacked by the
      receiver. */
  lemma WireRoundTrip(b: Block, bytes: seq<bv8>, unpacked: seq<bool>)
    requires Injective(b.pair) && Distinct(b.txids) && |b.txids| == |b.matches|
    requires 0 < |b.txids| <= MAX_TRANSACTIONS
    requires var enc := Build(b, Height(|b.txids|), 0); Packed(bytes, enc.bits, |enc.bits|)
    requires |unpacked| == 8 * |bytes|
    requires forall p | 0 <= p < |unpacked| :: unpacked[p] == Has(bytes[p / 8], p % 8)
    ensures var n, enc := |b.txids|, Build(b, Height(|b.txids|), 0);
            var ps := Matched(b.matches, 0, n);
            ExtractMatches(b.pair, n, unpacked, enc.hashes)
            == Extracted(Root(b.pair, b.txids), TxidsAt(b.txids, ps), ps)
    ensures ExactMatches(b, ExtractMatches(b.pair, |b.txids|, unpacked, Build(b, Height(|b.txids|), 0).hashes))
  {
    hide CalcTreeWidth, Build, Height, ExtractMatches, Root, Matched;
    var enc := Build(b, Height(|b.txids|), 0);
    UnpackedBits(enc.bits, bytes, unpacked);
    var padding := seq(|unpacked| - |enc.bits|, _ => false);
    assert unpacked == enc.bits + padding;
    RoundTrip(b, padding);
  }

  //////////////////////////////////////////////////////////////////////////////
  // The class
  //////////////////////////////////////////////////////////////////////////////

  class PartialMerkleTree {
    const pair: (Hash, Hash) -> Hash
    var nTransactions: nat
    var vBits: seq<bool>
    var vHash: seq<Hash>
    var fBad: bool

    method CalcHeight() returns (height: nat)
      ensures height == Height(nTransactions)
    {
      height := 0;
      while CalcTreeWidth(nTransactions, height) > 1
        invariant HeightFrom(nTransactions, height) == Height(nTransactions)
        decreases CalcTreeWidth(nTransactions, height)
      {
        WidthShrinks(nTransactions, height);
        height := height + 1;
      }
    }

    /** The tree of a block with at least one transaction. */
    constructor (pair: (Hash, Hash) -> Hash, txids: seq<Hash>, matches: seq<bool>)
      requires 0 < |txids| == |matches|
      ensures this.pair == pair && nTransactions == |txids| && !fBad
      ensures Encoding(vBits, vHash) == Build(Block(pair, txids, matches), Height(|txids|), 0)
    {
      this.pair := pair;
      nTransactions := |txids|;
      vBits, vHash, fBad := [], [], false;
      new;
      var height := CalcHeight();
      TraverseAndBuild(Block(pair, txids, matches), height, 0);
    }

    method TraverseAndBuild(b: Block, h: nat, pos: nat)
      requires b.pair == pair && |b.txids| == |b.matches| == nTransactions && pos < CalcTreeWidth(nTransactions, h)
      modifies `vBits, `vHash
      ensures vBits == old(vBits) + Build(b, h, pos).bits && vHash == old(vHash) + Build(b, h, pos).hashes
      decreases h
    {
      hide *;
      var parentOfMatch := AnyMatch(b, h, pos);
      vBits := vBits + [parentOfMatch];
      if h == 0 || !parentOfMatch {
        BuildLeaf(b, h, pos);
        vHash := vHash + [CalcHash(pair, b.txids, h, pos)];
      } else {
        BuildNode(b, h, pos);
        TraverseAndBuild(b, h - 1, 2 * pos);
        ghost var bits, left := old(vBits), Build(b, h - 1, 2 * pos);
        if 2 * pos + 1 < CalcTreeWidth(nTransactions, h - 1) {
          ghost var right := Build(b, h - 1, 2 * pos + 1);
          TraverseAndBuild(b, h - 1, 2 * pos + 1);
          assert bits + [true] + left.bits + right.bits == bits + ([true] + (left.bits + right.bits));
          assert old(vHash) + left.hashes + right.hashes == old(vHash) + (left.hashes + right.hashes);
        } else {
          assert bits + [true] + left.bits == bits + ([true] + left.bits);
        }
      }
    }

    /** The loop that looks for a match among the leaves below a node. */
    method AnyMatch(b: Block, h: nat, pos: nat) returns (any: bool)
      requires |b.txids| == |b.matches| && pos < CalcTreeWidth(|b.txids|, h)
      ensures any == (MatchedBelow(b, h, pos) != [])
    {
      hide CalcTreeWidth, Pow2;
      var n := |b.txids|;
      LeavesOrdered(n, h, pos);
      any := false;
      for p := First(h, pos) to Last(n, h, pos)
        invariant (any || Matched(b.matches, p, Last(n, h, pos)) != []) == (MatchedBelow(b, h, pos) != [])
      {
        any := any || b.matches[p];
      }
    }

    /** Appends to `found` and `at`, advances the counters and may set fBad. */
    method TraverseAndExtract(h: nat, pos: nat, nBits: nat, nHashes: nat, found: seq<Hash>, at: seq<nat>)
      returns (hash: Hash, nBits': nat, nHashes': nat, found': seq<Hash>, at': seq<nat>)
      modifies `fBad
      ensures var e := Extract(pair, nTransactions, vBits, vHash, h, pos, nBits, nHashes);
              && hash == e.hash && nBits' == e.nBits && nHashes' == e.nHashes
              && found' == found + e.found && at' == at + e.at && fBad == (old(fBad) || e.bad)
      decreases h
    {
      hide *;
      if nBits >= |vBits| || h == 0 || !vBits[nBits] {
        ExtractStop(pair, nTransactions, vBits, vHash, h, pos, nBits, nHashes);
      }
      hash, nBits', nHashes', found', at' := ZERO, nBits, nHashes, found, at;
      if nBits >= |vBits| {
        fBad := true;
        return;
      }
      nBits' := nBits + 1;
      if h == 0 || !vBits[nBits] {
        if nHashes >= |vHash| {
          fBad := true;
          return;
        }
        hash, nHashes' := vHash[nHashes], nHashes + 1;
        if h == 0 && vBits[nBits] {
          found', at' := found + [hash], at + [pos];
        }
      } else {
        ExtractNode(pair, nTransactions, vBits, vHash, h, pos, nBits, nHashes);
        ghost var l := Extract(pair, nTransactions, vBits, vHash, h - 1, 2 * pos, nBits + 1, nHashes);
        var left;
        left, nBits', nHashes', found', at' := TraverseAndExtract(h - 1, 2 * pos, nBits', nHashes, found, at);
        var right := left;
        if 2 * pos + 1 < CalcTreeWidth(nTransactions, h - 1) {
          ghost var r := Extract(pair, nTransactions, vBits, vHash, h - 1, 2 * pos + 1, l.nBits, l.nHashes);
          right, nBits', nHashes', found', at' := TraverseAndExtract(h - 1, 2 * pos + 1, nBits', nHashes', found', at');
          assert found + l.found + r.found == found + (l.found + r.found);
          assert at + l.at + r.at == at + (l.at + r.at);
          if right == left {
            fBad := true;
          }
        }
        hash := pair(left, right);
      }
    }

    /** Like the source, clears the matches but appends to the indices it is given, and never
        resets fBad. */
    method ExtractAll(at: seq<nat>) returns (root: Hash, found: seq<Hash>, at': seq<nat>)
      modifies `fBad
      ensures !old(fBad) ==>
                match ExtractMatches(pair, nTransactions, vBits, vHash)
                case Failed => root == ZERO
                case Extracted(r, f, a) => root == r && found == f && at' == at + a && !fBad
      ensures old(fBad) ==> root == ZERO && fBad
    {
      root, found, at' := ZERO, [], at;
      if nTransactions == 0 || nTransactions > MAX_TRANSACTIONS || |vHash| > nTransactions || |vBits| < |vHash| {
        return;
      }
      var height := CalcHeight();
      var hash, nBits, nHashes;
      hash, nBits, nHashes, found, at' := TraverseAndExtract(height, 0, 0, 0, found, at);
      if fBad || (nBits + 7) / 8 != (|vBits| + 7) / 8 || nHashes != |vHash| {
        return;
      }
      root := hash;
    }
  }
}
