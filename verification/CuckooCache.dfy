/** The cuckoo cache of src/cuckoocache.h: a table in which every element may sit in one of eight
    slots, with one garbage flag and one epoch flag for each slot.

    Concurrent readers are not part of the model: an erase is a step like any other. */
module CuckooCache {
  import opened Basics
  import opened Bits

  const WORD: nat := 0x1_0000_0000

  type Word = n: nat | n < WORD witness 0

  //////////////////////////////////////////////////////////////////////////////
  // The state as a value
  //////////////////////////////////////////////////////////////////////////////

  /** `discard[i]` is the collection flag of slot `i`: what the slot holds may be overwritten.
      `epoch[i]` says whether slot `i` was filled in the current epoch. */
  datatype State<Element> = State(
    table: seq<Element>,
    discard: seq<bool>,
    epoch: seq<bool>,
    counter: nat
  )

  ghost predicate Shaped(s: State) {
    |s.table| == |s.discard| == |s.epoch|
  }

  /** The elements that must not be overwritten. */
  ghost function Live<Element(!new)>(s: State<Element>): set<Element>
    requires Shaped(s)
  {
    set i | 0 <= i < |s.table| && !s.discard[i] :: s.table[i]
  }

  /** The live slots of the current epoch. */
  ghost function Recent(s: State): set<int>
    requires Shaped(s)
  {
    set i | 0 <= i < |s.table| && s.epoch[i] && !s.discard[i]
  }

  ghost function RecentBelow(s: State, n: nat): set<int>
    requires Shaped(s) && n <= |s.table|
  {
    set i | 0 <= i < n && s.epoch[i] && !s.discard[i]
  }

  lemma RecentNext(s: State, n: nat)
    requires Shaped(s) && n < |s.table|
    ensures |RecentBelow(s, n + 1)| == |RecentBelow(s, n)| + One(s.epoch[n] && !s.discard[n])
  {
    if s.epoch[n] && !s.discard[n] {
      assert RecentBelow(s, n + 1) == RecentBelow(s, n) + {n as int};
    } else {
      assert RecentBelow(s, n + 1) == RecentBelow(s, n);
    }
  }

  lemma RecentEnds(s: State)
    requires Shaped(s)
    ensures RecentBelow(s, 0) == {} && RecentBelow(s, |s.table|) == Recent(s)
  {
  }

  type Hash<!Element> = (nat, Element) -> Word

  /** A 32-bit hash scaled down to a slot number. */
  function Scaled(h: Word, size: nat): (n: nat)
    requires size > 0
    ensures n < size
  {
    assert h * size < WORD * size by {
      Product(h, WORD, size);
    }
    h * size / WORD
  }

  lemma Product(a: nat, b: nat, c: nat)
    requires a < b && c > 0
    ensures a * c < b * c
  {
  }

  /** The eight slots of `e`. */
  function ComputeHashes<Element>(hash: Hash<Element>, size: nat, e: Element): (locs: seq<nat>)
    requires size > 0
    ensures |locs| == 8 && forall k | 0 <= k < 8 :: locs[k] < size
  {
    [Scaled(hash(0, e), size), Scaled(hash(1, e), size), Scaled(hash(2, e), size), Scaled(hash(3, e), size),
     Scaled(hash(4, e), size), Scaled(hash(5, e), size), Scaled(hash(6, e), size), Scaled(hash(7, e), size)]
  }

  /** Slot `k` is the `k`-th hash scaled from 32 bits to the size of the table, rounded down. */
  lemma ComputeHashesExact<Element>(hash: Hash<Element>, size: nat, e: Element, k: nat)
    requires size > 0 && k < 8
    ensures var loc := ComputeHashes(hash, size, e)[k];
            loc * WORD <= hash(k, e) * size < (loc + 1) * WORD
  {
    assert ComputeHashes(hash, size, e)[k] == Scaled(hash(k, e), size);
    Floor(hash(k, e) * size);
  }

  lemma Floor(x: nat)
    ensures x / WORD * WORD <= x < (x / WORD + 1) * WORD
  {
  }

  /** Every element sits in one of its own slots. Slots that still hold the value `absent` they were
      created with and were never taken are exempt. */
  ghost predicate Placed<Element>(hash: Hash<Element>, absent: Element, s: State<Element>)
    requires Shaped(s) && |s.table| > 0
  {
    forall i | 0 <= i < |s.table| && (s.table[i] != absent || !s.discard[i]) ::
      i in ComputeHashes(hash, |s.table|, s.table[i])
  }

  /** No element sits in two slots. */
  ghost predicate Once<Element>(absent: Element, s: State<Element>) {
    forall i, j | 0 <= i < j < |s.table| && s.table[i] == s.table[j] :: s.table[i] == absent
  }

  function EpochSize(size: nat): (n: nat)
    ensures n >= 1
  {
    Max(1, 45 * size % WORD / 100)
  }

  /** An epoch is 45 percent of the table, rounded down, as long as that is counted within 32 bits. */
  lemma EpochSizeExact(size: nat)
    requires 45 * size < WORD
    ensures EpochSize(size) == 1 || 100 * EpochSize(size) <= 45 * size
    ensures 45 * size < 100 * (EpochSize(size) + 1)
  {
  }

  /** The bound on the live entries of the current epoch. */
  function EpochLimit(size: nat): nat {
    EpochSize(size) + Max(1, EpochSize(size) / 16)
  }

  ghost predicate Inv<Element>(hash: Hash<Element>, absent: Element, s: State<Element>) {
    && Shaped(s) && |s.table| > 0
    && Placed(hash, absent, s)
    && Once(absent, s)
    && |Recent(s)| + s.counter <= EpochLimit(|s.table|)
  }

  /** In the current epoch there are never more live entries than the limit. */
  lemma RecentBound<Element>(hash: Hash<Element>, absent: Element, s: State<Element>)
    requires Inv(hash, absent, s)
    ensures |Recent(s)| <= EpochSize(|s.table|) + Max(1, EpochSize(|s.table|) / 16)
  {
  }

  //////////////////////////////////////////////////////////////////////////////
  // Aging
  //////////////////////////////////////////////////////////////////////////////

  ghost predicate Ages(s: State)
    requires Shaped(s)
  {
    s.counter == 0 && |Recent(s)| >= EpochSize(|s.table|)
  }

  /** The state after the check that comes before every insertion. */
  ghost function EpochChecked<Element>(s: State<Element>): (t: State<Element>)
    requires Shaped(s)
    ensures Shaped(t) && t.table == s.table
  {
    if Ages(s) then
      s.(discard := seq(|s.table|, i requires 0 <= i < |s.table| => s.discard[i] || !s.epoch[i]),
         epoch := seq(|s.table|, _ => false),
         counter := EpochSize(|s.table|))
    else if s.counter == 0 then
      s.(counter := Max(1, Max(EpochSize(|s.table|) / 16, EpochSize(|s.table|) - |Recent(s)|)))
    else
      s.(counter := s.counter - 1)
  }

  /** After the check there is room for one more entry in the current epoch. */
  lemma EpochCheckedInv<Element>(hash: Hash<Element>, absent: Element, s: State<Element>)
    requires Inv(hash, absent, s)
    ensures Inv(hash, absent, EpochChecked(s))
    ensures |Recent(EpochChecked(s))| + EpochChecked(s).counter + 1 <= EpochLimit(|s.table|)
  {
    var t := EpochChecked(s);
    if Ages(s) {
      assert Recent(t) == {};
    } else {
      assert Recent(t) == Recent(s);
    }
  }

  /** Aging gives up exactly the live slots of the old epoch, and happens only when the current epoch
      is full. */
  lemma EpochCheckedLive<Element(!new)>(hash: Hash<Element>, absent: Element, s: State<Element>)
    requires Inv(hash, absent, s)
    ensures forall i | 0 <= i < |s.table| ::
              !EpochChecked(s).discard[i] <==> !s.discard[i] && (Ages(s) ==> s.epoch[i])
    ensures Live(EpochChecked(s)) <= Live(s)
    ensures Live(EpochChecked(s)) != Live(s) ==> |Recent(s)| >= EpochSize(|s.table|)
    ensures forall i <- Recent(s) :: s.table[i] in Live(EpochChecked(s))
  {
    var t := EpochChecked(s);
    forall i <- Recent(s) ensures s.table[i] in Live(t) {
      assert !t.discard[i] && t.table[i] == s.table[i];
    }
    if !Ages(s) {
      assert Live(t) == Live(s);
    }
  }

  //////////////////////////////////////////////////////////////////////////////
  // Insertion
  //////////////////////////////////////////////////////////////////////////////

  /** An element already in the table is kept and moved to the current epoch. */
  function Kept<Element>(s: State<Element>, loc: nat): State<Element>
    requires loc < |s.discard| && loc < |s.epoch|
  {
    s.(discard := s.discard[loc := false], epoch := s.epoch[loc := true])
  }

  /** `e` overwrites a slot that may be overwritten. */
  function Stored<Element>(s: State<Element>, loc: nat, e: Element, recent: bool): State<Element>
    requires loc < |s.table| && loc < |s.discard| && loc < |s.epoch|
  {
    s.(table := s.table[loc := e], discard := s.discard[loc := false], epoch := s.epoch[loc := recent])
  }

  /** `e` takes a live slot, whose element goes in hand. */
  function Swapped<Element>(s: State<Element>, loc: nat, e: Element, recent: bool): State<Element>
    requires loc < |s.table| && loc < |s.epoch|
  {
    s.(table := s.table[loc := e], epoch := s.epoch[loc := recent])
  }

  /** The least index from `k` on of a slot that may be overwritten, or the number of slots. */
  function FirstOpen(discard: seq<bool>, locs: seq<nat>, k: nat): (j: nat)
    requires k <= |locs| && forall i | 0 <= i < |locs| :: locs[i] < |discard|
    ensures k <= j <= |locs| && (j < |locs| ==> discard[locs[j]])
    ensures forall i | k <= i < j :: !discard[locs[i]]
    decreases |locs| - k
  {
    if k == |locs| || discard[locs[k]] then k else FirstOpen(discard, locs, k + 1)
  }

  /** The least index from `k` on of a slot that holds `e`, or the number of slots. */
  function FirstAt<Element(==)>(table: seq<Element>, locs: seq<nat>, e: Element, k: nat): (j: nat)
    requires k <= |locs| && forall i | 0 <= i < |locs| :: locs[i] < |table|
    ensures k <= j <= |locs| && (j < |locs| ==> table[locs[j]] == e)
    ensures forall i | k <= i < j :: table[locs[i]] != e
    decreases |locs| - k
  {
    if k == |locs| || table[locs[k]] == e then k else FirstAt(table, locs, e, k + 1)
  }

  /** The least index from `k` on where `x` is, or the number of slots. */
  function Position(locs: seq<nat>, x: nat, k: nat): (j: nat)
    requires k <= |locs|
    ensures k <= j <= |locs| && (j < |locs| ==> locs[j] == x)
    ensures forall i | k <= i < j :: locs[i] != x
    decreases |locs| - k
  {
    if k == |locs| || locs[k] == x then k else Position(locs, x, k + 1)
  }

  /** The slot after the one last looked at, cyclically; the second slot when there was none. */
  function NextLoc(locs: seq<nat>, last: nat): (loc: nat)
    requires |locs| == 8
    ensures loc in locs
    ensures (forall i, j | 0 <= i < j < 8 :: locs[i] != locs[j]) ==> loc != last
  {
    locs[(1 + Position(locs, last, 0)) % 8]
  }

  /** The slot after the last one, going round; the second one if the last slot is none of them. */
  lemma NextLocExact(locs: seq<nat>, last: nat, k: nat)
    requires |locs| == 8 && k <= 8 && (k < 8 ==> locs[k] == last) && forall i | 0 <= i < k :: locs[i] != last
    ensures NextLoc(locs, last) == locs[(k + 1) % 8]
  {
  }

  /** The chain of displacements that finds a place for `hand`, at most `depth` long. */
  ghost function Displaced<Element>(hash: Hash<Element>, s: State<Element>, hand: Element, recent: bool,
      last: nat, depth: nat): State<Element>
    requires Shaped(s) && |s.table| > 0
    decreases depth
  {
    var locs := ComputeHashes(hash, |s.table|, hand);
    var k := FirstOpen(s.discard, locs, 0);
    var next := NextLoc(locs, last);
    if depth == 0 then s
    else if k < 8 then Stored(s, locs[k], hand, recent)
    else Displaced(hash, Swapped(s, next, hand, recent), s.table[next], s.epoch[next], next, depth - 1)
  }

  lemma DisplacedEnd<Element>(hash: Hash<Element>, s: State<Element>, hand: Element, recent: bool, last: nat)
    requires Shaped(s) && |s.table| > 0
    ensures Displaced(hash, s, hand, recent, last, 0) == s
  {
  }

  /** One turn of the chain. */
  lemma DisplacedNext<Element>(hash: Hash<Element>, s: State<Element>, hand: Element, recent: bool, last: nat, depth: nat)
    requires Shaped(s) && |s.table| > 0 && depth > 0
    ensures var locs := ComputeHashes(hash, |s.table|, hand);
            var k, next := FirstOpen(s.discard, locs, 0), NextLoc(locs, last);
            Displaced(hash, s, hand, recent, last, depth)
            == if k < 8 then Stored(s, locs[k], hand, recent)
               else Displaced(hash, Swapped(s, next, hand, recent), s.table[next], s.epoch[next], next, depth - 1)
  {
  }

  function One(b: bool): nat {
    if b then 1 else 0
  }

  /** In the middle of an insertion into `t`: nothing is lost between the table and the element in
      hand, which is nowhere in the table. */
  ghost predicate Carrying<Element(!new)>(hash: Hash<Element>, absent: Element, t: State<Element>, e: Element,
      s: State<Element>, hand: Element, recent: bool)
    requires Shaped(t)
  {
    && Shaped(s) && |s.table| == |t.table| && |s.table| > 0
    && s.discard == t.discard && s.counter == t.counter
    && Placed(hash, absent, s) && Once(absent, s)
    && (hand in s.table ==> hand == absent)
    && Live(s) + {hand} == Live(t) + {e}
    && |Recent(s)| + One(recent) == |Recent(t)| + 1
  }

  /** What an insertion of `e` into the checked state `t` may do: the live elements are those of `t`
      and `e`, less at most one; nothing else is in the table that was not there; and the current
      epoch has grown by at most one. */
  ghost predicate Inserted<Element(!new)>(hash: Hash<Element>, absent: Element, t: State<Element>, e: Element,
      s: State<Element>)
    requires Shaped(t)
  {
    && Shaped(s) && |s.table| == |t.table| && |s.table| > 0
    && Placed(hash, absent, s) && Once(absent, s)
    && Live(s) <= Live(t) + {e}
    && |Live(t) + {e} - Live(s)| <= 1
    && |Recent(s)| <= |Recent(t)| + 1
    && s.counter == t.counter
  }

  lemma InsertedInv<Element(!new)>(hash: Hash<Element>, absent: Element, s: State<Element>, e: Element,
      u: State<Element>)
    requires Inv(hash, absent, s)
    requires Inserted(hash, absent, EpochChecked(s), e, u)
    ensures Inv(hash, absent, u)
  {
    EpochCheckedInv(hash, absent, s);
  }

  lemma SlotChange(s: State, loc: nat, now: bool, t: State)
    requires Shaped(s) && Shaped(t) && |s.table| == |t.table| && loc < |s.table|
    requires t.epoch == s.epoch[loc := now]
    requires t.discard == s.discard[loc := false]
    ensures |Recent(t)| == |Recent(s)| + One(now) - One(s.epoch[loc] && !s.discard[loc])
  {
    var rest := Recent(s) - {loc as int};
    assert Recent(s) == if s.epoch[loc] && !s.discard[loc] then rest + {loc as int} else rest;
    assert Recent(t) == if now then rest + {loc as int} else rest;
  }

  lemma KeptOk<Element(!new)>(hash: Hash<Element>, absent: Element, t: State<Element>, e: Element, loc: nat)
    requires Shaped(t) && |t.table| > 0
    requires Placed(hash, absent, t) && Once(absent, t)
    requires loc in ComputeHashes(hash, |t.table|, e)
    requires loc < |t.table| && t.table[loc] == e
    ensures Inserted(hash, absent, t, e, Kept(t, loc))
    ensures Live(Kept(t, loc)) == Live(t) + {e}
  {
    var s := Kept(t, loc);
    SlotChange(t, loc, true, s);
    assert Live(s) == Live(t) + {e} by {
      assert !s.discard[loc] && s.table[loc] == e;
      forall x <- Live(t) ensures x in Live(s) {
        var i :| 0 <= i < |t.table| && !t.discard[i] && t.table[i] == x;
        assert !s.discard[i] && s.table[i] == x;
      }
    }
    assert Live(t) + {e} - Live(s) == {};
  }

  lemma StoredPlaced<Element(!new)>(hash: Hash<Element>, absent: Element, s: State<Element>, hand: Element,
      loc: nat, recent: bool)
    requires Shaped(s) && |s.table| > 0 && loc < |s.table|
    requires Placed(hash, absent, s) && Once(absent, s)
    requires hand in s.table ==> hand == absent
    requires loc in ComputeHashes(hash, |s.table|, hand)
    ensures Placed(hash, absent, Stored(s, loc, hand, recent)) && Once(absent, Stored(s, loc, hand, recent))
    ensures Placed(hash, absent, Swapped(s, loc, hand, recent)) && Once(absent, Swapped(s, loc, hand, recent))
  {
  }

  lemma StoredOk<Element(!new)>(hash: Hash<Element>, absent: Element, t: State<Element>, e: Element,
      s: State<Element>, hand: Element, recent: bool, loc: nat)
    requires Shaped(t) && Carrying(hash, absent, t, e, s, hand, recent)
    requires loc in ComputeHashes(hash, |t.table|, hand)
    requires loc < |s.table| && s.discard[loc]
    ensures Inserted(hash, absent, t, e, Stored(s, loc, hand, recent))
    ensures Live(Stored(s, loc, hand, recent)) == Live(t) + {e}
  {
    hide Placed, Once, Live, Recent;
    var u := Stored(s, loc, hand, recent);
    StoredPlaced(hash, absent, s, hand, loc, recent);
    SlotChange(s, loc, recent, u);
    StoredLive(s, loc, hand, recent);
    assert Live(t) + {e} - Live(u) == {};
  }

  lemma StoredLive<Element(!new)>(s: State<Element>, loc: nat, hand: Element, recent: bool)
    requires Shaped(s) && loc < |s.table| && s.discard[loc]
    ensures Live(Stored(s, loc, hand, recent)) == Live(s) + {hand}
  {
    var u := Stored(s, loc, hand, recent);
    assert !u.discard[loc] && u.table[loc] == hand;
    forall x <- Live(s) ensures x in Live(u) {
      var i :| 0 <= i < |s.table| && !s.discard[i] && s.table[i] == x;
      assert !u.discard[i] && u.table[i] == x;
    }
  }

  lemma SwappedOk<Element(!new)>(hash: Hash<Element>, absent: Element, t: State<Element>, e: Element,
      s: State<Element>, hand: Element, recent: bool, loc: nat)
    requires Shaped(t) && Carrying(hash, absent, t, e, s, hand, recent)
    requires loc in ComputeHashes(hash, |t.table|, hand)
    requires loc < |s.table| && !s.discard[loc]
    ensures Carrying(hash, absent, t, e, Swapped(s, loc, hand, recent), s.table[loc], s.epoch[loc])
  {
    hide Placed, Live, Recent;
    var u := Swapped(s, loc, hand, recent);
    StoredPlaced(hash, absent, s, hand, loc, recent);
    assert u.discard == s.discard[loc := false];
    SlotChange(s, loc, recent, u);
    SwappedLive(s, loc, hand, recent);
  }

  lemma SwappedLive<Element(!new)>(s: State<Element>, loc: nat, hand: Element, recent: bool)
    requires Shaped(s) && loc < |s.table| && !s.discard[loc]
    ensures Live(Swapped(s, loc, hand, recent)) + {s.table[loc]} == Live(s) + {hand}
  {
    var u := Swapped(s, loc, hand, recent);
    assert !u.discard[loc] && u.table[loc] == hand;
    forall x <- Live(s) ensures x in Live(u) + {s.table[loc]} {
      var i :| 0 <= i < |s.table| && !s.discard[i] && s.table[i] == x;
      assert i != loc ==> !u.discard[i] && u.table[i] == x;
    }
  }

  /** When the depth runs out, the element in hand is the one that is lost. */
  lemma DroppedOk<Element(!new)>(hash: Hash<Element>, absent: Element, t: State<Element>, e: Element,
      s: State<Element>, hand: Element, recent: bool)
    requires Shaped(t) && Carrying(hash, absent, t, e, s, hand, recent)
    ensures Inserted(hash, absent, t, e, s)
    ensures Live(t) + {e} - Live(s) <= {hand}
  {
    hide Placed, Once;
    assert Live(t) + {e} - Live(s) <= {hand};
    if hand in Live(t) + {e} - Live(s) {
      assert Live(t) + {e} - Live(s) == {hand};
    } else {
      assert Live(t) + {e} - Live(s) == {};
    }
  }

  //////////////////////////////////////////////////////////////////////////////
  // Flags packed into bytes
  //////////////////////////////////////////////////////////////////////////////

  /** The number of bytes allocated for the flags, which is computed in 32 bits. */
  function FlagBytes(size: Word): nat {
    (size + 7) % WORD / 8
  }

  /** They are enough exactly up to sizes of 2^32 - 8. */
  lemma FlagBytesFit(size: Word)
    ensures size <= 8 * FlagBytes(size) <==> size + 7 < WORD
  {
    if size + 7 >= WORD {
      assert (size + 7) % WORD == size + 7 - WORD;
    }
  }

  class BitPackedFlags {
    const size: nat
    const mem: array<bv8>

    ghost predicate Valid() {
      8 * mem.Length >= size
    }

    ghost function Flags(): (f: seq<bool>)
      requires Valid()
      reads mem
      ensures |f| == size
    {
      seq(size, i requires 0 <= i < size reads mem => Has(mem[i / 8], i % 8))
    }

    /** All flags are set at first. */
    constructor (size: nat)
      requires size + 7 < WORD
      ensures Valid() && fresh(mem) && this.size == size
      ensures Flags() == seq(size, _ => true)
    {
      hide Bit, Has;
      this.size := size;
      FlagBytesFit(size);
      mem := new bv8[FlagBytes(size)];
      new;
      for i := 0 to mem.Length
        invariant forall j | 0 <= j < i :: mem[j] == 0xFF
      {
        mem[i] := 0xFF;
      }
      forall i | 0 <= i < size ensures Has(mem[i / 8], i % 8) {
        Uniform(i % 8);
      }
    }

    method BitSet(s: nat)
      requires Valid() && s < size
      modifies mem
      ensures Flags() == old(Flags())[s := true]
    {
      hide Bit, Has;
      mem[s / 8] := mem[s / 8] | Bit(s % 8);
      forall i | 0 <= i < size ensures Flags()[i] == (i == s || old(Flags())[i]) {
        SetBit(old(mem[s / 8]), s % 8, i % 8);
      }
    }

    method BitUnset(s: nat)
      requires Valid() && s < size
      modifies mem
      ensures Flags() == old(Flags())[s := false]
    {
      hide Bit, Has;
      mem[s / 8] := mem[s / 8] & !Bit(s % 8);
      forall i | 0 <= i < size ensures Flags()[i] == (i != s && old(Flags())[i]) {
        ClearBit(old(mem[s / 8]), s % 8, i % 8);
      }
    }

    method BitIsSet(s: nat) returns (b: bool)
      requires Valid() && s < size
      ensures b == Flags()[s]
    {
      b := Has(mem[s / 8], s % 8);
    }
  }

  //////////////////////////////////////////////////////////////////////////////
  // The cache
  //////////////////////////////////////////////////////////////////////////////

  datatype Op<Element> = Insert(e: Element) | Contains(e: Element, erase: bool)

  class Cache<Element(==, !new)> {
    /** A value-initialised element. */
    const absent: Element
    const hash: Hash<Element>
    const size: nat
    const epochSize: nat
    const depthLimit: nat
    const flags: BitPackedFlags
    var table: seq<Element>
    var epochFlags: seq<bool>
    var counter: nat

    ghost predicate Owned()
      reads this
    {
      && flags.Valid() && flags.size == size && size >= 2
      && |table| == |epochFlags| == size
      && epochSize == EpochSize(size)
    }

    ghost function Abs(): (s: State<Element>)
      requires Owned()
      reads this, flags.mem
      ensures Shaped(s) && |s.table| == size
    {
      State(table, flags.Flags(), epochFlags, counter)
    }

    ghost predicate Valid()
      reads this, flags.mem
    {
      Owned() && Inv(hash, absent, Abs())
    }

    /** setup. The depth limit, a floating-point logarithm of the size, is a parameter. */
    constructor (absent: Element, hash: Hash<Element>, newSize: nat, depthLimit: nat)
      requires newSize + 7 < WORD
      ensures Valid() && fresh(flags.mem)
      ensures this.hash == hash && this.absent == absent && size == Max(2, newSize)
      ensures Live(Abs()) == {}
    {
      var n := Max(2, newSize);
      this.absent := absent;
      this.hash := hash;
      this.depthLimit := depthLimit;
      size := n;
      table := seq(n, _ => absent);
      flags := new BitPackedFlags(n);
      epochFlags := seq(n, _ => false);
      epochSize := EpochSize(n);
      counter := EpochSize(n);
      new;
      assert Recent(Abs()) == {};
    }

    method EpochCheck()
      requires Owned()
      modifies this, flags.mem
      ensures Owned() && Abs() == EpochChecked(old(Abs()))
    {
      if counter != 0 {
        counter := counter - 1;
        return;
      }
      var unused := CountRecent();
      if unused >= epochSize {
        Age();
        counter := epochSize;
      } else {
        counter := Max(1, Max(epochSize / 16, epochSize - unused));
      }
    }

    method CountRecent() returns (n: nat)
      requires Owned()
      ensures n == |Recent(Abs())|
    {
      hide RecentBelow, Recent, Has;
      n := 0;
      RecentEnds(Abs());
      for i := 0 to size
        invariant n == |RecentBelow(Abs(), i)|
      {
        RecentNext(Abs(), i);
        var gone := flags.BitIsSet(i);
        if epochFlags[i] && !gone {
          n := n + 1;
        }
      }
    }

    method Age()
      requires Owned()
      modifies this`epochFlags, flags.mem
      ensures Owned()
      ensures forall i | 0 <= i < size ::
                Abs().discard[i] == (old(Abs()).discard[i] || !old(Abs()).epoch[i])
      ensures epochFlags == seq(size, _ => false)
    {
      for i := 0 to size
        invariant Owned()
        invariant forall j | 0 <= j < size ::
                    Abs().discard[j] == (old(Abs()).discard[j] || (j < i && !old(Abs()).epoch[j]))
        invariant forall j | 0 <= j < size :: epochFlags[j] == (i <= j && old(Abs()).epoch[j])
      {
        if epochFlags[i] {
          epochFlags := epochFlags[i := false];
        } else {
          flags.BitSet(i);
        }
      }
    }

    /** Where `e` already is, among its slots. */
    method Find(e: Element, locs: seq<nat>) returns (k: nat)
      requires Owned() && forall k | 0 <= k < |locs| :: locs[k] < size
      ensures k == FirstAt(table, locs, e, 0)
    {
      k := 0;
      while k < |locs| && table[locs[k]] != e
        invariant 0 <= k <= |locs|
        invariant FirstAt(table, locs, e, 0) == FirstAt(table, locs, e, k)
      {
        k := k + 1;
      }
    }

    /** The first of the slots that may be overwritten. */
    method FindOpen(locs: seq<nat>) returns (k: nat)
      requires Owned() && forall k | 0 <= k < |locs| :: locs[k] < size
      ensures k == FirstOpen(Abs().discard, locs, 0)
    {
      k := 0;
      while k < |locs|
        invariant 0 <= k <= |locs|
        invariant FirstOpen(Abs().discard, locs, 0) == FirstOpen(Abs().discard, locs, k)
      {
        var open := flags.BitIsSet(locs[k]);
        if open {
          return;
        }
        k := k + 1;
      }
    }

    method Insert(e: Element)
      requires Valid()
      modifies this, flags.mem
      ensures Valid()
      ensures Inserted(hash, absent, EpochChecked(old(Abs())), e, Abs())
      ensures Abs() == WithElement(hash, EpochChecked(old(Abs())), e, depthLimit)
      ensures Outcome(hash, absent, EpochChecked(old(Abs())), e, Abs(), depthLimit)
      ensures depthLimit == 1 ==> e in Live(Abs())
    {
      hide Outcome, Inv, WithElement, Placed, Once, EpochChecked, ComputeHashes, Live, Recent, Inserted;
      EpochCheckedInv(hash, absent, Abs());
      EpochCheck();
      InvFacts(hash, absent, Abs());
      WithElementOk(hash, absent, Abs(), e, depthLimit);
      InsertionLaw(hash, absent, Abs(), e, depthLimit);
      InsertChecked(e);
      InsertedInv(hash, absent, old(Abs()), e, Abs());
    }

    method InsertChecked(e: Element)
      requires Owned()
      modifies this, flags.mem
      ensures Owned() && Abs() == WithElement(hash, old(Abs()), e, depthLimit)
    {
      hide FirstAt, ComputeHashes, Displaced;
      var locs := ComputeHashes(hash, size, e);
      var at := Find(e, locs);
      if at < 8 {
        var loc := locs[at];
        flags.BitUnset(loc);
        epochFlags := epochFlags[loc := true];
        return;
      }
      Displace(e, locs);
    }

    /** Puts `e` into an open slot, moving other elements on to make room. */
    method Displace(e: Element, slots: seq<nat>)
      requires Owned() && slots == ComputeHashes(hash, size, e)
      modifies this, flags.mem
      ensures Owned() && Abs() == Displaced(hash, old(Abs()), e, true, WORD - 1, depthLimit)
    {
      hide FirstOpen, NextLoc, Position, ComputeHashes, Displaced;
      ghost var t := Abs();
      var last: nat := WORD - 1;
      var locs, hand, recent := slots, e, true;
      for depth := 0 to depthLimit
        invariant Owned()
        invariant locs == ComputeHashes(hash, size, hand)
        invariant Displaced(hash, t, e, true, WORD - 1, depthLimit)
                  == Displaced(hash, Abs(), hand, recent, last, depthLimit - depth)
      {
        ghost var s := Abs();
        DisplacedNext(hash, s, hand, recent, last, depthLimit - depth);
        var k := FindOpen(locs);
        if k < 8 {
          var loc := locs[k];
          table := table[loc := hand];
          flags.BitUnset(loc);
          epochFlags := epochFlags[loc := recent];
          assert Abs() == Stored(s, loc, hand, recent);
          return;
        }
        last := NextLoc(locs, last);
        var out, outRecent := table[last], epochFlags[last];
        table := table[last := hand];
        epochFlags := epochFlags[last := recent];
        assert Abs() == Swapped(s, last, hand, recent);
        hand, recent := out, outRecent;
        locs := ComputeHashes(hash, size, hand);
      }
      DisplacedEnd(hash, Abs(), hand, recent, last);
    }

    /** Erasing only marks the slot: the table stays as it is, and the element is still found. */
    method Contains(e: Element, erase: bool) returns (found: bool)
      requires Valid()
      modifies flags.mem
      ensures Valid()
      ensures e != absent ==> (found <==> e in table)
      ensures found && erase ==> Live(old(Abs())) - {e} <= Live(Abs()) <= Live(old(Abs()))
      ensures found && erase && e != absent ==> e !in Live(Abs())
      ensures !(found && erase) ==> Abs() == old(Abs())
    {
      hide EpochSize, EpochLimit;
      ghost var s := Abs();
      var locs := ComputeHashes(hash, size, e);
      var k := Find(e, locs);
      found := k < 8;
      if found && erase {
        var loc := locs[k];
        flags.BitSet(loc);
        ErasedOk(hash, absent, s, loc);
        assert Abs() == s.(discard := s.discard[loc := true]);
      }
    }

    /** Every run of insertions and look-ups keeps the invariant. */
    method Run(ops: seq<Op<Element>>)
      requires Valid()
      modifies this, flags.mem
      ensures Valid()
      ensures |Recent(Abs())| <= EpochLimit(size)
    {
      hide Placed, Once, Live, Recent, Inserted, EpochChecked, EpochSize, EpochLimit;
      for n := 0 to |ops|
        invariant Valid()
      {
        match ops[n]
        case Insert(e) => Insert(e);
        case Contains(e, erase) => var _ := Contains(e, erase);
      }
    }
  }

  /** The insertion of `e` into a checked state. */
  ghost function WithElement<Element>(hash: Hash<Element>, t: State<Element>, e: Element, depth: nat): State<Element>
    requires Shaped(t) && |t.table| > 0
  {
    var locs := ComputeHashes(hash, |t.table|, e);
    var k := FirstAt(t.table, locs, e, 0);
    if k < 8 then Kept(t, locs[k]) else Displaced(hash, t, e, true, WORD - 1, depth)
  }

  lemma {:induction false} DisplacedOk<Element(!new)>(hash: Hash<Element>, absent: Element, t: State<Element>, e: Element,
      s: State<Element>, hand: Element, recent: bool, last: nat, depth: nat)
    requires Shaped(t) && Carrying(hash, absent, t, e, s, hand, recent)
    ensures Inserted(hash, absent, t, e, Displaced(hash, s, hand, recent, last, depth))
    decreases depth
  {
    hide Placed, Once, ComputeHashes, Live, Recent, Inserted, FirstOpen, NextLoc;
    var locs := ComputeHashes(hash, |s.table|, hand);
    var k := FirstOpen(s.discard, locs, 0);
    var next := NextLoc(locs, last);
    if depth == 0 {
      DroppedOk(hash, absent, t, e, s, hand, recent);
    } else if k < 8 {
      StoredOk(hash, absent, t, e, s, hand, recent, locs[k]);
    } else {
      Closed(s, locs, next);
      SwappedOk(hash, absent, t, e, s, hand, recent, next);
      DisplacedOk(hash, absent, t, e, Swapped(s, next, hand, recent), s.table[next], s.epoch[next], next, depth - 1);
    }
  }

  /** An insertion loses at most one element, and none when the element is there already or one of
      its slots may be overwritten. */
  lemma WithElementOk<Element(!new)>(hash: Hash<Element>, absent: Element, t: State<Element>, e: Element, depth: nat)
    requires Shaped(t) && |t.table| > 0 && Placed(hash, absent, t) && Once(absent, t)
    ensures Inserted(hash, absent, t, e, WithElement(hash, t, e, depth))
    ensures depth > 0 && (exists k :: 0 <= k < 8 && Takes(hash, t, e, k)) ==>
              Live(WithElement(hash, t, e, depth)) == Live(t) + {e}
  {
    hide Placed, Once, ComputeHashes, Live, Recent, Inserted, FirstOpen, FirstAt, NextLoc, Carrying;
    var locs := ComputeHashes(hash, |t.table|, e);
    var k := FirstAt(t.table, locs, e, 0);
    if k < 8 {
      KeptOk(hash, absent, t, e, locs[k]);
    } else {
      NotThere(hash, absent, t, e);
      DisplacedOk(hash, absent, t, e, t, e, true, WORD - 1, depth);
      var j := FirstOpen(t.discard, locs, 0);
      if j < 8 {
        StoredOk(hash, absent, t, e, t, e, true, locs[j]);
      }
    }
  }

  /** Slot `k` of `e` holds `e` or may be overwritten. */
  ghost predicate Takes<Element>(hash: Hash<Element>, t: State<Element>, e: Element, k: nat)
    requires Shaped(t) && |t.table| > 0 && k < 8
  {
    var loc := ComputeHashes(hash, |t.table|, e)[k];
    t.table[loc] == e || t.discard[loc]
  }

  //////////////////////////////////////////////////////////////////////////////
  // What an insertion does, step by step
  //////////////////////////////////////////////////////////////////////////////

  /** What a slot holds: an element and whether it is of the current epoch. */
  type Cell<Element> = (Element, bool)

  ghost function Cells<Element>(s: State<Element>): (r: seq<Cell<Element>>)
    requires Shaped(s)
    ensures |r| == |s.table|
  {
    seq(|s.table|, i requires 0 <= i < |s.table| => (s.table[i], s.epoch[i]))
  }

  /** The slots after the first `n` swaps, the `i`-th of which puts `chain[i]` into slot `at[i]`. */
  ghost function AfterSwaps<Element>(cells: seq<Cell<Element>>, chain: seq<Cell<Element>>, at: seq<nat>, n: nat): (r: seq<Cell<Element>>)
    requires n <= |at| && n <= |chain| && forall i | 0 <= i < n :: at[i] < |cells|
    ensures |r| == |cells|
  {
    if n == 0 then cells else AfterSwaps(cells, chain, at, n - 1)[at[n - 1] := chain[n - 1]]
  }

  /** None of the slots of `e` may be overwritten. */
  ghost predicate NoneOpen<Element>(hash: Hash<Element>, t: State<Element>, e: Element)
    requires Shaped(t) && |t.table| > 0
  {
    forall k | 0 <= k < 8 :: !t.discard[ComputeHashes(hash, |t.table|, e)[k]]
  }

  /** Swap number `i`: its element has no open slot, goes to one of its own, the one after the slot it came
      from, and the next element is what was there. */
  ghost predicate SwapOk<Element>(hash: Hash<Element>, t: State<Element>, chain: seq<Cell<Element>>, at: seq<nat>, i: nat)
    requires Shaped(t) && |t.table| > 0 && i < |at| && i + 1 < |chain| && forall j | 0 <= j <= i :: at[j] < |t.table|
  {
    var locs := ComputeHashes(hash, |t.table|, chain[i].0);
    && NoneOpen(hash, t, chain[i].0)
    && at[i] == NextLoc(locs, if i == 0 then WORD - 1 else at[i - 1])
    && chain[i + 1] == AfterSwaps(Cells(t), chain, at, i)[at[i]]
  }

  /** A chain of displacements in `t` that starts with `e`. */
  ghost predicate Swaps<Element>(hash: Hash<Element>, t: State<Element>, e: Element, chain: seq<Cell<Element>>, at: seq<nat>)
    requires Shaped(t) && |t.table| > 0
  {
    && |chain| == |at| + 1 && chain[0] == (e, true)
    && (forall i | 0 <= i < |at| :: at[i] < |t.table|)
    && (forall i | 0 <= i < |at| :: SwapOk(hash, t, chain, at, i))
  }

  /** Slot `k` of an element is the first of its slots that may be overwritten. */
  ghost predicate FirstFree<Element>(hash: Hash<Element>, t: State<Element>, e: Element, k: nat)
    requires Shaped(t) && |t.table| > 0
  {
    var locs := ComputeHashes(hash, |t.table|, e);
    k < 8 && t.discard[locs[k]] && forall j | 0 <= j < k :: !t.discard[locs[j]]
  }

  /** `u` is `t` with `e` inserted by the chain: either it has the full length and its last element is dropped,
      or it is shorter and its last element takes its first open slot. */
  ghost predicate ByChain<Element>(hash: Hash<Element>, t: State<Element>, e: Element, u: State<Element>, depth: nat,
      chain: seq<Cell<Element>>, at: seq<nat>)
    requires Shaped(t) && |t.table| > 0
  {
    && Swaps(hash, t, e, chain, at) && Shaped(u) && |u.table| == |t.table| && u.counter == t.counter
    && var last, after := chain[|at|], AfterSwaps(Cells(t), chain, at, |at|);
       || (|at| == depth && Cells(u) == after && u.discard == t.discard)
       || (|at| < depth && exists k: nat :: TakesFirst(hash, t, last, after, u, k))
  }

  /** The last element of a chain has taken its slot `k`. */
  ghost predicate TakesFirst<Element>(hash: Hash<Element>, t: State<Element>, last: Cell<Element>, after: seq<Cell<Element>>,
      u: State<Element>, k: nat)
    requires Shaped(t) && |t.table| > 0 && Shaped(u) && |u.table| == |t.table| == |after|
  {
    && FirstFree(hash, t, last.0, k)
    && var loc := ComputeHashes(hash, |t.table|, last.0)[k];
       Cells(u) == after[loc := last] && u.discard == t.discard[loc := false]
  }

  /** A chain that ends in an open slot loses nothing; one of full length loses exactly its last element. */
  ghost predicate LossOf<Element(!new)>(absent: Element, t: State<Element>, e: Element, u: State<Element>, depth: nat,
      chain: seq<Cell<Element>>, at: seq<nat>)
    requires Shaped(t) && Shaped(u) && |chain| == |at| + 1
  {
    if |at| < depth then Live(u) == Live(t) + {e}
    else
      var lost := chain[|at|].0;
      Live(u) + {lost} == Live(t) + {e} && (lost in u.table ==> lost == absent)
  }

  /** Swaps so far lead from `t` to `s`, with the cell `hand` in hand. */
  ghost predicate ChainTo<Element>(hash: Hash<Element>, t: State<Element>, e: Element, s: State<Element>,
      hand: Cell<Element>, last: nat, chain: seq<Cell<Element>>, at: seq<nat>)
    requires Shaped(t) && |t.table| > 0
  {
    && Swaps(hash, t, e, chain, at) && Shaped(s) && |s.table| == |t.table| && s.counter == t.counter
    && s.discard == t.discard && Cells(s) == AfterSwaps(Cells(t), chain, at, |at|)
    && hand == chain[|at|] && last == if at == [] then WORD - 1 else at[|at| - 1]
  }

  lemma {:induction false} AfterSwapsPrefix<Element>(cells: seq<Cell<Element>>, chain: seq<Cell<Element>>, at: seq<nat>,
      c: Cell<Element>, loc: nat, n: nat)
    requires n <= |at| && n <= |chain| && forall i | 0 <= i < |at| :: at[i] < |cells|
    ensures AfterSwaps(cells, chain + [c], at + [loc], n) == AfterSwaps(cells, chain, at, n)
  {
    if n > 0 {
      AfterSwapsPrefix(cells, chain, at, c, loc, n - 1);
    }
  }

  lemma SwapOkPrefix<Element>(hash: Hash<Element>, t: State<Element>, chain: seq<Cell<Element>>, at: seq<nat>,
      c: Cell<Element>, loc: nat, i: nat)
    requires Shaped(t) && |t.table| > 0 && i < |at| && i + 1 < |chain| && (forall j | 0 <= j < |at| :: at[j] < |t.table|)
    requires loc < |t.table| && SwapOk(hash, t, chain, at, i)
    ensures SwapOk(hash, t, chain + [c], at + [loc], i)
  {
    hide ComputeHashes, NextLoc, NoneOpen;
    AfterSwapsPrefix(Cells(t), chain, at, c, loc, i);
  }

  /** One more swap. */
  lemma ChainStep<Element>(hash: Hash<Element>, t: State<Element>, e: Element, s: State<Element>, hand: Cell<Element>,
      last: nat, chain: seq<Cell<Element>>, at: seq<nat>, next: nat)
    requires Shaped(t) && |t.table| > 0 && ChainTo(hash, t, e, s, hand, last, chain, at)
    requires NoneOpen(hash, t, hand.0) && next == NextLoc(ComputeHashes(hash, |t.table|, hand.0), last)
    ensures next < |s.table|
    ensures var out := (s.table[next], s.epoch[next]);
            ChainTo(hash, t, e, Swapped(s, next, hand.0, hand.1), out, next, chain + [out], at + [next])
  {
    hide ComputeHashes, NextLoc, NoneOpen, SwapOk, AfterSwaps;
    var locs := ComputeHashes(hash, |t.table|, hand.0);
    assert next in locs;
    var out := (s.table[next], s.epoch[next]);
    var chain', at' := chain + [out], at + [next];
    forall i | 0 <= i < |at'| ensures SwapOk(hash, t, chain', at', i) {
      if i < |at| {
        SwapOkPrefix(hash, t, chain, at, out, next, i);
      } else {
        LastSwap(hash, t, s, hand, last, chain, at, next);
      }
    }
    AfterSwapsPrefix(Cells(t), chain, at, out, next, |at|);
    AfterLast(Cells(t), chain', at');
    SwappedCells(s, next, hand);
  }

  lemma AfterLast<Element>(cells: seq<Cell<Element>>, chain: seq<Cell<Element>>, at: seq<nat>)
    requires |at| > 0 && |at| <= |chain| && forall i | 0 <= i < |at| :: at[i] < |cells|
    ensures AfterSwaps(cells, chain, at, |at|) == AfterSwaps(cells, chain, at, |at| - 1)[at[|at| - 1] := chain[|at| - 1]]
  {
  }

  lemma SwappedCells<Element>(s: State<Element>, loc: nat, hand: Cell<Element>)
    requires Shaped(s) && loc < |s.table|
    ensures Cells(Swapped(s, loc, hand.0, hand.1)) == Cells(s)[loc := hand]
    ensures Cells(Stored(s, loc, hand.0, hand.1)) == Cells(s)[loc := hand]
  {
  }

  lemma LastSwap<Element>(hash: Hash<Element>, t: State<Element>, s: State<Element>, hand: Cell<Element>,
      last: nat, chain: seq<Cell<Element>>, at: seq<nat>, next: nat)
    requires Shaped(t) && |t.table| > 0 && |chain| == |at| + 1 && (forall i | 0 <= i < |at| :: at[i] < |t.table|)
    requires Shaped(s) && |s.table| == |t.table| && Cells(s) == AfterSwaps(Cells(t), chain, at, |at|)
    requires hand == chain[|at|] && last == if at == [] then WORD - 1 else at[|at| - 1]
    requires next < |t.table| && NoneOpen(hash, t, hand.0) && next == NextLoc(ComputeHashes(hash, |t.table|, hand.0), last)
    ensures SwapOk(hash, t, chain + [(s.table[next], s.epoch[next])], at + [next], |at|)
  {
    hide ComputeHashes, NextLoc, NoneOpen, AfterSwaps;
    var out := (s.table[next], s.epoch[next]);
    AfterSwapsPrefix(Cells(t), chain, at, out, next, |at|);
    assert Cells(s)[next] == out;
  }

  /** The displacements of the specification are such a chain. */
  lemma {:induction false} DisplacedChain<Element(!new)>(hash: Hash<Element>, absent: Element, t: State<Element>, e: Element,
      s: State<Element>, hand: Cell<Element>, last: nat, chain: seq<Cell<Element>>, at: seq<nat>, depth: nat)
      returns (chain': seq<Cell<Element>>, at': seq<nat>)
    requires Shaped(t) && |t.table| > 0 && ChainTo(hash, t, e, s, hand, last, chain, at)
    requires Carrying(hash, absent, t, e, s, hand.0, hand.1)
    ensures var u := Displaced(hash, s, hand.0, hand.1, last, depth);
            ByChain(hash, t, e, u, |at| + depth, chain', at') && LossOf(absent, t, e, u, |at| + depth, chain', at')
    decreases depth
  {
    hide ComputeHashes, NextLoc, FirstOpen, Swaps, Displaced, Cells, AfterSwaps, Placed, Once, Live, Recent, Inserted;
    var locs := ComputeHashes(hash, |s.table|, hand.0);
    var k := FirstOpen(s.discard, locs, 0);
    chain', at' := chain, at;
    if depth == 0 {
      DisplacedEnd(hash, s, hand.0, hand.1, last);
    } else {
      DisplacedNext(hash, s, hand.0, hand.1, last, depth);
      if k < 8 {
        ChainStored(hash, t, e, s, hand, last, chain, at, k, depth);
        StoredOk(hash, absent, t, e, s, hand.0, hand.1, locs[k]);
      } else {
        var next := NextLoc(locs, last);
        assert NoneOpen(hash, t, hand.0);
        ChainStep(hash, t, e, s, hand, last, chain, at, next);
        Closed(s, locs, next);
        SwappedOk(hash, absent, t, e, s, hand.0, hand.1, next);
        var out := (s.table[next], s.epoch[next]);
        chain', at' := DisplacedChain(hash, absent, t, e, Swapped(s, next, hand.0, hand.1), out, next, chain + [out], at + [next], depth - 1);
      }
    }
  }

  lemma ChainStored<Element>(hash: Hash<Element>, t: State<Element>, e: Element, s: State<Element>,
      hand: Cell<Element>, last: nat, chain: seq<Cell<Element>>, at: seq<nat>, k: nat, depth: nat)
    requires Shaped(t) && |t.table| > 0 && ChainTo(hash, t, e, s, hand, last, chain, at)
    requires depth > 0 && k < 8 && k == FirstOpen(s.discard, ComputeHashes(hash, |t.table|, hand.0), 0)
    ensures ByChain(hash, t, e, Stored(s, ComputeHashes(hash, |t.table|, hand.0)[k], hand.0, hand.1), |at| + depth, chain, at)
  {
    hide ComputeHashes, FirstOpen, SwapOk, Cells, AfterSwaps;
    var loc := ComputeHashes(hash, |t.table|, hand.0)[k];
    SwappedCells(s, loc, hand);
    assert FirstFree(hash, t, hand.0, k);
    assert TakesFirst(hash, t, hand, AfterSwaps(Cells(t), chain, at, |at|), Stored(s, loc, hand.0, hand.1), k);
  }

  /** What an insertion of `e` into `t` does: where `e` is in one of its slots already, it is kept there and
      nothing is lost; otherwise it goes in by a chain of at most `depth` swaps. */
  ghost predicate Outcome<Element(!new)>(hash: Hash<Element>, absent: Element, t: State<Element>, e: Element,
      u: State<Element>, depth: nat)
    requires Shaped(t) && |t.table| > 0
  {
    var locs := ComputeHashes(hash, |t.table|, e);
    && Shaped(u)
    && if exists k :: 0 <= k < 8 && t.table[locs[k]] == e then
         exists k :: 0 <= k < 8 && t.table[locs[k]] == e && Live(u) == Live(t) + {e}
                     && u == t.(discard := t.discard[locs[k] := false], epoch := t.epoch[locs[k] := true])
       else exists chain, at :: ByChain(hash, t, e, u, depth, chain, at) && LossOf(absent, t, e, u, depth, chain, at)
  }

  lemma InsertionLaw<Element(!new)>(hash: Hash<Element>, absent: Element, t: State<Element>, e: Element, depth: nat)
    requires Shaped(t) && |t.table| > 0 && Placed(hash, absent, t) && Once(absent, t)
    ensures Outcome(hash, absent, t, e, WithElement(hash, t, e, depth), depth)
    ensures depth == 1 ==> e in Live(WithElement(hash, t, e, depth))
  {
    hide ComputeHashes, FirstAt, Displaced, Swaps, TakesFirst, Cells, AfterSwaps, LossOf, Placed, Once, Live, Carrying, Inserted;
    var locs := ComputeHashes(hash, |t.table|, e);
    var k := FirstAt(t.table, locs, e, 0);
    if k < 8 {
      assert t.table[locs[k]] == e;
      KeptOk(hash, absent, t, e, locs[k]);
    } else {
      ChainStart(hash, t, e);
      NotThere(hash, absent, t, e);
      var chain, at := DisplacedChain(hash, absent, t, e, t, (e, true), WORD - 1, [(e, true)], [], depth);
      if depth == 1 {
        OneSwap(hash, absent, t, e, WithElement(hash, t, e, depth), chain, at);
      }
    }
  }

  /** With one swap the new element stays. */
  lemma OneSwap<Element(!new)>(hash: Hash<Element>, absent: Element, t: State<Element>, e: Element, u: State<Element>,
      chain: seq<Cell<Element>>, at: seq<nat>)
    requires Shaped(t) && |t.table| > 0 && ByChain(hash, t, e, u, 1, chain, at) && LossOf(absent, t, e, u, 1, chain, at)
    ensures e in Live(u)
  {
    hide ComputeHashes, NextLoc;
    if |at| == 1 {
      assert SwapOk(hash, t, chain, at, 0);
      var locs := ComputeHashes(hash, |t.table|, e);
      assert at[0] in locs;
      var k :| 0 <= k < 8 && locs[k] == at[0];
      assert AfterSwaps(Cells(t), chain, at, 1) == AfterSwaps(Cells(t), chain, at, 0)[at[0] := chain[0]];
      assert Cells(u)[at[0]] == (e, true) == (u.table[at[0]], u.epoch[at[0]]);
      assert !u.discard[at[0]] && u.table[at[0]] == e;
    }
  }

  lemma ChainStart<Element>(hash: Hash<Element>, t: State<Element>, e: Element)
    requires Shaped(t) && |t.table| > 0
    ensures ChainTo(hash, t, e, t, (e, true), WORD - 1, [(e, true)], [])
  {
    hide ComputeHashes, NextLoc;
  }

  lemma Closed(s: State, locs: seq<nat>, loc: nat)
    requires forall i | 0 <= i < |locs| :: locs[i] < |s.discard|
    requires FirstOpen(s.discard, locs, 0) == |locs| && loc in locs
    ensures loc < |s.discard| && !s.discard[loc]
  {
  }

  lemma InvFacts<Element>(hash: Hash<Element>, absent: Element, s: State<Element>)
    requires Inv(hash, absent, s)
    ensures Shaped(s) && |s.table| > 0 && Placed(hash, absent, s) && Once(absent, s)
  {
  }

  /** An element that is in none of its slots is not in the table. */
  lemma NotThere<Element(!new)>(hash: Hash<Element>, absent: Element, t: State<Element>, e: Element)
    requires Shaped(t) && |t.table| > 0 && Placed(hash, absent, t) && Once(absent, t)
    requires forall k | 0 <= k < 8 :: t.table[ComputeHashes(hash, |t.table|, e)[k]] != e
    ensures Carrying(hash, absent, t, e, t, e, true)
  {
    forall i | 0 <= i < |t.table| && t.table[i] == e ensures e == absent {
      var locs := ComputeHashes(hash, |t.table|, e);
      assert e != absent ==> i in locs;
    }
  }

  lemma ErasedOk<Element(!new)>(hash: Hash<Element>, absent: Element, s: State<Element>, loc: nat)
    requires Inv(hash, absent, s) && loc < |s.table|
    ensures var u := s.(discard := s.discard[loc := true]);
            && Inv(hash, absent, u)
            && Live(s) - {s.table[loc]} <= Live(u) <= Live(s)
            && (s.table[loc] != absent ==> s.table[loc] !in Live(u))
  {
    var u := s.(discard := s.discard[loc := true]);
    assert Recent(u) == Recent(s) - {loc as int};
    forall x <- Live(s) - {s.table[loc]} ensures x in Live(u) {
      var i :| 0 <= i < |s.table| && !s.discard[i] && s.table[i] == x;
      assert !u.discard[i] && u.table[i] == x;
    }
  }
}
