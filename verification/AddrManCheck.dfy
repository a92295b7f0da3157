/** The consistency check that src/addrman.cpp ships, against the invariant of the address manager; and
    runs of the manager's operations. */
module AddrManCheck {
  import opened AddrMan

  //////////////////////////////////////////////////////////////////////////////
  // Runs
  //////////////////////////////////////////////////////////////////////////////

  datatype Event =
    | Added(a: Address, source: NetAddr, timePenalty: int, now: int, lucky: bool)
    | Succeeded(service: Service, time: int)
    | Attempted(service: Service, countFailure: bool, time: int)
    | Connected(service: Service, time: int)
    | Offered(service: Service, services: set<nat>)
    | Sampled(now: int)

  ghost predicate Timely(e: Event) {
    match e
    case Succeeded(_, time) => time > 0
    case Attempted(_, _, time) => time > 0
    case _ => true
  }

  /** Every run with positive times keeps the manager consistent. */
  method Run(m: AddrManager, events: seq<Event>)
    requires m.Valid() && forall i | 0 <= i < |events| :: Timely(events[i])
    modifies m, m.vvNew, m.vvTried
    ensures m.Valid()
  {
    hide Consistent, Contents;
    for i := 0 to |events|
      invariant m.Valid()
    {
      assert Timely(events[i]);
      match events[i]
      case Added(a, source, timePenalty, now, lucky) => var _ := m.Add(a, source, timePenalty, now, lucky);
      case Succeeded(service, time) => m.Good(service, time);
      case Attempted(service, countFailure, time) => m.Attempt(service, countFailure, time);
      case Connected(service, time) => m.Connected(service, time);
      case Offered(service, services) => m.SetServices(service, services);
      case Sampled(now) => var _, _ := m.GetAddr(now);
    }
  }

  //////////////////////////////////////////////////////////////////////////////
  // What the check looks at
  //////////////////////////////////////////////////////////////////////////////

  /** A look-up with the subscript operator, which makes up a zero. */
  function Lookup(addrs: map<NetAddr, int>, a: NetAddr): int {
    if a in addrs then addrs[a] else 0
  }

  function EntryCode(infos: map<int, Info>, addrs: map<NetAddr, int>, random: seq<int>, id: int): int
    requires id in infos
  {
    var info := infos[id];
    if info.inTried && info.lastSuccess == 0 then -1
    else if info.inTried && info.refCount != 0 then -2
    else if !info.inTried && (info.refCount < 0 || info.refCount > NEW_BUCKETS_PER_ADDRESS) then -3
    else if !info.inTried && info.refCount == 0 then -4
    else if Lookup(addrs, info.service.addr) != id then -5
    else if info.randomPos < 0 || info.randomPos >= |random| || random[info.randomPos] != id then -14
    else if info.lastTry < 0 then -6
    else if info.lastSuccess < 0 then -8
    else 0
  }

  ghost predicate EntriesPass(s: State) {
    forall id <- s.infos :: EntryCode(s.infos, s.addrs, s.random, id) == 0
  }

  ghost predicate CountersPass(s: State) {
    && |s.random| == s.nTried + s.nNew
    && |TriedIds(s.infos)| == s.nTried
    && |s.infos| - |TriedIds(s.infos)| == s.nNew
  }

  /** Everything the check asks for, except the key. */
  ghost predicate Passes(h: Hashes, s: State) {
    && CountersPass(s) && EntriesPass(s)
    && TriedPlaced(h, s.key, s.infos, s.tried)
    && NewPlaced(h, s.key, s.infos, s.news)
    && RefCounted(s.infos, s.news)
  }

  /** What the check does not ask for: ids below the counter, and an address index without strays. */
  ghost predicate Indexed(s: State) {
    && (forall id <- s.infos :: 0 <= id < s.idCount)
    && Addressed(s.infos, s.addrs)
  }

  lemma ConsistentPasses(h: Hashes, s: State)
    requires Consistent(h, s)
    ensures Passes(h, s) && Indexed(s)
  {
    forall id <- s.infos ensures EntryCode(s.infos, s.addrs, s.random, id) == 0 {
      assert LiveAt(s.infos[id], false);
      if s.infos[id].inTried {
        TriedUnreferenced(h, s, id);
        RefCountedAt(s.infos, s.news, id);
      }
    }
  }

  ghost predicate Distinct(s: seq<int>) {
    forall i, j | 0 <= i < j < |s| :: s[i] != s[j]
  }

  ghost function Elements(s: seq<int>): set<int> {
    set x | x in s
  }

  lemma {:induction false} DistinctElements(s: seq<int>)
    requires Distinct(s)
    ensures |Elements(s)| == |s|
  {
    if s == [] {
      assert Elements(s) == {};
    } else {
      var n := |s| - 1;
      DistinctElements(s[..n]);
      assert s == s[..n] + [s[n]];
      assert Elements(s) == Elements(s[..n]) + {s[n]};
    }
  }

  lemma NonEmpty(s: set<int>)
    ensures s == {} || exists x :: x in s
  {
    if forall x :: x !in s {
      assert s == {};
    }
  }

  lemma SameSet(a: set<int>, b: set<int>)
    requires a <= b && |a| == |b|
    ensures a == b
  {
    assert b == a + (b - a);
  }

  ghost function Count(n: nat): seq<int> {
    seq(n, i => i)
  }

  /** Positions without a clash, as many as there are places, are all the places. */
  lemma {:induction false} PositionsOf(infos: map<int, Info>, random: seq<int>, rest: set<int>) returns (q: set<int>)
    requires rest <= infos.Keys
    requires forall id <- infos :: 0 <= infos[id].randomPos < |random| && random[infos[id].randomPos] == id
    ensures |q| == |rest| && forall p <- q :: 0 <= p < |random| && random[p] in rest && infos[random[p]].randomPos == p
    decreases rest
  {
    if rest == {} {
      q := {};
    } else {
      NonEmpty(rest);
      var id :| id in rest;
      var before := PositionsOf(infos, random, rest - {id});
      q := before + {infos[id].randomPos};
    }
  }

  lemma ShuffledFromPositions(infos: map<int, Info>, random: seq<int>)
    requires |random| == |infos|
    requires forall id <- infos :: 0 <= infos[id].randomPos < |random| && random[infos[id].randomPos] == id
    ensures Shuffled(infos, random)
  {
    var q := PositionsOf(infos, random, infos.Keys);
    var all := Elements(Count(|random|));
    DistinctElements(Count(|random|));
    assert |infos.Keys| == |infos|;
    forall p <- q ensures p in all {
      assert Count(|random|)[p] == p;
    }
    SameSet(q, all);
    forall p | 0 <= p < |random| ensures random[p] in infos && infos[random[p]].randomPos == p {
      assert Count(|random|)[p] == p;
    }
  }

  lemma PassesLive(s: State)
    requires EntriesPass(s)
    ensures Live(s.infos, {})
    ensures forall id <- s.infos :: 0 <= s.infos[id].randomPos < |s.random| && s.random[s.infos[id].randomPos] == id
  {
    forall id <- s.infos ensures LiveAt(s.infos[id], false) {
      assert EntryCode(s.infos, s.addrs, s.random, id) == 0;
    }
    forall id <- s.infos ensures 0 <= s.infos[id].randomPos < |s.random| && s.random[s.infos[id].randomPos] == id {
      assert EntryCode(s.infos, s.addrs, s.random, id) == 0;
    }
  }

  /** The check and the index conditions together are the whole invariant. */
  lemma PassesExact(h: Hashes, s: State)
    ensures Consistent(h, s) <==> Passes(h, s) && Indexed(s)
  {
    if Consistent(h, s) {
      ConsistentPasses(h, s);
    }
    if Passes(h, s) && Indexed(s) {
      PassesLive(s);
      ShuffledFromPositions(s.infos, s.random);
      var none: set<int> := {};
      assert none + none == none;
      assert Totalled(s, none);
    }
  }

  //////////////////////////////////////////////////////////////////////////////
  // The check
  //////////////////////////////////////////////////////////////////////////////

  ghost predicate Before(slot: Slot, bucket: nat, pos: nat) {
    slot.bucket < bucket || (slot.bucket == bucket && slot.pos < pos)
  }

  /** The slots in use before a point in the scan of a table. */
  ghost function Seen(t: Table, bucket: nat, pos: nat): Table {
    map slot | slot in t && Before(slot, bucket, pos) :: t[slot]
  }

  lemma SeenNext(news: Table, bucket: nat, pos: nat, id: int)
    ensures var slot := Slot(bucket, pos);
            |SlotsOf(Seen(news, bucket, pos + 1), id)|
              == |SlotsOf(Seen(news, bucket, pos), id)| + if slot in news && news[slot] == id then 1 else 0
  {
    var slot := Slot(bucket, pos);
    var before, after := SlotsOf(Seen(news, bucket, pos), id), SlotsOf(Seen(news, bucket, pos + 1), id);
    if slot in news && news[slot] == id {
      assert after == before + {slot};
    } else {
      assert after == before;
    }
  }

  /** All entries, in some order. */
  method CheckEntries(m: AddrManager) returns (code: int, setTried: set<int>, mapNew: map<int, int>)
    modifies m`addrs
    ensures code == 0 <==> EntriesPass(old(m.Abs()))
    ensures code == 0 ==>
              && setTried == TriedIds(m.infos)
              && mapNew == map id | id in m.infos && !m.infos[id].inTried :: m.infos[id].refCount
    ensures Addressed(m.infos, old(m.addrs)) ==> m.addrs == old(m.addrs)
  {
    hide Contents;
    setTried, mapNew := {}, map[];
    var rest := m.infos.Keys;
    while rest != {}
      invariant rest <= m.infos.Keys
      invariant forall a :: Lookup(m.addrs, a) == Lookup(old(m.addrs), a)
      invariant forall id <- m.infos.Keys - rest :: EntryCode(m.infos, old(m.addrs), m.random, id) == 0
      invariant setTried == set id | id in m.infos.Keys - rest && m.infos[id].inTried
      invariant mapNew == map id | id in m.infos.Keys - rest && !m.infos[id].inTried :: m.infos[id].refCount
      invariant Addressed(m.infos, old(m.addrs)) ==> m.addrs == old(m.addrs)
      decreases rest
    {
      NonEmpty(rest);
      var id :| id in rest;
      var info := m.infos[id];
      code := EntryCode(m.infos, m.addrs, m.random, id);
      assert code == EntryCode(m.infos, old(m.addrs), m.random, id);
      if info.service.addr !in m.addrs && code !in {-1, -2, -3, -4} {
        m.addrs := m.addrs[info.service.addr := 0];
      }
      if code != 0 {
        return;
      }
      if info.inTried {
        setTried := setTried + {id};
      } else {
        mapNew := mapNew[id := info.refCount];
      }
      rest := rest - {id};
    }
    code := 0;
    assert m.infos.Keys - {} == m.infos.Keys;
  }

  ghost predicate Within(t: Table, buckets: nat) {
    forall slot <- t :: slot.bucket < buckets && slot.pos < BUCKET_SIZE
  }

  lemma ContentsWithin(a: array2<int>)
    requires a.Length1 == BUCKET_SIZE
    ensures Within(Contents(a), a.Length0)
  {
  }

  /** A row ends where the next begins; the last row ends with the table. */
  lemma RowEnd(t: Table, buckets: nat, n: nat)
    requires Within(t, buckets)
    ensures Seen(t, n, BUCKET_SIZE) == Seen(t, n + 1, 0)
    ensures Seen(t, buckets, 0) == t
  {
  }

  /** The scan of the tried table: what was seen is in place, and `left` are the tried entries not seen. */
  ghost predicate TriedSoFar(h: Hashes, key: nat, infos: map<int, Info>, seen: Table, left: set<int>) {
    && (forall slot <- seen :: TriedPlacedAt(h, key, infos, slot, seen[slot]))
    && left <= TriedIds(infos)
    && (forall id <- TriedIds(infos) :: id in left <==> !Holds(seen, TriedSlot(h, key, infos[id].service), id))
  }

  lemma TriedNext(h: Hashes, key: nat, infos: map<int, Info>, t: Table, n: nat, i: nat, left: set<int>)
    requires TriedSoFar(h, key, infos, Seen(t, n, i), left)
    ensures Slot(n, i) !in t ==> TriedSoFar(h, key, infos, Seen(t, n, i + 1), left)
    ensures Slot(n, i) in t && t[Slot(n, i)] in left && TriedSlot(h, key, infos[t[Slot(n, i)]].service) == Slot(n, i) ==>
              TriedSoFar(h, key, infos, Seen(t, n, i + 1), left - {t[Slot(n, i)]})
    ensures Slot(n, i) in t && (t[Slot(n, i)] !in left || TriedSlot(h, key, infos[t[Slot(n, i)]].service) != Slot(n, i)) ==>
              !TriedPlaced(h, key, infos, t)
  {
    hide TriedSlot;
    var slot := Slot(n, i);
    var seen, next := Seen(t, n, i), Seen(t, n, i + 1);
    if slot !in t {
      assert next == seen;
    } else {
      var id := t[slot];
      assert next == seen[slot := id];
      if id in left && TriedSlot(h, key, infos[id].service) == slot {
        assert TriedPlacedAt(h, key, infos, slot, id);
        assert forall k <- TriedIds(infos) :: Holds(next, TriedSlot(h, key, infos[k].service), k)
                 <==> k == id || Holds(seen, TriedSlot(h, key, infos[k].service), k);
      } else {
        assert slot !in seen;
        assert slot in t && !TriedPlacedAt(h, key, infos, slot, t[slot]);
      }
    }
  }

  lemma TriedEnd(h: Hashes, key: nat, infos: map<int, Info>, t: Table, left: set<int>)
    requires TriedSoFar(h, key, infos, t, left)
    ensures left == {} <==> TriedPlaced(h, key, infos, t)
  {
    hide TriedSlot;
    forall id <- infos | infos[id].inTried && left == {} ensures Holds(t, TriedSlot(h, key, infos[id].service), id) {
      assert id in TriedIds(infos);
    }
    NonEmpty(left);
  }

  lemma TriedStart(h: Hashes, key: nat, infos: map<int, Info>, t: Table)
    ensures TriedSoFar(h, key, infos, Seen(t, 0, 0), TriedIds(infos))
  {
    hide TriedSlot;
    assert Seen(t, 0, 0) == map[];
  }

  /** The tried table: every id in it is one of the tried entries, in the slot hashed for it. */
  method CheckTried(m: AddrManager, entries: set<int>) returns (code: int, setTried: set<int>)
    requires m.Shaped() && entries == TriedIds(m.infos)
    ensures code == 0 && setTried == {} <==> TriedPlaced(m.hashes, m.key, m.infos, Contents(m.vvTried))
  {
    hide TriedSlot, Contents, TriedSoFar, TriedPlaced;
    setTried := entries;
    ghost var h, key, infos, t := m.hashes, m.key, m.infos, Contents(m.vvTried);
    ContentsWithin(m.vvTried);
    TriedStart(h, key, infos, t);
    for n := 0 to TRIED_BUCKET_COUNT
      invariant TriedSoFar(h, key, infos, Seen(t, n, 0), setTried)
      invariant setTried <= entries
    {
      for i := 0 to BUCKET_SIZE
        invariant TriedSoFar(h, key, infos, Seen(t, n, i), setTried)
        invariant setTried <= entries
      {
        ContentsAt(m.vvTried, Slot(n, i));
        TriedNext(h, key, infos, t, n, i, setTried);
        var id := m.vvTried[n, i];
        if id != -1 {
          if id !in setTried {
            return -11, setTried;
          }
          if TriedSlot(m.hashes, m.key, m.infos[id].service).bucket != n {
            return -17, setTried;
          }
          if TriedSlot(m.hashes, m.key, m.infos[id].service).pos != i {
            return -18, setTried;
          }
          setTried := setTried - {id};
        }
      }
      RowEnd(t, TRIED_BUCKET_COUNT, n);
    }
    RowEnd(t, TRIED_BUCKET_COUNT, 0);
    TriedEnd(h, key, infos, t, setTried);
    code := 0;
  }

  /** Every entry that is not tried has as many references as its count says. */
  ghost predicate NewCounted(infos: map<int, Info>, news: Table) {
    forall id <- infos :: !infos[id].inTried ==> infos[id].refCount == |SlotsOf(news, id)|
  }

  /** The scan of the new table: what was seen is in place, and `pending` are the references still to be
      found for each entry that is not tried, as long as there are any. */
  ghost predicate NewSoFar(h: Hashes, key: nat, infos: map<int, Info>, seen: Table, pending: map<int, int>) {
    && NewPlaced(h, key, infos, seen)
    && (forall id <- pending :: id in infos && !infos[id].inTried && pending[id] > 0)
    && (forall id <- infos :: PendingAt(infos, seen, pending, id))
  }

  ghost predicate PendingAt(infos: map<int, Info>, seen: Table, pending: map<int, int>, id: int)
    requires id in infos
  {
    !infos[id].inTried ==>
      infos[id].refCount == |SlotsOf(seen, id)| + if id in pending then pending[id] else 0
  }

  lemma NewStart(h: Hashes, key: nat, infos: map<int, Info>, t: Table, pending: map<int, int>)
    requires pending == map id | id in infos && !infos[id].inTried :: infos[id].refCount
    requires forall id <- infos :: !infos[id].inTried ==> infos[id].refCount > 0
    ensures NewSoFar(h, key, infos, Seen(t, 0, 0), pending)
  {
    assert Seen(t, 0, 0) == map[];
    forall id <- infos ensures PendingAt(infos, map[], pending, id) {
      assert SlotsOf(map[], id) == {};
    }
  }

  lemma NewSkip(h: Hashes, key: nat, infos: map<int, Info>, t: Table, n: nat, i: nat, pending: map<int, int>)
    requires NewSoFar(h, key, infos, Seen(t, n, i), pending) && Slot(n, i) !in t
    ensures NewSoFar(h, key, infos, Seen(t, n, i + 1), pending)
  {
    assert Seen(t, n, i + 1) == Seen(t, n, i);
  }

  /** A reference that is found is one less to be found. */
  lemma NewFound(h: Hashes, key: nat, infos: map<int, Info>, t: Table, n: nat, i: nat, pending: map<int, int>)
    requires NewSoFar(h, key, infos, Seen(t, n, i), pending)
    requires n < NEW_BUCKET_COUNT && Slot(n, i) in t && t[Slot(n, i)] in pending && t[Slot(n, i)] in infos
    requires i == BucketPosition(h, key, true, n, infos[t[Slot(n, i)]].service)
    ensures var id := t[Slot(n, i)];
            NewSoFar(h, key, infos, Seen(t, n, i + 1),
                     if pending[id] == 1 then pending - {id} else pending[id := pending[id] - 1])
  {
    hide BucketPosition;
    var slot := Slot(n, i);
    var id := t[slot];
    var seen, next := Seen(t, n, i), Seen(t, n, i + 1);
    var pending' := if pending[id] == 1 then pending - {id} else pending[id := pending[id] - 1];
    assert next == seen[slot := id];
    forall sl <- next ensures NewPlacedAt(h, key, infos, sl, next[sl]) {
      assert sl != slot ==> NewPlacedAt(h, key, infos, sl, seen[sl]);
    }
    forall k <- infos ensures PendingAt(infos, next, pending', k) {
      assert PendingAt(infos, seen, pending, k);
      SeenNext(t, n, i, k);
    }
  }

  /** A reference that should not be there, or is one too many, or is in the wrong place. */
  lemma NewRejected(h: Hashes, key: nat, infos: map<int, Info>, t: Table, n: nat, i: nat, pending: map<int, int>)
    requires NewSoFar(h, key, infos, Seen(t, n, i), pending) && Slot(n, i) in t
    requires t[Slot(n, i)] in pending ==>
               t[Slot(n, i)] in infos && i != BucketPosition(h, key, true, n, infos[t[Slot(n, i)]].service)
    ensures !(NewPlaced(h, key, infos, t) && NewCounted(infos, t))
  {
    hide BucketPosition;
    var slot := Slot(n, i);
    var id := t[slot];
    if NewPlaced(h, key, infos, t) {
      assert NewPlacedAt(h, key, infos, slot, id);
      assert PendingAt(infos, Seen(t, n, i), pending, id);
      SeenNext(t, n, i, id);
      assert SlotsOf(Seen(t, n, i + 1), id) <= SlotsOf(t, id);
      Fewer(SlotsOf(Seen(t, n, i + 1), id), SlotsOf(t, id));
    }
  }

  lemma Fewer(a: set<Slot>, b: set<Slot>)
    requires a <= b
    ensures |a| <= |b|
  {
    assert b == a + (b - a);
  }

  lemma NewEnd(h: Hashes, key: nat, infos: map<int, Info>, t: Table, pending: map<int, int>)
    requires NewSoFar(h, key, infos, t, pending)
    ensures NewPlaced(h, key, infos, t)
    ensures pending == map[] <==> NewCounted(infos, t)
  {
    if pending == map[] {
      forall id <- infos ensures !infos[id].inTried ==> infos[id].refCount == |SlotsOf(t, id)| {
        assert PendingAt(infos, t, pending, id);
      }
    } else {
      NonEmpty(pending.Keys);
      var id :| id in pending;
      assert PendingAt(infos, t, pending, id);
    }
  }

  /** The new table: every id in it is one of the entries that are not tried, at the position hashed for it,
      and as often as its count says. */
  method CheckNew(m: AddrManager, counts: map<int, int>) returns (code: int, mapNew: map<int, int>)
    requires m.Shaped()
    requires counts == map id | id in m.infos && !m.infos[id].inTried :: m.infos[id].refCount
    requires forall id <- m.infos :: !m.infos[id].inTried ==> m.infos[id].refCount > 0
    ensures code == 0 && mapNew == map[] <==>
              && NewPlaced(m.hashes, m.key, m.infos, Contents(m.vvNew))
              && NewCounted(m.infos, Contents(m.vvNew))
  {
    hide BucketPosition, Contents, NewSoFar, NewPlaced, NewCounted;
    mapNew := counts;
    ghost var h, key, infos, t := m.hashes, m.key, m.infos, Contents(m.vvNew);
    ContentsWithin(m.vvNew);
    NewStart(h, key, infos, t, mapNew);
    for n := 0 to NEW_BUCKET_COUNT
      invariant NewSoFar(h, key, infos, Seen(t, n, 0), mapNew)
      invariant mapNew.Keys <= counts.Keys
    {
      for i := 0 to BUCKET_SIZE
        invariant NewSoFar(h, key, infos, Seen(t, n, i), mapNew)
        invariant mapNew.Keys <= counts.Keys
      {
        ContentsAt(m.vvNew, Slot(n, i));
        var id := m.vvNew[n, i];
        if id == -1 {
          NewSkip(h, key, infos, t, n, i, mapNew);
        } else {
          if id !in mapNew {
            NewRejected(h, key, infos, t, n, i, mapNew);
            return -12, mapNew;
          }
          assert id in counts;
          if BucketPosition(m.hashes, m.key, true, n, m.infos[id].service) != i {
            NewRejected(h, key, infos, t, n, i, mapNew);
            return -19, mapNew;
          }
          NewFound(h, key, infos, t, n, i, mapNew);
          if mapNew[id] == 1 {
            mapNew := mapNew - {id};
          } else {
            mapNew := mapNew[id := mapNew[id] - 1];
          }
        }
      }
      RowEnd(t, NEW_BUCKET_COUNT, n);
    }
    RowEnd(t, NEW_BUCKET_COUNT, 0);
    NewEnd(h, key, infos, t, mapNew);
    code := 0;
  }

  lemma CountsPositive(s: State)
    requires EntriesPass(s)
    ensures forall id <- s.infos :: !s.infos[id].inTried ==> s.infos[id].refCount > 0
    ensures forall id <- s.infos :: s.infos[id].inTried ==> s.infos[id].refCount == 0
  {
    forall id <- s.infos ensures (!s.infos[id].inTried ==> s.infos[id].refCount > 0) && (s.infos[id].inTried ==> s.infos[id].refCount == 0) {
      assert EntryCode(s.infos, s.addrs, s.random, id) == 0;
    }
  }

  /** Counting the references of the entries that are not tried counts all. */
  lemma AllCounted(h: Hashes, s: State)
    requires EntriesPass(s) && NewPlaced(h, s.key, s.infos, s.news)
    ensures NewCounted(s.infos, s.news) <==> RefCounted(s.infos, s.news)
  {
    CountsPositive(s);
    forall id <- s.infos | s.infos[id].inTried ensures s.infos[id].refCount == |SlotsOf(s.news, id)| {
      forall slot <- s.news ensures s.news[slot] != id {
        assert NewPlacedAt(h, s.key, s.infos, slot, s.news[slot]);
      }
      assert SlotsOf(s.news, id) == {};
    }
  }

  lemma NewSize(infos: map<int, Info>, counts: map<int, int>)
    requires counts == map id | id in infos && !infos[id].inTried :: infos[id].refCount
    ensures |counts| == |infos| - |TriedIds(infos)|
  {
    assert counts.Keys + TriedIds(infos) == infos.Keys && counts.Keys !! TriedIds(infos);
    assert |counts.Keys| == |counts| && |infos.Keys| == |infos|;
  }

  /** The check returns zero exactly if the key is set and everything it asks for holds; so on a consistent
      manager with a key it returns zero. */
  method Check(m: AddrManager) returns (code: int)
    requires m.Shaped()
    modifies m`addrs
    ensures code == 0 <==> m.key != 0 && Passes(m.hashes, old(m.Abs()))
    ensures old(m.Valid()) && m.key != 0 ==> code == 0
    ensures old(m.Valid()) ==> m.Abs() == old(m.Abs())
  {
    hide Contents, TriedPlaced, NewPlaced, RefCounted, NewCounted, EntriesPass, Inv;
    ghost var s := m.Abs();
    PassesExact(m.hashes, s);
    if |m.random| != m.nTried + m.nNew {
      return -7;
    }
    var setTried, mapNew;
    code, setTried, mapNew := CheckEntries(m);
    if code != 0 {
      return;
    }
    NewSize(m.infos, mapNew);
    if |setTried| != m.nTried {
      return -9;
    }
    if |mapNew| != m.nNew {
      return -10;
    }
    var left, pending;
    code, left := CheckTried(m, setTried);
    if code != 0 {
      return;
    }
    CountsPositive(s);
    code, pending := CheckNew(m, mapNew);
    if NewPlaced(m.hashes, s.key, s.infos, s.news) {
      AllCounted(m.hashes, s);
    }
    if code != 0 {
      return;
    }
    if |left| != 0 {
      return -13;
    }
    if |pending| != 0 {
      return -15;
    }
    if m.key == 0 {
      return -16;
    }
    return 0;
  }
}
