/** The address manager of src/addrman.cpp: five mutually redundant structures (entries, address
    index, random order, "new" table with reference counts, "tried" table) kept consistent by
    every operation, in the sense of the source's own consistency check.

    Hash values, the clock and random draws are parameters or arbitrary values. */
module AddrMan {
  import opened Basics

  const TRIED_BUCKET_COUNT := 256
  const NEW_BUCKET_COUNT := 1024
  const BUCKET_SIZE := 64
  const TRIED_BUCKETS_PER_GROUP := 8
  const NEW_BUCKETS_PER_SOURCE_GROUP := 64
  const NEW_BUCKETS_PER_ADDRESS := 8
  const HORIZON_DAYS := 30
  const RETRIES := 3
  const MAX_FAILURES := 10
  const MIN_FAIL_DAYS := 7
  const GETADDR_MAX_PCT := 23
  const GETADDR_MAX := 2500

  datatype NetAddr = NetAddr(ip: nat, routable: bool)
  datatype Service = Service(addr: NetAddr, port: nat)
  datatype Address = Address(service: Service, time: nat, services: set<nat>)

  datatype Info = Info(
    service: Service, time: nat, services: set<nat>, source: NetAddr,
    lastTry: int, lastCountAttempt: int, lastSuccess: int, attempts: int,
    refCount: int, inTried: bool, randomPos: int)

  function NewInfo(a: Address, source: NetAddr): Info {
    Info(a.service, a.time, a.services, source, 0, 0, 0, 0, 0, false, -1)
  }

  /** What is fed to the hash function when buckets and positions are drawn. */
  datatype HashInput =
    | TriedKey(key: nat, service: Service)
    | TriedGroup(key: nat, group: nat, n: nat)
    | NewGroup(key: nat, group: nat, sourceGroup: nat)
    | NewSource(key: nat, sourceGroup: nat, n: nat)
    | Position(key: nat, isNew: bool, bucket: nat, service: Service)

  /** GetCheapHash of the hash of the input, and CNetAddr::GetGroup. */
  datatype Hashes = Hashes(cheap: HashInput -> nat, group: NetAddr -> nat)

  datatype Slot = Slot(bucket: nat, pos: nat)
  type Table = map<Slot, int>

  function BucketPosition(h: Hashes, key: nat, isNew: bool, bucket: nat, service: Service): (pos: nat)
    ensures pos < BUCKET_SIZE
  {
    h.cheap(Position(key, isNew, bucket, service)) % BUCKET_SIZE
  }

  function TriedSlot(h: Hashes, key: nat, service: Service): (s: Slot)
    ensures s.bucket < TRIED_BUCKET_COUNT && s.pos < BUCKET_SIZE
  {
    var hash1 := h.cheap(TriedKey(key, service));
    var hash2 := h.cheap(TriedGroup(key, h.group(service.addr), hash1 % TRIED_BUCKETS_PER_GROUP));
    var bucket := hash2 % TRIED_BUCKET_COUNT;
    Slot(bucket, BucketPosition(h, key, false, bucket, service))
  }

  function NewSlot(h: Hashes, key: nat, service: Service, source: NetAddr): (s: Slot)
    ensures s.bucket < NEW_BUCKET_COUNT && s.pos < BUCKET_SIZE
  {
    var sourceGroup := h.group(source);
    var hash1 := h.cheap(NewGroup(key, h.group(service.addr), sourceGroup));
    var hash2 := h.cheap(NewSource(key, sourceGroup, hash1 % NEW_BUCKETS_PER_SOURCE_GROUP));
    var bucket := hash2 % NEW_BUCKET_COUNT;
    Slot(bucket, BucketPosition(h, key, true, bucket, service))
  }

  predicate IsTerrible(info: Info, now: int) {
    if info.lastTry != 0 && info.lastTry >= now - 60 then false
    else
      || info.time > now + 10 * 60
      || info.time == 0
      || now - info.time > HORIZON_DAYS * 24 * 60 * 60
      || (info.lastSuccess == 0 && info.attempts >= RETRIES)
      || (now - info.lastSuccess > MIN_FAIL_DAYS * 24 * 60 * 60 && info.attempts >= MAX_FAILURES)
  }

  /** An entry worth keeping, in seconds: tried within the last minute; or seen within the last thirty days and
      not more than ten minutes in the future, with fewer than three attempts if none ever succeeded, and
      fewer than ten if the last success is more than a week ago. */
  ghost predicate Worthy(info: Info, now: int) {
    || (info.lastTry != 0 && info.lastTry >= now - 60)
    || (&& 0 < info.time && now - 2592000 <= info.time <= now + 600
        && (info.lastSuccess == 0 ==> info.attempts < 3)
        && (info.lastSuccess < now - 604800 ==> info.attempts < 10))
  }

  /** The tests of the source in order decide exactly that. */
  lemma TerribleExact(info: Info, now: int)
    ensures IsTerrible(info, now) <==> !Worthy(info, now)
  {
  }

  lemma AllTerribleExact(now: int)
    ensures forall info: Info :: IsTerrible(info, now) <==> !Worthy(info, now)
  {
    forall info: Info ensures IsTerrible(info, now) <==> !Worthy(info, now) {
      TerribleExact(info, now);
    }
  }

  /** Which hashes give the slots, and the numbers of buckets and positions. */
  lemma SlotsExact(h: Hashes, key: nat, service: Service, source: NetAddr)
    ensures var s, g := NewSlot(h, key, service, source), h.group(source);
            && s.bucket == h.cheap(NewSource(key, g, h.cheap(NewGroup(key, h.group(service.addr), g)) % 64)) % 1024
            && s.pos == h.cheap(Position(key, true, s.bucket, service)) % 64
    ensures var s := TriedSlot(h, key, service);
            && s.bucket == h.cheap(TriedGroup(key, h.group(service.addr), h.cheap(TriedKey(key, service)) % 8)) % 256
            && s.pos == h.cheap(Position(key, false, s.bucket, service)) % 64
  {
  }

  /** What is heard from one source falls into at most 64 new buckets, however many addresses there are. */
  lemma NewSpread(h: Hashes, key: nat, source: NetAddr, services: set<Service>)
    ensures |set x <- services :: NewSlot(h, key, x, source).bucket| <= 64
  {
    hide BucketPosition, Values;
    var buckets := set x <- services :: NewSlot(h, key, x, source).bucket;
    var g := h.group(source);
    var at := (n: nat) => h.cheap(NewSource(key, g, n)) % NEW_BUCKET_COUNT;
    forall b <- buckets ensures b in Values(at, NEW_BUCKETS_PER_SOURCE_GROUP) {
      var x :| x in services && NewSlot(h, key, x, source).bucket == b;
      var n := h.cheap(NewGroup(key, h.group(x.addr), g)) % NEW_BUCKETS_PER_SOURCE_GROUP;
      ValuesHas(at, NEW_BUCKETS_PER_SOURCE_GROUP, n);
      assert at(n) == b;
    }
    ValuesSize(at, NEW_BUCKETS_PER_SOURCE_GROUP);
    SubsetSize(buckets, Values(at, NEW_BUCKETS_PER_SOURCE_GROUP));
  }

  /** The addresses of one group fall into at most eight tried buckets. */
  lemma TriedSpread(h: Hashes, key: nat, group: nat, services: set<Service>)
    requires forall x <- services :: h.group(x.addr) == group
    ensures |set x <- services :: TriedSlot(h, key, x).bucket| <= 8
  {
    hide BucketPosition, Values;
    var buckets := set x <- services :: TriedSlot(h, key, x).bucket;
    var at := (n: nat) => h.cheap(TriedGroup(key, group, n)) % TRIED_BUCKET_COUNT;
    forall b <- buckets ensures b in Values(at, TRIED_BUCKETS_PER_GROUP) {
      var x :| x in services && TriedSlot(h, key, x).bucket == b;
      var n := h.cheap(TriedKey(key, x)) % TRIED_BUCKETS_PER_GROUP;
      ValuesHas(at, TRIED_BUCKETS_PER_GROUP, n);
      assert at(n) == b;
    }
    ValuesSize(at, TRIED_BUCKETS_PER_GROUP);
    SubsetSize(buckets, Values(at, TRIED_BUCKETS_PER_GROUP));
  }

  ghost function Values(f: nat -> nat, n: nat): set<nat> {
    set i: nat | i < n :: f(i)
  }

  lemma ValuesHas(f: nat -> nat, n: nat, i: nat)
    requires i < n
    ensures f(i) in Values(f, n)
  {
  }

  lemma {:induction false} ValuesSize(f: nat -> nat, n: nat)
    ensures |Values(f, n)| <= n
  {
    if n > 0 {
      ValuesSize(f, n - 1);
      assert Values(f, n) == Values(f, n - 1) + {f(n - 1)};
    } else {
      assert Values(f, 0) == {};
    }
  }

  lemma SubsetSize(a: set<nat>, b: set<nat>)
    requires a <= b
    ensures |a| <= |b|
  {
    assert b == a + (b - a);
  }

  //////////////////////////////////////////////////////////////////////////////
  // The state and its consistency
  //////////////////////////////////////////////////////////////////////////////

  datatype State = State(
    key: nat, idCount: nat, infos: map<int, Info>, addrs: map<NetAddr, int>, random: seq<int>,
    nTried: int, nNew: int, tried: Table, news: Table)

  ghost function SlotsOf(t: Table, id: int): set<Slot> {
    set s | s in t && t[s] == id
  }

  ghost function TriedIds(infos: map<int, Info>): set<int> {
    set id | id in infos && infos[id].inTried
  }

  /** mapAddr and mapInfo are inverse to each other. */
  ghost predicate Addressed(infos: map<int, Info>, addrs: map<NetAddr, int>) {
    && (forall id <- infos :: infos[id].service.addr in addrs && addrs[infos[id].service.addr] == id)
    && (forall a <- addrs :: addrs[a] in infos && infos[addrs[a]].service.addr == a)
  }

  /** vRandom and nRandomPos are inverse to each other. */
  ghost predicate Shuffled(infos: map<int, Info>, random: seq<int>) {
    && |random| == |infos|
    && (forall id <- infos :: 0 <= infos[id].randomPos < |random| && random[infos[id].randomPos] == id)
    && (forall p | 0 <= p < |random| :: random[p] in infos && infos[random[p]].randomPos == p)
  }

  /** Every reference in the new table is to an entry that is not tried, at the position hashed
      for it in that bucket. */
  ghost predicate NewPlaced(h: Hashes, key: nat, infos: map<int, Info>, news: Table) {
    forall s <- news :: NewPlacedAt(h, key, infos, s, news[s])
  }

  ghost predicate NewPlacedAt(h: Hashes, key: nat, infos: map<int, Info>, s: Slot, id: int) {
    && s.bucket < NEW_BUCKET_COUNT
    && id in infos
    && !infos[id].inTried
    && s.pos == BucketPosition(h, key, true, s.bucket, infos[id].service)
  }

  ghost predicate RefCounted(infos: map<int, Info>, news: Table) {
    forall id <- infos :: infos[id].refCount == |SlotsOf(news, id)|
  }

  /** The tried table holds exactly the tried entries, each in the slot hashed for it. */
  ghost predicate TriedPlaced(h: Hashes, key: nat, infos: map<int, Info>, tried: Table) {
    && (forall s <- tried :: TriedPlacedAt(h, key, infos, s, tried[s]))
    && (forall id <- infos | infos[id].inTried :: Holds(tried, TriedSlot(h, key, infos[id].service), id))
  }

  ghost predicate TriedPlacedAt(h: Hashes, key: nat, infos: map<int, Info>, s: Slot, id: int) {
    id in infos && infos[id].inTried && s == TriedSlot(h, key, infos[id].service)
  }

  ghost predicate Holds(t: Table, s: Slot, id: int) {
    s in t && t[s] == id
  }

  /** Tried entries have succeeded and have no references; others have one to eight, except those
      in `limbo`, which an operation is about to place or delete. */
  ghost predicate Live(infos: map<int, Info>, limbo: set<int>) {
    forall id <- infos :: LiveAt(infos[id], id in limbo)
  }

  ghost predicate LiveAt(info: Info, limbo: bool) {
    && info.lastTry >= 0
    && info.lastSuccess >= 0
    && info.refCount <= NEW_BUCKETS_PER_ADDRESS
    && (info.inTried ==> info.lastSuccess != 0 && !limbo)
    && (!info.inTried && !limbo ==> info.refCount >= 1)
  }

  /** The counters; entries in `uncounted` are in neither. */
  ghost predicate Totalled(s: State, uncounted: set<int>) {
    && uncounted <= s.infos.Keys - TriedIds(s.infos)
    && s.nTried == |TriedIds(s.infos)|
    && s.nNew + s.nTried + |uncounted| == |s.infos|
    && (forall id <- uncounted :: s.infos[id].refCount == 0)
  }

  /** Consistency while the entries in `limbo` are unplaced, those in `uncounted` also uncounted. */
  ghost predicate Inv(h: Hashes, s: State, limbo: set<int>, uncounted: set<int>) {
    && (forall id <- s.infos :: 0 <= id < s.idCount)
    && Addressed(s.infos, s.addrs)
    && Shuffled(s.infos, s.random)
    && NewPlaced(h, s.key, s.infos, s.news)
    && RefCounted(s.infos, s.news)
    && TriedPlaced(h, s.key, s.infos, s.tried)
    && Live(s.infos, limbo + uncounted)
    && Totalled(s, uncounted)
  }

  ghost predicate Consistent(h: Hashes, s: State) {
    Inv(h, s, {}, {})
  }

  //////////////////////////////////////////////////////////////////////////////
  // Steps on states
  //////////////////////////////////////////////////////////////////////////////

  ghost function Swapped(s: State, i: nat, j: nat): State
    requires i < |s.random| && j < |s.random| && s.random[i] in s.infos && s.random[j] in s.infos
  {
    if i == j then s
    else
      var id1, id2 := s.random[i], s.random[j];
      var infos1 := s.infos[id1 := s.infos[id1].(randomPos := j)];
      s.(infos := infos1[id2 := infos1[id2].(randomPos := i)],
         random := s.random[i := id2][j := id1])
  }

  /** Two entry tables that differ in random positions only. */
  ghost predicate SameEntries(infos: map<int, Info>, infos': map<int, Info>) {
    && infos'.Keys == infos.Keys
    && forall id <- infos :: SameEntry(infos[id], infos'[id])
  }

  ghost predicate SameEntry(a: Info, b: Info) {
    b == a.(randomPos := b.randomPos)
  }

  lemma SwappedShuffled(s: State, i: nat, j: nat)
    requires Shuffled(s.infos, s.random) && i < |s.random| && j < |s.random|
    ensures Shuffled(Swapped(s, i, j).infos, Swapped(s, i, j).random)
    ensures SameEntries(s.infos, Swapped(s, i, j).infos)
  {
    if i != j {
      var infos, random := Swapped(s, i, j).infos, Swapped(s, i, j).random;
      assert infos.Keys == s.infos.Keys;
      forall p | 0 <= p < |random|
        ensures random[p] in infos && infos[random[p]].randomPos == p
      {
        assert s.infos[s.random[p]].randomPos == p;
      }
      forall id <- infos
        ensures 0 <= infos[id].randomPos < |random| && random[infos[id].randomPos] == id
      {
        assert s.random[s.infos[id].randomPos] == id;
      }
    }
  }

  lemma SameEntriesNew(h: Hashes, key: nat, infos: map<int, Info>, infos': map<int, Info>, news: Table)
    requires SameEntries(infos, infos') && NewPlaced(h, key, infos, news)
    ensures NewPlaced(h, key, infos', news)
  {
    forall s <- news ensures NewPlacedAt(h, key, infos', s, news[s]) {
      assert NewPlacedAt(h, key, infos, s, news[s]);
      assert SameEntry(infos[news[s]], infos'[news[s]]);
    }
  }

  lemma SameEntriesTried(h: Hashes, key: nat, infos: map<int, Info>, infos': map<int, Info>, tried: Table)
    requires SameEntries(infos, infos') && TriedPlaced(h, key, infos, tried)
    ensures TriedPlaced(h, key, infos', tried)
  {
    forall s <- tried ensures TriedPlacedAt(h, key, infos', s, tried[s]) {
      assert TriedPlacedAt(h, key, infos, s, tried[s]);
      assert SameEntry(infos[tried[s]], infos'[tried[s]]);
    }
    forall id <- infos' | infos'[id].inTried ensures Holds(tried, TriedSlot(h, key, infos'[id].service), id) {
      assert SameEntry(infos[id], infos'[id]);
    }
  }

  lemma SameEntriesAddressed(infos: map<int, Info>, infos': map<int, Info>, addrs: map<NetAddr, int>)
    requires SameEntries(infos, infos') && Addressed(infos, addrs)
    ensures Addressed(infos', addrs)
  {
  }

  lemma SameEntriesCounts(infos: map<int, Info>, infos': map<int, Info>, news: Table)
    requires SameEntries(infos, infos')
    ensures RefCounted(infos, news) ==> RefCounted(infos', news)
    ensures TriedIds(infos') == TriedIds(infos) && |infos'| == |infos|
  {
    forall id ensures id in TriedIds(infos') <==> id in TriedIds(infos) {
      if id in infos { assert SameEntry(infos[id], infos'[id]); }
    }
    assert |infos'.Keys| == |infos'| && |infos.Keys| == |infos|;
  }

  /** Random positions matter to the random order only. */
  lemma SameEntriesInv(h: Hashes, s: State, t: State, limbo: set<int>, uncounted: set<int>)
    requires Inv(h, s, limbo, uncounted)
    requires SameEntries(s.infos, t.infos) && Shuffled(t.infos, t.random)
    requires t == s.(infos := t.infos, random := t.random)
    ensures Inv(h, t, limbo, uncounted)
  {
    SameEntriesNew(h, s.key, s.infos, t.infos, s.news);
    SameEntriesTried(h, s.key, s.infos, t.infos, s.tried);
    SameEntriesAddressed(s.infos, t.infos, s.addrs);
    SameEntriesCounts(s.infos, t.infos, s.news);
    assert Live(t.infos, limbo + uncounted);
    assert Totalled(t, uncounted);
  }

  lemma SwappedBelow(s: State, i: nat, j: nat)
    requires Shuffled(s.infos, s.random) && i <= j < |s.random|
    ensures forall p | 0 <= p < i :: Swapped(s, i, j).random[p] == s.random[p]
    ensures forall id <- s.infos :: s.infos[id].randomPos < i ==>
              id in Swapped(s, i, j).infos && Swapped(s, i, j).infos[id] == s.infos[id]
  {
  }

  lemma SameEntriesSelf(infos: map<int, Info>)
    ensures SameEntries(infos, infos)
  {
  }

  lemma SameEntriesTrans(a: map<int, Info>, b: map<int, Info>, c: map<int, Info>)
    requires SameEntries(a, b) && SameEntries(b, c)
    ensures SameEntries(a, c)
  {
    forall id <- a ensures SameEntry(a[id], c[id]) {
      assert SameEntry(a[id], b[id]) && SameEntry(b[id], c[id]);
    }
  }

  lemma SameEntriesWithout(infos: map<int, Info>, infos': map<int, Info>, id: int)
    requires SameEntries(infos, infos')
    ensures SameEntries(infos - {id}, infos' - {id})
  {
    forall k <- infos - {id} ensures SameEntry((infos - {id})[k], (infos' - {id})[k]) {
      assert SameEntry(infos[k], infos'[k]);
    }
  }

  lemma SwappedInv(h: Hashes, s: State, i: nat, j: nat, limbo: set<int>, uncounted: set<int>)
    requires Inv(h, s, limbo, uncounted) && i < |s.random| && j < |s.random|
    ensures Inv(h, Swapped(s, i, j), limbo, uncounted)
  {
    SwappedShuffled(s, i, j);
    SameEntriesInv(h, s, Swapped(s, i, j), limbo, uncounted);
  }

  /** Removes the entry at the end of the random order. */
  ghost function Dropped(s: State, id: int): State
    requires id in s.infos && |s.random| > 0
  {
    s.(random := s.random[..|s.random| - 1],
       addrs := s.addrs - {s.infos[id].service.addr},
       infos := s.infos - {id},
       nNew := s.nNew - 1)
  }

  lemma DroppedShuffled(infos: map<int, Info>, addrs: map<NetAddr, int>, random: seq<int>, id: int)
    requires Shuffled(infos, random) && Addressed(infos, addrs)
    requires id in infos && infos[id].randomPos == |random| - 1
    ensures Shuffled(infos - {id}, random[..|random| - 1])
    ensures Addressed(infos - {id}, addrs - {infos[id].service.addr})
  {
    hide Shuffled;
    DroppedOrder(infos, random, id);
  }

  lemma DroppedOrder(infos: map<int, Info>, random: seq<int>, id: int)
    requires Shuffled(infos, random)
    requires id in infos && infos[id].randomPos == |random| - 1
    ensures Shuffled(infos - {id}, random[..|random| - 1])
  {
    var infos', random' := infos - {id}, random[..|random| - 1];
    assert infos'.Keys == infos.Keys - {id};
    forall k <- infos'
      ensures 0 <= infos'[k].randomPos < |random'| && random'[infos'[k].randomPos] == k
    {
      assert random[infos[k].randomPos] == k;
    }
    forall p | 0 <= p < |random'| ensures random'[p] in infos' && infos'[random'[p]].randomPos == p {
      assert infos[random[p]].randomPos == p;
    }
  }

  lemma DroppedPlaced(h: Hashes, key: nat, infos: map<int, Info>, tried: Table, news: Table, id: int)
    requires NewPlaced(h, key, infos, news) && TriedPlaced(h, key, infos, tried) && RefCounted(infos, news)
    requires id in infos && !infos[id].inTried && infos[id].refCount == 0
    ensures NewPlaced(h, key, infos - {id}, news) && TriedPlaced(h, key, infos - {id}, tried)
    ensures RefCounted(infos - {id}, news)
    ensures TriedIds(infos - {id}) == TriedIds(infos) && |infos - {id}| == |infos| - 1
  {
    assert (infos - {id}).Keys == infos.Keys - {id};
    assert SlotsOf(news, id) == {};
    forall s <- news ensures news[s] in infos - {id} {
      assert news[s] == id ==> s in SlotsOf(news, id);
    }
  }

  lemma DroppedInv(h: Hashes, s: State, id: int, limbo: set<int>, uncounted: set<int>)
    requires Inv(h, s, limbo, uncounted)
    requires id in s.infos && !s.infos[id].inTried && s.infos[id].refCount == 0
    requires id !in uncounted && s.infos[id].randomPos == |s.random| - 1
    ensures Inv(h, Dropped(s, id), limbo - {id}, uncounted)
  {
    var t := Dropped(s, id);
    DroppedShuffled(s.infos, s.addrs, s.random, id);
    DroppedPlaced(h, s.key, s.infos, s.tried, s.news, id);
    assert Live(t.infos, limbo - {id} + uncounted);
  }

  /** CAddrMan::Delete. */
  ghost function Deleted(s: State, id: int): State
    requires Shuffled(s.infos, s.random) && id in s.infos
  {
    Dropped(Swapped(s, s.infos[id].randomPos, |s.random| - 1), id)
  }

  lemma DeletedEffect(s: State, id: int)
    requires Shuffled(s.infos, s.random) && id in s.infos
    ensures SameEntries(s.infos - {id}, Deleted(s, id).infos)
    ensures Deleted(s, id) == s.(infos := Deleted(s, id).infos, addrs := Deleted(s, id).addrs,
                                 random := Deleted(s, id).random, nNew := s.nNew - 1)
  {
    var pos, last := s.infos[id].randomPos, |s.random| - 1;
    SwappedShuffled(s, pos, last);
    SameEntriesWithout(s.infos, Swapped(s, pos, last).infos, id);
  }

  lemma DeletedInv(h: Hashes, s: State, id: int, limbo: set<int>, uncounted: set<int>)
    requires Inv(h, s, limbo, uncounted)
    requires id in s.infos && !s.infos[id].inTried && s.infos[id].refCount == 0 && id !in uncounted
    ensures Inv(h, Deleted(s, id), limbo - {id}, uncounted)
  {
    var pos, last := s.infos[id].randomPos, |s.random| - 1;
    SwappedInv(h, s, pos, last, limbo, uncounted);
    SwappedShuffled(s, pos, last);
    var t := Swapped(s, pos, last);
    assert SameEntry(s.infos[id], t.infos[id]);
    DroppedInv(h, t, id, limbo, uncounted);
  }

  /** CAddrMan::Create, with the counter its only caller increments. */
  ghost function Created(s: State, a: Address, source: NetAddr): State {
    s.(idCount := s.idCount + 1,
       infos := s.infos[s.idCount := NewInfo(a, source).(randomPos := |s.random|)],
       addrs := s.addrs[a.service.addr := s.idCount],
       random := s.random + [s.idCount],
       nNew := s.nNew + 1)
  }

  lemma CreatedShuffled(infos: map<int, Info>, addrs: map<NetAddr, int>, random: seq<int>, id: int, info: Info)
    requires Shuffled(infos, random) && Addressed(infos, addrs)
    requires id !in infos && info.service.addr !in addrs && info.randomPos == |random|
    ensures Shuffled(infos[id := info], random + [id])
    ensures Addressed(infos[id := info], addrs[info.service.addr := id])
  {
    var infos', random' := infos[id := info], random + [id];
    assert infos'.Keys == infos.Keys + {id};
    forall k <- infos'
      ensures 0 <= infos'[k].randomPos < |random'| && random'[infos'[k].randomPos] == k
    {
      if k != id { assert random[infos[k].randomPos] == k; }
    }
    forall p | 0 <= p < |random'| ensures random'[p] in infos' && infos'[random'[p]].randomPos == p {
      if p < |random| { assert infos[random[p]].randomPos == p; }
    }
  }

  lemma CreatedPlaced(h: Hashes, key: nat, infos: map<int, Info>, tried: Table, news: Table, id: int, info: Info)
    requires NewPlaced(h, key, infos, news) && TriedPlaced(h, key, infos, tried) && RefCounted(infos, news)
    requires id !in infos && !info.inTried && info.refCount == 0
    ensures NewPlaced(h, key, infos[id := info], news) && TriedPlaced(h, key, infos[id := info], tried)
    ensures RefCounted(infos[id := info], news)
    ensures TriedIds(infos[id := info]) == TriedIds(infos) && |infos[id := info]| == |infos| + 1
  {
    hide BucketPosition, TriedSlot;
    var infos' := infos[id := info];
    assert infos'.Keys == infos.Keys + {id};
    forall s <- news ensures NewPlacedAt(h, key, infos', s, news[s]) && s !in SlotsOf(news, id) {
      assert NewPlacedAt(h, key, infos, s, news[s]);
    }
    forall s <- tried ensures TriedPlacedAt(h, key, infos', s, tried[s]) {
      assert TriedPlacedAt(h, key, infos, s, tried[s]);
    }
    assert SlotsOf(news, id) == {};
  }

  lemma CreatedInv(h: Hashes, s: State, a: Address, source: NetAddr)
    requires Consistent(h, s) && a.service.addr !in s.addrs
    ensures Inv(h, Created(s, a, source), {s.idCount}, {})
  {
    var t := Created(s, a, source);
    var info := t.infos[s.idCount];
    CreatedShuffled(s.infos, s.addrs, s.random, s.idCount, info);
    CreatedPlaced(h, s.key, s.infos, s.tried, s.news, s.idCount, info);
    assert Live(t.infos, {s.idCount});
  }

  /** Changes of an entry that leave its place in every structure alone. */
  ghost predicate SamePlace(a: Info, b: Info) {
    && b.service == a.service && b.source == a.source && b.refCount == a.refCount
    && b.inTried == a.inTried && b.randomPos == a.randomPos
    && b.lastTry >= 0 && b.lastSuccess >= 0 && (b.inTried ==> b.lastSuccess != 0)
  }

  lemma TouchedPlaced(h: Hashes, key: nat, infos: map<int, Info>, tried: Table, news: Table, id: int, info: Info)
    requires NewPlaced(h, key, infos, news) && TriedPlaced(h, key, infos, tried)
    requires id in infos && info.service == infos[id].service && info.inTried == infos[id].inTried
    ensures NewPlaced(h, key, infos[id := info], news) && TriedPlaced(h, key, infos[id := info], tried)
  {
    var infos' := infos[id := info];
    forall s <- news ensures NewPlacedAt(h, key, infos', s, news[s]) {
      assert NewPlacedAt(h, key, infos, s, news[s]);
    }
    forall s <- tried ensures TriedPlacedAt(h, key, infos', s, tried[s]) {
      assert TriedPlacedAt(h, key, infos, s, tried[s]);
    }
  }

  lemma TouchedOrder(infos: map<int, Info>, addrs: map<NetAddr, int>, random: seq<int>, id: int, info: Info)
    requires Shuffled(infos, random) && Addressed(infos, addrs)
    requires id in infos && info.service == infos[id].service && info.randomPos == infos[id].randomPos
    ensures Shuffled(infos[id := info], random) && Addressed(infos[id := info], addrs)
    ensures |infos[id := info]| == |infos|
  {
    assert infos[id := info].Keys == infos.Keys;
  }

  lemma TouchedLive(infos: map<int, Info>, id: int, info: Info, limbo: set<int>, limbo': set<int>)
    requires Live(infos, limbo) && id in infos
    requires LiveAt(info, id in limbo') && limbo - {id} == limbo' - {id}
    ensures Live(infos[id := info], limbo')
  {
    var infos' := infos[id := info];
    forall k <- infos' ensures LiveAt(infos'[k], k in limbo') {
      if k != id {
        assert LiveAt(infos[k], k in limbo);
        assert k in limbo <==> k in limbo - {id};
      }
    }
  }

  lemma TouchedCounted(infos: map<int, Info>, news: Table, id: int, info: Info)
    requires RefCounted(infos, news) && id in infos && info.refCount == infos[id].refCount
    ensures RefCounted(infos[id := info], news)
  {
  }

  lemma TouchedInv(h: Hashes, s: State, id: int, info: Info, limbo: set<int>, uncounted: set<int>)
    requires Inv(h, s, limbo, uncounted)
    requires id in s.infos && SamePlace(s.infos[id], info)
    ensures Inv(h, s.(infos := s.infos[id := info]), limbo, uncounted)
  {
    var t := s.(infos := s.infos[id := info]);
    TouchedOrder(s.infos, s.addrs, s.random, id, info);
    TouchedPlaced(h, s.key, s.infos, s.tried, s.news, id, info);
    assert TriedIds(t.infos) == TriedIds(s.infos);
    TouchedLive(s.infos, id, info, limbo + uncounted, limbo + uncounted);
    TouchedCounted(s.infos, s.news, id, info);
  }

  /** Takes the reference in `slot` from the entry it is to. */
  ghost function Unref(s: State, slot: Slot): State
    requires slot in s.news && s.news[slot] in s.infos
  {
    var id := s.news[slot];
    s.(infos := s.infos[id := s.infos[id].(refCount := s.infos[id].refCount - 1)],
       news := s.news - {slot})
  }

  lemma UnrefCounted(infos: map<int, Info>, news: Table, slot: Slot, info: Info)
    requires RefCounted(infos, news) && slot in news && news[slot] in infos
    requires info.refCount == infos[news[slot]].refCount - 1
    ensures RefCounted(infos[news[slot] := info], news - {slot})
    ensures infos[news[slot]].refCount >= 1
  {
    var id, news' := news[slot], news - {slot};
    assert SlotsOf(news', id) == SlotsOf(news, id) - {slot} && slot in SlotsOf(news, id);
    forall k <- infos | k != id ensures SlotsOf(news', k) == SlotsOf(news, k) {
    }
  }

  lemma UnrefInv(h: Hashes, s: State, slot: Slot, limbo: set<int>, uncounted: set<int>)
    requires Inv(h, s, limbo, uncounted) && slot in s.news
    ensures s.news[slot] in s.infos && s.infos[s.news[slot]].refCount >= 1 && s.news[slot] !in uncounted
    ensures Inv(h, Unref(s, slot), limbo + {s.news[slot]}, uncounted)
  {
    assert NewPlacedAt(h, s.key, s.infos, slot, s.news[slot]);
    var id, t := s.news[slot], Unref(s, slot);
    var info := t.infos[id];
    UnrefCounted(s.infos, s.news, slot, info);
    TouchedOrder(s.infos, s.addrs, s.random, id, info);
    TouchedPlaced(h, s.key, s.infos, s.tried, s.news, id, info);
    forall sl <- t.news ensures NewPlacedAt(h, t.key, t.infos, sl, t.news[sl]) {
      assert NewPlacedAt(h, t.key, t.infos, sl, s.news[sl]);
    }
    assert TriedIds(t.infos) == TriedIds(s.infos);
    TouchedLive(s.infos, id, info, limbo + uncounted, limbo + {id} + uncounted);
  }

  /** An entry that has a reference, or is gone, is not in limbo. */
  lemma LimboLeft(h: Hashes, s: State, id: int, limbo: set<int>, uncounted: set<int>)
    requires Inv(h, s, limbo + {id}, uncounted)
    requires id in s.infos ==> s.infos[id].refCount >= 1
    ensures Inv(h, s, limbo - {id}, uncounted) && Inv(h, s, limbo, uncounted)
  {
    assert Live(s.infos, limbo - {id} + uncounted);
    assert Live(s.infos, limbo + uncounted);
  }

  /** Gives `id` a reference in the empty `slot`. */
  ghost function Ref(s: State, slot: Slot, id: int): State
    requires id in s.infos
  {
    s.(infos := s.infos[id := s.infos[id].(refCount := s.infos[id].refCount + 1)],
       news := s.news[slot := id])
  }

  lemma RefCountedAdd(infos: map<int, Info>, news: Table, slot: Slot, id: int, info: Info)
    requires RefCounted(infos, news) && slot !in news && id in infos
    requires info.refCount == infos[id].refCount + 1
    ensures RefCounted(infos[id := info], news[slot := id])
  {
    var news' := news[slot := id];
    assert SlotsOf(news', id) == SlotsOf(news, id) + {slot};
    forall k <- infos | k != id ensures SlotsOf(news', k) == SlotsOf(news, k) {
    }
  }

  lemma RefInv(h: Hashes, s: State, slot: Slot, id: int, limbo: set<int>, uncounted: set<int>)
    requires Inv(h, s, limbo, uncounted) && slot !in s.news && id !in uncounted
    requires NewPlacedAt(h, s.key, s.infos, slot, id)
    requires s.infos[id].refCount < NEW_BUCKETS_PER_ADDRESS
    ensures Inv(h, Ref(s, slot, id), limbo - {id}, uncounted)
  {
    hide BucketPosition, SlotsOf, TriedSlot;
    var t := Ref(s, slot, id);
    var info := t.infos[id];
    RefCountedAdd(s.infos, s.news, slot, id, info);
    TouchedOrder(s.infos, s.addrs, s.random, id, info);
    TouchedPlaced(h, s.key, s.infos, s.tried, s.news, id, info);
    forall sl <- t.news ensures NewPlacedAt(h, t.key, t.infos, sl, t.news[sl]) {
      if sl != slot { assert NewPlacedAt(h, t.key, t.infos, sl, s.news[sl]); }
    }
    assert TriedIds(t.infos) == TriedIds(s.infos);
    TouchedLive(s.infos, id, info, limbo + uncounted, limbo - {id} + uncounted);
  }

  /** An entry without references moves between "counted as new" and "not counted". */
  lemma CountInv(h: Hashes, s: State, id: int, limbo: set<int>, uncounted: set<int>)
    requires Inv(h, s, limbo, uncounted) && id in uncounted
    ensures Inv(h, s.(nNew := s.nNew + 1), limbo + {id}, uncounted - {id})
  {
    assert limbo + {id} + (uncounted - {id}) == limbo + uncounted;
  }

  lemma UncountInv(h: Hashes, s: State, id: int, limbo: set<int>, uncounted: set<int>)
    requires Inv(h, s, limbo, uncounted) && id !in uncounted
    requires id in s.infos && !s.infos[id].inTried && s.infos[id].refCount == 0
    ensures Inv(h, s.(nNew := s.nNew - 1), limbo - {id}, uncounted + {id})
  {
    assert Live(s.infos, limbo - {id} + (uncounted + {id}));
  }

  /** Takes an entry out of the tried table. */
  ghost function Untried(s: State, slot: Slot): State
    requires slot in s.tried && s.tried[slot] in s.infos
  {
    var id := s.tried[slot];
    s.(infos := s.infos[id := s.infos[id].(inTried := false)],
       tried := s.tried - {slot},
       nTried := s.nTried - 1)
  }

  lemma UntriedPlaced(h: Hashes, key: nat, infos: map<int, Info>, tried: Table, news: Table, slot: Slot)
    requires NewPlaced(h, key, infos, news) && TriedPlaced(h, key, infos, tried)
    requires slot in tried && tried[slot] in infos
    ensures var infos' := infos[tried[slot] := infos[tried[slot]].(inTried := false)];
            && NewPlaced(h, key, infos', news) && TriedPlaced(h, key, infos', tried - {slot})
            && TriedIds(infos') == TriedIds(infos) - {tried[slot]} && tried[slot] in TriedIds(infos)
  {
    var id, tried' := tried[slot], tried - {slot};
    var infos' := infos[id := infos[id].(inTried := false)];
    assert TriedPlacedAt(h, key, infos, slot, id);
    forall s <- news ensures NewPlacedAt(h, key, infos', s, news[s]) {
      assert NewPlacedAt(h, key, infos, s, news[s]);
    }
    forall s <- tried' ensures TriedPlacedAt(h, key, infos', s, tried'[s]) {
      assert TriedPlacedAt(h, key, infos, s, tried[s]);
    }
    forall k <- infos' | infos'[k].inTried ensures Holds(tried', TriedSlot(h, key, infos'[k].service), k) {
      assert Holds(tried, TriedSlot(h, key, infos[k].service), k);
    }
  }

  /** The counters when one entry changes sides: `uncounted'` and the tried entries trade it. */
  lemma TradedTotalled(s: State, t: State, id: int, uncounted: set<int>, uncounted': set<int>)
    requires Totalled(s, uncounted) && id in s.infos && s.infos[id].refCount == 0
    requires id in t.infos && t.infos == s.infos[id := t.infos[id]] && t.infos[id].refCount == 0 && t.nNew == s.nNew
    requires
      || (uncounted' == uncounted + {id} && TriedIds(t.infos) == TriedIds(s.infos) - {id}
          && id in TriedIds(s.infos) && t.nTried == s.nTried - 1)
      || (uncounted' == uncounted - {id} && TriedIds(t.infos) == TriedIds(s.infos) + {id}
          && id in uncounted && t.nTried == s.nTried + 1)
    ensures Totalled(t, uncounted')
  {
    assert t.infos.Keys == s.infos.Keys;
    assert |t.infos| == |t.infos.Keys| && |s.infos| == |s.infos.Keys|;
  }

  lemma UntriedInv(h: Hashes, s: State, slot: Slot, limbo: set<int>, uncounted: set<int>)
    requires Inv(h, s, limbo, uncounted) && slot in s.tried
    ensures s.tried[slot] in s.infos && s.infos[s.tried[slot]].inTried
    ensures s.infos[s.tried[slot]].refCount == 0 && s.tried[slot] !in uncounted
    ensures Inv(h, Untried(s, slot), limbo, uncounted + {s.tried[slot]})
  {
    assert TriedPlacedAt(h, s.key, s.infos, slot, s.tried[slot]);
    var id, t := s.tried[slot], Untried(s, slot);
    TriedUnreferenced(h, s, id);
    UntriedPlaced(h, s.key, s.infos, s.tried, s.news, slot);
    TouchedOrder(s.infos, s.addrs, s.random, id, t.infos[id]);
    TouchedLive(s.infos, id, t.infos[id], limbo + uncounted, limbo + (uncounted + {id}));
    TradedTotalled(s, t, id, uncounted, uncounted + {id});
    TouchedCounted(s.infos, s.news, id, t.infos[id]);
  }

  lemma TriedUnreferenced(h: Hashes, s: State, id: int)
    requires NewPlaced(h, s.key, s.infos, s.news) && RefCounted(s.infos, s.news)
    requires id in s.infos && s.infos[id].inTried
    ensures s.infos[id].refCount == 0
  {
    forall sl <- s.news ensures s.news[sl] != id {
      assert NewPlacedAt(h, s.key, s.infos, sl, s.news[sl]);
    }
    assert SlotsOf(s.news, id) == {};
  }

  /** Puts an uncounted entry in its slot of the tried table. */
  ghost function MovedToTried(s: State, slot: Slot, id: int): State
    requires id in s.infos
  {
    s.(infos := s.infos[id := s.infos[id].(inTried := true)],
       tried := s.tried[slot := id],
       nTried := s.nTried + 1)
  }

  lemma MovedToTriedPlaced(h: Hashes, key: nat, infos: map<int, Info>, tried: Table, news: Table, slot: Slot, id: int)
    requires NewPlaced(h, key, infos, news) && TriedPlaced(h, key, infos, tried) && RefCounted(infos, news)
    requires id in infos && !infos[id].inTried && infos[id].refCount == 0
    requires slot == TriedSlot(h, key, infos[id].service) && slot !in tried
    ensures var infos' := infos[id := infos[id].(inTried := true)];
            && NewPlaced(h, key, infos', news) && TriedPlaced(h, key, infos', tried[slot := id])
            && TriedIds(infos') == TriedIds(infos) + {id}
  {
    var tried', infos' := tried[slot := id], infos[id := infos[id].(inTried := true)];
    assert SlotsOf(news, id) == {};
    forall s <- news ensures NewPlacedAt(h, key, infos', s, news[s]) {
      assert NewPlacedAt(h, key, infos, s, news[s]);
      assert news[s] == id ==> s in SlotsOf(news, id);
    }
    forall s <- tried' ensures TriedPlacedAt(h, key, infos', s, tried'[s]) {
      if s != slot { assert TriedPlacedAt(h, key, infos, s, tried[s]); }
    }
    forall k <- infos' | infos'[k].inTried ensures Holds(tried', TriedSlot(h, key, infos'[k].service), k) {
      if k != id { assert Holds(tried, TriedSlot(h, key, infos[k].service), k); }
    }
  }

  lemma MovedToTriedInv(h: Hashes, s: State, slot: Slot, id: int, limbo: set<int>, uncounted: set<int>)
    requires Inv(h, s, limbo, uncounted)
    requires id in uncounted && id in s.infos && id !in limbo && s.infos[id].lastSuccess != 0
    requires slot == TriedSlot(h, s.key, s.infos[id].service) && slot !in s.tried
    ensures Inv(h, MovedToTried(s, slot, id), limbo, uncounted - {id})
  {
    var t := MovedToTried(s, slot, id);
    MovedToTriedPlaced(h, s.key, s.infos, s.tried, s.news, slot, id);
    TouchedOrder(s.infos, s.addrs, s.random, id, t.infos[id]);
    TouchedLive(s.infos, id, t.infos[id], limbo + uncounted, limbo + (uncounted - {id}));
    TradedTotalled(s, t, id, uncounted, uncounted - {id});
    TouchedCounted(s.infos, s.news, id, t.infos[id]);
  }

  //////////////////////////////////////////////////////////////////////////////
  // Composite steps
  //////////////////////////////////////////////////////////////////////////////

  /** The part of an entry that moving it between tables does not change. */
  ghost predicate SameData(a: Info, b: Info) {
    b == a.(refCount := b.refCount, inTried := b.inTried, randomPos := b.randomPos)
  }

  /** No entry is new and none changed its data. */
  ghost predicate Moved(infos: map<int, Info>, infos': map<int, Info>) {
    forall id <- infos' :: id in infos && SameData(infos[id], infos'[id])
  }

  lemma MovedTrans(a: map<int, Info>, b: map<int, Info>, c: map<int, Info>)
    requires Moved(a, b) && Moved(b, c)
    ensures Moved(a, c)
  {
    forall id <- c ensures id in a && SameData(a[id], c[id]) {
      assert id in b && SameData(b[id], c[id]);
      assert SameData(a[id], b[id]);
    }
  }

  /** CAddrMan::ClearNew. */
  ghost function Cleared(s: State, slot: Slot): State
    requires Shuffled(s.infos, s.random)
    requires slot in s.news ==> s.news[slot] in s.infos
  {
    if slot !in s.news then s
    else
      var t := Unref(s, slot);
      UnrefShuffled(s, slot);
      if t.infos[s.news[slot]].refCount == 0 then Deleted(t, s.news[slot]) else t
  }

  lemma UnrefShuffled(s: State, slot: Slot)
    requires Shuffled(s.infos, s.random) && slot in s.news && s.news[slot] in s.infos
    ensures Shuffled(Unref(s, slot).infos, Unref(s, slot).random)
  {
    assert Unref(s, slot).infos.Keys == s.infos.Keys;
  }

  lemma ClearedInv(h: Hashes, s: State, slot: Slot, limbo: set<int>, uncounted: set<int>)
    requires Inv(h, s, limbo, uncounted)
    requires slot in s.news ==> s.news[slot] in s.infos && s.news[slot] !in limbo
    ensures Inv(h, Cleared(s, slot), limbo, uncounted)
  {
    hide Deleted, Addressed, NewPlaced, RefCounted, TriedPlaced, Totalled;
    if slot in s.news {
      var id, t := s.news[slot], Unref(s, slot);
      UnrefInv(h, s, slot, limbo, uncounted);
      if t.infos[id].refCount == 0 {
        DeletedInv(h, t, id, limbo + {id}, uncounted);
        assert limbo + {id} - {id} == limbo;
      } else {
        LimboLeft(h, t, id, limbo, uncounted);
      }
    }
  }

  /** ClearNew touches one slot and the entry it refers to. */
  lemma ClearedEffect(s: State, slot: Slot)
    requires Shuffled(s.infos, s.random)
    requires slot in s.news ==> s.news[slot] in s.infos
    ensures Moved(s.infos, Cleared(s, slot).infos)
    ensures Cleared(s, slot).news == s.news - {slot} && Cleared(s, slot).tried == s.tried
    ensures Cleared(s, slot).key == s.key && Cleared(s, slot).idCount == s.idCount
    ensures forall id <- s.infos :: !Holds(s.news, slot, id) ==>
              id in Cleared(s, slot).infos && SameEntry(s.infos[id], Cleared(s, slot).infos[id])
  {
    hide Shuffled, Deleted;
    if slot in s.news {
      var id, t := s.news[slot], Unref(s, slot);
      UnrefShuffled(s, slot);
      if t.infos[id].refCount == 0 {
        DeletedEffect(t, id);
        var u := Deleted(t, id);
        forall k <- u.infos ensures k in s.infos && SameData(s.infos[k], u.infos[k]) {
          assert SameEntry((t.infos - {id})[k], u.infos[k]);
        }
        forall k <- s.infos | k != id ensures k in u.infos && SameEntry(s.infos[k], u.infos[k]) {
          assert SameEntry((t.infos - {id})[k], u.infos[k]);
        }
      }
    } else {
      assert s.news - {slot} == s.news;
    }
  }

  /** The slots of `id` in the first `n` buckets are emptied. */
  ghost function Released(news: Table, id: int, n: nat): Table {
    map sl | sl in news && !(news[sl] == id && sl.bucket < n) :: news[sl]
  }

  /** The loop of MakeTried that takes all references from `id`. */
  ghost function UnrefAll(h: Hashes, s: State, id: int, n: nat): State
    requires id in s.infos
    ensures id in UnrefAll(h, s, id, n).infos
    decreases n, s
  {
    if n == 0 then s
    else
      var t := UnrefAll(h, s, id, n - 1);
      var slot := Slot(n - 1, BucketPosition(h, s.key, true, n - 1, s.infos[id].service));
      if Holds(t.news, slot, id) then Unref(t, slot) else t
  }

  lemma LimboEntered(h: Hashes, s: State, id: int, limbo: set<int>, uncounted: set<int>)
    requires Inv(h, s, limbo, uncounted) && id in s.infos && !s.infos[id].inTried
    ensures Inv(h, s, limbo + {id}, uncounted)
  {
    var limbo' := limbo + {id} + uncounted;
    forall k <- s.infos ensures LiveAt(s.infos[k], k in limbo') {
      assert LiveAt(s.infos[k], k in limbo + uncounted);
    }
  }

  lemma {:induction false} UnrefAllInv(h: Hashes, s: State, id: int, n: nat)
    requires Consistent(h, s) && id in s.infos && !s.infos[id].inTried
    ensures Inv(h, UnrefAll(h, s, id, n), {id}, {})
  {
    if n == 0 {
      LimboEntered(h, s, id, {}, {});
    } else {
      UnrefAllInv(h, s, id, n - 1);
      var t := UnrefAll(h, s, id, n - 1);
      var slot := Slot(n - 1, BucketPosition(h, s.key, true, n - 1, s.infos[id].service));
      if Holds(t.news, slot, id) {
        UnrefInv(h, t, slot, {id}, {});
        assert {id} + {id} == {id};
      }
    }
  }

  lemma {:induction false} UnrefAllEffect(h: Hashes, s: State, id: int, n: nat)
    requires NewPlaced(h, s.key, s.infos, s.news) && id in s.infos
    ensures var t := UnrefAll(h, s, id, n);
            && t.news == Released(s.news, id, n)
            && t == s.(infos := t.infos, news := t.news)
            && t.infos == s.infos[id := s.infos[id].(refCount := t.infos[id].refCount)]
  {
    if n == 0 {
      assert Released(s.news, id, 0) == s.news;
    } else {
      UnrefAllEffect(h, s, id, n - 1);
      var t := UnrefAll(h, s, id, n - 1);
      var slot := Slot(n - 1, BucketPosition(h, s.key, true, n - 1, s.infos[id].service));
      forall sl <- s.news | s.news[sl] == id && sl.bucket == n - 1 ensures sl == slot {
        assert NewPlacedAt(h, s.key, s.infos, sl, s.news[sl]);
      }
      ReleasedStep(s.news, id, n - 1, slot);
    }
  }

  lemma ReleasedStep(news: Table, id: int, n: nat, slot: Slot)
    requires slot.bucket == n
    requires forall sl <- news :: news[sl] == id && sl.bucket == n ==> sl == slot
    ensures Released(news, id, n + 1)
            == if Holds(Released(news, id, n), slot, id) then Released(news, id, n) - {slot} else Released(news, id, n)
  {
  }

  lemma ReleasedAll(h: Hashes, key: nat, infos: map<int, Info>, news: Table, id: int)
    requires NewPlaced(h, key, infos, news)
    ensures Released(news, id, NEW_BUCKET_COUNT) == news - SlotsOf(news, id)
    ensures SlotsOf(news - SlotsOf(news, id), id) == {}
  {
    forall sl <- news ensures sl.bucket < NEW_BUCKET_COUNT {
      assert NewPlacedAt(h, key, infos, sl, news[sl]);
    }
  }

  /** After all buckets no reference to `id` is left. */
  lemma UnrefAllDone(h: Hashes, s: State, id: int, t: State)
    requires Consistent(h, s) && id in s.infos && !s.infos[id].inTried
    requires t == UnrefAll(h, s, id, NEW_BUCKET_COUNT)
    ensures t.infos[id].refCount == 0 && t.news == s.news - SlotsOf(s.news, id)
  {
    UnrefAllEffect(h, s, id, NEW_BUCKET_COUNT);
    ReleasedAll(h, s.key, s.infos, s.news, id);
    UnrefAllInv(h, s, id, NEW_BUCKET_COUNT);
    RefCountedAt(t.infos, t.news, id);
  }

  lemma RefCountedAt(infos: map<int, Info>, news: Table, id: int)
    requires RefCounted(infos, news) && id in infos
    ensures infos[id].refCount == |SlotsOf(news, id)|
  {
  }

  /** MakeTried moves the entry in `slot` of the tried table back to the new table. */
  ghost predicate Evictable(h: Hashes, s: State, slot: Slot) {
    && Shuffled(s.infos, s.random) && slot in s.tried && s.tried[slot] in s.infos
    && NewPlaced(h, s.key, s.infos, s.news) && s.infos[s.tried[slot]].inTried
  }

  ghost function Evicted(h: Hashes, s: State, slot: Slot): State
    requires Evictable(h, s, slot)
  {
    var id, t := s.tried[slot], Untried(s, slot);
    TouchedOrderOnly(s.infos, s.random, id, t.infos[id]);
    var home := Home(h, s.key, s.infos[id]);
    assert home in s.news ==> NewPlacedAt(h, s.key, s.infos, home, s.news[home]);
    ClearedEffect(t, home);
    var u := Cleared(t, home);
    Ref(u.(nNew := u.nNew + 1), home, id)
  }

  lemma TouchedOrderOnly(infos: map<int, Info>, random: seq<int>, id: int, info: Info)
    requires Shuffled(infos, random) && id in infos && info.randomPos == infos[id].randomPos
    ensures Shuffled(infos[id := info], random)
  {
    assert infos[id := info].Keys == infos.Keys;
  }

  lemma TriedUnheld(h: Hashes, s: State, id: int, slot: Slot)
    requires NewPlaced(h, s.key, s.infos, s.news) && id in s.infos && s.infos[id].inTried
    ensures !Holds(s.news, slot, id)
  {
    assert slot in s.news ==> NewPlacedAt(h, s.key, s.infos, slot, s.news[slot]);
  }

  lemma ReturnedInv(h: Hashes, s: State, slot: Slot, id: int, uncounted: set<int>)
    requires Inv(h, s, {}, uncounted + {id}) && id !in uncounted && slot !in s.news
    requires id in s.infos && slot == Home(h, s.key, s.infos[id])
    ensures Inv(h, Ref(s.(nNew := s.nNew + 1), slot, id), {}, uncounted)
  {
    CountInv(h, s, id, {}, uncounted + {id});
    assert uncounted + {id} - {id} == uncounted;
    RefInv(h, s.(nNew := s.nNew + 1), slot, id, {id}, uncounted);
  }

  /** The slot of the new table an entry is sent to when it leaves the tried table. */
  ghost function Home(h: Hashes, key: nat, info: Info): Slot {
    NewSlot(h, key, info.service, info.source)
  }

  lemma ClearedHomeInv(h: Hashes, s: State, id: int, home: Slot, uncounted: set<int>)
    requires Inv(h, s, {}, uncounted + {id}) && id in s.infos
    ensures home in s.news ==> s.news[home] in s.infos
    ensures Inv(h, Cleared(s, home), {}, uncounted + {id})
  {
    if home in s.news { assert NewPlacedAt(h, s.key, s.infos, home, s.news[home]); }
    ClearedInv(h, s, home, {}, uncounted + {id});
  }

  lemma EvictedInv(h: Hashes, s: State, slot: Slot, uncounted: set<int>)
    requires Inv(h, s, {}, uncounted) && slot in s.tried
    ensures s.tried[slot] in s.infos && s.infos[s.tried[slot]].inTried
    ensures Inv(h, Evicted(h, s, slot), {}, uncounted)
  {
    var id := s.tried[slot];
    UntriedInv(h, s, slot, {}, uncounted);
    var t, home := Untried(s, slot), Home(h, s.key, s.infos[id]);
    TriedUnheld(h, s, id, home);
    ClearedHomeInv(h, t, id, home, uncounted);
    ClearedEffect(t, home);
    var u := Cleared(t, home);
    assert id in u.infos && SameEntry(t.infos[id], u.infos[id]);
    ReturnedInv(h, u, home, id, uncounted);
  }

  lemma EvictedEffect(h: Hashes, s: State, slot: Slot)
    requires Evictable(h, s, slot)
    ensures var t, id := Evicted(h, s, slot), s.tried[slot];
            && Moved(s.infos, t.infos) && t.key == s.key && t.idCount == s.idCount
            && t.tried == s.tried - {slot}
            && t.news == s.news[Home(h, s.key, s.infos[id]) := id]
            && (forall k <- s.infos :: k !in s.news.Values && k != id ==> k in t.infos && SameEntry(s.infos[k], t.infos[k]))
  {
    hide Cleared, NewSlot, BucketPosition;
    var id, t := s.tried[slot], Untried(s, slot);
    var home := Home(h, s.key, s.infos[id]);
    assert home in s.news ==> NewPlacedAt(h, s.key, s.infos, home, s.news[home]);
    TouchedOrderOnly(s.infos, s.random, id, t.infos[id]);
    ClearedEffect(t, home);
    var u, v := Cleared(t, home), Evicted(h, s, slot);
    assert v.news == s.news[home := id];
    forall k <- v.infos ensures k in s.infos && SameData(s.infos[k], v.infos[k]) {
      assert k in t.infos && SameData(t.infos[k], u.infos[k]);
    }
    forall k <- s.infos | k !in s.news.Values && k != id
      ensures k in v.infos && SameEntry(s.infos[k], v.infos[k])
    {
      assert !Holds(t.news, home, k);
    }
  }

  /** MakeTried up to the point where the entry has left the new table and is not counted. */
  ghost function LeftNew(h: Hashes, s: State, id: int): State
    requires id in s.infos
  {
    var t := UnrefAll(h, s, id, NEW_BUCKET_COUNT);
    t.(nNew := t.nNew - 1)
  }

  lemma LeftNewInv(h: Hashes, s: State, id: int, t: State)
    requires Consistent(h, s) && id in s.infos && !s.infos[id].inTried && t == LeftNew(h, s, id)
    ensures Inv(h, t, {}, {id})
    ensures t == s.(infos := s.infos[id := s.infos[id].(refCount := 0)],
                    news := s.news - SlotsOf(s.news, id), nNew := s.nNew - 1)
  {
    hide UnrefAll, SlotsOf, Addressed, Shuffled, NewPlaced, RefCounted, TriedPlaced;
    var u := UnrefAll(h, s, id, NEW_BUCKET_COUNT);
    UnrefAllInv(h, s, id, NEW_BUCKET_COUNT);
    UnrefAllEffect(h, s, id, NEW_BUCKET_COUNT);
    UnrefAllDone(h, s, id, u);
    UncountInv(h, u, id, {id}, {});
    assert {id} - {id} == {} && {} + {id} == {id};
  }

  /** CAddrMan::MakeTried. */
  ghost function MadeTried(h: Hashes, s: State, id: int): State
    requires Consistent(h, s) && id in s.infos && !s.infos[id].inTried
  {
    var t, slot := LeftNew(h, s, id), TriedSlot(h, s.key, s.infos[id].service);
    LeftNewInv(h, s, id, t);
    if slot in t.tried then
      EvictedInv(h, t, slot, {id});
      MovedToTried(Evicted(h, t, slot), slot, id)
    else MovedToTried(t, slot, id)
  }

  lemma EvictedKeeps(h: Hashes, s: State, slot: Slot, id: int)
    requires Inv(h, s, {}, {id}) && slot in s.tried && id in s.infos
    ensures s.tried[slot] in s.infos && s.infos[s.tried[slot]].inTried
    ensures id in Evicted(h, s, slot).infos && SameEntry(s.infos[id], Evicted(h, s, slot).infos[id])
  {
    EvictedInv(h, s, slot, {id});
    EvictedEffect(h, s, slot);
    RefCountedAt(s.infos, s.news, id);
    forall sl <- s.news ensures s.news[sl] != id {
      assert SlotsOf(s.news, id) == {};
      assert s.news[sl] == id ==> sl in SlotsOf(s.news, id);
    }
  }

  lemma MadeTriedInv(h: Hashes, s: State, id: int)
    requires Consistent(h, s) && id in s.infos && !s.infos[id].inTried && s.infos[id].lastSuccess != 0
    ensures Consistent(h, MadeTried(h, s, id))
  {
    var t, slot := LeftNew(h, s, id), TriedSlot(h, s.key, s.infos[id].service);
    LeftNewInv(h, s, id, t);
    if slot in t.tried {
      EvictedInv(h, t, slot, {id});
      EvictedKeeps(h, t, slot, id);
      EvictedEffect(h, t, slot);
      MovedToTriedInv(h, Evicted(h, t, slot), slot, id, {}, {id});
    } else {
      MovedToTriedInv(h, t, slot, id, {}, {id});
    }
    assert {id} - {id} == {};
  }

  lemma ReplacedEffect(h: Hashes, s: State, slot: Slot, id: int)
    requires Inv(h, s, {}, {id}) && slot in s.tried && id in s.infos
    ensures s.tried[slot] in s.infos && s.infos[s.tried[slot]].inTried && s.tried[slot] != id
    ensures id in Evicted(h, s, slot).infos
    ensures var t := MovedToTried(Evicted(h, s, slot), slot, id);
            && Moved(s.infos, t.infos) && t.key == s.key && t.idCount == s.idCount
            && t.tried == s.tried[slot := id]
            && t.news == s.news[Home(h, s.key, s.infos[s.tried[slot]]) := s.tried[slot]]
  {
    hide Evicted, Shuffled, Addressed, TriedPlaced, RefCounted, Live;
    EvictedKeeps(h, s, slot, id);
    EvictedEffect(h, s, slot);
    var u := Evicted(h, s, slot);
    assert Moved(u.infos, MovedToTried(u, slot, id).infos);
    MovedTrans(s.infos, u.infos, MovedToTried(u, slot, id).infos);
    assert (s.tried - {slot})[slot := id] == s.tried[slot := id];
    assert !s.infos[id].inTried;
  }

  /** The new table after `id` has taken `slot` of the tried table. */
  ghost function NewsAfterGood(h: Hashes, s: State, slot: Slot, id: int): Table {
    var news := s.news - SlotsOf(s.news, id);
    if slot in s.tried && s.tried[slot] in s.infos
    then news[Home(h, s.key, s.infos[s.tried[slot]]) := s.tried[slot]]
    else news
  }

  lemma NewsAfterTouch(h: Hashes, s: State, slot: Slot, id: int, info: Info)
    requires id in s.infos && info.service == s.infos[id].service && info.source == s.infos[id].source
    ensures NewsAfterGood(h, s.(infos := s.infos[id := info]), slot, id) == NewsAfterGood(h, s, slot, id)
  {
  }

  /** What moving `id` to the tried table does to the two tables: it takes its slot there, gives up
      all its slots in the new table, and sends whoever was in its slot to that entry's home slot
      in the new table. No entry's data change. */
  lemma MadeTriedEffect(h: Hashes, s: State, id: int)
    requires Consistent(h, s) && id in s.infos && !s.infos[id].inTried
    ensures var t, slot := MadeTried(h, s, id), TriedSlot(h, s.key, s.infos[id].service);
            && Moved(s.infos, t.infos) && t.key == s.key && t.idCount == s.idCount
            && t.tried == s.tried[slot := id]
            && t.news == NewsAfterGood(h, s, slot, id)
  {
    hide Evicted, LeftNew, Shuffled, Addressed, NewPlaced, TriedPlaced, RefCounted, Live, SlotsOf, TriedSlot;
    var t, slot := LeftNew(h, s, id), TriedSlot(h, s.key, s.infos[id].service);
    LeftNewInv(h, s, id, t);
    assert Moved(s.infos, t.infos);
    if slot in t.tried {
      ReplacedEffect(h, t, slot, id);
      MovedTrans(s.infos, t.infos, MadeTried(h, s, id).infos);
    } else {
      assert Moved(t.infos, MovedToTried(t, slot, id).infos);
    }
  }

  /** The end of Add_: `id` takes `slot` of the new table if `insert` says so, and an entry that
      ends up without a reference is deleted. */
  ghost function Placed(s: State, slot: Slot, id: int, insert: bool): State
    requires Shuffled(s.infos, s.random) && id in s.infos
    requires slot in s.news ==> s.news[slot] in s.infos
  {
    if Holds(s.news, slot, id) then s
    else if insert then
      ClearedEffect(s, slot);
      Ref(Cleared(s, slot), slot, id)
    else if s.infos[id].refCount == 0 then Deleted(s, id)
    else s
  }

  /** Whether Add_ takes the slot: it is free, or its entry is terrible, or that entry has other
      references and the added one has none. */
  ghost predicate Replaceable(s: State, slot: Slot, id: int, now: int)
    requires id in s.infos && (slot in s.news ==> s.news[slot] in s.infos)
  {
    slot in s.news ==>
      && s.news[slot] != id
      && var existing := s.infos[s.news[slot]];
         !Worthy(existing, now) || (existing.refCount > 1 && s.infos[id].refCount == 0)
  }

  lemma PlacedInv(h: Hashes, s: State, slot: Slot, id: int, insert: bool)
    requires Inv(h, s, {id}, {}) && NewPlacedAt(h, s.key, s.infos, slot, id)
    requires s.infos[id].refCount < NEW_BUCKETS_PER_ADDRESS
    ensures slot in s.news ==> s.news[slot] in s.infos
    ensures Consistent(h, Placed(s, slot, id, insert))
  {
    hide Cleared, Deleted, BucketPosition;
    if slot in s.news { assert NewPlacedAt(h, s.key, s.infos, slot, s.news[slot]); }
    if Holds(s.news, slot, id) {
      UnrefInv(h, s, slot, {id}, {});
      LimboLeft(h, s, id, {id}, {});
    } else if insert {
      ClearedInv(h, s, slot, {id}, {});
      ClearedEffect(s, slot);
      assert SameEntry(s.infos[id], Cleared(s, slot).infos[id]);
      RefInv(h, Cleared(s, slot), slot, id, {id}, {});
    } else if s.infos[id].refCount == 0 {
      DeletedInv(h, s, id, {id}, {});
    } else {
      LimboLeft(h, s, id, {id}, {});
    }
    assert {id} - {id} == {};
  }

  lemma PlacedEffect(s: State, slot: Slot, id: int, insert: bool)
    requires Shuffled(s.infos, s.random) && id in s.infos
    requires slot in s.news ==> s.news[slot] in s.infos
    ensures var t := Placed(s, slot, id, insert);
            && Moved(s.infos, t.infos) && t.key == s.key && t.idCount == s.idCount && t.tried == s.tried
            && t.news == (if insert then s.news[slot := id] else s.news)
            && (id in t.infos <==> insert || Holds(s.news, slot, id) || s.infos[id].refCount != 0)
            && (insert && !Holds(s.news, slot, id) ==> t.infos[id].refCount == s.infos[id].refCount + 1)
            && (!insert ==> SameEntries(if id in t.infos then s.infos else s.infos - {id}, t.infos))
  {
    hide Cleared, Deleted, Shuffled;
    ClearedEffect(s, slot);
    DeletedEffect(s, id);
    var t := Placed(s, slot, id, insert);
    if Holds(s.news, slot, id) {
      assert s.news[slot := id] == s.news;
    } else if insert {
      assert (s.news - {slot})[slot := id] == s.news[slot := id];
      assert SameEntry(s.infos[id], Cleared(s, slot).infos[id]);
      MovedTrans(s.infos, Cleared(s, slot).infos, t.infos);
    } else if s.infos[id].refCount == 0 {
      forall k <- t.infos ensures k in s.infos && SameData(s.infos[k], t.infos[k]) {
        assert SameEntry((s.infos - {id})[k], t.infos[k]);
      }
    }
  }

  lemma KnownEntry(h: Hashes, s: State, a: NetAddr)
    requires Consistent(h, s) && a in s.addrs
    ensures s.addrs[a] in s.infos && LiveAt(s.infos[s.addrs[a]], false)
  {
    var id := s.addrs[a];
    assert id in s.infos && LiveAt(s.infos[id], id in {} + {});
  }

  lemma NewEntry(h: Hashes, s: State, slot: Slot)
    requires NewPlaced(h, s.key, s.infos, s.news)
    ensures slot in s.news ==> s.news[slot] in s.infos && !s.infos[s.news[slot]].inTried
  {
    if slot in s.news { assert NewPlacedAt(h, s.key, s.infos, slot, s.news[slot]); }
  }

  function AddressOf(info: Info): Address {
    Address(info.service, info.time, info.services)
  }

  function SampleLimit(size: nat): nat {
    var limit := GETADDR_MAX_PCT * size / 100;
    if limit > GETADDR_MAX then GETADDR_MAX else limit
  }

  ghost predicate SampledAt(infos: map<int, Info>, sample: seq<Address>, ids: seq<int>, k: nat, now: int)
    requires k < |sample| == |ids|
  {
    && ids[k] in infos && sample[k] == AddressOf(infos[ids[k]]) && Worthy(infos[ids[k]], now)
    && forall j | 0 <= j < k :: ids[j] != ids[k]
  }

  /** The sample consists of the entries at the first `n` random positions that are not terrible. */
  ghost predicate Sampled(infos: map<int, Info>, random: seq<int>, n: nat, sample: seq<Address>, ids: seq<int>, now: int) {
    && n <= |random| && |sample| == |ids|
    && (forall k | 0 <= k < |ids| :: SampledAt(infos, sample, ids, k, now) && infos[ids[k]].randomPos < n)
    && (forall p | 0 <= p < n :: random[p] in infos && (!Worthy(infos[random[p]], now) || random[p] in ids))
  }

  lemma ShuffledSize(infos: map<int, Info>, random: seq<int>)
    requires Shuffled(infos, random)
    ensures |random| == |infos| && forall p | 0 <= p < |random| :: random[p] in infos
  {
  }

  lemma SampledEmpty(infos: map<int, Info>, random: seq<int>, now: int)
    ensures Sampled(infos, random, 0, [], [], now)
  {
  }

  lemma SampledSwap(s: State, n: nat, other: nat, sample: seq<Address>, ids: seq<int>, now: int)
    requires Shuffled(s.infos, s.random) && n <= other < |s.random|
    requires Sampled(s.infos, s.random, n, sample, ids, now)
    ensures Sampled(Swapped(s, n, other).infos, Swapped(s, n, other).random, n, sample, ids, now)
  {
    var t := Swapped(s, n, other);
    SwappedBelow(s, n, other);
    SwappedShuffled(s, n, other);
    hide Worthy, Swapped;
    forall k | 0 <= k < |ids| ensures SampledAt(t.infos, sample, ids, k, now) && t.infos[ids[k]].randomPos < n {
      assert SampledAt(s.infos, sample, ids, k, now);
    }
    forall p | 0 <= p < n ensures t.random[p] in t.infos && (!Worthy(t.infos[t.random[p]], now) || t.random[p] in ids) {
      assert s.infos[s.random[p]].randomPos == p;
    }
  }

  lemma SampleSwap(h: Hashes, s: State, t: State, n: nat, other: nat, sample: seq<Address>, ids: seq<int>, now: int)
    requires Consistent(h, s) && n <= other < |s.random| && t == Swapped(s, n, other)
    requires Sampled(s.infos, s.random, n, sample, ids, now)
    ensures Consistent(h, t) && SameEntries(s.infos, t.infos) && |t.random| == |s.random|
    ensures t == s.(infos := t.infos, random := t.random)
    ensures Sampled(t.infos, t.random, n, sample, ids, now)
  {
    hide Sampled, Addressed, NewPlaced, RefCounted, TriedPlaced, Live, Totalled;
    SwappedInv(h, s, n, other, {}, {});
    SwappedShuffled(s, n, other);
    SampledSwap(s, n, other, sample, ids, now);
  }

  lemma SampledStep(infos: map<int, Info>, random: seq<int>, n: nat, sample: seq<Address>, ids: seq<int>, now: int)
    requires Shuffled(infos, random) && n < |random| && Sampled(infos, random, n, sample, ids, now)
    ensures random[n] in infos
    ensures if !Worthy(infos[random[n]], now) then Sampled(infos, random, n + 1, sample, ids, now)
            else Sampled(infos, random, n + 1, sample + [AddressOf(infos[random[n]])], ids + [random[n]], now)
  {
    hide Worthy;
    assert infos[random[n]].randomPos == n;
    if Worthy(infos[random[n]], now) {
      var sample', ids' := sample + [AddressOf(infos[random[n]])], ids + [random[n]];
      forall k | 0 <= k < |ids'| ensures SampledAt(infos, sample', ids', k, now) && infos[ids'[k]].randomPos < n + 1 {
        if k < |ids| { assert SampledAt(infos, sample, ids, k, now); }
      }
    }
  }

  lemma SampledDone(infos: map<int, Info>, random: seq<int>, n: nat, sample: seq<Address>, ids: seq<int>, now: int)
    requires Shuffled(infos, random) && Sampled(infos, random, n, sample, ids, now)
    ensures |sample| == |ids| && forall k | 0 <= k < |ids| :: SampledAt(infos, sample, ids, k, now)
    ensures n == |random| ==> forall id <- infos :: !Worthy(infos[id], now) || id in ids
  {
    hide Worthy;
    if n == |random| {
      forall id <- infos ensures !Worthy(infos[id], now) || id in ids {
        assert random[infos[id].randomPos] == id;
      }
    }
  }

  /** At most 2500 entries and 23 percent of all, and the largest number that is. */
  lemma LimitExact(size: nat)
    ensures SampleLimit(size) <= 2500 && 100 * SampleLimit(size) <= 23 * size
    ensures SampleLimit(size) == 2500 || 100 * (SampleLimit(size) + 1) > 23 * size
  {
  }

  lemma SampledFields(infos: map<int, Info>, sample: seq<Address>, ids: seq<int>, now: int)
    requires |sample| == |ids| && forall k | 0 <= k < |ids| :: SampledAt(infos, sample, ids, k, now)
    ensures forall k | 0 <= k < |ids| ::
              && ids[k] in infos && Worthy(infos[ids[k]], now) && (forall j | 0 <= j < k :: ids[j] != ids[k])
              && sample[k] == Address(infos[ids[k]].service, infos[ids[k]].time, infos[ids[k]].services)
  {
    hide Worthy;
    forall k | 0 <= k < |ids|
      ensures && ids[k] in infos && Worthy(infos[ids[k]], now) && (forall j | 0 <= j < k :: ids[j] != ids[k])
              && sample[k] == Address(infos[ids[k]].service, infos[ids[k]].time, infos[ids[k]].services)
    {
      assert SampledAt(infos, sample, ids, k, now);
    }
  }

  lemma SlotPlaced(h: Hashes, s: State, id: int, source: NetAddr)
    requires id in s.infos && !s.infos[id].inTried
    ensures NewPlacedAt(h, s.key, s.infos, NewSlot(h, s.key, s.infos[id].service, source), id)
  {
  }

  /** How Add_ refreshes a known entry. */
  function Refreshed(info: Info, a: Address, timePenalty: int, now: int): (r: Info)
    ensures r == info.(time := r.time, services := info.services + a.services)
  {
    var updateInterval := if now - a.time < 24 * 60 * 60 then 60 * 60 else 24 * 60 * 60;
    var time := if a.time != 0 && (info.time == 0 || info.time < a.time - updateInterval - timePenalty)
                then if a.time < timePenalty then 0 else a.time - timePenalty
                else info.time;
    info.(time := time, services := info.services + a.services)
  }

  /** The time is moved on exactly if the address carries one and the entry has none, or one that is older by
      more than the penalty and an hour, or a day for an address last seen more than a day ago. */
  lemma RefreshedExact(info: Info, a: Address, timePenalty: int, now: int)
    ensures var r := Refreshed(info, a, timePenalty, now);
            var age := info.time + timePenalty + if now < a.time + 86400 then 3600 else 86400;
            && r.services == info.services + a.services
            && r == info.(time := r.time, services := r.services)
            && (a.time != 0 && (info.time == 0 || age < a.time) ==> r.time == Max(0, a.time - timePenalty))
            && (a.time == 0 || (info.time != 0 && age >= a.time) ==> r.time == info.time)
  {
  }

  /** The address as it is entered, with a time that is not negative. */
  function Dated(a: Address, timePenalty: int): Address {
    a.(time := if a.time < timePenalty then 0 else a.time - timePenalty)
  }

  /** An address that was unknown gets its slot if that is free, or holds a terrible entry, or one
      with other references; it then has exactly that reference. Otherwise all is as before. */
  ghost predicate AddedNew(h: Hashes, s: State, t: State, a: Address, source: NetAddr, timePenalty: int, now: int) {
    var slot, id := NewSlot(h, s.key, a.service, source), s.idCount;
    && t.tried == s.tried
    && if slot in s.news && s.news[slot] in s.infos
          && Worthy(s.infos[s.news[slot]], now) && s.infos[s.news[slot]].refCount <= 1
       then t.news == s.news && SameEntries(s.infos, t.infos)
       else
         && t.news == s.news[slot := id]
         && id in t.infos && Entered(t.infos[id], a, source, timePenalty)
         && Moved(s.infos, t.infos - {id})
  }

  /** A new entry with one reference: the address with its services, the time less the penalty but not below zero,
      the source, and nothing tried yet. */
  ghost predicate Entered(info: Info, a: Address, source: NetAddr, timePenalty: int) {
    && info.service == a.service && info.services == a.services && info.source == source
    && info.time == Max(0, a.time - timePenalty)
    && info.lastTry == 0 && info.lastCountAttempt == 0 && info.lastSuccess == 0 && info.attempts == 0
    && info.refCount == 1 && !info.inTried
  }

  /** Whether a refreshed entry gains a reference: there is new information, it is not tried, it has fewer
      than eight, the draw allows it, and the slot can be taken. */
  ghost predicate Gains(s: State, id: int, a: Address, slot: Slot, now: int, lucky: bool)
    requires id in s.infos && (slot in s.news ==> s.news[slot] in s.infos)
  {
    var info := s.infos[id];
    && a.time != 0 && (info.time == 0 || a.time > info.time)
    && !info.inTried && info.refCount != 8 && lucky
    && Replaceable(s, slot, id, now)
  }

  /** An address that was known is refreshed, and gains a reference under the conditions above, in the slot
      hashed for it and the new source, displacing what is there. */
  ghost predicate AddedKnown(h: Hashes, s: State, t: State, a: Address, source: NetAddr, timePenalty: int, now: int, lucky: bool) {
    && a.service.addr in s.addrs && s.addrs[a.service.addr] in s.infos
    && var id := s.addrs[a.service.addr];
       var info := s.infos[id];
       var refreshed := s.(infos := s.infos[id := Refreshed(info, a, timePenalty, now)]);
       var slot := NewSlot(h, s.key, info.service, source);
       && (slot in s.news ==> s.news[slot] in s.infos)
       && if Gains(refreshed, id, a, slot, now, lucky) then
            && Moved(refreshed.infos, t.infos) && t.tried == s.tried && t.news == s.news[slot := id]
            && id in t.infos && t.infos[id].refCount == info.refCount + 1
          else t == refreshed
  }

  lemma PlaceCreated(h: Hashes, s: State, t: State, a: Address, timePenalty: int, source: NetAddr, now: int)
    requires Consistent(h, s) && a.service.addr !in s.addrs
    requires t == Created(s, Dated(a, timePenalty), source)
    ensures var slot, id := NewSlot(h, s.key, a.service, source), s.idCount;
            && id in t.infos && t.infos[id] == NewInfo(Dated(a, timePenalty), source).(randomPos := |s.random|)
            && t.key == s.key && (slot in t.news ==> t.news[slot] in t.infos) && Shuffled(t.infos, t.random)
            && var u := Placed(t, slot, id, Replaceable(t, slot, id, now));
               Consistent(h, u) && u.key == s.key && AddedNew(h, s, u, a, source, timePenalty, now)
  {
    hide Addressed, RefCounted, TriedPlaced, Live, Totalled, NewSlot, Worthy, BucketPosition, Placed, AddedNew, Shuffled;
    var slot, id, dated := NewSlot(h, s.key, a.service, source), s.idCount, Dated(a, timePenalty);
    CreatedInv(h, s, dated, source);
    SlotPlaced(h, t, id, source);
    if slot in s.news { assert NewPlacedAt(h, s.key, s.infos, slot, s.news[slot]); }
    var insert := Replaceable(t, slot, id, now);
    PlacedInv(h, t, slot, id, insert);
    PlacedEffect(t, slot, id, insert);
    NewEntry(h, Placed(t, slot, id, insert), slot);
    CreatedAdded(h, s, t, Placed(t, slot, id, insert), a, timePenalty, source, now);
  }

  /** The effect of placing a new entry, in terms of the state before it was created. */
  lemma CreatedAdded(h: Hashes, s: State, t: State, u: State, a: Address, timePenalty: int, source: NetAddr, now: int)
    requires s.idCount !in s.infos && t == Created(s, Dated(a, timePenalty), source)
    requires var slot := NewSlot(h, s.key, a.service, source);
             slot in s.news ==> s.news[slot] in s.infos
    requires var slot, id := NewSlot(h, s.key, a.service, source), s.idCount;
             var insert := Replaceable(t, slot, id, now);
             && Moved(t.infos, u.infos) && u.tried == t.tried
             && u.news == (if insert then t.news[slot := id] else t.news)
             && (id in u.infos <==> insert)
             && (insert ==> u.infos[id].refCount == 1 && !u.infos[id].inTried)
             && (!insert ==> SameEntries(t.infos - {id}, u.infos))
    ensures AddedNew(h, s, u, a, source, timePenalty, now)
  {
    hide NewSlot, Worthy;
    var id := s.idCount;
    assert t.infos - {id} == s.infos;
    forall k <- u.infos - {id} ensures k in s.infos && SameData(s.infos[k], u.infos[k]) {
      assert SameData(t.infos[k], u.infos[k]);
    }
    if id in u.infos {
      assert SameData(t.infos[id], u.infos[id]);
    }
  }

  lemma Referenced(h: Hashes, s: State, id: int)
    requires Consistent(h, s) && id in s.infos && !s.infos[id].inTried
    ensures exists b: nat | b < NEW_BUCKET_COUNT :: Holds(s.news, Slot(b, BucketPosition(h, s.key, true, b, s.infos[id].service)), id)
  {
    assert LiveAt(s.infos[id], false);
    RefCountedAt(s.infos, s.news, id);
    var sl :| sl in SlotsOf(s.news, id);
    assert NewPlacedAt(h, s.key, s.infos, sl, id);
    assert Holds(s.news, Slot(sl.bucket, BucketPosition(h, s.key, true, sl.bucket, s.infos[id].service)), id);
  }

  //////////////////////////////////////////////////////////////////////////////
  // The manager
  //////////////////////////////////////////////////////////////////////////////

  /** How far a bucket is from the first one looked at. */
  function Round(bucket: nat, start: nat): nat {
    (bucket - start) % NEW_BUCKET_COUNT
  }

  /** The slots in use of a table whose free slots hold -1. */
  ghost function Contents(a: array2<int>): Table
    reads a
  {
    map b: nat, i: nat | b < a.Length0 && i < a.Length1 && a[b, i] != -1 :: Slot(b, i) := a[b, i]
  }

  lemma ContentsAt(a: array2<int>, slot: Slot)
    requires slot.bucket < a.Length0 && slot.pos < a.Length1
    ensures slot in Contents(a) <==> a[slot.bucket, slot.pos] != -1
    ensures slot in Contents(a) ==> Contents(a)[slot] == a[slot.bucket, slot.pos]
  {
  }

  method Put(a: array2<int>, slot: Slot, id: int)
    requires slot.bucket < a.Length0 && slot.pos < a.Length1
    modifies a
    ensures Contents(a) == if id == -1 then old(Contents(a)) - {slot} else old(Contents(a))[slot := id]
    ensures a[slot.bucket, slot.pos] == id
    ensures forall b, i | 0 <= b < a.Length0 && 0 <= i < a.Length1 && Slot(b, i) != slot :: a[b, i] == old(a[b, i])
  {
    a[slot.bucket, slot.pos] := id;
  }

  class AddrManager {
    const hashes: Hashes
    var key: nat
    var idCount: nat
    var infos: map<int, Info>
    var addrs: map<NetAddr, int>
    var random: seq<int>
    var nTried: int
    var nNew: int
    const vvTried: array2<int>
    const vvNew: array2<int>
    var lastGood: int

    ghost predicate Shaped() {
      && vvTried.Length0 == TRIED_BUCKET_COUNT && vvTried.Length1 == BUCKET_SIZE
      && vvNew.Length0 == NEW_BUCKET_COUNT && vvNew.Length1 == BUCKET_SIZE
      && vvTried != vvNew
    }

    ghost function Abs(): State
      reads `key, `idCount, `infos, `addrs, `random, `nTried, `nNew, vvTried, vvNew
    {
      State(key, idCount, infos, addrs, random, nTried, nNew, Contents(vvTried), Contents(vvNew))
    }

    ghost predicate Valid()
      reads `key, `idCount, `infos, `addrs, `random, `nTried, `nNew, vvTried, vvNew
    {
      Shaped() && Consistent(hashes, Abs())
    }

    method SwapRandom(i: nat, j: nat)
      requires i < |random| && j < |random| && random[i] in infos && random[j] in infos
      modifies this
      ensures Abs() == Swapped(old(Abs()), i, j) && lastGood == old(lastGood)
    {
      if i == j {
        return;
      }
      var id1, id2 := random[i], random[j];
      infos := infos[id1 := infos[id1].(randomPos := j)];
      infos := infos[id2 := infos[id2].(randomPos := i)];
      random := random[i := id2][j := id1];
    }

    method Delete(id: int)
      requires Shuffled(infos, random)
      requires id in infos && !infos[id].inTried && infos[id].refCount == 0
      modifies this
      ensures Abs() == Deleted(old(Abs()), id) && lastGood == old(lastGood)
    {
      hide Contents;
      var info := infos[id];
      SwapRandom(info.randomPos, |random| - 1);
      random := random[..|random| - 1];
      addrs := addrs - {info.service.addr};
      infos := infos - {id};
      nNew := nNew - 1;
    }

    method ClearNew(slot: Slot)
      requires Shaped() && slot.bucket < NEW_BUCKET_COUNT && slot.pos < BUCKET_SIZE
      requires Shuffled(infos, random)
      requires slot in Contents(vvNew) ==>
                 var id := Contents(vvNew)[slot];
                 id in infos && !infos[id].inTried && infos[id].refCount > 0
      modifies this, vvNew
      ensures Abs() == Cleared(old(Abs()), slot) && lastGood == old(lastGood)
    {
      hide Contents, Deleted;
      ContentsAt(vvNew, slot);
      if vvNew[slot.bucket, slot.pos] != -1 {
        var id := vvNew[slot.bucket, slot.pos];
        UnrefShuffled(Abs(), slot);
        infos := infos[id := infos[id].(refCount := infos[id].refCount - 1)];
        Put(vvNew, slot, -1);
        assert Abs() == Unref(old(Abs()), slot);
        if infos[id].refCount == 0 {
          Delete(id);
        }
      }
    }

    /** The first part of MakeTried: the entry leaves all new buckets. */
    method LeaveNew(id: int)
      requires Shaped() && id in infos && id != -1
      modifies this, vvNew
      ensures Abs() == LeftNew(hashes, old(Abs()), id) && lastGood == old(lastGood)
    {
      hide Contents, BucketPosition;
      ghost var s := Abs();
      var service := infos[id].service;
      for bucket := 0 to NEW_BUCKET_COUNT
        invariant Abs() == UnrefAll(hashes, s, id, bucket) && lastGood == old(lastGood)
        invariant id in infos && infos[id].service == service && key == s.key
      {
        var slot := Slot(bucket, BucketPosition(hashes, key, true, bucket, service));
        ContentsAt(vvNew, slot);
        if vvNew[slot.bucket, slot.pos] == id {
          infos := infos[id := infos[id].(refCount := infos[id].refCount - 1)];
          Put(vvNew, slot, -1);
        }
      }
      nNew := nNew - 1;
    }

    /** The second part of MakeTried: the entry in `slot` of the tried table goes back to its home
        slot in the new table, deleting whatever is there. */
    method Evict(slot: Slot, ghost uncounted: set<int>)
      requires Shaped() && slot.bucket < TRIED_BUCKET_COUNT && slot.pos < BUCKET_SIZE
      requires Inv(hashes, Abs(), {}, uncounted) && slot in Abs().tried
      modifies this, vvNew, vvTried
      ensures Evictable(hashes, old(Abs()), slot) && Abs() == Evicted(hashes, old(Abs()), slot)
      ensures lastGood == old(lastGood) && vvTried[slot.bucket, slot.pos] == -1
    {
      hide Cleared, NewSlot, BucketPosition, SameData, Addressed, Shuffled, NewPlaced, RefCounted, TriedPlaced, Live, Totalled, Contents;
      ghost var s := Abs();
      ContentsAt(vvTried, slot);
      UntriedInv(hashes, s, slot, {}, uncounted);
      var id := vvTried[slot.bucket, slot.pos];
      RemoveTried(slot);
      var home := NewSlot(hashes, key, infos[id].service, infos[id].source);
      TriedUnheld(hashes, s, id, home);
      NewEntry(hashes, s, home);
      TouchedOrderOnly(s.infos, s.random, id, infos[id]);
      ClearedEffect(Abs(), home);
      assert SameEntry(infos[id], Cleared(Abs(), home).infos[id]);
      if home in s.news {
        UnrefInv(hashes, s, home, {}, uncounted);
      }
      ClearNew(home);
      ContentsAt(vvNew, home);
      assert vvNew[home.bucket, home.pos] == -1;
      assert infos[id].refCount == 0;
      infos := infos[id := infos[id].(refCount := 1)];
      Put(vvNew, home, id);
      nNew := nNew + 1;
    }

    method RemoveTried(slot: Slot)
      requires Shaped() && slot.bucket < TRIED_BUCKET_COUNT && slot.pos < BUCKET_SIZE
      requires slot in Contents(vvTried) && Contents(vvTried)[slot] in infos
      modifies this, vvTried
      ensures Abs() == Untried(old(Abs()), slot) && lastGood == old(lastGood)
      ensures vvTried[slot.bucket, slot.pos] == -1
    {
      var id := vvTried[slot.bucket, slot.pos];
      infos := infos[id := infos[id].(inTried := false)];
      Put(vvTried, slot, -1);
      nTried := nTried - 1;
    }

    method MakeTried(id: int)
      requires Valid() && id in infos && !infos[id].inTried && infos[id].lastSuccess != 0
      modifies this, vvNew, vvTried
      ensures Abs() == MadeTried(hashes, old(Abs()), id) && lastGood == old(lastGood)
    {
      hide LeftNew, Evicted, TriedSlot, SlotsOf, SameEntry, Addressed, Shuffled, NewPlaced, RefCounted, TriedPlaced, Live, Totalled, Contents;
      ghost var s := Abs();
      LeaveNew(id);
      LeftNewInv(hashes, s, id, Abs());
      assert infos[id].refCount == 0;
      var slot := TriedSlot(hashes, key, infos[id].service);
      ContentsAt(vvTried, slot);
      if vvTried[slot.bucket, slot.pos] != -1 {
        EvictedKeeps(hashes, Abs(), slot, id);
        Evict(slot, {id});
      }
      assert vvTried[slot.bucket, slot.pos] == -1;
      Put(vvTried, slot, id);
      nTried := nTried + 1;
      infos := infos[id := infos[id].(inTried := true)];
    }

    constructor (hashes: Hashes, key: nat)
      ensures Valid() && fresh(vvTried) && fresh(vvNew)
      ensures this.hashes == hashes && this.key == key && infos == map[] && lastGood == 1
    {
      this.hashes := hashes;
      this.key := key;
      idCount, nTried, nNew, lastGood := 0, 0, 0, 1;
      infos, addrs, random := map[], map[], [];
      vvTried := new int[TRIED_BUCKET_COUNT, BUCKET_SIZE]((_, _) => -1);
      vvNew := new int[NEW_BUCKET_COUNT, BUCKET_SIZE]((_, _) => -1);
      new;
      assert Contents(vvTried) == map[] && Contents(vvNew) == map[];
      assert TriedIds(map[]) == {};
    }

    /** CAddrMan::Find, for callers that also compare the port. */
    function Known(service: Service): bool
      requires Addressed(infos, addrs)
      reads this
    {
      service.addr in addrs && infos[addrs[service.addr]].service == service
    }

    /** The service, with its port, is that of an entry. */
    lemma KnownExact(service: Service)
      requires Valid()
      ensures Known(service) <==> exists id :: id in infos && infos[id].service == service
      ensures Known(service) ==> addrs[service.addr] in infos && infos[addrs[service.addr]].service == service
    {
      hide Shuffled, NewPlaced, RefCounted, TriedPlaced, Live, Totalled, Contents;
      if Known(service) {
        var id := addrs[service.addr];
        assert id in infos && infos[id].service == service;
      } else {
        forall id <- infos ensures infos[id].service != service {
          assert addrs[infos[id].service.addr] == id;
        }
      }
    }

    /** Replaces the data of an entry that stays where it is. */
    method Touch(id: int, info: Info)
      requires Valid() && id in infos && SamePlace(infos[id], info)
      modifies this
      ensures Valid() && Abs() == old(Abs()).(infos := old(infos)[id := info]) && lastGood == old(lastGood)
    {
      hide Addressed, Shuffled, NewPlaced, RefCounted, TriedPlaced, Live, Totalled, Contents, SamePlace;
      TouchedInv(hashes, Abs(), id, info, {}, {});
      infos := infos[id := info];
      assert Abs() == old(Abs()).(infos := old(infos)[id := info]);
    }

    method Attempt(service: Service, countFailure: bool, time: int)
      requires Valid() && time >= 0
      modifies this
      ensures Valid() && lastGood == old(lastGood)
      ensures !old(Known(service)) ==> Abs() == old(Abs())
      ensures old(Known(service)) ==>
                var id := old(addrs)[service.addr];
                var info := old(infos)[id];
                var counted := countFailure && info.lastCountAttempt < lastGood;
                Abs() == old(Abs()).(infos := old(infos)[id := info.(
                  lastTry := time,
                  lastCountAttempt := if counted then time else info.lastCountAttempt,
                  attempts := if counted then info.attempts + 1 else info.attempts)])
    {
      hide Addressed, Shuffled, NewPlaced, RefCounted, TriedPlaced, Live, Totalled, Contents;
      if Known(service) {
        KnownEntry(hashes, Abs(), service.addr);
        var id := addrs[service.addr];
        var info := infos[id].(lastTry := time);
        if countFailure && info.lastCountAttempt < lastGood {
          info := info.(lastCountAttempt := time, attempts := info.attempts + 1);
        }
        Touch(id, info);
      }
    }

    method Connected(service: Service, time: int)
      requires Valid()
      modifies this
      ensures Valid() && lastGood == old(lastGood)
      ensures !old(Known(service)) ==> Abs() == old(Abs())
      ensures old(Known(service)) ==>
                var id := old(addrs)[service.addr];
                var info := old(infos)[id];
                Abs() == old(Abs()).(infos := old(infos)[id := info.(
                  time := if time - info.time > 20 * 60 then time else info.time)])
    {
      hide Addressed, Shuffled, NewPlaced, RefCounted, TriedPlaced, Live, Totalled, Contents;
      if Known(service) {
        KnownEntry(hashes, Abs(), service.addr);
        var id := addrs[service.addr];
        var info := infos[id].(time := if time - infos[id].time > 20 * 60 then time else infos[id].time);
        Touch(id, info);
      }
    }

    method SetServices(service: Service, services: set<nat>)
      requires Valid()
      modifies this
      ensures Valid() && lastGood == old(lastGood)
      ensures !old(Known(service)) ==> Abs() == old(Abs())
      ensures old(Known(service)) ==>
                var id := old(addrs)[service.addr];
                Abs() == old(Abs()).(infos := old(infos)[id := old(infos)[id].(services := services)])
    {
      hide Addressed, Shuffled, NewPlaced, RefCounted, TriedPlaced, Live, Totalled, Contents;
      if Known(service) {
        KnownEntry(hashes, Abs(), service.addr);
        var id := addrs[service.addr];
        Touch(id, infos[id].(services := services));
      }
    }

    /** What the new table holds at the position of an address in a bucket. */
    function At(bucket: nat, service: Service): int
      requires Shaped() && bucket < NEW_BUCKET_COUNT
      reads `key, vvNew
    {
      vvNew[bucket, BucketPosition(hashes, key, true, bucket, service)]
    }

    lemma ReferencedAt(id: int)
      requires Valid() && id in infos && !infos[id].inTried
      ensures exists b: nat | b < NEW_BUCKET_COUNT :: At(b, infos[id].service) == id
    {
      hide Consistent, Contents, BucketPosition;
      var service := infos[id].service;
      Referenced(hashes, Abs(), id);
      var b: nat :| b < NEW_BUCKET_COUNT && Holds(Abs().news, Slot(b, BucketPosition(hashes, key, true, b, service)), id);
      ContentsAt(vvNew, Slot(b, BucketPosition(hashes, key, true, b, service)));
      assert At(b, service) == id;
    }

    /** An entry that is not tried is in some new bucket, wherever the search starts; so the exit of
        Good_ for an entry found in none is never taken. */
    method FindBucket(id: int, start: nat) returns (bucket: int)
      requires Valid() && id in infos && !infos[id].inTried && start < NEW_BUCKET_COUNT
      ensures 0 <= bucket < NEW_BUCKET_COUNT
      ensures At(bucket, infos[id].service) == id
    {
      hide Consistent, Contents, BucketPosition, At;
      bucket := -1;
      var n := 0;
      while n < NEW_BUCKET_COUNT && bucket == -1
        invariant n <= NEW_BUCKET_COUNT
        invariant bucket != -1 ==> 0 <= bucket < NEW_BUCKET_COUNT && At(bucket, infos[id].service) == id
        invariant bucket == -1 ==>
                    forall b: nat | b < NEW_BUCKET_COUNT && Round(b, start) < n :: At(b, infos[id].service) != id
      {
        var b := (n + start) % NEW_BUCKET_COUNT;
        if At(b, infos[id].service) == id {
          bucket := b;
        } else {
          forall c: nat | c < NEW_BUCKET_COUNT && Round(c, start) < n + 1 ensures At(c, infos[id].service) != id {
            assert Round(c, start) == n ==> c == b;
          }
        }
        n := n + 1;
      }
      if bucket == -1 {
        ReferencedAt(id);
        assert false;
      }
    }

    /** Marks an address as good. A known entry that is not yet tried takes its slot in the tried
        table and gives up its slots in the new table; whoever was in that slot goes to its home
        slot in the new table, displacing what is there. */
    method Good(service: Service, time: int)
      requires Valid() && time > 0
      modifies this, vvNew, vvTried
      ensures Valid() && lastGood == time && Abs().key == old(Abs()).key
      ensures !old(Known(service)) ==> Abs() == old(Abs())
      ensures old(Known(service)) ==>
                var s, id := old(Abs()), old(addrs)[service.addr];
                var marked := s.infos[id := s.infos[id].(lastSuccess := time, lastTry := time, attempts := 0)];
                if s.infos[id].inTried then Abs() == s.(infos := marked)
                else
                  var slot := TriedSlot(hashes, key, service);
                  && Moved(marked, infos)
                  && Abs().tried == s.tried[slot := id]
                  && Abs().news == NewsAfterGood(hashes, s, slot, id)
    {
      hide Addressed, Shuffled, NewPlaced, RefCounted, TriedPlaced, Live, Totalled, Contents, SameData, NewsAfterGood, TriedSlot;
      lastGood := time;
      if !Known(service) {
        return;
      }
      ghost var s := Abs();
      KnownEntry(hashes, s, service.addr);
      var id := addrs[service.addr];
      Touch(id, infos[id].(lastSuccess := time, lastTry := time, attempts := 0));
      if infos[id].inTried {
        return;
      }
      NewsAfterTouch(hashes, s, TriedSlot(hashes, key, service), id, infos[id]);
      Promote(id);
    }

    method Promote(id: int)
      requires Valid() && id in infos && !infos[id].inTried && infos[id].lastSuccess != 0
      modifies this, vvNew, vvTried
      ensures Valid() && lastGood == old(lastGood) && key == old(key)
      ensures var s, slot := old(Abs()), TriedSlot(hashes, key, old(infos)[id].service);
              && Moved(s.infos, infos)
              && Abs().tried == s.tried[slot := id]
              && Abs().news == NewsAfterGood(hashes, s, slot, id)
    {
      hide MadeTried, Addressed, Shuffled, NewPlaced, RefCounted, TriedPlaced, Live, Totalled, Contents, SameData;
      ghost var s := Abs();
      var start :| 0 <= start < NEW_BUCKET_COUNT;
      var bucket := FindBucket(id, start);
      MadeTriedInv(hashes, s, id);
      MadeTriedEffect(hashes, s, id);
      MakeTried(id);
    }

    /** The end of Add_, from the choice of the slot on. */
    method Place(id: int, source: NetAddr, now: int) returns (ghost insert: bool)
      requires Shaped() && Inv(hashes, Abs(), {id}, {})
      requires id in infos && !infos[id].inTried && infos[id].refCount < NEW_BUCKETS_PER_ADDRESS
      modifies this, vvNew
      ensures var s, slot := old(Abs()), NewSlot(hashes, old(key), old(infos)[id].service, source);
              && (slot in s.news ==> s.news[slot] in s.infos)
              && Abs() == Placed(s, slot, id, insert)
              && insert == Replaceable(s, slot, id, now)
      ensures lastGood == old(lastGood)
    {
      hide Cleared, Deleted, IsTerrible, Worthy, NewSlot, BucketPosition, Addressed, Shuffled, NewPlaced, RefCounted, TriedPlaced, Live, Totalled, Contents;
      ghost var s := Abs();
      var slot := NewSlot(hashes, key, infos[id].service, source);
      NewEntry(hashes, s, slot);
      ContentsAt(vvNew, slot);
      AllTerribleExact(now);
      insert := false;
      if vvNew[slot.bucket, slot.pos] != id {
        var existing := vvNew[slot.bucket, slot.pos];
        var free := existing == -1 || IsTerrible(infos[existing], now) || (infos[existing].refCount > 1 && infos[id].refCount == 0);
        insert := free;
        if free {
          ClearedEffect(s, slot);
          if slot in s.news {
            UnrefInv(hashes, s, slot, {id}, {});
          }
          ClearNew(slot);
          infos := infos[id := infos[id].(refCount := infos[id].refCount + 1)];
          Put(vvNew, slot, id);
        } else if infos[id].refCount == 0 {
          Delete(id);
        }
      }
    }

    /** CAddrMan::Create, with the counter its only caller increments. */
    method Create(a: Address, source: NetAddr) returns (id: int)
      modifies this
      ensures id == old(idCount) && lastGood == old(lastGood)
      ensures Abs() == Created(old(Abs()), a, source)
    {
      id := idCount;
      idCount := idCount + 1;
      infos := infos[id := NewInfo(a, source)];
      addrs := addrs[a.service.addr := id];
      infos := infos[id := infos[id].(randomPos := |random|)];
      random := random + [id];
      nNew := nNew + 1;
    }

    method AddNew(a: Address, source: NetAddr, timePenalty: int, now: int)
      requires Valid() && a.service.addr !in addrs
      modifies this, vvNew
      ensures Valid() && lastGood == old(lastGood) && key == old(key)
      ensures AddedNew(hashes, old(Abs()), Abs(), a, source, timePenalty, now)
    {
      hide Created, Placed, AddedNew, Replaceable, Addressed, Shuffled, NewPlaced, RefCounted, TriedPlaced, Live, Totalled, Contents, NewSlot, Worthy;
      ghost var s := Abs();
      var dated := Dated(a, timePenalty);
      var id := Create(dated, source);
      ghost var t := Abs();
      CreatedInv(hashes, s, dated, source);
      PlaceCreated(hashes, s, t, a, timePenalty, source, now);
      ghost var insert := Place(id, source, now);
    }

    /** Adds an address heard from `source`. The result says whether it was unknown, even if there
        was no room for it and it was dropped again. `lucky` is the outcome of the draw that lets one in
        2^refCount further references in. */
    method Add(a: Address, source: NetAddr, timePenalty: int, now: int, lucky: bool) returns (isNew: bool)
      requires Valid()
      modifies this, vvNew
      ensures Valid() && lastGood == old(lastGood) && key == old(key)
      ensures isNew <==> a.service.addr.routable && a.service.addr !in old(addrs)
      ensures !a.service.addr.routable ==> Abs() == old(Abs())
      ensures var penalty := if a.service.addr == source then 0 else timePenalty;
              && (isNew ==> AddedNew(hashes, old(Abs()), Abs(), a, source, penalty, now))
              && (a.service.addr.routable && !isNew ==>
                    AddedKnown(hashes, old(Abs()), Abs(), a, source, penalty, now, lucky))
    {
      hide AddedNew, AddedKnown, Addressed, Shuffled, NewPlaced, RefCounted, TriedPlaced, Live, Totalled, Contents;
      if !a.service.addr.routable {
        return false;
      }
      var penalty := if a.service.addr == source then 0 else timePenalty;
      if a.service.addr !in addrs {
        AddNew(a, source, penalty, now);
        return true;
      }
      isNew := false;
      AddAgain(a, source, penalty, now, lucky);
    }

    method AddAgain(a: Address, source: NetAddr, timePenalty: int, now: int, lucky: bool)
      requires Valid() && a.service.addr in addrs
      modifies this, vvNew
      ensures Valid() && lastGood == old(lastGood) && key == old(key)
      ensures AddedKnown(hashes, old(Abs()), Abs(), a, source, timePenalty, now, lucky)
    {
      hide Refreshed, Addressed, Shuffled, NewPlaced, RefCounted, TriedPlaced, Live, Totalled, Contents, NewSlot, SameData, Replaceable;
      ghost var s := Abs();
      KnownEntry(hashes, s, a.service.addr);
      var id := addrs[a.service.addr];
      NewEntry(hashes, s, NewSlot(hashes, key, infos[id].service, source));
      var info := Refreshed(infos[id], a, timePenalty, now);
      Touch(id, info);
      if a.time == 0 || (info.time != 0 && a.time <= info.time) || info.inTried
         || info.refCount == NEW_BUCKETS_PER_ADDRESS {
        return;
      }
      if !lucky {
        return;
      }
      LimboEntered(hashes, Abs(), id, {}, {});
      assert {} + {id} == {id};
      PlaceKnown(id, source, now);
    }

    method PlaceKnown(id: int, source: NetAddr, now: int)
      requires Shaped() && Inv(hashes, Abs(), {id}, {})
      requires id in infos && !infos[id].inTried && 1 <= infos[id].refCount < NEW_BUCKETS_PER_ADDRESS
      modifies this, vvNew
      ensures Valid() && lastGood == old(lastGood) && key == old(key)
      ensures var s, slot := old(Abs()), NewSlot(hashes, key, old(infos)[id].service, source);
              && (slot in s.news ==> s.news[slot] in s.infos)
              && if Replaceable(s, slot, id, now) then
                   && Moved(s.infos, infos) && Abs().tried == s.tried && Abs().news == s.news[slot := id]
                   && id in infos && infos[id].refCount == s.infos[id].refCount + 1
                 else Abs() == s
    {
      hide Addressed, Shuffled, NewPlaced, RefCounted, TriedPlaced, Live, Totalled, Contents, SameData, NewSlot, Cleared, Deleted, Worthy;
      ghost var s, slot := Abs(), NewSlot(hashes, key, infos[id].service, source);
      ghost var insert := Place(id, source, now);
      SlotPlaced(hashes, s, id, source);
      PlacedInv(hashes, s, slot, id, insert);
      PlacedEffect(s, slot, id, insert);
    }

    /** A random sample: distinct entries that are not terrible, as many as the limit allows; if
        fewer, then all there are. Only the random order changes. */
    method GetAddr(now: int) returns (sample: seq<Address>, ghost ids: seq<int>)
      requires Valid()
      modifies this
      ensures Valid() && SameEntries(old(infos), infos) && lastGood == old(lastGood)
      ensures Abs() == old(Abs()).(infos := infos, random := random)
      ensures |sample| == |ids| <= 2500 && 100 * |sample| <= 23 * |infos|
      ensures forall k | 0 <= k < |ids| ::
                && ids[k] in infos && Worthy(infos[ids[k]], now) && (forall j | 0 <= j < k :: ids[j] != ids[k])
                && sample[k] == Address(infos[ids[k]].service, infos[ids[k]].time, infos[ids[k]].services)
      ensures |sample| < 2500 && 100 * (|sample| + 1) <= 23 * |infos| ==>
                forall id <- infos :: Worthy(infos[id], now) ==> id in ids
    {
      hide Addressed, Shuffled, NewPlaced, RefCounted, TriedPlaced, Live, Totalled, Contents, IsTerrible, Worthy,
           Sampled, SampledAt, SampleLimit, SameEntry, SameEntries, Swapped;
      sample, ids := [], [];
      ShuffledSize(infos, random);
      var n, size, limit := 0, |random|, SampleLimit(|random|);
      SampledEmpty(infos, random, now);
      SameEntriesSelf(infos);
      while n < |random| && |sample| < limit
        invariant Valid() && SameEntries(old(infos), infos) && lastGood == old(lastGood)
        invariant Abs() == old(Abs()).(infos := infos, random := random)
        invariant n <= |random| == |infos| == size && |sample| <= limit
        invariant Sampled(infos, random, n, sample, ids, now)
        decreases size - n
      {
        ShuffledSize(infos, random);
        var other :| n <= other < |random|;
        ghost var s, t := Abs(), Swapped(Abs(), n, other);
        SampleSwap(hashes, s, t, n, other, sample, ids, now);
        ShuffledSize(t.infos, t.random);
        SwapRandom(n, other);
        SameEntriesTrans(old(infos), s.infos, infos);
        SampledStep(infos, random, n, sample, ids, now);
        TerribleExact(infos[random[n]], now);
        if !IsTerrible(infos[random[n]], now) {
          sample := sample + [AddressOf(infos[random[n]])];
          ids := ids + [random[n]];
        }
        n := n + 1;
      }
      SampledDone(infos, random, n, sample, ids, now);
      LimitExact(size);
      SampledFields(infos, sample, ids, now);
    }
  }
}
