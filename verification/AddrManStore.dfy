/** Saving and loading the address manager (src/addrman.h): entries are renumbered in the order they are
    written, the tried table is rebuilt from the hashes, and the new table from the listed positions.

    A stream is a sequence of tokens. What is kept of an entry on disk is its address, source, last
    success and attempts. */
module AddrManStore {
  import opened AddrMan
  import opened AddrManCheck

  datatype Record = Record(
    service: Service, time: nat, services: set<nat>, source: NetAddr, lastSuccess: int, attempts: int)

  datatype Token = Byte(b: nat) | Key(k: nat) | Int(n: int) | Entry(r: Record)

  function RecordOf(i: Info): Record {
    Record(i.service, i.time, i.services, i.source, i.lastSuccess, i.attempts)
  }

  function Restored(r: Record, pos: int, tried: bool): Info {
    Info(r.service, r.time, r.services, r.source, 0, 0, r.lastSuccess, r.attempts, 0, tried, pos)
  }

  /** `n ^ (1 << 30)` */
  function FlipBit30(n: int): int {
    if n / 0x4000_0000 % 2 == 1 then n - 0x4000_0000 else n + 0x4000_0000
  }

  //////////////////////////////////////////////////////////////////////////////
  // The order of the entries
  //////////////////////////////////////////////////////////////////////////////

  /** The tried or other entries with ids below `n`, in ascending order. */
  ghost function IdsOf(infos: map<int, Info>, n: nat, tried: bool): (r: seq<int>)
    ensures |r| <= n
  {
    if n == 0 then []
    else if n - 1 in infos && infos[n - 1].inTried == tried then IdsOf(infos, n - 1, tried) + [n - 1]
    else IdsOf(infos, n - 1, tried)
  }

  lemma {:induction false} IdsOfFacts(infos: map<int, Info>, n: nat, tried: bool)
    ensures var r := IdsOf(infos, n, tried);
            && Distinct(r)
            && (forall k | 0 <= k < |r| :: 0 <= r[k] < n && r[k] in infos && infos[r[k]].inTried == tried)
            && (forall id | 0 <= id < n && id in infos && infos[id].inTried == tried :: id in r)
  {
    if n > 0 {
      IdsOfFacts(infos, n - 1, tried);
    }
  }

  lemma {:induction false} IdsOfPrefix(infos: map<int, Info>, n: nat, k: nat, tried: bool)
    requires k <= n
    ensures IdsOf(infos, k, tried) <= IdsOf(infos, n, tried)
  {
    if k < n {
      IdsOfPrefix(infos, n - 1, k, tried);
    }
  }

  /** The order in which the entries are written: first those of the new table, then the tried ones. */
  ghost function Order(s: State): seq<int> {
    IdsOf(s.infos, s.idCount, false) + IdsOf(s.infos, s.idCount, true)
  }

  ghost predicate Enumerates(s: State, ids: seq<int>) {
    && Distinct(ids) && |ids| == |s.infos|
    && 0 <= s.nNew <= |ids| && s.nTried == |ids| - s.nNew
    && (forall k | 0 <= k < |ids| :: ids[k] in s.infos && (s.infos[ids[k]].inTried <==> k >= s.nNew))
    && (forall id <- s.infos :: id in ids)
  }

  lemma OrderEnumerates(h: Hashes, s: State)
    requires Consistent(h, s)
    ensures Enumerates(s, Order(s))
    ensures |IdsOf(s.infos, s.idCount, false)| == s.nNew
  {
    hide Addressed, Shuffled, NewPlaced, RefCounted, TriedPlaced, Live, Elements;
    var a, b := IdsOf(s.infos, s.idCount, false), IdsOf(s.infos, s.idCount, true);
    IdsOfFacts(s.infos, s.idCount, false);
    IdsOfFacts(s.infos, s.idCount, true);
    DistinctElements(b);
    assert Elements(b) == TriedIds(s.infos) by {
      ElementsAre(b, TriedIds(s.infos));
    }
    var ids := Order(s);
    assert Distinct(ids);
    DistinctElements(ids);
    assert Elements(ids) == s.infos.Keys by {
      ElementsAre(ids, s.infos.Keys);
    }
    assert |s.infos.Keys| == |s.infos|;
  }

  lemma ElementsAre(ids: seq<int>, set': set<int>)
    requires forall k | 0 <= k < |ids| :: ids[k] in set'
    requires forall id <- set' :: id in ids
    ensures Elements(ids) == set'
  {
    forall x ensures x in Elements(ids) <==> x in set' {
      if x in ids {
        var k :| 0 <= k < |ids| && ids[k] == x;
      }
    }
  }

  /** The new number of an entry. */
  function Index(ids: seq<int>, id: int): (k: nat)
    ensures k <= |ids| && (k < |ids| ==> ids[k] == id)
    ensures id in ids ==> k < |ids|
  {
    if ids == [] then 0 else if ids[0] == id then 0 else 1 + Index(ids[1..], id)
  }

  lemma IndexAt(ids: seq<int>, k: nat)
    requires Distinct(ids) && k < |ids|
    ensures Index(ids, ids[k]) == k
  {
  }

  //////////////////////////////////////////////////////////////////////////////
  // The state that is loaded
  //////////////////////////////////////////////////////////////////////////////

  ghost function LoadedInfo(s: State, ids: seq<int>, seen: Table, k: nat): Info
    requires k < |ids| && ids[k] in s.infos
  {
    Restored(RecordOf(s.infos[ids[k]]), k, s.infos[ids[k]].inTried).(refCount := |SlotsOf(seen, ids[k])|)
  }

  /** The first `n` entries, with the references seen so far. */
  ghost function LoadedInfos(s: State, ids: seq<int>, n: nat, seen: Table): map<int, Info>
    requires Enumerates(s, ids) && n <= |ids|
  {
    map k | 0 <= k < n :: LoadedInfo(s, ids, seen, k)
  }

  ghost function LoadedAddrs(s: State, ids: seq<int>, n: nat): map<NetAddr, int> {
    map a | a in s.addrs && Index(ids, s.addrs[a]) < n :: Index(ids, s.addrs[a])
  }

  ghost function LoadedTried(s: State, ids: seq<int>, n: nat): Table {
    map slot | slot in s.tried && Index(ids, s.tried[slot]) < n :: Index(ids, s.tried[slot])
  }

  ghost function LoadedNews(ids: seq<int>, seen: Table): Table {
    map slot | slot in seen :: Index(ids, seen[slot])
  }

  ghost function Loaded(s: State, ids: seq<int>): State
    requires Enumerates(s, ids)
  {
    State(s.key, |ids|, LoadedInfos(s, ids, |ids|, s.news), LoadedAddrs(s, ids, |ids|), Count(|ids|),
          s.nTried, s.nNew, LoadedTried(s, ids, |ids|), LoadedNews(ids, s.news))
  }

  lemma Numbered(s: State, ids: seq<int>, k: nat)
    requires Enumerates(s, ids) && k < |ids|
    ensures ids[k] in s.infos && (s.infos[ids[k]].inTried <==> k >= s.nNew) && Index(ids, ids[k]) == k
  {
    IndexAt(ids, k);
  }

  lemma NumberOf(s: State, ids: seq<int>, id: int)
    requires Enumerates(s, ids) && id in s.infos
    ensures Index(ids, id) < |ids| && ids[Index(ids, id)] == id
  {
  }

  lemma InfoAt(s: State, ids: seq<int>, n: nat, seen: Table)
    requires Enumerates(s, ids) && n <= |ids|
    ensures var infos := LoadedInfos(s, ids, n, seen);
            && (forall k <- infos :: 0 <= k < n && infos[k] == LoadedInfo(s, ids, seen, k))
            && (forall k | 0 <= k < n :: k in infos)
  {
  }

  /** `t` is `s` with entry number `k` of `ids` renumbered to `k`: the same key and counters, the same address,
      time, services, source, last success, attempts, table and number of references of each entry, and
      the same places in both tables. */
  ghost predicate Renumbered(s: State, t: State, ids: seq<int>) {
    && t.key == s.key && t.nNew == s.nNew && t.nTried == s.nTried
    && |ids| == |t.infos| == |s.infos| && (forall id <- s.infos :: id in ids)
    && (forall k | 0 <= k < |ids| :: ids[k] in s.infos && k in t.infos && SameEntryData(s.infos[ids[k]], t.infos[k]))
    && SameTable(s.tried, t.tried, ids) && SameTable(s.news, t.news, ids)
  }

  ghost predicate SameEntryData(a: Info, b: Info) {
    && b.service == a.service && b.time == a.time && b.services == a.services && b.source == a.source
    && b.lastSuccess == a.lastSuccess && b.attempts == a.attempts
    && b.inTried == a.inTried && b.refCount == a.refCount
    && b.lastTry == 0 && b.lastCountAttempt == 0
  }

  ghost predicate SameTable(a: Table, b: Table, ids: seq<int>) {
    && b.Keys == a.Keys
    && forall slot <- a :: 0 <= b[slot] < |ids| && ids[b[slot]] == a[slot]
  }

  /** What is loaded is what was saved, up to the numbers of the entries. */
  lemma LoadedSame(h: Hashes, s: State, ids: seq<int>)
    requires Consistent(h, s) && Enumerates(s, ids)
    ensures Renumbered(s, Loaded(s, ids), ids)
  {
    hide Enumerates, LoadedInfos, LoadedAddrs, LoadedTried, LoadedNews, Index, Consistent, SlotsOf, SameEntryData;
    var t := Loaded(s, ids);
    TablesKnown(h, s);
    LoadedTables(s, ids);
    InfosSize(s, ids);
    EnumeratedSize(s, ids);
    forall k | 0 <= k < |ids| ensures ids[k] in s.infos && k in t.infos && SameEntryData(s.infos[ids[k]], t.infos[k]) {
      LoadedEntry(h, s, ids, k);
    }
    forall id <- s.infos ensures id in ids {
      NumberOf(s, ids, id);
    }
    forall slot <- s.tried ensures 0 <= t.tried[slot] < |ids| && ids[t.tried[slot]] == s.tried[slot] {
      NumberOf(s, ids, s.tried[slot]);
    }
    forall slot <- s.news ensures 0 <= t.news[slot] < |ids| && ids[t.news[slot]] == s.news[slot] {
      NumberOf(s, ids, s.news[slot]);
    }
  }

  lemma LoadedEntry(h: Hashes, s: State, ids: seq<int>, k: nat)
    requires Consistent(h, s) && Enumerates(s, ids) && k < |ids|
    ensures ids[k] in s.infos && k in Loaded(s, ids).infos && SameEntryData(s.infos[ids[k]], Loaded(s, ids).infos[k])
  {
    hide LoadedInfos, LoadedAddrs, LoadedTried, LoadedNews, Index, Consistent, SlotsOf;
    InfoAt(s, ids, |ids|, s.news);
    assert Loaded(s, ids).infos[k] == LoadedInfo(s, ids, s.news, k);
    ReferencesOf(h, s, ids[k]);
  }

  lemma LoadedTables(s: State, ids: seq<int>)
    requires Enumerates(s, ids)
    requires forall slot <- s.tried :: s.tried[slot] in s.infos
    ensures var t := Loaded(s, ids);
            && t.tried.Keys == s.tried.Keys && (forall slot <- s.tried :: t.tried[slot] == Index(ids, s.tried[slot]))
            && t.news.Keys == s.news.Keys && (forall slot <- s.news :: t.news[slot] == Index(ids, s.news[slot]))
  {
    hide Enumerates, LoadedInfos, LoadedAddrs, Index;
    forall slot <- s.tried ensures slot in Loaded(s, ids).tried {
      NumberOf(s, ids, s.tried[slot]);
    }
  }

  lemma ReferencesOf(h: Hashes, s: State, id: int)
    requires Consistent(h, s) && id in s.infos
    ensures s.infos[id].refCount == |SlotsOf(s.news, id)|
  {
    RefCountedAt(s.infos, s.news, id);
  }

  lemma EnumeratedSize(s: State, ids: seq<int>)
    requires Enumerates(s, ids)
    ensures |ids| == |s.infos|
  {
  }

  lemma TablesKnown(h: Hashes, s: State)
    requires Consistent(h, s)
    ensures forall slot <- s.tried :: s.tried[slot] in s.infos
    ensures forall slot <- s.news :: s.news[slot] in s.infos
  {
    forall slot <- s.tried ensures s.tried[slot] in s.infos {
      assert TriedPlacedAt(h, s.key, s.infos, slot, s.tried[slot]);
    }
    forall slot <- s.news ensures s.news[slot] in s.infos {
      assert NewPlacedAt(h, s.key, s.infos, slot, s.news[slot]);
    }
  }

  lemma InfosSize(s: State, ids: seq<int>)
    requires Enumerates(s, ids)
    ensures |Loaded(s, ids).infos| == |ids|
    ensures |TriedIds(Loaded(s, ids).infos)| == s.nTried
  {
    hide LoadedInfos, Index, Elements, Count, Enumerates;
    var t := Loaded(s, ids);
    NewWithin(s, ids);
    InfoKeys(s, ids, |ids|, s.news);
    CountElements(|ids|);
    assert |t.infos| == |t.infos.Keys|;
    TriedAre(s, ids);
    CountPart(s.nNew, |ids|);
  }

  lemma TriedAre(s: State, ids: seq<int>)
    requires Enumerates(s, ids) && s.nNew >= 0
    ensures TriedIds(Loaded(s, ids).infos) == Elements(Count(|ids|)) - Elements(Count(s.nNew))
  {
    hide LoadedInfos, Index, Elements, Count, Enumerates;
    var t := Loaded(s, ids);
    InfoAt(s, ids, |ids|, s.news);
    CountElements(|ids|);
    CountElements(s.nNew);
    forall k ensures k in TriedIds(t.infos) <==> k in Elements(Count(|ids|)) - Elements(Count(s.nNew)) {
      if k in t.infos {
        Numbered(s, ids, k);
        assert t.infos[k] == LoadedInfo(s, ids, s.news, k);
      }
    }
  }

  lemma CountPart(a: nat, b: nat)
    requires a <= b
    ensures |Elements(Count(b)) - Elements(Count(a))| == b - a
  {
    hide Elements, Count;
    CountElements(a);
    CountElements(b);
    var x, y := Elements(Count(a)), Elements(Count(b));
    forall k ensures k in x ==> k in y {
    }
    assert y == x + (y - x);
  }

  lemma NewWithin(s: State, ids: seq<int>)
    requires Enumerates(s, ids)
    ensures 0 <= s.nNew <= |ids| && s.nTried == |ids| - s.nNew
  {
  }

  lemma InfoKeys(s: State, ids: seq<int>, n: nat, seen: Table)
    requires Enumerates(s, ids) && n <= |ids|
    ensures LoadedInfos(s, ids, n, seen).Keys == Elements(Count(n))
  {
    hide Enumerates, LoadedInfos, LoadedInfo, Elements, Count;
    InfoAt(s, ids, n, seen);
    CountElements(n);
    forall k ensures k in LoadedInfos(s, ids, n, seen).Keys <==> k in Elements(Count(n)) {
    }
  }

  lemma CountElements(n: nat)
    ensures forall k :: k in Elements(Count(n)) <==> 0 <= k < n
    ensures |Elements(Count(n))| == n
  {
    DistinctElements(Count(n));
    forall k | 0 <= k < n ensures k in Elements(Count(n)) {
      assert Count(n)[k] == k;
    }
  }

  lemma LoadedAddressed(h: Hashes, s: State, ids: seq<int>)
    requires Addressed(s.infos, s.addrs) && Enumerates(s, ids)
    ensures Addressed(Loaded(s, ids).infos, Loaded(s, ids).addrs)
  {
    hide Enumerates, LoadedInfos, Index;
    var t := Loaded(s, ids);
    InfoAt(s, ids, |ids|, s.news);
    forall k <- t.infos ensures t.infos[k].service.addr in t.addrs && t.addrs[t.infos[k].service.addr] == k {
      Numbered(s, ids, k);
      assert t.infos[k] == LoadedInfo(s, ids, s.news, k);
      assert s.addrs[s.infos[ids[k]].service.addr] == ids[k];
    }
    forall a <- t.addrs ensures t.addrs[a] in t.infos && t.infos[t.addrs[a]].service.addr == a {
      assert s.addrs[a] in s.infos;
      NumberOf(s, ids, s.addrs[a]);
      assert t.infos[t.addrs[a]] == LoadedInfo(s, ids, s.news, t.addrs[a]);
    }
  }

  lemma LoadedShuffled(s: State, ids: seq<int>)
    requires Enumerates(s, ids)
    ensures Shuffled(Loaded(s, ids).infos, Loaded(s, ids).random)
  {
    hide Enumerates, LoadedInfos, Index;
    InfosSize(s, ids);
    InfoAt(s, ids, |ids|, s.news);
    var t := Loaded(s, ids);
    forall p | 0 <= p < |t.random| ensures t.random[p] in t.infos && t.infos[t.random[p]].randomPos == p {
      Numbered(s, ids, p);
      assert t.infos[p] == LoadedInfo(s, ids, s.news, p);
    }
    forall k <- t.infos ensures 0 <= t.infos[k].randomPos < |t.random| && t.random[t.infos[k].randomPos] == k {
      Numbered(s, ids, k);
      assert t.infos[k] == LoadedInfo(s, ids, s.news, k);
    }
  }

  lemma LoadedNewPlaced(h: Hashes, s: State, ids: seq<int>)
    requires NewPlaced(h, s.key, s.infos, s.news) && Enumerates(s, ids)
    ensures NewPlaced(h, s.key, Loaded(s, ids).infos, Loaded(s, ids).news)
  {
    hide TriedSlot, BucketPosition, Enumerates, LoadedInfos, Index;
    var t := Loaded(s, ids);
    InfoAt(s, ids, |ids|, s.news);
    forall slot <- t.news ensures NewPlacedAt(h, s.key, t.infos, slot, t.news[slot]) {
      assert NewPlacedAt(h, s.key, s.infos, slot, s.news[slot]);
      NumberOf(s, ids, s.news[slot]);
      assert t.infos[t.news[slot]] == LoadedInfo(s, ids, s.news, t.news[slot]);
    }
  }

  lemma LoadedTriedPlaced(h: Hashes, s: State, ids: seq<int>)
    requires TriedPlaced(h, s.key, s.infos, s.tried) && Enumerates(s, ids)
    ensures TriedPlaced(h, s.key, Loaded(s, ids).infos, Loaded(s, ids).tried)
  {
    hide TriedSlot, BucketPosition, Enumerates, LoadedInfos, Index;
    var t := Loaded(s, ids);
    InfoAt(s, ids, |ids|, s.news);
    forall slot <- t.tried ensures TriedPlacedAt(h, s.key, t.infos, slot, t.tried[slot]) {
      assert TriedPlacedAt(h, s.key, s.infos, slot, s.tried[slot]);
      NumberOf(s, ids, s.tried[slot]);
      assert t.infos[t.tried[slot]] == LoadedInfo(s, ids, s.news, t.tried[slot]);
    }
    forall k <- t.infos | t.infos[k].inTried ensures Holds(t.tried, TriedSlot(h, s.key, t.infos[k].service), k) {
      Numbered(s, ids, k);
      assert t.infos[k] == LoadedInfo(s, ids, s.news, k);
      assert Holds(s.tried, TriedSlot(h, s.key, s.infos[ids[k]].service), ids[k]);
    }
  }

  /** References to an entry stay references to it. */
  lemma LoadedSlots(h: Hashes, s: State, ids: seq<int>, seen: Table, k: nat)
    requires Enumerates(s, ids) && k < |ids|
    requires forall slot <- seen :: seen[slot] in s.infos
    ensures SlotsOf(LoadedNews(ids, seen), k) == SlotsOf(seen, ids[k])
  {
    hide Enumerates, Index;
    Numbered(s, ids, k);
    forall slot <- seen ensures seen[slot] == ids[k] <==> Index(ids, seen[slot]) == k {
      NumberOf(s, ids, seen[slot]);
    }
  }

  lemma LoadedCounted(h: Hashes, s: State, ids: seq<int>)
    requires Consistent(h, s) && Enumerates(s, ids)
    ensures RefCounted(Loaded(s, ids).infos, Loaded(s, ids).news)
    ensures Live(Loaded(s, ids).infos, {})
  {
    hide Enumerates, LoadedInfos, LoadedNews, Index, Addressed, Shuffled, NewPlaced, TriedPlaced, Totalled, SlotsOf;
    var t := Loaded(s, ids);
    InfoAt(s, ids, |ids|, s.news);
    TablesKnown(h, s);
    forall k <- t.infos ensures t.infos[k].refCount == |SlotsOf(t.news, k)| {
      Numbered(s, ids, k);
      assert t.infos[k] == LoadedInfo(s, ids, s.news, k);
      LoadedSlots(h, s, ids, s.news, k);
    }
    forall k <- t.infos ensures LiveAt(t.infos[k], false) {
      Numbered(s, ids, k);
      assert t.infos[k] == LoadedInfo(s, ids, s.news, k);
      assert LiveAt(s.infos[ids[k]], false);
      RefCountedAt(s.infos, s.news, ids[k]);
    }
  }

  /** The loaded state is consistent. */
  lemma LoadedConsistent(h: Hashes, s: State, ids: seq<int>)
    requires Consistent(h, s) && Enumerates(s, ids)
    ensures Consistent(h, Loaded(s, ids))
  {
    hide LoadedNews, LoadedTried, LoadedAddrs, Index, Addressed, Shuffled, NewPlaced, TriedPlaced, RefCounted, Live;
    LoadedAddressed(h, s, ids);
    LoadedShuffled(s, ids);
    LoadedNewPlaced(h, s, ids);
    LoadedTriedPlaced(h, s, ids);
    LoadedCounted(h, s, ids);
    InfosSize(s, ids);
    InfoAt(s, ids, |ids|, s.news);
    var none: set<int> := {};
    assert none + none == none;
    assert Totalled(Loaded(s, ids), none);
  }

  //////////////////////////////////////////////////////////////////////////////
  // The stream
  //////////////////////////////////////////////////////////////////////////////

  ghost function Header(s: State): seq<Token> {
    [Byte(1), Byte(32), Key(s.key), Int(s.nNew), Int(s.nTried), Int(FlipBit30(NEW_BUCKET_COUNT))]
  }

  ghost function Entries(infos: map<int, Info>, ids: seq<int>): (r: seq<Token>)
    requires forall k | 0 <= k < |ids| :: ids[k] in infos
    ensures |r| == |ids|
  {
    seq(|ids|, k requires 0 <= k < |ids| => Entry(RecordOf(infos[ids[k]])))
  }

  /** The positions in use among the first `n` of a bucket. */
  ghost function Used(t: Table, bucket: nat, n: nat): (r: seq<nat>)
    ensures |r| <= n
    ensures forall j | 0 <= j < |r| :: r[j] < n && Slot(bucket, r[j]) in t
  {
    if n == 0 then []
    else if Slot(bucket, n - 1) in t then Used(t, bucket, n - 1) + [n - 1]
    else Used(t, bucket, n - 1)
  }

  /** The new numbers of the entries at some positions of a bucket. */
  ghost function Indexes(t: Table, ids: seq<int>, bucket: nat, positions: seq<nat>): (r: seq<Token>)
    requires forall j | 0 <= j < |positions| :: Slot(bucket, positions[j]) in t
    ensures |r| == |positions|
  {
    seq(|positions|, j requires 0 <= j < |positions| => Int(Index(ids, t[Slot(bucket, positions[j])])))
  }

  ghost function Bucket(t: Table, ids: seq<int>, bucket: nat): seq<Token> {
    var used := Used(t, bucket, BUCKET_SIZE);
    [Int(|used|)] + Indexes(t, ids, bucket, used)
  }

  /** The buckets from `b` on. */
  ghost function BucketsFrom(t: Table, ids: seq<int>, b: nat): seq<Token>
    requires b <= NEW_BUCKET_COUNT
    decreases NEW_BUCKET_COUNT - b
  {
    if b == NEW_BUCKET_COUNT then [] else Bucket(t, ids, b) + BucketsFrom(t, ids, b + 1)
  }

  /** What Serialize writes. */
  ghost function Saved(s: State, ids: seq<int>): seq<Token>
    requires Enumerates(s, ids)
  {
    Header(s) + Entries(s.infos, ids) + BucketsFrom(s.news, ids, 0)
  }

  /** The stream starts with the version, the size of the key, the key, the counters and the number of buckets with
      bit 30 set. */
  lemma SavedHeader(s: State, ids: seq<int>)
    requires Enumerates(s, ids)
    ensures |Saved(s, ids)| >= 6
    ensures Saved(s, ids)[..6] == [Byte(1), Byte(32), Key(s.key), Int(s.nNew), Int(s.nTried), Int(1024 + 0x4000_0000)]
  {
    hide Entries, BucketsFrom, Enumerates;
  }

  lemma EntriesNext(infos: map<int, Info>, ids: seq<int>, id: int)
    requires (forall k | 0 <= k < |ids| :: ids[k] in infos) && id in infos
    ensures Entries(infos, ids + [id]) == Entries(infos, ids) + [Entry(RecordOf(infos[id]))]
  {
  }

  lemma EntriesJoined(infos: map<int, Info>, a: seq<int>, b: seq<int>)
    requires (forall k | 0 <= k < |a| :: a[k] in infos) && (forall k | 0 <= k < |b| :: b[k] in infos)
    ensures Entries(infos, a + b) == Entries(infos, a) + Entries(infos, b)
  {
  }

  /** The numbers given so far to entries of the new table. */
  ghost predicate NumbersSoFar(infos: map<int, Info>, n: nat, numbers: map<int, int>) {
    forall id <- infos :: 0 <= id < n && !infos[id].inTried ==> id in numbers && numbers[id] == Index(IdsOf(infos, n, false), id)
  }

  lemma IndexKept(infos: map<int, Info>, n: nat, id: int)
    requires id in infos && 0 <= id < n && !infos[id].inTried
    ensures Index(IdsOf(infos, n + 1, false), id) == Index(IdsOf(infos, n, false), id)
  {
    var ids, more := IdsOf(infos, n, false), IdsOf(infos, n + 1, false);
    IdsOfFacts(infos, n, false);
    IdsOfFacts(infos, n + 1, false);
    IdsOfPrefix(infos, n + 1, n, false);
    assert id in ids;
    var k := Index(ids, id);
    assert more[k] == id;
    IndexAt(more, k);
  }

  lemma IndexLast(infos: map<int, Info>, n: nat)
    requires n in infos && !infos[n].inTried
    ensures Index(IdsOf(infos, n + 1, false), n) == |IdsOf(infos, n, false)|
  {
    IdsOfFacts(infos, n + 1, false);
    IndexAt(IdsOf(infos, n + 1, false), |IdsOf(infos, n, false)|);
  }

  lemma NumbersNext(infos: map<int, Info>, n: nat, numbers: map<int, int>)
    requires NumbersSoFar(infos, n, numbers)
    ensures n !in infos || infos[n].inTried ==> NumbersSoFar(infos, n + 1, numbers)
    ensures n in infos ==> NumbersSoFar(infos, n + 1, numbers[n := |IdsOf(infos, n, false)|])
  {
    hide IdsOf, Index;
    forall id <- infos | 0 <= id < n && !infos[id].inTried
      ensures Index(IdsOf(infos, n + 1, false), id) == Index(IdsOf(infos, n, false), id)
    {
      IndexKept(infos, n, id);
    }
    if n in infos && !infos[n].inTried {
      IndexLast(infos, n);
    }
  }

  lemma IdsOfLess(infos: map<int, Info>, id: nat, n: nat, tried: bool)
    requires id < n && id in infos && infos[id].inTried == tried
    ensures |IdsOf(infos, id, tried)| < |IdsOf(infos, n, tried)|
  {
    IdsOfPrefix(infos, n, id + 1, tried);
  }

  /** The entries of the new table, in ascending order of their ids. */
  method SaveNew(m: AddrManager) returns (tokens: seq<Token>, numbers: map<int, int>)
    requires m.Valid()
    ensures var ids := IdsOf(m.infos, m.idCount, false);
            && (forall k | 0 <= k < |ids| :: ids[k] in m.infos)
            && tokens == Entries(m.infos, ids)
    ensures NumbersSoFar(m.infos, m.idCount, numbers)
  {
    hide Contents, Consistent, Index, NumbersSoFar;
    ghost var infos := m.infos;
    tokens, numbers := [], map[];
    var count := 0;
    NumbersNone(infos);
    for id := 0 to m.idCount
      invariant forall k | 0 <= k < |IdsOf(infos, id, false)| :: IdsOf(infos, id, false)[k] in infos
      invariant tokens == Entries(infos, IdsOf(infos, id, false)) && count == |tokens|
      invariant NumbersSoFar(infos, id, numbers)
    {
      NumbersNext(infos, id, numbers);
      if id in m.infos {
        numbers := numbers[id := count];
        ReferencedIffNew(m.hashes, m.Abs(), id);
        if m.infos[id].refCount != 0 {
          NewRemain(m.hashes, m.Abs(), id);
          assert count != m.nNew;
          EntriesNext(infos, IdsOf(infos, id, false), id);
          tokens := tokens + [Entry(RecordOf(m.infos[id]))];
          count := count + 1;
        }
      }
    }
  }

  lemma NumbersNone(infos: map<int, Info>)
    ensures NumbersSoFar(infos, 0, map[])
  {
  }

  lemma ReferencedIffNew(h: Hashes, s: State, id: int)
    requires Consistent(h, s) && id in s.infos
    ensures s.infos[id].refCount != 0 <==> !s.infos[id].inTried
  {
    assert LiveAt(s.infos[id], false);
    if s.infos[id].inTried {
      TriedUnreferenced(h, s, id);
    }
  }

  /** Before the last entry of the new table the count is below the total. */
  lemma NewRemain(h: Hashes, s: State, id: nat)
    requires Consistent(h, s) && id in s.infos && !s.infos[id].inTried
    ensures |IdsOf(s.infos, id, false)| < s.nNew
  {
    hide Addressed, Shuffled, NewPlaced, RefCounted, TriedPlaced, Live, Totalled, Enumerates, IdsOf;
    OrderEnumerates(h, s);
    IdsOfLess(s.infos, id, s.idCount, false);
  }

  lemma TriedRemain(h: Hashes, s: State, id: nat)
    requires Consistent(h, s) && id in s.infos && s.infos[id].inTried
    ensures |IdsOf(s.infos, id, true)| < s.nTried
  {
    hide Addressed, Shuffled, NewPlaced, RefCounted, TriedPlaced, Live, Totalled, IdsOf;
    OrderEnumerates(h, s);
    IdsOfLess(s.infos, id, s.idCount, true);
  }

  method SaveTried(m: AddrManager) returns (tokens: seq<Token>)
    requires m.Valid()
    ensures var ids := IdsOf(m.infos, m.idCount, true);
            && (forall k | 0 <= k < |ids| :: ids[k] in m.infos)
            && tokens == Entries(m.infos, ids)
  {
    hide Contents, Consistent;
    ghost var infos := m.infos;
    tokens := [];
    var count := 0;
    for id := 0 to m.idCount
      invariant forall k | 0 <= k < |IdsOf(infos, id, true)| :: IdsOf(infos, id, true)[k] in infos
      invariant tokens == Entries(infos, IdsOf(infos, id, true)) && count == |tokens|
    {
      if id in m.infos {
        if m.infos[id].inTried {
          TriedRemain(m.hashes, m.Abs(), id);
          assert count != m.nTried;
          EntriesNext(infos, IdsOf(infos, id, true), id);
          tokens := tokens + [Entry(RecordOf(m.infos[id]))];
          count := count + 1;
        }
      }
    }
  }

  /** One bucket: how many positions are in use, and the new numbers of the entries there. */
  method SaveBucket(m: AddrManager, bucket: nat, numbers: map<int, int>, ghost ids: seq<int>) returns (tokens: seq<Token>)
    requires m.Shaped() && bucket < NEW_BUCKET_COUNT
    requires forall slot <- Contents(m.vvNew) ::
               Contents(m.vvNew)[slot] in numbers && numbers[Contents(m.vvNew)[slot]] == Index(ids, Contents(m.vvNew)[slot])
    ensures tokens == Bucket(Contents(m.vvNew), ids, bucket)
  {
    hide Contents, Index;
    ghost var t := Contents(m.vvNew);
    var size := 0;
    for i := 0 to BUCKET_SIZE
      invariant size == |Used(t, bucket, i)|
    {
      ContentsAt(m.vvNew, Slot(bucket, i));
      if m.vvNew[bucket, i] != -1 {
        size := size + 1;
      }
    }
    var listed: seq<Token> := [];
    for i := 0 to BUCKET_SIZE
      invariant listed == Indexes(t, ids, bucket, Used(t, bucket, i))
    {
      ContentsAt(m.vvNew, Slot(bucket, i));
      if m.vvNew[bucket, i] != -1 {
        IndexesNext(t, ids, bucket, Used(t, bucket, i), i);
        listed := listed + [Int(numbers[m.vvNew[bucket, i]])];
      }
    }
    tokens := [Int(size)] + listed;
  }

  lemma IndexesNext(t: Table, ids: seq<int>, bucket: nat, positions: seq<nat>, i: nat)
    requires (forall j | 0 <= j < |positions| :: Slot(bucket, positions[j]) in t) && Slot(bucket, i) in t
    ensures Indexes(t, ids, bucket, positions + [i]) == Indexes(t, ids, bucket, positions) + [Int(Index(ids, t[Slot(bucket, i)]))]
  {
  }

  /** Serialize. The asserts on the counters hold. */
  method Save(m: AddrManager) returns (tokens: seq<Token>)
    requires m.Valid()
    ensures Enumerates(m.Abs(), Order(m.Abs())) && tokens == Saved(m.Abs(), Order(m.Abs()))
  {
    hide Contents, Consistent, Index, Enumerates, NumbersSoFar, Bucket;
    ghost var s := m.Abs();
    ghost var ids := Order(s);
    OrderEnumerates(m.hashes, s);
    tokens := [Byte(1), Byte(32), Key(m.key), Int(m.nNew), Int(m.nTried), Int(FlipBit30(NEW_BUCKET_COUNT))];
    var entries, numbers := SaveNew(m);
    var tried := SaveTried(m);
    EntriesJoined(s.infos, IdsOf(s.infos, s.idCount, false), IdsOf(s.infos, s.idCount, true));
    NumbersKnown(m.hashes, s, numbers);
    tokens := tokens + entries + tried;
    assert tokens == Header(s) + Entries(s.infos, ids);
    ghost var front := tokens;
    assert front + BucketsFrom(s.news, ids, 0) == Saved(s, ids);
    for bucket := 0 to NEW_BUCKET_COUNT
      invariant tokens + BucketsFrom(s.news, ids, bucket) == Saved(s, ids)
    {
      var listed := SaveBucket(m, bucket, numbers, ids);
      assert tokens + (listed + BucketsFrom(s.news, ids, bucket + 1)) == tokens + listed + BucketsFrom(s.news, ids, bucket + 1);
      tokens := tokens + listed;
    }
    assert tokens + [] == tokens;
  }

  /** The numbers given to the entries in the new table are their places in the order. */
  lemma NumbersKnown(h: Hashes, s: State, numbers: map<int, int>)
    requires Consistent(h, s) && NumbersSoFar(s.infos, s.idCount, numbers)
    ensures forall slot <- s.news :: s.news[slot] in numbers && numbers[s.news[slot]] == Index(Order(s), s.news[slot])
  {
    hide Addressed, Shuffled, RefCounted, TriedPlaced, Live, Totalled;
    OrderEnumerates(h, s);
    var a := IdsOf(s.infos, s.idCount, false);
    IdsOfFacts(s.infos, s.idCount, false);
    forall slot <- s.news ensures s.news[slot] in numbers && numbers[s.news[slot]] == Index(Order(s), s.news[slot]) {
      var id := s.news[slot];
      assert NewPlacedAt(h, s.key, s.infos, slot, id);
      assert id in a && Order(s)[Index(a, id)] == id;
      IndexAt(Order(s), Index(a, id));
    }
  }

  //////////////////////////////////////////////////////////////////////////////
  // Limits
  //////////////////////////////////////////////////////////////////////////////

  lemma SeenOne(t: Table, n: nat, i: nat)
    ensures |Seen(t, n, i + 1)| <= |Seen(t, n, i)| + 1
  {
    var a, b := Seen(t, n, i), Seen(t, n, i + 1);
    assert b.Keys <= a.Keys + {Slot(n, i)};
    Fewer(b.Keys, a.Keys + {Slot(n, i)});
    assert |a.Keys| == |a| && |b.Keys| == |b|;
  }

  lemma {:induction false} SeenBound(t: Table, buckets: nat, n: nat, i: nat)
    requires Within(t, buckets) && i <= BUCKET_SIZE
    ensures |Seen(t, n, i)| <= BUCKET_SIZE * n + i
    decreases n, i
  {
    if i > 0 {
      SeenBound(t, buckets, n, i - 1);
      SeenOne(t, n, i - 1);
    } else if n > 0 {
      SeenBound(t, buckets, n - 1, BUCKET_SIZE);
      RowEnd(t, buckets, n - 1);
    } else {
      assert Seen(t, 0, 0) == map[];
    }
  }

  /** As many entries as have a slot of their own. */
  lemma {:induction false} HolderBound(t: Table, holders: set<int>)
    requires forall id <- holders :: exists slot :: Holds(t, slot, id)
    ensures |holders| <= |t|
    decreases holders
  {
    if holders != {} {
      NonEmpty(holders);
      var id :| id in holders;
      var slot :| Holds(t, slot, id);
      var rest := t - {slot};
      forall k <- holders - {id} ensures exists sl :: Holds(rest, sl, k) {
        var sl :| Holds(t, sl, k);
        assert Holds(rest, sl, k);
      }
      HolderBound(rest, holders - {id});
      assert t.Keys == rest.Keys + {slot};
      assert |t.Keys| == |t| && |rest.Keys| == |rest|;
    }
  }

  /** The counters of a consistent manager are within the sizes of the tables. */
  lemma CountersBound(h: Hashes, s: State)
    requires Consistent(h, s) && Within(s.news, NEW_BUCKET_COUNT) && Within(s.tried, TRIED_BUCKET_COUNT)
    ensures 0 <= s.nNew <= NEW_BUCKET_COUNT * BUCKET_SIZE && 0 <= s.nTried <= TRIED_BUCKET_COUNT * BUCKET_SIZE
  {
    hide Addressed, Shuffled, NewPlaced, RefCounted, TriedPlaced, Live, BucketPosition, TriedSlot;
    var tried, rest := TriedIds(s.infos), s.infos.Keys - TriedIds(s.infos);
    assert |rest| == s.nNew by {
      assert s.infos.Keys == rest + tried && |s.infos.Keys| == |s.infos|;
    }
    forall id <- rest ensures exists slot :: Holds(s.news, slot, id) {
      Referenced(h, s, id);
    }
    forall id <- tried ensures exists slot :: Holds(s.tried, slot, id) {
      TriedHolder(h, s, id);
    }
    HolderBound(s.news, rest);
    HolderBound(s.tried, tried);
    SeenBound(s.news, NEW_BUCKET_COUNT, NEW_BUCKET_COUNT, 0);
    SeenBound(s.tried, TRIED_BUCKET_COUNT, TRIED_BUCKET_COUNT, 0);
    RowEnd(s.news, NEW_BUCKET_COUNT, 0);
    RowEnd(s.tried, TRIED_BUCKET_COUNT, 0);
  }

  lemma TriedHolder(h: Hashes, s: State, id: int)
    requires Consistent(h, s) && id in TriedIds(s.infos)
    ensures exists slot :: Holds(s.tried, slot, id)
  {
    assert Holds(s.tried, TriedSlot(h, s.key, s.infos[id].service), id);
  }

  //////////////////////////////////////////////////////////////////////////////
  // Steps of loading
  //////////////////////////////////////////////////////////////////////////////

  /** The first `n` entries of a saved state have been read, but no positions yet. */
  ghost predicate Reading(s: State, ids: seq<int>, n: nat, infos: map<int, Info>, addrs: map<NetAddr, int>, tried: Table, news: Table)
    requires Enumerates(s, ids)
  {
    && n <= |ids|
    && infos == LoadedInfos(s, ids, n, map[]) && addrs == LoadedAddrs(s, ids, n)
    && tried == LoadedTried(s, ids, n) && news == map[]
  }

  lemma ReadingStart(h: Hashes, s: State, ids: seq<int>)
    requires Enumerates(s, ids)
    ensures Reading(s, ids, 0, map[], map[], map[], map[])
  {
  }

  lemma NextInfo(s: State, ids: seq<int>, n: nat)
    requires Enumerates(s, ids) && n < |ids|
    ensures ids[n] in s.infos
    ensures LoadedInfos(s, ids, n + 1, map[])
         == LoadedInfos(s, ids, n, map[])[n := Restored(RecordOf(s.infos[ids[n]]), n, n >= s.nNew)]
  {
    assert SlotsOf(map[], ids[n]) == {};
  }

  lemma NextAddr(h: Hashes, s: State, ids: seq<int>, n: nat)
    requires Addressed(s.infos, s.addrs) && Enumerates(s, ids) && n < |ids|
    ensures ids[n] in s.infos
    ensures LoadedAddrs(s, ids, n + 1) == LoadedAddrs(s, ids, n)[s.infos[ids[n]].service.addr := n]
  {
    hide Enumerates, Index;
    Numbered(s, ids, n);
    var here := s.infos[ids[n]].service.addr;
    assert s.addrs[here] == ids[n];
    forall a <- s.addrs ensures Index(ids, s.addrs[a]) == n <==> a == here {
      assert s.addrs[a] in s.infos && s.infos[s.addrs[a]].service.addr == a;
      NumberOf(s, ids, s.addrs[a]);
    }
  }

  lemma NextTried(h: Hashes, s: State, ids: seq<int>, n: nat)
    requires TriedPlaced(h, s.key, s.infos, s.tried) && Enumerates(s, ids) && n < |ids|
    ensures ids[n] in s.infos
    ensures n < s.nNew ==> LoadedTried(s, ids, n + 1) == LoadedTried(s, ids, n)
    ensures n >= s.nNew ==>
              var slot := TriedSlot(h, s.key, s.infos[ids[n]].service);
              slot !in LoadedTried(s, ids, n) && LoadedTried(s, ids, n + 1) == LoadedTried(s, ids, n)[slot := n]
  {
    hide Enumerates, Index, TriedSlot;
    Numbered(s, ids, n);
    var slot := TriedSlot(h, s.key, s.infos[ids[n]].service);
    forall sl <- s.tried ensures Index(ids, s.tried[sl]) == n <==> n >= s.nNew && sl == slot {
      assert TriedPlacedAt(h, s.key, s.infos, sl, s.tried[sl]);
      NumberOf(s, ids, s.tried[sl]);
      if n >= s.nNew {
        assert Holds(s.tried, slot, ids[n]);
      }
    }
    if n >= s.nNew {
      assert Holds(s.tried, slot, ids[n]);
    }
  }

  lemma ReadingNext(h: Hashes, s: State, ids: seq<int>, n: nat, infos: map<int, Info>, addrs: map<NetAddr, int>, tried: Table, news: Table)
    requires Consistent(h, s) && Enumerates(s, ids) && n < |ids| && Reading(s, ids, n, infos, addrs, tried, news)
    ensures ids[n] in s.infos
    ensures var r := RecordOf(s.infos[ids[n]]);
            var slot := TriedSlot(h, s.key, r.service);
            && (n < s.nNew ==> Reading(s, ids, n + 1, infos[n := Restored(r, n, false)], addrs[r.service.addr := n], tried, news))
            && (n >= s.nNew ==>
                  && slot !in tried
                  && Reading(s, ids, n + 1, infos[n := Restored(r, n, true)], addrs[r.service.addr := n], tried[slot := n], news))
  {
    hide Enumerates, LoadedInfos, LoadedAddrs, LoadedTried, Index, Addressed, Shuffled, NewPlaced, RefCounted, TriedPlaced, Live, Totalled, TriedSlot;
    NextInfo(s, ids, n);
    NextAddr(h, s, ids, n);
    NextTried(h, s, ids, n);
  }

  /** The slots of the buckets before `bucket`, and of the first `j` positions in use there. */
  ghost function Partly(t: Table, bucket: nat, j: nat): Table {
    map slot | slot in t && (slot.bucket < bucket || (slot.bucket == bucket && Listed(t, bucket, j, slot.pos))) :: t[slot]
  }

  ghost predicate Listed(t: Table, bucket: nat, j: nat, pos: nat) {
    exists i :: 0 <= i < j && i < |Used(t, bucket, BUCKET_SIZE)| && Used(t, bucket, BUCKET_SIZE)[i] == pos
  }

  lemma {:induction false} UsedFacts(t: Table, bucket: nat, n: nat)
    ensures forall i, j | 0 <= i < j < |Used(t, bucket, n)| :: Used(t, bucket, n)[i] < Used(t, bucket, n)[j]
    ensures forall p | 0 <= p < n && Slot(bucket, p) in t :: p in Used(t, bucket, n)
  {
    if n > 0 {
      UsedFacts(t, bucket, n - 1);
    }
  }

  lemma PartlyEnds(t: Table, bucket: nat)
    requires Within(t, NEW_BUCKET_COUNT)
    ensures Partly(t, bucket, 0) == Seen(t, bucket, 0)
    ensures Partly(t, bucket, |Used(t, bucket, BUCKET_SIZE)|) == Seen(t, bucket + 1, 0)
  {
    UsedFacts(t, bucket, BUCKET_SIZE);
    var used := Used(t, bucket, BUCKET_SIZE);
    forall slot <- t | slot.bucket == bucket ensures Listed(t, bucket, |used|, slot.pos) {
      assert Slot(bucket, slot.pos) == slot;
      assert slot.pos in used;
    }
    assert Partly(t, bucket, |used|).Keys == Seen(t, bucket + 1, 0).Keys;
  }

  lemma PartlyNext(t: Table, bucket: nat, j: nat)
    requires j < |Used(t, bucket, BUCKET_SIZE)|
    ensures var slot := Slot(bucket, Used(t, bucket, BUCKET_SIZE)[j]);
            slot in t && slot !in Partly(t, bucket, j) && Partly(t, bucket, j + 1) == Partly(t, bucket, j)[slot := t[slot]]
  {
    UsedFacts(t, bucket, BUCKET_SIZE);
    var used := Used(t, bucket, BUCKET_SIZE);
    var slot := Slot(bucket, used[j]);
    forall p ensures Listed(t, bucket, j + 1, p) <==> Listed(t, bucket, j, p) || p == used[j] {
      if p == used[j] {
        assert Listed(t, bucket, j + 1, p);
      }
    }
  }

  /** All entries have been read, and the positions of `seen`. */
  ghost predicate Placing(s: State, ids: seq<int>, seen: Table, infos: map<int, Info>, news: Table)
    requires Enumerates(s, ids)
  {
    infos == LoadedInfos(s, ids, |ids|, seen) && news == LoadedNews(ids, seen)
  }

  /** One more position: the slot is free, the entry has room for a reference, and the position is the one
      hashed for it. */
  lemma PlacingNext(h: Hashes, s: State, ids: seq<int>, seen: Table, slot: Slot, infos: map<int, Info>, news: Table)
    requires Consistent(h, s) && Enumerates(s, ids) && Placing(s, ids, seen, infos, news)
    requires slot in s.news && slot !in seen && (forall sl <- seen :: sl in s.news && seen[sl] == s.news[sl])
    ensures var k := Index(ids, s.news[slot]);
            && 0 <= k < s.nNew && k in infos && slot !in news
            && infos[k].refCount < NEW_BUCKETS_PER_ADDRESS
            && slot.pos == BucketPosition(h, s.key, true, slot.bucket, infos[k].service)
            && Placing(s, ids, seen[slot := s.news[slot]], infos[k := infos[k].(refCount := infos[k].refCount + 1)], news[slot := k])
  {
    hide Enumerates, Index, Addressed, Shuffled, TriedPlaced, Totalled, BucketPosition, LoadedInfos;
    var id := s.news[slot];
    var k := Index(ids, id);
    assert NewPlacedAt(h, s.key, s.infos, slot, id);
    NumberOf(s, ids, id);
    Numbered(s, ids, k);
    InfoAt(s, ids, |ids|, seen);
    assert infos[k] == LoadedInfo(s, ids, seen, k);
    MoreSlots(s.news, seen, slot, id);
    assert LiveAt(s.infos[id], false);
    RefCountedAt(s.infos, s.news, id);
    PlacingInfos(s, ids, seen, slot, id);
  }

  lemma MoreSlots(t: Table, seen: Table, slot: Slot, id: int)
    requires slot in t && t[slot] == id && slot !in seen && (forall sl <- seen :: sl in t && seen[sl] == t[sl])
    ensures |SlotsOf(seen, id)| < |SlotsOf(t, id)|
    ensures |SlotsOf(seen[slot := id], id)| == |SlotsOf(seen, id)| + 1
  {
    assert SlotsOf(seen[slot := id], id) == SlotsOf(seen, id) + {slot};
    Fewer(SlotsOf(seen, id) + {slot}, SlotsOf(t, id));
  }

  lemma PlacingInfos(s: State, ids: seq<int>, seen: Table, slot: Slot, id: int)
    requires Enumerates(s, ids) && id in s.infos && slot !in seen
    ensures var k := Index(ids, id);
            var infos := LoadedInfos(s, ids, |ids|, seen);
            k in infos && LoadedInfos(s, ids, |ids|, seen[slot := id]) == infos[k := infos[k].(refCount := infos[k].refCount + 1)]
  {
    hide Enumerates, Index, LoadedInfos;
    var k := Index(ids, id);
    NumberOf(s, ids, id);
    var seen' := seen[slot := id];
    InfoAt(s, ids, |ids|, seen);
    InfoAt(s, ids, |ids|, seen');
    var infos, infos' := LoadedInfos(s, ids, |ids|, seen), LoadedInfos(s, ids, |ids|, seen');
    InfoKeys(s, ids, |ids|, seen);
    InfoKeys(s, ids, |ids|, seen');
    assert infos.Keys == infos'.Keys;
    forall j <- infos ensures infos'[j] == if j == k then infos[j].(refCount := infos[j].refCount + 1) else infos[j] {
      Numbered(s, ids, j);
      SlotsMore(seen, slot, id, ids[j]);
    }
  }

  lemma SlotsMore(seen: Table, slot: Slot, id: int, other: int)
    requires slot !in seen
    ensures |SlotsOf(seen[slot := id], other)| == |SlotsOf(seen, other)| + if id == other then 1 else 0
  {
    if id == other {
      assert SlotsOf(seen[slot := id], other) == SlotsOf(seen, other) + {slot};
    } else {
      assert SlotsOf(seen[slot := id], other) == SlotsOf(seen, other);
    }
  }

  //////////////////////////////////////////////////////////////////////////////
  // Loading
  //////////////////////////////////////////////////////////////////////////////

  /** Entries numbered from zero in the order they were read. */
  ghost predicate InOrder(infos: map<int, Info>, random: seq<int>, k: nat) {
    && random == Count(k)
    && infos.Keys == Elements(Count(k))
    && forall i <- infos :: infos[i].randomPos == i
  }

  lemma InOrderNext(infos: map<int, Info>, random: seq<int>, k: nat, info: Info)
    requires InOrder(infos, random, k) && info.randomPos == k
    ensures InOrder(infos[k := info], random + [k], k + 1) && k !in infos
  {
    CountElements(k);
    CountElements(k + 1);
    assert Count(k) + [k] == Count(k + 1);
    assert infos[k := info].Keys == Elements(Count(k + 1));
  }

  lemma InOrderShuffled(infos: map<int, Info>, random: seq<int>, k: nat)
    requires InOrder(infos, random, k)
    ensures Shuffled(infos, random) && forall i | 0 <= i < k :: i in infos
  {
    CountElements(k);
    assert |infos.Keys| == |infos|;
  }

  method ClearTable(a: array2<int>)
    modifies a
    ensures Contents(a) == map[]
  {
    for b := 0 to a.Length0
      invariant forall c, i | 0 <= c < b && 0 <= i < a.Length1 :: a[c, i] == -1
    {
      for i := 0 to a.Length1
        invariant forall c, j | 0 <= c < b && 0 <= j < a.Length1 :: a[c, j] == -1
        invariant forall j | 0 <= j < i :: a[b, j] == -1
      {
        a[b, i] := -1;
      }
    }
  }

  method Clear(m: AddrManager, key: nat)
    requires m.Shaped()
    modifies m, m.vvNew, m.vvTried
    ensures InOrder(m.infos, m.random, 0) && m.infos == map[] && m.addrs == map[]
    ensures Contents(m.vvTried) == map[] && Contents(m.vvNew) == map[] && m.idCount == 0 && m.lastGood == 1
  {
    hide Contents;
    m.random := [];
    m.key := key;
    ClearTable(m.vvNew);
    ClearTable(m.vvTried);
    m.idCount, m.nTried, m.nNew, m.lastGood := 0, 0, 0, 1;
    m.infos, m.addrs := map[], map[];
    assert Elements(Count(0)) == {};
  }

  /** What a manager has read of a saved state `s`. */
  ghost predicate Read(m: AddrManager, s: State, ids: seq<int>, n: nat)
    requires Enumerates(s, ids)
    reads m, m.vvNew, m.vvTried
  {
    m.key == s.key && Reading(s, ids, n, m.infos, m.addrs, Contents(m.vvTried), Contents(m.vvNew))
  }

  /** Reads the entries of the new table. Unless the new table can be used (`plain`), each is given a
      reference based on its source. */
  method LoadNew(m: AddrManager, tokens: seq<Token>, count: nat, plain: bool, ghost good: bool, ghost s: State,
      ghost ids: seq<int>, ghost tail: seq<Token>) returns (ok: bool, rest: seq<Token>)
    requires m.Shaped() && InOrder(m.infos, m.random, 0)
    requires good ==>
               && Consistent(m.hashes, s) && Enumerates(s, ids) && plain && count == s.nNew
               && Read(m, s, ids, 0) && tokens == Entries(s.infos, ids) + tail
    modifies m`infos, m`addrs, m`random, m.vvNew
    ensures ok ==> InOrder(m.infos, m.random, count)
    ensures good ==> ok && Read(m, s, ids, s.nNew) && rest == Entries(s.infos, ids)[s.nNew..] + tail
  {
    hide Contents, Consistent, InOrder, Reading, NewSlot, TriedSlot;
    rest := tokens;
    assert good ==> Entries(s.infos, ids)[0..] == Entries(s.infos, ids);
    for n := 0 to count
      invariant InOrder(m.infos, m.random, n)
      invariant good ==> Read(m, s, ids, n) && rest == Entries(s.infos, ids)[n..] + tail
    {
      if good {
        ReadingNext(m.hashes, s, ids, n, m.infos, m.addrs, Contents(m.vvTried), Contents(m.vvNew));
      }
      if |rest| == 0 || !rest[0].Entry? {
        return false, rest;
      }
      var info := Restored(rest[0].r, n, false);
      rest := rest[1..];
      InOrderSize(m.infos, m.random, n);
      m.addrs := m.addrs[info.service.addr := n];
      if !plain {
        var slot := NewSlot(m.hashes, m.key, info.service, info.source);
        if m.vvNew[slot.bucket, slot.pos] == -1 {
          Put(m.vvNew, slot, n);
          info := info.(refCount := 1);
        }
      }
      InOrderNext(m.infos, m.random, n, info);
      m.random := m.random + [n];
      m.infos := m.infos[n := info];
    }
    ok := true;
  }

  lemma InOrderSize(infos: map<int, Info>, random: seq<int>, k: nat)
    requires InOrder(infos, random, k)
    ensures |random| == k
  {
  }

  /** Reads the tried entries into the slots hashed for them, counting those whose slot is taken. */
  method LoadTried(m: AddrManager, tokens: seq<Token>, start: nat, count: nat, ghost good: bool, ghost s: State,
      ghost ids: seq<int>, ghost tail: seq<Token>) returns (ok: bool, rest: seq<Token>, lost: nat)
    requires m.Shaped() && InOrder(m.infos, m.random, start) && m.idCount == start
    requires good ==>
               && Consistent(m.hashes, s) && Enumerates(s, ids) && start == s.nNew && count == s.nTried
               && Read(m, s, ids, s.nNew) && tokens == Entries(s.infos, ids)[s.nNew..] + tail
    modifies m`infos, m`addrs, m`random, m`idCount, m.vvTried
    ensures ok ==> InOrder(m.infos, m.random, m.idCount) && start <= m.idCount && lost <= count
    ensures good ==> ok && lost == 0 && m.idCount == |ids| && Read(m, s, ids, |ids|) && rest == tail
  {
    hide Contents, Consistent, InOrder, Reading, TriedSlot;
    rest, lost := tokens, 0;
    if good {
      NewWithin(s, ids);
    }
    for n := 0 to count
      invariant InOrder(m.infos, m.random, m.idCount) && start <= m.idCount && lost <= n
      invariant good ==> m.idCount == s.nNew + n && lost == 0
      invariant good ==> Read(m, s, ids, s.nNew + n) && rest == Entries(s.infos, ids)[s.nNew + n..] + tail
    {
      if good {
        ReadingNext(m.hashes, s, ids, s.nNew + n, m.infos, m.addrs, Contents(m.vvTried), Contents(m.vvNew));
      }
      if |rest| == 0 || !rest[0].Entry? {
        return false, rest, lost;
      }
      InOrderSize(m.infos, m.random, m.idCount);
      var info := Restored(rest[0].r, |m.random|, true);
      rest := rest[1..];
      var slot := TriedSlot(m.hashes, m.key, info.service);
      ContentsAt(m.vvTried, slot);
      if m.vvTried[slot.bucket, slot.pos] == -1 {
        InOrderNext(m.infos, m.random, m.idCount, info);
        m.random := m.random + [m.idCount];
        m.infos := m.infos[m.idCount := info];
        m.addrs := m.addrs[info.service.addr := m.idCount];
        Put(m.vvTried, slot, m.idCount);
        m.idCount := m.idCount + 1;
      } else {
        lost := lost + 1;
      }
    }
    assert good ==> Entries(s.infos, ids)[|ids|..] + tail == tail;
    ok := true;
  }

  /** What a manager has placed of a saved state `s`. */
  ghost predicate PlacedSoFar(m: AddrManager, s: State, ids: seq<int>, seen: Table)
    requires Enumerates(s, ids)
    reads m, m.vvNew, m.vvTried
  {
    && m.key == s.key && m.addrs == LoadedAddrs(s, ids, |ids|)
    && Contents(m.vvTried) == LoadedTried(s, ids, |ids|)
    && Placing(s, ids, seen, m.infos, Contents(m.vvNew))
  }

  lemma {:induction false} PartlyOf(t: Table, bucket: nat, j: nat)
    ensures forall slot <- Partly(t, bucket, j) :: slot in t && Partly(t, bucket, j)[slot] == t[slot]
  {
  }

  /** Puts one reference in place, if the table can be used, the slot is free and the entry has room. */
  method LoadReference(m: AddrManager, bucket: nat, index: int, newCount: nat, usable: bool)
    requires m.Shaped() && (usable ==> bucket < NEW_BUCKET_COUNT)
    requires forall i | 0 <= i < newCount :: i in m.infos
    modifies m`infos, m.vvNew
    ensures m.infos.Keys == old(m.infos.Keys)
    ensures forall i <- m.infos :: m.infos[i].randomPos == old(m.infos)[i].randomPos
    ensures var slot := Slot(bucket, if index in old(m.infos) then BucketPosition(m.hashes, m.key, true, bucket, old(m.infos)[index].service) else 0);
            if usable && 0 <= index < newCount && slot !in old(Contents(m.vvNew)) && old(m.infos)[index].refCount < NEW_BUCKETS_PER_ADDRESS
            then
              && m.infos == old(m.infos)[index := old(m.infos)[index].(refCount := old(m.infos)[index].refCount + 1)]
              && Contents(m.vvNew) == old(Contents(m.vvNew))[slot := index]
            else m.infos == old(m.infos) && Contents(m.vvNew) == old(Contents(m.vvNew))
  {
    hide Contents, BucketPosition;
    if index >= 0 && index < newCount {
      var info := m.infos[index];
      var slot := Slot(bucket, BucketPosition(m.hashes, m.key, true, bucket, info.service));
      if usable {
        ContentsAt(m.vvNew, slot);
        if m.vvNew[slot.bucket, slot.pos] == -1 && info.refCount < NEW_BUCKETS_PER_ADDRESS {
          m.infos := m.infos[index := info.(refCount := info.refCount + 1)];
          Put(m.vvNew, slot, index);
        }
      }
    }
  }

  /** One bucket of positions. */
  method LoadBucket(m: AddrManager, tokens: seq<Token>, bucket: nat, newCount: nat, usable: bool, ghost k: nat,
      ghost good: bool, ghost s: State, ghost ids: seq<int>, ghost tail: seq<Token>) returns (ok: bool, rest: seq<Token>)
    requires m.Shaped() && (usable ==> bucket < NEW_BUCKET_COUNT)
    requires InOrder(m.infos, m.random, k) && newCount <= k
    requires good ==>
               && Consistent(m.hashes, s) && Enumerates(s, ids) && usable && newCount == s.nNew
               && Within(s.news, NEW_BUCKET_COUNT)
               && PlacedSoFar(m, s, ids, Seen(s.news, bucket, 0)) && tokens == Bucket(s.news, ids, bucket) + tail
    modifies m`infos, m.vvNew
    ensures ok ==> InOrder(m.infos, m.random, k)
    ensures good ==> ok && PlacedSoFar(m, s, ids, Seen(s.news, bucket + 1, 0)) && rest == tail
  {
    hide Contents, Consistent, InOrder, Placing, Seen, Partly, Within, BucketPosition, Index, Used;
    rest := tokens;
    if good {
      PartlyEnds(s.news, bucket);
    }
    if |rest| == 0 || !rest[0].Int? {
      return false, rest;
    }
    var size := rest[0].n;
    rest := rest[1..];
    ghost var used := Used(s.news, bucket, BUCKET_SIZE);
    ghost var listed := Indexes(s.news, ids, bucket, used);
    assert good ==> size == |used| && rest == listed[0..] + tail;
    var n := 0;
    while n < size
      invariant 0 <= n && InOrder(m.infos, m.random, k)
      invariant good ==> n <= |used| && PlacedSoFar(m, s, ids, Partly(s.news, bucket, n)) && rest == listed[n..] + tail
      decreases size - n
    {
      if good {
        PartlyNext(s.news, bucket, n);
        PartlyOf(s.news, bucket, n);
        PlacingNext(m.hashes, s, ids, Partly(s.news, bucket, n), Slot(bucket, used[n]), m.infos, Contents(m.vvNew));
      }
      if |rest| == 0 || !rest[0].Int? {
        return false, rest;
      }
      InOrderShuffled(m.infos, m.random, k);
      ghost var before := m.infos;
      LoadReference(m, bucket, rest[0].n, newCount, usable);
      InOrderKept(before, m.infos, m.random, k);
      rest := rest[1..];
      n := n + 1;
    }
    assert good ==> listed[|used|..] + tail == tail;
    ok := true;
  }

  lemma InOrderKept(infos: map<int, Info>, infos': map<int, Info>, random: seq<int>, k: nat)
    requires InOrder(infos, random, k) && infos'.Keys == infos.Keys
    requires forall i <- infos' :: infos'[i].randomPos == infos[i].randomPos
    ensures InOrder(infos', random, k)
  {
  }

  /** Deletes the entries that are not tried and have no reference. */
  method Prune(m: AddrManager, ghost good: bool) returns (lost: nat)
    requires m.Shaped() && Shuffled(m.infos, m.random)
    requires good ==> forall id <- m.infos :: m.infos[id].inTried || m.infos[id].refCount != 0
    modifies m
    ensures good ==> m.Abs() == old(m.Abs()) && lost == 0 && m.lastGood == old(m.lastGood)
  {
    hide Contents, Shuffled, Deleted;
    lost := 0;
    for id := 0 to m.idCount
      invariant Shuffled(m.infos, m.random)
      invariant good ==> m.Abs() == old(m.Abs()) && lost == 0 && m.lastGood == old(m.lastGood)
    {
      if id in m.infos && !m.infos[id].inTried && m.infos[id].refCount == 0 {
        DeletedShuffled(m.Abs(), id);
        m.Delete(id);
        lost := lost + 1;
      }
    }
  }

  lemma DeletedShuffled(s: State, id: int)
    requires Shuffled(s.infos, s.random) && id in s.infos
    ensures Shuffled(Deleted(s, id).infos, Deleted(s, id).random)
  {
    hide Shuffled, Swapped, Dropped, SameEntries;
    SwappedLast(s, id);
    SwappedShuffled(s, s.infos[id].randomPos, |s.random| - 1);
    DroppedLast(Swapped(s, s.infos[id].randomPos, |s.random| - 1), id);
  }

  lemma SwappedLast(s: State, id: int)
    requires Shuffled(s.infos, s.random) && id in s.infos
    ensures var pos, last := s.infos[id].randomPos, |s.random| - 1;
            && 0 <= pos <= last && s.random[pos] in s.infos && s.random[last] in s.infos
            && id in Swapped(s, pos, last).infos && Swapped(s, pos, last).infos[id].randomPos == last
            && |Swapped(s, pos, last).random| == |s.random|
  {
    assert s.random[s.infos[id].randomPos] == id;
  }

  lemma DroppedLast(t: State, id: int)
    requires Shuffled(t.infos, t.random) && id in t.infos && t.infos[id].randomPos == |t.random| - 1
    ensures Shuffled(Dropped(t, id).infos, Dropped(t, id).random)
  {
    hide Shuffled;
    DroppedOrder(t.infos, t.random, id);
  }

  /** Every loaded entry that is not tried has a reference. */
  lemma NothingLost(h: Hashes, s: State, ids: seq<int>)
    requires Consistent(h, s) && Enumerates(s, ids)
    ensures forall k <- Loaded(s, ids).infos ::
              Loaded(s, ids).infos[k].inTried || Loaded(s, ids).infos[k].refCount != 0
  {
    hide LoadedInfos, LoadedAddrs, LoadedTried, LoadedNews, Enumerates, Addressed, Shuffled, NewPlaced, RefCounted, TriedPlaced, Totalled;
    LoadedConsistent(h, s, ids);
    var t := Loaded(s, ids);
    forall k <- t.infos ensures t.infos[k].inTried || t.infos[k].refCount != 0 {
      assert LiveAt(t.infos[k], false);
    }
  }

  /** The positions of the new table, bucket by bucket. */
  method LoadBuckets(m: AddrManager, tokens: seq<Token>, buckets: int, newCount: nat, usable: bool, ghost k: nat,
      ghost good: bool, ghost s: State, ghost ids: seq<int>) returns (ok: bool)
    requires m.Shaped() && (usable ==> buckets == NEW_BUCKET_COUNT)
    requires InOrder(m.infos, m.random, k) && newCount <= k
    requires good ==>
               && Consistent(m.hashes, s) && Enumerates(s, ids) && usable && newCount == s.nNew
               && Within(s.news, NEW_BUCKET_COUNT)
               && Read(m, s, ids, |ids|) && tokens == BucketsFrom(s.news, ids, 0)
    modifies m`infos, m.vvNew
    ensures ok ==> InOrder(m.infos, m.random, k)
    ensures good ==> ok && PlacedSoFar(m, s, ids, s.news)
  {
    hide Contents, Consistent, InOrder, Placing, Seen, Within, Bucket;
    var rest := tokens;
    if good {
      ReadingDone(s, ids, m.infos, m.addrs, Contents(m.vvTried), Contents(m.vvNew));
    }
    var bucket := 0;
    while bucket < buckets
      invariant 0 <= bucket && InOrder(m.infos, m.random, k)
      invariant good ==> bucket <= NEW_BUCKET_COUNT && PlacedSoFar(m, s, ids, Seen(s.news, bucket, 0)) && rest == BucketsFrom(s.news, ids, bucket)
      decreases buckets - bucket
    {
      ok, rest := LoadBucket(m, rest, bucket, newCount, usable, k, good, s, ids,
                             if good then BucketsFrom(s.news, ids, bucket + 1) else []);
      if !ok {
        return;
      }
      bucket := bucket + 1;
    }
    if good {
      RowEnd(s.news, NEW_BUCKET_COUNT, 0);
    }
    ok := true;
  }

  /** Before any position is read. */
  lemma ReadingDone(s: State, ids: seq<int>, infos: map<int, Info>, addrs: map<NetAddr, int>, tried: Table, news: Table)
    requires Enumerates(s, ids) && Reading(s, ids, |ids|, infos, addrs, tried, news)
    ensures Placing(s, ids, Seen(s.news, 0, 0), infos, news)
  {
    assert Seen(s.news, 0, 0) == map[];
  }

  /** The entries and positions, after the header. */
  method LoadBody(m: AddrManager, tokens: seq<Token>, buckets: int, usable: bool, ghost good: bool, ghost s: State, ghost ids: seq<int>)
      returns (ok: bool)
    requires m.Shaped() && (usable ==> buckets == NEW_BUCKET_COUNT) && m.nNew >= 0 && m.nTried >= 0
    requires InOrder(m.infos, m.random, 0)
    requires good ==>
               && Consistent(m.hashes, s) && Enumerates(s, ids) && usable && Within(s.news, NEW_BUCKET_COUNT)
               && m.nNew == s.nNew && m.nTried == s.nTried && Read(m, s, ids, 0)
               && (forall k | 0 <= k < |ids| :: ids[k] in s.infos)
               && tokens == Entries(s.infos, ids) + BucketsFrom(s.news, ids, 0)
    modifies m, m.vvNew, m.vvTried
    ensures ok ==> Shuffled(m.infos, m.random)
    ensures good ==> ok && m.Abs() == Loaded(s, ids)
  {
    hide Contents, Consistent, InOrder, Enumerates, Within, Reading, Placing, Entries, BucketsFrom, Loaded, Count, Shuffled;
    var newCount: nat, triedCount: nat := m.nNew, m.nTried;
    ghost var tail := if good then BucketsFrom(s.news, ids, 0) else [];
    var rest;
    ok, rest := LoadNew(m, tokens, newCount, usable, good, s, ids, tail);
    if !ok {
      return;
    }
    m.idCount := newCount;
    var lost;
    ok, rest, lost := LoadTried(m, rest, newCount, triedCount, good, s, ids, tail);
    if !ok {
      return;
    }
    m.nTried := m.nTried - lost;
    ok := LoadBuckets(m, rest, buckets, newCount, usable, m.idCount, good, s, ids);
    if !ok {
      return;
    }
    InOrderShuffled(m.infos, m.random, m.idCount);
    if good {
      InOrderRandom(m.infos, m.random, m.idCount);
      PlacedDone(m, s, ids);
    }
  }

  /** Unserialize. Loading what a consistent manager saved gives the renumbered state, which is consistent;
      nothing is lost. */
  method Load(m: AddrManager, tokens: seq<Token>, randomKey: nat, ghost s: State) returns (ok: bool)
    requires m.Shaped()
    modifies m, m.vvNew, m.vvTried
    ensures SavedBy(m.hashes, s, tokens) ==> ok && m.Valid() && Enumerates(s, Order(s)) && m.Abs() == Loaded(s, Order(s))
  {
    hide Contents, Consistent, InOrder, Enumerates, Within, Reading, Entries, BucketsFrom, Order, Loaded, Saved, Shuffled;
    ghost var ids := Order(s);
    ghost var good := SavedBy(m.hashes, s, tokens);
    if good {
      CountersBound(m.hashes, s);
      ReadingStart(m.hashes, s, ids);
      SavedParts(s, ids);
      HeaderTokens(s, tokens);
    }
    Clear(m, randomKey);
    if |tokens| < 6 || !tokens[0].Byte? || !tokens[1].Byte? || !tokens[2].Key? || !tokens[3].Int? || !tokens[4].Int?
       || !tokens[5].Int? || tokens[3].n < 0 || tokens[4].n < 0 {
      return false;
    }
    var version := tokens[0].b;
    if tokens[1].b != 32 {
      return false;
    }
    m.key, m.nNew, m.nTried := tokens[2].k, tokens[3].n, tokens[4].n;
    var buckets := if version != 0 then FlipBit30(tokens[5].n) else tokens[5].n;
    if m.nNew > NEW_BUCKET_COUNT * BUCKET_SIZE {
      return false;
    }
    if m.nTried > TRIED_BUCKET_COUNT * BUCKET_SIZE {
      return false;
    }
    ok := LoadBody(m, tokens[6..], buckets, version == 1 && buckets == NEW_BUCKET_COUNT, good, s, ids);
    if !ok {
      return;
    }
    if good {
      NothingLost(m.hashes, s, ids);
      LoadedConsistent(m.hashes, s, ids);
    }
    var lostNew := Prune(m, good);
  }

  /** The stream is what a manager in the consistent state `s` saves. */
  ghost predicate SavedBy(h: Hashes, s: State, tokens: seq<Token>) {
    && Consistent(h, s) && Within(s.news, NEW_BUCKET_COUNT) && Within(s.tried, TRIED_BUCKET_COUNT)
    && Enumerates(s, Order(s)) && tokens == Saved(s, Order(s))
  }

  lemma HeaderTokens(s: State, tokens: seq<Token>)
    requires |tokens| >= 6 && tokens[..6] == Header(s)
    ensures tokens[0] == Byte(1) && tokens[1] == Byte(32) && tokens[2] == Key(s.key)
    ensures tokens[3] == Int(s.nNew) && tokens[4] == Int(s.nTried) && tokens[5].Int?
    ensures FlipBit30(tokens[5].n) == NEW_BUCKET_COUNT
  {
    assert forall i | 0 <= i < 6 :: tokens[i] == Header(s)[i];
    assert tokens[5] == Int(FlipBit30(NEW_BUCKET_COUNT));
  }

  lemma SavedParts(s: State, ids: seq<int>)
    requires Enumerates(s, ids)
    ensures forall k | 0 <= k < |ids| :: ids[k] in s.infos
    ensures |Saved(s, ids)| >= 6 && Saved(s, ids)[..6] == Header(s)
    ensures Saved(s, ids)[6..] == Entries(s.infos, ids) + BucketsFrom(s.news, ids, 0)
  {
    hide Entries, BucketsFrom;
    Slices(Header(s), Entries(s.infos, ids), BucketsFrom(s.news, ids, 0));
  }

  lemma Slices(a: seq<Token>, b: seq<Token>, c: seq<Token>)
    ensures (a + b + c)[..|a|] == a && (a + b + c)[|a|..] == b + c
  {
  }

  lemma InOrderRandom(infos: map<int, Info>, random: seq<int>, k: nat)
    requires InOrder(infos, random, k)
    ensures random == Count(k)
  {
  }

  lemma PlacedDone(m: AddrManager, s: State, ids: seq<int>)
    requires Enumerates(s, ids) && PlacedSoFar(m, s, ids, s.news)
    requires m.idCount == |ids| && m.random == Count(|ids|) && m.nNew == s.nNew && m.nTried == s.nTried
    ensures m.Abs() == Loaded(s, ids)
  {
  }

  /** A manager that is saved and loaded is the same manager, up to the numbers of its entries. */
  method SaveAndLoad(m: AddrManager, other: AddrManager, key: nat)
    requires m.Valid() && other.Shaped() && other.hashes == m.hashes
    requires {other, other.vvNew, other.vvTried} !! {m, m.vvNew, m.vvTried}
    modifies other, other.vvNew, other.vvTried
    ensures other.Valid() && Enumerates(m.Abs(), Order(m.Abs())) && other.Abs() == Loaded(m.Abs(), Order(m.Abs()))
    ensures Renumbered(m.Abs(), other.Abs(), Order(m.Abs()))
  {
    hide Contents, Consistent, Enumerates, Within, Saved, Loaded, Order, Renumbered;
    ghost var s := m.Abs();
    ContentsWithin(m.vvNew);
    ContentsWithin(m.vvTried);
    var tokens := Save(m);
    var ok := Load(other, tokens, key, s);
    LoadedSame(m.hashes, s, Order(s));
  }
}
