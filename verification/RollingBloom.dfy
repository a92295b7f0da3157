/** The rolling bloom filter of src/bloom.cpp: every place of the filter holds two bits that give the
    generation, out of three, in which the place was last set.

    The number of hash functions and of words come from floating-point formulas and are parameters;
    MurmurHash3 is a function parameter. */
module RollingBloom {
  import opened Words

  /** A bit of the pair of words `2 * pair` and `2 * pair + 1`. */
  datatype Place = Place(pair: nat, bit: bv64)

  datatype Config<!Key> = Config(murmur: (bv32, Key) -> bv32, tweak: bv32, hashFuncs: nat, pairs: nat) {
    ghost predicate Ok() {
      1 <= hashFuncs <= 50 && pairs > 0
    }
  }

  ghost predicate In(c: Config, p: Place) {
    p.pair < c.pairs && p.bit < 64
  }

  function PlaceOf(h: bv32, pairs: nat): (p: Place)
    requires pairs > 0
    ensures p.pair < pairs && p.bit < 64
  {
    Place((h >> 6) as nat % (2 * pairs) / 2, (h & 0x3F) as bv64)
  }

  /** The low six bits are the bit within a word; the others, modulo the number of words, choose the word, and so
      its pair. */
  lemma PlaceExact(h: bv32, pairs: nat)
    requires pairs > 0
    ensures var p := PlaceOf(h, pairs);
            && p.bit == (h & 0x3F) as bv64
            && var word := (h >> 6) as nat % (2 * pairs); word == 2 * p.pair || word == 2 * p.pair + 1
    ensures ((h >> 6) << 6) | (h & 0x3F) == h
  {
  }

  /** Different hash functions have different seeds. */
  lemma SeedsDiffer(n: bv32, m: bv32, tweak: bv32)
    requires n < 50 && m < 50 && n != m
    ensures n * 0xFBA4C795 + tweak != m * 0xFBA4C795 + tweak
  {
    assert n * 0xFBA4C795 != m * 0xFBA4C795;
  }

  /** The place that hash function `n` gives `key`. */
  function PlaceAt<Key>(c: Config<Key>, key: Key, n: nat): (p: Place)
    requires c.Ok() && n < c.hashFuncs
    ensures In(c, p)
  {
    PlaceOf(c.murmur((n as bv32) * 0xFBA4C795 + c.tweak, key), c.pairs)
  }

  /** One of the first `m` hash functions gives `key` the place `p`. */
  ghost predicate Hits<Key>(c: Config<Key>, key: Key, p: Place, m: nat)
    requires c.Ok() && m <= c.hashFuncs
  {
    exists n :: 0 <= n < m && PlaceAt(c, key, n) == p
  }

  //////////////////////////////////////////////////////////////////////////////
  // What the filter should hold
  //////////////////////////////////////////////////////////////////////////////

  /** An inserted key and the generation, counted from 0 without end, that it was inserted in. */
  datatype Entry<Key> = Entry(key: Key, gen: nat)

  /** The number, 1 to 3, under which a generation is stored. */
  function Code(gen: nat): (g: nat)
    ensures 1 <= g <= 3
  {
    gen % 3 + 1
  }

  /** The number place `p` holds in generation `age`: that of the last entry that hit it, unless it is
      more than two generations old. */
  ghost function Expected<Key>(c: Config<Key>, log: seq<Entry<Key>>, age: nat, p: Place): nat
    requires c.Ok()
  {
    if log == [] then 0
    else
      var last := log[|log| - 1];
      if !Hits(c, last.key, p, c.hashFuncs) then Expected(c, log[..|log| - 1], age, p)
      else if last.gen + 2 >= age then Code(last.gen)
      else 0
  }

  ghost predicate Aged(log: seq<Entry>, age: nat) {
    && (forall i | 0 <= i < |log| :: log[i].gen <= age)
    && (forall i, j | 0 <= i <= j < |log| :: log[i].gen <= log[j].gen)
  }

  /** The step to the next generation wipes exactly the places that hold its number. */
  lemma {:induction false} NextGeneration<Key>(c: Config<Key>, log: seq<Entry<Key>>, age: nat, p: Place)
    requires c.Ok() && Aged(log, age)
    ensures var now := Expected(c, log, age, p);
            Expected(c, log, age + 1, p) == if now == Code(age + 1) then 0 else now
  {
    if log != [] && !Hits(c, log[|log| - 1].key, p, c.hashFuncs) {
      NextGeneration(c, log[..|log| - 1], age, p);
    }
  }

  /** One of the entries not more than two generations old hit `p`. */
  ghost predicate RecentHit<Key>(c: Config<Key>, log: seq<Entry<Key>>, age: nat, p: Place)
    requires c.Ok()
  {
    exists i :: 0 <= i < |log| && log[i].gen + 2 >= age && Hits(c, log[i].key, p, c.hashFuncs)
  }

  /** A place holds a number exactly if a recent entry hit it. */
  lemma {:induction false} ExpectedHit<Key>(c: Config<Key>, log: seq<Entry<Key>>, age: nat, p: Place)
    requires c.Ok() && Aged(log, age)
    ensures Expected(c, log, age, p) != 0 <==> RecentHit(c, log, age, p)
  {
    if log != [] {
      var n := |log| - 1;
      ExpectedHit(c, log[..n], age, p);
      if Hits(c, log[n].key, p, c.hashFuncs) {
        assert log[n].gen + 2 >= age ==> RecentHit(c, log, age, p);
      } else {
        if RecentHit(c, log[..n], age, p) {
          var i :| 0 <= i < n && log[..n][i].gen + 2 >= age && Hits(c, log[..n][i].key, p, c.hashFuncs);
          assert log[i] == log[..n][i];
        }
        if RecentHit(c, log, age, p) {
          var i :| 0 <= i < |log| && log[i].gen + 2 >= age && Hits(c, log[i].key, p, c.hashFuncs);
          assert log[i] == log[..n][i];
        }
      }
    }
  }

  /** Which entries are of the current generation, of the last two and of the last three: full
      generations have `full` entries and the current one has `entries`. */
  ghost predicate Counted(log: seq<Entry>, age: nat, entries: nat, full: nat) {
    forall i | 0 <= i < |log| ::
      && (log[i].gen == age <==> i >= |log| - entries)
      && (log[i].gen + 1 >= age <==> i >= |log| - entries - full)
      && (log[i].gen + 2 >= age <==> i >= |log| - entries - 2 * full)
  }

  /** A new entry of the current generation takes over the places it hits. */
  lemma Appended<Key>(c: Config<Key>, log: seq<Entry<Key>>, age: nat, key: Key, p: Place)
    requires c.Ok()
    ensures Expected(c, log + [Entry(key, age)], age, p)
         == if Hits(c, key, p, c.hashFuncs) then Code(age) else Expected(c, log, age, p)
  {
    assert (log + [Entry(key, age)])[..|log|] == log;
  }

  lemma AppendedAged<Key>(log: seq<Entry<Key>>, age: nat, key: Key, entries: nat, full: nat)
    requires Aged(log, age) && Counted(log, age, entries, full)
    ensures Aged(log + [Entry(key, age)], age) && Counted(log + [Entry(key, age)], age, entries + 1, full)
  {
  }

  ghost function KeysOf<Key>(log: seq<Entry<Key>>): seq<Key> {
    seq(|log|, i requires 0 <= i < |log| => log[i].key)
  }

  //////////////////////////////////////////////////////////////////////////////
  // The filter
  //////////////////////////////////////////////////////////////////////////////

  function LowBit(g: nat): bv64 {
    if g % 2 == 1 then 1 else 0
  }

  function HighBit(g: nat): bv64
    requires g <= 3
  {
    if g / 2 == 1 then 1 else 0
  }

  class RollingBloomFilter<Key(==, !new)> {
    const murmur: (bv32, Key) -> bv32
    const hashFuncs: nat
    const pairs: nat
    const entriesPerGeneration: nat
    const data: array<bv64>
    var tweak: bv32
    var entriesThisGeneration: nat
    var generation: nat
    /** Every insertion since the last reset. */
    ghost var log: seq<Entry<Key>>
    /** The current generation, counted from 0 without end. */
    ghost var age: nat

    ghost function Conf(): Config<Key>
      reads this`tweak
    {
      Config(murmur, tweak, hashFuncs, pairs)
    }

    ghost predicate Shaped() {
      && 1 <= hashFuncs <= 50 && pairs > 0
      && data.Length == 2 * pairs
      && entriesPerGeneration > 0
    }

    /** The generation number stored at a place, 0 for none. */
    ghost function Level(p: Place): nat
      requires Shaped() && p.pair < pairs && p.bit < 64
      reads data
    {
      (if On(data[2 * p.pair], p.bit) then 1 else 0) + (if On(data[2 * p.pair + 1], p.bit) then 2 else 0)
    }

    ghost predicate Valid()
      reads this, data
    {
      && Shaped()
      && entriesThisGeneration <= entriesPerGeneration
      && generation == Code(age)
      && Aged(log, age)
      && Counted(log, age, entriesThisGeneration, entriesPerGeneration)
      && forall p | In(Conf(), p) :: Level(p) == Expected(Conf(), log, age, p)
    }

    ghost function Keys(): seq<Key>
      reads this`log
    {
      KeysOf(log)
    }

    constructor (elements: nat, murmur: (bv32, Key) -> bv32, hashFuncs: nat, pairs: nat, tweak: bv32)
      requires 1 <= elements < 0x8000_0000
      requires 1 <= hashFuncs <= 50 && pairs > 0
      ensures Valid() && fresh(data) && Keys() == []
      ensures Conf() == Config(murmur, tweak, hashFuncs, pairs)
      ensures 2 * entriesPerGeneration >= elements
    {
      this.murmur, this.hashFuncs, this.pairs := murmur, hashFuncs, pairs;
      entriesPerGeneration := (elements + 1) / 2;
      data := new bv64[2 * pairs];
      new;
      Reset(tweak);
    }

    method Reset(tweak: bv32)
      requires Shaped()
      modifies this, data
      ensures Valid() && Keys() == [] && this.tweak == tweak
    {
      hide On;
      this.tweak := tweak;
      entriesThisGeneration, generation := 0, 1;
      log, age := [], 0;
      for i := 0 to data.Length
        modifies data
        invariant forall j | 0 <= j < i :: data[j] == 0
      {
        data[i] := 0;
      }
      forall p | In(Conf(), p) ensures Level(p) == 0 {
        OnZero(p.bit);
      }
    }

    /** Forgets everything stored under the current generation number. */
    method Wipe()
      requires Shaped() && 1 <= generation <= 3
      modifies data
      ensures forall p | In(Conf(), p) :: Level(p) == if old(Level(p)) == generation then 0 else old(Level(p))
    {
      hide On, And, Mask, PlaceOf, PlaceAt;
      for q := 0 to pairs
        invariant forall p | In(Conf(), p) ::
                    Level(p) == if p.pair < q && old(Level(p)) == generation then 0 else old(Level(p))
      {
        var p1, p2 := data[2 * q], data[2 * q + 1];
        var mask := Mask(p1, p2, LowBit(generation), HighBit(generation));
        data[2 * q] := And(p1, mask);
        data[2 * q + 1] := And(p2, mask);
        forall p | In(Conf(), p) && p.pair == q
          ensures Level(p) == if old(Level(p)) == generation then 0 else old(Level(p))
        {
          OnMask(p1, p2, LowBit(generation), HighBit(generation), p.bit);
          OnAnd(p1, mask, p.bit);
          OnAnd(p2, mask, p.bit);
        }
      }
    }

    /** Stores the current generation number at a place. */
    method Mark(at: Place)
      requires Shaped() && 1 <= generation <= 3 && In(Conf(), at)
      modifies data
      ensures forall p | In(Conf(), p) :: Level(p) == if p == at then generation else old(Level(p))
    {
      hide On, Put;
      data[2 * at.pair] := Put(data[2 * at.pair], at.bit, LowBit(generation));
      data[2 * at.pair + 1] := Put(data[2 * at.pair + 1], at.bit, HighBit(generation));
      forall p | In(Conf(), p) ensures Level(p) == if p == at then generation else old(Level(p)) {
        OnPut(old(data[2 * at.pair]), at.bit, LowBit(generation), p.bit);
        OnPut(old(data[2 * at.pair + 1]), at.bit, HighBit(generation), p.bit);
      }
    }

    method NewGeneration()
      requires Valid() && entriesThisGeneration == entriesPerGeneration
      modifies this`entriesThisGeneration, this`generation, this`age, data
      ensures Valid() && entriesThisGeneration == 0
    {
      hide On, Code, Expected, Hits, PlaceAt, Level;
      CodeNext(age);
      entriesThisGeneration := 0;
      generation := if generation + 1 == 4 then 1 else generation + 1;
      Wipe();
      age := age + 1;
      forall p | In(Conf(), p) ensures Level(p) == Expected(Conf(), log, age, p) {
        NextGeneration(Conf(), log, age - 1, p);
      }
    }

    method MarkAll(key: Key)
      requires Shaped() && 1 <= generation <= 3
      modifies data
      ensures forall p | In(Conf(), p) ::
                Level(p) == if Hits(Conf(), key, p, hashFuncs) then generation else old(Level(p))
    {
      hide On, Level, PlaceAt, PlaceOf;
      for n := 0 to hashFuncs
        invariant forall p | In(Conf(), p) ::
                    Level(p) == if Hits(Conf(), key, p, n) then generation else old(Level(p))
      {
        Mark(PlaceAt(Config(murmur, tweak, hashFuncs, pairs), key, n));
      }
    }

    method Insert(key: Key)
      requires Valid()
      modifies this`entriesThisGeneration, this`generation, this`age, this`log, data
      ensures Valid() && Keys() == old(Keys()) + [key]
    {
      hide On, Level, Hits, Expected, Aged, Counted;
      if entriesThisGeneration == entriesPerGeneration {
        NewGeneration();
      }
      entriesThisGeneration := entriesThisGeneration + 1;
      MarkAll(key);
      forall p | In(Conf(), p) ensures Level(p) == Expected(Conf(), log + [Entry(key, age)], age, p) {
        Appended(Conf(), log, age, key, p);
      }
      AppendedAged(log, age, key, entriesThisGeneration - 1, entriesPerGeneration);
      log := log + [Entry(key, age)];
    }

    /** Inserting any number of keys. */
    method InsertAll(keys: seq<Key>)
      requires Valid()
      modifies this`entriesThisGeneration, this`generation, this`age, this`log, data
      ensures Valid() && Keys() == old(Keys()) + keys
    {
      hide *;
      for n := 0 to |keys|
        invariant Valid() && Keys() == old(Keys()) + keys[..n]
      {
        Insert(keys[n]);
        assert keys[..n] + [keys[n]] == keys[..n + 1];
      }
      assert keys[..|keys|] == keys;
    }

    /** A key is reported exactly if each of its places was hit by one of the insertions of the current
        generation and the two full ones before it. So every key among the last
        `2 * entriesPerGeneration` insertions is reported. */
    method Contains(key: Key) returns (found: bool)
      requires Valid()
      ensures found <==> forall n | 0 <= n < hashFuncs :: RecentHit(Conf(), log, age, PlaceAt(Conf(), key, n))
      ensures forall i | 0 <= i < |log| ::
                log[i].gen + 2 >= age <==> i >= |log| - entriesThisGeneration - 2 * entriesPerGeneration
      ensures key in Keys()[if |log| < 2 * entriesPerGeneration then 0 else |log| - 2 * entriesPerGeneration..] ==> found
    {
      hide On, PlaceAt, PlaceOf, Expected;
      for n := 0 to hashFuncs
        invariant forall m | 0 <= m < n :: RecentHit(Conf(), log, age, PlaceAt(Conf(), key, m))
      {
        var p := PlaceAt(Config(murmur, tweak, hashFuncs, pairs), key, n);
        ExpectedHit(Conf(), log, age, p);
        if !On(Or(data[2 * p.pair], data[2 * p.pair + 1]), p.bit) {
          OnOr(data[2 * p.pair], data[2 * p.pair + 1], p.bit);
          assert Level(p) == 0;
          Missed(Conf(), log, age, key, n);
          return false;
        }
        OnOr(data[2 * p.pair], data[2 * p.pair + 1], p.bit);
        assert Level(p) != 0;
      }
      return true;
    }
  }

  lemma CodeNext(age: nat)
    ensures Code(age + 1) == if Code(age) + 1 == 4 then 1 else Code(age) + 1
  {
  }

  /** A key one of whose places has no recent hit is not among the recent entries. */
  lemma Missed<Key>(c: Config<Key>, log: seq<Entry<Key>>, age: nat, key: Key, n: nat)
    requires c.Ok() && n < c.hashFuncs && !RecentHit(c, log, age, PlaceAt(c, key, n))
    ensures forall i | 0 <= i < |log| && log[i].gen + 2 >= age :: log[i].key != key
  {
    forall i | 0 <= i < |log| && log[i].gen + 2 >= age ensures log[i].key != key {
      assert PlaceAt(c, key, n) == PlaceAt(c, key, n) && Hits(c, key, PlaceAt(c, key, n), c.hashFuncs);
    }
  }
}
