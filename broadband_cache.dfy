/** The broadband-data cache: string payloads keyed by a (state code, county)
    pair, held for a fixed time after they were written and bounded in
    number.  An entry is gone once `expireAfter` time units have passed
    since its last write, as the library's expire-after-write setting
    promises.  For the size bound the model chooses an order the library does
    not promise: when an insertion would exceed `maxSize` entries, the
    oldest-written entries are evicted.  Time is an explicit parameter. */
module Caching {
  import opened Common

  /** A cached payload and the time it was written. */
  datatype Entry = Entry(value: string, writtenAt: int)

  /** The source throws a NullPointerException for an empty argument. */
  datatype CacheError = EmptyArgument

  /** The cache contents: the entries by key, and the keys from the oldest
      write to the newest. */
  datatype Store = Store(entries: map<string, Entry>, writeOrder: seq<string>)

  const EmptyStore: Store := Store(map[], [])

  /** Every key occurs once in the write order, the write order lists exactly
      the stored keys, and there are at most `maxSize` of them. */
  ghost predicate WellFormed(s: Store, maxSize: nat)
  {
    Distinct(s.writeOrder) && s.entries.Keys == Elements(s.writeOrder) && |s.writeOrder| <= maxSize
  }

  // ---------------------------------------------------------------------
  // Keys
  // ---------------------------------------------------------------------

  /** `generateKey`: the state code, a dash and the county.  The key can be
      cut back into its parts at position `|stateCode|`. */
  function GenerateKey(stateCode: string, county: string): (key: string)
    ensures |key| == |stateCode| + 1 + |county|
    ensures key[..|stateCode|] == stateCode && key[|stateCode|] == '-' && key[|stateCode| + 1..] == county
  {
    stateCode + "-" + county
  }

  /** When the state codes contain no dash, a key determines its pair. */
  lemma KeyDeterminesPairWithoutDash(s1: string, c1: string, s2: string, c2: string)
    requires '-' !in s1 && '-' !in s2
    requires GenerateKey(s1, c1) == GenerateKey(s2, c2)
    ensures s1 == s2 && c1 == c2
  {
  }

  /** Different pairs can share a key: ("a-b", "c") and ("a", "b-c"). */
  lemma KeyCollision()
    ensures GenerateKey("a-b", "c") == GenerateKey("a", "b-c")
  {
  }

  // ---------------------------------------------------------------------
  // Reading, expiry, writing and eviction
  // ---------------------------------------------------------------------

  /** An entry has expired once `expireAfter` time units have passed since
      its write. */
  predicate IsExpired(e: Entry, now: int, expireAfter: nat)
  {
    now - e.writtenAt >= expireAfter
  }

  /** `getIfPresent`: the payload of a present entry that has not expired. */
  function Lookup(s: Store, key: string, now: int, expireAfter: nat): Option<string>
  {
    if key in s.entries && !IsExpired(s.entries[key], now, expireAfter) then Some(s.entries[key].value) else None
  }

  /** The keys of `order` whose entries are present and have not expired, in
      order. */
  function LiveKeys(order: seq<string>, entries: map<string, Entry>, now: int, expireAfter: nat): seq<string>
  {
    if order == [] then []
    else
      var k := order[|order| - 1];
      LiveKeys(order[..|order| - 1], entries, now, expireAfter)
        + (if k in entries && !IsExpired(entries[k], now, expireAfter) then [k] else [])
  }

  /** `LiveKeys` keeps exactly the live keys, never grows, and adds no
      repetition. */
  lemma {:induction false} LiveKeysExactly(order: seq<string>, entries: map<string, Entry>, now: int, expireAfter: nat)
    ensures var live := LiveKeys(order, entries, now, expireAfter);
            && (forall k :: k in live <==> k in order && k in entries && !IsExpired(entries[k], now, expireAfter))
            && |live| <= |order|
            && (Distinct(order) ==> Distinct(live))
  {
    if order != [] {
      var k := order[|order| - 1];
      var init := order[..|order| - 1];
      assert order == init + [k];
      LiveKeysExactly(init, entries, now, expireAfter);
      assert Distinct(order) ==> Distinct(init) && k !in init;
    }
  }

  /** The expired entries removed, as the cache does before every write. */
  function PurgeExpired(s: Store, now: int, expireAfter: nat): Store
  {
    Store(map k | k in s.entries && !IsExpired(s.entries[k], now, expireAfter) :: s.entries[k],
          LiveKeys(s.writeOrder, s.entries, now, expireAfter))
  }

  /** `order` without `key`. */
  function RemoveKey(order: seq<string>, key: string): seq<string>
  {
    if order == [] then []
    else
      var k := order[|order| - 1];
      RemoveKey(order[..|order| - 1], key) + (if k == key then [] else [k])
  }

  /** `RemoveKey` keeps exactly the other keys, never grows, and adds no
      repetition. */
  lemma {:induction false} RemoveKeyExactly(order: seq<string>, key: string)
    ensures var r := RemoveKey(order, key);
            && (forall k :: k in r <==> k in order && k != key)
            && |r| <= |order|
            && (Distinct(order) ==> Distinct(r))
  {
    if order != [] {
      var k := order[|order| - 1];
      var init := order[..|order| - 1];
      assert order == init + [k];
      RemoveKeyExactly(init, key);
      assert Distinct(order) ==> Distinct(init) && k !in init;
    }
  }

  /** Stores the payload under `key`, replacing any earlier entry; the key
      becomes the newest write. */
  function Write(s: Store, key: string, value: string, now: int): Store
  {
    Store(s.entries[key := Entry(value, now)], RemoveKey(s.writeOrder, key) + [key])
  }

  /** Evicts oldest-written entries while there are more than `maxSize`. */
  function EvictOverflow(s: Store, maxSize: nat): Store
    decreases |s.writeOrder|
  {
    if |s.writeOrder| > maxSize then
      EvictOverflow(Store(s.entries - {s.writeOrder[0]}, s.writeOrder[1..]), maxSize)
    else s
  }

  /** `put` on the cache: expired entries go, the entry is written, and the
      oldest writes are evicted down to the capacity. */
  function Put(s: Store, key: string, value: string, now: int, expireAfter: nat, maxSize: nat): Store
  {
    EvictOverflow(Write(PurgeExpired(s, now, expireAfter), key, value, now), maxSize)
  }

  // ---------------------------------------------------------------------
  // Properties
  // ---------------------------------------------------------------------

  /** Eviction keeps exactly the newest `maxSize` writes (all of them when
      there are no more) and drops the entries of the others. */
  lemma {:induction false} EvictKeepsNewest(s: Store, maxSize: nat)
    ensures var n := if |s.writeOrder| > maxSize then |s.writeOrder| - maxSize else 0;
            && EvictOverflow(s, maxSize).writeOrder == s.writeOrder[n..]
            && EvictOverflow(s, maxSize).entries == s.entries - Elements(s.writeOrder[..n])
    decreases |s.writeOrder|
  {
    var order := s.writeOrder;
    if |order| > maxSize {
      var s' := Store(s.entries - {order[0]}, order[1..]);
      EvictKeepsNewest(s', maxSize);
      var n := |order| - maxSize;
      assert order[1..][n - 1..] == order[n..];
      assert Elements(order[..n]) == {order[0]} + Elements(order[1..][..n - 1]) by {
        assert order[..n] == [order[0]] + order[1..][..n - 1];
      }
    } else {
      assert order[..0] == [];
    }
  }

  /** A suffix of a sequence without repetitions holds exactly the elements
      not in the matching prefix. */
  lemma SuffixElements(order: seq<string>, n: nat)
    requires Distinct(order) && n <= |order|
    ensures Elements(order[n..]) == Elements(order) - Elements(order[..n])
    ensures Distinct(order[n..])
  {
    assert order == order[..n] + order[n..];
    forall k | k in Elements(order[n..])
      ensures k !in Elements(order[..n])
    {
      var j :| 0 <= j < |order[n..]| && order[n..][j] == k;
      assert order[n + j] == k;
    }
  }

  /** Every write keeps the cache well formed: keys unique, the write order
      matching the entries, and never more than `maxSize` entries. */
  lemma PutPreservesWellFormed(s: Store, key: string, value: string, now: int, expireAfter: nat, maxSize: nat)
    requires WellFormed(s, maxSize)
    ensures WellFormed(Put(s, key, value, now, expireAfter, maxSize), maxSize)
  {
    var p := PurgeExpired(s, now, expireAfter);
    LiveKeysExactly(s.writeOrder, s.entries, now, expireAfter);
    assert Distinct(p.writeOrder) && p.entries.Keys == Elements(p.writeOrder);
    var w := Write(p, key, value, now);
    var rest := RemoveKey(p.writeOrder, key);
    RemoveKeyExactly(p.writeOrder, key);
    assert Distinct(w.writeOrder) by {
      assert w.writeOrder == rest + [key];
      assert key !in rest;
    }
    assert w.entries.Keys == Elements(w.writeOrder);
    EvictKeepsNewest(w, maxSize);
    var n := if |w.writeOrder| > maxSize then |w.writeOrder| - maxSize else 0;
    SuffixElements(w.writeOrder, n);
  }

  /** At most `maxSize` entries are ever held. */
  lemma EntryCountBounded(s: Store, maxSize: nat)
    requires WellFormed(s, maxSize)
    ensures |s.entries| <= maxSize
  {
    DistinctCardinality(s.writeOrder);
    assert |s.entries.Keys| == |s.entries|;
  }

  /** A get after a put of the same key returns the written payload while
      less than `expireAfter` has passed since the write, and nothing
      afterwards (expire-after-write).  This needs room for one entry. */
  lemma PutThenGet(s: Store, key: string, value: string, now: int, expireAfter: nat, maxSize: nat, later: int)
    requires maxSize >= 1
    ensures Lookup(Put(s, key, value, now, expireAfter, maxSize), key, later, expireAfter)
            == if later - now < expireAfter then Some(value) else None
  {
    var p := PurgeExpired(s, now, expireAfter);
    var w := Write(p, key, value, now);
    var rest := RemoveKey(p.writeOrder, key);
    RemoveKeyExactly(p.writeOrder, key);
    assert w.writeOrder == rest + [key];
    EvictKeepsNewest(w, maxSize);
    var n := if |w.writeOrder| > maxSize then |w.writeOrder| - maxSize else 0;
    assert n <= |rest|;
    assert w.writeOrder[..n] == rest[..n];
    assert key !in rest;
    assert forall x :: x in rest[..n] ==> x in rest;
    assert key !in Elements(w.writeOrder[..n]);
  }

  /** A second put of the same key replaces the first payload. */
  lemma OverwriteReplaces(s: Store, key: string, first: string, second: string,
                          t1: int, t2: int, expireAfter: nat, maxSize: nat, later: int)
    requires maxSize >= 1 && later - t2 < expireAfter
    ensures Lookup(Put(Put(s, key, first, t1, expireAfter, maxSize), key, second, t2, expireAfter, maxSize),
                   key, later, expireAfter) == Some(second)
  {
    PutThenGet(Put(s, key, first, t1, expireAfter, maxSize), key, second, t2, expireAfter, maxSize, later);
  }

  /** A put never changes what another key reads: that key either still
      reads what it read before or (expired or evicted) reads nothing. */
  lemma PutLeavesOtherKeys(s: Store, key: string, value: string, now: int, expireAfter: nat, maxSize: nat,
                           other: string, later: int)
    requires other != key
    ensures var r := Lookup(Put(s, key, value, now, expireAfter, maxSize), other, later, expireAfter);
            r.None? || r == Lookup(s, other, later, expireAfter)
  {
    var w := Write(PurgeExpired(s, now, expireAfter), key, value, now);
    EvictKeepsNewest(w, maxSize);
  }

  /** Nothing to purge: every stored entry is still live. */
  lemma {:induction false} LiveKeysAllLive(order: seq<string>, entries: map<string, Entry>, now: int, expireAfter: nat)
    requires forall k :: k in order ==> k in entries && !IsExpired(entries[k], now, expireAfter)
    ensures LiveKeys(order, entries, now, expireAfter) == order
  {
    if order != [] {
      var init := order[..|order| - 1];
      var last := order[|order| - 1];
      assert order == init + [last];
      LiveKeysAllLive(init, entries, now, expireAfter);
      assert LiveKeys(order, entries, now, expireAfter) == LiveKeys(init, entries, now, expireAfter) + [last];
    }
  }

  lemma {:induction false} RemoveAbsentKey(order: seq<string>, key: string)
    requires key !in order
    ensures RemoveKey(order, key) == order
  {
    if order != [] {
      var init := order[..|order| - 1];
      var last := order[|order| - 1];
      assert order == init + [last];
      RemoveAbsentKey(init, key);
      assert RemoveKey(order, key) == RemoveKey(init, key) + [last];
    }
  }

  /** Purging changes nothing while every stored entry is live. */
  lemma PurgeWhileLive(s: Store, now: int, expireAfter: nat)
    requires forall k :: k in s.writeOrder ==> k in s.entries
    requires forall k :: k in s.entries ==> !IsExpired(s.entries[k], now, expireAfter)
    ensures PurgeExpired(s, now, expireAfter) == s
  {
    LiveKeysAllLive(s.writeOrder, s.entries, now, expireAfter);
    var m := map k | k in s.entries && !IsExpired(s.entries[k], now, expireAfter) :: s.entries[k];
    assert m == s.entries;
  }

  /** While nothing has expired, a put of a new key is the write of that key
      at the end of the write order, followed by eviction. */
  lemma PutNewKeyIsAppend(s: Store, key: string, value: string, now: int, expireAfter: nat, maxSize: nat)
    requires key !in s.writeOrder && forall k :: k in s.writeOrder ==> k in s.entries
    requires forall k :: k in s.entries ==> !IsExpired(s.entries[k], now, expireAfter)
    ensures Put(s, key, value, now, expireAfter, maxSize)
            == EvictOverflow(Store(s.entries[key := Entry(value, now)], s.writeOrder + [key]), maxSize)
  {
    PurgeWhileLive(s, now, expireAfter);
    RemoveAbsentKey(s.writeOrder, key);
  }

  /** Eviction after appending one key to a write order that was within the
      capacity: nothing goes when there was room, and only the oldest write
      goes when the order was full. */
  lemma EvictAfterAppend(entries: map<string, Entry>, order: seq<string>, key: string, e: Entry, maxSize: nat)
    requires |order| <= maxSize
    ensures var r := EvictOverflow(Store(entries[key := e], order + [key]), maxSize);
            && (|order| < maxSize ==> r.writeOrder == order + [key] && r.entries == entries[key := e])
            && (|order| == maxSize > 0 ==>
                  r.writeOrder == order[1..] + [key] && r.entries == entries[key := e] - {order[0]})
  {
    var w := Store(entries[key := e], order + [key]);
    EvictKeepsNewest(w, maxSize);
    if |order| < maxSize {
      assert w.writeOrder[..0] == [];
      assert w.writeOrder[0..] == w.writeOrder;
    } else if |order| == maxSize > 0 {
      assert w.writeOrder[..1] == [order[0]];
      assert Elements(w.writeOrder[..1]) == {order[0]};
      assert w.writeOrder[1..] == order[1..] + [key];
    }
  }

  /** A put of a new key while nothing has expired: the key is appended to
      the write order, and the oldest write is evicted when the cache was
      already full. */
  lemma PutNewKeyWhileLive(s: Store, key: string, value: string, now: int, expireAfter: nat, maxSize: nat)
    requires |s.writeOrder| <= maxSize
    requires key !in s.writeOrder && forall k :: k in s.writeOrder ==> k in s.entries
    requires forall k :: k in s.entries ==> !IsExpired(s.entries[k], now, expireAfter)
    ensures var r := Put(s, key, value, now, expireAfter, maxSize);
            && (|s.writeOrder| < maxSize ==>
                  r.writeOrder == s.writeOrder + [key] && r.entries == s.entries[key := Entry(value, now)])
            && (|s.writeOrder| == maxSize > 0 ==>
                  && r.writeOrder == s.writeOrder[1..] + [key]
                  && r.entries == s.entries[key := Entry(value, now)] - {s.writeOrder[0]})
  {
    PutNewKeyIsAppend(s, key, value, now, expireAfter, maxSize);
    EvictAfterAppend(s.entries, s.writeOrder, key, Entry(value, now), maxSize);
  }

  /** The second write of the scenario below: room is left, so the key is
      appended. */
  lemma SecondWrite(s1: Store, a: string, b: string, va: string, vb: string, t0: int, t1: int, expireAfter: nat)
    requires a != b && t0 <= t1 && t1 - t0 < expireAfter
    requires s1.writeOrder == [a] && s1.entries == map[a := Entry(va, t0)]
    ensures Put(s1, b, vb, t1, expireAfter, 2).writeOrder == [a, b]
    ensures Put(s1, b, vb, t1, expireAfter, 2).entries == map[a := Entry(va, t0), b := Entry(vb, t1)]
  {
    assert forall k :: k in s1.entries ==> k == a;
    assert !IsExpired(s1.entries[a], t1, expireAfter);
    PutNewKeyWhileLive(s1, b, vb, t1, expireAfter, 2);
    assert s1.writeOrder + [b] == [a, b];
  }

  /** The third write of the scenario below: the cache is full, so the
      oldest write goes. */
  lemma ThirdWrite(s2: Store, a: string, b: string, c: string, va: string, vb: string, vc: string,
                   t0: int, t1: int, t2: int, expireAfter: nat)
    requires a != b && b != c && a != c && t0 <= t1 <= t2 && t2 - t0 < expireAfter
    requires s2.writeOrder == [a, b] && s2.entries == map[a := Entry(va, t0), b := Entry(vb, t1)]
    ensures var r := Put(s2, c, vc, t2, expireAfter, 2);
            a !in r.entries && b in r.entries && c in r.entries
            && r.entries[b] == Entry(vb, t1) && r.entries[c] == Entry(vc, t2)
  {
    assert forall k :: k in s2.entries ==> k == a || k == b;
    assert !IsExpired(s2.entries[a], t2, expireAfter) && !IsExpired(s2.entries[b], t2, expireAfter);
    PutNewKeyWhileLive(s2, c, vc, t2, expireAfter, 2);
    assert s2.writeOrder[0] == a;
  }

  /** With room for two entries, three writes of distinct keys in order and
      no expiry in between, the first-written key is gone and the other two
      remain. */
  lemma EvictionByWriteOrder(a: string, b: string, c: string, va: string, vb: string, vc: string,
                             t0: int, t1: int, t2: int, later: int, expireAfter: nat)
    requires a != b && b != c && a != c
    requires t0 <= t1 <= t2 <= later && later - t0 < expireAfter
    ensures var s := Put(Put(Put(EmptyStore, a, va, t0, expireAfter, 2), b, vb, t1, expireAfter, 2), c, vc, t2, expireAfter, 2);
            && Lookup(s, a, later, expireAfter) == None
            && Lookup(s, b, later, expireAfter) == Some(vb)
            && Lookup(s, c, later, expireAfter) == Some(vc)
  {
    PutNewKeyWhileLive(EmptyStore, a, va, t0, expireAfter, 2);
    var s1 := Put(EmptyStore, a, va, t0, expireAfter, 2);
    SecondWrite(s1, a, b, va, vb, t0, t1, expireAfter);
    var s2 := Put(s1, b, vb, t1, expireAfter, 2);
    ThirdWrite(s2, a, b, c, va, vb, vc, t0, t1, t2, expireAfter);
  }

  /** Pairs whose keys collide share one entry: what is put under
      ("a-b", "c") is read back under ("a", "b-c"). */
  lemma CollidingPairsShareEntry(s: Store, value: string, now: int, expireAfter: nat, maxSize: nat, later: int)
    requires maxSize >= 1 && later - now < expireAfter
    ensures Lookup(Put(s, GenerateKey("a-b", "c"), value, now, expireAfter, maxSize),
                   GenerateKey("a", "b-c"), later, expireAfter) == Some(value)
  {
    KeyCollision();
    PutThenGet(s, GenerateKey("a-b", "c"), value, now, expireAfter, maxSize, later);
  }

  // ---------------------------------------------------------------------
  // The cache object
  // ---------------------------------------------------------------------

  /** `BroadbandCache`: a cache configured with an expiry time and a maximum
      number of entries.  Its state is the store above, held in two fields
      that the operations reassign. */
  class BroadbandCache {
    const expireAfter: nat
    const maxSize: nat
    var entries: map<string, Entry>
    var writeOrder: seq<string>

    /** The current contents as a store value. */
    function Contents(): Store
      reads this
    {
      Store(entries, writeOrder)
    }

    ghost predicate Valid()
      reads this
    {
      WellFormed(Contents(), maxSize)
    }

    /** A cache that expires entries `timeAmount` time units after their
        write and holds at most `maxSize` of them, initially empty. */
    constructor(timeAmount: nat, maxSize: nat)
      ensures Valid() && Contents() == EmptyStore
      ensures expireAfter == timeAmount && this.maxSize == maxSize
    {
      expireAfter := timeAmount;
      this.maxSize := maxSize;
      entries := map[];
      writeOrder := [];
    }

    /** `putData`: fails on an empty state code, county or payload and then
        changes nothing; otherwise puts the payload under the pair's key. */
    method PutData(stateCode: string, county: string, data: string, now: int) returns (r: Outcome<CacheError>)
      requires Valid()
      modifies this
      ensures Valid()
      ensures r.Fail? <==> stateCode == "" || county == "" || data == ""
      ensures r.Fail? ==> r.error == EmptyArgument && Contents() == old(Contents())
      ensures r.Pass? ==> Contents() == Put(old(Contents()), GenerateKey(stateCode, county), data, now, expireAfter, maxSize)
    {
      if stateCode == "" || county == "" || data == "" {
        return Fail(EmptyArgument);
      }
      var key := GenerateKey(stateCode, county);
      PutPreservesWellFormed(Contents(), key, data, now, expireAfter, maxSize);
      var next := Put(Contents(), key, data, now, expireAfter, maxSize);
      entries := next.entries;
      writeOrder := next.writeOrder;
      r := Pass;
    }

    /** `getData`: fails on an empty state code or county; otherwise the
        live payload under the pair's key, if any. */
    method GetData(stateCode: string, county: string, now: int) returns (r: Result<Option<string>, CacheError>)
      ensures r.Err? <==> stateCode == "" || county == ""
      ensures r.Err? ==> r.error == EmptyArgument
      ensures r.Ok? ==> r.value == Lookup(Contents(), GenerateKey(stateCode, county), now, expireAfter)
    {
      if stateCode == "" || county == "" {
        return Err(EmptyArgument);
      }
      r := Ok(Lookup(Contents(), GenerateKey(stateCode, county), now, expireAfter));
    }

    /** `invalidateAll`: every entry is discarded. */
    method InvalidateAll()
      modifies this
      ensures Valid() && Contents() == EmptyStore
    {
      entries := map[];
      writeOrder := [];
    }
  }

  // ---------------------------------------------------------------------
  // Uses of the cache object
  // ---------------------------------------------------------------------

  /** A cache of two entries written with three pairs at one instant keeps
      the last two and has evicted the first. */
  method EvictionBySize(data: string, now: int)
    returns (first: Result<Option<string>, CacheError>, second: Result<Option<string>, CacheError>,
             third: Result<Option<string>, CacheError>)
    requires data != ""
    ensures first == Ok(None) && second == Ok(Some(data)) && third == Ok(Some(data))
  {
    var ca, ny, tx := GenerateKey("CA", "001"), GenerateKey("NY", "001"), GenerateKey("TX", "001");
    assert ca == "CA-001" && ny == "NY-001" && tx == "TX-001";
    var cache := new BroadbandCache(1, 2);
    var _ := cache.PutData("CA", "001", data, now);
    var _ := cache.PutData("NY", "001", data, now);
    var _ := cache.PutData("TX", "001", data, now);
    assert cache.Contents() == Put(Put(Put(EmptyStore, ca, data, now, 1, 2), ny, data, now, 1, 2), tx, data, now, 1, 2);
    EvictionByWriteOrder(ca, ny, tx, data, data, data, now, now, now, now, 1);
    first := cache.GetData("CA", "001", now);
    second := cache.GetData("NY", "001", now);
    third := cache.GetData("TX", "001", now);
  }

  /** A payload is read back before its time runs out and not after. */
  method ReadBeforeAndAfterExpiry(data: string, now: int)
    returns (live: Result<Option<string>, CacheError>, expired: Result<Option<string>, CacheError>)
    requires data != ""
    ensures live == Ok(Some(data)) && expired == Ok(None)
  {
    var key := GenerateKey("CA", "001");
    var cache := new BroadbandCache(1, 2);
    var _ := cache.PutData("CA", "001", data, now);
    assert cache.Contents() == Put(EmptyStore, key, data, now, 1, 2);
    PutThenGet(EmptyStore, key, data, now, 1, 2, now);
    PutThenGet(EmptyStore, key, data, now, 1, 2, now + 2);
    live := cache.GetData("CA", "001", now);
    expired := cache.GetData("CA", "001", now + 2);
  }

  /** A second put replaces the payload, empty arguments fail, and nothing is
      read after the cache is cleared. */
  method OverwriteAndClear(initial: string, replacement: string, now: int)
    returns (overwritten: Result<Option<string>, CacheError>, cleared: Result<Option<string>, CacheError>,
             emptyPut: Outcome<CacheError>, emptyGet: Result<Option<string>, CacheError>)
    requires initial != "" && replacement != ""
    ensures overwritten == Ok(Some(replacement)) && cleared == Ok(None)
    ensures emptyPut == Fail(EmptyArgument) && emptyGet == Err(EmptyArgument)
  {
    var key := GenerateKey("CA", "001");
    var cache := new BroadbandCache(1, 2);
    var _ := cache.PutData("CA", "001", initial, now);
    var before := cache.Contents();
    var _ := cache.PutData("CA", "001", replacement, now);
    assert cache.Contents() == Put(before, key, replacement, now, 1, 2);
    PutThenGet(before, key, replacement, now, 1, 2, now);
    overwritten := cache.GetData("CA", "001", now);
    emptyPut := cache.PutData("", "001", replacement, now);
    emptyGet := cache.GetData("CA", "", now);
    cache.InvalidateAll();
    cleared := cache.GetData("CA", "001", now);
  }
}
