/**
 * The path cache of the path finder (PathCache.cs): found paths keyed by start cell, end
 * cell and unit footprint, each stamped with the time it was stored or last read. An
 * entry lives for a fixed lifetime; a full cache evicts its oldest entry before storing,
 * and lowering the capacity evicts oldest entries until the cache fits. Unity's
 * `Time.time` is the parameter `now`.
 */
module PathCaching {
  import opened Options
  import opened Seqs
  import opened Scans
  import opened Cells

  // ---------------------------------------------------------------------------
  // PathCacheKey

  datatype PathCacheKey = PathCacheKey(StartX: int, StartZ: int, EndX: int, EndZ: int,
                                       UnitWidth: int, UnitHeight: int)

  /** default(PathCacheKey): every field 0. */
  const DefaultKey := PathCacheKey(0, 0, 0, 0, 0, 0)

  /**
   * Equals(object): `None` stands for an argument that is not a PathCacheKey (null or
   * another type); a key is compared field by field.
   */
  function Equals(k: PathCacheKey, obj: Option<PathCacheKey>): bool
  {
    match obj
    case None => false
    case Some(other) =>
      k.StartX == other.StartX && k.StartZ == other.StartZ &&
      k.EndX == other.EndX && k.EndZ == other.EndZ &&
      k.UnitWidth == other.UnitWidth && k.UnitHeight == other.UnitHeight
  }

  /** C#'s unchecked 32-bit signed arithmetic: the value brought into [-2^31, 2^31). */
  function Wrap(x: int): (r: int)
    ensures -0x8000_0000 <= r < 0x8000_0000
    ensures (r - x) % 0x1_0000_0000 == 0
  {
    (x + 0x8000_0000) % 0x1_0000_0000 - 0x8000_0000
  }

  /** One round of the hash: hash * 31 + field, wrapping around. */
  function Mix(hash: int, field: int): int
  {
    Wrap(hash * 31 + field)
  }

  /** GetHashCode: 17, mixed with the six fields in declaration order. */
  function HashCode(k: PathCacheKey): (h: int)
    ensures -0x8000_0000 <= h < 0x8000_0000
  {
    Mix(Mix(Mix(Mix(Mix(Mix(17, k.StartX), k.StartZ), k.EndX), k.EndZ), k.UnitWidth), k.UnitHeight)
  }

  /** Equals holds exactly for a key with the same six fields. */
  lemma EqualsIff(k: PathCacheKey, obj: Option<PathCacheKey>)
    ensures Equals(k, obj) <==> obj == Some(k)
  {
  }

  /** Keys that are Equal have equal hash codes, as the dictionary needs. */
  lemma EqualKeysEqualHash(a: PathCacheKey, b: PathCacheKey)
    requires Equals(a, Some(b))
    ensures HashCode(a) == HashCode(b)
  {
    EqualsIff(a, Some(b));
  }

  /**
   * The hash does not tell keys apart: a unit 1 wide and 0 high and a unit 0 wide and 31
   * high on the same route collide, so the dictionary relies on Equals.
   */
  lemma HashCollides(h: int)
    requires h == Mix(Mix(Mix(Mix(17, 0), 0), 0), 0)
    ensures var a, b := PathCacheKey(0, 0, 0, 0, 1, 0), PathCacheKey(0, 0, 0, 0, 0, 31);
      !Equals(a, Some(b)) && HashCode(a) == HashCode(b)
  {
    var a, b := PathCacheKey(0, 0, 0, 0, 1, 0), PathCacheKey(0, 0, 0, 0, 0, 31);
    assert HashCode(a) == Mix(Mix(h, 1), 0);
    assert HashCode(b) == Mix(Mix(h, 0), 31);
    WrapMix(h * 31 + 1);
  }

  /** Wrapping before the next round does not change it: (h * 31 + 1) * 31 == h * 31 * 31 + 31. */
  lemma WrapMix(x: int)
    ensures Mix(Wrap(x), 0) == Mix(Wrap(x - 1), 31)
  {
    var w, v := Wrap(x), Wrap(x - 1);
    assert (w - x) % 0x1_0000_0000 == 0 && (v - (x - 1)) % 0x1_0000_0000 == 0;
    var p, q := (w - x) / 0x1_0000_0000, (v - x + 1) / 0x1_0000_0000;
    assert w * 31 - (v * 31 + 31) == (p - q) * 31 * 0x1_0000_0000;
    WrapCongruent(w * 31, v * 31 + 31, (p - q) * 31);
  }

  lemma WrapCongruent(x: int, y: int, n: int)
    requires x - y == n * 0x1_0000_0000
    ensures Wrap(x) == Wrap(y)
  {
    assert x + 0x8000_0000 == (y + 0x8000_0000) + n * 0x1_0000_0000;
  }

  // ---------------------------------------------------------------------------
  // Cache entries

  /**
   * PathCacheItem: the path (the cells, by reference), the time it was stored or last
   * read, and its cost.
   */
  datatype PathCacheItem = PathCacheItem(Path: seq<Grid>, Timestamp: real, Cost: real)

  /**
   * The dictionary's contents: the entries by key, and the order in which the dictionary
   * enumerates its keys.
   */
  datatype Entries = Entries(items: map<PathCacheKey, PathCacheItem>, order: seq<PathCacheKey>)

  /**
   * The enumeration order lists every key once, and every timestamp is a time, below
   * float.MaxValue.
   */
  ghost predicate WellFormed(s: Entries)
  {
    Distinct(s.order) && (forall k :: k in s.items <==> k in s.order) &&
    (forall k :: k in s.items ==> s.items[k].Timestamp < FloatMax)
  }

  ghost predicate Listed(s: Entries)
  {
    forall k :: k in s.order ==> k in s.items
  }

  /** The timestamps in enumeration order. */
  function Timestamps(order: seq<PathCacheKey>, items: map<PathCacheKey, PathCacheItem>): (r: seq<real>)
    requires forall k :: k in order ==> k in items
    ensures |r| == |order|
    ensures forall j :: 0 <= j < |r| ==> r[j] == items[order[j]].Timestamp
  {
    if |order| == 0 then []
    else
      var p := order[..|order|-1];
      assert forall k :: k in p ==> k in order;
      Timestamps(p, items) + [items[order[|order|-1]].Timestamp]
  }

  /** The position RemoveOldestPath's scan settles on, or -1 when it keeps float.MaxValue. */
  function OldestIndex(s: Entries): (r: int)
    requires Listed(s)
    ensures -1 <= r < |s.order|
  {
    Pick(FloatMax, Timestamps(s.order, s.items))
  }

  /** RemoveOldestPath on values: the entry the scan settles on is removed, if any. */
  function EvictOldest(s: Entries): Entries
    requires Listed(s)
  {
    var i := OldestIndex(s);
    if i == -1 then s
    else Entries(s.items - {s.order[i]}, Without(s.order, s.order[i]))
  }

  /**
   * The foreach of RemoveOldestPath: the first strictly smallest timestamp below
   * float.MaxValue and its key, or float.MaxValue and default(PathCacheKey) when none is.
   */
  method OldestScan(keys: seq<PathCacheKey>, items: map<PathCacheKey, PathCacheItem>)
    returns (oldestKey: PathCacheKey, oldestTime: real)
    requires Listed(Entries(items, keys))
    ensures var i := OldestIndex(Entries(items, keys));
      (i == -1 ==> oldestTime == FloatMax && oldestKey == DefaultKey) &&
      (i != -1 ==> oldestTime == items[keys[i]].Timestamp < FloatMax && oldestKey == keys[i])
  {
    ghost var ts := Timestamps(keys, items);
    PickMinimal(FloatMax, ts);
    oldestKey, oldestTime := DefaultKey, FloatMax;
    var k := 0;
    while k < |keys|
      invariant 0 <= k <= |keys|
      invariant var i := Pick(FloatMax, ts[..k]);
        oldestTime == PickedCost(FloatMax, ts[..k]) &&
        (i == -1 ==> oldestKey == DefaultKey) && (i != -1 ==> oldestKey == keys[i])
    {
      PickExtend(FloatMax, ts, k);
      var key := keys[k];
      if items[key].Timestamp < oldestTime {
        oldestTime := items[key].Timestamp;
        oldestKey := key;
      }
      k := k + 1;
    }
    assert ts[..k] == ts;
  }

  /** The dictionary has one key per position of the enumeration order. */
  lemma SizeMatches(s: Entries)
    requires WellFormed(s)
    ensures |s.items| == |s.order|
  {
    DistinctCardinality(s.order);
    assert s.items.Keys == Elems(s.order);
  }

  /**
   * RemoveOldestPath leaves an empty cache alone; otherwise it removes one entry, one
   * whose timestamp is minimal and the first such in enumeration order, and keeps every
   * other entry and their order.
   */
  lemma EvictOldestProperties(s: Entries)
    requires WellFormed(s)
    ensures WellFormed(EvictOldest(s))
    ensures |s.order| == 0 ==> EvictOldest(s) == s
    ensures |s.order| > 0 ==> var i := OldestIndex(s); var o := s.order[i];
      0 <= i && EvictOldest(s).items == s.items - {o} &&
      EvictOldest(s).order == s.order[..i] + s.order[i+1..] &&
      (forall k :: k in s.items ==> s.items[o].Timestamp <= s.items[k].Timestamp) &&
      (forall j :: 0 <= j < i ==> s.items[o].Timestamp < s.items[s.order[j]].Timestamp)
    ensures |EvictOldest(s).order| == if |s.order| == 0 then 0 else |s.order| - 1
  {
    if |s.order| > 0 {
      OldestFound(s);
      OldestMinimal(s);
      EvictShape(s);
    }
  }

  /** A non-empty cache always has an oldest entry, since every timestamp is below float.MaxValue. */
  lemma OldestFound(s: Entries)
    requires WellFormed(s) && |s.order| > 0
    ensures var i := OldestIndex(s);
      0 <= i &&
      (forall j :: 0 <= j < |s.order| ==> s.items[s.order[i]].Timestamp <= s.items[s.order[j]].Timestamp) &&
      (forall j :: 0 <= j < i ==> s.items[s.order[i]].Timestamp < s.items[s.order[j]].Timestamp)
  {
    var ts := Timestamps(s.order, s.items);
    PickMinimal(FloatMax, ts);
    assert ts[0] == s.items[s.order[0]].Timestamp;
  }

  lemma OldestMinimal(s: Entries)
    requires WellFormed(s) && |s.order| > 0 && 0 <= OldestIndex(s)
    requires forall j :: 0 <= j < |s.order| ==>
      s.items[s.order[OldestIndex(s)]].Timestamp <= s.items[s.order[j]].Timestamp
    ensures forall k :: k in s.items ==> s.items[s.order[OldestIndex(s)]].Timestamp <= s.items[k].Timestamp
  {
    forall k | k in s.items ensures s.items[s.order[OldestIndex(s)]].Timestamp <= s.items[k].Timestamp {
      assert k in s.order;
      var j :| 0 <= j < |s.order| && s.order[j] == k;
    }
  }

  lemma EvictShape(s: Entries)
    requires WellFormed(s) && 0 <= OldestIndex(s)
    ensures var i := OldestIndex(s); var o := s.order[i];
      WellFormed(EvictOldest(s)) &&
      EvictOldest(s).items == s.items - {o} &&
      EvictOldest(s).order == s.order[..i] + s.order[i+1..] &&
      |EvictOldest(s).order| == |s.order| - 1
  {
    var i := OldestIndex(s);
    var o := s.order[i];
    WithoutAt(s.order, i);
    WithoutDistinct(s.order, o);
    WithoutMembers(s.order, o);
  }

  /** Storing an entry: a new key goes to the end of the enumeration order. */
  function Put(s: Entries, key: PathCacheKey, item: PathCacheItem): Entries
  {
    Entries(s.items[key := item], if key in s.items then s.order else s.order + [key])
  }

  /** AddPath on values: a full cache first evicts its oldest entry. */
  function Added(s: Entries, maxCacheSize: int, key: PathCacheKey, item: PathCacheItem): Entries
    requires Listed(s)
  {
    Put(if |s.items| >= maxCacheSize then EvictOldest(s) else s, key, item)
  }

  /**
   * After AddPath the key holds the new item and the cache is well formed. A cache that
   * was below capacity keeps all its entries; a full one loses exactly one oldest entry
   * (evicted even when the key was already present). A capacity of at least 1 that held
   * before holds after.
   */
  lemma AddedProperties(s: Entries, maxCacheSize: int, key: PathCacheKey, item: PathCacheItem)
    requires WellFormed(s) && item.Timestamp < FloatMax
    ensures var r := Added(s, maxCacheSize, key, item);
      WellFormed(r) && key in r.items && r.items[key] == item
    ensures var r := Added(s, maxCacheSize, key, item);
      |s.items| < maxCacheSize ==> forall k :: k in s.items && k != key ==> k in r.items && r.items[k] == s.items[k]
    ensures var r := Added(s, maxCacheSize, key, item);
      |s.items| >= maxCacheSize && |s.items| > 0 ==>
        var o := s.order[OldestIndex(s)];
        (forall k :: k in s.items ==> s.items[o].Timestamp <= s.items[k].Timestamp) &&
        (o != key ==> o !in r.items) &&
        (forall k :: k in s.items && k != o && k != key ==> k in r.items && r.items[k] == s.items[k])
    ensures 1 <= maxCacheSize && |s.items| <= maxCacheSize ==> |Added(s, maxCacheSize, key, item).items| <= maxCacheSize
  {
    SizeMatches(s);
    EvictOldestProperties(s);
    if |s.items| >= maxCacheSize {
      AddedFull(s, key, item);
    } else {
      PutProperties(s, key, item);
    }
  }

  /** A full cache: the oldest entry is evicted, then the item is put. */
  lemma AddedFull(s: Entries, key: PathCacheKey, item: PathCacheItem)
    requires WellFormed(s) && item.Timestamp < FloatMax && WellFormed(EvictOldest(s))
    requires |EvictOldest(s).order| == if |s.order| == 0 then 0 else |s.order| - 1
    ensures var r := Put(EvictOldest(s), key, item);
      WellFormed(r) && |r.items| <= if |s.items| == 0 then 1 else |s.items|
  {
    var e := EvictOldest(s);
    SizeMatches(s);
    SizeMatches(e);
    PutProperties(e, key, item);
  }

  lemma PutProperties(s: Entries, key: PathCacheKey, item: PathCacheItem)
    requires WellFormed(s) && item.Timestamp < FloatMax
    ensures WellFormed(Put(s, key, item))
    ensures |Put(s, key, item).items| == |s.items| + (if key in s.items then 0 else 1)
  {
    SizeMatches(s);
    if key !in s.items {
      DistinctAppend(s.order, key);
    }
    SizeMatches(Put(s, key, item));
  }

  /** GetPath on values: the path it returns and the entries afterwards. */
  function Fetch(s: Entries, key: PathCacheKey, now: real, lifetime: real): (Option<seq<Grid>>, Entries)
  {
    if key !in s.items then (None, s)
    else if now - s.items[key].Timestamp < lifetime then
      (Some(s.items[key].Path), Entries(s.items[key := s.items[key].(Timestamp := now)], s.order))
    else (None, Entries(s.items - {key}, Without(s.order, key)))
  }

  /**
   * GetPath returns an entry's path exactly when the key is present and younger than the
   * lifetime, and then stamps it with `now`; an expired entry is removed; the cache stays
   * well formed.
   */
  lemma FetchProperties(s: Entries, key: PathCacheKey, now: real, lifetime: real)
    requires WellFormed(s) && now < FloatMax
    ensures var (r, t) := Fetch(s, key, now, lifetime);
      WellFormed(t) &&
      ((r != None) <==> key in s.items && now - s.items[key].Timestamp < lifetime) &&
      (r != None ==> r == Some(s.items[key].Path) && t.items[key].Timestamp == now &&
                     t.items.Keys == s.items.Keys) &&
      (key !in s.items ==> t == s) &&
      (key in s.items && r == None ==> t.items == s.items - {key})
  {
    if key in s.items && !(now - s.items[key].Timestamp < lifetime) {
      WithoutDistinct(s.order, key);
      WithoutMembers(s.order, key);
    }
  }

  /** A path just stored is found again at once when the lifetime is positive. */
  lemma AddThenFetch(s: Entries, maxCacheSize: int, key: PathCacheKey, path: seq<Grid>, cost: real,
                     now: real, lifetime: real)
    requires WellFormed(s) && now < FloatMax && lifetime > 0.0
    ensures Fetch(Added(s, maxCacheSize, key, PathCacheItem(path, now, cost)), key, now, lifetime).0 == Some(path)
  {
    AddedProperties(s, maxCacheSize, key, PathCacheItem(path, now, cost));
  }

  /** The keys whose entries have lived at least the lifetime. */
  function ExpiredKeys(s: Entries, now: real, lifetime: real): set<PathCacheKey>
  {
    set k | k in s.items && now - s.items[k].Timestamp >= lifetime
  }

  /** ClearExpiredCache on values. */
  function Expire(s: Entries, now: real, lifetime: real): Entries
  {
    var x := ExpiredKeys(s, now, lifetime);
    Entries(s.items - x, FilterOut(s.order, x))
  }

  /**
   * ClearExpiredCache removes exactly the entries with now - timestamp >= lifetime, keeps
   * the others unchanged and in order, and keeps the cache well formed.
   */
  lemma ExpireProperties(s: Entries, now: real, lifetime: real)
    requires WellFormed(s)
    ensures WellFormed(Expire(s, now, lifetime))
    ensures forall k :: k in Expire(s, now, lifetime).items <==> k in s.items && now - s.items[k].Timestamp < lifetime
    ensures forall k :: k in Expire(s, now, lifetime).items ==> Expire(s, now, lifetime).items[k] == s.items[k]
  {
    var x := ExpiredKeys(s, now, lifetime);
    FilterOutDistinct(s.order, x);
    FilterOutMembers(s.order, x);
  }

  /** The first foreach of ClearExpiredCache: the expired keys, in enumeration order. */
  method CollectExpired(keys: seq<PathCacheKey>, items: map<PathCacheKey, PathCacheItem>, now: real, lifetime: real)
    returns (keysToRemove: seq<PathCacheKey>)
    requires Listed(Entries(items, keys))
    ensures keysToRemove == Select(keys, ExpiredKeys(Entries(items, keys), now, lifetime))
  {
    ghost var x := ExpiredKeys(Entries(items, keys), now, lifetime);
    keysToRemove := [];
    var i := 0;
    while i < |keys|
      invariant 0 <= i <= |keys|
      invariant keysToRemove == Select(keys[..i], x)
    {
      FilterOutSelectStep(keys, i, x);
      if now - items[keys[i]].Timestamp >= lifetime {
        keysToRemove := keysToRemove + [keys[i]];
      }
      i := i + 1;
    }
    assert keys[..i] == keys;
  }

  /** The expired keys listed in enumeration order are exactly the expired keys. */
  lemma ExpiredListed(s: Entries, now: real, lifetime: real)
    requires WellFormed(s)
    ensures Elems(Select(s.order, ExpiredKeys(s, now, lifetime))) == ExpiredKeys(s, now, lifetime)
  {
    SelectMembers(s.order, ExpiredKeys(s, now, lifetime));
  }

  /** One round of RemoveKeys: removing keys[j] extends the removed prefix by one. */
  lemma RemoveStep(items: map<PathCacheKey, PathCacheItem>, order: seq<PathCacheKey>, keys: seq<PathCacheKey>, j: nat,
                   items': map<PathCacheKey, PathCacheItem>, order': seq<PathCacheKey>)
    requires j < |keys| && items' == items - Elems(keys[..j]) && order' == FilterOut(order, Elems(keys[..j]))
    ensures items' - {keys[j]} == items - Elems(keys[..j+1])
    ensures Without(order', keys[j]) == FilterOut(order, Elems(keys[..j+1]))
  {
    WithoutFilterOut(order, Elems(keys[..j]), keys[j]);
    assert Elems(keys[..j+1]) == Elems(keys[..j]) + {keys[j]} by {
      assert keys[..j+1] == keys[..j] + [keys[j]];
    }
  }

  /** The second foreach of ClearExpiredCache: Remove of each listed key in turn. */
  method RemoveKeys(items: map<PathCacheKey, PathCacheItem>, order: seq<PathCacheKey>, keys: seq<PathCacheKey>)
    returns (items': map<PathCacheKey, PathCacheItem>, order': seq<PathCacheKey>)
    ensures items' == items - Elems(keys) && order' == FilterOut(order, Elems(keys))
  {
    items', order' := items, order;
    FilterOutNone(order, {});
    assert Elems(keys[..0]) == {};
    assert items' == items - {};
    var j := 0;
    while j < |keys|
      invariant 0 <= j <= |keys|
      invariant items' == items - Elems(keys[..j]) && order' == FilterOut(order, Elems(keys[..j]))
    {
      var key := keys[j];
      RemoveStep(items, order, keys, j, items', order');
      items' := items' - {key};
      order' := Without(order', key);
      j := j + 1;
    }
    assert keys[..j] == keys;
  }

  /** SetMaxCacheSize on values: evict the oldest entry until at most `m` are left. */
  function Trim(s: Entries, m: nat): (r: Entries)
    requires WellFormed(s)
    ensures WellFormed(r)
    decreases |s.order|
  {
    SizeMatches(s);
    if |s.items| <= m then s
    else
      EvictOldestProperties(s);
      Trim(EvictOldest(s), m)
  }

  /** One round of SetMaxCacheSize's loop: an over-full cache evicts its oldest entry. */
  lemma TrimStep(s: Entries, m: nat)
    requires WellFormed(s) && |s.items| > m
    ensures WellFormed(EvictOldest(s)) && |EvictOldest(s).order| < |s.order|
    ensures Trim(s, m) == Trim(EvictOldest(s), m)
  {
    SizeMatches(s);
    EvictOldestProperties(s);
  }

  /** SetMaxCacheSize's loop stops once the cache fits. */
  lemma TrimStop(s: Entries, m: nat)
    requires WellFormed(s) && |s.items| <= m
    ensures Trim(s, m) == s
  {
    SizeMatches(s);
  }

  /**
   * Trimming leaves at most `m` entries, changes nothing when there are no more than `m`,
   * keeps a subset of the entries unchanged, and evicts oldest first: no kept entry is
   * older than an evicted one.
   */
  lemma {:induction false} TrimProperties(s: Entries, m: nat)
    requires WellFormed(s)
    ensures |Trim(s, m).items| <= m
    ensures |s.items| <= m ==> Trim(s, m) == s
    ensures forall k :: k in Trim(s, m).items ==> k in s.items && Trim(s, m).items[k] == s.items[k]
    ensures forall k, g :: k in Trim(s, m).items && g in s.items && g !in Trim(s, m).items ==>
      s.items[g].Timestamp <= s.items[k].Timestamp
    decreases |s.order|
  {
    SizeMatches(s);
    if |s.items| > m {
      var e := EvictOldest(s);
      EvictOldestProperties(s);
      SizeMatches(e);
      TrimProperties(e, m);
      var o := s.order[OldestIndex(s)];
      var r := Trim(s, m);
      assert r == Trim(e, m);
      forall k, g | k in r.items && g in s.items && g !in r.items
        ensures s.items[g].Timestamp <= s.items[k].Timestamp
      {
        if g != o {
          assert g in e.items;
        }
      }
    }
  }

  // ---------------------------------------------------------------------------
  // PathCache

  class PathCache {
    var cache: map<PathCacheKey, PathCacheItem>
    var order: seq<PathCacheKey>
    var maxCacheSize: int
    var cacheLifetime: real

    function Contents(): Entries
      reads this
    {
      Entries(cache, order)
    }

    ghost predicate Valid()
      reads this
    {
      WellFormed(Contents())
    }

    /** new PathCache(maxCacheSize = 1000, cacheLifetime = 30): empty. */
    constructor (maxCacheSize: int := 1000, cacheLifetime: real := 30.0)
      ensures Valid() && cache == map[] && order == []
      ensures this.maxCacheSize == maxCacheSize && this.cacheLifetime == cacheLifetime
    {
      cache, order := map[], [];
      this.maxCacheSize, this.cacheLifetime := maxCacheSize, cacheLifetime;
    }

    /** CacheSize: the number of entries. */
    function CacheSize(): (n: nat)
      requires Valid()
      reads this
      ensures n == |order|
    {
      SizeMatches(Contents());
      |cache|
    }

    /** AddPath: evict the oldest entry when full, then store the path stamped `now`. */
    method AddPath(key: PathCacheKey, path: seq<Grid>, cost: real, now: real)
      requires Valid() && now < FloatMax
      modifies this
      ensures Valid()
      ensures Contents() == Added(old(Contents()), maxCacheSize, key, PathCacheItem(path, now, cost))
      ensures maxCacheSize == old(maxCacheSize) && cacheLifetime == old(cacheLifetime)
    {
      ghost var s := Contents();
      AddedProperties(s, maxCacheSize, key, PathCacheItem(path, now, cost));
      if |cache| >= maxCacheSize {
        RemoveOldestPath();
      }
      if key !in cache {
        order := order + [key];
      }
      cache := cache[key := PathCacheItem(path, now, cost)];
    }

    /**
     * GetPath: a live entry's path (a copy of the list, so the same cells), after
     * restamping it; an expired entry is dropped; a missing key gives null.
     */
    method GetPath(key: PathCacheKey, now: real) returns (r: Option<seq<Grid>>)
      requires Valid() && now < FloatMax
      modifies this
      ensures Valid()
      ensures (r, Contents()) == Fetch(old(Contents()), key, now, cacheLifetime)
      ensures maxCacheSize == old(maxCacheSize) && cacheLifetime == old(cacheLifetime)
    {
      FetchProperties(Contents(), key, now, cacheLifetime);
      if key in cache {
        var item := cache[key];
        if now - item.Timestamp < cacheLifetime {
          cache := cache[key := item.(Timestamp := now)];
          return Some(item.Path);
        } else {
          cache := cache - {key};
          order := Without(order, key);
        }
      }
      return None;
    }

    /**
     * RemoveOldestPath: scan the entries in enumeration order for the first strictly
     * smallest timestamp below float.MaxValue and remove that entry.
     */
    method RemoveOldestPath()
      requires Valid()
      modifies this
      ensures Valid()
      ensures Contents() == EvictOldest(old(Contents()))
      ensures maxCacheSize == old(maxCacheSize) && cacheLifetime == old(cacheLifetime)
    {
      EvictOldestProperties(Contents());
      var keys, items := order, cache;
      var oldestKey, oldestTime := OldestScan(keys, items);
      if oldestTime != FloatMax {
        cache := items - {oldestKey};
        order := Without(keys, oldestKey);
      }
    }

    /** ClearExpiredCache: collect the expired keys in enumeration order, then remove them. */
    method ClearExpiredCache(now: real)
      requires Valid()
      modifies this
      ensures Valid()
      ensures Contents() == Expire(old(Contents()), now, cacheLifetime)
      ensures maxCacheSize == old(maxCacheSize) && cacheLifetime == old(cacheLifetime)
    {
      ExpireProperties(Contents(), now, cacheLifetime);
      var keysToRemove := CollectExpired(order, cache, now, cacheLifetime);
      ExpiredListed(Contents(), now, cacheLifetime);
      cache, order := RemoveKeys(cache, order, keysToRemove);
    }

    /** ClearAllCache: no entries left. */
    method ClearAllCache()
      modifies this
      ensures Valid() && cache == map[] && order == []
      ensures maxCacheSize == old(maxCacheSize) && cacheLifetime == old(cacheLifetime)
    {
      cache, order := map[], [];
    }

    /**
     * SetMaxCacheSize: store the new capacity and evict oldest entries until the cache
     * fits. With a negative capacity the loop would spin forever on an empty cache, so
     * the capacity must be at least 0.
     */
    method SetMaxCacheSize(maxSize: int)
      requires Valid() && maxSize >= 0
      modifies this
      ensures Valid()
      ensures Contents() == Trim(old(Contents()), maxSize) && |cache| <= maxSize
      ensures maxCacheSize == maxSize && cacheLifetime == old(cacheLifetime)
    {
      ghost var target := Trim(Contents(), maxSize);
      maxCacheSize := maxSize;
      SizeMatches(Contents());
      while |cache| > maxCacheSize
        invariant Valid() && maxCacheSize == maxSize && cacheLifetime == old(cacheLifetime) && |cache| == |order|
        invariant Trim(Contents(), maxSize) == target
        decreases |order|
      {
        TrimStep(Contents(), maxSize);
        RemoveOldestPath();
        SizeMatches(Contents());
      }
      TrimStop(Contents(), maxSize);
    }

    /** SetCacheLifetime. */
    method SetCacheLifetime(lifetime: real)
      modifies this`cacheLifetime
      ensures cacheLifetime == lifetime
    {
      cacheLifetime := lifetime;
    }
  }
}
