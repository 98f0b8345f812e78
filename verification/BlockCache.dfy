/** The LRU-K block cache: blocks used fewer than `k` times in one list, the others in a
    second, both most recent first, and a map from (sst, block) to list nodes. */
module BlockCaches {
  import opened Keys

  type BlockKey = (nat, nat)

  // ----- the reference: a map that remembers how often and when

  /** A cached block, its accesses since it came in, and the time of the last one. */
  datatype Entry<B> = Entry(block: B, count: nat, stamp: nat)

  type Reference<B> = map<BlockKey, Entry<B>>

  /** LRU-K: the least recent block used fewer than `k` times, or else the least recent. */
  ghost predicate IsVictim<B>(m: Reference<B>, k: nat, v: BlockKey) {
    && v in m
    && if exists j :: j in m && m[j].count < k
       then m[v].count < k && forall j :: j in m && m[j].count < k ==> m[v].stamp <= m[j].stamp
       else forall j :: j in m ==> m[v].stamp <= m[j].stamp
  }

  ghost predicate DistinctStamps<B>(m: Reference<B>) {
    forall i, j :: i in m && j in m && m[i].stamp == m[j].stamp ==> i == j
  }

  lemma VictimUnique<B>(m: Reference<B>, k: nat, v: BlockKey, w: BlockKey)
    requires DistinctStamps(m) && IsVictim(m, k, v) && IsVictim(m, k, w)
    ensures v == w
  {
    assert m[v].stamp == m[w].stamp;
  }

  /** An access at time `now`. */
  ghost function Touched<B>(m: Reference<B>, key: BlockKey, block: B, now: nat): Reference<B>
    requires key in m
  {
    m[key := Entry(block, m[key].count + 1, now)]
  }

  /** A new block at time `now`, in the place of `victim` when the cache is full. */
  ghost function Admitted<B>(m: Reference<B>, capacity: nat, victim: BlockKey, key: BlockKey, block: B,
                             now: nat): Reference<B> {
    (if |m| >= capacity then m - {victim} else m)[key := Entry(block, 1, now)]
  }

  // ----- the cache

  datatype CacheItem<B> = CacheItem(key: BlockKey, block: B, count: nat)

  /** The list an iterator of the map points into; the node is the one with that key. */
  datatype Place = LessK | GreaterK

  /** `list` holds only keys placed there, each with its block and count, most recently
      used first. */
  ghost predicate Ordered<B>(list: seq<CacheItem<B>>, place: Place, m: Reference<B>, at: map<BlockKey, Place>) {
    && (forall i :: 0 <= i < |list| ==> list[i].key in m && list[i].key in at && at[list[i].key] == place)
    && (forall i :: 0 <= i < |list| ==> list[i].block == m[list[i].key].block && list[i].count == m[list[i].key].count)
    && (forall i, j :: 0 <= i < j < |list| ==> m[list[i].key].stamp > m[list[j].key].stamp)
  }

  /** `list` has a node for every key placed there. */
  ghost predicate Covers<B>(list: seq<CacheItem<B>>, place: Place, at: map<BlockKey, Place>) {
    forall key :: key in at && at[key] == place ==> exists i :: 0 <= i < |list| && list[i].key == key
  }

  ghost predicate Lists<B>(list: seq<CacheItem<B>>, place: Place, m: Reference<B>, at: map<BlockKey, Place>) {
    Ordered(list, place, m, at) && Covers(list, place, at)
  }

  /** The two lists and the map hold `m`, split at access count `k`. */
  ghost predicate Refines<B>(less: seq<CacheItem<B>>, greater: seq<CacheItem<B>>, at: map<BlockKey, Place>,
                             m: Reference<B>, k: nat) {
    && at.Keys == m.Keys
    && Lists(less, LessK, m, at) && Lists(greater, GreaterK, m, at)
    && (forall key :: key in m ==> m[key].count >= 1 && (at[key] == LessK <==> m[key].count < k))
    && DistinctStamps(m)
  }

  /** `list` without its node at `i`. */
  function Erase<T>(list: seq<T>, i: nat): (r: seq<T>)
    requires i < |list|
    ensures |r| == |list| - 1
    ensures forall j :: 0 <= j < i ==> r[j] == list[j]
    ensures forall j :: i <= j < |r| ==> r[j] == list[j + 1]
  {
    list[..i] + list[i + 1..]
  }

  lemma OrderedErased<B>(list: seq<CacheItem<B>>, place: Place, m: Reference<B>, at: map<BlockKey, Place>, i: nat)
    requires Ordered(list, place, m, at) && i < |list|
    ensures Ordered(Erase(list, i), place, m - {list[i].key}, at - {list[i].key})
  {
    var r, key0 := Erase(list, i), list[i].key;
    forall j | 0 <= j < |r| ensures r[j].key != key0 && r[j] == list[if j < i then j else j + 1] {
    }
  }

  lemma CoversErased<B>(list: seq<CacheItem<B>>, place: Place, at: map<BlockKey, Place>, i: nat)
    requires Covers(list, place, at) && i < |list|
    ensures Covers(Erase(list, i), place, at - {list[i].key})
  {
    var r, key0 := Erase(list, i), list[i].key;
    forall key | key in at - {key0} && at[key] == place ensures exists j :: 0 <= j < |r| && r[j].key == key {
      var j :| 0 <= j < |list| && list[j].key == key;
      assert r[if j < i then j else j - 1].key == key;
    }
  }

  lemma ListsErased<B>(list: seq<CacheItem<B>>, place: Place, m: Reference<B>, at: map<BlockKey, Place>, i: nat)
    requires Lists(list, place, m, at) && i < |list|
    ensures Lists(Erase(list, i), place, m - {list[i].key}, at - {list[i].key})
  {
    hide Ordered, Covers, Erase;
    OrderedErased(list, place, m, at, i);
    CoversErased(list, place, at, i);
  }

  lemma ListsElsewhere<B>(list: seq<CacheItem<B>>, place: Place, m: Reference<B>, at: map<BlockKey, Place>,
                          key0: BlockKey)
    requires Lists(list, place, m, at) && key0 in at && at[key0] != place
    ensures Lists(list, place, m - {key0}, at - {key0})
  {
  }

  /** Erasing the node of a key from its list and the key from the map. */
  lemma RefinesErased<B>(less: seq<CacheItem<B>>, greater: seq<CacheItem<B>>, at: map<BlockKey, Place>,
                         m: Reference<B>, k: nat, place: Place, i: nat)
    requires Refines(less, greater, at, m, k)
    requires i < |if place == LessK then less else greater|
    ensures var key0 := (if place == LessK then less else greater)[i].key;
            && key0 in m
            && Refines(if place == LessK then Erase(less, i) else less,
                       if place == LessK then greater else Erase(greater, i), at - {key0}, m - {key0}, k)
  {
    hide Lists, Erase;
    if place == LessK {
      InList(less, LessK, m, at, i);
      ListsErased(less, LessK, m, at, i);
      ListsElsewhere(greater, GreaterK, m, at, less[i].key);
    } else {
      InList(greater, GreaterK, m, at, i);
      ListsErased(greater, GreaterK, m, at, i);
      ListsElsewhere(less, LessK, m, at, greater[i].key);
    }
  }

  lemma InList<B>(list: seq<CacheItem<B>>, place: Place, m: Reference<B>, at: map<BlockKey, Place>, i: nat)
    requires Lists(list, place, m, at) && i < |list|
    ensures list[i].key in m && list[i].key in at && at[list[i].key] == place
    ensures m[list[i].key].block == list[i].block && m[list[i].key].count == list[i].count
  {
  }

  lemma ListsFront<B>(list: seq<CacheItem<B>>, place: Place, m: Reference<B>, at: map<BlockKey, Place>,
                      item: CacheItem<B>, stamp: nat)
    requires Lists(list, place, m, at) && at.Keys == m.Keys && item.key !in m
    requires forall key :: key in m ==> m[key].stamp < stamp
    ensures Lists([item] + list, place, m[item.key := Entry(item.block, item.count, stamp)], at[item.key := place])
  {
    var r, at' := [item] + list, at[item.key := place];
    forall key | key in at' && at'[key] == place ensures exists j :: 0 <= j < |r| && r[j].key == key {
      if key == item.key {
        assert r[0].key == key;
      } else {
        var j :| 0 <= j < |list| && list[j].key == key;
        assert r[j + 1].key == key;
      }
    }
  }

  lemma ListsGrown<B>(list: seq<CacheItem<B>>, place: Place, m: Reference<B>, at: map<BlockKey, Place>,
                      key0: BlockKey, e: Entry<B>, other: Place)
    requires Lists(list, place, m, at) && at.Keys == m.Keys && key0 !in m && other != place
    ensures Lists(list, place, m[key0 := e], at[key0 := other])
  {
  }

  /** Putting a node for a new key at the front of the list its count belongs to. */
  lemma RefinesFront<B>(less: seq<CacheItem<B>>, greater: seq<CacheItem<B>>, at: map<BlockKey, Place>,
                        m: Reference<B>, k: nat, item: CacheItem<B>, stamp: nat)
    requires Refines(less, greater, at, m, k) && item.key !in m && item.count >= 1
    requires forall key :: key in m ==> m[key].stamp < stamp
    ensures var place := if item.count < k then LessK else GreaterK;
            Refines(if item.count < k then [item] + less else less,
                    if item.count < k then greater else [item] + greater,
                    at[item.key := place], m[item.key := Entry(item.block, item.count, stamp)], k)
  {
    hide Lists;
    var e := Entry(item.block, item.count, stamp);
    if item.count < k {
      ListsFront(less, LessK, m, at, item, stamp);
      ListsGrown(greater, GreaterK, m, at, item.key, e, LessK);
    } else {
      ListsFront(greater, GreaterK, m, at, item, stamp);
      ListsGrown(less, LessK, m, at, item.key, e, GreaterK);
    }
  }

  /** The back of the first list, or of the second when that is empty, is the victim. */
  lemma BackIsVictim<B>(less: seq<CacheItem<B>>, greater: seq<CacheItem<B>>, at: map<BlockKey, Place>,
                        m: Reference<B>, k: nat)
    requires Refines(less, greater, at, m, k) && m != map[]
    ensures less == [] ==> greater != []
    ensures IsVictim(m, k, if less != [] then less[|less| - 1].key else greater[|greater| - 1].key)
  {
    var some :| some in m;
    forall j | j in m
      ensures at[j] == LessK ==> less != [] && m[less[|less| - 1].key].stamp <= m[j].stamp
      ensures at[j] == GreaterK ==> greater != [] && m[greater[|greater| - 1].key].stamp <= m[j].stamp
    {
      BackIsLeastRecent(less, LessK, m, at, j);
      BackIsLeastRecent(greater, GreaterK, m, at, j);
    }
    if less != [] {
      InList(less, LessK, m, at, |less| - 1);
    } else {
      InList(greater, GreaterK, m, at, |greater| - 1);
    }
  }

  lemma BackIsLeastRecent<B>(list: seq<CacheItem<B>>, place: Place, m: Reference<B>, at: map<BlockKey, Place>,
                             key: BlockKey)
    requires Lists(list, place, m, at) && key in m && key in at
    ensures at[key] == place ==>
        list != [] && list[|list| - 1].key in m && m[list[|list| - 1].key].stamp <= m[key].stamp
  {
    if at[key] == place {
      var i :| 0 <= i < |list| && list[i].key == key;
    }
  }

  lemma CountsSplit<B>(less: seq<CacheItem<B>>, greater: seq<CacheItem<B>>, at: map<BlockKey, Place>,
                       m: Reference<B>, k: nat, key: BlockKey)
    requires Refines(less, greater, at, m, k) && key in m
    ensures key in at && (at[key] == LessK <==> m[key].count < k)
  {
  }

  /** An access moves the node of `key` to the front of the list its count now belongs to. */
  lemma RefinesTouched<B>(less: seq<CacheItem<B>>, greater: seq<CacheItem<B>>, at: map<BlockKey, Place>,
                          m: Reference<B>, k: nat, place: Place, i: nat, block: B, now: nat)
    requires Refines(less, greater, at, m, k) && forall key :: key in m ==> m[key].stamp < now
    requires i < |if place == LessK then less else greater|
    ensures var item := (if place == LessK then less else greater)[i];
            var item' := CacheItem(item.key, block, item.count + 1);
            var less' := if place == LessK then Erase(less, i) else less;
            var greater' := if place == LessK then greater else Erase(greater, i);
            && item.key in m && m[item.key].block == item.block && m[item.key].count == item.count
            && at.Keys == m.Keys && at[item.key] == place
            && Refines(if item'.count < k then [item'] + less' else less',
                       if item'.count < k then greater' else [item'] + greater',
                       at[item.key := if item'.count < k then LessK else GreaterK], Touched(m, item.key, block, now), k)
  {
    hide Lists, DistinctStamps;
    var item := (if place == LessK then less else greater)[i];
    var key, item' := item.key, CacheItem(item.key, block, item.count + 1);
    InList(if place == LessK then less else greater, place, m, at, i);
    RefinesErased(less, greater, at, m, k, place, i);
    RefinesFront(if place == LessK then Erase(less, i) else less, if place == LessK then greater else Erase(greater, i),
                 at - {key}, m - {key}, k, item', now);
    var place' := if item'.count < k then LessK else GreaterK;
    assert (at - {key})[key := place'] == at[key := place'];
    assert (m - {key})[key := Entry(block, item'.count, now)] == Touched(m, key, block, now);
  }

  lemma TouchedKeys<B>(m: Reference<B>, key: BlockKey, block: B, now: nat)
    requires key in m && forall k :: k in m ==> m[k].stamp < now
    ensures var r := Touched(m, key, block, now);
            r.Keys == m.Keys && |r| == |m| && forall k :: k in r ==> r[k].stamp < now + 1
  {
    SameSize(Touched(m, key, block, now), m);
  }

  lemma SameSize<K, A, B>(a: map<K, A>, b: map<K, B>)
    requires a.Keys == b.Keys
    ensures |a| == |b|
  {
    assert |a.Keys| == |b.Keys|;
  }

  lemma OneLess<K, A>(m: map<K, A>, key: K)
    requires key in m
    ensures |m - {key}| == |m| - 1
  {
    assert (m - {key}).Keys == m.Keys - {key};
  }

  class BlockCache<B> {
    const capacity: nat
    const k: nat
    var lessK: seq<CacheItem<B>>
    var greaterK: seq<CacheItem<B>>
    var cacheMap: map<BlockKey, Place>
    var totalRequest: nat
    var hitRequests: nat
    /** What the cache means, and the time of the next access. */
    ghost var contents: Reference<B>
    ghost var now: nat

    ghost predicate Valid()
      reads this
    {
      && capacity >= 1 && k >= 2
      && Refines(lessK, greaterK, cacheMap, contents, k)
      && cacheMap.Keys == contents.Keys && |cacheMap| == |contents| <= capacity
      && (forall key :: key in contents ==> contents[key].stamp < now)
      && hitRequests <= totalRequest
    }

    constructor (capacity: nat, k: nat)
      requires capacity >= 1 && k >= 2
      ensures Valid() && contents == map[] && now == 0 && this.capacity == capacity && this.k == k
    {
      this.capacity, this.k := capacity, k;
      lessK, greaterK, cacheMap := [], [], map[];
      totalRequest, hitRequests, now, contents := 0, 0, 0, map[];
    }

    /** The position of `key`'s node in the list its iterator points into. */
    method Find(key: BlockKey) returns (i: nat)
      requires Valid() && key in cacheMap
      ensures i < |if cacheMap[key] == LessK then lessK else greaterK|
      ensures (if cacheMap[key] == LessK then lessK else greaterK)[i].key == key
    {
      hide DistinctStamps, Ordered;
      var list := if cacheMap[key] == LessK then lessK else greaterK;
      assert Covers(list, cacheMap[key], cacheMap);
      i := 0;
      while list[i].key != key
        invariant i < |list| && forall j :: 0 <= j < i ==> list[j].key != key
        decreases |list| - i
      {
        i := i + 1;
      }
    }

    /** Count an access: to the front of its list, or over to the other list at `k`. */
    method UpdateAccessCount(key: BlockKey, block: B)
      requires Valid() && key in cacheMap
      modifies `lessK, `greaterK, `cacheMap, `contents, `now
      ensures Valid() && now == old(now) + 1
      ensures contents == Touched(old(contents), key, block, old(now))
    {
      hide Refines, Touched, Erase;
      TouchedKeys(contents, key, block, now);
      SameSize(cacheMap, contents);
      var i := Find(key);
      var place := cacheMap[key];
      var count := (if place == LessK then lessK else greaterK)[i].count + 1;
      RefinesTouched(lessK, greaterK, cacheMap, contents, k, place, i, block, now);
      CountsSplit(lessK, greaterK, cacheMap, contents, k, key);
      if count < k {
        lessK := [CacheItem(key, block, count)] + Erase(lessK, i);
      } else if count == k {
        lessK := Erase(lessK, i);
        greaterK := [CacheItem(key, block, count)] + greaterK;
      } else {
        greaterK := [CacheItem(key, block, count)] + Erase(greaterK, i);
      }
      cacheMap := cacheMap[key := if count < k then LessK else GreaterK];
      contents := Touched(contents, key, block, now);
      now := now + 1;
    }

    /** The cached block, counted as used, or nothing. */
    method Get(sstId: nat, blockId: nat) returns (r: Option<B>)
      requires Valid()
      modifies this
      ensures Valid()
      ensures var key := (sstId, blockId);
              if key in old(contents)
              then r == Some(old(contents)[key].block) && now == old(now) + 1
                   && contents == Touched(old(contents), key, r.value, old(now))
              else r == None && contents == old(contents) && now == old(now)
      ensures totalRequest == old(totalRequest) + 1
      ensures hitRequests == old(hitRequests) + if r.Some? then 1 else 0
    {
      hide Lists, DistinctStamps;
      totalRequest := totalRequest + 1;
      var key := (sstId, blockId);
      if key !in cacheMap {
        return None;
      }
      hitRequests := hitRequests + 1;
      var i := Find(key);
      InList(if cacheMap[key] == LessK then lessK else greaterK, cacheMap[key], contents, cacheMap, i);
      var block := (if cacheMap[key] == LessK then lessK else greaterK)[i].block;
      UpdateAccessCount(key, block);
      return Some(block);
    }

    /** Drop the least recent block used fewer than `k` times, or else the least recent. */
    method Evict() returns (ghost victim: BlockKey)
      requires Valid() && contents != map[]
      modifies `lessK, `greaterK, `cacheMap, `contents
      ensures Valid() && IsVictim(old(contents), k, victim) && contents == old(contents) - {victim}
      ensures |contents| == |old(contents)| - 1
    {
      hide Refines, IsVictim, Erase;
      BackIsVictim(lessK, greaterK, cacheMap, contents, k);
      if |lessK| > 0 {
        victim := lessK[|lessK| - 1].key;
        RefinesErased(lessK, greaterK, cacheMap, contents, k, LessK, |lessK| - 1);
        cacheMap := cacheMap - {lessK[|lessK| - 1].key};
        lessK := Erase(lessK, |lessK| - 1);
      } else {
        victim := greaterK[|greaterK| - 1].key;
        RefinesErased(lessK, greaterK, cacheMap, contents, k, GreaterK, |greaterK| - 1);
        cacheMap := cacheMap - {greaterK[|greaterK| - 1].key};
        greaterK := Erase(greaterK, |greaterK| - 1);
      }
      OneLess(old(cacheMap), victim);
      OneLess(contents, victim);
      contents := contents - {victim};
    }

    method Admit(key: BlockKey, block: B)
      requires Valid() && key !in contents && |contents| < capacity
      modifies `lessK, `cacheMap, `contents, `now
      ensures Valid() && contents == old(contents)[key := Entry(block, 1, old(now))] && now == old(now) + 1
    {
      hide Refines;
      RefinesFront(lessK, greaterK, cacheMap, contents, k, CacheItem(key, block, 1), now);
      lessK := [CacheItem(key, block, 1)] + lessK;
      cacheMap := cacheMap[key := LessK];
      contents := contents[key := Entry(block, 1, now)];
      now := now + 1;
    }

    /** Update a cached block, or admit it, evicting when the cache is full. */
    method Put(sstId: nat, blockId: nat, block: B) returns (ghost victim: BlockKey)
      requires Valid()
      modifies this
      ensures Valid() && now == old(now) + 1
      ensures var key := (sstId, blockId);
              if key in old(contents) then contents == Touched(old(contents), key, block, old(now))
              else
                && contents == Admitted(old(contents), capacity, victim, key, block, old(now))
                && (|old(contents)| >= capacity ==> IsVictim(old(contents), k, victim))
    {
      hide Refines, IsVictim;
      victim := (0, 0);
      var key := (sstId, blockId);
      if key in cacheMap {
        UpdateAccessCount(key, block);
      } else {
        if |cacheMap| >= capacity {
          victim := Evict();
        }
        Admit(key, block);
      }
    }
  }
}
