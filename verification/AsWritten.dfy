/** Reads of table files exactly as the source has them: the block lookup with its test
    inverted and an end iterator nothing ever equals. */
module AsWritten {
  import opened Keys
  import opened Versions
  import opened Codec
  import opened Blocks
  import opened BlockSearch
  import opened BlockCaches
  import opened Splitting
  import opened Ssts
  import opened Memtables
  import opened Engines
  import opened Layering

  // ----- the end of a table file

  /** An iterator over a table file: the table, the block index, and the entry it stands on. */
  datatype Cursor = Cursor(table: Option<nat>, blockIdx: int, entry: Option<Value>)

  const END: Cursor := Cursor(None, -1, None)

  /** `operator==`. Comparing an entry with no entry on the same table dereferences null. */
  datatype Comparison = Equal | Different | NullDereference

  function Compare(a: Cursor, b: Cursor): (c: Comparison) {
    if a.table != b.table || a.blockIdx != b.blockIdx then Different
    else if a.entry.None? && b.entry.None? then Different
    else if a.entry.None? || b.entry.None? then NullDereference
    else if a.entry == b.entry then Equal else Different
  }

  /** No iterator that is on a table or on no entry equals the end, the end included. */
  lemma NothingEqualsEnd(c: Cursor)
    requires c.table.Some? || c.entry.None?
    ensures Compare(c, END) == Different
  {
  }

  // ----- one file

  /** `get`: the end when the filter rejects, otherwise wherever `seek` ends up. It stands
      on an entry exactly for keys that are present with no visible version, and then on a
      version the reader must not see. */
  method SstGet(sst: Sst, cache: BlockCache<Image>, hash: Hasher, key: Key, t: nat, ghost ssts: map<nat, Sst>,
                ghost es: seq<Version>, ghost capacity: nat) returns (r: Cursor)
    requires cache.Valid() && CacheAgrees(cache.contents, ssts, hash)
    requires sst.id in ssts && ssts[sst.id] == sst
    requires Stores(sst, es, capacity, hash) && Storable(es, capacity)
    modifies cache
    ensures cache.Valid() && CacheAgrees(cache.contents, ssts, hash)
    ensures Compare(r, END) == Different
    ensures r.entry.Some? <==> HasKey(es, key) && Lookup(es, key, t) == None
    ensures r.entry.Some? ==> var w := MetIn(Chunks(es, capacity), key);
              w.Some? && w.value in es && !Visible(w.value.tid, t) && w.value.value == r.entry.value
  {
    hide Layout, MetasOf, Chunks, Storable, ChunksSound, Represents, BlockAt, CacheAgrees, Bloom.Marked,
      KeysOf, Refines, FitsBlock, Stores;
    ghost var chunks := Chunks(es, capacity);
    FinishedTable(es, capacity);
    StoredParts(sst, es, capacity, hash);
    var possible := Bloom.PossiblyContains(hash, sst.filter, key);
    if !possible {
      FilteredOut(sst.filter, es, hash, key, t);
      return END;
    }
    var idx := FindBlockIdx(sst.metas, key);
    KeyByIndex(chunks, hash, idx, key);
    LookupByIndex(chunks, hash, idx, key, t);
    if idx == -1 {
      return Cursor(Some(sst.id), |sst.metas|, None);
    }
    StoredBlock(sst, es, capacity, hash, idx);
    var block := ReadBlock(sst, cache, hash, idx, ssts);
    if block.Failed? {
      return Cursor(Some(sst.id), idx, None);
    }
    ChunkSorted(chunks, idx);
    var found := GetIdxBinary(block.image, chunks[idx].entries, key, t);
    if found.None? {
      return Cursor(Some(sst.id), |sst.metas|, None);
    }
    var value := ValueOf(block.image, chunks[idx].entries, found.value);
    ConcatHolds(chunks, idx, chunks[idx].entries[found.value]);
    MetInBlock(chunks, hash, idx, key);
    return Cursor(Some(sst.id), idx, Some(value));
  }

  lemma StoredParts(sst: Sst, es: seq<Version>, capacity: nat, hash: Hasher)
    requires Stores(sst, es, capacity, hash)
    ensures sst.metas == MetasOf(Chunks(es, capacity), hash) && Filters(sst.filter, KeysOf(es), hash)
  {
  }

  /** The version of `key` the binary search meets in the block that has the key. */
  function MetIn(chunks: seq<Chunk>, key: Key): (v: Option<Version>) {
    if chunks == [] then None
    else
      var n := |chunks| - 1;
      var v := Met(chunks[n].entries, key);
      if v.Some? then v else MetIn(chunks[..n], key)
  }

  lemma {:induction false} MetInOnly(chunks: seq<Chunk>, idx: nat, key: Key)
    requires idx < |chunks| && Met(chunks[idx].entries, key).Some?
    requires forall c :: 0 <= c < |chunks| && c != idx ==> Met(chunks[c].entries, key) == None
    ensures MetIn(chunks, key) == Met(chunks[idx].entries, key)
  {
    var n := |chunks| - 1;
    if idx < n {
      MetInOnly(chunks[..n], idx, key);
    }
  }

  lemma MetInBlock(chunks: seq<Chunk>, hash: Hasher, idx: nat, key: Key)
    requires ChunksSound(chunks) && idx < |chunks| && Met(chunks[idx].entries, key).Some?
    ensures MetIn(chunks, key) == Met(chunks[idx].entries, key)
  {
    hide ChunksSound;
    MetHasKey(chunks[idx].entries, key);
    forall c | 0 <= c < |chunks| && c != idx ensures Met(chunks[c].entries, key) == None {
      MetHasKey(chunks[c].entries, key);
      if HasKey(chunks[c].entries, key) {
        OneChunkPerKey(chunks, hash, idx, c, key);
      }
    }
    MetInOnly(chunks, idx, key);
  }

  lemma MetHasKey(es: seq<Version>, key: Key)
    ensures Met(es, key).Some? ==> HasKey(es, key)
  {
  }

  lemma {:induction false} ConcatHolds(chunks: seq<Chunk>, idx: nat, v: Version)
    requires idx < |chunks| && v in chunks[idx].entries
    ensures v in Concat(chunks)
  {
    var n := |chunks| - 1;
    if idx < n {
      ConcatHolds(chunks[..n], idx, v);
    }
  }

  lemma {:induction false} ConcatKeys(chunks: seq<Chunk>, key: Key)
    ensures HasKey(Concat(chunks), key) <==> exists c :: 0 <= c < |chunks| && HasKey(chunks[c].entries, key)
  {
    if chunks != [] {
      var n := |chunks| - 1;
      var p := chunks[..n];
      ConcatKeys(p, key);
      var a, b := Concat(p), chunks[n].entries;
      var ab: seq<Version> := a + b;
      if HasKey(ab, key) {
        var i :| 0 <= i < |ab| && ab[i].key == key;
        if i < |a| {
          assert a[i].key == key;
          var c :| 0 <= c < |p| && HasKey(p[c].entries, key);
          assert HasKey(chunks[c].entries, key);
        } else {
          assert b[i - |a|].key == key;
        }
      }
      if c :| 0 <= c < |chunks| && HasKey(chunks[c].entries, key) {
        if c < n {
          assert HasKey(p[c].entries, key);
          var i :| 0 <= i < |a| && a[i].key == key;
          assert ab[i].key == key;
        } else {
          var i :| 0 <= i < |b| && b[i].key == key;
          assert ab[|a| + i].key == key;
        }
      }
    }
  }

  /** Whether the table has a key is whether the block the index names has it. */
  lemma KeyByIndex(chunks: seq<Chunk>, hash: Hasher, idx: int, key: Key)
    requires ChunksSound(chunks) && Finds(MetasOf(chunks, hash), key, idx)
    ensures HasKey(Concat(chunks), key) <==> idx != -1 && HasKey(chunks[idx].entries, key)
  {
    hide Layout, MetasOf, Owns, ChunksSound, HasKey;
    ConcatKeys(chunks, key);
    FindsOwned(MetasOf(chunks, hash), key, idx);
    forall c | 0 <= c < |chunks| && HasKey(chunks[c].entries, key) ensures c == idx {
      PresentKeyOwned(chunks, hash, c, key);
    }
  }

  // ----- the engine

  /** `Undefined` is a read through an empty optional. */
  datatype Outcome = Undefined | Returned(r: Option<(Value, nat)>)

  /** The reply that the version the newest file's search meets gives to a reader at `t`. */
  function MetReply(v: Option<Version>, t: nat): Option<(Value, nat)> {
    if v.Some? && v.value.value != [] then Some((v.value.value, t)) else None
  }

  /** What the search for `key` meets in the file of the writes `seg`. */
  function MetOnDisk(seg: seq<Version>, key: Key): Option<Version> {
    MetIn(Chunks(Fold(seg), LSM_BLOCK_MEM_LIMIT), key)
  }

  /** The file of `seg` has versions of `key` and the reader may see none of them. */
  ghost predicate NoneVisible(seg: seq<Version>, key: Key, t: nat) {
    HasKey(Fold(seg), key) && Lookup(Fold(seg), key, t) == None
  }

  /** `sst_get_`: since no iterator equals the end, the newest file always decides. */
  method SstGetAll(e: LSMEngine, key: Key, t: nat) returns (o: Outcome)
    requires e.Valid() && e.DiskSound()
    modifies e.cache
    ensures e.Valid() && unchanged(e)
    ensures o == if e.level0 == [] then Returned(None)
                 else if NoneVisible(e.diskSegs[0], key, t) then Returned(MetReply(MetOnDisk(e.diskSegs[0], key), t))
                 else Undefined
    ensures e.level0 != [] && NoneVisible(e.diskSegs[0], key, t) ==>
              var w := MetOnDisk(e.diskSegs[0], key);
              w.Some? && w.value in Fold(e.diskSegs[0]) && !Visible(w.value.tid, t)
  {
    hide Fold, Chunks, KeysOf, FileOf, Storable, FileFits, Stores, CacheAgrees, Memtable.Valid, BlockCache.Valid,
      Lookup, HasKey, MetIn;
    if |e.level0| == 0 {
      return Returned(None);
    }
    assert e.FileOk(0) && SurvivesFile(e.diskSegs[0]);
    var sst := e.ssts[e.level0[0]];
    ghost var es := Fold(e.diskSegs[0]);
    LaidStores(sst, es, LSM_BLOCK_MEM_LIMIT, e.hash);
    var res := SstGet(sst, e.cache, e.hash, key, t, e.ssts, es, LSM_BLOCK_MEM_LIMIT);
    assert Compare(res, END) != Equal;
    if res.entry.None? {
      return Undefined;
    }
    return Returned(if |res.entry.value| > 0 then Some((res.entry.value, t)) else None);
  }

  /** When the read as written is right: memory answers, or there is no file, or the newest
      file has versions of the key, all too new for the reader, and the one its search
      meets happens to give the reply of the version the reader should see. */
  ghost predicate RightAsWritten(e: LSMEngine, key: Key, t: nat)
    requires |e.level0| == |e.diskSegs|
    reads e, e.memtable
  {
    || InMemory(e.memtable.segs, key, t)
    || e.level0 == []
    || (NoneVisible(e.diskSegs[0], key, t)
        && MetReply(MetOnDisk(e.diskSegs[0], key), t) == Answer(LookupTables(Tables(e.Segs()), key, t), false, t))
  }

  /** `get`, for every key and reader: it returns the right reply exactly then. At id 0 that
      is exactly when memory answers or nothing was ever flushed. */
  method Get(e: LSMEngine, key: Key, t: nat) returns (o: Outcome)
    requires e.Valid() && e.DiskSound()
    modifies e.cache
    ensures e.Valid() && unchanged(e) && e.Segs() == old(e.Segs())
    ensures var inMemory := InMemory(e.memtable.segs, key, t);
            o == Returned(Answer(LookupTables(Tables(e.Segs()), key, t), inMemory, t)) <==> RightAsWritten(e, key, t)
    ensures t == 0 ==> (RightAsWritten(e, key, t) <==> InMemory(e.memtable.segs, key, t) || e.level0 == [])
    ensures !InMemory(e.memtable.segs, key, t) && e.level0 != [] ==>
              (o == Undefined <==> !NoneVisible(e.diskSegs[0], key, t))
  {
    hide Fold, Memtable.Valid, CacheAgrees, LSMEngine.FileOk, BlockCache.Valid, HasKey, Lookup, MetIn;
    LookupStacked(e.memtable.segs, e.diskSegs, key, t);
    var node := e.memtable.Get(key, t);
    if node != null {
      return Returned(if |node.value| > 0 then Some((node.value, node.tid)) else None);
    }
    o := SstGetAll(e, key, t);
    if t == 0 && |e.level0| > 0 {
      AllVisibleAtZero(e.diskSegs[0], key);
    }
  }

  lemma AllVisibleAtZero(seg: seq<Version>, key: Key)
    ensures !NoneVisible(seg, key, 0)
  {
    hide Fold;
    FoldSorted(seg);
    LookupIsNewestVisible(Fold(seg), key, 0);
  }

  // ----- the plainest run that goes wrong

  const KEY: Key := [0x6b]
  const ONCE: Version := Version(KEY, [0x76], 1)

  lemma OnceFold()
    ensures Fold([ONCE]) == [ONCE] && Fold([]) == []
  {
    assert [ONCE][..0] == [];
  }

  lemma OnceSurvives()
    ensures SurvivesFile([ONCE])
  {
    OnceFold();
    Widths();
    hide Fold;
    assert [ONCE][..0] == [] && [ONCE][1..] == [];
    assert RunBytes([ONCE], KEY) == 14;
    assert Sorted([ONCE]);
    assert Kept([ONCE], LSM_BLOCK_MEM_LIMIT);
    assert RunsFit([ONCE], LSM_BLOCK_MEM_LIMIT);
    assert Size([ONCE]) == 10;
  }

  lemma OnceFlushed()
    ensures !FlushDue(Tiers([[]], []), ONCE) && AfterWrite(Tiers([[]], []), ONCE) == Tiers([[ONCE]], [])
    ensures AfterFlush(Tiers([[ONCE]], [])) == Tiers([[]], [[ONCE]]) && FlushSurvives(Tiers([[ONCE]], []))
    ensures LookupTables(Tables([[]]), KEY, 0) == None
  {
    OnceFold();
    OnceSurvives();
    hide Fold, SurvivesFile;
    assert [] + [ONCE] == [ONCE] && [ONCE][1..] == [];
    assert Size([ONCE]) == 10;
    NothingLeft([[ONCE]]);
    assert Flushable([[ONCE]]) == [[], [ONCE]];
    assert Tables([[]])[0] == [] && Tables([[]])[1..] == [];
  }

  lemma LevelSizes(e: LSMEngine)
    requires e.Valid()
    ensures |e.level0| == |e.diskSegs|
  {
  }

  /** Put a key, flush, get it: the read goes through an empty optional. */
  method PutFlushGet(hash: Hasher, rate: Bytes, numBits: nat, numHashes: nat, d: Draws) returns (o: Outcome)
    requires numBits > 0 && |rate| == 8 && DrawsOk(d)
    ensures o == Undefined
  {
    hide LSMEngine.Valid, Fold, Chunks, SurvivesFile, NoneVisible;
    OnceFlushed();
    var e := new LSMEngine(hash, rate, numBits, numHashes);
    var thrown := e.Put(ONCE.key, ONCE.value, ONCE.tid, d);
    LevelSizes(e);
    thrown := e.Flush();
    LevelSizes(e);
    AllVisibleAtZero([ONCE], KEY);
    assert e.AsTiers() == Tiers([[]], [[ONCE]]);
    o := Get(e, KEY, 0);
  }
}
