/** The engine: a memtable in front of level-0 table files, newest first. */
module Engines {
  import opened Keys
  import opened Versions
  import opened Codec
  import opened Blocks
  import opened BlockCaches
  import opened Splitting
  import opened Ssts
  import opened Memtables
  import opened Layering

  const LSM_TOTAL_MEM_SIZE_LIMIT: nat := 64 * 1024 * 1024
  const LSM_BLOCK_MEM_LIMIT: nat := 32 * 1024
  const LSM_BLOCK_CACHE_CAPACITY: nat := 1024
  const LSM_BLOCK_CACHE_K: nat := 8
  const LSM_SST_LEVEL_RATIO: nat := 16

  /** The two random draws of one skip-list insertion. */
  datatype Draws = Draws(randomLevel: nat, bits: seq<bool>)

  predicate DrawsOk(d: Draws) {
    1 <= d.randomLevel <= MAX_LEVEL && |d.bits| == MAX_LEVEL
  }

  /** What a caller gets for the newest visible version: its value, unless there is none or
      it is a removal. */
  function Reply(r: Option<Version>): (value: Option<Value>) {
    if r.Some? && r.value.value != [] then Some(r.value.value) else None
  }

  /** The answer of a read at `t`: the value, with the version's own id when it comes from
      memory and the reader's id when it comes from a file. */
  function Answer(found: Option<Version>, inMemory: bool, t: nat): (r: Option<(Value, nat)>) {
    if Reply(found) == None then None
    else Some((found.value.value, if inMemory then found.value.tid else t))
  }

  /** Memory answers a read of `key` at `t`. */
  predicate InMemory(mem: seq<seq<Version>>, key: Key, t: nat) {
    LookupTables(Tables(mem), key, t).Some?
  }

  /** It does exactly when it holds a write of the key the reader may see. */
  lemma {:induction false} InMemoryMeaning(mem: seq<seq<Version>>, key: Key, t: nat)
    ensures InMemory(mem, key, t) <==> exists v :: v in Flatten(mem) && v.key == key && Visible(v.tid, t)
  {
    if mem != [] {
      InMemoryMeaning(mem[1..], key, t);
      assert Tables(mem)[1..] == Tables(mem[1..]);
      FoldAnswersNewest(mem[0], key, t);
      NewestInHistory(mem[0], key, t);
    }
  }

  /** A file of these writes survives its encoding. */
  ghost predicate SurvivesFile(seg: seq<Version>) {
    Storable(Fold(seg), LSM_BLOCK_MEM_LIMIT) && FileFits(Fold(seg))
  }

  ghost predicate AllSurvive(segs: seq<seq<Version>>) {
    forall i :: 0 <= i < |segs| ==> SurvivesFile(segs[i])
  }

  /** Whether a write of `v` fills the current table to its limit, and so flushes. */
  ghost predicate FlushDue(s: Tiers, v: Version)
    requires s.mem != []
  {
    Size(Fold(s.mem[0] + [v])) >= LSM_TOTAL_MEM_SIZE_LIMIT
  }

  ghost function AfterPut(s: Tiers, v: Version): (r: Tiers)
    requires s.mem != []
    ensures r.mem != []
  {
    if FlushDue(s, v) then AfterFlush(AfterWrite(s, v)) else AfterWrite(s, v)
  }

  /** The table a flush would take, if it takes one, makes a readable file. */
  ghost predicate FlushSurvives(s: Tiers)
    requires s.mem != []
  {
    var all := Flushable(s.mem);
    all[|all| - 1] != [] && TotalSize(s.mem) > 0 ==> SurvivesFile(all[|all| - 1])
  }

  class LSMEngine {
    const hash: Hasher
    const rate: Bytes
    const numBits: nat
    const numHashes: nat
    const memtable: Memtable
    const cache: BlockCache<Image>
    /** The ids of level 0, newest first. */
    var level0: seq<nat>
    var ssts: map<nat, Sst>
    /** The writes each file of level 0 holds. */
    ghost var diskSegs: seq<seq<Version>>

    ghost function Segs(): seq<seq<Version>>
      reads this, memtable
    {
      memtable.segs + diskSegs
    }

    ghost function AsTiers(): Tiers
      reads this, memtable
    {
      Tiers(memtable.segs, diskSegs)
    }

    /** Every write so far, oldest first. */
    ghost function Hist(): seq<Version>
      reads this, memtable
    {
      Flatten(Segs())
    }

    ghost predicate FileOk(i: nat)
      requires i < |level0| && i < |diskSegs|
      reads this
    {
      && level0[i] in ssts && ssts[level0[i]].id == level0[i]
      && FileOf(ssts[level0[i]], Fold(diskSegs[i]), LSM_BLOCK_MEM_LIMIT, hash)
    }

    ghost predicate Valid()
      reads this, memtable, memtable.Repr, cache
    {
      && memtable.Valid() && this !in memtable.Repr && (cache as object) !in memtable.Repr
      && cache.Valid() && numBits > 0 && |rate| == 8
      && |diskSegs| == |level0|
      && (forall i :: 0 <= i < |level0| ==> FileOk(i) && diskSegs[i] != [])
      && (forall i, j :: 0 <= i < j < |level0| ==> level0[i] > level0[j])
      && (forall id :: id in ssts ==> id in level0)
      && CacheAgrees(cache.contents, ssts, hash)
    }

    /** Every table on disk survives its encoding. */
    ghost predicate DiskSound()
      reads this
    {
      AllSurvive(diskSegs)
    }

    constructor (hash: Hasher, rate: Bytes, numBits: nat, numHashes: nat)
      requires numBits > 0 && |rate| == 8
      ensures Valid() && fresh(memtable) && fresh(memtable.Repr) && fresh(cache)
      ensures AsTiers() == Tiers([[]], []) && Segs() == [[]] && DiskSound()
    {
      this.hash, this.rate, this.numBits, this.numHashes := hash, rate, numBits, numHashes;
      memtable := new Memtable();
      cache := new BlockCache(LSM_BLOCK_CACHE_CAPACITY, LSM_BLOCK_CACHE_K);
      level0, ssts, diskSegs := [], map[], [];
    }

    method FileGet(i: nat, key: Key, t: nat) returns (res: Option<Value>)
      requires Valid() && DiskSound() && i < |level0|
      modifies cache
      ensures Valid() && unchanged(this)
      ensures res == match Lookup(Fold(diskSegs[i]), key, t) case None => None case Some(v) => Some(v.value)
    {
      hide Fold, Chunks, KeysOf, FileOf, Storable, FileFits, Stores, CacheAgrees, Memtable.Valid,
        BlockCache.Valid, Lookup;
      assert FileOk(i);
      var sst := ssts[level0[i]];
      ghost var es := Fold(diskSegs[i]);
      LaidStores(sst, es, LSM_BLOCK_MEM_LIMIT, hash);
      res := Ssts.Get(sst, cache, hash, key, t, ssts, es, LSM_BLOCK_MEM_LIMIT);
    }

    /** Level 0, newest file first: the first file that has a visible version answers. */
    method SstGet(key: Key, t: nat) returns (r: Option<(Value, nat)>, found: bool)
      requires Valid() && DiskSound()
      modifies cache
      ensures Valid() && unchanged(this)
      ensures var s := LookupTables(Tables(diskSegs), key, t);
              && (found <==> s.Some?)
              && r == Answer(s, false, t)
    {
      hide Fold, FileOk, CacheAgrees, Memtable.Valid, BlockCache.Valid, Lookup, DiskSound;
      var i := 0;
      ghost var tables := Tables(diskSegs);
      assert tables[0..] == tables;
      while i < |level0|
        invariant 0 <= i <= |level0| && Valid() && DiskSound() && unchanged(this)
        invariant LookupTables(tables, key, t) == LookupTables(tables[i..], key, t)
      {
        var res := FileGet(i, key, t);
        if res.Some? {
          return if |res.value| > 0 then Some((res.value, t)) else None, true;
        }
        assert tables[i..][1..] == tables[i + 1..];
        i := i + 1;
      }
      return None, false;
    }

    /** A read: memory first, then level 0. It answers for the whole stack of tables, and
        for the history when ids of a key never decrease. */
    method Get(key: Key, t: nat) returns (r: Option<(Value, nat)>)
      requires Valid() && DiskSound()
      modifies cache
      ensures Valid() && unchanged(this) && Segs() == old(Segs())
      ensures var inMemory := InMemory(memtable.segs, key, t);
              && r == Answer(LookupTables(Tables(Segs()), key, t), inMemory, t)
              && (IdsNeverDecrease(Hist()) ==> r == Answer(Newest(Hist(), key, t), inMemory, t))
              && (IdsNeverDecrease(Hist()) ==> r == Answer(LastWrite(Hist(), key, t), inMemory, t))
    {
      hide Fold, Memtable.Valid, CacheAgrees, IdsNeverDecrease, FileOk, Newest, LastWrite, Flatten;
      LookupStacked(memtable.segs, diskSegs, key, t);
      if IdsNeverDecrease(Hist()) {
        LayeredReads(Segs(), key, t);
        NewestIsLastWrite(Hist(), key, t);
      }
      var node := memtable.Get(key, t);
      if node != null {
        return if |node.value| > 0 then Some((node.value, node.tid)) else None;
      }
      var res, _ := SstGet(key, t);
      return res;
    }

    /** A new file becomes the newest of level 0. */
    method Install(id: nat, sst: Sst, ghost seg: seq<Version>)
      requires Valid() && id == (if |level0| == 0 then 0 else level0[0] + 1) && sst.id == id
      requires seg != [] && FileOf(sst, Fold(seg), LSM_BLOCK_MEM_LIMIT, hash)
      modifies `ssts, `level0, `diskSegs
      ensures Valid() && level0 == [id] + old(level0) && diskSegs == [seg] + old(diskSegs)
      ensures ssts == old(ssts)[id := sst]
    {
      hide Memtable.Valid, CacheAgrees, FileOf, Chunks, KeysOf, Fold, BlockCache.Valid;
      assert id !in ssts;
      AgreesWithMore(cache.contents, ssts, hash, sst);
      ghost var files := level0;
      assert forall i :: 0 <= i < |level0| ==> FileOk(i);
      ssts := ssts[id := sst];
      level0 := [id] + level0;
      diskSegs := [seg] + diskSegs;
      forall i | 0 <= i < |level0| ensures FileOk(i) {
        if i > 0 {
          assert old(FileOk(i - 1));
        }
      }
    }

    /** Write the oldest table of the memtable to a new file in front of level 0. An empty
        frozen table makes the builder throw; it has already been dropped then. */
    method Flush() returns (thrown: bool)
      requires Valid() && (TotalSize(memtable.segs) > 0 ==> |level0| <= LSM_SST_LEVEL_RATIO)
      modifies this, memtable.Repr
      ensures Valid() && fresh(memtable.Repr - old(memtable.Repr))
      ensures AsTiers() == AfterFlush(old(AsTiers())) && Hist() == old(Hist())
      ensures thrown <==> TotalSize(old(memtable.segs)) > 0
                          && var all := Flushable(old(memtable.segs)); all[|all| - 1] == []
      ensures if |diskSegs| == old(|diskSegs|) then level0 == old(level0)
              else level0 == [if old(level0) == [] then 0 else old(level0)[0] + 1] + old(level0)
      ensures old(DiskSound()) && FlushSurvives(old(AsTiers())) ==> DiskSound()
    {
      hide Memtable.Valid, CacheAgrees, TotalSize, Flatten, BlockCache.Valid, FileOk, AllSurvive,
        FlushSurvives, AfterFlush;
      thrown := false;
      FlushedSurvive(AsTiers());
      TiersHistory(AsTiers(), Version([], [], 0));
      FlushNothing(AsTiers());
      var total := memtable.GetTotalSize();
      if total == 0 {
        return;
      }
      thrown := FlushOldest();
    }

    method FlushOldest() returns (thrown: bool)
      requires Valid() && TotalSize(memtable.segs) > 0 && |level0| <= LSM_SST_LEVEL_RATIO
      modifies this, memtable.Repr
      ensures Valid() && fresh(memtable.Repr - old(memtable.Repr))
      ensures AsTiers() == AfterFlush(old(AsTiers()))
      ensures thrown <==> var all := Flushable(old(memtable.segs)); all[|all| - 1] == []
      ensures if |diskSegs| == old(|diskSegs|) then level0 == old(level0)
              else level0 == [if old(level0) == [] then 0 else old(level0)[0] + 1] + old(level0)
    {
      hide Memtable.Valid, CacheAgrees, FileOf, Chunks, KeysOf, Fold, TotalSize, SSTBuilder.Valid,
        BlockCache.Valid, FileOk;
      thrown := false;
      OneTable(memtable.segs);
      var newId := if |level0| == 0 then 0 else level0[0] + 1;
      ghost var all := Flushable(memtable.segs);
      FoldNonEmpty(all[|all| - 1]);
      var builder := new SSTBuilder(hash, LSM_BLOCK_MEM_LIMIT, 65536, rate, numBits, numHashes);
      var flushed := memtable.FlushLast(builder, newId);
      match flushed {
        case NothingToFlush => assert false;
        case Threw => thrown := true;
        case Flushed(sst) => Install(newId, sst, all[|all| - 1]);
      }
    }

    /** Write a version; a current table of 64 MB or more triggers a flush. */
    method Put(key: Key, value: Value, tid: nat, d: Draws) returns (thrown: bool)
      requires Valid() && DrawsOk(d)
      requires FlushDue(AsTiers(), Version(key, value, tid)) ==> |level0| <= LSM_SST_LEVEL_RATIO
      modifies this, memtable.Repr
      ensures Valid() && fresh(memtable.Repr - old(memtable.Repr))
      ensures AsTiers() == AfterPut(old(AsTiers()), Version(key, value, tid))
      ensures Hist() == old(Hist()) + [Version(key, value, tid)]
      ensures old(DiskSound()) && FlushSurvives(AfterWrite(old(AsTiers()), Version(key, value, tid))) ==> DiskSound()
      ensures thrown ==> FlushDue(old(AsTiers()), Version(key, value, tid))
    {
      hide Memtable.Valid, CacheAgrees, Fold, TotalSize, Flatten, BlockCache.Valid, FileOk, AllSurvive, FlushSurvives,
        AfterFlush;
      thrown := false;
      TiersHistory(AsTiers(), Version(key, value, tid));
      memtable.Put(key, value, tid, d.randomLevel, d.bits);
      var size := memtable.GetCurSize();
      if size >= LSM_TOTAL_MEM_SIZE_LIMIT {
        thrown := Flush();
      }
    }

    /** A removal is a write of the empty value. */
    method Remove(key: Key, tid: nat, d: Draws) returns (thrown: bool)
      requires Valid() && DrawsOk(d)
      requires FlushDue(AsTiers(), Version(key, [], tid)) ==> |level0| <= LSM_SST_LEVEL_RATIO
      modifies this, memtable.Repr
      ensures Valid() && fresh(memtable.Repr - old(memtable.Repr))
      ensures AsTiers() == AfterPut(old(AsTiers()), Version(key, [], tid))
      ensures Hist() == old(Hist()) + [Version(key, [], tid)]
      ensures old(DiskSound()) && FlushSurvives(AfterWrite(old(AsTiers()), Version(key, [], tid))) ==> DiskSound()
      ensures thrown ==> FlushDue(old(AsTiers()), Version(key, [], tid))
    {
      thrown := Put(key, [], tid, d);
    }

    /** The destructor's loop. It ends with memory empty and every write on disk, except
        that it throws exactly when there is an empty table behind one that is not. */
    method Close() returns (thrown: bool)
      requires Valid() && |level0| + |memtable.segs| <= LSM_SST_LEVEL_RATIO + 1
      modifies this, memtable.Repr
      ensures Valid() && Hist() == old(Hist())
      ensures thrown <==> EmptyBehind(old(memtable.segs))
      ensures !thrown ==> TotalSize(memtable.segs) == 0 && Hist() == Flatten(diskSegs)
    {
      hide Memtable.Valid, CacheAgrees, Fold, TotalSize, Flatten, BlockCache.Valid, FileOk, EmptyBehind, AllSurvive;
      thrown := false;
      var total := memtable.GetTotalSize();
      while total > 0
        invariant Valid() && fresh(memtable.Repr - old(memtable.Repr)) && Hist() == old(Hist())
        invariant total == TotalSize(memtable.segs)
        invariant |level0| + |memtable.segs| <= LSM_SST_LEVEL_RATIO + 1
                  || (|level0| == LSM_SST_LEVEL_RATIO + 1 && memtable.segs == [[]])
        invariant EmptyBehind(memtable.segs) <==> EmptyBehind(old(memtable.segs))
        decreases |memtable.segs|, |memtable.segs[0]|
      {
        NothingLeft(memtable.segs);
        FlushEmptyBehind(memtable.segs);
        thrown := Flush();
        if thrown {
          return;
        }
        total := memtable.GetTotalSize();
      }
      AllFlushed(memtable.segs, diskSegs);
    }
  }

  lemma FlushNothing(s: Tiers)
    requires s.mem != []
    ensures TotalSize(s.mem) == 0 ==> AfterFlush(s) == s
  {
  }

  lemma FlushedSurvive(s: Tiers)
    requires s.mem != []
    ensures AllSurvive(s.disk) && FlushSurvives(s) ==> AllSurvive(AfterFlush(s).disk)
  {
    hide SurvivesFile, TotalSize;
  }

  lemma AllFlushed(segs: seq<seq<Version>>, disk: seq<seq<Version>>)
    requires TotalSize(segs) == 0
    ensures !EmptyBehind(segs) && Flatten(segs + disk) == Flatten(disk)
  {
    NothingLeft(segs);
    FlattenConcat(segs, disk);
    FlattenNothing(segs);
  }

  lemma {:induction false} FlattenNothing(segs: seq<seq<Version>>)
    requires forall i :: 0 <= i < |segs| ==> segs[i] == []
    ensures Flatten(segs) == []
  {
    if segs != [] {
      FlattenNothing(segs[1..]);
    }
  }

  /** Writes that fit, in a history below 4 GB, make every file of it readable. */
  lemma HistoryReadable(segs: seq<seq<Version>>, i: nat)
    requires HistoryFits(Flatten(segs), LSM_BLOCK_MEM_LIMIT) && FileFits(Flatten(segs))
    requires i < |segs| && segs[i] != []
    ensures SurvivesFile(segs[i])
  {
    HistoryTablesStorable(segs, i, LSM_BLOCK_MEM_LIMIT);
    FoldSize(segs[i]);
    SegmentSize(segs, i);
  }

  lemma HistoryDiskSound(e: LSMEngine)
    requires e.Valid() && HistoryFits(e.Hist(), LSM_BLOCK_MEM_LIMIT) && FileFits(e.Hist())
    ensures e.DiskSound()
  {
    hide Fold, HistoryFits, SurvivesFile, FileFits, Flatten, Memtable.Valid, CacheAgrees, BlockCache.Valid,
      LSMEngine.FileOk;
    var segs := e.Segs();
    forall i | 0 <= i < |e.diskSegs| ensures SurvivesFile(e.diskSegs[i]) {
      var m := |e.memtable.segs| + i;
      assert segs[m] == e.diskSegs[i];
      HistoryReadable(segs, m);
    }
  }

  lemma OneTable(segs: seq<seq<Version>>)
    ensures |segs| == 1 ==> TotalSize(segs) == Size(Fold(segs[0]))
  {
    if |segs| == 1 {
      assert segs[1..] == [];
    }
  }
}
