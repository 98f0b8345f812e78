/** Transactions as the source has them: writes are staged or go straight to the engine,
    and committing checks the staged keys but applies none of them. */
module Transactions {
  import opened Keys
  import opened Versions
  import opened BlockCaches
  import opened Ssts
  import opened Memtables
  import opened Engines
  import opened TranRuns

  datatype IsolationLevel = ReadUncommitted | ReadCommitted | RepeatableRead | Serializable

  /** What a transaction hands to the write-ahead log. */
  datatype Record =
    | CreateRecord(tid: nat)
    | PutRecord(tid: nat, key: Key, value: Value)
    | DeleteRecord(tid: nat, key: Key)
    | CommitRecord(tid: nat)
    | RollbackRecord(tid: nat)

  /** `LogFailed` is the exception for a log that could not be written. */
  datatype CommitResult = Done(ok: bool) | LogFailed

  function First(q: Option<(Value, nat)>): Option<Value> {
    match q
    case None => None
    case Some(p) => Some(p.0)
  }

  class TranManager {
    const engine: LSMEngine
    var nextTrancId: nat
    var maxFlushedTrancId: nat
    var maxFinishedTrancId: nat

    constructor (engine: LSMEngine)
      ensures this.engine == engine && nextTrancId == 1 && maxFlushedTrancId == 0 && maxFinishedTrancId == 0
    {
      this.engine := engine;
      nextTrancId, maxFlushedTrancId, maxFinishedTrancId := 1, 0, 0;
    }

    /** Every transaction gets an id above all before it. `left` is what happens to be in
        the memory of the level field, which nothing sets. */
    method NewTranc(level: IsolationLevel, left: IsolationLevel) returns (c: TranContext)
      requires engine.Valid() && (this as object) !in engine.memtable.Repr
      modifies `nextTrancId
      ensures nextTrancId == old(nextTrancId) + 1
      ensures fresh(c) && c.Valid() && c.manager == this && c.tid == old(nextTrancId) && c.level == left
      ensures c.tempMap == map[] && c.readMap == map[]
    {
      var tid := nextTrancId;
      nextTrancId := nextTrancId + 1;
      c := new TranContext(tid, this, level, left);
    }

    method UpdateMaxFinished(tid: nat)
      modifies `maxFinishedTrancId
      ensures maxFinishedTrancId == if tid > old(maxFinishedTrancId) then tid else old(maxFinishedTrancId)
    {
      if tid > maxFinishedTrancId {
        maxFinishedTrancId := tid;
      }
    }
  }

  class TranContext {
    const tid: nat
    const manager: TranManager
    const engine: LSMEngine
    var level: IsolationLevel
    var operations: seq<Record>
    /** Writes not yet in the engine; a removal is the empty value. */
    var tempMap: map<Key, Value>
    /** Answers the engine gave, kept so that reads repeat. */
    var readMap: map<Key, Option<(Value, nat)>>
    var rollbackMap: map<Key, Option<(Value, nat)>>

    ghost predicate Valid()
      reads this, engine, engine.memtable, engine.memtable.Repr, engine.cache
    {
      && engine.Valid() && engine == manager.engine
      && (this as object) !in engine.memtable.Repr && (manager as object) !in engine.memtable.Repr
    }

    constructor (tid: nat, manager: TranManager, level: IsolationLevel, left: IsolationLevel)
      requires manager.engine.Valid() && (manager as object) !in manager.engine.memtable.Repr
      ensures Valid() && this.tid == tid && this.manager == manager && this.level == left
      ensures tempMap == map[] && readMap == map[] && rollbackMap == map[] && operations == [CreateRecord(tid)]
    {
      this.tid, this.manager, this.engine, this.level := tid, manager, manager.engine, left;
      operations, tempMap, readMap, rollbackMap := [CreateRecord(tid)], map[], map[], map[];
    }

    /** The version a read of the whole store meets first. */
    ghost function Found(key: Key, t: nat): Option<Version>
      reads engine, engine.memtable
    {
      LookupTables(Tables(engine.Segs()), key, t)
    }

    /** What the engine answers to a read. */
    ghost function Asked(key: Key, t: nat): Option<(Value, nat)>
      reads engine, engine.memtable
    {
      Answer(Found(key, t), InMemory(engine.memtable.segs, key, t), t)
    }

    /** A write that goes to the engine at once and flushes finds level 0 not full. */
    ghost predicate HasRoomFor(v: Version)
      requires engine.memtable.segs != []
      reads this, engine, engine.memtable
    {
      level == ReadUncommitted && FlushDue(engine.AsTiers(), v) ==> |engine.level0| <= LSM_SST_LEVEL_RATIO
    }

    /** A ReadUncommitted write goes to the engine at once; any other is staged. */
    method Put(key: Key, value: Value, d: Draws) returns (thrown: bool)
      requires Valid() && engine.DiskSound() && DrawsOk(d) && HasRoomFor(Version(key, value, tid))
      modifies this, engine, engine.memtable.Repr, engine.cache
      ensures Valid() && fresh(engine.memtable.Repr - old(engine.memtable.Repr))
      ensures operations == old(operations) + [PutRecord(tid, key, value)]
      ensures level == old(level) && readMap == old(readMap) && rollbackMap == old(rollbackMap)
      ensures if level == ReadUncommitted
              then tempMap == old(tempMap)
                  && engine.AsTiers() == AfterPut(old(engine.AsTiers()), Version(key, value, tid))
                   && engine.Hist() == old(engine.Hist()) + [Version(key, value, tid)]
              else !thrown && tempMap == old(tempMap)[key := value] && engine.AsTiers() == old(engine.AsTiers())
    {
      hide LSMEngine.Valid, LSMEngine.DiskSound;
      thrown := false;
      operations := operations + [PutRecord(tid, key, value)];
      if level == ReadUncommitted {
        if key !in rollbackMap {
          var prev := engine.Get(key, tid);
        }
        thrown := engine.Put(key, value, tid, d);
        return;
      }
      tempMap := tempMap[key := value];
    }

    /** As `Put` of the empty value, except that the first ReadUncommitted removal of a key
        records what a read of it gave before. */
    method Remove(key: Key, d: Draws) returns (thrown: bool)
      requires Valid() && engine.DiskSound() && DrawsOk(d) && HasRoomFor(Version(key, [], tid))
      modifies this, engine, engine.memtable.Repr, engine.cache
      ensures Valid() && fresh(engine.memtable.Repr - old(engine.memtable.Repr))
      ensures operations == old(operations) + [DeleteRecord(tid, key)]
      ensures level == old(level) && readMap == old(readMap)
      ensures if level == ReadUncommitted
              then tempMap == old(tempMap) && engine.AsTiers() == AfterPut(old(engine.AsTiers()), Version(key, [], tid))
                   && engine.Hist() == old(engine.Hist()) + [Version(key, [], tid)]
              else !thrown && tempMap == old(tempMap)[key := []] && engine.AsTiers() == old(engine.AsTiers())
      ensures if level == ReadUncommitted && key !in old(rollbackMap)
              then key in rollbackMap && rollbackMap == old(rollbackMap)[key := rollbackMap[key]]
                   && rollbackMap[key] == old(Asked(key, tid))
              else rollbackMap == old(rollbackMap)
    {
      hide LSMEngine.Valid, LSMEngine.DiskSound, Answer;
      thrown := false;
      operations := operations + [DeleteRecord(tid, key)];
      if level == ReadUncommitted {
        if key !in rollbackMap {
          var prev := engine.Get(key, tid);
          rollbackMap := rollbackMap[key := prev];
        }
        thrown := engine.Remove(key, tid, d);
        return;
      }
      tempMap := tempMap[key := []];
    }

    /** A transaction reads its own staged writes (a staged removal reads as the empty
        value); otherwise the store, at id 0 or at its own id; and from RepeatableRead up
        what it read before. */
    method Get(key: Key) returns (r: Option<Value>)
      requires Valid() && engine.DiskSound()
      modifies `readMap, engine.cache
      ensures Valid() && unchanged(engine)
      ensures key in tempMap ==> r == Some(tempMap[key])
      ensures key !in tempMap && level == ReadUncommitted ==> r == Reply(Found(key, 0))
      ensures key !in tempMap && level == ReadCommitted ==> r == Reply(Found(key, tid))
      ensures key !in tempMap && level in {RepeatableRead, Serializable} && key !in old(readMap) ==>
                r == Reply(Found(key, tid))
      ensures key !in tempMap && level in {RepeatableRead, Serializable} ==>
                && readMap == (if key in old(readMap) then old(readMap) else old(readMap)[key := Asked(key, tid)])
                && r == First(readMap[key])
      ensures key in tempMap || level in {ReadUncommitted, ReadCommitted} ==> readMap == old(readMap)
    {
      hide LSMEngine.Valid, LSMEngine.DiskSound, LookupTables, Tables;
      if key in tempMap {
        return Some(tempMap[key]);
      }
      var query: Option<(Value, nat)>;
      if level == ReadUncommitted {
        query := engine.Get(key, 0);
      } else if level == ReadCommitted {
        query := engine.Get(key, tid);
      } else {
        if key in readMap {
          query := readMap[key];
        } else {
          query := engine.Get(key, tid);
          readMap := readMap[key := query];
        }
      }
      return First(query);
    }

    /** From RepeatableRead up the commit fails exactly when memory answers a staged key
        with a higher id; files never make it fail. Either way nothing staged reaches the
        engine. */
    method Commit(walOk: bool) returns (res: CommitResult)
      requires Valid() && engine.DiskSound()
      modifies `operations, manager`maxFinishedTrancId, engine.cache
      ensures Valid() && unchanged(engine) && engine.AsTiers() == old(engine.AsTiers())
      ensures var conflict := level in {RepeatableRead, Serializable}
                              && exists k :: k in tempMap && Newer(engine.memtable.segs, k, tid);
              && res == (if conflict then Done(false) else if walOk then Done(true) else LogFailed)
              && operations == old(operations) + [if conflict then RollbackRecord(tid) else CommitRecord(tid)]
      ensures var before := old(manager.maxFinishedTrancId);
              manager.maxFinishedTrancId == if res == Done(true) && tid > before then tid else before
    {
      hide LSMEngine.FileOk, LSMEngine.DiskSound, Memtable.Valid, LookupTables, Tables, BlockCache.Valid, CacheAgrees;
      if level == ReadUncommitted {
        operations := operations + [CommitRecord(tid)];
        if !walOk {
          return LogFailed;
        }
        manager.UpdateMaxFinished(tid);
        return Done(true);
      }
      if level == RepeatableRead || level == Serializable {
        var left := tempMap.Keys;
        while left != {}
          invariant left <= tempMap.Keys && Valid() && engine.DiskSound() && unchanged(engine)
          invariant operations == old(operations) && unchanged(manager)
          invariant forall k :: k in tempMap.Keys - left ==> !Newer(engine.memtable.segs, k, tid)
        {
          var k :| k in left;
          left := left - {k};
          var res := engine.memtable.Get(k, 0);
          var conflict := res != null && res.tid > tid;
          if !conflict && tid < manager.maxFlushedTrancId {
            var sst, _ := engine.SstGet(k, 0);
            conflict := sst.Some? && sst.value.1 > tid;
          }
          if conflict {
            assert k in tempMap && Newer(engine.memtable.segs, k, tid);
            operations := operations + [RollbackRecord(tid)];
            return Done(false);
          }
        }
      }
      operations := operations + [CommitRecord(tid)];
      if !walOk {
        return LogFailed;
      }
      manager.UpdateMaxFinished(tid);
      return Done(true);
    }
  }
}
