/** Runs of the engine: any writes, freezes, flushes and reads in any order, and what every
    read in them answers. */
module EngineRuns {
  import opened Keys
  import opened Versions
  import opened Codec
  import opened Splitting
  import opened Ssts
  import opened Memtables
  import opened BlockCaches
  import opened Engines
  import opened Layering

  datatype Call =
    | Write(v: Version, d: Draws)
    | Freeze
    | Flush
    | Read(key: Key, t: nat)

  const EMPTY_TIERS: Tiers := Tiers([[]], [])

  ghost function Play(s: Tiers, call: Call): (r: Tiers)
    requires s.mem != []
    ensures r.mem != []
  {
    match call
    case Write(v, _) => AfterPut(s, v)
    case Freeze => AfterFreeze(s)
    case Flush => AfterFlush(s)
    case Read(_, _) => s
  }

  ghost function PlayAll(calls: seq<Call>): (s: Tiers)
    ensures s.mem != []
  {
    if calls == [] then EMPTY_TIERS else Play(PlayAll(calls[..|calls| - 1]), calls[|calls| - 1])
  }

  function Written(calls: seq<Call>): (hist: seq<Version>) {
    if calls == [] then []
    else
      var hist := Written(calls[..|calls| - 1]);
      match calls[|calls| - 1]
      case Write(v, _) => hist + [v]
      case _ => hist
  }

  /** A call that flushes finds at most 16 files on level 0, so it does not compact. */
  ghost predicate HasRoom(s: Tiers, call: Call)
    requires s.mem != []
  {
    (match call
     case Write(v, _) => FlushDue(s, v)
     case Flush => TotalSize(s.mem) > 0
     case _ => false)
    ==> |s.disk| <= LSM_SST_LEVEL_RATIO
  }

  ghost predicate RoomThroughout(calls: seq<Call>) {
    forall i :: 0 <= i < |calls| ==> HasRoom(PlayAll(calls[..i]), calls[i])
  }

  predicate DrawsThroughout(calls: seq<Call>) {
    forall i :: 0 <= i < |calls| && calls[i].Write? ==> DrawsOk(calls[i].d)
  }

  // ----- the tables of a run

  lemma PlayStep(calls: seq<Call>, i: nat)
    requires i < |calls|
    ensures PlayAll(calls[..i + 1]) == Play(PlayAll(calls[..i]), calls[i])
    ensures Written(calls[..i + 1]) == Written(calls[..i]) + if calls[i].Write? then [calls[i].v] else []
  {
    assert calls[..i + 1][..i] == calls[..i];
  }

  /** However the writes of a run are spread over tables, the tables hold exactly them. */
  lemma {:induction false} RunHoldsWritten(calls: seq<Call>)
    ensures HistoryOf(PlayAll(calls)) == Written(calls)
  {
    hide Flatten, FlushDue, AfterFlush, AfterWrite, AfterFreeze, HistoryOf;
    if calls == [] {
      EmptyHistory();
    } else {
      var n := |calls| - 1;
      RunHoldsWritten(calls[..n]);
      var s := PlayAll(calls[..n]);
      var v := if calls[n].Write? then calls[n].v else Version([], [], 0);
      TiersHistory(s, v);
      TiersHistory(AfterWrite(s, v), v);
    }
  }

  lemma EmptyHistory()
    ensures HistoryOf(EMPTY_TIERS) == []
  {
    FlattenOne([]);
    assert EMPTY_TIERS.mem + EMPTY_TIERS.disk == [[]];
  }

  /** Files come and stay: what one state holds on disk, later ones hold behind newer files. */
  ghost predicate Behind(older: seq<seq<Version>>, newer: seq<seq<Version>>) {
    |older| <= |newer| && older == newer[|newer| - |older|..]
  }

  lemma {:induction false} DiskGrows(calls: seq<Call>, i: nat)
    requires i <= |calls|
    ensures Behind(PlayAll(calls[..i]).disk, PlayAll(calls).disk)
  {
    var n := |calls| - 1;
    if i <= n {
      DiskGrows(calls[..n], i);
      assert calls[..n][..i] == calls[..i];
      StepGrows(PlayAll(calls[..n]), calls[n]);
    } else {
      assert calls[..i] == calls;
    }
  }

  lemma StepGrows(s: Tiers, call: Call)
    requires s.mem != []
    ensures Behind(s.disk, Play(s, call).disk)
  {
    hide TotalSize, FlushDue;
  }

  lemma SurviveBehind(older: seq<seq<Version>>, newer: seq<seq<Version>>)
    requires Behind(older, newer) && AllSurvive(newer)
    ensures AllSurvive(older)
  {
    hide SurvivesFile;
    forall i | 0 <= i < |older| ensures SurvivesFile(older[i]) {
      assert older[i] == newer[|newer| - |older| + i];
    }
  }

  lemma {:induction false} DiskNonEmpty(calls: seq<Call>)
    ensures forall i :: 0 <= i < |PlayAll(calls).disk| ==> PlayAll(calls).disk[i] != []
  {
    hide TotalSize, FlushDue;
    if calls != [] {
      DiskNonEmpty(calls[..|calls| - 1]);
    }
  }

  /** Writes that fit, in a history below 4 GB, survive on disk wherever a run flushes. */
  lemma FittingRunSurvives(calls: seq<Call>)
    requires HistoryFits(Written(calls), LSM_BLOCK_MEM_LIMIT) && FileFits(Written(calls))
    ensures AllSurvive(PlayAll(calls).disk)
  {
    hide HistoryFits, FileFits, SurvivesFile, Flatten;
    var s := PlayAll(calls);
    RunHoldsWritten(calls);
    DiskNonEmpty(calls);
    forall i | 0 <= i < |s.disk| ensures SurvivesFile(s.disk[i]) {
      assert (s.mem + s.disk)[|s.mem| + i] == s.disk[i];
      HistoryReadable(s.mem + s.disk, |s.mem| + i);
    }
  }

  // ----- the run on the engine

  method FreezeTable(e: LSMEngine)
    requires e.Valid()
    modifies e.memtable.Repr
    ensures e.Valid() && fresh(e.memtable.Repr - old(e.memtable.Repr))
    ensures e.AsTiers() == AfterFreeze(old(e.AsTiers()))
  {
    hide Memtable.Valid, CacheAgrees, LSMEngine.FileOk, BlockCache.Valid;
    e.memtable.FrozenCurTable();
  }

  method Perform(e: LSMEngine, call: Call) returns (reply: Option<(Value, nat)>)
    requires e.Valid() && e.DiskSound() && HasRoom(e.AsTiers(), call) && (call.Write? ==> DrawsOk(call.d))
    modifies e, e.memtable.Repr, e.cache
    ensures e.Valid() && fresh(e.memtable.Repr - old(e.memtable.Repr))
    ensures e.AsTiers() == Play(old(e.AsTiers()), call)
    ensures call.Read? ==>
              reply == Answer(LookupTables(Tables(old(e.Segs())), call.key, call.t),
                              InMemory(old(e.memtable.segs), call.key, call.t), call.t)
  {
    hide Memtable.Valid, CacheAgrees, LSMEngine.FileOk, BlockCache.Valid, AfterFlush, AfterWrite, FlushDue, TotalSize,
      AllSurvive, Fold, LookupTables, Flatten, IdsNeverDecrease;
    reply := None;
    assert |e.level0| == |e.diskSegs|;
    match call {
      case Write(v, d) => var thrown := e.Put(v.key, v.value, v.tid, d);
      case Freeze => FreezeTable(e);
      case Flush => var thrown := e.Flush();
      case Read(key, t) => reply := e.Get(key, t);
    }
  }

  /** What a read after `calls` owes: the last visible write, with its own id while memory
      holds a write the reader may see, with the reader's id after that. */
  ghost function Owing(calls: seq<Call>, key: Key, t: nat): Option<(Value, nat)> {
    Answer(LastWrite(Written(calls), key, t), InMemory(PlayAll(calls).mem, key, t), t)
  }

  /** Every read of a run that starts on an empty engine answers with the last visible write
      before it, when the ids of a key never decrease, wherever tables were frozen or
      flushed. `FittingRunSurvives` gives the condition on the files. */
  method RunEngine(e: LSMEngine, calls: seq<Call>) returns (replies: seq<Option<(Value, nat)>>)
    requires e.Valid() && e.AsTiers() == EMPTY_TIERS
    requires DrawsThroughout(calls) && RoomThroughout(calls) && AllSurvive(PlayAll(calls).disk)
    modifies e, e.memtable.Repr, e.cache
    ensures e.Valid() && e.AsTiers() == PlayAll(calls) && e.Hist() == Written(calls)
    ensures |replies| == |calls|
    ensures forall i :: 0 <= i < |calls| && calls[i].Read? && IdsNeverDecrease(Written(calls[..i])) ==>
              replies[i] == Owing(calls[..i], calls[i].key, calls[i].t)
  {
    hide LSMEngine.Valid, AllSurvive, HasRoom, Play, PlayAll, Written, Owing, LastWrite, IdsNeverDecrease;
    replies := [];
    ghost var repr := e.memtable.Repr;
    var i := 0;
    assert calls[..0] == [];
    RunStart();
    while i < |calls|
      invariant 0 <= i <= |calls| == i + (|calls| - i) && |replies| == i
      invariant e.Valid() && e.AsTiers() == PlayAll(calls[..i]) && fresh(e.memtable.Repr - repr)
      invariant forall j :: 0 <= j < i && calls[j].Read? && IdsNeverDecrease(Written(calls[..j])) ==>
                  replies[j] == Owing(calls[..j], calls[j].key, calls[j].t)
    {
      DiskGrows(calls, i);
      SurviveBehind(PlayAll(calls[..i]).disk, PlayAll(calls).disk);
      PlayStep(calls, i);
      if calls[i].Read? && IdsNeverDecrease(Written(calls[..i])) {
        ReadOfRun(calls[..i], calls[i].key, calls[i].t);
      }
      var reply := Perform(e, calls[i]);
      replies := replies + [reply];
      i := i + 1;
    }
    assert calls[..i] == calls;
    RunHoldsWritten(calls);
  }

  /** The same for a fresh engine and a read at the end, from what is written alone: writes
      that fit their fields and blocks, in a history below 4 GB. */
  method RunAndGet(hash: Hasher, rate: Bytes, numBits: nat, numHashes: nat, calls: seq<Call>, key: Key, t: nat)
      returns (r: Option<(Value, nat)>)
    requires numBits > 0 && |rate| == 8 && DrawsThroughout(calls) && RoomThroughout(calls)
    requires HistoryFits(Written(calls), LSM_BLOCK_MEM_LIMIT) && FileFits(Written(calls))
    ensures IdsNeverDecrease(Written(calls)) ==> r == Owing(calls, key, t)
  {
    hide LSMEngine.Valid, AllSurvive, PlayAll, Written, LastWrite, IdsNeverDecrease, HistoryFits, FileFits,
      RoomThroughout, DrawsThroughout;
    FittingRunSurvives(calls);
    var e := new LSMEngine(hash, rate, numBits, numHashes);
    var replies := RunEngine(e, calls);
    r := e.Get(key, t);
  }

  lemma RunStart()
    ensures PlayAll([]) == EMPTY_TIERS
  {
  }

  lemma ReadOfRun(calls: seq<Call>, key: Key, t: nat)
    requires IdsNeverDecrease(Written(calls))
    ensures var s := PlayAll(calls);
            Answer(LookupTables(Tables(s.mem + s.disk), key, t), InMemory(s.mem, key, t), t) == Owing(calls, key, t)
  {
    hide PlayAll, Written, Flatten;
    var s := PlayAll(calls);
    RunHoldsWritten(calls);
    LayeredReads(s.mem + s.disk, key, t);
    NewestIsLastWrite(Written(calls), key, t);
  }
}
