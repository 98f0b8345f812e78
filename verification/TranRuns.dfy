/** Interleavings of RepeatableRead and Serializable transactions with freezes and flushes:
    what the commit check guarantees about the order of committed ids. Committing applies
    the staged writes, as the design has it. */
module TranRuns {
  import opened Keys
  import opened Versions
  import opened Layering

  datatype Status = Active | Committed | RolledBack

  datatype Tran = Tran(writes: map<Key, Value>, status: Status)

  /** The store as the writes each table holds, newest table first, memory before disk. */
  datatype State = State(nextId: nat, trans: map<nat, Tran>, mem: seq<seq<Version>>, disk: seq<seq<Version>>)

  const START: State := State(1, map[], [[]], [])

  /** `order` is the order the hash map of staged writes happens to be walked in. */
  datatype Op =
    | Begin
    | Stage(tid: nat, key: Key, value: Value)
    | Commit(tid: nat, order: seq<Key>)
    | Freeze
    | Flush

  ghost function Segs(s: State): seq<seq<Version>> {
    s.mem + s.disk
  }

  ghost function Hist(s: State): seq<Version> {
    Flatten(Segs(s))
  }

  // ----- the check

  /** A read of `tables` at id 0 answers with an id above `tid`. */
  ghost predicate Newer(tables: seq<seq<Version>>, k: Key, tid: nat) {
    var r := LookupTables(Tables(tables), k, 0);
    r.Some? && r.value.tid > tid
  }

  /** The check as meant: no staged key was committed by a later transaction. */
  ghost predicate NoConflict(s: State, tid: nat, writes: map<Key, Value>) {
    forall k :: k in writes ==> !Newer(Segs(s), k, tid)
  }

  /** The check the source makes: its look at the files can never see an id above 0. */
  ghost predicate NoMemoryConflict(s: State, tid: nat, writes: map<Key, Value>) {
    forall k :: k in writes ==> !Newer(s.mem, k, tid)
  }

  // ----- steps; an operation that is not possible changes nothing

  ghost predicate IsOrderOf(order: seq<Key>, writes: map<Key, Value>) {
    && (forall i, j :: 0 <= i < j < |order| ==> order[i] != order[j])
    && (forall k :: k in order <==> k in writes)
  }

  function Staged(order: seq<Key>, writes: map<Key, Value>, tid: nat): (vs: seq<Version>)
    requires forall k :: k in order ==> k in writes
    ensures |vs| == |order| && forall i :: 0 <= i < |order| ==> vs[i] == Version(order[i], writes[order[i]], tid)
  {
    seq(|order|, i requires 0 <= i < |order| => Version(order[i], writes[order[i]], tid))
  }

  ghost predicate CanCommit(s: State, tid: nat, order: seq<Key>) {
    tid in s.trans && s.trans[tid].status == Active && IsOrderOf(order, s.trans[tid].writes)
  }

  ghost function Committing(s: State, tid: nat, order: seq<Key>, accepted: bool): State
    requires CanCommit(s, tid, order) && s.mem != []
  {
    var t := s.trans[tid];
    if accepted then
      s.(trans := s.trans[tid := t.(status := Committed)],
         mem := s.mem[0 := s.mem[0] + Staged(order, t.writes, tid)])
    else s.(trans := s.trans[tid := t.(status := RolledBack)])
  }

  ghost function Flushed(s: State): State
    requires s.mem != []
  {
    var r := AfterFlush(Tiers(s.mem, s.disk));
    s.(mem := r.mem, disk := r.disk)
  }

  ghost function Step(s: State, op: Op, memoryOnly: bool): (r: State)
    requires s.mem != []
    ensures r.mem != []
  {
    match op
    case Begin => s.(nextId := s.nextId + 1, trans := s.trans[s.nextId := Tran(map[], Active)])
    case Stage(tid, key, value) =>
      if tid in s.trans && s.trans[tid].status == Active then
        s.(trans := s.trans[tid := s.trans[tid].(writes := s.trans[tid].writes[key := value])])
      else s
    case Commit(tid, order) =>
      if CanCommit(s, tid, order) then
        var writes := s.trans[tid].writes;
        Committing(s, tid, order, if memoryOnly then NoMemoryConflict(s, tid, writes) else NoConflict(s, tid, writes))
      else s
    case Freeze => s.(mem := [[]] + s.mem)
    case Flush => Flushed(s)
  }

  ghost function Run(ops: seq<Op>, memoryOnly: bool): (s: State)
    ensures s.mem != []
  {
    if ops == [] then START else Step(Run(ops[..|ops| - 1], memoryOnly), ops[|ops| - 1], memoryOnly)
  }

  // ----- what every state keeps

  /** Committed ids of a key increase in commit order. */
  ghost predicate IdsIncrease(hist: seq<Version>) {
    forall i, j :: 0 <= i < j < |hist| && hist[i].key == hist[j].key ==> hist[i].tid < hist[j].tid
  }

  /** Only committed transactions have written, and ids are handed out once. */
  ghost predicate Owned(s: State) {
    && (forall tid :: tid in s.trans ==> tid < s.nextId)
    && (forall v :: v in Hist(s) ==> v.tid in s.trans && s.trans[v.tid].status == Committed)
  }

  /** The writes one operation adds to the history. */
  ghost function Added(s: State, op: Op, memoryOnly: bool): (vs: seq<Version>)
    requires s.mem != []
  {
    if op.Commit? && CanCommit(s, op.tid, op.order)
       && (if memoryOnly then NoMemoryConflict(s, op.tid, s.trans[op.tid].writes)
           else NoConflict(s, op.tid, s.trans[op.tid].writes))
    then Staged(op.order, s.trans[op.tid].writes, op.tid) else []
  }

  /** Freezing and flushing write nothing and lose nothing. */
  lemma StepHistory(s: State, op: Op, memoryOnly: bool)
    requires s.mem != []
    ensures Hist(Step(s, op, memoryOnly)) == Hist(s) + Added(s, op, memoryOnly)
  {
    hide Flatten, NoConflict, NoMemoryConflict;
    match op {
      case Freeze =>
        FlattenOne([]);
        FlattenConcat([[]], Segs(s));
        assert ([[]] + s.mem) + s.disk == [[]] + Segs(s);
      case Flush => TiersHistory(Tiers(s.mem, s.disk), Version([], [], 0));
      case Commit(tid, order) =>
        var vs := Added(s, op, memoryOnly);
        AppendToCurrent(s.mem, s.disk, vs);
        assert s.mem[0] + [] == s.mem[0];
      case _ =>
    }
  }

  lemma StepOwned(s: State, op: Op, memoryOnly: bool)
    requires s.mem != [] && Owned(s)
    ensures Owned(Step(s, op, memoryOnly))
  {
    hide Flatten, NoConflict, NoMemoryConflict, Flushable, IsOrderOf;
    StepHistory(s, op, memoryOnly);
  }

  // ----- the order of committed ids

  lemma IncreaseNeverDecrease(hist: seq<Version>)
    requires IdsIncrease(hist)
    ensures IdsNeverDecrease(hist)
  {
  }

  /** Appending one transaction's writes keeps ids increasing exactly when every earlier
      version of their keys has a smaller id. */
  lemma IncreaseAppended(hist: seq<Version>, order: seq<Key>, writes: map<Key, Value>, tid: nat)
    requires IdsIncrease(hist) && IsOrderOf(order, writes)
    ensures IdsIncrease(hist + Staged(order, writes, tid)) <==>
            forall v :: v in hist && v.key in writes ==> v.tid < tid
  {
    var vs := Staged(order, writes, tid);
    var all := hist + vs;
    if v :| v in hist && v.key in writes && v.tid >= tid {
      var i :| 0 <= i < |hist| && hist[i] == v;
      var j :| 0 <= j < |order| && order[j] == v.key;
      assert all[i] == v && all[|hist| + j] == vs[j];
    }
  }

  /** What the check finds: the versions of a key a read may meet first. */
  lemma NewerMeaning(segs: seq<seq<Version>>, k: Key, tid: nat)
    requires IdsNeverDecrease(Flatten(segs))
    ensures Newer(segs, k, tid) <==> exists v :: v in Flatten(segs) && v.key == k && v.tid > tid
  {
    LayeredReads(segs, k, 0);
    NewestInHistory(Flatten(segs), k, 0);
  }

  /** A commit keeps ids increasing exactly when the full check accepts it. */
  lemma CommitKeepsOrderExactlyWhen(s: State, tid: nat, order: seq<Key>)
    requires s.mem != [] && Owned(s) && IdsIncrease(Hist(s)) && CanCommit(s, tid, order)
    ensures IdsIncrease(Hist(s) + Staged(order, s.trans[tid].writes, tid)) <==> NoConflict(s, tid, s.trans[tid].writes)
  {
    hide Newer;
    var writes := s.trans[tid].writes;
    IncreaseNeverDecrease(Hist(s));
    IncreaseAppended(Hist(s), order, writes, tid);
    forall k | k in writes
      ensures Newer(Segs(s), k, tid) <==> exists v :: v in Hist(s) && v.key == k && v.tid > tid
    {
      NewerMeaning(Segs(s), k, tid);
    }
  }

  /** Over every interleaving, committed ids of each key increase in commit order. */
  lemma {:induction false} CommittedIdsIncrease(ops: seq<Op>)
    ensures Owned(Run(ops, false)) && IdsIncrease(Hist(Run(ops, false)))
  {
    hide Flatten, NoConflict, IdsIncrease, Owned, CanCommit, Staged;
    if ops == [] {
      StartIsSound();
    } else {
      var p, op := Run(ops[..|ops| - 1], false), ops[|ops| - 1];
      CommittedIdsIncrease(ops[..|ops| - 1]);
      StepOwned(p, op, false);
      StepHistory(p, op, false);
      assert Hist(p) + [] == Hist(p);
      if op.Commit? && CanCommit(p, op.tid, op.order) {
        CommitKeepsOrderExactlyWhen(p, op.tid, op.order);
      }
    }
  }

  lemma StartIsSound()
    ensures Owned(START) && IdsIncrease(Hist(START))
  {
    assert Segs(START)[1..] == [];
  }

  /** So every read of a committed state answers with the last visible write, which is the
      one with the largest visible id, wherever tables were frozen or flushed. */
  lemma CommittedReads(ops: seq<Op>, k: Key, t: nat)
    ensures var s := Run(ops, false);
            LookupTables(Tables(Segs(s)), k, t) == LastWrite(Hist(s), k, t) == Newest(Hist(s), k, t)
  {
    hide Flatten;
    var s := Run(ops, false);
    CommittedIdsIncrease(ops);
    IncreaseNeverDecrease(Hist(s));
    LayeredReads(Segs(s), k, t);
    NewestIsLastWrite(Hist(s), k, t);
  }

  // ----- the check that only sees memory

  /** A commit the memory-only check lets through over a newer version already on disk. */
  ghost predicate Unseen(s: State, op: Op) {
    && op.Commit? && CanCommit(s, op.tid, op.order)
    && NoMemoryConflict(s, op.tid, s.trans[op.tid].writes)
    && exists k :: k in s.trans[op.tid].writes && Newer(s.disk, k, op.tid)
  }

  lemma VerdictsDifferExactlyWhenUnseen(s: State, op: Op)
    requires s.mem != [] && IdsIncrease(Hist(s))
    requires op.Commit? && CanCommit(s, op.tid, op.order)
    ensures var writes := s.trans[op.tid].writes;
            && (NoConflict(s, op.tid, writes) ==> NoMemoryConflict(s, op.tid, writes))
            && (Unseen(s, op) <==> NoMemoryConflict(s, op.tid, writes) && !NoConflict(s, op.tid, writes))
  {
    hide Flatten, IsOrderOf, LookupTables, Tables;
    IncreaseNeverDecrease(Hist(s));
    FlattenConcat(s.mem, s.disk);
    forall k
      ensures Newer(s.mem, k, op.tid) ==> Newer(Segs(s), k, op.tid)
      ensures Newer(s.disk, k, op.tid) ==> Newer(Segs(s), k, op.tid)
      ensures Newer(Segs(s), k, op.tid) ==> Newer(s.mem, k, op.tid) || Newer(s.disk, k, op.tid)
    {
      LookupStacked(s.mem, s.disk, k, 0);
      DiskNeverDecreases(s.mem, s.disk);
      NewerMeaning(s.disk, k, op.tid);
      NewerMeaning(Segs(s), k, op.tid);
    }
  }

  lemma DiskNeverDecreases(mem: seq<seq<Version>>, disk: seq<seq<Version>>)
    requires IdsNeverDecrease(Flatten(mem + disk))
    ensures IdsNeverDecrease(Flatten(disk))
  {
    FlattenConcat(mem, disk);
    var h, d := Flatten(mem + disk), Flatten(disk);
    assert forall i :: 0 <= i < |d| ==> d[i] == h[i];
  }

  /** One step of the memory-only system keeps ids increasing, and agrees with the full
      check, exactly when it is not an unseen conflict. */
  lemma MemoryStep(s: State, op: Op)
    requires s.mem != [] && Owned(s) && IdsIncrease(Hist(s))
    ensures IdsIncrease(Hist(Step(s, op, true))) <==> !Unseen(s, op)
    ensures !Unseen(s, op) ==> Step(s, op, true) == Step(s, op, false)
  {
    hide Flatten, NoConflict, NoMemoryConflict, IdsIncrease, Owned, CanCommit, Staged, Flushable;
    StepHistory(s, op, true);
    assert Hist(s) + [] == Hist(s);
    if op.Commit? && CanCommit(s, op.tid, op.order) {
      VerdictsDifferExactlyWhenUnseen(s, op);
      CommitKeepsOrderExactlyWhen(s, op.tid, op.order);
    } else {
      assert Added(s, op, true) == [] && !Unseen(s, op);
    }
  }

  lemma PrefixIncreases(hist: seq<Version>, more: seq<Version>)
    requires IdsIncrease(hist + more)
    ensures IdsIncrease(hist)
  {
    var all := hist + more;
    assert forall i :: 0 <= i < |hist| ==> hist[i] == all[i];
  }

  ghost predicate UnseenAt(ops: seq<Op>, n: nat)
    requires n < |ops|
  {
    Unseen(Run(ops[..n], true), ops[n])
  }

  lemma UnseenEarlier(ops: seq<Op>, m: nat, n: nat)
    requires n < m <= |ops|
    ensures UnseenAt(ops[..m], n) == UnseenAt(ops, n)
  {
    assert ops[..m][..n] == ops[..n];
  }

  /** With the check as written, a run keeps committed ids increasing exactly when no
      commit in it was an unseen conflict; then it is the run of the full check. */
  lemma {:induction false} MemoryRunsIncreaseExactlyWhenNothingUnseen(ops: seq<Op>)
    ensures IdsIncrease(Hist(Run(ops, true))) <==> forall n :: 0 <= n < |ops| ==> !UnseenAt(ops, n)
    ensures IdsIncrease(Hist(Run(ops, true))) ==> Run(ops, true) == Run(ops, false)
  {
    hide Hist, UnseenAt, IdsIncrease, Step, Owned, Unseen;
    if ops == [] {
      StartIsSound();
    } else {
      var m := |ops| - 1;
      MemoryRunsIncreaseExactlyWhenNothingUnseen(ops[..m]);
      LastOfMemoryRun(ops);
      forall n | 0 <= n < m ensures UnseenAt(ops[..m], n) == UnseenAt(ops, n) {
        UnseenEarlier(ops, m, n);
      }
    }
  }

  lemma LastOfMemoryRun(ops: seq<Op>)
    requires ops != []
    requires var m := |ops| - 1;
             IdsIncrease(Hist(Run(ops[..m], true))) ==> Run(ops[..m], true) == Run(ops[..m], false)
    ensures var m := |ops| - 1;
            && (IdsIncrease(Hist(Run(ops, true))) <==> IdsIncrease(Hist(Run(ops[..m], true))) && !UnseenAt(ops, m))
            && (IdsIncrease(Hist(Run(ops, true))) ==> Run(ops, true) == Run(ops, false))
  {
    hide Hist, IdsIncrease, Step, Owned, Unseen, Added;
    var m := |ops| - 1;
    var p, op := Run(ops[..m], true), ops[m];
    StepHistory(p, op, true);
    if IdsIncrease(Hist(p)) {
      CommittedIdsIncrease(ops[..m]);
      MemoryStep(p, op);
    } else if IdsIncrease(Hist(Run(ops, true))) {
      PrefixIncreases(Hist(p), Added(p, op, true));
    }
  }

  /** Transaction 2 commits a key, its table is flushed, then transaction 1 commits it too. */
  const LOST_UPDATE: seq<Op> :=
    [Begin, Begin, Stage(2, [], [2]), Commit(2, [[]]), Flush, Stage(1, [], [1]), Commit(1, [[]])]

  const SECOND: Version := Version([], [2], 2)

  function Two(first: Tran, second: Tran): map<nat, Tran> {
    map[1 := first, 2 := second]
  }

  /** The state before each operation from the first commit on. */
  const STAGED: State := State(3, Two(Tran(map[], Active), Tran(map[[] := [2]], Active)), [[]], [])
  const COMMITTED: State := State(3, Two(Tran(map[], Active), Tran(map[[] := [2]], Committed)), [[SECOND]], [])
  const FLUSHED: State := State(3, Two(Tran(map[], Active), Tran(map[[] := [2]], Committed)), [[]], [[SECOND]])
  const LAST: State := State(3, Two(Tran(map[[] := [1]], Active), Tran(map[[] := [2]], Committed)), [[]], [[SECOND]])

  lemma RunLast(n: nat, memoryOnly: bool)
    requires n < |LOST_UPDATE|
    ensures Run(LOST_UPDATE[..n + 1], memoryOnly) == Step(Run(LOST_UPDATE[..n], memoryOnly), LOST_UPDATE[n], memoryOnly)
  {
    assert LOST_UPDATE[..n + 1][..n] == LOST_UPDATE[..n];
  }

  lemma FirstCommit(memoryOnly: bool)
    ensures Step(STAGED, Commit(2, [[]]), memoryOnly) == COMMITTED
  {
    var s, writes := STAGED, map[[] := [2]];
    assert Segs(s) == s.mem == [[]] && Tables(s.mem)[0] == [] && Tables(s.mem)[1..] == [];
    assert !Newer(s.mem, [], 2);
    assert CanCommit(s, 2, [[]]) && s.trans[2].writes == writes;
    assert s.mem[0] + Staged([[]], writes, 2) == [SECOND];
  }

  lemma FlushCommitted(memoryOnly: bool)
    ensures Step(COMMITTED, Flush, memoryOnly) == FLUSHED
  {
    NothingLeft(COMMITTED.mem);
    assert Flushable(COMMITTED.mem) == [[], [SECOND]];
  }

  lemma LostUpdatePrefix(memoryOnly: bool)
    ensures Run(LOST_UPDATE[..6], memoryOnly) == LAST
  {
    RunStart(memoryOnly);
    hide Run, CanCommit, NoConflict, NoMemoryConflict, Newer, Flushed, Committing, IsOrderOf;
    RunLast(0, memoryOnly);
    RunLast(1, memoryOnly);
    RunLast(2, memoryOnly);
    RunLast(3, memoryOnly);
    RunLast(4, memoryOnly);
    RunLast(5, memoryOnly);
    assert Run(LOST_UPDATE[..2], memoryOnly) == State(3, Two(Tran(map[], Active), Tran(map[], Active)), [[]], []);
    assert Run(LOST_UPDATE[..3], memoryOnly) == STAGED;
    FirstCommit(memoryOnly);
    FlushCommitted(memoryOnly);
  }

  lemma RunStart(memoryOnly: bool)
    ensures Run(LOST_UPDATE[..0], memoryOnly) == START
  {
  }

  lemma LastConflict()
    ensures CanCommit(LAST, 1, [[]]) && Newer(Segs(LAST), [], 1) && !Newer(LAST.mem, [], 1)
    ensures Unseen(LAST, Commit(1, [[]]))
  {
    OneWrite(SECOND, 0);
    assert Tables(LAST.disk)[0] == Fold([SECOND]);
    LookupStacked(LAST.mem, LAST.disk, [], 0);
    assert Tables(LAST.mem)[0] == [] && Tables(LAST.mem)[1..] == [];
    assert Newer(LAST.disk, [], 1);
  }

  /** The check as written accepts transaction 1; later readers see its older id. The full
      check rolls it back. */
  lemma LostUpdate()
    ensures Unseen(Run(LOST_UPDATE[..6], true), LOST_UPDATE[6])
    ensures !IdsIncrease(Hist(Run(LOST_UPDATE, true)))
    ensures Run(LOST_UPDATE, true).trans == Two(Tran(map[[] := [1]], Committed), Tran(map[[] := [2]], Committed))
    ensures Run(LOST_UPDATE, false).trans == Two(Tran(map[[] := [1]], RolledBack), Tran(map[[] := [2]], Committed))
  {
    hide Run, CanCommit, Newer, IdsIncrease, Hist, Segs, Staged, Unseen;
    LostUpdatePrefix(true);
    LostUpdatePrefix(false);
    LastConflict();
    assert LOST_UPDATE[..7] == LOST_UPDATE;
    RunLast(6, true);
    RunLast(6, false);
    MemoryRunsIncreaseExactlyWhenNothingUnseen(LOST_UPDATE);
  }
}
