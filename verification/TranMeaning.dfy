/** What a run of transactions commits, read off its operations alone: for every accepted
    commit, in order, the last value staged for each of its keys. */
module TranMeaning {
  import opened Keys
  import opened Versions
  import opened TranRuns

  /** Transactions begun so far; the ids are 1 up to this number. */
  function Begins(ops: seq<Op>): (n: nat) {
    if ops == [] then 0 else Begins(ops[..|ops| - 1]) + if ops[|ops| - 1].Begin? then 1 else 0
  }

  predicate Begun(ops: seq<Op>, tid: nat) {
    1 <= tid <= Begins(ops)
  }

  /** The value of the last operation that staged `k` for the begun transaction `tid`. */
  function LastStaged(ops: seq<Op>, tid: nat, k: Key): (v: Option<Value>) {
    if ops == [] then None
    else
      var p, op := ops[..|ops| - 1], ops[|ops| - 1];
      if op.Stage? && op.tid == tid && op.key == k && Begun(p, tid) then Some(op.value) else LastStaged(p, tid, k)
  }

  /** `order` lists the keys staged for `tid`, each once. */
  ghost predicate Lists(ops: seq<Op>, tid: nat, order: seq<Key>) {
    && (forall i, j :: 0 <= i < j < |order| ==> order[i] != order[j])
    && (forall k :: k in order <==> LastStaged(ops, tid, k).Some?)
  }

  /** Begun, and no commit asked for yet. */
  ghost predicate Open(ops: seq<Op>, tid: nat) {
    if ops == [] then false
    else
      var p := ops[..|ops| - 1];
      match ops[|ops| - 1]
      case Begin => Open(p, tid) || tid == Begins(ops)
      case Commit(c, order) => Open(p, tid) && !(c == tid && Lists(p, tid, order))
      case _ => Open(p, tid)
  }

  ghost predicate NoneNewer(hist: seq<Version>, order: seq<Key>, tid: nat) {
    forall v :: v in hist && v.key in order ==> v.tid <= tid
  }

  ghost function Values(ops: seq<Op>, tid: nat, order: seq<Key>): (vs: seq<Version>)
    requires Lists(ops, tid, order)
    ensures |vs| == |order|
  {
    seq(|order|, i requires 0 <= i < |order| => Version(order[i], LastStaged(ops, tid, order[i]).value, tid))
  }

  /** The commit `tid` asks for is accepted: nothing it staged was committed by a later one. */
  ghost predicate Accepted(ops: seq<Op>, tid: nat, order: seq<Key>)
    decreases |ops|, 1
  {
    Open(ops, tid) && Lists(ops, tid, order) && NoneNewer(CommittedWrites(ops), order, tid)
  }

  ghost function CommittedWrites(ops: seq<Op>): (hist: seq<Version>)
    decreases |ops|, 0
  {
    if ops == [] then []
    else
      var p := ops[..|ops| - 1];
      CommittedWrites(p) +
      match ops[|ops| - 1]
      case Commit(tid, order) => if Accepted(p, tid, order) then Values(p, tid, order) else []
      case _ => []
  }

  // ----- the last operation that stages

  ghost predicate StagesAt(ops: seq<Op>, i: nat, tid: nat, k: Key) {
    i < |ops| && ops[i].Stage? && ops[i].tid == tid && ops[i].key == k && Begun(ops[..i], tid)
  }

  ghost predicate LastAt(ops: seq<Op>, i: nat, tid: nat, k: Key) {
    StagesAt(ops, i, tid, k) && forall j: nat :: i < j ==> !StagesAt(ops, j, tid, k)
  }

  lemma {:induction false} LastStagedMeaning(ops: seq<Op>, tid: nat, k: Key)
    ensures match LastStaged(ops, tid, k)
            case None => forall i: nat :: !StagesAt(ops, i, tid, k)
            case Some(v) => exists i: nat :: LastAt(ops, i, tid, k) && ops[i].value == v
  {
    if ops != [] {
      var n := |ops| - 1;
      var p := ops[..n];
      LastStagedMeaning(p, tid, k);
      forall i: nat | i < n ensures StagesAt(ops, i, tid, k) <==> StagesAt(p, i, tid, k) {
        assert ops[..i] == p[..i];
      }
      if StagesAt(ops, n, tid, k) {
        assert LastAt(ops, n, tid, k);
      } else if LastStaged(p, tid, k).Some? {
        var i: nat :| LastAt(p, i, tid, k) && p[i].value == LastStaged(p, tid, k).value;
        assert LastAt(ops, i, tid, k);
      }
    }
  }

  lemma {:induction false} NothingStagedYet(ops: seq<Op>, tid: nat, k: Key)
    requires !Begun(ops, tid)
    ensures LastStaged(ops, tid, k) == None
  {
    if ops != [] {
      NothingStagedYet(ops[..|ops| - 1], tid, k);
    }
  }

  // ----- the run does this

  ghost predicate IsOpen(s: State, tid: nat) {
    tid in s.trans && s.trans[tid].status == Active
  }

  /** The writes of an open transaction are what it staged last, key by key. */
  ghost predicate HoldsStaged(s: State, ops: seq<Op>, tid: nat)
    requires tid in s.trans
  {
    forall k ::
      && (k in s.trans[tid].writes <==> LastStaged(ops, tid, k).Some?)
      && (k in s.trans[tid].writes ==> LastStaged(ops, tid, k) == Some(s.trans[tid].writes[k]))
  }

  ghost predicate Matches(s: State, ops: seq<Op>) {
    && s.nextId == Begins(ops) + 1
    && (forall tid :: tid in s.trans ==> Begun(ops, tid))
    && (forall tid :: IsOpen(s, tid) <==> Open(ops, tid))
    && (forall tid :: IsOpen(s, tid) ==> HoldsStaged(s, ops, tid))
  }

  lemma CanCommitMeaning(s: State, ops: seq<Op>, tid: nat, order: seq<Key>)
    requires Matches(s, ops)
    ensures CanCommit(s, tid, order) <==> Open(ops, tid) && Lists(ops, tid, order)
    ensures CanCommit(s, tid, order) ==> Staged(order, s.trans[tid].writes, tid) == Values(ops, tid, order)
  {
    if IsOpen(s, tid) {
      assert HoldsStaged(s, ops, tid);
    }
  }

  lemma MatchesStep(s: State, ops: seq<Op>)
    requires ops != [] && s.mem != [] && Matches(s, ops[..|ops| - 1])
    ensures Matches(Step(s, ops[|ops| - 1], false), ops)
  {
    hide NoConflict, Lists, IsOrderOf, HoldsStaged;
    var p, op := ops[..|ops| - 1], ops[|ops| - 1];
    var r := Step(s, op, false);
    match op {
      case Begin => BeginHolds(s, r, ops);
      case Stage(c, key, value) => StageHolds(s, r, ops);
      case Commit(c, order) =>
        CanCommitMeaning(s, p, c, order);
        OthersHold(s, r, ops);
        forall tid ensures IsOpen(r, tid) <==> Open(ops, tid) {
          assert IsOpen(s, tid) <==> Open(p, tid);
        }
      case _ =>
        OthersHold(s, r, ops);
        forall tid ensures IsOpen(r, tid) <==> Open(ops, tid) {
          assert IsOpen(s, tid) <==> Open(p, tid);
        }
    }
  }

  lemma BeginHolds(s: State, r: State, ops: seq<Op>)
    requires ops != [] && ops[|ops| - 1].Begin? && Matches(s, ops[..|ops| - 1])
    requires s.mem != [] && r == Step(s, Begin, false)
    ensures forall tid :: IsOpen(r, tid) <==> Open(ops, tid)
    ensures forall tid :: IsOpen(r, tid) ==> HoldsStaged(r, ops, tid)
  {
    var p := ops[..|ops| - 1];
    forall tid ensures IsOpen(r, tid) <==> Open(ops, tid) {
      assert IsOpen(s, tid) <==> Open(p, tid);
    }
    forall tid | IsOpen(r, tid) ensures HoldsStaged(r, ops, tid) {
      if tid == s.nextId {
        forall k ensures LastStaged(p, tid, k) == None {
          NothingStagedYet(p, tid, k);
        }
      } else {
        assert IsOpen(s, tid) && HoldsStaged(s, p, tid);
      }
    }
  }

  lemma StageHolds(s: State, r: State, ops: seq<Op>)
    requires ops != [] && ops[|ops| - 1].Stage? && Matches(s, ops[..|ops| - 1])
    requires s.mem != [] && r == Step(s, ops[|ops| - 1], false)
    ensures forall tid :: IsOpen(r, tid) <==> IsOpen(s, tid)
    ensures forall tid :: IsOpen(r, tid) ==> HoldsStaged(r, ops, tid)
  {
    var p := ops[..|ops| - 1];
    forall tid | IsOpen(r, tid) ensures HoldsStaged(r, ops, tid) {
      assert IsOpen(s, tid) && HoldsStaged(s, p, tid) && Begun(p, tid);
    }
  }

  /** An operation that stages nothing and begins nothing leaves open transactions alone. */
  lemma OthersHold(s: State, r: State, ops: seq<Op>)
    requires ops != [] && !ops[|ops| - 1].Stage? && Matches(s, ops[..|ops| - 1])
    requires forall tid :: IsOpen(r, tid) ==> IsOpen(s, tid) && r.trans[tid] == s.trans[tid]
    ensures forall tid :: IsOpen(r, tid) ==> HoldsStaged(r, ops, tid)
  {
    var p := ops[..|ops| - 1];
    forall tid | IsOpen(r, tid) ensures HoldsStaged(r, ops, tid) {
      assert HoldsStaged(s, p, tid);
      assert forall k :: LastStaged(ops, tid, k) == LastStaged(p, tid, k);
    }
  }

  /** The check on the tables is the check on the history. */
  lemma NoConflictMeaning(s: State, tid: nat, writes: map<Key, Value>, order: seq<Key>)
    requires IdsIncrease(Hist(s)) && IsOrderOf(order, writes)
    ensures NoConflict(s, tid, writes) <==> NoneNewer(Hist(s), order, tid)
  {
    hide Newer, Hist;
    IncreaseNeverDecrease(Hist(s));
    forall k ensures Newer(Segs(s), k, tid) <==> exists v :: v in Hist(s) && v.key == k && v.tid > tid {
      NewerHistory(s, k, tid);
    }
  }

  lemma NewerHistory(s: State, k: Key, tid: nat)
    requires IdsNeverDecrease(Hist(s))
    ensures Newer(Segs(s), k, tid) <==> exists v :: v in Hist(s) && v.key == k && v.tid > tid
  {
    NewerMeaning(Segs(s), k, tid);
  }

  /** At every point of every run: which transactions are open, that each holds exactly the
      last value it staged for each key, and that the history is what the accepted commits
      staged, in order. */
  lemma {:induction false} RunMeaning(ops: seq<Op>)
    ensures Matches(Run(ops, false), ops)
    ensures Hist(Run(ops, false)) == CommittedWrites(ops)
  {
    hide Hist, Matches, CanCommit, Accepted, Added, Step, Staged;
    if ops == [] {
      StartMatches();
    } else {
      var p, op := ops[..|ops| - 1], ops[|ops| - 1];
      var s := Run(p, false);
      RunMeaning(p);
      MatchesStep(s, ops);
      StepHistory(s, op, false);
      CommittedIdsIncrease(p);
      AddedMeaning(s, p, op);
    }
  }

  lemma StartMatches()
    ensures Matches(START, []) && Hist(START) == []
  {
    assert Segs(START)[1..] == [];
  }

  lemma AddedMeaning(s: State, p: seq<Op>, op: Op)
    requires s.mem != [] && Matches(s, p) && Hist(s) == CommittedWrites(p) && IdsIncrease(Hist(s))
    ensures Added(s, op, false) ==
            if op.Commit? && Accepted(p, op.tid, op.order) then Values(p, op.tid, op.order) else []
  {
    hide Hist, Matches, NoConflict, NoneNewer, Staged, IdsIncrease, Values, CommittedWrites, Lists;
    if op.Commit? {
      CanCommitMeaning(s, p, op.tid, op.order);
      if CanCommit(s, op.tid, op.order) {
        NoConflictMeaning(s, op.tid, s.trans[op.tid].writes, op.order);
      }
    }
  }

  /** So a read answers with the last visible write of the accepted commits. */
  lemma ReadsOfCommits(ops: seq<Op>, k: Key, t: nat)
    ensures LookupTables(Tables(Segs(Run(ops, false))), k, t) == LastWrite(CommittedWrites(ops), k, t)
  {
    RunMeaning(ops);
    CommittedReads(ops, k, t);
  }
}
