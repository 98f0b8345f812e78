/** Runs of the engine seen as writes and table changes: when reading newest table first
    gives the newest version, and when it cannot. */
module Layering {
  import opened Keys
  import opened Versions

  /** `Seal` stands for whatever makes later writes go to a new table: a freeze, or a
      flush of the current table. Moving a sealed table to disk changes no order. */
  datatype Step = Write(v: Version) | Seal

  function Run(steps: seq<Step>): (segs: seq<seq<Version>>)
    ensures segs != []
  {
    if steps == [] then [[]]
    else
      var segs := Run(steps[..|steps| - 1]);
      match steps[|steps| - 1]
      case Write(v) => segs[0 := segs[0] + [v]]
      case Seal => [[]] + segs
  }

  function Writes(steps: seq<Step>): (hist: seq<Version>) {
    if steps == [] then []
    else
      var hist := Writes(steps[..|steps| - 1]);
      match steps[|steps| - 1]
      case Write(v) => hist + [v]
      case Seal => hist
  }

  lemma {:induction false} RunHoldsWrites(steps: seq<Step>)
    ensures Flatten(Run(steps)) == Writes(steps)
  {
    if steps != [] {
      var segs := Run(steps[..|steps| - 1]);
      RunHoldsWrites(steps[..|steps| - 1]);
      assert Run(steps)[1..] == if steps[|steps| - 1].Seal? then segs else segs[1..];
    }
  }

  ghost predicate ReadsNewest(steps: seq<Step>) {
    forall k, t :: LookupTables(Tables(Run(steps)), k, t) == Newest(Writes(steps), k, t)
  }

  lemma NeverDecreasePrefix(hist: seq<Version>, p: seq<Version>)
    requires p <= hist && IdsNeverDecrease(hist)
    ensures IdsNeverDecrease(p)
  {
  }

  lemma RunReadsNewest(steps: seq<Step>)
    requires IdsNeverDecrease(Writes(steps))
    ensures ReadsNewest(steps)
  {
    RunHoldsWrites(steps);
    forall k, t ensures LookupTables(Tables(Run(steps)), k, t) == Newest(Writes(steps), k, t) {
      LayeredReads(Run(steps), k, t);
    }
  }

  function JustWrites(hist: seq<Version>): (steps: seq<Step>)
    ensures |steps| == |hist|
  {
    seq(|hist|, i requires 0 <= i < |hist| => Write(hist[i]))
  }

  lemma {:induction false} JustWritesRun(hist: seq<Version>)
    ensures Run(JustWrites(hist)) == [hist] && Writes(JustWrites(hist)) == hist
  {
    if hist != [] {
      var n := |hist| - 1;
      JustWritesRun(hist[..n]);
      assert JustWrites(hist)[..n] == JustWrites(hist[..n]);
      assert hist == hist[..n] + [hist[n]];
    }
  }

  /** Seal the table just before a write whose id is below an earlier one of its key: the
      reader at the earlier id now gets the lower one. */
  lemma InversionMisread(hist: seq<Version>, i: nat, j: nat) returns (steps: seq<Step>)
    requires i < j < |hist| && hist[i].key == hist[j].key && hist[i].tid > hist[j].tid
    ensures Writes(steps) == hist[..j + 1] && !ReadsNewest(steps)
  {
    var before, v := hist[..j], hist[j];
    var sealed := JustWrites(before) + [Seal];
    steps := sealed + [Write(v)];
    JustWritesRun(before);
    assert sealed[..j] == JustWrites(before);
    assert steps[..j + 1] == sealed && hist[..j + 1] == before + [v];
    assert Run(sealed) == [[], before];
    assert Run(steps) == Run(sealed)[0 := [] + [v]];
    assert [] + [v] == [v];
    assert Writes(steps) == before + [v] == hist[..j + 1];
    OneWrite(v, hist[i].tid);
    assert Tables(Run(steps))[0] == Fold([v]);
    NewestInHistory(hist[..j + 1], v.key, hist[i].tid);
    assert hist[i] in hist[..j + 1];
    assert LookupTables(Tables(Run(steps)), v.key, hist[i].tid) == Some(v);
  }

  lemma OneWrite(v: Version, t: nat)
    requires Visible(v.tid, t)
    ensures Lookup(Fold([v]), v.key, t) == Some(v)
  {
    assert [v][..0] == [] && Fold([v]) == Insert([], v);
  }

  /** Reading newest table first is right on every run over a history, wherever tables
      change, exactly when ids of a key never decrease in it. */
  lemma ReadsNewestExactlyWhenIdsNeverDecrease(hist: seq<Version>)
    ensures (forall steps :: Writes(steps) <= hist ==> ReadsNewest(steps)) <==> IdsNeverDecrease(hist)
  {
    if IdsNeverDecrease(hist) {
      forall steps | Writes(steps) <= hist ensures ReadsNewest(steps) {
        NeverDecreasePrefix(hist, Writes(steps));
        RunReadsNewest(steps);
      }
    } else {
      var i, j :| 0 <= i < j < |hist| && hist[i].key == hist[j].key && hist[i].tid > hist[j].tid;
      var steps := InversionMisread(hist, i, j);
    }
  }

  // ----- stacks of tables

  /** The tables a flush chooses from: a lone current table is frozen first. */
  ghost function Flushable(segs: seq<seq<Version>>): (all: seq<seq<Version>>)
    requires segs != []
    ensures |all| >= 2
  {
    if |segs| == 1 then [[]] + segs else segs
  }

  /** The tables in memory and on disk, each newest first. */
  datatype Tiers = Tiers(mem: seq<seq<Version>>, disk: seq<seq<Version>>)

  /** The accounted bytes of a stack of tables. */
  function TotalSize(segs: seq<seq<Version>>): (n: nat) {
    if segs == [] then 0 else Size(Fold(segs[0])) + TotalSize(segs[1..])
  }

  /** What a flush does to the tables: the oldest one in memory goes to disk, or is dropped
      when it is empty. */
  ghost function AfterFlush(s: Tiers): (r: Tiers)
    requires s.mem != []
    ensures r.mem != []
  {
    if TotalSize(s.mem) == 0 then s
    else
      var all := Flushable(s.mem);
      var n := |all| - 1;
      Tiers(all[..n], if all[n] == [] then s.disk else [all[n]] + s.disk)
  }

  ghost function AfterWrite(s: Tiers, v: Version): (r: Tiers)
    requires s.mem != []
    ensures r.mem != []
  {
    s.(mem := s.mem[0 := s.mem[0] + [v]])
  }

  ghost function AfterFreeze(s: Tiers): (r: Tiers) {
    s.(mem := [[]] + s.mem)
  }

  ghost function HistoryOf(s: Tiers): (hist: seq<Version>) {
    Flatten(s.mem + s.disk)
  }

  lemma {:induction false} FlattenConcat(a: seq<seq<Version>>, b: seq<seq<Version>>)
    ensures Flatten(a + b) == Flatten(b) + Flatten(a)
  {
    if a == [] {
      assert a + b == b;
    } else {
      FlattenConcat(a[1..], b);
      assert (a + b)[1..] == a[1..] + b && (a + b)[0] == a[0];
      assert (Flatten(b) + Flatten(a[1..])) + a[0] == Flatten(b) + (Flatten(a[1..]) + a[0]);
    }
  }

  /** Moving the oldest table to disk, or dropping it when it is empty, loses no write. */
  lemma FlushKeepsHistory(segs: seq<seq<Version>>, disk: seq<seq<Version>>)
    requires segs != []
    ensures var all := Flushable(segs);
            var n := |all| - 1;
            && Flatten(all[..n] + ([all[n]] + disk)) == Flatten(segs + disk)
            && (all[n] == [] ==> Flatten(all[..n] + disk) == Flatten(segs + disk))
  {
    hide Flatten;
    var all := Flushable(segs);
    var n := |all| - 1;
    assert all[..n] + ([all[n]] + disk) == all + disk;
    assert all == all[..n] + [all[n]];
    FlattenConcat(all, disk);
    FlattenConcat(segs, disk);
    FlattenConcat(all[..n], disk);
    FlattenConcat(all[..n], [all[n]]);
    FlattenOne(all[n]);
    if |segs| == 1 {
      FlattenOne([]);
      FlattenConcat([[]], segs);
    }
  }

  lemma FlattenOne(seg: seq<Version>)
    ensures Flatten([seg]) == seg
  {
    assert [seg][1..] == [];
  }

  /** Memory in front of level 0 is one stack of tables. */
  lemma {:induction false} LookupStacked(a: seq<seq<Version>>, b: seq<seq<Version>>, k: Key, t: nat)
    ensures var r := LookupTables(Tables(a), k, t);
            LookupTables(Tables(a + b), k, t) == if r.Some? then r else LookupTables(Tables(b), k, t)
  {
    if a == [] {
      assert a + b == b;
    } else {
      LookupStacked(a[1..], b, k, t);
      assert Tables(a)[1..] == Tables(a[1..]);
      assert Tables(a + b)[1..] == Tables((a + b)[1..]) && (a + b)[1..] == a[1..] + b;
    }
  }

  /** Writes join the history at its end; flushes and freezes keep it. */
  lemma TiersHistory(s: Tiers, v: Version)
    requires s.mem != []
    ensures HistoryOf(AfterFlush(s)) == HistoryOf(s)
    ensures HistoryOf(AfterFreeze(s)) == HistoryOf(s)
    ensures HistoryOf(AfterWrite(s, v)) == HistoryOf(s) + [v]
  {
    hide Flatten;
    FlushKeepsHistory(s.mem, s.disk);
    FlattenOne([]);
    FlattenConcat([[]], s.mem + s.disk);
    assert ([[]] + s.mem) + s.disk == [[]] + (s.mem + s.disk);
    AppendToCurrent(s.mem, s.disk, [v]);
  }

  lemma AppendToCurrent(mem: seq<seq<Version>>, disk: seq<seq<Version>>, vs: seq<Version>)
    requires mem != []
    ensures Flatten(mem[0 := mem[0] + vs] + disk) == Flatten(mem + disk) + vs
  {
    var a, b := mem[0 := mem[0] + vs] + disk, mem + disk;
    assert a[1..] == b[1..];
  }

  /** The accounted total is 0 exactly when no table holds a write. */
  lemma {:induction false} NothingLeft(segs: seq<seq<Version>>)
    ensures TotalSize(segs) == 0 <==> forall i :: 0 <= i < |segs| ==> segs[i] == []
  {
    if segs != [] {
      NothingLeft(segs[1..]);
      FoldNonEmpty(segs[0]);
      if TotalSize(segs) == 0 {
        forall i | 0 <= i < |segs| ensures segs[i] == [] {
          assert i > 0 ==> segs[i] == segs[1..][i - 1];
        }
      } else if segs[0] == [] {
        var i :| 0 <= i < |segs[1..]| && segs[1..][i] != [];
        assert segs[i + 1] != [];
      }
    }
  }

  /** An empty table behind one that is not. */
  ghost predicate EmptyBehind(segs: seq<seq<Version>>) {
    exists j, i :: 0 <= j < i < |segs| && segs[j] != [] && segs[i] == []
  }

  /** How one flush of what is held in memory bears on that. */
  lemma FlushEmptyBehind(segs: seq<seq<Version>>)
    requires segs != [] && TotalSize(segs) > 0
    ensures var all := Flushable(segs);
            var n := |all| - 1;
            && (all[n] == [] ==> EmptyBehind(segs))
            && (all[n] != [] ==> (EmptyBehind(all[..n]) <==> EmptyBehind(segs)))
  {
    NothingLeft(segs);
    var all := Flushable(segs);
    var n := |all| - 1;
    var j :| 0 <= j < |segs| && segs[j] != [];
    if |segs| > 1 && all[n] != [] {
      assert forall i :: 0 <= i < n ==> all[..n][i] == segs[i];
      if EmptyBehind(all[..n]) {
        var x, y :| 0 <= x < y < |all[..n]| && all[..n][x] != [] && all[..n][y] == [];
        assert segs[x] != [] && segs[y] == [];
      }
    }
  }

  // ----- a table is no larger than its history

  lemma {:induction false} FoldSize(hist: seq<Version>)
    ensures |Fold(hist)| <= |hist| && Size(Fold(hist)) <= Size(hist)
  {
    if hist != [] {
      var n := |hist| - 1;
      var es, v := Fold(hist[..n]), hist[n];
      FoldSize(hist[..n]);
      FoldSorted(hist[..n]);
      var p := SlotExists(es, v);
      InsertAt(es, v, p);
      SizeInserted(es, p, v);
      if p < |es| && SameSlot(es[p], v) {
        SizeReplaced(es, p, v);
      }
      assert hist == hist[..n] + [v] && [v][1..] == [];
      SizeConcat(hist[..n], [v]);
    }
  }

  lemma {:induction false} SegmentSize(segs: seq<seq<Version>>, i: nat)
    requires i < |segs|
    ensures |segs[i]| <= |Flatten(segs)| && Size(segs[i]) <= Size(Flatten(segs))
  {
    SizeConcat(Flatten(segs[1..]), segs[0]);
    if i > 0 {
      SegmentSize(segs[1..], i - 1);
    }
  }
}
