/** The in-memory part of the engine: one table being written and the frozen ones behind
    it, newest first. */
module Memtables {
  import opened Keys
  import opened Versions
  import opened SkipLists
  import opened HeapIterators
  import opened Merging
  import opened Layering
  import opened Splitting
  import opened Ssts

  const MAX_LEVEL: nat := 16

  class Memtable {
    var currentTable: SkipList
    var frozenTables: seq<SkipList>
    var frozenBytes: int
    /** The writes each table holds, the current table's first. */
    ghost var segs: seq<seq<Version>>
    ghost var Repr: set<object>

    ghost function All(): seq<SkipList>
      reads `currentTable, `frozenTables
    {
      [currentTable] + frozenTables
    }

    ghost predicate TableOk(table: SkipList, seg: seq<Version>)
      reads `Repr, table, table.Repr
    {
      && table in Repr && table.Repr <= Repr && this !in table.Repr
      && table.Valid() && table.maxLevel == MAX_LEVEL && table.entries == Fold(seg)
    }

    ghost predicate Valid()
      reads this, Repr
      ensures Valid() ==> this in Repr && segs != []
    {
      && this in Repr
      && |segs| == 1 + |frozenTables|
      && (forall i :: 0 <= i < |All()| ==> All()[i] in Repr && All()[i].Repr <= Repr)
      && (forall i :: 0 <= i < |All()| ==> TableOk(All()[i], segs[i]))
      && (forall i, j :: 0 <= i < j < |All()| ==> All()[i].Repr !! All()[j].Repr)
      && frozenBytes == TotalSize(segs[1..])
    }

    constructor ()
      ensures Valid() && fresh(Repr) && segs == [[]]
    {
      var table := new SkipList(MAX_LEVEL);
      currentTable, frozenTables, frozenBytes := table, [], 0;
      segs, Repr := [[]], {this} + table.Repr;
    }

    /** `put_`; a removal is a put of the empty value. */
    method Put(key: Key, value: Value, tid: nat, randomLevel: nat, bits: seq<bool>)
      requires Valid() && 1 <= randomLevel <= MAX_LEVEL && |bits| == MAX_LEVEL
      modifies Repr
      ensures Valid() && fresh(Repr - old(Repr))
      ensures segs == old(segs)[0 := old(segs)[0] + [Version(key, value, tid)]]
    {
      hide Fold, Insert, TotalSize, SkipList.Valid;
      assert TableOk(All()[0], segs[0]);
      assert forall i {:trigger segs[i]} :: 1 <= i < |All()| ==>
               TableOk(All()[i], segs[i]) && All()[i].Repr !! All()[0].Repr;
      FoldMore(segs[0], Version(key, value, tid));
      currentTable.Put(key, value, tid, randomLevel, bits);
      segs := segs[0 := segs[0] + [Version(key, value, tid)]];
      Repr := Repr + currentTable.Repr;
      assert segs[1..] == old(segs)[1..];
    }

    /** The first table, newest first, that has a visible version answers. */
    method Get(key: Key, t: nat) returns (r: Node?)
      requires Valid()
      ensures match LookupTables(Tables(segs), key, t)
              case None => r == null
              case Some(v) => r != null && v == Version(r.key, r.value, r.tid)
    {
      hide Fold, TotalSize, SkipList.Valid;
      var i := 0;
      assert Tables(segs)[0..] == Tables(segs);
      while i <= |frozenTables|
        invariant 0 <= i <= |All()|
        invariant LookupTables(Tables(segs), key, t) == LookupTables(Tables(segs)[i..], key, t)
      {
        assert TableOk(All()[i], segs[i]);
        var table := if i == 0 then currentTable else frozenTables[i - 1];
        r := table.Get(key, t);
        if r != null {
          return;
        }
        assert Tables(segs)[i..][1..] == Tables(segs)[i + 1..];
        i := i + 1;
      }
      r := null;
    }

    method GetCurSize() returns (n: int)
      requires Valid()
      ensures n == Size(Fold(segs[0]))
    {
      assert TableOk(All()[0], segs[0]);
      n := currentTable.GetSize();
    }

    /** The total is exactly the bytes of all versions held. */
    method GetTotalSize() returns (n: int)
      requires Valid()
      ensures n == TotalSize(segs)
    {
      var cur := GetCurSize();
      n := cur + frozenBytes;
    }

    /** `frozen_cur_table_` */
    method FrozenCurTable()
      requires Valid()
      modifies Repr
      ensures Valid() && fresh(Repr - old(Repr))
      ensures segs == [[]] + old(segs)
    {
      hide Memtable.Valid;
      assert this in Repr;
      var table := new SkipList(MAX_LEVEL);
      Stack(table);
    }

    /** Freeze the current table behind the empty `table`. */
    method Stack(table: SkipList)
      requires Valid() && table.Valid() && table.maxLevel == MAX_LEVEL && table.entries == []
      requires table in table.Repr && table.Repr !! Repr
      modifies this
      ensures Valid() && Repr == old(Repr) + table.Repr
      ensures segs == [[]] + old(segs)
    {
      hide Fold, TotalSize, SkipList.Valid;
      FreezeSizes(segs);
      EmptyFold();
      ghost var all, before := All(), segs;
      var size := GetCurSize();
      frozenBytes := frozenBytes + size;
      frozenTables := [currentTable] + frozenTables;
      currentTable := table;
      segs := [[]] + segs;
      Repr := Repr + table.Repr;
      assert segs[1..] == before && All() == [table] + all;
    }

    /** Drop the oldest frozen table from the list and hand out its versions. */
    method TakeOldest() returns (data: seq<Version>)
      requires Valid() && |frozenTables| > 0
      modifies this
      ensures Valid() && Repr == old(Repr)
      ensures segs == old(segs)[..|old(segs)| - 1] && data == Fold(old(segs)[|old(segs)| - 1])
    {
      hide Fold, SkipList.Valid, TotalSize;
      var n := |frozenTables| - 1;
      var table := frozenTables[n];
      assert table == All()[n + 1] && TableOk(All()[n + 1], segs[n + 1]);
      TakeSizes(segs);
      var size := table.GetSize();
      frozenTables := frozenTables[..n];
      frozenBytes := frozenBytes - size;
      segs := segs[..n + 1];
      assert segs[1..] == old(segs)[1..n + 1];
      data := table.Flush();
      forall i | 0 <= i < |All()| ensures TableOk(All()[i], segs[i]) && All()[i] in Repr && All()[i].Repr <= Repr {
        assert All()[i] == old(All())[i] && segs[i] == old(segs)[i];
      }
    }

    /** Add every version of `data` to the builder. */
    method FeedBuilder(builder: SSTBuilder, data: seq<Version>)
      requires builder.Valid() && builder.added == []
      modifies builder, builder.block, builder.bloomFilter
      ensures builder.Valid() && builder.added == data
    {
      hide SSTBuilder.Valid;
      var i := 0;
      while i < |data|
        invariant 0 <= i <= |data| && builder.Valid() && builder.added == data[..i]
      {
        builder.Add(data[i].key, data[i].value, data[i].tid);
        i := i + 1;
      }
    }

    /** Write the oldest table, or the current one when none is frozen, to a file. An empty
        frozen table makes the builder throw after it has been dropped. */
    method FlushLast(builder: SSTBuilder, sstId: nat) returns (r: FlushResult)
      requires Valid() && builder.Valid() && builder.added == []
      requires builder !in Repr && builder.block !in Repr && builder.bloomFilter !in Repr
      modifies Repr, builder, builder.block, builder.bloomFilter
      ensures Valid() && fresh(Repr - old(Repr))
      ensures r == NothingToFlush <==> |old(segs)| == 1 && Size(Fold(old(segs)[0])) == 0
      ensures r == NothingToFlush ==> segs == old(segs)
      ensures r != NothingToFlush ==>
                var all := if |old(segs)| == 1 then [[]] + old(segs) else old(segs);
                var es := Fold(all[|all| - 1]);
                && segs == all[..|all| - 1]
                && (r == Threw <==> es == [])
                && (r.Flushed? ==> r.sst.id == sstId && FileOf(r.sst, es, builder.blockSize, builder.hash))
    {
      hide Fold, TotalSize, Size, SkipList.Valid, Chunks, FileOf, TableOk, SSTBuilder.Valid;
      if |frozenTables| == 0 {
        var size := GetCurSize();
        if size == 0 {
          return NothingToFlush;
        }
        FrozenCurTable();
      }
      ghost var all := segs;
      var data := TakeOldest();
      FeedBuilder(builder, data);
      ChunksEmpty(data, builder.blockSize);
      var built := builder.Build(sstId);
      if built.None? {
        return Threw;
      }
      return Flushed(built.value);
    }

    /** The selected range of one table, past the id filter, tagged with its index. */
    method CollectTable(table: SkipList, pred: Key -> int, idx: int, t: nat) returns (items: seq<SearchItem>)
      requires table.Valid() && MonotoneOn(table.entries, pred)
      ensures items == ItemsFrom(Satisfying(Offered(table.entries, t), pred), idx)
    {
      hide SkipList.Valid, MonotoneOn, Satisfying, Selects;
      var range, lo, hi := table.ItersMonotonyPredicate(pred);
      var vs := [];
      match range {
        case InvalidDirection => assert false;
        case Nothing => SatisfyingNone(table.entries, pred);
        case Found(begin, end) =>
          vs := table.CollectRange(begin, end, lo, hi);
          SelectsSatisfying(table.entries, pred, lo, hi);
      }
      OfferedSelected(table.entries, pred, t);
      items := PassItems(vs, idx, t);
    }

    /** The loop over one range. */
    method PassItems(vs: seq<Version>, idx: int, t: nat) returns (items: seq<SearchItem>)
      ensures items == ItemsFrom(Offered(vs, t), idx)
    {
      items := [];
      var i := 0;
      while i < |vs|
        invariant 0 <= i <= |vs| && items == ItemsFrom(Offered(vs[..i], t), idx)
      {
        assert vs[..i + 1][..i] == vs[..i];
        if !(t != 0 && vs[i].tid == 0) {
          items := items + [Item(vs[i], idx)];
        }
        i := i + 1;
      }
      assert vs[..i] == vs;
    }

    /** The merged range of all tables. The heap's comparator needs ids that agree with
        the order of the tables, which a history of never-decreasing ids gives. */
    method IterMonotonyPredicate(t: nat, pred: Key -> int) returns (iter: HeapIterator)
      requires Valid() && IdsNeverDecrease(Flatten(segs))
      requires forall i :: 0 <= i < |segs| ==> MonotoneOn(Fold(segs[i]), pred)
      ensures fresh(iter) && iter.maxTid == t && iter.items == Settle(iter.all, t)
      ensures InPopOrder(iter.all)
      ensures multiset(iter.all) == multiset(AllItems(OfferedTables(Tables(segs), t), pred, 0))
    {
      hide Fold, TotalSize, SkipList.Valid, MonotoneOn, IdsNeverDecrease, Layered, AllItems, InPopOrder,
        Orderable, Offered;
      var items := [];
      var i := 0;
      ghost var tables := OfferedTables(Tables(segs), t);
      assert tables[0..] == tables;
      while i <= |frozenTables|
        invariant 0 <= i <= |All()|
        invariant AllItems(tables, pred, 0) == items + AllItems(tables[i..], pred, i)
      {
        assert TableOk(All()[i], segs[i]);
        var found := CollectTable(if i == 0 then currentTable else frozenTables[i - 1], pred, i, t);
        MoreItems(tables, pred, i);
        items := items + found;
        i := i + 1;
      }
      NoMoreItems(tables, pred, i);
      assert items + [] == items;
      TablesLayered(segs);
      FoldsSorted(segs);
      OfferedLayered(Tables(segs), t);
      TablesOrderable(tables, pred, 0);
      iter := new HeapIterator(items, t);
    }

    /** A whole query: the iterator run to its end. Keys ascend, every pair is owed, and
        nothing owed is missing exactly when no value is hidden behind a removal or was
        written with id 0. At id 0 it lists the last writes that are no removals. */
    method RangeQuery(t: nat, pred: Key -> int) returns (out: seq<(Key, Value)>)
      requires Valid() && IdsNeverDecrease(Flatten(segs))
      requires forall i :: 0 <= i < |segs| ==> MonotoneOn(Fold(segs[i]), pred)
      ensures forall i, j :: 0 <= i < j < |out| ==> Lexicographic(out[i].0, out[j].0)
      ensures forall k, v :: (k, v) in out ==> Owed(Tables(segs), pred, t, k, v)
      ensures (forall k, v :: Owed(Tables(segs), pred, t, k, v) ==> (k, v) in out)
              <==> !HiddenBehindRemoval(Tables(segs), pred, t) && !HiddenAtZero(Tables(segs), pred, t)
      ensures t == 0 ==> forall k, v :: (k, v) in out <==>
                pred(k) == 0 && v != [] && exists tid :: LastWrite(Flatten(segs), k, 0) == Some(Version(k, v, tid))
    {
      hide Fold, Memtable.Valid, IdsNeverDecrease, Layered, AllItems, InPopOrder, Offered, Drain, Settle, Owed,
        HiddenBehindRemoval, HiddenAtZero, KeysAscending, LastWrite, Flatten, Lexicographic;
      var iter := IterMonotonyPredicate(t, pred);
      ghost var all := iter.all;
      SettledLegal(all, t);
      out := iter.Collect();
      DrainSettled(all, t);
      AscendingIsLexicographic(out);
      TablesLayered(segs);
      FoldsSorted(segs);
      RangeQueryMeaning(all, Tables(segs), pred, t);
      if t == 0 {
        RangeQueryOfHistory(all, segs, pred);
      }
    }
  }

  lemma SettledLegal(s: seq<SearchItem>, t: nat)
    ensures TopValueLegal(Settle(s, t), t)
  {
  }

  lemma MoreItems(tables: seq<seq<Version>>, pred: Key -> int, i: nat)
    requires i < |tables|
    ensures AllItems(tables[i..], pred, i) ==
            ItemsFrom(Satisfying(tables[i], pred), i) + AllItems(tables[i + 1..], pred, i + 1)
  {
    assert tables[i..][1..] == tables[i + 1..];
  }

  lemma NoMoreItems(tables: seq<seq<Version>>, pred: Key -> int, i: nat)
    requires i == |tables|
    ensures AllItems(tables[i..], pred, i) == []
  {
  }

  lemma FoldsSorted(segs: seq<seq<Version>>)
    ensures AllSorted(Tables(segs))
  {
    forall i | 0 <= i < |segs| ensures Sorted(Tables(segs)[i]) {
      FoldSorted(segs[i]);
    }
  }

  datatype FlushResult = NothingToFlush | Threw | Flushed(sst: Sst)

  lemma EmptyFold()
    ensures Fold([]) == []
  {
  }

  lemma FreezeSizes(segs: seq<seq<Version>>)
    requires segs != []
    ensures TotalSize(segs) == Size(Fold(segs[0])) + TotalSize(segs[1..])
  {
  }

  lemma {:induction false} TakeSizes(segs: seq<seq<Version>>)
    requires segs != []
    ensures var n := |segs| - 1; TotalSize(segs) == TotalSize(segs[..n]) + Size(Fold(segs[n]))
    ensures |segs| > 1 ==> var n := |segs| - 1; TotalSize(segs[1..]) == TotalSize(segs[1..n]) + Size(Fold(segs[n]))
  {
    hide Fold;
    var n := |segs| - 1;
    if n > 0 {
      TakeSizes(segs[1..]);
      assert segs[1..][..n - 1] == segs[1..n] == segs[..n][1..];
    }
  }

  lemma FoldMore(hist: seq<Version>, v: Version)
    ensures Fold(hist + [v]) == Insert(Fold(hist), v)
  {
    assert (hist + [v])[..|hist|] == hist;
  }
}
