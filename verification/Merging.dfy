/** What a range query over a stack of tables means: the items of all tables, merged by the
    heap iterator, answer key by key like a read of the stack. */
module Merging {
  import opened Keys
  import opened Versions
  import opened HeapIterators

  function Item(v: Version, idx: int): SearchItem {
    SearchItem(v.key, v.value, v.tid, idx, 0)
  }

  function ItemsFrom(es: seq<Version>, idx: int): (items: seq<SearchItem>)
    ensures |items| == |es| && forall i :: 0 <= i < |es| ==> items[i] == Item(es[i], idx)
  {
    seq(|es|, i requires 0 <= i < |es| => Item(es[i], idx))
  }

  /** What `pred` selects from each table, tagged with the table's index. */
  function AllItems(tables: seq<seq<Version>>, pred: Key -> int, idx: int): (items: seq<SearchItem>) {
    if tables == [] then []
    else ItemsFrom(Satisfying(tables[0], pred), idx) + AllItems(tables[1..], pred, idx + 1)
  }

  ghost predicate FromTable(x: SearchItem, tables: seq<seq<Version>>, pred: Key -> int, idx: int, m: nat) {
    m < |tables| && pred(x.key) == 0 && exists v :: v in tables[m] && x == Item(v, idx + m)
  }

  lemma {:induction false} ItemOrigin(x: SearchItem, tables: seq<seq<Version>>, pred: Key -> int, idx: int)
    requires x in AllItems(tables, pred, idx)
    ensures exists m: nat :: FromTable(x, tables, pred, idx, m)
  {
    var head := ItemsFrom(Satisfying(tables[0], pred), idx);
    if x in head {
      var i :| 0 <= i < |head| && head[i] == x;
      SatisfyingMember(tables[0], pred, Satisfying(tables[0], pred)[i]);
      assert FromTable(x, tables, pred, idx, 0);
    } else {
      ItemOrigin(x, tables[1..], pred, idx + 1);
      var m: nat :| FromTable(x, tables[1..], pred, idx + 1, m);
      assert FromTable(x, tables, pred, idx, m + 1);
    }
  }

  lemma {:induction false} ItemThere(v: Version, tables: seq<seq<Version>>, pred: Key -> int, idx: int, m: nat)
    requires m < |tables| && v in tables[m] && pred(v.key) == 0
    ensures Item(v, idx + m) in AllItems(tables, pred, idx)
  {
    if m == 0 {
      SatisfyingMember(tables[0], pred, v);
      var sat := Satisfying(tables[0], pred);
      var i :| 0 <= i < |sat| && sat[i] == v;
      assert ItemsFrom(sat, idx)[i] == Item(v, idx);
    } else {
      ItemThere(v, tables[1..], pred, idx + 1, m - 1);
    }
  }

  // ----- the queue can order them

  lemma {:induction false} SatisfyingSorted(es: seq<Version>, pred: Key -> int)
    requires Sorted(es)
    ensures Sorted(Satisfying(es, pred))
  {
    if es != [] {
      var n := |es| - 1;
      SatisfyingSorted(es[..n], pred);
      forall v | v in Satisfying(es[..n], pred) ensures Before(v, es[n]) {
        SatisfyingMember(es[..n], pred, v);
      }
    }
  }

  lemma ItemsOrderable(es: seq<Version>, idx: int)
    requires Sorted(es)
    ensures Orderable(ItemsFrom(es, idx))
  {
    var items := ItemsFrom(es, idx);
    forall i, j | 0 <= i < |items| && 0 <= j < |items| && i != j
      ensures Agree(items[i], items[j]) && !SamePlace(items[i], items[j])
    {
      BeforeTotal(es[i], es[j]);
      BeforeTotal(es[j], es[i]);
    }
  }

  lemma OrderableConcat(a: seq<SearchItem>, b: seq<SearchItem>)
    requires Orderable(a) && Orderable(b)
    requires forall x, y :: x in a && y in b ==> Agree(x, y) && Agree(y, x) && !SamePlace(x, y)
    ensures Orderable(a + b)
  {
    var c := a + b;
    forall i, j | 0 <= i < |c| && 0 <= j < |c| && i != j ensures Agree(c[i], c[j]) && !SamePlace(c[i], c[j]) {
      assert i >= |a| ==> c[i] == b[i - |a|];
      assert j >= |a| ==> c[j] == b[j - |a|];
    }
  }

  ghost predicate AllSorted(tables: seq<seq<Version>>) {
    forall i :: 0 <= i < |tables| ==> Sorted(tables[i])
  }

  /** An item of the newest table and one of an older table. */
  lemma AcrossTables(tables: seq<seq<Version>>, pred: Key -> int, idx: int, v: Version, y: SearchItem)
    requires tables != [] && Layered(tables) && v in tables[0] && y in AllItems(tables[1..], pred, idx + 1)
    ensures Agree(Item(v, idx), y) && Agree(y, Item(v, idx)) && !SamePlace(Item(v, idx), y)
  {
    ItemOrigin(y, tables[1..], pred, idx + 1);
    var m: nat :| FromTable(y, tables[1..], pred, idx + 1, m);
    var w :| w in tables[1..][m] && y == Item(w, idx + 1 + m);
    assert tables[m + 1] == tables[1..][m];
  }

  lemma LayeredTail(tables: seq<seq<Version>>)
    requires tables != [] && Layered(tables) && AllSorted(tables)
    ensures Layered(tables[1..]) && AllSorted(tables[1..])
  {
  }

  lemma {:induction false} TablesOrderable(tables: seq<seq<Version>>, pred: Key -> int, idx: int)
    requires Layered(tables) && AllSorted(tables)
    ensures Orderable(AllItems(tables, pred, idx))
  {
    hide Layered, Orderable, Agree, SamePlace, Less;
    if tables == [] {
      assert AllItems(tables, pred, idx) == [];
      NoItems();
    } else {
      var sat := Satisfying(tables[0], pred);
      var a, b := ItemsFrom(sat, idx), AllItems(tables[1..], pred, idx + 1);
      LayeredTail(tables);
      SatisfyingSorted(tables[0], pred);
      ItemsOrderable(sat, idx);
      TablesOrderable(tables[1..], pred, idx + 1);
      forall x, y | x in a && y in b ensures Agree(x, y) && Agree(y, x) && !SamePlace(x, y) {
        var i :| 0 <= i < |a| && a[i] == x;
        SatisfyingMember(tables[0], pred, sat[i]);
        AcrossTables(tables, pred, idx, sat[i], y);
      }
      OrderableConcat(a, b);
    }
  }

  lemma NoItems()
    ensures Orderable([])
  {
  }

  // ----- reading the merged items is reading the stack

  lemma {:induction false} LookupTablesAt(tables: seq<seq<Version>>, k: Key, t: nat)
    ensures match LookupTables(tables, k, t)
            case None => forall i :: 0 <= i < |tables| ==> Lookup(tables[i], k, t) == None
            case Some(v) => exists m :: 0 <= m < |tables| && Lookup(tables[m], k, t) == Some(v)
                                        && forall i :: 0 <= i < m ==> Lookup(tables[i], k, t) == None
  {
    if tables != [] {
      if Lookup(tables[0], k, t).None? {
        LookupTablesAt(tables[1..], k, t);
        if LookupTables(tables[1..], k, t).Some? {
          var m :| 0 <= m < |tables[1..]| && Lookup(tables[1..][m], k, t) == LookupTables(tables[1..], k, t)
                   && forall i :: 0 <= i < m ==> Lookup(tables[1..][i], k, t) == None;
          assert Lookup(tables[m + 1], k, t) == LookupTables(tables, k, t);
          forall i | 0 <= i < m + 1 ensures Lookup(tables[i], k, t) == None {
            assert i > 0 ==> tables[i] == tables[1..][i - 1];
          }
        } else {
          forall i | 0 <= i < |tables| ensures Lookup(tables[i], k, t) == None {
            assert i > 0 ==> tables[i] == tables[1..][i - 1];
          }
        }
      }
    }
  }

  lemma {:induction false} ScanFirst(s: seq<SearchItem>, p: nat, t: nat)
    requires InPopOrder(s) && p < |s| && Visible(s[p].tid, t)
    requires forall y :: y in s && y.key == s[p].key && Visible(y.tid, t) ==> y == s[p] || Precedes(s[p], y)
    ensures Scan(s, s[p].key, t) == Some(s[p])
  {
    if p > 0 {
      LessIrreflexive(s[p].key);
      assert Precedes(s[0], s[p]) && s[0] in s;
      assert !(s[0].key == s[p].key && Visible(s[0].tid, t));
      assert s[1..][p - 1] == s[p];
      ScanFirst(s[1..], p - 1, t);
    }
  }

  /** The item of the answering table comes first among the visible items of the key. */
  lemma AnswerFirst(tables: seq<seq<Version>>, pred: Key -> int, k: Key, t: nat, m: nat, v: Version, y: SearchItem)
    requires Layered(tables) && AllSorted(tables) && m < |tables| && Lookup(tables[m], k, t) == Some(v)
    requires forall i :: 0 <= i < m ==> Lookup(tables[i], k, t) == None
    requires y in AllItems(tables, pred, 0) && y.key == k && Visible(y.tid, t)
    ensures y == Item(v, m) || Precedes(Item(v, m), y)
  {
    LookupIsNewestVisible(tables[m], k, t);
    ItemOrigin(y, tables, pred, 0);
    var i: nat :| FromTable(y, tables, pred, 0, i);
    var w :| w in tables[i] && y == Item(w, i);
    LookupIsNewestVisible(tables[i], k, t);
    assert i >= m;
    if i == m && w.tid == v.tid {
      SlotUnique(tables[m], v, w);
    }
  }

  lemma ScanFindsRead(all: seq<SearchItem>, tables: seq<seq<Version>>, pred: Key -> int, k: Key, t: nat, v: Version)
    requires Layered(tables) && AllSorted(tables) && InPopOrder(all)
    requires forall x :: x in all <==> x in AllItems(tables, pred, 0)
    requires pred(k) == 0 && LookupTables(tables, k, t) == Some(v)
    ensures v.key == k && exists m :: Scan(all, k, t) == Some(Item(v, m))
  {
    hide Layered, Precedes, InPopOrder, AllItems, LookupTables;
    LookupTablesAt(tables, k, t);
    var m :| 0 <= m < |tables| && Lookup(tables[m], k, t) == Some(v)
             && forall i :: 0 <= i < m ==> Lookup(tables[i], k, t) == None;
    LookupIsNewestVisible(tables[m], k, t);
    ItemThere(v, tables, pred, 0, m);
    var p :| 0 <= p < |all| && all[p] == Item(v, m);
    forall y | y in all && y.key == k && Visible(y.tid, t) ensures y == all[p] || Precedes(all[p], y) {
      AnswerFirst(tables, pred, k, t, m, v, y);
    }
    ScanFirst(all, p, t);
  }

  lemma ScanMissesWithRead(all: seq<SearchItem>, tables: seq<seq<Version>>, pred: Key -> int, k: Key, t: nat)
    requires AllSorted(tables)
    requires forall x :: x in all <==> x in AllItems(tables, pred, 0)
    requires pred(k) != 0 || LookupTables(tables, k, t) == None
    ensures Scan(all, k, t) == None
  {
    hide AllItems, LookupTables;
    LookupTablesAt(tables, k, t);
    forall i | 0 <= i < |all| ensures !(all[i].key == k && Visible(all[i].tid, t)) {
      assert all[i] in all;
      ItemOrigin(all[i], tables, pred, 0);
      var m: nat :| FromTable(all[i], tables, pred, 0, m);
      LookupIsNewestVisible(tables[m], k, t);
    }
    ScanNone(all, k, t);
  }

  /** KEY_A scan of the merged items for a selected key is a read of the stack of tables. */
  lemma ScanIsRead(all: seq<SearchItem>, tables: seq<seq<Version>>, pred: Key -> int, k: Key, t: nat)
    requires Layered(tables) && AllSorted(tables)
    requires InPopOrder(all) && multiset(all) == multiset(AllItems(tables, pred, 0))
    ensures match Scan(all, k, t)
            case None => pred(k) != 0 || LookupTables(tables, k, t) == None
            case Some(x) => pred(k) == 0 && LookupTables(tables, k, t) == Some(Version(k, x.value, x.tid))
  {
    hide Layered, InPopOrder, AllItems, LookupTables, AllSorted;
    forall x ensures x in all <==> x in AllItems(tables, pred, 0) {
      assert x in multiset(all) <==> x in multiset(AllItems(tables, pred, 0));
    }
    var r := LookupTables(tables, k, t);
    if pred(k) == 0 && r.Some? {
      ScanFindsRead(all, tables, pred, k, t, r.value);
    } else {
      ScanMissesWithRead(all, tables, pred, k, t);
    }
  }

  // ----- the id filter before the merge

  /** The versions a reader's query takes from a table. The source compares the id with the
      truth value of "t > t": a reader at an id passes over the versions with id 0. */
  function Offered(es: seq<Version>, t: nat): (r: seq<Version>) {
    if es == [] then []
    else
      var n := |es| - 1;
      Offered(es[..n], t) + if t != 0 && es[n].tid == 0 then [] else [es[n]]
  }

  function PastFilter(r: Option<Version>, t: nat): Option<Version> {
    if r.Some? && t != 0 && r.value.tid == 0 then None else r
  }

  lemma {:induction false} OfferedMember(es: seq<Version>, t: nat, v: Version)
    ensures v in Offered(es, t) <==> v in es && (t == 0 || v.tid != 0)
  {
    if es != [] {
      OfferedMember(es[..|es| - 1], t, v);
      assert es == es[..|es| - 1] + [es[|es| - 1]];
    }
  }

  lemma {:induction false} OfferedSorted(es: seq<Version>, t: nat)
    requires Sorted(es)
    ensures Sorted(Offered(es, t))
  {
    if es != [] {
      var n := |es| - 1;
      var r := Offered(es[..n], t);
      OfferedSorted(es[..n], t);
      forall i | 0 <= i < |r| ensures Before(r[i], es[n]) {
        OfferedMember(es[..n], t, r[i]);
        assert r[i] in r;
        var j :| 0 <= j < n && es[..n][j] == r[i];
        assert es[j] == r[i];
      }
    }
  }

  lemma {:induction false} OfferedSelected(es: seq<Version>, pred: Key -> int, t: nat)
    ensures Offered(Satisfying(es, pred), t) == Satisfying(Offered(es, t), pred)
  {
    if es != [] {
      var n := |es| - 1;
      OfferedSelected(es[..n], pred, t);
      var a, b := Satisfying(es[..n], pred), Offered(es[..n], t);
      if pred(es[n].key) == 0 {
        assert (a + [es[n]])[..|a|] == a;
      } else {
        assert a + [] == a;
      }
      if t != 0 && es[n].tid == 0 {
        assert b + [] == b;
      } else {
        assert (b + [es[n]])[..|b|] == b;
      }
    }
  }

  lemma OfferedLookup(es: seq<Version>, k: Key, t: nat, u: nat)
    requires Sorted(es)
    ensures Lookup(Offered(es, t), k, u) == PastFilter(Lookup(es, k, u), t)
  {
    hide Sorted, Lookup, Offered;
    OfferedSorted(es, t);
    LookupIsNewestVisible(es, k, u);
    forall v ensures v in Offered(es, t) <==> v in es && (t == 0 || v.tid != 0) {
      OfferedMember(es, t, v);
    }
    LookupUnique(Offered(es, t), k, u, PastFilter(Lookup(es, k, u), t));
  }

  function OfferedTables(tables: seq<seq<Version>>, t: nat): (r: seq<seq<Version>>)
    ensures |r| == |tables| && forall i :: 0 <= i < |r| ==> r[i] == Offered(tables[i], t)
  {
    seq(|tables|, i requires 0 <= i < |tables| => Offered(tables[i], t))
  }

  lemma OfferedLayered(tables: seq<seq<Version>>, t: nat)
    requires Layered(tables) && AllSorted(tables)
    ensures Layered(OfferedTables(tables, t)) && AllSorted(OfferedTables(tables, t))
  {
    var r := OfferedTables(tables, t);
    forall i | 0 <= i < |r| ensures Sorted(r[i]) {
      OfferedSorted(tables[i], t);
    }
    forall i, v | 0 <= i < |r| && v in r[i] ensures v in tables[i] {
      OfferedMember(tables[i], t, v);
    }
  }

  /** Where an older table answers only because no newer one does, it has no larger id. */
  lemma OlderAnswer(tables: seq<seq<Version>>, k: Key, u: nat, v: Version)
    requires Layered(tables) && AllSorted(tables) && tables != [] && Lookup(tables[0], k, u) == Some(v)
    ensures var r := LookupTables(tables[1..], k, u); r.Some? ==> r.value.tid <= v.tid
  {
    LookupIsNewestVisible(tables[0], k, u);
    LookupTablesAt(tables[1..], k, u);
    var r := LookupTables(tables[1..], k, u);
    if r.Some? {
      var m :| 0 <= m < |tables[1..]| && Lookup(tables[1..][m], k, u) == r;
      assert tables[1..][m] == tables[m + 1];
      LookupIsNewestVisible(tables[m + 1], k, u);
    }
  }

  lemma {:induction false} OfferedRead(tables: seq<seq<Version>>, k: Key, t: nat, u: nat)
    requires Layered(tables) && AllSorted(tables)
    ensures LookupTables(OfferedTables(tables, t), k, u) == PastFilter(LookupTables(tables, k, u), t)
  {
    hide Layered, AllSorted, Lookup, Offered;
    if tables != [] {
      assert OfferedTables(tables, t)[1..] == OfferedTables(tables[1..], t);
      LayeredTail(tables);
      FirstSorted(tables);
      OfferedRead(tables[1..], k, t, u);
      OfferedLookup(tables[0], k, t, u);
      if Lookup(tables[0], k, u).Some? {
        OlderAnswer(tables, k, u, Lookup(tables[0], k, u).value);
      }
    }
  }

  lemma FirstSorted(tables: seq<seq<Version>>)
    requires AllSorted(tables) && tables != []
    ensures Sorted(tables[0])
  {
  }

  // ----- what a full query yields

  /** The pair a query at `t` owes its caller for `k`: the value of the newest visible
      version over all tables, unless that is a removal. */
  ghost predicate Owed(tables: seq<seq<Version>>, pred: Key -> int, t: nat, k: Key, v: Value) {
    pred(k) == 0 && v != [] && exists tid :: LookupTables(tables, k, t) == Some(Version(k, v, tid))
  }

  /** What a read at `u` makes of a selected key, behind the id filter of the reader `t`. */
  function Picked(tables: seq<seq<Version>>, pred: Key -> int, t: nat, k: Key, u: nat): Option<Version> {
    if pred(k) == 0 then PastFilter(LookupTables(tables, k, u), t) else None
  }

  /** KEY_A selected key the reader should see, after a selected key that is removed for it,
      with nothing from there on whose newest version of all is not a removal. */
  ghost predicate HiddenBehindRemoval(tables: seq<seq<Version>>, pred: Key -> int, t: nat) {
    exists a, b :: HiddenBehind(tables, pred, t, a, b)
  }

  ghost predicate HiddenBehind(tables: seq<seq<Version>>, pred: Key -> int, t: nat, a: Key, b: Key) {
    var removed, live := Picked(tables, pred, t, a, t), Picked(tables, pred, t, b, t);
    && Less(a, b) && removed.Some? && removed.value.value == [] && live.Some? && live.value.value != []
    && forall k :: Less(a, k) && (k == b || Less(k, b)) ==>
         var r := Picked(tables, pred, t, k, 0); r.None? || r.value.value == []
  }

  /** KEY_A selected key whose value the reader should see was written with id 0. */
  ghost predicate HiddenAtZero(tables: seq<seq<Version>>, pred: Key -> int, t: nat) {
    t != 0 && exists k, v :: v != [] && pred(k) == 0 && LookupTables(tables, k, t) == Some(Version(k, v, 0))
  }

  lemma ScanIsPicked(all: seq<SearchItem>, tables: seq<seq<Version>>, pred: Key -> int, t: nat, k: Key, u: nat)
    requires Layered(tables) && AllSorted(tables)
    requires InPopOrder(all) && multiset(all) == multiset(AllItems(OfferedTables(tables, t), pred, 0))
    ensures match Scan(all, k, u)
            case None => Picked(tables, pred, t, k, u) == None
            case Some(x) => Picked(tables, pred, t, k, u) == Some(Version(k, x.value, x.tid))
  {
    hide Layered, InPopOrder, AllItems, LookupTables, AllSorted;
    OfferedLayered(tables, t);
    OfferedRead(tables, k, t, u);
    ScanIsRead(all, OfferedTables(tables, t), pred, k, u);
  }

  lemma ShadowedIsHidden(all: seq<SearchItem>, tables: seq<seq<Version>>, pred: Key -> int, t: nat)
    requires Layered(tables) && AllSorted(tables)
    requires InPopOrder(all) && multiset(all) == multiset(AllItems(OfferedTables(tables, t), pred, 0))
    ensures Shadowed(all, t) <==> HiddenBehindRemoval(tables, pred, t)
  {
    hide Layered, InPopOrder, AllItems, Picked, AllSorted, Scan;
    forall a, b ensures ShadowedBy(all, t, a, b) <==> HiddenBehind(tables, pred, t, a, b) {
      ScanIsPicked(all, tables, pred, t, a, t);
      ScanIsPicked(all, tables, pred, t, b, t);
      forall k ensures Live(Scan(all, k, 0)) <==>
                         Picked(tables, pred, t, k, 0).Some? && Picked(tables, pred, t, k, 0).value.value != []
      {
        ScanIsPicked(all, tables, pred, t, k, 0);
      }
    }
  }

  /** KEY_A full iteration over the merged items of a range: keys ascend, every pair is owed,
      and the pairs are all those owed exactly when no value is hidden behind a removal or
      was written with id 0 (for a reader at an id). */
  lemma RangeQueryMeaning(all: seq<SearchItem>, tables: seq<seq<Version>>, pred: Key -> int, t: nat)
    requires Layered(tables) && AllSorted(tables)
    requires InPopOrder(all) && multiset(all) == multiset(AllItems(OfferedTables(tables, t), pred, 0))
    ensures KeysAscending(Drain(all, t))
    ensures forall k, v :: (k, v) in Drain(all, t) ==> Owed(tables, pred, t, k, v)
    ensures (forall k, v :: Owed(tables, pred, t, k, v) ==> (k, v) in Drain(all, t))
            <==> !HiddenBehindRemoval(tables, pred, t) && !HiddenAtZero(tables, pred, t)
  {
    hide Layered, InPopOrder, AllItems, LookupTables, AllSorted, Drain, Expected, Shadowed, KeySorted,
      KeysAscending, Scan,
      HiddenBehindRemoval;
    PopOrderIsKeySorted(all);
    DrainAscends(all, t);
    DrainMissesNothingExactlyWhen(all, t);
    ShadowedIsHidden(all, tables, pred, t);
    forall k, v
      ensures (k, v) in Drain(all, t) ==> (k, v) in Expected(all, t)
      ensures (k, v) in Expected(all, t) <==>
                v != [] && exists tid :: Picked(tables, pred, t, k, t) == Some(Version(k, v, tid))
    {
      ExpectedMeaning(all, k, v, t);
      ScanIsPicked(all, tables, pred, t, k, t);
      if (k, v) in Drain(all, t) {
        DrainSound(all, t, (k, v));
      }
    }
    ExpectedIsOwed(tables, pred, t, Expected(all, t), Drain(all, t));
  }

  /** Owed pairs are the expected ones and those written with id 0. */
  lemma ExpectedIsOwed(tables: seq<seq<Version>>, pred: Key -> int, t: nat,
                       expected: seq<(Key, Value)>, out: seq<(Key, Value)>)
    requires forall k, v :: (k, v) in expected <==>
               v != [] && exists tid :: Picked(tables, pred, t, k, t) == Some(Version(k, v, tid))
    requires forall k, v :: (k, v) in out ==> (k, v) in expected
    ensures forall k, v :: (k, v) in expected ==> Owed(tables, pred, t, k, v)
    ensures (forall k, v :: Owed(tables, pred, t, k, v) ==> (k, v) in out)
            <==> (forall p :: p in expected ==> p in out) && !HiddenAtZero(tables, pred, t)
  {
    hide LookupTables;
    if HiddenAtZero(tables, pred, t) {
      var k, v :| v != [] && pred(k) == 0 && LookupTables(tables, k, t) == Some(Version(k, v, 0));
      assert Owed(tables, pred, t, k, v) && (k, v) !in expected;
    }
    forall k, v | (k, v) in expected ensures Owed(tables, pred, t, k, v) {
      var tid :| Picked(tables, pred, t, k, t) == Some(Version(k, v, tid));
      assert LookupTables(tables, k, t) == Some(Version(k, v, tid));
    }
    if (forall p :: p in expected ==> p in out) && !HiddenAtZero(tables, pred, t) {
      forall k, v | Owed(tables, pred, t, k, v) ensures (k, v) in out {
        var tid :| LookupTables(tables, k, t) == Some(Version(k, v, tid));
        assert Picked(tables, pred, t, k, t) == Some(Version(k, v, tid));
        assert (k, v) in expected;
      }
    }
    if forall k, v :: Owed(tables, pred, t, k, v) ==> (k, v) in out {
      forall p | p in expected ensures p in out {
        assert p == (p.0, p.1) && Owed(tables, pred, t, p.0, p.1);
      }
    }
  }

  lemma NothingHiddenAtZero(tables: seq<seq<Version>>, pred: Key -> int)
    ensures !HiddenBehindRemoval(tables, pred, 0) && !HiddenAtZero(tables, pred, 0)
  {
    forall a, b ensures !HiddenBehind(tables, pred, 0, a, b) {
    }
  }

  /** So at id 0, over a history of never-decreasing ids, the query lists exactly the
      selected keys whose last write is no removal, each with that write's value. */
  lemma RangeQueryOfHistory(all: seq<SearchItem>, segs: seq<seq<Version>>, pred: Key -> int)
    requires IdsNeverDecrease(Flatten(segs)) && AllSorted(Tables(segs))
    requires InPopOrder(all) && multiset(all) == multiset(AllItems(OfferedTables(Tables(segs), 0), pred, 0))
    ensures KeysAscending(Drain(all, 0))
    ensures forall k, v :: (k, v) in Drain(all, 0) <==>
              pred(k) == 0 && v != [] && exists tid :: LastWrite(Flatten(segs), k, 0) == Some(Version(k, v, tid))
  {
    hide Drain, InPopOrder, IdsNeverDecrease, AllSorted, Layered, Flatten, LookupTables, LastWrite, Newest,
      KeysAscending,
      HiddenBehindRemoval, HiddenAtZero;
    TablesLayered(segs);
    NothingHiddenAtZero(Tables(segs), pred);
    RangeQueryMeaning(all, Tables(segs), pred, 0);
    forall k ensures LookupTables(Tables(segs), k, 0) == LastWrite(Flatten(segs), k, 0) {
      LayeredReads(segs, k, 0);
      NewestIsLastWrite(Flatten(segs), k, 0);
    }
  }

  /** A reader at an id is never shown a value written with id 0. */
  lemma ZeroPassedOver(v: Value, k: Key)
    requires v != []
    ensures var tables := [[Version(k, v, 0)]];
            && AllItems(OfferedTables(tables, 1), EVERY_KEY, 0) == []
            && Owed(tables, EVERY_KEY, 1, k, v) && HiddenAtZero(tables, EVERY_KEY, 1)
  {
    var es := [Version(k, v, 0)];
    var tables := OfferedTables([es], 1);
    assert es[..0] == [];
    assert Offered(es, 1) == [];
    assert tables[0] == [] && tables[1..] == [];
    assert ItemsFrom([], 0) == [] && AllItems(tables[1..], EVERY_KEY, 1) == [];
    LookupAt(es, k, 1, 0);
    assert LookupTables([es], k, 1) == Some(es[0]);
  }

  // ----- a query that loses a key

  const KEY_A: Key := [0x61]
  const KEY_B: Key := [0x62]
  const REMOVED_A: Version := Version(KEY_A, [], 1)
  const WRITTEN_B: Version := Version(KEY_B, [0x31], 1)
  const REMOVED_B: Version := Version(KEY_B, [], 5)
  const EVERY_KEY: Key -> int := _ => 0

  lemma LosingTable()
    ensures Tables([[REMOVED_A, WRITTEN_B, REMOVED_B]]) == [[REMOVED_A, REMOVED_B, WRITTEN_B]]
    ensures Less(KEY_A, KEY_B) && !Less(KEY_B, KEY_A) && !Less(KEY_A, KEY_A) && !Less(KEY_B, KEY_B)
  {
    var v, w, x := REMOVED_A, WRITTEN_B, REMOVED_B;
    assert Less(KEY_A, KEY_B);
    assert [v, w, x][..2] == [v, w] && [v, w][..1] == [v] && [v][..0] == [];
    InsertAt([], v, 0);
    InsertAt([v], w, 1);
    InsertAt([v, w], x, 1);
    assert Fold([v]) == [v];
    assert Fold([v, w]) == [v, w];
    assert Fold([v, w, x]) == [v, x, w];
  }

  lemma LosingItems()
    ensures var es := [REMOVED_A, REMOVED_B, WRITTEN_B];
            && OfferedTables([es], 2) == [es]
            && AllItems([es], EVERY_KEY, 0) == [Item(es[0], 0), Item(es[1], 0), Item(es[2], 0)]
  {
    var v, w, x := REMOVED_A, WRITTEN_B, REMOVED_B;
    assert [v, x, w][..2] == [v, x] && [v, x][..1] == [v] && [v][..0] == [];
    assert Offered([v], 2) == [v] && Offered([v, x], 2) == [v, x] && Offered([v, x, w], 2) == [v, x, w];
    assert Satisfying([v], EVERY_KEY) == [v] && Satisfying([v, x], EVERY_KEY) == [v, x];
    assert Satisfying([v, x, w], EVERY_KEY) == [v, x, w];
    assert AllItems([[v, x, w]][1..], EVERY_KEY, 1) == [];
  }

  lemma LosingDrain()
    ensures Drain([Item(REMOVED_A, 0), Item(REMOVED_B, 0), Item(WRITTEN_B, 0)], 2) == []
  {
    var s2, s1 := [Item(REMOVED_B, 0), Item(WRITTEN_B, 0)], [Item(WRITTEN_B, 0)];
    var s := [Item(REMOVED_A, 0)] + s2;
    assert s[1..] == s2 && s2[1..] == s1 && s1[1..] == [];
    assert DropKey(s1, KEY_B) == [] && DropKey(s2, KEY_B) == [] && DropKey(s, KEY_A) == s2;
    assert DropTombstones(s2) == [] && DropTombstones(s) == [];
    assert Settle(s, 2) == [];
  }

  /** KEY_A live key lost: "b" was removed after the reader's id 2, but the loop that drops the
      removed "a" goes on to drop "b" as well, with the value the reader should see. */
  lemma QueryLosesALiveKey()
    ensures var segs := [[REMOVED_A, WRITTEN_B, REMOVED_B]];
            var all := AllItems(OfferedTables(Tables(segs), 2), EVERY_KEY, 0);
            && IdsNeverDecrease(Flatten(segs)) && InPopOrder(all)
            && Owed(Tables(segs), EVERY_KEY, 2, KEY_B, [0x31]) && Drain(all, 2) == []
  {
    var segs := [[REMOVED_A, WRITTEN_B, REMOVED_B]];
    LosingTable();
    LosingItems();
    LosingDrain();
    var es := Tables(segs)[0];
    assert segs[1..] == [] && Flatten(segs) == [] + segs[0];
    hide Fold, Drain, AllItems, Offered, Less, Flatten;
    LookupAt(es, KEY_B, 2, 2);
    assert LookupTables([es], KEY_B, 2) == Some(Version(KEY_B, [0x31], 1));
  }
}
