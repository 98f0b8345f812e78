/** The merging iterator: items of several tables in a priority queue, drained key by key
    while hiding shadowed, invisible and removed versions. */
module HeapIterators {
  import opened Keys
  import opened Versions

  datatype SearchItem = SearchItem(key: Key, value: Value, tid: nat, idx: int, level: int)

  /** `operator>`, which the queue's `std::greater` calls. */
  predicate Greater(a: SearchItem, b: SearchItem) {
    if a.key != b.key then Less(b.key, a.key)
    else a.tid < b.tid || a.level < b.level || a.idx > b.idx
  }

  /** Key ascending, then id descending, then table index ascending. */
  predicate Precedes(a: SearchItem, b: SearchItem) {
    Less(a.key, b.key) || (a.key == b.key && (a.tid > b.tid || (a.tid == b.tid && a.idx < b.idx)))
  }

  /** One level, and a newer version of a key never in an older table. */
  ghost predicate Agree(a: SearchItem, b: SearchItem) {
    a.level == b.level && (a.key == b.key && a.tid > b.tid ==> a.idx <= b.idx)
  }

  /** Where table indices and ids agree, the queue's comparator is the intended order. */
  lemma ComparatorIsOrder(a: SearchItem, b: SearchItem)
    requires Agree(a, b) && Agree(b, a)
    ensures Greater(b, a) <==> Precedes(a, b)
  {
    LessIrreflexive(a.key);
  }

  /** Where they do not, it is no order at all: each of two items is greater. */
  lemma ComparatorBreaks(a: SearchItem, b: SearchItem)
    requires a.key == b.key && a.level == b.level && a.tid > b.tid && a.idx > b.idx
    ensures Greater(a, b) && Greater(b, a)
  {
  }

  // ----- what popping does to the items left, in pop order

  function Pair(x: SearchItem): (Key, Value) {
    (x.key, x.value)
  }

  function DropKey(s: seq<SearchItem>, k: Key): (r: seq<SearchItem>)
    ensures |r| <= |s|
    ensures s != [] && s[0].key == k ==> |r| < |s|
    ensures r != [] ==> r[0].key != k
  {
    if s == [] || s[0].key != k then s else DropKey(s[1..], k)
  }

  function SkipInvisible(s: seq<SearchItem>, t: nat): (r: seq<SearchItem>)
    ensures |r| <= |s|
    ensures r != [] ==> Visible(r[0].tid, t)
    ensures s != [] && !Visible(s[0].tid, t) ==> |r| < |s|
  {
    if s == [] || Visible(s[0].tid, t) then s else SkipInvisible(s[1..], t)
  }

  function DropTombstones(s: seq<SearchItem>): (r: seq<SearchItem>)
    ensures |r| <= |s|
    ensures r != [] ==> r[0].value != []
    ensures s != [] && s[0].value == [] ==> |r| < |s|
    decreases |s|
  {
    if s == [] || s[0].value != [] then s else DropTombstones(DropKey(s, s[0].key))
  }

  predicate TopValueLegal(s: seq<SearchItem>, t: nat) {
    s == [] || (Visible(s[0].tid, t) && s[0].value != [])
  }

  /** The loop shared by the constructor and `operator++`. */
  function Settle(s: seq<SearchItem>, t: nat): (r: seq<SearchItem>)
    ensures |r| <= |s| && TopValueLegal(r, t)
    decreases |s|
  {
    if TopValueLegal(s, t) then s else Settle(DropTombstones(SkipInvisible(s, t)), t)
  }

  /** Everything a full iteration yields. */
  function Drain(s: seq<SearchItem>, t: nat): (out: seq<(Key, Value)>)
    decreases |s|
  {
    var s1 := Settle(s, t);
    if s1 == [] then [] else [Pair(s1[0])] + Drain(DropKey(s1, s1[0].key), t)
  }

  // ----- what it should yield

  /** The first visible item of `k`. */
  function Scan(s: seq<SearchItem>, k: Key, t: nat): (r: Option<SearchItem>) {
    if s == [] then None
    else if s[0].key == k && Visible(s[0].tid, t) then Some(s[0])
    else Scan(s[1..], k, t)
  }

  predicate Live(r: Option<SearchItem>) {
    r.Some? && r.value.value != []
  }

  /** Each key once, with its newest visible version, unless that is a removal. */
  function Expected(s: seq<SearchItem>, t: nat): (out: seq<(Key, Value)>)
    decreases |s|
  {
    if s == [] then []
    else
      var r, rest := Scan(s, s[0].key, t), Expected(DropKey(s, s[0].key), t);
      if Live(r) then [Pair(r.value)] + rest else rest
  }

  ghost predicate KeySorted(s: seq<SearchItem>) {
    forall i, j :: 0 <= i < j < |s| ==> s[i].key == s[j].key || Less(s[i].key, s[j].key)
  }

  /** Live keys lost: inside the tombstone loop, a key whose newest item is an empty value
      is dropped unseen even when that item is too new for the reader. */
  function Lost(s: seq<SearchItem>, inLoop: bool, t: nat): (n: nat)
    decreases |s|
  {
    if s == [] then 0
    else
      var r, rest := Scan(s, s[0].key, t), DropKey(s, s[0].key);
      if inLoop && s[0].value == [] then (if Live(r) then 1 else 0) + Lost(rest, true, t)
      else Lost(rest, r.Some? && r.value.value == [], t)
  }

  lemma {:induction false} ScanNone(s: seq<SearchItem>, k: Key, t: nat)
    requires forall i :: 0 <= i < |s| ==> !(s[i].key == k && Visible(s[i].tid, t))
    ensures Scan(s, k, t) == None
  {
    if s != [] {
      ScanNone(s[1..], k, t);
    }
  }

  lemma KeySortedTail(s: seq<SearchItem>)
    requires KeySorted(s) && s != []
    ensures KeySorted(s[1..])
  {
  }

  lemma {:induction false} DropKeySorted(s: seq<SearchItem>, k: Key)
    requires KeySorted(s)
    ensures KeySorted(DropKey(s, k))
  {
    if s != [] && s[0].key == k {
      KeySortedTail(s);
      DropKeySorted(s[1..], k);
    }
  }

  lemma {:induction false} DropTombstonesSorted(s: seq<SearchItem>)
    requires KeySorted(s)
    ensures KeySorted(DropTombstones(s))
    decreases |s|
  {
    if s != [] && s[0].value == [] {
      DropKeySorted(s, s[0].key);
      DropTombstonesSorted(DropKey(s, s[0].key));
    }
  }

  /** Once the key changes it never comes back. */
  lemma KeyGone(s: seq<SearchItem>, t: nat)
    requires KeySorted(s) && s != [] && (|s| > 1 ==> s[1].key != s[0].key)
    ensures Scan(s[1..], s[0].key, t) == None
  {
    var k := s[0].key;
    forall i | 0 <= i < |s[1..]| ensures s[1..][i].key != k {
      LessIrreflexive(k);
      assert s[1..][i] == s[i + 1] && Less(k, s[1].key);
      assert i > 0 ==> s[1].key == s[i + 1].key || Less(s[1].key, s[i + 1].key);
      if i > 0 && Less(s[1].key, s[i + 1].key) {
        LessTransitive(k, s[1].key, s[i + 1].key);
      }
    }
    ScanNone(s[1..], k, t);
  }

  /** An invisible item at the front changes neither what is expected nor what is lost. */
  lemma SkipOne(s: seq<SearchItem>, t: nat)
    requires KeySorted(s) && s != [] && !Visible(s[0].tid, t)
    ensures Expected(s, t) == Expected(s[1..], t) && Lost(s, false, t) == Lost(s[1..], false, t)
  {
    var k := s[0].key;
    if |s| == 1 || s[1].key != k {
      KeyGone(s, t);
      assert DropKey(s, k) == s[1..];
    } else {
      assert s[1..] != [] && s[1..][0].key == k;
      assert Scan(s, k, t) == Scan(s[1..], k, t);
      assert DropKey(s, k) == DropKey(s[1..], k);
    }
  }

  lemma {:induction false} SkipAll(s: seq<SearchItem>, t: nat)
    requires KeySorted(s)
    ensures Expected(s, t) == Expected(SkipInvisible(s, t), t)
    ensures Lost(s, false, t) == Lost(SkipInvisible(s, t), false, t)
    ensures KeySorted(SkipInvisible(s, t))
  {
    hide Expected, Lost, KeySorted;
    if s != [] && !Visible(s[0].tid, t) {
      SkipOne(s, t);
      KeySortedTail(s);
      SkipAll(s[1..], t);
    }
  }

  /** The tombstone loop accounts for every live key it drops. */
  lemma {:induction false} TombstoneLoop(s: seq<SearchItem>, t: nat)
    ensures var d := DropTombstones(s);
            && |Expected(s, t)| + Lost(d, false, t) == |Expected(d, t)| + Lost(s, true, t)
            && (Lost(s, true, t) == 0 ==> Expected(s, t) == Expected(d, t))
            && Lost(d, false, t) <= Lost(s, true, t)
    decreases |s|
  {
    if s != [] && s[0].value == [] {
      TombstoneLoop(DropKey(s, s[0].key), t);
    }
  }

  /** The loop body of `Settle` on items whose front is visible. */
  lemma VisibleFront(s: seq<SearchItem>, t: nat)
    requires s != [] ==> Visible(s[0].tid, t)
    ensures var d := DropTombstones(s);
            && |Expected(s, t)| + Lost(d, false, t) == |Expected(d, t)| + Lost(s, false, t)
            && (Lost(s, false, t) == 0 ==> Expected(s, t) == Expected(d, t))
            && Lost(d, false, t) <= Lost(s, false, t)
  {
    if s != [] && s[0].value == [] {
      TombstoneLoop(DropKey(s, s[0].key), t);
    }
  }

  lemma DrainSettles(s: seq<SearchItem>, t: nat)
    requires !TopValueLegal(s, t)
    ensures Drain(s, t) == Drain(DropTombstones(SkipInvisible(s, t)), t)
  {
  }

  /** A full drain yields what it should, except for exactly the lost keys. */
  lemma {:induction false} DrainAccount(s: seq<SearchItem>, t: nat)
    requires KeySorted(s)
    ensures |Drain(s, t)| + Lost(s, false, t) == |Expected(s, t)|
    ensures Lost(s, false, t) == 0 ==> Drain(s, t) == Expected(s, t)
    decreases |s|
  {
    hide KeySorted;
    if s == [] {
    } else if TopValueLegal(s, t) {
      DropKeySorted(s, s[0].key);
      DrainAccount(DropKey(s, s[0].key), t);
    } else {
      hide Drain, Expected, Lost;
      var s2 := SkipInvisible(s, t);
      var s3 := DropTombstones(s2);
      SkipAll(s, t);
      VisibleFront(s2, t);
      DropTombstonesSorted(s2);
      DrainAccount(s3, t);
      DrainSettles(s, t);
    }
  }

  /** Nothing is lost when no removal is too new for the reader, so never at id 0. */
  lemma {:induction false} NothingLost(s: seq<SearchItem>, inLoop: bool, t: nat)
    requires forall i :: 0 <= i < |s| ==> s[i].value != [] || Visible(s[i].tid, t)
    ensures Lost(s, inLoop, t) == 0
    decreases |s|
  {
    if s != [] {
      var rest := DropKey(s, s[0].key);
      DropKeySuffix(s, s[0].key);
      NothingLost(rest, true, t);
      NothingLost(rest, false, t);
    }
  }

  lemma {:induction false} DropKeySuffix(s: seq<SearchItem>, k: Key)
    ensures DropKey(s, k) == s[|s| - |DropKey(s, k)|..]
  {
    if s != [] && s[0].key == k {
      DropKeySuffix(s[1..], k);
    }
  }

  // ----- what is expected, key by key

  /** `Expected` lists a key exactly when its newest visible version is not a removal. */
  lemma {:induction false} ExpectedMeaning(s: seq<SearchItem>, k: Key, v: Value, t: nat)
    requires KeySorted(s)
    ensures (k, v) in Expected(s, t) <==> Live(Scan(s, k, t)) && Scan(s, k, t).value.value == v
    decreases |s|
  {
    if s != [] {
      var k0 := s[0].key;
      var rest := DropKey(s, k0);
      DropKeySorted(s, k0);
      ExpectedMeaning(rest, k, v, t);
      ScanAfterDrop(s, k, k0, t);
      ScanAfterDrop(s, k0, k0, t);
      if k == k0 {
        FrontGone(s, t);
      }
    }
  }

  lemma {:induction false} ScanAfterDrop(s: seq<SearchItem>, k: Key, k0: Key, t: nat)
    ensures k != k0 ==> Scan(DropKey(s, k0), k, t) == Scan(s, k, t)
    ensures Scan(s, k, t).Some? ==> Scan(s, k, t).value.key == k
  {
    if s != [] {
      ScanAfterDrop(s[1..], k, k0, t);
    }
  }

  lemma {:induction false} FrontGone(s: seq<SearchItem>, t: nat)
    requires KeySorted(s) && s != []
    ensures Scan(DropKey(s, s[0].key), s[0].key, t) == None
  {
    if |s| > 1 && s[1].key == s[0].key {
      KeySortedTail(s);
      FrontGone(s[1..], t);
      assert s[1..][0].key == s[0].key;
    } else {
      KeyGone(s, t);
      assert DropKey(s, s[0].key) == s[1..];
    }
  }

  ghost predicate KeysAscending(out: seq<(Key, Value)>) {
    forall i, j :: 0 <= i < j < |out| ==> Less(out[i].0, out[j].0)
  }

  /** That is dictionary order. */
  lemma AscendingIsLexicographic(out: seq<(Key, Value)>)
    ensures KeysAscending(out) <==> forall i, j :: 0 <= i < j < |out| ==> Lexicographic(out[i].0, out[j].0)
  {
    forall i, j | 0 <= i < j < |out| ensures Less(out[i].0, out[j].0) <==> Lexicographic(out[i].0, out[j].0) {
      LessIsLexicographic(out[i].0, out[j].0);
    }
  }

  /** Keys come out in ascending order, so each at most once. */
  lemma {:induction false} ExpectedAscends(s: seq<SearchItem>, t: nat)
    requires KeySorted(s)
    ensures KeysAscending(Expected(s, t))
    ensures forall i :: 0 <= i < |Expected(s, t)| ==> exists j :: 0 <= j < |s| && s[j].key == Expected(s, t)[i].0
    decreases |s|
  {
    if s != [] {
      var k0 := s[0].key;
      var rest := DropKey(s, k0);
      var out := Expected(rest, t);
      DropKeySorted(s, k0);
      DropKeySuffix(s, k0);
      ExpectedAscends(rest, t);
      ScanAfterDrop(s, k0, k0, t);
      forall i | 0 <= i < |out| ensures Less(k0, out[i].0) && exists j :: 0 <= j < |s| && s[j].key == out[i].0 {
        var j :| 0 <= j < |rest| && rest[j].key == out[i].0;
        assert s[|s| - |rest| + j].key == out[i].0;
        RestAfter(s, j);
      }
    }
  }

  lemma RestAfter(s: seq<SearchItem>, j: nat)
    requires KeySorted(s) && s != [] && j < |DropKey(s, s[0].key)|
    ensures Less(s[0].key, DropKey(s, s[0].key)[j].key)
  {
    var k0 := s[0].key;
    var rest := DropKey(s, k0);
    var n := |s| - |rest|;
    DropKeySuffix(s, k0);
    assert rest[0] == s[n] && rest[j] == s[n + j] && rest[0].key != k0;
    assert s[0].key == s[n].key || Less(s[0].key, s[n].key);
    assert j > 0 ==> s[n].key == s[n + j].key || Less(s[n].key, s[n + j].key);
    if j > 0 && Less(s[n].key, s[n + j].key) {
      LessTransitive(k0, s[n].key, s[n + j].key);
    }
  }

  // ----- when the drain is right

  predicate Removed(r: Option<SearchItem>) {
    r.Some? && r.value.value == []
  }

  /** A live key `b` after a removed key `a` with nothing in between, `b` included, whose
      newest item of all is not a removal. */
  ghost predicate ShadowedBy(s: seq<SearchItem>, t: nat, a: Key, b: Key) {
    && Less(a, b) && Removed(Scan(s, a, t)) && Live(Scan(s, b, t))
    && forall k :: Less(a, k) && (k == b || Less(k, b)) ==> !Live(Scan(s, k, 0))
  }

  ghost predicate Shadowed(s: seq<SearchItem>, t: nat) {
    exists a, b :: ShadowedBy(s, t, a, b)
  }

  /** The tombstone loop, started on `s`, would drop the live key `b`. */
  ghost predicate DroppedInLoop(s: seq<SearchItem>, t: nat, b: Key) {
    Live(Scan(s, b, t)) && forall k :: k == b || Less(k, b) ==> !Live(Scan(s, k, 0))
  }

  /** Taking the first key away leaves the others as they are. */
  lemma RestScan(s: seq<SearchItem>, k: Key, t: nat)
    requires KeySorted(s) && s != []
    ensures var k0, rest := s[0].key, DropKey(s, s[0].key);
            && Scan(rest, k, t) == (if k == k0 then None else Scan(s, k, t))
            && (Scan(s, k, t).Some? ==> k == k0 || Less(k0, k))
  {
    var k0, rest := s[0].key, DropKey(s, s[0].key);
    ScanAfterDrop(s, k, k0, t);
    if k == k0 {
      FrontGone(s, t);
    } else if !Less(k0, k) {
      forall i | 0 <= i < |s| ensures s[i].key != k {
        assert i > 0 ==> k0 == s[i].key || Less(k0, s[i].key);
      }
      ScanNone(s, k, t);
    }
  }

  lemma RestScans(s: seq<SearchItem>, t: nat)
    requires KeySorted(s) && s != []
    ensures var k0, rest := s[0].key, DropKey(s, s[0].key);
            forall k :: Scan(rest, k, t) == (if k == k0 then None else Scan(s, k, t))
                        && (Scan(s, k, t).Some? ==> k == k0 || Less(k0, k))
  {
    var k0, rest := s[0].key, DropKey(s, s[0].key);
    forall k
      ensures Scan(rest, k, t) == (if k == k0 then None else Scan(s, k, t))
      ensures Scan(s, k, t).Some? ==> k == k0 || Less(k0, k)
    {
      RestScan(s, k, t);
    }
  }

  lemma LessAsymmetric()
    ensures forall k, k' :: !(Less(k, k') && Less(k', k)) && !Less(k, k)
  {
    forall k, k' ensures !(Less(k, k') && Less(k', k)) && !Less(k, k) {
      LessIrreflexive(k);
      if Less(k, k') && Less(k', k) {
        LessTransitive(k, k', k);
      }
    }
  }

  /** What the loop drops of `s`, its first key being a removal, in terms of the rest. */
  lemma DroppedStep(s: seq<SearchItem>, t: nat)
    requires KeySorted(s) && s != []
    ensures var k0, rest := s[0].key, DropKey(s, s[0].key);
            (exists b :: DroppedInLoop(s, t, b)) <==>
            s[0].value == [] && (Live(Scan(s, k0, t)) || exists b :: DroppedInLoop(rest, t, b))
  {
    hide DropKey, Scan;
    var k0, rest := s[0].key, DropKey(s, s[0].key);
    RestScans(s, t);
    RestScans(s, 0);
    LessAsymmetric();
    FrontScan(s);
    if b :| DroppedInLoop(s, t, b) && b != k0 {
      assert DroppedInLoop(rest, t, b);
    }
    if b :| DroppedInLoop(rest, t, b) {
      assert s[0].value == [] ==> DroppedInLoop(s, t, b);
    }
    assert s[0].value == [] && Live(Scan(s, k0, t)) ==> DroppedInLoop(s, t, k0);
  }

  lemma FrontScan(s: seq<SearchItem>)
    requires s != []
    ensures Scan(s, s[0].key, 0) == Some(s[0])
  {
  }

  lemma ShadowedStep(s: seq<SearchItem>, t: nat)
    requires KeySorted(s) && s != []
    ensures var k0, rest := s[0].key, DropKey(s, s[0].key);
            Shadowed(s, t) <==>
            Shadowed(rest, t) || (Removed(Scan(s, k0, t)) && exists b :: DroppedInLoop(rest, t, b))
  {
    hide DropKey, Scan;
    var k0, rest := s[0].key, DropKey(s, s[0].key);
    RestScans(s, t);
    RestScans(s, 0);
    LessAsymmetric();
    if a, b :| ShadowedBy(s, t, a, b) {
      if a == k0 {
        assert DroppedInLoop(rest, t, b);
      } else {
        assert ShadowedBy(rest, t, a, b);
      }
    }
    if a, b :| ShadowedBy(rest, t, a, b) {
      assert ShadowedBy(s, t, a, b);
    }
    if b :| DroppedInLoop(rest, t, b) {
      assert Removed(Scan(s, k0, t)) ==> ShadowedBy(s, t, k0, b);
    }
  }

  lemma {:induction false} LostExactlyWhen(s: seq<SearchItem>, inLoop: bool, t: nat)
    requires KeySorted(s)
    ensures Lost(s, inLoop, t) > 0 <==> Shadowed(s, t) || (inLoop && exists b :: DroppedInLoop(s, t, b))
    decreases |s|
  {
    hide KeySorted, ShadowedBy, DroppedInLoop, Scan, Shadowed;
    if s == [] {
      NothingShadowed(t);
    } else {
      DropKeySorted(s, s[0].key);
      DroppedStep(s, t);
      ShadowedStep(s, t);
      LostExactlyWhen(DropKey(s, s[0].key), true, t);
      LostExactlyWhen(DropKey(s, s[0].key), false, t);
    }
  }

  lemma NothingShadowed(t: nat)
    ensures !Shadowed([], t) && forall b :: !DroppedInLoop([], t, b)
  {
  }

  /** A full drain yields what it should exactly when no live key is shadowed. */
  lemma DrainRightExactlyWhen(s: seq<SearchItem>, t: nat)
    requires KeySorted(s)
    ensures Drain(s, t) == Expected(s, t) <==> !Shadowed(s, t)
  {
    DrainAccount(s, t);
    LostExactlyWhen(s, false, t);
  }

  lemma {:induction false} TombstonesWithin(s: seq<SearchItem>, t: nat, p: (Key, Value))
    requires p in Expected(DropTombstones(s), t)
    ensures p in Expected(s, t)
    decreases |s|
  {
    if s != [] && s[0].value == [] {
      TombstonesWithin(DropKey(s, s[0].key), t, p);
    }
  }

  /** Shadowed or not, a drain yields nothing wrong. */
  lemma {:induction false} DrainSound(s: seq<SearchItem>, t: nat, p: (Key, Value))
    requires KeySorted(s) && p in Drain(s, t)
    ensures p in Expected(s, t)
    decreases |s|
  {
    if s == [] {
    } else if TopValueLegal(s, t) {
      if p != Pair(s[0]) {
        DropKeySorted(s, s[0].key);
        DrainSound(DropKey(s, s[0].key), t, p);
      }
    } else {
      hide Drain, Expected, KeySorted;
      var s2 := SkipInvisible(s, t);
      SkipAll(s, t);
      DropTombstonesSorted(s2);
      DrainSettles(s, t);
      DrainSound(DropTombstones(s2), t, p);
      TombstonesWithin(s2, t, p);
    }
  }

  lemma ExpectedAfter(s: seq<SearchItem>, t: nat, p: (Key, Value))
    requires KeySorted(s) && s != [] && p in Expected(DropKey(s, s[0].key), t)
    ensures Less(s[0].key, p.0)
  {
    hide Expected, KeySorted;
    var rest := DropKey(s, s[0].key);
    DropKeySorted(s, s[0].key);
    ExpectedAscends(rest, t);
    var i :| 0 <= i < |Expected(rest, t)| && Expected(rest, t)[i] == p;
    var j :| 0 <= j < |rest| && rest[j].key == p.0;
    RestAfter(s, j);
  }

  /** And it yields keys in ascending order. */
  lemma {:induction false} DrainAscends(s: seq<SearchItem>, t: nat)
    requires KeySorted(s)
    ensures KeysAscending(Drain(s, t))
    decreases |s|
  {
    if s == [] {
    } else if TopValueLegal(s, t) {
      var rest := DropKey(s, s[0].key);
      var out := Drain(rest, t);
      DropKeySorted(s, s[0].key);
      DrainAscends(rest, t);
      forall i | 0 <= i < |out| ensures Less(s[0].key, out[i].0) {
        DrainSound(rest, t, out[i]);
        ExpectedAfter(s, t, out[i]);
      }
    } else {
      hide Drain, KeySorted;
      SkipAll(s, t);
      DropTombstonesSorted(SkipInvisible(s, t));
      DrainSettles(s, t);
      DrainAscends(DropTombstones(SkipInvisible(s, t)), t);
    }
  }

  function Elements(s: seq<(Key, Value)>): (r: set<(Key, Value)>)
    ensures |r| <= |s| && forall x :: x in r <==> x in s
  {
    if s == [] then {} else
      assert s == [s[0]] + s[1..];
      {s[0]} + Elements(s[1..])
  }

  lemma {:induction false} AscendingDistinct(a: seq<(Key, Value)>)
    requires KeysAscending(a)
    ensures |Elements(a)| == |a|
  {
    if a != [] {
      AscendingDistinct(a[1..]);
      LessAsymmetric();
      assert a[0] !in a[1..];
    }
  }

  lemma AscendingWithin(a: seq<(Key, Value)>, b: seq<(Key, Value)>)
    requires KeysAscending(a) && forall x :: x in a ==> x in b
    ensures |a| <= |b|
  {
    AscendingDistinct(a);
    SubsetSize(Elements(a), Elements(b));
  }

  lemma {:induction false} SubsetSize<T>(a: set<T>, b: set<T>)
    requires a <= b
    ensures |a| <= |b|
  {
    if a != {} {
      var x :| x in a;
      SubsetSize(a - {x}, b - {x});
    }
  }

  /** It misses nothing exactly when no live key is shadowed. */
  lemma DrainMissesNothingExactlyWhen(s: seq<SearchItem>, t: nat)
    requires KeySorted(s)
    ensures (forall p :: p in Expected(s, t) ==> p in Drain(s, t)) <==> !Shadowed(s, t)
  {
    hide Drain, Expected, Shadowed, KeySorted, KeysAscending;
    DrainAccount(s, t);
    DrainRightExactlyWhen(s, t);
    ExpectedAscends(s, t);
    if forall p :: p in Expected(s, t) ==> p in Drain(s, t) {
      AscendingWithin(Expected(s, t), Drain(s, t));
    }
  }

  lemma DrainSettled(s: seq<SearchItem>, t: nat)
    ensures Drain(Settle(s, t), t) == Drain(s, t)
  {
  }

  // ----- the queue and the iterator

  ghost predicate InPopOrder(s: seq<SearchItem>) {
    forall i, j :: 0 <= i < j < |s| ==> Precedes(s[i], s[j])
  }

  lemma PrecedesTransitive(a: SearchItem, b: SearchItem, c: SearchItem)
    requires Precedes(a, b) && Precedes(b, c)
    ensures Precedes(a, c)
  {
    if Less(a.key, b.key) && Less(b.key, c.key) {
      LessTransitive(a.key, b.key, c.key);
    }
  }

  lemma PopOrderIsKeySorted(s: seq<SearchItem>)
    requires InPopOrder(s)
    ensures KeySorted(s)
  {
  }

  predicate SamePlace(a: SearchItem, b: SearchItem) {
    a.key == b.key && a.tid == b.tid && a.idx == b.idx
  }

  lemma PrecedesTotal(a: SearchItem, b: SearchItem)
    requires !SamePlace(a, b)
    ensures Precedes(a, b) || Precedes(b, a)
  {
    LessTotal(a.key, b.key);
  }

  /** Items the queue can order: pairwise agreeing and in different places. */
  ghost predicate Orderable(items: seq<SearchItem>) {
    forall i, j :: 0 <= i < |items| && 0 <= j < |items| && i != j ==>
      Agree(items[i], items[j]) && !SamePlace(items[i], items[j])
  }

  /** `push`: `s` is kept in the order the queue will pop it. */
  method Push(s: seq<SearchItem>, x: SearchItem) returns (r: seq<SearchItem>)
    requires InPopOrder(s)
    requires forall y :: y in s ==> Agree(x, y) && Agree(y, x) && !SamePlace(x, y)
    ensures InPopOrder(r) && multiset(r) == multiset(s) + multiset{x}
  {
    var i := 0;
    while i < |s| && Greater(x, s[i])
      invariant 0 <= i <= |s| && forall j :: 0 <= j < i ==> Precedes(s[j], x)
    {
      ComparatorIsOrder(s[i], x);
      i := i + 1;
    }
    if i < |s| {
      ComparatorIsOrder(s[i], x);
      PrecedesTotal(s[i], x);
      forall j | i <= j < |s| ensures Precedes(x, s[j]) {
        if j > i {
          PrecedesTransitive(x, s[i], s[j]);
        }
      }
    }
    r := s[..i] + [x] + s[i..];
    assert s == s[..i] + s[i..];
  }

  class HeapIterator {
    const maxTid: nat
    /** What is left, in the order the queue pops it. */
    var items: seq<SearchItem>
    /** Everything the iterator was made from, in that order. */
    ghost const all: seq<SearchItem>

    constructor (itemVec: seq<SearchItem>, maxTid: nat)
      requires Orderable(itemVec)
      ensures this.maxTid == maxTid && InPopOrder(all) && multiset(all) == multiset(itemVec)
      ensures items == Settle(all, maxTid)
    {
      var s := [];
      var i := 0;
      while i < |itemVec|
        invariant 0 <= i <= |itemVec| && InPopOrder(s) && multiset(s) == multiset(itemVec[..i])
      {
        forall y | y in s ensures Agree(itemVec[i], y) && Agree(y, itemVec[i]) && !SamePlace(itemVec[i], y) {
          assert y in multiset(itemVec[..i]);
          var j :| 0 <= j < i && itemVec[j] == y;
        }
        s := Push(s, itemVec[i]);
        assert itemVec[..i + 1] == itemVec[..i] + [itemVec[i]];
        i := i + 1;
      }
      assert itemVec[..i] == itemVec;
      this.maxTid, items, all := maxTid, s, s;
      new;
      SettleTop();
    }

    method SkipByTrancId()
      modifies this
      ensures items == SkipInvisible(old(items), maxTid)
    {
      if maxTid == 0 {
        return;
      }
      while |items| > 0 && items[0].tid > maxTid
        invariant SkipInvisible(old(items), maxTid) == SkipInvisible(items, maxTid)
        decreases |items|
      {
        items := items[1..];
      }
    }

    /** Pop every item of key `k` from the front. */
    method PopKey(k: Key)
      modifies this
      ensures items == DropKey(old(items), k)
    {
      while |items| > 0 && items[0].key == k
        invariant DropKey(old(items), k) == DropKey(items, k)
        decreases |items|
      {
        items := items[1..];
      }
    }

    method SettleTop()
      modifies this
      ensures items == Settle(old(items), maxTid)
    {
      while !TopValueLegal(items, maxTid)
        invariant Settle(old(items), maxTid) == Settle(items, maxTid)
        decreases |items|
      {
        SkipByTrancId();
        ghost var skipped := items;
        while |items| > 0 && items[0].value == []
          invariant DropTombstones(skipped) == DropTombstones(items) && |items| <= |skipped|
          decreases |items|
        {
          PopKey(items[0].key);
        }
      }
    }

    /** `operator++` */
    method Next()
      modifies this
      ensures items == if old(items) == [] then [] else Settle(DropKey(old(items), old(items)[0].key), maxTid)
    {
      if |items| == 0 {
        return;
      }
      var oldKey := items[0].key;
      items := items[1..];
      PopKey(oldKey);
      SettleTop();
    }

    /** A full iteration from here to the end. */
    method Collect() returns (out: seq<(Key, Value)>)
      requires TopValueLegal(items, maxTid)
      modifies this
      ensures items == [] && out == Drain(old(items), maxTid)
    {
      out := [];
      while |items| > 0
        invariant TopValueLegal(items, maxTid) && Drain(old(items), maxTid) == out + Drain(items, maxTid)
        decreases |items|
      {
        ghost var rest := DropKey(items, items[0].key);
        ghost var top := [Pair(items[0])];
        assert Drain(items, maxTid) == top + Drain(rest, maxTid);
        out := out + [Pair(items[0])];
        Next();
        assert Drain(rest, maxTid) == Drain(items, maxTid);
      }
    }
  }
}
