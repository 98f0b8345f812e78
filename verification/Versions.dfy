/** What the storage engine means: versions of keys, the order tables keep them in,
    and the answer a read owes its caller given the history of writes. */
module Versions {
  import opened Keys

  /** One write: an empty value is a removal. */
  datatype Version = Version(key: Key, value: Value, tid: nat)

  /** A reader at id 0 sees everything, any other reader only ids up to its own. */
  predicate Visible(tid: nat, t: nat) {
    t == 0 || tid <= t
  }

  /** The order of skip-list nodes: key ascending, then id descending. */
  predicate SlotBefore(k: Key, tid: nat, k': Key, tid': nat) {
    Less(k, k') || (k == k' && tid > tid')
  }

  predicate Before(a: Version, b: Version) {
    SlotBefore(a.key, a.tid, b.key, b.tid)
  }

  predicate SameSlot(a: Version, b: Version) {
    a.key == b.key && a.tid == b.tid
  }

  ghost predicate Sorted(es: seq<Version>) {
    forall i, j :: 0 <= i < j < |es| ==> Before(es[i], es[j])
  }

  /** Keys in dictionary order, and under one key the ids from the largest down. */
  ghost predicate InNodeOrder(es: seq<Version>) {
    forall i, j :: 0 <= i < j < |es| ==>
      Lexicographic(es[i].key, es[j].key) || (es[i].key == es[j].key && es[i].tid > es[j].tid)
  }

  lemma SortedIsNodeOrder(es: seq<Version>)
    ensures Sorted(es) <==> InNodeOrder(es)
  {
    forall i, j | 0 <= i < j < |es|
      ensures Before(es[i], es[j]) <==>
              Lexicographic(es[i].key, es[j].key) || (es[i].key == es[j].key && es[i].tid > es[j].tid)
    {
      LessIsLexicographic(es[i].key, es[j].key);
    }
  }

  lemma BeforeTransitive(a: Version, b: Version, c: Version)
    requires Before(a, b) && Before(b, c)
    ensures Before(a, c)
  {
    if Less(a.key, b.key) && Less(b.key, c.key) {
      LessTransitive(a.key, b.key, c.key);
    }
  }

  lemma BeforeTotal(a: Version, b: Version)
    ensures Before(a, b) || Before(b, a) || SameSlot(a, b)
    ensures !(Before(a, b) && Before(b, a))
    ensures SameSlot(a, b) ==> !Before(a, b)
  {
    LessTotal(a.key, b.key);
    LessIrreflexive(a.key);
    if Less(a.key, b.key) && Less(b.key, a.key) {
      LessTransitive(a.key, b.key, a.key);
    }
  }

  lemma SlotUnique(es: seq<Version>, a: Version, b: Version)
    requires Sorted(es) && a in es && b in es && SameSlot(a, b)
    ensures a == b
  {
    var i, j :| 0 <= i < |es| && es[i] == a && 0 <= j < |es| && es[j] == b;
    BeforeTotal(a, b);
    BeforeTotal(b, a);
    assert i == j;
  }

  /** Write `v` into a sorted table: replace the version in its slot or insert it. */
  function Insert(es: seq<Version>, v: Version): (r: seq<Version>) {
    if es == [] then [v]
    else if Before(es[0], v) then [es[0]] + Insert(es[1..], v)
    else if SameSlot(es[0], v) then [v] + es[1..]
    else [v] + es
  }

  lemma SortedReplaced(es: seq<Version>, p: nat, v: Version)
    requires Sorted(es) && p < |es| && SameSlot(es[p], v)
    ensures Sorted(es[p := v])
  {
  }

  /** Where a search by `Before` stops is where `Insert` writes. */
  lemma {:induction false} InsertAt(es: seq<Version>, v: Version, p: nat)
    requires p <= |es|
    requires forall i :: 0 <= i < p ==> Before(es[i], v)
    requires p < |es| ==> !Before(es[p], v)
    ensures Insert(es, v) == if p < |es| && SameSlot(es[p], v) then es[p := v]
                             else es[..p] + [v] + es[p..]
  {
    hide Before;
    if p > 0 {
      var rest := es[1..];
      assert es == [es[0]] + rest;
      InsertAt(rest, v, p - 1);
      assert es[..p] == [es[0]] + rest[..p - 1];
      assert es[p..] == rest[p - 1..];
      assert Insert(es, v) == [es[0]] + Insert(rest, v);
    } else if es != [] {
      assert es[..0] + [v] + es[0..] == [v] + es;
    }
  }

  /** The slot search always has an answer in a sorted table. */
  lemma {:induction false} SlotExists(es: seq<Version>, v: Version) returns (p: nat)
    requires Sorted(es)
    ensures p <= |es|
    ensures forall i :: 0 <= i < p ==> Before(es[i], v)
    ensures p < |es| ==> !Before(es[p], v)
    ensures forall i :: p < i < |es| ==> Before(v, es[i])
    ensures p < |es| && !SameSlot(es[p], v) ==> Before(v, es[p])
    ensures forall i :: 0 <= i < |es| ==> (Before(es[i], v) <==> i < p)
  {
    p := 0;
    while p < |es| && Before(es[p], v)
      invariant p <= |es|
      invariant forall i :: 0 <= i < p ==> Before(es[i], v)
    {
      p := p + 1;
    }
    if p < |es| {
      BeforeTotal(es[p], v);
      forall i | p < i < |es| ensures Before(v, es[i]) {
        if SameSlot(es[p], v) {
        } else {
          BeforeTransitive(v, es[p], es[i]);
        }
      }
    }
    forall i | p <= i < |es| ensures !Before(es[i], v) {
      BeforeTotal(es[i], v);
    }
  }

  lemma InsertSorted(es: seq<Version>, v: Version)
    requires Sorted(es)
    ensures Sorted(Insert(es, v))
  {
    var p := SlotExists(es, v);
    InsertAt(es, v, p);
  }

  /** A write changes the stored versions only in its own slot. */
  lemma InsertContents(es: seq<Version>, v: Version, w: Version)
    requires Sorted(es)
    ensures w in Insert(es, v) <==> w == v || (w in es && !SameSlot(w, v))
  {
    var p := SlotExists(es, v);
    InsertAt(es, v, p);
    var r := Insert(es, v);
    forall i | 0 <= i < |es| ensures SameSlot(es[i], v) ==> i == p {
      BeforeTotal(es[i], v);
      BeforeTotal(v, es[i]);
    }
    if w in es && !SameSlot(w, v) {
      var i :| 0 <= i < |es| && es[i] == w;
      if p < |es| && SameSlot(es[p], v) {
        assert r[i] == w;
      } else {
        assert r[if i < p then i else i + 1] == w;
      }
    }
    assert r[p] == v;
  }

  /** Bytes a table accounts for: key, value and an 8-byte id per version. */
  function Size(es: seq<Version>): (n: nat) {
    if es == [] then 0 else |es[0].key| + |es[0].value| + 8 + Size(es[1..])
  }

  lemma {:induction false} SizeConcat(a: seq<Version>, b: seq<Version>)
    ensures Size(a + b) == Size(a) + Size(b)
  {
    if a == [] {
      assert a + b == b;
    } else {
      SizeConcat(a[1..], b);
      assert (a + b)[1..] == a[1..] + b;
    }
  }

  lemma SizeInserted(es: seq<Version>, p: nat, v: Version)
    requires p <= |es|
    ensures Size(es[..p] + [v] + es[p..]) == Size(es) + |v.key| + |v.value| + 8
  {
    assert es == es[..p] + es[p..];
    SizeConcat(es[..p], es[p..]);
    SizeConcat(es[..p], [v]);
    SizeConcat(es[..p] + [v], es[p..]);
  }

  lemma SizeReplaced(es: seq<Version>, p: nat, v: Version)
    requires p < |es| && es[p].key == v.key
    ensures Size(es[p := v]) == Size(es) + |v.value| - |es[p].value|
  {
    assert es == es[..p] + es[p..] && es[p..] == [es[p]] + es[p + 1..];
    assert es[p := v] == es[..p] + ([v] + es[p + 1..]);
    SizeConcat(es[..p], es[p..]);
    SizeConcat(es[..p], [v] + es[p + 1..]);
  }

  // ----- reads of one table

  /** A linear scan of a table: the first version of `k` the reader may see. */
  function Lookup(es: seq<Version>, k: Key, t: nat): (r: Option<Version>) {
    if es == [] then None
    else if es[0].key == k && Visible(es[0].tid, t) then Some(es[0])
    else Lookup(es[1..], k, t)
  }

  /** `i` is where a scan for `k` at `t` stops. */
  lemma {:induction false} LookupAt(es: seq<Version>, k: Key, t: nat, i: nat)
    requires i <= |es|
    requires forall j :: 0 <= j < i ==> !(es[j].key == k && Visible(es[j].tid, t))
    requires i < |es| ==> es[i].key == k && Visible(es[i].tid, t)
    ensures Lookup(es, k, t) == if i < |es| then Some(es[i]) else None
  {
    if i > 0 {
      assert forall j :: 0 <= j < i - 1 ==> es[1..][j] == es[j + 1];
      LookupAt(es[1..], k, t, i - 1);
    }
  }

  ghost predicate HasKey(es: seq<Version>, k: Key) {
    exists i :: 0 <= i < |es| && es[i].key == k
  }

  lemma LookupAbsent(es: seq<Version>, k: Key, t: nat)
    requires !HasKey(es, k)
    ensures Lookup(es, k, t) == None
  {
    LookupAt(es, k, t, |es|);
  }

  /** Where the versions of `k` begin in a sorted table. */
  lemma KeyCut(es: seq<Version>, k: Key) returns (p: nat)
    requires Sorted(es)
    ensures p <= |es|
    ensures forall i :: 0 <= i < |es| ==> (Less(es[i].key, k) <==> i < p)
  {
    p := 0;
    while p < |es| && Less(es[p].key, k)
      invariant p <= |es|
      invariant forall i :: 0 <= i < p ==> Less(es[i].key, k)
    {
      p := p + 1;
    }
    forall i | p <= i < |es| ensures !Less(es[i].key, k) {
      if i > p && Less(es[i].key, k) {
        assert Before(es[p], es[i]);
        if es[p].key != es[i].key {
          LessTransitive(es[p].key, es[i].key, k);
        }
      }
    }
  }

  /** Past the versions of `k` there are no more of them. */
  lemma NoneFurther(es: seq<Version>, k: Key, i: nat)
    requires Sorted(es) && i <= |es|
    requires i < |es| ==> es[i].key != k && !Less(es[i].key, k)
    ensures forall j :: i <= j < |es| ==> es[j].key != k
  {
    forall j | i <= j < |es| ensures es[j].key != k {
      LessTotal(es[i].key, k);
      LessIrreflexive(k);
      assert j > i ==> Before(es[i], es[j]);
      if j > i && Less(es[i].key, es[j].key) {
        LessTransitive(k, es[i].key, es[j].key);
      }
    }
  }

  /** `r` is the version of `k` with the largest id the reader may see. */
  ghost predicate IsNewestVisible(es: seq<Version>, k: Key, t: nat, r: Option<Version>) {
    match r
    case None => forall w :: w in es && w.key == k ==> !Visible(w.tid, t)
    case Some(v) =>
      && v in es && v.key == k && Visible(v.tid, t)
      && forall w :: w in es && w.key == k && Visible(w.tid, t) ==> w.tid <= v.tid
  }

  lemma {:induction false} LookupIsNewestVisible(es: seq<Version>, k: Key, t: nat)
    requires Sorted(es)
    ensures IsNewestVisible(es, k, t, Lookup(es, k, t))
  {
    if es != [] {
      LookupIsNewestVisible(es[1..], k, t);
      LessIrreflexive(k);
      if es[0].key == k && Visible(es[0].tid, t) {
        forall w | w in es && w.key == k && Visible(w.tid, t) ensures w.tid <= es[0].tid {
          var i :| 0 <= i < |es| && es[i] == w;
        }
      } else {
        assert forall w :: w in es ==> w == es[0] || w in es[1..];
      }
    }
  }

  lemma LookupUnique(es: seq<Version>, k: Key, t: nat, r: Option<Version>)
    requires Sorted(es) && IsNewestVisible(es, k, t, r)
    ensures r == Lookup(es, k, t)
  {
    LookupIsNewestVisible(es, k, t);
    var q := Lookup(es, k, t);
    if r.Some? && q.Some? {
      SlotUnique(es, r.value, q.value);
    }
  }

  // ----- range queries: a predicate says "go right" (> 0), "here" (0) or "go left" (< 0)

  function Direction(d: int): int {
    if d > 0 then 1 else if d < 0 then -1 else 0
  }

  ghost predicate MonotoneOn(es: seq<Version>, pred: Key -> int) {
    forall i, j :: 0 <= i < j < |es| ==> Direction(pred(es[i].key)) >= Direction(pred(es[j].key))
  }

  /** [lo, hi) is exactly where `pred` is 0. */
  ghost predicate Selects(es: seq<Version>, pred: Key -> int, lo: nat, hi: nat) {
    && lo <= hi <= |es|
    && forall i :: 0 <= i < |es| ==> (pred(es[i].key) == 0 <==> lo <= i < hi)
  }

  /** The versions `pred` selects, in order. */
  function Satisfying(es: seq<Version>, pred: Key -> int): (r: seq<Version>) {
    if es == [] then []
    else Satisfying(es[..|es| - 1], pred) + if pred(es[|es| - 1].key) == 0 then [es[|es| - 1]] else []
  }

  /** Where `pred` selects [lo, hi), that slice is all it selects. */
  lemma {:induction false} SelectsSatisfying(es: seq<Version>, pred: Key -> int, lo: nat, hi: nat)
    requires Selects(es, pred, lo, hi)
    ensures es[lo..hi] == Satisfying(es, pred)
  {
    if es != [] {
      var n := |es| - 1;
      var p := es[..n];
      var lo', hi' := if lo < n then lo else n, if hi < n then hi else n;
      forall i | 0 <= i < |p| ensures pred(p[i].key) == 0 <==> lo' <= i < hi' {
        assert p[i] == es[i];
      }
      SelectsSatisfying(p, pred, lo', hi');
      assert es[lo..hi] == p[lo'..hi'] + if pred(es[n].key) == 0 then [es[n]] else [];
    }
  }

  lemma {:induction false} SatisfyingNone(es: seq<Version>, pred: Key -> int)
    requires forall i :: 0 <= i < |es| ==> pred(es[i].key) != 0
    ensures Satisfying(es, pred) == []
  {
    if es != [] {
      SatisfyingNone(es[..|es| - 1], pred);
    }
  }

  lemma {:induction false} SatisfyingMember(es: seq<Version>, pred: Key -> int, v: Version)
    ensures v in Satisfying(es, pred) <==> v in es && pred(v.key) == 0
  {
    if es != [] {
      SatisfyingMember(es[..|es| - 1], pred, v);
      assert es == es[..|es| - 1] + [es[|es| - 1]];
    }
  }

  lemma NotMonotone(es: seq<Version>, pred: Key -> int, i: nat, j: nat)
    requires i < j < |es| && Direction(pred(es[i].key)) < Direction(pred(es[j].key))
    ensures !MonotoneOn(es, pred)
  {
  }

  /** The predicate passes from "go right" to "go left" after `c`. */
  lemma EmptyRun(es: seq<Version>, pred: Key -> int, c: int)
    requires MonotoneOn(es, pred) && -1 <= c < |es|
    requires c >= 0 ==> pred(es[c].key) > 0
    requires c + 1 < |es| ==> pred(es[c + 1].key) < 0
    ensures forall v :: v in es ==> pred(v.key) != 0
  {
    forall i | 0 <= i < |es| ensures pred(es[i].key) != 0 {
      if i > c + 1 {
        assert Direction(pred(es[c + 1].key)) >= Direction(pred(es[i].key));
      } else if i < c {
        assert Direction(pred(es[i].key)) >= Direction(pred(es[c].key));
      }
    }
  }

  /** A run of satisfying versions with none left of it and none right of it. */
  lemma MaximalRun(es: seq<Version>, pred: Key -> int, first: nat, last: nat)
    requires MonotoneOn(es, pred) && first <= last < |es|
    requires pred(es[first].key) == 0 && pred(es[last].key) == 0
    requires first > 0 ==> pred(es[first - 1].key) > 0
    requires last + 1 < |es| ==> pred(es[last + 1].key) < 0
    ensures Selects(es, pred, first, last + 1)
  {
  }

  // ----- histories

  /** The table holding a history, oldest write first. */
  function Fold(hist: seq<Version>): (es: seq<Version>) {
    if hist == [] then [] else Insert(Fold(hist[..|hist| - 1]), hist[|hist| - 1])
  }

  /** The write to `k` with the largest visible id, the later of two with the same id. */
  function Newest(hist: seq<Version>, k: Key, t: nat): (r: Option<Version>) {
    if hist == [] then None
    else
      var v := hist[|hist| - 1];
      var r := Newest(hist[..|hist| - 1], k, t);
      if v.key == k && Visible(v.tid, t) && (r.Some? ==> r.value.tid <= v.tid) then Some(v) else r
  }

  /** The last visible write to `k`, whatever its id. */
  function LastWrite(hist: seq<Version>, k: Key, t: nat): (r: Option<Version>) {
    if hist == [] then None
    else
      var v := hist[|hist| - 1];
      if v.key == k && Visible(v.tid, t) then Some(v) else LastWrite(hist[..|hist| - 1], k, t)
  }

  lemma {:induction false} FoldSorted(hist: seq<Version>)
    ensures Sorted(Fold(hist))
  {
    if hist != [] {
      FoldSorted(hist[..|hist| - 1]);
      InsertSorted(Fold(hist[..|hist| - 1]), hist[|hist| - 1]);
    }
  }

  lemma {:induction false} NewestInHistory(hist: seq<Version>, k: Key, t: nat)
    ensures match Newest(hist, k, t)
            case None => forall w :: w in hist && w.key == k ==> !Visible(w.tid, t)
            case Some(v) => v in hist && v.key == k && Visible(v.tid, t)
                            && forall w :: w in hist && w.key == k && Visible(w.tid, t) ==> w.tid <= v.tid
  {
    if hist != [] {
      var h := hist[..|hist| - 1];
      NewestInHistory(h, k, t);
      assert hist == h + [hist[|hist| - 1]];
    }
  }

  /** One table answers every read exactly as its history demands, whatever order the
      ids were written in. */
  lemma {:induction false} FoldAnswersNewest(hist: seq<Version>, k: Key, t: nat)
    ensures Lookup(Fold(hist), k, t) == Newest(hist, k, t)
  {
    if hist != [] {
      var h, v := hist[..|hist| - 1], hist[|hist| - 1];
      FoldAnswersNewest(h, k, t);
      FoldSorted(h);
      FoldSorted(hist);
      LookupIsNewestVisible(Fold(h), k, t);
      InsertNewest(Fold(h), v, k, t);
      LookupUnique(Fold(hist), k, t, Newest(hist, k, t));
    }
  }

  /** How one write moves the newest visible version. */
  lemma InsertNewest(es: seq<Version>, v: Version, k: Key, t: nat)
    requires Sorted(es)
    ensures var r := Lookup(es, k, t);
            IsNewestVisible(Insert(es, v), k, t,
              if v.key == k && Visible(v.tid, t) && (r.Some? ==> r.value.tid <= v.tid) then Some(v) else r)
  {
    LookupIsNewestVisible(es, k, t);
    forall w ensures w in Insert(es, v) <==> w == v || (w in es && !SameSlot(w, v)) {
      InsertContents(es, v, w);
    }
  }

  /** Ids of a key never decrease in write order. */
  ghost predicate IdsNeverDecrease(hist: seq<Version>) {
    forall i, j :: 0 <= i < j < |hist| && hist[i].key == hist[j].key ==> hist[i].tid <= hist[j].tid
  }

  lemma {:induction false} NewestIsLastWrite(hist: seq<Version>, k: Key, t: nat)
    requires IdsNeverDecrease(hist)
    ensures Newest(hist, k, t) == LastWrite(hist, k, t)
  {
    if hist != [] {
      var h := hist[..|hist| - 1];
      NewestIsLastWrite(h, k, t);
      NewestInHistory(h, k, t);
    }
  }

  /** `LastWrite` in positions: the visible write of `k` that no later one follows. */
  lemma {:induction false} LastWriteMeaning(hist: seq<Version>, k: Key, t: nat)
    ensures match LastWrite(hist, k, t)
            case None => forall i :: 0 <= i < |hist| && hist[i].key == k ==> !Visible(hist[i].tid, t)
            case Some(v) => exists i :: 0 <= i < |hist| && hist[i] == v && v.key == k && Visible(v.tid, t)
                                        && forall j :: i < j < |hist| && hist[j].key == k ==> !Visible(hist[j].tid, t)
  {
    if hist != [] {
      var n := |hist| - 1;
      var h := hist[..n];
      LastWriteMeaning(h, k, t);
      if hist[n].key == k && Visible(hist[n].tid, t) {
        assert LastWrite(hist, k, t) == Some(hist[n]);
      } else if LastWrite(h, k, t).Some? {
        var v := LastWrite(h, k, t).value;
        var i :| 0 <= i < |h| && h[i] == v && forall j :: i < j < |h| && h[j].key == k ==> !Visible(h[j].tid, t);
        assert hist[i] == v && forall j :: i < j < |hist| && hist[j].key == k ==> !Visible(hist[j].tid, t);
      } else {
        assert forall i :: 0 <= i < n ==> h[i] == hist[i];
      }
    }
  }

  // ----- reads of a stack of tables, newest first

  function LookupTables(tables: seq<seq<Version>>, k: Key, t: nat): (r: Option<Version>) {
    if tables == [] then None
    else
      var r := Lookup(tables[0], k, t);
      if r.Some? then r else LookupTables(tables[1..], k, t)
  }

  /** The history behind a stack of segments, newest segment first. */
  function Flatten(segs: seq<seq<Version>>): (hist: seq<Version>) {
    if segs == [] then [] else Flatten(segs[1..]) + segs[0]
  }

  lemma {:induction false} NewestSplit(old_: seq<Version>, new_: seq<Version>, k: Key, t: nat)
    requires IdsNeverDecrease(old_ + new_)
    ensures Newest(old_ + new_, k, t) ==
            if Newest(new_, k, t).Some? then Newest(new_, k, t) else Newest(old_, k, t)
  {
    if new_ == [] {
      assert old_ + new_ == old_;
    } else {
      var n := |new_| - 1;
      var h := old_ + new_;
      assert h[..|h| - 1] == old_ + new_[..n];
      NewestSplit(old_, new_[..n], k, t);
      NewestInHistory(old_, k, t);
      forall w | w in old_ && w.key == new_[n].key ensures w.tid <= new_[n].tid {
        var i :| 0 <= i < |old_| && old_[i] == w;
        assert h[i] == w && h[|h| - 1] == new_[n];
      }
    }
  }

  // ----- what layering means for the tables

  /** No version in an older table is newer than one of the same key in a newer table. */
  ghost predicate Layered(tables: seq<seq<Version>>) {
    forall i, j, a: Version, b: Version ::
      0 <= i < j < |tables| && a in tables[i] && b in tables[j] && a.key == b.key ==> a.tid >= b.tid
  }

  lemma {:induction false} FoldSubset(hist: seq<Version>, v: Version)
    requires v in Fold(hist)
    ensures v in hist
  {
    if hist != [] {
      var h, w := hist[..|hist| - 1], hist[|hist| - 1];
      FoldSorted(h);
      InsertContents(Fold(h), w, v);
      if v != w {
        FoldSubset(h, v);
      }
    }
  }

  lemma FoldNonEmpty(hist: seq<Version>)
    ensures Fold(hist) == [] <==> hist == []
  {
    if hist != [] {
      var h, v := hist[..|hist| - 1], hist[|hist| - 1];
      FoldSorted(h);
      InsertContents(Fold(h), v, v);
    }
  }

  lemma {:induction false} InFlatten(segs: seq<seq<Version>>, i: nat, v: Version)
    requires i < |segs| && v in segs[i]
    ensures v in Flatten(segs)
  {
    if i > 0 {
      InFlatten(segs[1..], i - 1, v);
    }
  }

  /** Tables filled one after another from a history of never-decreasing ids are layered. */
  lemma {:induction false} HistoryLayers(segs: seq<seq<Version>>, i: nat, j: nat, a: Version, b: Version)
    requires IdsNeverDecrease(Flatten(segs)) && i < j < |segs|
    requires a in Fold(segs[i]) && b in Fold(segs[j]) && a.key == b.key
    ensures a.tid >= b.tid
  {
    var hist, older := Flatten(segs), Flatten(segs[1..]);
    if i > 0 {
      OlderNeverDecreases(segs);
      HistoryLayers(segs[1..], i - 1, j - 1, a, b);
    } else {
      FoldSubset(segs[0], a);
      FoldSubset(segs[j], b);
      InFlatten(segs[1..], j - 1, b);
      var p :| 0 <= p < |older| && older[p] == b;
      var q :| 0 <= q < |segs[0]| && segs[0][q] == a;
      assert hist[p] == b && hist[|older| + q] == a;
    }
  }

  lemma OlderNeverDecreases(segs: seq<seq<Version>>)
    requires segs != [] && IdsNeverDecrease(Flatten(segs))
    ensures IdsNeverDecrease(Flatten(segs[1..]))
  {
    var hist, older := Flatten(segs), Flatten(segs[1..]);
    assert forall i :: 0 <= i < |older| ==> older[i] == hist[i];
  }

  function Tables(segs: seq<seq<Version>>): (tables: seq<seq<Version>>)
    ensures |tables| == |segs| && forall i :: 0 <= i < |segs| ==> tables[i] == Fold(segs[i])
  {
    seq(|segs|, i requires 0 <= i < |segs| => Fold(segs[i]))
  }

  lemma TablesLayered(segs: seq<seq<Version>>)
    requires IdsNeverDecrease(Flatten(segs))
    ensures Layered(Tables(segs))
  {
    var tables := Tables(segs);
    forall i, j, a: Version, b: Version | 0 <= i < j < |tables| && a in tables[i] && b in tables[j] && a.key == b.key
      ensures a.tid >= b.tid
    {
      HistoryLayers(segs, i, j, a, b);
    }
  }

  /** Newest table first is right when ids never decrease. */
  lemma {:induction false} LayeredReads(segs: seq<seq<Version>>, k: Key, t: nat)
    requires IdsNeverDecrease(Flatten(segs))
    ensures LookupTables(Tables(segs), k, t) == Newest(Flatten(segs), k, t)
  {
    if segs != [] {
      assert Tables(segs)[1..] == Tables(segs[1..]);
      OlderNeverDecreases(segs);
      LayeredReads(segs[1..], k, t);
      FoldAnswersNewest(segs[0], k, t);
      NewestSplit(Flatten(segs[1..]), segs[0], k, t);
    }
  }

}
