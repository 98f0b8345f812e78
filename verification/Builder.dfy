/** How a sorted run of versions is split into blocks: the builder as a function. */
module Splitting {
  import opened Keys
  import opened Versions
  import opened Codec
  import opened Blocks

  /** A finished block with the key range its metadata records. */
  datatype Chunk = Chunk(entries: seq<Version>, firstKey: Key, lastKey: Key)

  /** The builder between two calls of `add`. */
  datatype Building = Building(done: seq<Chunk>, cur: seq<Version>, firstKey: Key, lastKey: Key)

  const EMPTY: Building := Building([], [], [], [])

  function BlockSize(es: seq<Version>): (n: nat) {
    CurSize(ImageOf(es))
  }

  /** Whether a block of `cur` takes `v`: always when `v` continues the last key. */
  predicate Takes(cur: seq<Version>, v: Version, force: bool, capacity: nat) {
    force || BlockSize(cur) + |v.key| + |v.value| + 6 <= capacity
  }

  /** One `add`. An entry that does not fit even an empty block is dropped. */
  function AddStep(s: Building, v: Version, capacity: nat): (r: Building) {
    var firstKey := if s.firstKey == [] then v.key else s.firstKey;
    var force := s.lastKey == v.key;
    if Takes(s.cur, v, force, capacity) then
      Building(s.done, s.cur + [v], firstKey, v.key)
    else
      Building(s.done + [Chunk(s.cur, firstKey, s.lastKey)],
               if Takes([], v, force, capacity) then [v] else [], v.key, v.key)
  }

  function AddAll(es: seq<Version>, capacity: nat): (r: Building) {
    if es == [] then EMPTY else AddStep(AddAll(es[..|es| - 1], capacity), es[|es| - 1], capacity)
  }

  lemma AddAllMore(es: seq<Version>, v: Version, capacity: nat)
    ensures AddAll(es + [v], capacity) == AddStep(AddAll(es, capacity), v, capacity)
  {
    assert (es + [v])[..|es|] == es;
  }

  /** The blocks of a finished table. */
  function Finished(s: Building): (chunks: seq<Chunk>) {
    if s.cur == [] then s.done else s.done + [Chunk(s.cur, s.firstKey, s.lastKey)]
  }

  function Chunks(es: seq<Version>, capacity: nat): (chunks: seq<Chunk>) {
    Finished(AddAll(es, capacity))
  }

  /** There is a block as soon as anything was added, kept or not. */
  lemma {:induction false} ChunksEmpty(es: seq<Version>, capacity: nat)
    ensures Chunks(es, capacity) == [] <==> es == []
  {
    if es != [] {
      var s := AddAll(es[..|es| - 1], capacity);
      assert AddAll(es, capacity) == AddStep(s, es[|es| - 1], capacity);
    }
  }

  function Concat(chunks: seq<Chunk>): (es: seq<Version>) {
    if chunks == [] then [] else Concat(chunks[..|chunks| - 1]) + chunks[|chunks| - 1].entries
  }

  lemma ConcatMore(chunks: seq<Chunk>, c: Chunk)
    ensures Concat(chunks + [c]) == Concat(chunks) + c.entries
  {
    assert (chunks + [c])[..|chunks|] == chunks;
  }

  /** `v` fits a block of its own. */
  predicate FitsAlone(v: Version, capacity: nat) {
    |v.key| + |v.value| + 8 <= capacity
  }

  predicate Continues(es: seq<Version>, i: nat)
    requires i < |es|
  {
    es[i].key == if i == 0 then [] else es[i - 1].key
  }

  /** Every entry fits a block of its own or continues the key before it. */
  ghost predicate Kept(es: seq<Version>, capacity: nat) {
    forall i :: 0 <= i < |es| ==> FitsAlone(es[i], capacity) || Continues(es, i)
  }

  // ----- what is kept and what is dropped

  lemma FitsEmpty(v: Version, capacity: nat)
    ensures Takes([], v, false, capacity) <==> FitsAlone(v, capacity)
  {
    assert EncodeEntries([]) == [];
  }

  lemma TakesLess(cur: seq<Version>, v: Version, force: bool, capacity: nat)
    requires Takes(cur, v, force, capacity)
    ensures Takes([], v, force, capacity)
  {
    assert EncodeEntries([]) == [];
  }

  /** `s` after one more entry holds what it held, and the entry unless that is dropped. */
  lemma StepConcat(s: Building, v: Version, capacity: nat)
    ensures var r := AddStep(s, v, capacity);
            Concat(r.done) + r.cur ==
              Concat(s.done) + s.cur + if s.lastKey == v.key || FitsAlone(v, capacity) then [v] else []
  {
    hide BlockSize;
    FitsEmpty(v, capacity);
    var r := AddStep(s, v, capacity);
    if Takes(s.cur, v, s.lastKey == v.key, capacity) {
      TakesLess(s.cur, v, s.lastKey == v.key, capacity);
      assert Concat(s.done) + (s.cur + [v]) == Concat(s.done) + s.cur + [v];
    } else {
      assert r.done[..|s.done|] == s.done;
    }
  }

  lemma LastKey(es: seq<Version>, capacity: nat)
    ensures AddAll(es, capacity).lastKey == if es == [] then [] else es[|es| - 1].key
  {
  }

  function Held(es: seq<Version>, capacity: nat): (r: seq<Version>) {
    var s := AddAll(es, capacity);
    Concat(s.done) + s.cur
  }

  lemma HeldStep(es: seq<Version>, capacity: nat)
    requires es != []
    ensures var n := |es| - 1;
            Held(es, capacity) == Held(es[..n], capacity)
                                  + if FitsAlone(es[n], capacity) || Continues(es, n) then [es[n]] else []
  {
    var n := |es| - 1;
    StepConcat(AddAll(es[..n], capacity), es[n], capacity);
    LastKey(es[..n], capacity);
  }

  lemma {:induction false} HeldSize(es: seq<Version>, capacity: nat)
    ensures |Held(es, capacity)| <= |es|
  {
    hide Held;
    if es != [] {
      HeldSize(es[..|es| - 1], capacity);
      HeldStep(es, capacity);
    } else {
      EmptyHeld(capacity);
    }
  }

  lemma EmptyHeld(capacity: nat)
    ensures Held([], capacity) == []
  {
  }

  lemma KeptPrefix(es: seq<Version>, capacity: nat)
    requires es != []
    ensures var n := |es| - 1;
            Kept(es, capacity) <==> Kept(es[..n], capacity) && (FitsAlone(es[n], capacity) || Continues(es, n))
  {
    var n := |es| - 1;
    assert forall i :: 0 <= i < n ==> es[..n][i] == es[i] && (Continues(es[..n], i) <==> Continues(es, i));
  }

  /** The builder holds every entry it was given exactly when each one fits a block of its
      own or continues the key before it; otherwise entries are silently missing. */
  lemma {:induction false} HoldsAllExactlyWhenKept(es: seq<Version>, capacity: nat)
    ensures Held(es, capacity) == es <==> Kept(es, capacity)
  {
    hide Held, Kept;
    if es == [] {
      EmptyHeld(capacity);
      EmptyKept(capacity);
    } else {
      var n := |es| - 1;
      HoldsAllExactlyWhenKept(es[..n], capacity);
      HeldStep(es, capacity);
      KeptPrefix(es, capacity);
      HeldSize(es[..n], capacity);
      assert es == es[..n] + [es[n]];
    }
  }

  lemma EmptyKept(capacity: nat)
    ensures Kept([], capacity)
  {
  }

  // ----- the shape of the blocks

  predicate AtMost(a: Key, b: Key) {
    a == b || Less(a, b)
  }

  /** A chunk's versions are sorted and its last key is theirs. */
  ghost predicate ChunkSound(c: Chunk) {
    c.entries != [] && Sorted(c.entries) && c.lastKey == c.entries[|c.entries| - 1].key
  }

  /** What the recorded first key may be: the first key of the chunk, or, where that is
      the empty key, any key not after the last key of the chunk or the next first key. */
  ghost predicate FirstKeySound(c: Chunk, next: Key) {
    c.entries != [] &&
    (c.firstKey == c.entries[0].key || (c.entries[0].key == []
        && (AtMost(c.firstKey, c.lastKey) || c.firstKey == next)))
  }

  /** No key's versions straddle two chunks, and the key ranges ascend. */
  ghost predicate ChunksSound(chunks: seq<Chunk>) {
    && (forall i :: 0 <= i < |chunks| ==> ChunkSound(chunks[i]))
    && (forall i :: 0 < i < |chunks| ==> chunks[i].firstKey == chunks[i].entries[0].key)
    && (forall i :: 0 < i < |chunks| ==> Less(chunks[i - 1].lastKey, chunks[i].entries[0].key))
    && (chunks != [] ==> FirstKeySound(chunks[0], if |chunks| > 1 then chunks[1].firstKey else chunks[0].lastKey))
  }

  ghost predicate Sound(s: Building) {
    s == EMPTY || (s.cur != [] && ChunksSound(Finished(s)))
  }

  lemma AtMostTransitive(a: Key, b: Key, c: Key)
    requires AtMost(a, b) && AtMost(b, c)
    ensures AtMost(a, c)
  {
    if Less(a, b) && Less(b, c) {
      LessTransitive(a, b, c);
    }
  }

  /** A first entry, or one more entry in the open block. */
  lemma StepTaken(s: Building, v: Version, capacity: nat)
    requires Sound(s) && Sorted(s.cur + [v]) && s.cur != []
    requires Takes(s.cur, v, s.lastKey == v.key, capacity)
    ensures Sound(AddStep(s, v, capacity))
  {
    hide Takes, Less, Sorted;
    var r, n := AddStep(s, v, capacity), |s.done|;
    var a, b := Finished(s), Finished(r);
    assert a[n] == Chunk(s.cur, s.firstKey, s.lastKey) && b[n] == Chunk(s.cur + [v], r.firstKey, v.key);
    LastAtMost(s.cur, v);
    if n > 0 {
      NothingBelowEmpty(a[n - 1].lastKey);
      assert r.firstKey == s.firstKey;
    } else if s.firstKey != [] && AtMost(s.firstKey, s.lastKey) {
      AtMostTransitive(s.firstKey, s.lastKey, v.key);
    }
    forall i | 0 <= i < |b| ensures ChunkSound(b[i]) {
      assert i < n ==> ChunkSound(a[i]);
    }
    forall i | 0 < i < |b|
      ensures b[i].firstKey == b[i].entries[0].key && Less(b[i - 1].lastKey, b[i].entries[0].key)
    {
      assert a[i].firstKey == a[i].entries[0].key && Less(a[i - 1].lastKey, a[i].entries[0].key);
    }
  }

  lemma NothingBelowEmpty(a: Key)
    ensures !Less(a, [])
  {
  }

  lemma LastAtMost(es: seq<Version>, v: Version)
    requires es != [] && Sorted(es + [v])
    ensures AtMost(es[|es| - 1].key, v.key)
  {
    var w := es + [v];
    assert Before(w[|es| - 1], w[|es|]);
  }

  /** A new block. */
  lemma StepSplit(s: Building, v: Version, capacity: nat)
    requires Sound(s) && Sorted(s.cur + [v]) && s.cur != []
    requires !Takes(s.cur, v, s.lastKey == v.key, capacity) && FitsAlone(v, capacity)
    ensures Sound(AddStep(s, v, capacity))
  {
    FitsEmpty(v, capacity);
    hide BlockSize, Less, Sorted;
    var r, n := AddStep(s, v, capacity), |s.done|;
    var a, b := Finished(s), Finished(r);
    assert a[n] == Chunk(s.cur, s.firstKey, s.lastKey);
    assert b[n].entries == s.cur && b[n].lastKey == s.lastKey && b[n + 1] == Chunk([v], v.key, v.key);
    LastAtMost(s.cur, v);
    SortedOne(v);
    if n > 0 {
      NothingBelowEmpty(a[n - 1].lastKey);
    }
    forall i | 0 <= i < |b| ensures ChunkSound(b[i]) {
      assert i < n ==> ChunkSound(a[i]);
    }
  }

  lemma SortedOne(v: Version)
    ensures Sorted([v])
  {
  }

  /** However the blocks of a sorted, kept input fall, they are sound. */
  lemma {:induction false} BuildsSound(es: seq<Version>, capacity: nat)
    requires Sorted(es) && Kept(es, capacity)
    ensures Sound(AddAll(es, capacity)) && (es != [] ==> AddAll(es, capacity).cur != [])
  {
    if es != [] {
      var n := |es| - 1;
      var s, v := AddAll(es[..n], capacity), es[n];
      KeptPrefix(es, capacity);
      BuildsSound(es[..n], capacity);
      HoldsAllExactlyWhenKept(es[..n], capacity);
      LastKey(es[..n], capacity);
      FitsEmpty(v, capacity);
      if n == 0 {
        SortedOne(v);
      } else {
        CurrentSorted(es, Concat(s.done), s.cur);
        if Takes(s.cur, v, s.lastKey == v.key, capacity) {
          StepTaken(s, v, capacity);
        } else {
          StepSplit(s, v, capacity);
        }
      }
    }
  }

  lemma CurrentSorted(es: seq<Version>, before: seq<Version>, cur: seq<Version>)
    requires es != [] && Sorted(es) && es[..|es| - 1] == before + cur
    ensures Sorted(cur + [es[|es| - 1]])
  {
    var w, b := cur + [es[|es| - 1]], |before|;
    forall i | 0 <= i < |w| ensures w[i] == es[b + i] {
      assert i < |cur| ==> es[..|es| - 1][b + i] == cur[i];
    }
  }

  /** The first key that is not empty, if any. */
  function FirstNamed(es: seq<Version>): (k: Key) {
    if es == [] then []
    else
      var k := FirstNamed(es[..|es| - 1]);
      if k != [] then k else es[|es| - 1].key
  }

  lemma {:induction false} FirstNamedMeaning(es: seq<Version>)
    ensures FirstNamed(es) == [] <==> forall i :: 0 <= i < |es| ==> es[i].key == []
    ensures es != [] && es[0].key != [] ==> FirstNamed(es) == es[0].key
  {
    if es != [] {
      var n := |es| - 1;
      FirstNamedMeaning(es[..n]);
      assert n > 0 ==> es[..n][0] == es[0];
    }
  }

  /** What the builder records as the first key of its first block. */
  lemma {:induction false} FirstKeyRecorded(es: seq<Version>, capacity: nat)
    ensures var s := AddAll(es, capacity);
            && (if s.done == [] then s.firstKey else s.done[0].firstKey) == FirstNamed(es)
            && (FirstNamed(es) == [] ==> s.done == [])
  {
    if es != [] {
      var n := |es| - 1;
      FirstKeyRecorded(es[..n], capacity);
      LastKey(es[..n], capacity);
      FirstNamedMeaning(es[..n]);
    }
  }

  lemma {:induction false} ConcatFirst(chunks: seq<Chunk>)
    requires chunks != [] && chunks[0].entries != []
    ensures Concat(chunks) != [] && Concat(chunks)[0] == chunks[0].entries[0]
  {
    if |chunks| > 1 {
      ConcatFirst(chunks[..|chunks| - 1]);
    } else {
      assert Concat(chunks[..0]) == [];
    }
  }

  /** Every block records its own first key exactly when the table does not begin with the
      empty key or holds no other. */
  lemma FirstKeysRecordedExactlyWhen(es: seq<Version>, capacity: nat)
    requires es != [] && Sorted(es) && Kept(es, capacity)
    ensures var chunks := Chunks(es, capacity);
            && (forall c :: c in chunks ==> c.entries != [])
            && ((forall c :: c in chunks ==> c.firstKey == c.entries[0].key)
                <==> es[0].key != [] || forall i :: 0 <= i < |es| ==> es[i].key == [])
  {
    hide Sorted, Kept, AddAll, Concat;
    var s, chunks := AddAll(es, capacity), Chunks(es, capacity);
    BuildsSound(es, capacity);
    HoldsAllExactlyWhenKept(es, capacity);
    ConcatMore(s.done, Chunk(s.cur, s.firstKey, s.lastKey));
    FirstKeyRecorded(es, capacity);
    FirstNamedMeaning(es);
    assert ChunkSound(chunks[0]) && chunks[0] in chunks;
    ConcatFirst(chunks);
  }

  // ----- 16-bit offsets

  /** Bytes the versions of `k` take in blocks. */
  function RunBytes(es: seq<Version>, k: Key): (n: nat) {
    if es == [] then 0
    else
      var v := es[|es| - 1];
      RunBytes(es[..|es| - 1], k) + if v.key == k then |v.key| + |v.value| + 12 else 0
  }

  /** Every field fits its width, and no key's versions outgrow what 16-bit offsets leave
      beyond the block capacity. */
  ghost predicate RunsFit(es: seq<Version>, capacity: nat) {
    forall i :: 0 <= i < |es| ==> FieldsFit(es[i]) && capacity + RunBytes(es, es[i].key) <= U16
  }

  lemma RunsFitPrefix(es: seq<Version>, capacity: nat)
    requires es != [] && RunsFit(es, capacity)
    ensures RunsFit(es[..|es| - 1], capacity)
  {
    var p := es[..|es| - 1];
    forall i | 0 <= i < |p| ensures FieldsFit(p[i]) && capacity + RunBytes(p, p[i].key) <= U16 {
      assert p[i] == es[i];
    }
  }

  lemma FitsBlockMore(cur: seq<Version>, v: Version)
    requires FitsBlock(cur) && FieldsFit(v) && |EncodeEntries(cur)| < U16
    ensures FitsBlock(cur + [v])
  {
    var w := cur + [v];
    forall i {:trigger w[i]} | 0 <= i < |w| ensures FieldsFit(w[i]) && |EncodeEntries(w[..i])| < U16 {
      if i < |cur| {
        assert w[i] == cur[i] && w[..i] == cur[..i];
      } else {
        assert w[..i] == cur;
      }
    }
  }

  lemma EncodedMore(cur: seq<Version>, v: Version)
    ensures |EncodeEntries(cur + [v])| == |EncodeEntries(cur)| + |v.key| + |v.value| + 12
  {
    assert (cur + [v])[..|cur|] == cur;
  }

  /** No offset of any block is ever truncated. */
  lemma {:induction false} OffsetsFit(es: seq<Version>, capacity: nat)
    requires RunsFit(es, capacity)
    ensures var s := AddAll(es, capacity);
            && (forall i :: 0 <= i < |s.done| ==> FitsBlock(s.done[i].entries))
            && FitsBlock(s.cur)
            && |EncodeEntries(s.cur)| <= capacity + RunBytes(es, s.lastKey)
  {
    if es != [] {
      var n := |es| - 1;
      RunsFitPrefix(es, capacity);
      OffsetsFit(es[..n], capacity);
      StepFits(es, AddAll(es[..n], capacity), capacity);
    }
  }

  lemma StepFits(es: seq<Version>, s: Building, capacity: nat)
    requires es != [] && RunsFit(es, capacity)
    requires forall i :: 0 <= i < |s.done| ==> FitsBlock(s.done[i].entries)
    requires FitsBlock(s.cur) && |EncodeEntries(s.cur)| <= capacity + RunBytes(es[..|es| - 1], s.lastKey)
    ensures var r := AddStep(s, es[|es| - 1], capacity);
            && (forall i :: 0 <= i < |r.done| ==> FitsBlock(r.done[i].entries))
            && FitsBlock(r.cur)
            && |EncodeEntries(r.cur)| <= capacity + RunBytes(es, r.lastKey)
  {
    hide EncodeEntries, FitsBlock;
    var v := es[|es| - 1];
    assert FieldsFit(v) && capacity + RunBytes(es, v.key) <= U16;
    EmptyFits();
    EncodedMore(s.cur, v);
    EncodedMore([], v);
    assert [] + [v] == [v];
    if Takes(s.cur, v, s.lastKey == v.key, capacity) {
      FitsBlockMore(s.cur, v);
    } else {
      FitsBlockMore([], v);
    }
  }

  lemma EmptyFits()
    ensures FitsBlock([]) && EncodeEntries([]) == []
  {
  }

  // ----- the finished table

  /** What a table must be for its file to say the same: sorted, every entry kept, every
      length and offset within its field. */
  ghost predicate Storable(es: seq<Version>, capacity: nat) {
    es != [] && Sorted(es) && Kept(es, capacity) && RunsFit(es, capacity)
  }

  lemma FinishedTable(es: seq<Version>, capacity: nat)
    requires Storable(es, capacity)
    ensures var chunks := Chunks(es, capacity);
            && chunks != [] && ChunksSound(chunks) && Concat(chunks) == es
            && (forall i :: 0 <= i < |chunks| ==> FitsBlock(chunks[i].entries))
  {
    hide ChunksSound, FitsBlock, AddAll, Sorted, Kept, RunsFit;
    BuildsSound(es, capacity);
    HoldsAllExactlyWhenKept(es, capacity);
    OffsetsFit(es, capacity);
    var s, chunks := AddAll(es, capacity), Chunks(es, capacity);
    assert chunks[..|s.done|] == s.done;
  }

  // ----- reading a table by its blocks

  lemma {:induction false} LookupConcat(a: seq<Version>, b: seq<Version>, k: Key, t: nat)
    ensures Lookup(a + b, k, t) == if Lookup(a, k, t).Some? then Lookup(a, k, t) else Lookup(b, k, t)
  {
    if a == [] {
      assert a + b == b;
    } else {
      LookupConcat(a[1..], b, k, t);
      assert (a + b)[1..] == a[1..] + b;
    }
  }

  /** A lookup in the table is a lookup in the one block that has the key. */
  lemma {:induction false} LookupInChunk(chunks: seq<Chunk>, c: nat, k: Key, t: nat)
    requires c < |chunks| && forall i :: 0 <= i < |chunks| && i != c ==> !HasKey(chunks[i].entries, k)
    ensures Lookup(Concat(chunks), k, t) == Lookup(chunks[c].entries, k, t)
  {
    var n := |chunks| - 1;
    LookupConcat(Concat(chunks[..n]), chunks[n].entries, k, t);
    if c < n {
      LookupInChunk(chunks[..n], c, k, t);
      LookupAbsent(chunks[n].entries, k, t);
    } else {
      LookupNowhere(chunks[..n], k, t);
    }
  }

  lemma {:induction false} LookupNowhere(chunks: seq<Chunk>, k: Key, t: nat)
    requires forall i :: 0 <= i < |chunks| ==> !HasKey(chunks[i].entries, k)
    ensures Lookup(Concat(chunks), k, t) == None
  {
    if chunks != [] {
      var n := |chunks| - 1;
      LookupConcat(Concat(chunks[..n]), chunks[n].entries, k, t);
      LookupNowhere(chunks[..n], k, t);
      LookupAbsent(chunks[n].entries, k, t);
    }
  }

  // ----- from the history to the tables

  /** Every write fits a block of its own and its fields, and the writes to one key
      together leave its offsets within 16 bits. */
  ghost predicate HistoryFits(hist: seq<Version>, capacity: nat) {
    && (forall v :: v in hist ==> FitsAlone(v, capacity) && FieldsFit(v))
    && (forall v :: v in hist ==> capacity + RunBytes(hist, v.key) <= U16)
  }

  lemma {:induction false} RunBytesConcat(a: seq<Version>, b: seq<Version>, k: Key)
    ensures RunBytes(a + b, k) == RunBytes(a, k) + RunBytes(b, k)
  {
    if b == [] {
      assert a + b == a;
    } else {
      RunBytesConcat(a, b[..|b| - 1], k);
      assert (a + b)[..|a + b| - 1] == a + b[..|b| - 1];
    }
  }

  lemma RunBytesOne(v: Version, k: Key)
    ensures RunBytes([v], k) == if v.key == k then |v.key| + |v.value| + 12 else 0
  {
    assert [v][..0] == [];
  }

  lemma RunBytesInserted(es: seq<Version>, v: Version, k: Key)
    requires Sorted(es)
    ensures RunBytes(Insert(es, v), k) <= RunBytes(es, k) + RunBytes([v], k)
  {
    hide Insert, RunBytes, Sorted, Before;
    var p := SlotExists(es, v);
    InsertAt(es, v, p);
    RunBytesConcat(es[..p], es[p..], k);
    RunBytesConcat(es[..p], [v], k);
    assert es == es[..p] + es[p..];
    if p < |es| && SameSlot(es[p], v) {
      var rest := es[p + 1..];
      assert es[p..] == [es[p]] + rest;
      assert es[p := v] == es[..p] + [v] + rest;
      RunBytesConcat([es[p]], rest, k);
      RunBytesConcat(es[..p] + [v], rest, k);
    } else {
      RunBytesConcat(es[..p] + [v], es[p..], k);
    }
  }

  /** A table never holds more bytes of a key than were written to it. */
  lemma {:induction false} RunBytesFold(hist: seq<Version>, k: Key)
    ensures RunBytes(Fold(hist), k) <= RunBytes(hist, k)
  {
    if hist != [] {
      var h, v := hist[..|hist| - 1], hist[|hist| - 1];
      RunBytesFold(h, k);
      FoldSorted(h);
      RunBytesInserted(Fold(h), v, k);
      RunBytesOne(v, k);
    }
  }

  lemma {:induction false} RunBytesFlatten(segs: seq<seq<Version>>, i: nat, k: Key)
    requires i < |segs|
    ensures RunBytes(segs[i], k) <= RunBytes(Flatten(segs), k)
  {
    RunBytesConcat(Flatten(segs[1..]), segs[0], k);
    if i > 0 {
      RunBytesFlatten(segs[1..], i - 1, k);
    }
  }

  /** However a history that fits is spread over tables, each of them can be stored. */
  lemma HistoryTablesStorable(segs: seq<seq<Version>>, i: nat, capacity: nat)
    requires HistoryFits(Flatten(segs), capacity) && i < |segs| && segs[i] != []
    ensures Storable(Fold(segs[i]), capacity)
  {
    var es := Fold(segs[i]);
    FoldSorted(segs[i]);
    FoldNonEmpty(segs[i]);
    forall j | 0 <= j < |es|
      ensures FitsAlone(es[j], capacity) && FieldsFit(es[j]) && capacity + RunBytes(es, es[j].key) <= U16
    {
      FoldSubset(segs[i], es[j]);
      InFlatten(segs, i, es[j]);
      RunBytesFold(segs[i], es[j].key);
      RunBytesFlatten(segs, i, es[j].key);
    }
  }
}
