/** The range query over a table file: one query a block, joined into one range. */
module SstRanges {
  import opened Keys
  import opened Versions
  import opened Codec
  import opened Blocks
  import opened BlockSearch
  import opened BlockCaches
  import opened Splitting
  import opened Ssts

  /** The two iterators: a block and a place in it. An end at the end of its block has no
      block iterator any more. */
  datatype FileRange =
    | Nothing
    | Between(firstBlock: nat, first: nat, lastBlock: nat, end: Option<nat>)
    | Broken

  /** Where block `i` begins in the table. */
  function StartOf(chunks: seq<Chunk>, i: nat): nat
    requires i <= |chunks|
  {
    |Concat(chunks[..i])|
  }

  /** `r` stands for exactly what `pred` selects among the first `n` blocks. */
  ghost predicate Covers(chunks: seq<Chunk>, n: nat, pred: Key -> int, r: FileRange)
    requires n <= |chunks|
  {
    match r
    case Nothing => forall v :: v in Concat(chunks[..n]) ==> pred(v.key) != 0
    case Between(b, i, c, end) =>
      && b <= c < n
      && i < |chunks[b].entries|
      && (end.Some? ==> end.value < |chunks[c].entries|)
      && StartOf(chunks, b) + i < Until(chunks, c, end)
      && Selects(Concat(chunks[..n]), pred, StartOf(chunks, b) + i, Until(chunks, c, end))
    case Broken => false
  }

  function Until(chunks: seq<Chunk>, c: nat, end: Option<nat>): nat
    requires c < |chunks|
  {
    if end.Some? then StartOf(chunks, c) + end.value else StartOf(chunks, c + 1)
  }

  lemma ConcatNext(chunks: seq<Chunk>, n: nat)
    requires n < |chunks|
    ensures Concat(chunks[..n + 1]) == Concat(chunks[..n]) + chunks[n].entries
    ensures StartOf(chunks, n + 1) == StartOf(chunks, n) + |chunks[n].entries|
  {
    assert chunks[..n + 1][..n] == chunks[..n];
  }

  lemma {:induction false} ConcatPrefix(chunks: seq<Chunk>, n: nat)
    requires n <= |chunks|
    ensures Concat(chunks[..n]) <= Concat(chunks)
  {
    if n < |chunks| {
      ConcatPrefix(chunks[..|chunks| - 1], n);
      assert chunks[..|chunks| - 1][..n] == chunks[..n];
    } else {
      assert chunks[..n] == chunks;
    }
  }

  /** A predicate monotone along the table is monotone along its blocks. */
  lemma MonotonePieces(es: seq<Version>, pre: seq<Version>, more: seq<Version>, pred: Key -> int)
    requires MonotoneOn(es, pred) && pre + more <= es
    ensures MonotoneOn(pre, pred) && MonotoneOn(more, pred) && MonotoneOn(pre + more, pred)
  {
    var all := pre + more;
    assert forall i :: 0 <= i < |pre| ==> pre[i] == es[i];
    assert forall i :: 0 <= i < |more| ==> more[i] == es[|pre| + i];
    assert forall i :: 0 <= i < |all| ==> all[i] == es[i];
  }

  lemma NoGap(es: seq<Version>, pred: Key -> int, i: nat, x: nat, j: nat)
    requires MonotoneOn(es, pred) && i <= x <= j < |es| && pred(es[i].key) == 0 && pred(es[j].key) == 0
    ensures pred(es[x].key) == 0
  {
    assert i < x ==> Direction(pred(es[i].key)) >= Direction(pred(es[x].key));
    assert x < j ==> Direction(pred(es[x].key)) >= Direction(pred(es[j].key));
  }

  /** One run in front and one behind join without a gap. */
  lemma RunsJoin(pre: seq<Version>, more: seq<Version>, pred: Key -> int, lo: nat, hi: nat, p: nat, q: nat)
    requires MonotoneOn(pre + more, pred)
    requires Selects(pre, pred, lo, hi) && lo < hi && Selects(more, pred, p, q) && p < q
    ensures hi == |pre| && p == 0 && Selects(pre + more, pred, lo, |pre| + q)
  {
    var all := pre + more;
    assert forall i :: 0 <= i < |pre| ==> all[i] == pre[i];
    assert forall i :: |pre| <= i < |all| ==> all[i] == more[i - |pre|];
    assert all[lo] == pre[lo] && all[|pre| + p] == more[p];
    NoGap(all, pred, lo, if hi < |pre| then hi else lo, |pre| + p);
    NoGap(all, pred, lo, if p > 0 then |pre| else lo, |pre| + p);
  }

  lemma RunStays(pre: seq<Version>, more: seq<Version>, pred: Key -> int, lo: nat, hi: nat)
    requires Selects(pre, pred, lo, hi) && forall i :: 0 <= i < |more| ==> pred(more[i].key) != 0
    ensures Selects(pre + more, pred, lo, hi)
  {
  }

  lemma RunBegins(pre: seq<Version>, more: seq<Version>, pred: Key -> int, p: nat, q: nat)
    requires Selects(more, pred, p, q) && forall v :: v in pre ==> pred(v.key) != 0
    ensures Selects(pre + more, pred, |pre| + p, |pre| + q)
  {
    assert forall i :: 0 <= i < |pre| ==> pre[i] in pre;
  }

  /** A block the recorded keys rule out has nothing to select. */
  lemma SkippedBlock(es: seq<Version>, pred: Key -> int)
    requires es != [] && MonotoneOn(es, pred) && pred(es[|es| - 1].key) > 0
    ensures forall i :: 0 <= i < |es| ==> pred(es[i].key) != 0
  {
    var n := |es| - 1;
    assert forall i :: 0 <= i < n ==> Direction(pred(es[i].key)) >= Direction(pred(es[n].key));
  }

  /** The range so far, extended by what block `n` gave. */
  function Extended(r: FileRange, n: nat, first: nat, end: Option<nat>): FileRange {
    if r.Between? then Between(r.firstBlock, r.first, n, end) else Between(n, first, n, end)
  }

  lemma CoversMore(chunks: seq<Chunk>, n: nat, pred: Key -> int, r: FileRange, first: nat, last: nat)
    requires n < |chunks| && Covers(chunks, n, pred, r) && MonotoneOn(Concat(chunks), pred)
    requires first < last && Selects(chunks[n].entries, pred, first, last)
    ensures Covers(chunks, n + 1, pred, Extended(r, n, first, if last < |chunks[n].entries| then Some(last) else None))
  {
    var pre, more := Concat(chunks[..n]), chunks[n].entries;
    hide Concat, Selects, MonotoneOn, StartOf;
    ConcatNext(chunks, n);
    ConcatPrefix(chunks, n + 1);
    MonotonePieces(Concat(chunks), pre, more, pred);
    SelectsBound(more, pred, first, last);
    assert StartOf(chunks, n) == |pre|;
    match r {
      case Nothing => RunBegins(pre, more, pred, first, last);
      case Between(b, i, c, end) =>
        RunsJoin(pre, more, pred, StartOf(chunks, b) + i, Until(chunks, c, end), first, last);
    }
  }

  lemma SelectsBound(es: seq<Version>, pred: Key -> int, lo: nat, hi: nat)
    requires Selects(es, pred, lo, hi)
    ensures lo <= hi <= |es|
  {
  }

  lemma CoversSame(chunks: seq<Chunk>, n: nat, pred: Key -> int, r: FileRange)
    requires n < |chunks| && Covers(chunks, n, pred, r)
    requires forall i :: 0 <= i < |chunks[n].entries| ==> pred(chunks[n].entries[i].key) != 0
    ensures Covers(chunks, n + 1, pred, r)
  {
    hide Concat, Selects;
    var pre, more := Concat(chunks[..n]), chunks[n].entries;
    ConcatNext(chunks, n);
    match r {
      case Nothing =>
      case Between(b, i, c, end) =>
        RunStays(pre, more, pred, StartOf(chunks, b) + i, Until(chunks, c, end));
    }
  }

  lemma CoversNothing(chunks: seq<Chunk>, pred: Key -> int)
    ensures Covers(chunks, 0, pred, Nothing)
  {
  }

  lemma BlockCount(sst: Sst, es: seq<Version>, capacity: nat, hash: Hasher)
    requires Stores(sst, es, capacity, hash)
    ensures |sst.metas| == |Chunks(es, capacity)|
  {
  }

  lemma LastKeyAt(chunks: seq<Chunk>, hash: Hasher, i: nat)
    requires ChunksSound(chunks) && i < |chunks|
    ensures var last := MetasOf(chunks, hash)[i].lastKey;
            chunks[i].entries != [] && last == chunks[i].entries[|chunks[i].entries| - 1].key
  {
    hide Layout, MetasOf;
    MetaAt(chunks, hash, i);
  }

  lemma BlockMonotone(chunks: seq<Chunk>, n: nat, pred: Key -> int)
    requires n < |chunks| && MonotoneOn(Concat(chunks), pred)
    ensures MonotoneOn(chunks[n].entries, pred)
  {
    hide Concat, MonotoneOn;
    ConcatNext(chunks, n);
    ConcatPrefix(chunks, n + 1);
    MonotonePieces(Concat(chunks), Concat(chunks[..n]), chunks[n].entries, pred);
  }

  /** For a predicate monotone along the table, the file's blocks together select exactly
      what the table's own range query selects; reading and searching never fail. */
  method ItersMonotonyPredicate(sst: Sst, cache: BlockCache<Image>, hash: Hasher, pred: Key -> int,
                                ghost ssts: map<nat, Sst>, ghost es: seq<Version>, ghost capacity: nat)
      returns (r: FileRange)
    requires cache.Valid() && CacheAgrees(cache.contents, ssts, hash)
    requires sst.id in ssts && ssts[sst.id] == sst
    requires Stores(sst, es, capacity, hash) && Storable(es, capacity)
    modifies cache
    ensures cache.Valid() && CacheAgrees(cache.contents, ssts, hash)
    ensures MonotoneOn(es, pred) ==>
              var chunks := Chunks(es, capacity);
              && Concat(chunks) == es
              && match r
                 case Nothing => forall v :: v in es ==> pred(v.key) != 0
                 case Between(b, i, c, end) =>
                   && b <= c < |chunks| && i < |chunks[b].entries|
                   && StartOf(chunks, b) + i < Until(chunks, c, end)
                   && Selects(es, pred, StartOf(chunks, b) + i, Until(chunks, c, end))
                 case Broken => false
  {
    hide Layout, MetasOf, Chunks, ChunksSound, Storable, BlockAt, CacheAgrees, Refines, FitsBlock, MonotoneOn,
      Selects, Concat, KeysOf;
    ghost var chunks := Chunks(es, capacity);
    FinishedTable(es, capacity);
    BlockCount(sst, es, capacity, hash);
    r := Nothing;
    CoversNothing(chunks, pred);
    var n := 0;
    while n < |sst.metas|
      invariant 0 <= n <= |sst.metas| && cache.Valid() && CacheAgrees(cache.contents, ssts, hash)
      invariant !r.Broken? && (MonotoneOn(es, pred) ==> Covers(chunks, n, pred, r))
    {
      var meta := sst.metas[n];
      LastKeyAt(chunks, hash, n);
      if MonotoneOn(es, pred) {
        BlockMonotone(chunks, n, pred);
      }
      StoredBlock(sst, es, capacity, hash, n);
      var block := ReadBlock(sst, cache, hash, n, ssts);
      if block.Failed? {
        return Broken;
      }
      if !(pred(meta.firstKey) < 0 && pred(meta.lastKey) > 0) {
        var got := GetMonotonyPredicate(block.image, chunks[n].entries, pred);
        match got {
          case NotSorted => return Broken;
          case NoRange =>
            if MonotoneOn(es, pred) {
              CoversSame(chunks, n, pred, r);
            }
          case Range(first, last) =>
            if MonotoneOn(es, pred) {
              CoversMore(chunks, n, pred, r, first, last);
            }
            r := Extended(r, n, first, if last < |block.image.offsets| then Some(last) else None);
        }
      } else if MonotoneOn(es, pred) {
        SkippedBlock(chunks[n].entries, pred);
        CoversSame(chunks, n, pred, r);
      }
      n := n + 1;
    }
    assert chunks[..|chunks|] == chunks;
  }
}
