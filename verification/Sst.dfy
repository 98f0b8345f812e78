/** Sorted table files: building one from a sorted run of versions, finding a key's block,
    reading blocks through the shared cache, and looking a version up. */
module Ssts {
  import opened Keys
  import opened Versions
  import opened Codec
  import opened Blocks
  import opened BlockSearch
  import BlockMetas
  import Bloom
  import opened BlockCaches
  import opened Splitting

  /** A finished table. Nothing changes it after the build. */
  datatype Sst = Sst(id: nat, file: Bytes, metaBlockOffset: nat, bloomOffset: nat, metas: seq<BlockMetas.Meta>,
                     filter: Bloom.Filter, firstKey: Key, lastKey: Key, minTid: nat, maxTid: nat)

  // ----- the data section

  function ChunkBytes(c: Chunk, hash: Hasher): (b: Bytes) {
    var e := Encode(ImageOf(c.entries));
    e + HashBytes(hash, e)
  }

  function Layout(chunks: seq<Chunk>, hash: Hasher): (b: Bytes) {
    if chunks == [] then []
    else Layout(chunks[..|chunks| - 1], hash) + ChunkBytes(chunks[|chunks| - 1], hash)
  }

  function MetasOf(chunks: seq<Chunk>, hash: Hasher): (ms: seq<BlockMetas.Meta>)
    ensures |ms| == |chunks|
  {
    if chunks == [] then []
    else
      var n := |chunks| - 1;
      MetasOf(chunks[..n], hash)
      + [BlockMetas.Meta(|Layout(chunks[..n], hash)|, chunks[n].firstKey, chunks[n].lastKey)]
  }

  lemma {:induction false} MetaAt(chunks: seq<Chunk>, hash: Hasher, i: nat)
    requires i < |chunks|
    ensures MetasOf(chunks, hash)[i] ==
            BlockMetas.Meta(|Layout(chunks[..i], hash)|, chunks[i].firstKey, chunks[i].lastKey)
  {
    hide Layout;
    var n := |chunks| - 1;
    if i < n {
      MetaAt(chunks[..n], hash, i);
      assert chunks[..n][..i] == chunks[..i];
    }
  }

  lemma OneMoreChunk(done: seq<Chunk>, c: Chunk, hash: Hasher)
    ensures Layout(done + [c], hash) == Layout(done, hash) + ChunkBytes(c, hash)
    ensures MetasOf(done + [c], hash) ==
            MetasOf(done, hash) + [BlockMetas.Meta(|Layout(done, hash)|, c.firstKey, c.lastKey)]
  {
    assert (done + [c])[..|done|] == done;
  }

  /** Chunk `i` stands in the data section between its offset and the next. */
  lemma {:induction false} ChunkStands(chunks: seq<Chunk>, hash: Hasher, i: nat)
    requires i < |chunks|
    ensures |Layout(chunks[..i + 1], hash)| == |Layout(chunks[..i], hash)| + |ChunkBytes(chunks[i], hash)|
    ensures Holds(Layout(chunks, hash), |Layout(chunks[..i], hash)|, ChunkBytes(chunks[i], hash))
  {
    hide ChunkBytes;
    var n := |chunks| - 1;
    assert chunks[..i + 1][..i] == chunks[..i];
    if i < n {
      ChunkStands(chunks[..n], hash, i);
      assert chunks[..n][..i] == chunks[..i];
      HoldsExtended(Layout(chunks[..n], hash), ChunkBytes(chunks[n], hash), |Layout(chunks[..i], hash)|,
          ChunkBytes(chunks[i], hash));
    } else {
      assert chunks[..i + 1] == chunks;
      var l, c := Layout(chunks[..n], hash), ChunkBytes(chunks[n], hash);
      assert l + c == l + c + [];
      HoldsIn(l, c, []);
    }
  }

  /** A bound on the data section: per version at most 12 bytes beyond what the memtable
      accounts for it. */
  ghost predicate FileFits(es: seq<Version>) {
    Size(es) + 12 * |es| < U32
  }

  lemma {:induction false} EncodedSize(es: seq<Version>)
    ensures |EncodeEntries(es)| == Size(es) + 4 * |es|
  {
    if es != [] {
      var n := |es| - 1;
      EncodedSize(es[..n]);
      assert es == es[..n] + [es[n]];
      SizeConcat(es[..n], [es[n]]);
      assert [es[n]][1..] == [];
    }
  }

  lemma ChunkSize(c: Chunk, hash: Hasher)
    ensures |ChunkBytes(c, hash)| == Size(c.entries) + 6 * |c.entries| + 6
  {
    EncodedSize(c.entries);
  }

  /** The data section is at most 12 bytes a version longer than its accounted size. */
  ghost predicate LayoutBounded(chunks: seq<Chunk>, hash: Hasher) {
    |Layout(chunks, hash)| <= Size(Concat(chunks)) + 12 * |Concat(chunks)|
  }

  lemma NothingBounded(hash: Hasher)
    ensures LayoutBounded([], hash)
  {
  }

  lemma {:induction false} LayoutSize(chunks: seq<Chunk>, hash: Hasher)
    requires forall i :: 0 <= i < |chunks| ==> chunks[i].entries != []
    ensures LayoutBounded(chunks, hash)
  {
    hide LayoutBounded;
    if chunks == [] {
      NothingBounded(hash);
    } else {
      var n := |chunks| - 1;
      LayoutSize(chunks[..n], hash);
      LayoutSizeStep(chunks[..n], chunks[n], hash);
      assert chunks == chunks[..n] + [chunks[n]];
    }
  }

  lemma LayoutSizeStep(p: seq<Chunk>, c: Chunk, hash: Hasher)
    requires LayoutBounded(p, hash) && c.entries != []
    ensures LayoutBounded(p + [c], hash)
  {
    hide Layout, Concat, ChunkBytes, Size;
    OneMoreChunk(p, c, hash);
    ChunkSize(c, hash);
    ConcatMore(p, c);
    SizeConcat(Concat(p), c.entries);
  }

  // ----- the builder

  function KeysOf(es: seq<Version>): (r: set<Key>) {
    set v | v in es :: v.key
  }

  class SSTBuilder {
    const hash: Hasher
    const blockSize: nat
    const block: Block
    const bloomFilter: Bloom.BloomFilter
    var firstKey: Key
    var lastKey: Key
    var metaEntries: seq<BlockMetas.Meta>
    var data: Bytes
    var minTid: nat
    var maxTid: nat
    /** Everything added so far. */
    ghost var added: seq<Version>

    ghost predicate Valid()
      reads this, block, bloomFilter
    {
      && block.Valid() && block.capacity == blockSize
      && bloomFilter.Valid() && bloomFilter.hash == hash && bloomFilter.keys == KeysOf(added)
      && IdRange(added, minTid, maxTid)
      && var s := AddAll(added, blockSize);
         && block.entries == s.cur && firstKey == s.firstKey && lastKey == s.lastKey
         && data == Layout(s.done, hash) && metaEntries == MetasOf(s.done, hash)
    }

    constructor (hash: Hasher, blockSize: nat, expected: nat, rate: Bytes, numBits: nat, numHashes: nat)
      requires numBits > 0 && |rate| == 8
      ensures Valid() && fresh(block) && fresh(bloomFilter) && added == []
      ensures this.hash == hash && this.blockSize == blockSize
    {
      this.hash, this.blockSize := hash, blockSize;
      firstKey, lastKey, metaEntries, data, added := [], [], [], [], [];
      minTid, maxTid := U64 - 1, 0;
      block := new Block(blockSize);
      bloomFilter := new Bloom.BloomFilter(hash, expected, rate, numBits, numHashes);
    }

    /** Encode the open block, with its hash, behind the data and record its metadata. */
    method FinishBlock()
      requires block.Valid()
      modifies block, `data, `metaEntries
      ensures block.Valid() && block.entries == []
      ensures var c := Chunk(old(block.entries), firstKey, lastKey);
              && data == old(data) + ChunkBytes(c, hash)
              && metaEntries == old(metaEntries) + [BlockMetas.Meta(|old(data)|, firstKey, lastKey)]
    {
      var img := block.Take();
      var encoded := Encode(img);
      metaEntries := metaEntries + [BlockMetas.Meta(|data|, firstKey, lastKey)];
      data := data + (encoded + HashBytes(hash, encoded));
    }

    /** Add the next version of a sorted run. */
    method Add(key: Key, value: Value, tid: nat)
      requires Valid()
      modifies this, block, bloomFilter
      ensures Valid() && added == old(added) + [Version(key, value, tid)]
    {
      hide Layout, MetasOf, ChunkBytes, ImageOf, AddAll, KeysOf, Takes, Bloom.Marked, IdRange, Bloom.BloomFilter.Valid;
      IdRangeMore(added, Version(key, value, tid), minTid, maxTid);
      ghost var v, s := Version(key, value, tid), AddAll(added, blockSize);
      AddAllMore(added, v, blockSize);
      KeysOfMore(added, v);
      if firstKey == [] {
        firstKey := key;
      }
      Note(key, tid);
      var force := lastKey == key;
      added := added + [v];
      var ok := AddToBlock(key, value, tid, force);
      if ok {
        lastKey := key;
        return;
      }
      OneMoreChunk(s.done, Chunk(s.cur, firstKey, lastKey), hash);
      FinishBlock();
      var _ := AddToBlock(key, value, tid, force);
      firstKey := key;
      lastKey := key;
    }

    method Note(key: Key, tid: nat)
      requires bloomFilter.Valid()
      modifies `minTid, `maxTid, bloomFilter
      ensures bloomFilter.Valid() && bloomFilter.keys == old(bloomFilter.keys) + {key}
      ensures minTid == (if tid < old(minTid) then tid else old(minTid))
      ensures maxTid == if tid > old(maxTid) then tid else old(maxTid)
    {
      bloomFilter.Add(key);
      maxTid := if tid > maxTid then tid else maxTid;
      minTid := if tid < minTid then tid else minTid;
    }

    /** Finish the open block and lay out the file: data, metadata, filter. Building a
        table nothing was added to throws, which is `None`. */
    method Build(id: nat) returns (r: Option<Sst>)
      requires Valid()
      modifies this, block
      ensures r.None? <==> old(Chunks(added, blockSize)) == []
      ensures r.Some? ==>
                r.value.id == id && FileOf(r.value, old(added), blockSize, hash)
    {
      hide Layout, MetasOf, ChunkBytes, AddAll, KeysOf, Bloom.Marked, IdRange, Footer, Filed, Bloom.IsEncodingOf,
        BlockMetas.EncodeMetas;
      ghost var s := AddAll(added, blockSize);
      OneMoreChunk(s.done, Chunk(s.cur, firstKey, lastKey), hash);
      if |block.offsets| > 0 {
        FinishBlock();
      }
      if |metaEntries| == 0 {
        return None;
      }
      var metaBlock := BlockMetas.EncodeMetaToSlice(metaEntries, hash);
      var filterBytes := Bloom.Encode(bloomFilter.AsFilter());
      var bloomOffset := |data| + |metaBlock|;
      var footer := Footer(|data|, bloomOffset, minTid, maxTid);
      var sst := Sst(id, data + metaBlock + filterBytes + footer,
                     |data| % U32, bloomOffset % U32, metaEntries, bloomFilter.AsFilter(),
                     metaEntries[0].firstKey, metaEntries[|metaEntries| - 1].lastKey, minTid, maxTid);
      IsFiled(sst, old(Chunks(added, blockSize)), hash, filterBytes);
      r := Some(sst);
    }

    method AddToBlock(key: Key, value: Value, tid: nat, force: bool) returns (ok: bool)
      requires block.Valid() && block.capacity == blockSize
      modifies block
      ensures block.Valid()
      ensures ok <==> Takes(old(block.entries), Version(key, value, tid), force, blockSize)
      ensures block.entries == if ok then old(block.entries) + [Version(key, value, tid)] else old(block.entries)
    {
      ok := block.AddEntry(key, value, tid, force);
    }
  }

  /** The smallest and the largest id added, starting from the largest and smallest there are. */
  ghost predicate IdRange(es: seq<Version>, low: nat, high: nat) {
    && low < U64 && (forall v :: v in es ==> low <= v.tid <= high)
    && (low == U64 - 1 || exists v :: v in es && v.tid == low)
    && (high == 0 || exists v :: v in es && v.tid == high)
  }

  lemma IdRangeMore(es: seq<Version>, v: Version, low: nat, high: nat)
    requires IdRange(es, low, high)
    ensures IdRange(es + [v], if v.tid < low then v.tid else low, if v.tid > high then v.tid else high)
  {
    assert v in es + [v] && forall w :: w in es ==> w in es + [v];
  }

  /** `chunks` make up the data section of `sst`, as its metadata describes them. */
  ghost predicate Laid(sst: Sst, chunks: seq<Chunk>, hash: Hasher) {
    && sst.metas == MetasOf(chunks, hash)
    && Layout(chunks, hash) <= sst.file
    && sst.metaBlockOffset == |Layout(chunks, hash)| % U32
  }

  lemma IsFiled(sst: Sst, chunks: seq<Chunk>, hash: Hasher, filterBytes: Bytes)
    requires chunks != [] && sst.metas == MetasOf(chunks, hash) && Bloom.IsEncodingOf(filterBytes, sst.filter)
    requires var metas := BlockMetas.EncodeMetas(MetasOf(chunks, hash), hash);
             var a := |Layout(chunks, hash)|;
             && sst.metaBlockOffset == a % U32 && sst.bloomOffset == (a + |metas|) % U32
             && sst.firstKey == sst.metas[0].firstKey && sst.lastKey == sst.metas[|chunks| - 1].lastKey
             && sst.file == Layout(chunks, hash) + metas + filterBytes
                            + Footer(a, a + |metas|, sst.minTid, sst.maxTid)
    ensures Filed(sst, chunks, hash)
  {
    hide Layout, MetasOf, Bloom.IsEncodingOf, BlockMetas.EncodeMetas, Footer;
    MetaAt(chunks, hash, 0);
    MetaAt(chunks, hash, |chunks| - 1);
    var metas := BlockMetas.EncodeMetas(MetasOf(chunks, hash), hash);
    var a := |Layout(chunks, hash)|;
    var b, n := a + |metas|, |sst.file| - FOOTER;
    assert sst.file[b..n] == filterBytes;
    assert sst.file[n..] == Footer(a, b, sst.minTid, sst.maxTid);
    assert sst.file[..a] == Layout(chunks, hash) && sst.file[a..b] == metas;
  }

  const FOOTER: nat := 24

  /** The last 24 bytes. The ids are written over the place of the filter's offset. */
  function Footer(metaOffset: nat, bloomOffset: nat, minTid: nat, maxTid: nat): (b: Bytes)
    ensures |b| == FOOTER
  {
    var offsets := Le(metaOffset % U32, 4) + Zeros(12) + Le(bloomOffset % U32, 4) + Zeros(4);
    offsets[..8] + Le(minTid % U64, 8) + Le(maxTid % U64, 8)
  }

  /** The whole file: data, metadata, filter and footer, and the fields that point into it. */
  ghost predicate Filed(sst: Sst, chunks: seq<Chunk>, hash: Hasher) {
    var metas := BlockMetas.EncodeMetas(MetasOf(chunks, hash), hash);
    var a := |Layout(chunks, hash)|;
    var b, n := a + |metas|, |sst.file| - FOOTER;
    && chunks != [] && sst.metas == MetasOf(chunks, hash)
    && sst.metaBlockOffset == a % U32 && sst.bloomOffset == b % U32
    && sst.firstKey == chunks[0].firstKey && sst.lastKey == chunks[|chunks| - 1].lastKey
    && b <= n
    && sst.file[..a] == Layout(chunks, hash) && sst.file[a..b] == metas
    && Bloom.IsEncodingOf(sst.file[b..n], sst.filter)
    && sst.file[n..] == Footer(a, b, sst.minTid, sst.maxTid)
  }

  ghost predicate Filters(f: Bloom.Filter, keys: set<Key>, hash: Hasher) {
    Bloom.WellFormed(f) && forall k :: k in keys ==> Bloom.Marked(hash, f, k)
  }

  /** `sst` is what the builder makes of `es`. */
  ghost predicate FileOf(sst: Sst, es: seq<Version>, capacity: nat, hash: Hasher) {
    && Laid(sst, Chunks(es, capacity), hash) && Filed(sst, Chunks(es, capacity), hash)
    && Filters(sst.filter, KeysOf(es), hash) && IdRange(es, sst.minTid, sst.maxTid)
  }

  /** The recorded keys fit their 16-bit lengths when the versions do. */
  lemma RecordedKeysFit(es: seq<Version>, capacity: nat, i: nat)
    requires Storable(es, capacity) && i < |Chunks(es, capacity)|
    ensures var c := Chunks(es, capacity)[i]; |c.firstKey| < U16 && |c.lastKey| < U16
  {
    hide AddAll, Concat, Kept, Sorted;
    var chunks := Chunks(es, capacity);
    FinishedTable(es, capacity);
    assert ChunkSound(chunks[i]) && FitsBlock(chunks[i].entries);
    assert FieldsFit(chunks[i].entries[0]) && FieldsFit(chunks[i].entries[|chunks[i].entries| - 1]);
    if i == 0 {
      FirstKeyRecorded(es, capacity);
      FirstNamedIsKey(es);
    }
  }

  lemma {:induction false} FirstNamedIsKey(es: seq<Version>)
    ensures FirstNamed(es) == [] || exists i :: 0 <= i < |es| && es[i].key == FirstNamed(es)
  {
    if es != [] {
      var n := |es| - 1;
      FirstNamedIsKey(es[..n]);
      if FirstNamed(es[..n]) != [] {
        var i :| 0 <= i < n && es[..n][i].key == FirstNamed(es[..n]);
        assert es[i].key == FirstNamed(es);
      }
    }
  }

  lemma MetasFit(es: seq<Version>, capacity: nat, hash: Hasher)
    requires Storable(es, capacity) && |Layout(Chunks(es, capacity), hash)| < U32
    ensures var ms := MetasOf(Chunks(es, capacity), hash);
            forall i :: 0 <= i < |ms| ==> BlockMetas.MetaFits(ms[i])
  {
    hide Layout, MetasOf, Chunks, Storable;
    var chunks := Chunks(es, capacity);
    forall i | 0 <= i < |chunks| ensures BlockMetas.MetaFits(MetasOf(chunks, hash)[i]) {
      MetaAt(chunks, hash, i);
      RecordedKeysFit(es, capacity, i);
      ChunkStands(chunks, hash, i);
    }
  }

  /** Where the parts of a file below 4 GB stand. */
  lemma FileParts(sst: Sst, chunks: seq<Chunk>, hash: Hasher)
    requires Filed(sst, chunks, hash) && |sst.file| < U32
    ensures var ms := MetasOf(chunks, hash);
            && sst.metas == ms && |ms| < U32 && |Layout(chunks, hash)| < U32
            && sst.metaBlockOffset <= sst.bloomOffset <= |sst.file| - FOOTER
            && sst.file[sst.metaBlockOffset..sst.bloomOffset] == BlockMetas.EncodeMetas(ms, hash)
            && Bloom.IsEncodingOf(sst.file[sst.bloomOffset..|sst.file| - FOOTER], sst.filter)
  {
    hide Layout, MetasOf, Bloom.IsEncodingOf, Footer, BlockMetas.EncodeMetas;
    BlockMetas.EncodedLength(MetasOf(chunks, hash), hash);
  }

  /** The metadata and the filter stand in the file where its offsets say, and decode there
      to what the builder recorded: every key of the table tests positive. */
  lemma FileDecodes(sst: Sst, es: seq<Version>, capacity: nat, hash: Hasher)
    requires FileOf(sst, es, capacity, hash) && Storable(es, capacity) && |sst.file| < U32
    requires |sst.filter.rate| == 8 && sst.filter.expected < U64 && sst.filter.numBits < U64
        && sst.filter.numHashes < U64
    ensures sst.metaBlockOffset <= sst.bloomOffset <= |sst.file| - FOOTER
    ensures BlockMetas.DecodeMetas(sst.file[sst.metaBlockOffset..sst.bloomOffset], hash) == BlockMetas.Ok(sst.metas)
    ensures var filterBytes := sst.file[sst.bloomOffset..|sst.file| - FOOTER];
            && Bloom.Decodable(filterBytes)
            && (forall g :: Bloom.IsDecodingOf(g, filterBytes) ==>
                  g == sst.filter && forall k :: k in KeysOf(es) ==> Bloom.Marked(hash, g, k))
    ensures es != [] && sst.firstKey == FirstNamed(es) && sst.lastKey == es[|es| - 1].key
  {
    hide Layout, MetasOf, Chunks, Storable, KeysOf, Bloom.Marked, Bloom.IsDecodingOf, Bloom.IsEncodingOf, Footer,
      BlockMetas.EncodeMetas, BlockMetas.DecodeMetas, IdRange, Bloom.Decodable, BlockMetas.MetaFits, FirstNamed;
    var chunks := Chunks(es, capacity);
    EndKeys(es, capacity);
    FileParts(sst, chunks, hash);
    MetasFit(es, capacity, hash);
    BlockMetas.EncodedMetasDecode(MetasOf(chunks, hash), hash);
    hide Filed, Laid;
    var filterBytes := sst.file[sst.bloomOffset..|sst.file| - FOOTER];
    Bloom.EncodingDecodable(sst.filter, filterBytes);
    forall g | Bloom.IsDecodingOf(g, filterBytes) ensures g == sst.filter {
      Bloom.FilterRoundTrip(sst.filter, filterBytes, g);
    }
  }

  /** Reopening takes the two offsets from the last eight bytes (src/sst/sst.cpp:195-201),
      where the build wrote the largest id: it reads the halves of that id instead. */
  lemma ReopenReadsIds(sst: Sst, chunks: seq<Chunk>, hash: Hasher)
    requires Filed(sst, chunks, hash) && sst.maxTid < U64
    ensures var n := |sst.file|;
            && n >= FOOTER
            && FromLe(sst.file[n - 8..n - 4]) == sst.maxTid % U32
            && FromLe(sst.file[n - 4..]) == sst.maxTid / U32
  {
    hide Layout, MetasOf, Bloom.IsEncodingOf, BlockMetas.EncodeMetas, Le, FromLe;
    var n, m := |sst.file|, sst.maxTid;
    var tail := sst.file[n - FOOTER..];
    assert sst.file[n - 8..n - 4] == tail[FOOTER - 8..FOOTER - 4] && sst.file[n - 4..] == tail[FOOTER - 4..];
    assert tail[FOOTER - 8..] == Le(m, 8);
    Widths();
    LeSplit(m, 4, 4);
    assert tail[FOOTER - 8..FOOTER - 4] == Le(m, 8)[..4] && tail[FOOTER - 4..] == Le(m, 8)[4..];
    LeRoundTrips(m % U32);
    LeRoundTrips(m / U32);
  }

  lemma EndKeys(es: seq<Version>, capacity: nat)
    requires Storable(es, capacity)
    ensures var chunks := Chunks(es, capacity);
            es != [] && chunks != [] && chunks[0].firstKey == FirstNamed(es)
                && chunks[|chunks| - 1].lastKey == es[|es| - 1].key
  {
    hide Kept, Sorted;
    FinishedTable(es, capacity);
    FirstKeyRecorded(es, capacity);
    LastKey(es, capacity);
    BuildsSound(es, capacity);
  }

  lemma KeysOfMore(es: seq<Version>, v: Version)
    ensures KeysOf(es + [v]) == KeysOf(es) + {v.key}
  {
    assert v in es + [v];
    forall k | k in KeysOf(es) ensures k in KeysOf(es + [v]) {
      var w :| w in es && w.key == k;
      assert w in es + [v];
    }
  }

  // ----- the block index

  /** Block `c` is the one that can hold `key`: blocks before it end before the key, and
      no block after it starts at or before the key. */
  ghost predicate Owns(ms: seq<BlockMetas.Meta>, c: nat, key: Key) {
    && c < |ms| && AtMost(key, ms[c].lastKey)
    && (forall j :: 0 <= j < c ==> Less(ms[j].lastKey, key) && AtMost(ms[j].firstKey, key))
    && (forall j :: c < j < |ms| ==> Less(key, ms[j].firstKey))
  }

  /** Every block ends before `key`. */
  ghost predicate Beyond(ms: seq<BlockMetas.Meta>, key: Key) {
    forall j :: 0 <= j < |ms| ==> Less(ms[j].lastKey, key) && AtMost(ms[j].firstKey, key)
  }

  lemma NotBoth(a: Key, b: Key)
    ensures AtMost(a, b) <==> !Less(b, a)
  {
    LessTotal(a, b);
    LessIrreflexive(a);
    if Less(a, b) && Less(b, a) {
      LessTransitive(a, b, a);
    }
  }

  /** What the search promises of any metadata: a block whose recorded range has the key,
      or else the place between a block that lies before the key and one that starts
      after it, the place behind the last block being -1. */
  ghost predicate Finds(ms: seq<BlockMetas.Meta>, key: Key, r: int) {
    && -1 <= r < |ms|
    && ((r >= 0 && !Less(key, ms[r].firstKey) && !Less(ms[r].lastKey, key))
        || Between(ms, key, if r == -1 then |ms| else r))
  }

  ghost predicate Between(ms: seq<BlockMetas.Meta>, key: Key, p: nat)
    requires p <= |ms|
  {
    && (p > 0 ==> !Less(key, ms[p - 1].firstKey) && Less(ms[p - 1].lastKey, key))
    && (p < |ms| ==> Less(key, ms[p].firstKey))
  }

  /** Binary search over the metadata; -1 when `left` runs past the end. */
  method FindBlockIdx(ms: seq<BlockMetas.Meta>, key: Key) returns (r: int)
    ensures Finds(ms, key, r)
  {
    var left, right := 0, |ms| - 1;
    while left <= right
      invariant 0 <= left <= right + 1 <= |ms|
      invariant left > 0 ==> !Less(key, ms[left - 1].firstKey) && Less(ms[left - 1].lastKey, key)
      invariant right + 1 < |ms| ==> Less(key, ms[right + 1].firstKey)
      decreases right - left
    {
      var mid := left + (right - left) / 2;
      if Less(key, ms[mid].firstKey) {
        right := mid - 1;
      } else if Less(ms[mid].lastKey, key) {
        left := mid + 1;
      } else {
        return mid;
      }
    }
    if left >= |ms| {
      return -1;
    }
    return left;
  }

  /** The search finds the owner of the key when there is one. */
  lemma FindsOwned(ms: seq<BlockMetas.Meta>, key: Key, r: int)
    requires Finds(ms, key, r)
    ensures forall c: nat :: Owns(ms, c, key) ==> r == c
    ensures Beyond(ms, key) ==> r == -1
  {
    forall a, b ensures AtMost(a, b) <==> !Less(b, a) {
      NotBoth(a, b);
    }
    forall c: nat | Owns(ms, c, key) ensures r == c {
      var p := if r == -1 then |ms| else r;
      if Between(ms, key, p) {
        assert p > 0 ==> p - 1 < c;
      }
    }
  }

  lemma FirstAtMostLast(c: Chunk, i: nat)
    requires ChunkSound(c) && i < |c.entries|
    ensures AtMost(c.entries[0].key, c.entries[i].key) && AtMost(c.entries[i].key, c.lastKey)
  {
    KeysAscend(c.entries, 0, i);
    KeysAscend(c.entries, i, |c.entries| - 1);
  }

  lemma LessAtMost(a: Key, b: Key, c: Key)
    requires (Less(a, b) && AtMost(b, c)) || (AtMost(a, b) && Less(b, c))
    ensures Less(a, c)
  {
    if Less(a, b) && Less(b, c) {
      LessTransitive(a, b, c);
    }
  }

  lemma {:induction false} ChunksAscend(chunks: seq<Chunk>, j: nat, c: nat)
    requires ChunksSound(chunks) && j < c < |chunks|
    ensures Less(chunks[j].lastKey, chunks[c].entries[0].key)
    decreases c
  {
    if j + 1 < c {
      ChunksAscend(chunks, j, c - 1);
      FirstAtMostLast(chunks[c - 1], 0);
      LessAtMost(chunks[j].lastKey, chunks[c - 1].entries[0].key, chunks[c - 1].lastKey);
      LessTransitive(chunks[j].lastKey, chunks[c - 1].lastKey, chunks[c].entries[0].key);
    }
  }

  /** Recorded first keys of earlier chunks never pass a later chunk. */
  lemma FirstKeysBefore(chunks: seq<Chunk>, j: nat, c: nat)
    requires ChunksSound(chunks) && j < c < |chunks|
    ensures AtMost(chunks[j].firstKey, chunks[c].entries[0].key)
  {
    ChunksAscend(chunks, j, c);
    FirstAtMostLast(chunks[j], 0);
    LessAtMost(chunks[j].entries[0].key, chunks[j].lastKey, chunks[c].entries[0].key);
    if j == 0 && chunks[0].firstKey != chunks[0].entries[0].key {
      if AtMost(chunks[0].firstKey, chunks[0].lastKey) {
        LessAtMost(chunks[0].firstKey, chunks[0].lastKey, chunks[c].entries[0].key);
      } else if 1 < c {
        ChunksAscend(chunks, 1, c);
        FirstAtMostLast(chunks[1], 0);
        LessAtMost(chunks[1].entries[0].key, chunks[1].lastKey, chunks[c].entries[0].key);
      }
    }
  }

  /** The block that has a key owns it, so the index search cannot miss it. */
  lemma PresentKeyOwned(chunks: seq<Chunk>, hash: Hasher, c: nat, key: Key)
    requires ChunksSound(chunks) && c < |chunks| && HasKey(chunks[c].entries, key)
    ensures Owns(MetasOf(chunks, hash), c, key)
  {
    hide Layout, MetasOf, Less;
    var ms := MetasOf(chunks, hash);
    var i :| 0 <= i < |chunks[c].entries| && chunks[c].entries[i].key == key;
    FirstAtMostLast(chunks[c], i);
    MetaAt(chunks, hash, c);
    forall j | 0 <= j < c ensures Less(ms[j].lastKey, key) && AtMost(ms[j].firstKey, key) {
      MetaAt(chunks, hash, j);
      ChunksAscend(chunks, j, c);
      FirstKeysBefore(chunks, j, c);
      LessAtMost(chunks[j].lastKey, chunks[c].entries[0].key, key);
      AtMostTransitive(chunks[j].firstKey, chunks[c].entries[0].key, key);
    }
    forall j | c < j < |ms| ensures Less(key, ms[j].firstKey) {
      MetaAt(chunks, hash, j);
      ChunksAscend(chunks, c, j);
      LessAtMost(key, chunks[c].lastKey, chunks[j].entries[0].key);
    }
  }

  /** No key is in two blocks. */
  lemma OneChunkPerKey(chunks: seq<Chunk>, hash: Hasher, b: nat, c: nat, key: Key)
    requires ChunksSound(chunks) && b < |chunks| && c < |chunks|
    requires HasKey(chunks[b].entries, key) && HasKey(chunks[c].entries, key)
    ensures b == c
  {
    hide Layout, MetasOf;
    PresentKeyOwned(chunks, hash, b, key);
    PresentKeyOwned(chunks, hash, c, key);
    NotBoth(key, MetasOf(chunks, hash)[b].lastKey);
    NotBoth(key, MetasOf(chunks, hash)[c].lastKey);
  }

  /** The least block whose last key is at or after `key`, -1 when there is none. */
  ghost predicate IsLeast(chunks: seq<Chunk>, key: Key, r: int) {
    && -1 <= r < |chunks|
    && (forall j :: 0 <= j < (if r == -1 then |chunks| else r) ==> Less(chunks[j].lastKey, key))
    && (r >= 0 ==> AtMost(key, chunks[r].lastKey))
  }

  /** The recorded range of the first block lies around `key` the wrong way round. */
  predicate Misrecorded(chunks: seq<Chunk>, key: Key) {
    chunks != [] && Less(chunks[0].lastKey, key) && Less(key, chunks[0].firstKey)
  }

  lemma LeastOwned(chunks: seq<Chunk>, hash: Hasher, key: Key, r: int)
    requires ChunksSound(chunks) && IsLeast(chunks, key, r) && !Misrecorded(chunks, key)
    ensures if r == -1 then Beyond(MetasOf(chunks, hash), key) else Owns(MetasOf(chunks, hash), r, key)
  {
    hide Layout, MetasOf, Less;
    var ms := MetasOf(chunks, hash);
    forall j | 0 <= j < |chunks|
      ensures ms[j].lastKey == chunks[j].lastKey && ms[j].firstKey == chunks[j].firstKey
      ensures Less(chunks[j].lastKey, key) ==> AtMost(ms[j].firstKey, key)
    {
      MetaAt(chunks, hash, j);
      FirstAtMostLast(chunks[j], 0);
      NotBoth(chunks[0].firstKey, key);
      if Less(chunks[j].lastKey, key) && j > 0 {
        LessAtMost(chunks[j].entries[0].key, chunks[j].lastKey, key);
      }
    }
    forall j | 0 <= r < j < |chunks| ensures Less(key, ms[j].firstKey) {
      ChunksAscend(chunks, r, j);
      LessAtMost(key, chunks[r].lastKey, chunks[j].entries[0].key);
    }
  }

  lemma LeastExists(chunks: seq<Chunk>, key: Key) returns (r: int)
    ensures IsLeast(chunks, key, r)
  {
    r := 0;
    while r < |chunks| && Less(chunks[r].lastKey, key)
      invariant 0 <= r <= |chunks| && forall j :: 0 <= j < r ==> Less(chunks[j].lastKey, key)
    {
      r := r + 1;
    }
    if r < |chunks| {
      NotBoth(key, chunks[r].lastKey);
    } else {
      r := -1;
    }
  }

  /** A first block recorded the wrong way round makes every first key pass `key`. */
  lemma MisrecordedFirst(chunks: seq<Chunk>, hash: Hasher, key: Key, j: nat)
    requires ChunksSound(chunks) && Misrecorded(chunks, key) && j < |chunks|
    ensures Less(key, MetasOf(chunks, hash)[j].firstKey)
  {
    hide Layout, MetasOf, Less;
    MetaAt(chunks, hash, j);
    FirstAtMostLast(chunks[0], 0);
    var first, last := chunks[0].firstKey, chunks[0].lastKey;
    NotBoth(first, last);
    LessTransitive(last, key, first);
    LessAtMost(chunks[0].entries[0].key, last, key);
    assert first == if |chunks| > 1 then chunks[1].firstKey else last;
    if j > 1 {
      ChunksAscend(chunks, 1, j);
      FirstAtMostLast(chunks[1], 0);
      LessAtMost(chunks[1].entries[0].key, chunks[1].lastKey, chunks[j].entries[0].key);
      LessTransitive(key, first, chunks[j].firstKey);
    }
  }

  /** For every table and key the search result is the least block whose last key is at or
      after the key, or -1 for none, exactly when the first block's recorded range does not
      lie around the key the wrong way round. */
  lemma LeastBlockExactlyWhen(chunks: seq<Chunk>, hash: Hasher, key: Key, r: int)
    requires ChunksSound(chunks) && Finds(MetasOf(chunks, hash), key, r)
    ensures IsLeast(chunks, key, r) <==> !Misrecorded(chunks, key)
  {
    hide Layout, MetasOf, Less, ChunksSound;
    if Misrecorded(chunks, key) {
      forall j | 0 <= j < |chunks| ensures Less(key, MetasOf(chunks, hash)[j].firstKey) {
        MisrecordedFirst(chunks, hash, key, j);
      }
      assert r == 0;
      NotBoth(key, chunks[0].lastKey);
    } else {
      var least := LeastExists(chunks, key);
      LeastOwned(chunks, hash, key, least);
      FindsOwned(MetasOf(chunks, hash), key, r);
    }
  }

  const ONLY_EMPTY: Version := Version([], [1, 1, 1, 1], 2)
  const FIVE: Version := Version([5], [1, 1, 1, 1], 1)

  /** Such a table: the first block holds the empty key alone and is recorded as starting
      at [5], so the search for [1] ends at it instead of the second block. */
  lemma MisrecordedTable(hash: Hasher, r: int)
    requires Finds(MetasOf(Chunks([ONLY_EMPTY, FIVE], 16), hash), [1], r)
    ensures Sorted([ONLY_EMPTY, FIVE]) && Kept([ONLY_EMPTY, FIVE], 16)
    ensures r == 0 && IsLeast(Chunks([ONLY_EMPTY, FIVE], 16), [1], 1)
  {
    MisrecordedChunks();
    hide Chunks, Layout, MetasOf, Sorted, Kept;
    var chunks := Chunks([ONLY_EMPTY, FIVE], 16);
    MetaAt(chunks, hash, 0);
    MetaAt(chunks, hash, 1);
    assert Less([], [5]) && Less([], [1]) && Less([1], [5]);
  }

  lemma MisrecordedChunks()
    ensures Sorted([ONLY_EMPTY, FIVE]) && Kept([ONLY_EMPTY, FIVE], 16)
    ensures Chunks([ONLY_EMPTY, FIVE], 16) == [Chunk([ONLY_EMPTY], [5], []), Chunk([FIVE], [5], [5])]
  {
    var es := [ONLY_EMPTY, FIVE];
    assert es[..1] == [ONLY_EMPTY] && [ONLY_EMPTY][..0] == [];
    OneEntrySize(ONLY_EMPTY);
    hide BlockSize;
    assert AddAll([ONLY_EMPTY], 16) == Building([], [ONLY_EMPTY], [], []);
    assert AddAll(es, 16) == AddStep(AddAll([ONLY_EMPTY], 16), FIVE, 16);
  }

  lemma OneEntrySize(v: Version)
    ensures BlockSize([v]) == |v.key| + |v.value| + 16
  {
    assert [v][..0] == [];
  }

  // ----- reading blocks through the cache

  datatype BlockRead = Read(image: Image) | Failed

  /** What block `i` of the file decodes to. */
  function BlockAt(sst: Sst, hash: Hasher, i: nat): (r: BlockRead) {
    if i >= |sst.metas| then Failed
    else
      var from := sst.metas[i].offset;
      var end := if i == |sst.metas| - 1 then sst.metaBlockOffset else sst.metas[i + 1].offset;
      if !(from <= end <= |sst.file|) then Failed
      else
        match Decode(sst.file[from..end], true, hash)
        case Ok(img) => Read(img)
        case Err(_) => Failed
  }

  /** Every cached block is what its file decodes to. */
  ghost predicate CacheAgrees(m: Reference<Image>, ssts: map<nat, Sst>, hash: Hasher) {
    forall key :: key in m ==> key.0 in ssts && BlockAt(ssts[key.0], hash, key.1) == Read(m[key].block)
  }

  /** A table under a new id disturbs no cached block. */
  lemma AgreesWithMore(m: Reference<Image>, ssts: map<nat, Sst>, hash: Hasher, sst: Sst)
    requires CacheAgrees(m, ssts, hash) && sst.id !in ssts
    ensures CacheAgrees(m, ssts[sst.id := sst], hash)
  {
  }

  /** Hits, misses and evictions keep the cache agreeing with the files. */
  lemma AgreesAfterUse(m: Reference<Image>, ssts: map<nat, Sst>, hash: Hasher, key: BlockKey, block: Image,
                       capacity: nat, victim: BlockKey, now: nat)
    requires CacheAgrees(m, ssts, hash) && key.0 in ssts && BlockAt(ssts[key.0], hash, key.1) == Read(block)
    ensures key in m ==> m[key].block == block && CacheAgrees(Touched(m, key, block, now), ssts, hash)
    ensures CacheAgrees(Admitted(m, capacity, victim, key, block, now), ssts, hash)
  {
    hide BlockAt;
  }

  lemma AgreesOn(m: Reference<Image>, ssts: map<nat, Sst>, hash: Hasher, key: BlockKey)
    requires CacheAgrees(m, ssts, hash) && key in m
    ensures key.0 in ssts && BlockAt(ssts[key.0], hash, key.1) == Read(m[key].block)
  {
  }

  /** A block through the cache: hit or miss, whatever is evicted, the answer is the
      decoding of the file, and the cache goes on agreeing with every file. */
  method ReadBlock(sst: Sst, cache: BlockCache<Image>, hash: Hasher, i: nat, ghost ssts: map<nat,
                   Sst>) returns (r: BlockRead)
    requires cache.Valid() && CacheAgrees(cache.contents, ssts, hash)
    requires sst.id in ssts && ssts[sst.id] == sst
    modifies cache
    ensures cache.Valid() && CacheAgrees(cache.contents, ssts, hash)
    ensures r == BlockAt(sst, hash, i)
    ensures var key, m := (sst.id, i), old(cache.contents);
            match r
            case Failed => cache.contents == m
            case Read(block) =>
              if key in m then cache.contents == Touched(m, key, block, old(cache.now))
              else exists victim :: cache.contents == Admitted(m, cache.capacity, victim, key, block, old(cache.now))
                                    && (|m| >= cache.capacity ==> IsVictim(m, cache.k, victim))
  {
    hide Refines, Decode, IsVictim, CacheAgrees, Touched, Admitted;
    if i >= |sst.metas| {
      return Failed;
    }
    ghost var m, now := cache.contents, cache.now;
    var cached := cache.Get(sst.id, i);
    if cached.Some? {
      AgreesOn(m, ssts, hash, (sst.id, i));
      AgreesAfterUse(m, ssts, hash, (sst.id, i), cached.value, 0, (0, 0), now);
      return Read(cached.value);
    }
    var from := sst.metas[i].offset;
    var end := if i == |sst.metas| - 1 then sst.metaBlockOffset else sst.metas[i + 1].offset;
    if !(from <= end <= |sst.file|) {
      return Failed;
    }
    var decoded := Decode(sst.file[from..end], true, hash);
    if decoded.Err? {
      return Failed;
    }
    now := cache.now;
    ghost var victim := cache.Put(sst.id, i, decoded.image);
    AgreesAfterUse(m, ssts, hash, (sst.id, i), decoded.image, cache.capacity, victim, now);
    return Read(decoded.image);
  }

  // ----- looking a version up

  /** `sst` is the file of the table `es`. */
  ghost predicate Stores(sst: Sst, es: seq<Version>, capacity: nat, hash: Hasher) {
    var chunks := Chunks(es, capacity);
    Laid(sst, chunks, hash) && |Layout(chunks, hash)| < U32 && Filters(sst.filter, KeysOf(es), hash)
  }

  /** A finished file stores its table when that is storable and fits 32-bit offsets. */
  lemma LaidStores(sst: Sst, es: seq<Version>, capacity: nat, hash: Hasher)
    requires Storable(es, capacity) && FileFits(es)
    requires FileOf(sst, es, capacity, hash)
    ensures Stores(sst, es, capacity, hash)
  {
    hide Layout, MetasOf, Chunks, KeysOf, Storable;
    var chunks := Chunks(es, capacity);
    FinishedTable(es, capacity);
    forall i | 0 <= i < |chunks| ensures chunks[i].entries != [] {
      assert ChunkSound(chunks[i]);
    }
    LayoutSize(chunks, hash);
  }

  /** Block `i` of the file reads back as chunk `i` of the table. */
  lemma StoredBlock(sst: Sst, es: seq<Version>, capacity: nat, hash: Hasher, i: nat)
    requires Stores(sst, es, capacity, hash) && Storable(es, capacity) && i < |sst.metas|
    ensures i < |Chunks(es, capacity)|
    ensures BlockAt(sst, hash, i).Read? && Represents(BlockAt(sst, hash, i).image, Chunks(es, capacity)[i].entries)
  {
    hide Layout, MetasOf, Chunks, Decode, Storable, ChunksSound, Encode, ImageOf, HashBytes, Represents;
    var chunks := Chunks(es, capacity);
    FinishedTable(es, capacity);
    MetaAt(chunks, hash, i);
    ChunkStands(chunks, hash, i);
    EncodedBlockRepresents(chunks[i].entries, hash);
    var from := |Layout(chunks[..i], hash)|;
    var end := from + |ChunkBytes(chunks[i], hash)|;
    if i + 1 < |chunks| {
      MetaAt(chunks, hash, i + 1);
    } else {
      assert chunks[..i + 1] == chunks;
    }
    assert sst.file[from..end] == Layout(chunks, hash)[from..end];
  }

  /** The value of the newest visible version of `key`, as `get` is meant to answer: not
      found means "try the next table". */
  method Get(sst: Sst, cache: BlockCache<Image>, hash: Hasher, key: Key, t: nat, ghost ssts: map<nat, Sst>,
             ghost es: seq<Version>, ghost capacity: nat) returns (r: Option<Value>)
    requires cache.Valid() && CacheAgrees(cache.contents, ssts, hash)
    requires sst.id in ssts && ssts[sst.id] == sst
    requires Stores(sst, es, capacity, hash) && Storable(es, capacity)
    modifies cache
    ensures cache.Valid() && CacheAgrees(cache.contents, ssts, hash)
    ensures r == match Lookup(es, key, t) case None => None case Some(v) => Some(v.value)
  {
    hide Layout, MetasOf, Chunks, Storable, ChunksSound, Represents, BlockAt, CacheAgrees, Bloom.Marked,
      KeysOf, Refines, FitsBlock;
    ghost var chunks := Chunks(es, capacity);
    FinishedTable(es, capacity);
    var possible := Bloom.PossiblyContains(hash, sst.filter, key);
    if !possible {
      FilteredOut(sst.filter, es, hash, key, t);
      return None;
    }
    var idx := FindBlockIdx(sst.metas, key);
    LookupByIndex(chunks, hash, idx, key, t);
    if idx == -1 {
      return None;
    }
    StoredBlock(sst, es, capacity, hash, idx);
    var block := ReadBlock(sst, cache, hash, idx, ssts);
    if block.Failed? {
      return None;
    }
    ChunkSorted(chunks, idx);
    var found := FindVisible(block.image, chunks[idx].entries, key, t);
    if found.None? {
      return None;
    }
    var value := ValueOf(block.image, chunks[idx].entries, found.value);
    return Some(value);
  }

  lemma ChunkSorted(chunks: seq<Chunk>, i: nat)
    requires ChunksSound(chunks) && i < |chunks|
    ensures Sorted(chunks[i].entries)
  {
    assert ChunkSound(chunks[i]);
  }

  /** A key the filter rejects is not in the table. */
  lemma FilteredOut(f: Bloom.Filter, es: seq<Version>, hash: Hasher, key: Key, t: nat)
    requires Filters(f, KeysOf(es), hash) && !Bloom.Marked(hash, f, key)
    ensures !HasKey(es, key) && Lookup(es, key, t) == None
  {
    forall i | 0 <= i < |es| ensures es[i].key in KeysOf(es) {
      assert es[i] in es;
    }
    LookupAbsent(es, key, t);
  }

  /** Whatever block the index search names, searching that block answers for the table. */
  lemma LookupByIndex(chunks: seq<Chunk>, hash: Hasher, idx: int, key: Key, t: nat)
    requires ChunksSound(chunks) && Finds(MetasOf(chunks, hash), key, idx)
    ensures Lookup(Concat(chunks), key, t) == if idx == -1 then None else Lookup(chunks[idx].entries, key, t)
  {
    hide Layout, MetasOf, Owns, ChunksSound;
    FindsOwned(MetasOf(chunks, hash), key, idx);
    forall c | 0 <= c < |chunks| && HasKey(chunks[c].entries, key) ensures c == idx {
      PresentKeyOwned(chunks, hash, c, key);
    }
    if idx == -1 {
      LookupNowhere(chunks, key, t);
    } else {
      LookupInChunk(chunks, idx, key, t);
    }
  }
}
