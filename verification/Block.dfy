/** A data block: entries laid out one after another, then a 16-bit offset per entry,
    then a 16-bit count; on disk a 32-bit hash follows. */
module Blocks {
  import opened Keys
  import opened Versions
  import opened Codec

  /** The two vectors of a block. Once decoded or encoded a block is never changed. */
  datatype Image = Image(data: Bytes, offsets: seq<nat>)

  datatype DecodeError = TooSmall | HashMismatch | InvalidSize | OutOfBounds
  datatype Decoded = Ok(image: Image) | Err(error: DecodeError)

  // ----- layout

  /** One entry. The length fields keep 16 bits of each length and only that many bytes
      are copied; the space reserved for the rest stays zero. */
  function EncodeEntry(v: Version): (b: Bytes)
    ensures |b| == |v.key| + |v.value| + 12
  {
    var keyLen, valueLen := |v.key| % U16, |v.value| % U16;
    Le(keyLen, 2) + v.key[..keyLen] + Le(valueLen, 2) + v.value[..valueLen] + Le(v.tid, 8)
    + Zeros(|v.key| - keyLen + |v.value| - valueLen)
  }

  function EncodeEntries(es: seq<Version>): (b: Bytes) {
    if es == [] then [] else EncodeEntries(es[..|es| - 1]) + EncodeEntry(es[|es| - 1])
  }

  /** Where each entry starts, as the 16-bit offset vector records it. */
  function Offsets(es: seq<Version>): (r: seq<nat>)
    ensures |r| == |es|
    ensures forall i :: 0 <= i < |r| ==> r[i] == |EncodeEntries(es[..i])| % U16
  {
    if es == [] then []
    else
      var n := |es| - 1;
      assert forall i :: 0 <= i < n ==> es[..n][..i] == es[..i];
      Offsets(es[..n]) + [|EncodeEntries(es[..n])| % U16]
  }

  function ImageOf(es: seq<Version>): (img: Image) {
    Image(EncodeEntries(es), Offsets(es))
  }

  function CurSize(img: Image): (n: nat) {
    |img.data| + 2 * |img.offsets| + 2
  }

  // ----- readers

  ghost predicate Readable(data: Bytes, off: nat) {
    && off + 2 <= |data|
    && var keyLen := FromLe(data[off..off + 2]);
       off + 2 + keyLen + 2 <= |data|
       && var valueLen := FromLe(data[off + 2 + keyLen..off + 4 + keyLen]);
          off + 4 + keyLen + valueLen + 8 <= |data|
  }

  function KeyAt(data: Bytes, off: nat): (k: Key)
    requires Readable(data, off)
  {
    var keyLen := FromLe(data[off..off + 2]);
    data[off + 2..off + 2 + keyLen]
  }

  function ValueAt(data: Bytes, off: nat): (v: Value)
    requires Readable(data, off)
  {
    var keyLen := FromLe(data[off..off + 2]);
    var valueLen := FromLe(data[off + 2 + keyLen..off + 4 + keyLen]);
    data[off + 4 + keyLen..off + 4 + keyLen + valueLen]
  }

  function TidAt(data: Bytes, off: nat): (t: nat)
    requires Readable(data, off)
  {
    var keyLen := FromLe(data[off..off + 2]);
    var valueLen := FromLe(data[off + 2 + keyLen..off + 4 + keyLen]);
    var o := off + 4 + keyLen + valueLen;
    FromLe(data[o..o + 8])
  }

  /** The lengths fit their 16-bit fields and the id its 64. */
  predicate FieldsFit(v: Version) {
    |v.key| < U16 && |v.value| < U16 && v.tid < U64
  }

  lemma Reassociate(a: Bytes, b: Bytes, c: Bytes, d: Bytes, e: Bytes, z: Bytes)
    requires z == []
    ensures a + b + c + d + e + z == a + (b + (c + (d + e)))
  {
    assert a + b + c + d + e + z == a + b + c + d + e;
    assert a + b + c + d + e == a + b + c + (d + e);
    assert a + b + c + (d + e) == a + b + (c + (d + e));
    assert a + b + (c + (d + e)) == a + (b + (c + (d + e)));
  }

  /** Where the five fields of an entry stand. */
  lemma EntryFields(data: Bytes, off: nat, v: Version)
    requires FieldsFit(v) && Holds(data, off, EncodeEntry(v))
    ensures Holds(data, off, Le(|v.key|, 2))
    ensures Holds(data, off + 2, v.key)
    ensures Holds(data, off + 2 + |v.key|, Le(|v.value|, 2))
    ensures Holds(data, off + 4 + |v.key|, v.value)
    ensures Holds(data, off + 4 + |v.key| + |v.value|, Le(v.tid, 8))
  {
    hide Le, Zeros;
    var a, b, c, d, e := Le(|v.key|, 2), v.key, Le(|v.value|, 2), v.value, Le(v.tid, 8);
    assert v.key[..|v.key|] == b && v.value[..|v.value|] == d;
    Reassociate(a, b, c, d, e, Zeros(0));
    HoldsSplit(data, off, a, b + (c + (d + e)));
    HoldsSplit(data, off + 2, b, c + (d + e));
    HoldsSplit(data, off + 2 + |b|, c, d + e);
    HoldsSplit(data, off + 4 + |b|, d, e);
  }

  /** An entry that fits its fields is read back unchanged. */
  lemma EntryRoundTrip(data: Bytes, off: nat, v: Version)
    requires FieldsFit(v) && Holds(data, off, EncodeEntry(v))
    ensures Readable(data, off)
    ensures KeyAt(data, off) == v.key && ValueAt(data, off) == v.value && TidAt(data, off) == v.tid
  {
    hide Le, FromLe, EncodeEntry;
    EntryFields(data, off, v);
    LeRoundTrips(|v.key|);
    LeRoundTrips(|v.value|);
    LeRoundTrips(v.tid);
  }

  // ----- what a block represents

  /** Every offset leads to the entry of that index. */
  ghost predicate Represents(img: Image, es: seq<Version>) {
    && |img.offsets| == |es|
    && forall i {:trigger es[i]} :: 0 <= i < |es| ==>
         FieldsFit(es[i]) && Holds(img.data, img.offsets[i], EncodeEntry(es[i]))
  }

  lemma ReadsBack(img: Image, es: seq<Version>, i: nat)
    requires Represents(img, es) && i < |es|
    ensures Readable(img.data, img.offsets[i])
    ensures KeyAt(img.data, img.offsets[i]) == es[i].key
    ensures ValueAt(img.data, img.offsets[i]) == es[i].value
    ensures TidAt(img.data, img.offsets[i]) == es[i].tid
  {
    EntryRoundTrip(img.data, img.offsets[i], es[i]);
  }

  /** Every entry fits its fields and starts below 2^16. */
  ghost predicate FitsBlock(es: seq<Version>) {
    forall i {:trigger es[i]} :: 0 <= i < |es| ==> FieldsFit(es[i]) && |EncodeEntries(es[..i])| < U16
  }

  lemma {:induction false} EntryStands(es: seq<Version>, i: nat)
    requires i < |es|
    ensures Holds(EncodeEntries(es), |EncodeEntries(es[..i])|, EncodeEntry(es[i]))
  {
    var n := |es| - 1;
    if i < n {
      EntryStands(es[..n], i);
      assert es[..n][..i] == es[..i];
      HoldsExtended(EncodeEntries(es[..n]), EncodeEntry(es[n]), |EncodeEntries(es[..i])|, EncodeEntry(es[i]));
    } else {
      assert EncodeEntries(es) == EncodeEntries(es[..i]) + EncodeEntry(es[i]) + [];
      HoldsIn(EncodeEntries(es[..i]), EncodeEntry(es[i]), []);
    }
  }

  lemma EntryInImage(es: seq<Version>, i: nat)
    requires FitsBlock(es) && i < |es|
    ensures FieldsFit(es[i]) && Holds(ImageOf(es).data, ImageOf(es).offsets[i], EncodeEntry(es[i]))
  {
    hide EncodeEntry, EncodeEntries, Offsets;
    EntryStands(es, i);
  }

  /** A block of entries that fit reads back exactly those entries. */
  lemma ImageRepresents(es: seq<Version>)
    requires FitsBlock(es)
    ensures Represents(ImageOf(es), es)
  {
    hide EncodeEntry, EncodeEntries, Offsets, FitsBlock;
    forall i {:trigger es[i]} | 0 <= i < |es|
      ensures FieldsFit(es[i]) && Holds(ImageOf(es).data, ImageOf(es).offsets[i], EncodeEntry(es[i]))
    {
      EntryInImage(es, i);
    }
  }

  // ----- encode and decode

  function EncodeOffsets(offsets: seq<nat>): (b: Bytes)
    ensures |b| == 2 * |offsets|
  {
    if offsets == [] then [] else Le(offsets[0], 2) + EncodeOffsets(offsets[1..])
  }

  function Encode(img: Image): (b: Bytes)
    ensures |b| == CurSize(img)
  {
    img.data + EncodeOffsets(img.offsets) + Le(|img.offsets| % U16, 2)
  }

  function HashBytes(hash: Hasher, b: Bytes): (h: Bytes)
    ensures |h| == 4
  {
    Le(hash(b) % U32, 4)
  }

  function DecodeOffsets(b: Bytes): (offsets: seq<nat>)
    requires |b| % 2 == 0
    ensures |offsets| == |b| / 2
  {
    if b == [] then [] else [FromLe(b[..2])] + DecodeOffsets(b[2..])
  }

  /** Reading outside the buffer, where the source subtracts below zero, is `OutOfBounds`. */
  function Decode(b: Bytes, withHash: bool, hash: Hasher): (r: Decoded) {
    if |b| < 2 then Err(TooSmall)
    else if withHash && |b| < 4 then Err(OutOfBounds)
    else if withHash && FromLe(b[|b| - 4..]) != hash(b[..|b| - 4]) % U32 then Err(HashMismatch)
    else if withHash && |b| < 6 then Err(OutOfBounds)
    else
      var numPos := if withHash then |b| - 6 else |b| - 2;
      var num := FromLe(b[numPos..numPos + 2]);
      if |b| < 2 + 2 * num then Err(InvalidSize)
      else if numPos < 2 * num then Err(OutOfBounds)
      else
        var start := numPos - 2 * num;
        Ok(Image(b[..start], DecodeOffsets(b[start..numPos])))
  }

  lemma {:induction false} OffsetsRoundTrip(offsets: seq<nat>)
    requires forall i :: 0 <= i < |offsets| ==> offsets[i] < U16
    ensures DecodeOffsets(EncodeOffsets(offsets)) == offsets
  {
    if offsets != [] {
      OffsetsRoundTrip(offsets[1..]);
      LeRoundTrips(offsets[0]);
      var b := EncodeOffsets(offsets);
      assert b[..2] == Le(offsets[0], 2) && b[2..] == EncodeOffsets(offsets[1..]);
    }
  }

  /** Where the offsets and their number stand in an encoded block. */
  lemma EncodedParts(img: Image, i: nat)
    requires i < |img.offsets|
    ensures var e, n := Encode(img), |img.data| + 2 * i;
            && e[..|img.data|] == img.data
            && e[n..n + 2] == Le(img.offsets[i], 2)
            && e[|e| - 2..] == Le(|img.offsets| % U16, 2)
  {
    hide Le;
    OffsetAt(img.offsets, i);
    var e, o := Encode(img), EncodeOffsets(img.offsets);
    assert e[|img.data| + 2 * i..|img.data| + 2 * i + 2] == o[2 * i..2 * i + 2];
  }

  lemma {:induction false} OffsetAt(offsets: seq<nat>, i: nat)
    requires i < |offsets|
    ensures EncodeOffsets(offsets)[2 * i..2 * i + 2] == Le(offsets[i], 2)
  {
    hide Le;
    var o := EncodeOffsets(offsets);
    if i > 0 {
      OffsetAt(offsets[1..], i - 1);
      assert o[2..] == EncodeOffsets(offsets[1..]);
      assert o[2 * i..2 * i + 2] == o[2..][2 * (i - 1)..2 * (i - 1) + 2];
    } else {
      assert o[..2] == Le(offsets[0], 2);
    }
  }

  /** A block survives its encoding, with or without the trailing hash. */
  lemma BlockRoundTrip(img: Image, hash: Hasher)
    requires |img.offsets| < U16 && forall i :: 0 <= i < |img.offsets| ==> img.offsets[i] < U16
    ensures Decode(Encode(img), false, hash) == Ok(img)
    ensures Decode(Encode(img) + HashBytes(hash, Encode(img)), true, hash) == Ok(img)
  {
    hide Le, FromLe, EncodeOffsets, DecodeOffsets;
    var n, e := |img.offsets|, Encode(img);
    var numPos := |img.data| + 2 * n;
    OffsetsRoundTrip(img.offsets);
    LeRoundTrips(n);
    assert e[..|img.data|] == img.data;
    assert e[|img.data|..numPos] == EncodeOffsets(img.offsets);
    assert e[numPos..numPos + 2] == Le(n, 2);
    var h := hash(e) % U32;
    var f := e + HashBytes(hash, e);
    LeRoundTrips(h);
    assert f[..|f| - 4] == e && f[|f| - 4..] == HashBytes(hash, e);
    assert f[..|img.data|] == e[..|img.data|];
    assert f[|img.data|..numPos] == e[|img.data|..numPos];
    assert f[numPos..numPos + 2] == e[numPos..numPos + 2];
  }

  /** With any other hash behind it an encoded block is refused. */
  lemma WrongHashRefused(img: Image, hash: Hasher, h: Bytes)
    requires |h| == 4 && h != HashBytes(hash, Encode(img))
    ensures Decode(Encode(img) + h, true, hash) == Err(HashMismatch)
  {
    hide Le, FromLe, EncodeOffsets;
    var e := Encode(img);
    var b := e + h;
    assert b[..|b| - 4] == e && b[|b| - 4..] == h;
    LeOfFromLe(h);
  }

  lemma {:induction false} EntriesSize(es: seq<Version>)
    ensures |EncodeEntries(es)| >= 12 * |es|
  {
    if es != [] {
      EntriesSize(es[..|es| - 1]);
    }
  }

  /** Entries that fit can also be counted in 16 bits. */
  lemma FitsCount(es: seq<Version>)
    requires FitsBlock(es)
    ensures |es| < U16
  {
    if es != [] {
      assert FieldsFit(es[|es| - 1]);
      EntriesSize(es[..|es| - 1]);
    }
  }

  /** Every entry added to a block is there after encoding, hashing and decoding. */
  lemma EncodedBlockRepresents(es: seq<Version>, hash: Hasher)
    requires FitsBlock(es)
    ensures var e := Encode(ImageOf(es));
            var d := Decode(e + HashBytes(hash, e), true, hash);
            d.Ok? && Represents(d.image, es)
  {
    FitsCount(es);
    ImageRepresents(es);
    BlockRoundTrip(ImageOf(es), hash);
  }

  // ----- a block under construction

  class Block {
    const capacity: nat
    var data: Bytes
    var offsets: seq<nat>
    /** The entries added so far. */
    ghost var entries: seq<Version>

    ghost predicate Valid()
      reads this
    {
      Image(data, offsets) == ImageOf(entries)
    }

    constructor (capacity: nat)
      ensures Valid() && entries == [] && this.capacity == capacity
    {
      this.capacity := capacity;
      data, offsets, entries := [], [], [];
    }

    /** The size check counts three length-sized fields of overhead where an entry and
        its offset take fourteen bytes, so an unforced add can end up to 8 bytes over. */
    method AddEntry(key: Key, value: Value, tid: nat, force: bool) returns (ok: bool)
      requires Valid()
      modifies `data, `offsets, `entries
      ensures Valid()
      ensures ok <==> force || old(CurSize(Image(data, offsets))) + |key| + |value| + 6 <= capacity
      ensures entries == if ok then old(entries) + [Version(key, value, tid)] else old(entries)
      ensures ok && !force ==> CurSize(Image(data, offsets)) <= capacity + 8
    {
      if !force && CurSize(Image(data, offsets)) + |key| + |value| + 6 > capacity {
        return false;
      }
      ghost var v := Version(key, value, tid);
      assert (entries + [v])[..|entries|] == entries;
      offsets := offsets + [|data| % U16];
      data := data + EncodeEntry(Version(key, value, tid));
      entries := entries + [v];
      return true;
    }

    /** Move the contents out, which leaves the block empty. */
    method Take() returns (img: Image)
      requires Valid()
      modifies `data, `offsets, `entries
      ensures Valid() && entries == [] && img == ImageOf(old(entries))
    {
      img := Image(data, offsets);
      data, offsets, entries := [], [], [];
    }
  }
}
