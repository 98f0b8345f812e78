/** The index of a table file: per block its offset and key range, with a count in front
    and a hash behind. */
module BlockMetas {
  import opened Keys
  import opened Codec

  datatype Meta = Meta(offset: nat, firstKey: Key, lastKey: Key)

  datatype MetaError = LengthError | HashMismatch | OutOfBounds
  datatype Metas = Ok(metas: seq<Meta>) | Err(error: MetaError)

  /** One entry; each key keeps as many bytes as its 16-bit length field can say. */
  function MetaBytes(m: Meta): (b: Bytes) {
    var firstLen, lastLen := |m.firstKey| % U16, |m.lastKey| % U16;
    Le(m.offset % U32, 4) + (Le(firstLen, 2) + (m.firstKey[..firstLen] + (Le(lastLen, 2) + m.lastKey[..lastLen])))
  }

  function MetasBytes(ms: seq<Meta>): (b: Bytes) {
    if ms == [] then [] else MetaBytes(ms[0]) + MetasBytes(ms[1..])
  }

  /** The bytes reserved but not written, for keys longer than 16 bits can say. */
  function Slack(ms: seq<Meta>): (n: nat) {
    if ms == [] then 0
    else |ms[0].firstKey| - |ms[0].firstKey| % U16 + |ms[0].lastKey| - |ms[0].lastKey| % U16 + Slack(ms[1..])
  }

  function EncodeMetas(ms: seq<Meta>, hash: Hasher): (b: Bytes) {
    Le(|ms| % U32, 4) + MetasBytes(ms) + Le(hash(MetasBytes(ms)) % U32, 4) + Zeros(Slack(ms))
  }

  method EncodeMetaToSlice(ms: seq<Meta>, hash: Hasher) returns (metadata: Bytes)
    ensures metadata == EncodeMetas(ms, hash)
  {
    hide MetaBytes, Le;
    var body: Bytes, slack: nat := [], 0;
    var i := 0;
    while i < |ms|
      invariant 0 <= i <= |ms|
      invariant MetasBytes(ms) == body + MetasBytes(ms[i..])
      invariant Slack(ms) == slack + Slack(ms[i..])
    {
      var m := ms[i];
      assert ms[i..][0] == m && ms[i..][1..] == ms[i + 1..];
      slack := slack + |m.firstKey| - |m.firstKey| % U16 + |m.lastKey| - |m.lastKey| % U16;
      assert body + (MetaBytes(m) + MetasBytes(ms[i + 1..])) == (body + MetaBytes(m)) + MetasBytes(ms[i + 1..]);
      body := body + MetaBytes(m);
      i := i + 1;
    }
    assert ms[i..] == [] && body + [] == body;
    metadata := Le(|ms| % U32, 4) + body + Le(hash(body) % U32, 4) + Zeros(slack);
  }

  // ----- decode

  datatype Step = Read(meta: Meta, next: nat) | Beyond

  /** One entry at `ptr`, unless it reaches beyond the buffer. */
  function ReadMeta(b: Bytes, ptr: nat): (r: Step) {
    if ptr + 6 > |b| then Beyond
    else
      var firstLen := FromLe(b[ptr + 4..ptr + 6]);
      if ptr + 8 + firstLen > |b| then Beyond
      else
        var lastLen := FromLe(b[ptr + 6 + firstLen..ptr + 8 + firstLen]);
        var next := ptr + 8 + firstLen + lastLen;
        if next > |b| then Beyond
        else Read(Meta(FromLe(b[ptr..ptr + 4]), b[ptr + 6..ptr + 6 + firstLen], b[ptr + 8 + firstLen..next]), next)
  }

  datatype Steps = Reads(metas: seq<Meta>, next: nat) | BeyondAll

  function ReadMetas(b: Bytes, ptr: nat, n: nat): (r: Steps)
    decreases n
  {
    if n == 0 then Reads([], ptr)
    else
      match ReadMeta(b, ptr)
      case Beyond => BeyondAll
      case Read(m, next) =>
        match ReadMetas(b, next, n - 1)
        case BeyondAll => BeyondAll
        case Reads(ms, end) => Reads([m] + ms, end)
  }

  function DecodeMetas(b: Bytes, hash: Hasher): (r: Metas) {
    if |b| < 8 then Err(LengthError)
    else
      match ReadMetas(b, 4, FromLe(b[..4]))
      case BeyondAll => Err(OutOfBounds)
      case Reads(ms, end) =>
        if end + 4 > |b| || end < 4 then Err(OutOfBounds)
        else if FromLe(b[end..end + 4]) != hash(b[4..end]) % U32 then Err(HashMismatch)
        else Ok(ms)
  }

  method DecodeMetaFromSlice(b: Bytes, hash: Hasher) returns (r: Metas)
    ensures r == DecodeMetas(b, hash)
  {
    if |b| < 8 {
      return Err(LengthError);
    }
    var numEntries := FromLe(b[..4]);
    var ms: seq<Meta>, ptr: nat := [], 4;
    var i := 0;
    ghost var all := ReadMetas(b, 4, numEntries);
    while i < numEntries
      invariant 0 <= i <= numEntries
      invariant var rest := ReadMetas(b, ptr, numEntries - i);
                all == if rest.Reads? then Reads(ms + rest.metas, rest.next) else BeyondAll
    {
      var step := ReadMeta(b, ptr);
      if step.Beyond? {
        return Err(OutOfBounds);
      }
      ghost var rest := ReadMetas(b, step.next, numEntries - i - 1);
      assert rest.Reads? ==> ms + ([step.meta] + rest.metas) == (ms + [step.meta]) + rest.metas;
      ms, ptr := ms + [step.meta], step.next;
      i := i + 1;
    }
    assert all == Reads(ms, ptr);
    if ptr + 4 > |b| || ptr < 4 {
      return Err(OutOfBounds);
    }
    if FromLe(b[ptr..ptr + 4]) != hash(b[4..ptr]) % U32 {
      return Err(HashMismatch);
    }
    return Ok(ms);
  }

  // ----- round trip

  predicate MetaFits(m: Meta) {
    m.offset < U32 && |m.firstKey| < U16 && |m.lastKey| < U16
  }

  lemma MetaRoundTrip(b: Bytes, ptr: nat, m: Meta)
    requires MetaFits(m) && Holds(b, ptr, MetaBytes(m))
    ensures ReadMeta(b, ptr) == Read(m, ptr + |MetaBytes(m)|)
  {
    hide Le, FromLe, MetaBytes;
    MetaFields(b, ptr, m);
    LeRoundTrips(m.offset);
    LeRoundTrips(|m.firstKey|);
    LeRoundTrips(|m.lastKey|);
  }

  /** Where the five fields of an entry stand. */
  lemma MetaFields(b: Bytes, ptr: nat, m: Meta)
    requires MetaFits(m) && Holds(b, ptr, MetaBytes(m))
    ensures |MetaBytes(m)| == 8 + |m.firstKey| + |m.lastKey|
    ensures Holds(b, ptr, Le(m.offset, 4))
    ensures Holds(b, ptr + 4, Le(|m.firstKey|, 2))
    ensures Holds(b, ptr + 6, m.firstKey)
    ensures Holds(b, ptr + 6 + |m.firstKey|, Le(|m.lastKey|, 2))
    ensures Holds(b, ptr + 8 + |m.firstKey|, m.lastKey)
  {
    hide Le, FromLe;
    var f, l := |m.firstKey|, |m.lastKey|;
    assert m.firstKey[..f] == m.firstKey && m.lastKey[..l] == m.lastKey;
    var lastPart := Le(l, 2) + m.lastKey;
    var firstPart := Le(f, 2) + (m.firstKey + lastPart);
    assert MetaBytes(m) == Le(m.offset, 4) + firstPart;
    HoldsSplit(b, ptr, Le(m.offset, 4), firstPart);
    HoldsSplit(b, ptr + 4, Le(f, 2), m.firstKey + lastPart);
    HoldsSplit(b, ptr + 6, m.firstKey, lastPart);
    HoldsSplit(b, ptr + 6 + f, Le(l, 2), m.lastKey);
  }

  lemma {:induction false} MetasRoundTrip(b: Bytes, ptr: nat, ms: seq<Meta>)
    requires forall i :: 0 <= i < |ms| ==> MetaFits(ms[i])
    requires Holds(b, ptr, MetasBytes(ms))
    ensures ReadMetas(b, ptr, |ms|) == Reads(ms, ptr + |MetasBytes(ms)|)
    decreases |ms|
  {
    hide MetaBytes, ReadMeta;
    if ms != [] {
      HoldsSplit(b, ptr, MetaBytes(ms[0]), MetasBytes(ms[1..]));
      MetaRoundTrip(b, ptr, ms[0]);
      MetasRoundTrip(b, ptr + |MetaBytes(ms[0])|, ms[1..]);
      assert [ms[0]] + ms[1..] == ms;
    }
  }

  lemma {:induction false} EntriesLength(ms: seq<Meta>)
    ensures |MetasBytes(ms)| >= 8 * |ms|
  {
    if ms != [] {
      EntriesLength(ms[1..]);
    }
  }

  lemma EncodedLength(ms: seq<Meta>, hash: Hasher)
    ensures |EncodeMetas(ms, hash)| >= 8 * |ms|
  {
    EntriesLength(ms);
  }

  /** Every metadata list that fits its fields decodes to itself. */
  lemma EncodedMetasDecode(ms: seq<Meta>, hash: Hasher)
    requires |ms| < U32 && forall i :: 0 <= i < |ms| ==> MetaFits(ms[i])
    ensures DecodeMetas(EncodeMetas(ms, hash), hash) == Ok(ms)
  {
    hide Le, FromLe, MetasBytes, ReadMetas, Slack;
    var b, body := EncodeMetas(ms, hash), MetasBytes(ms);
    var h := hash(body) % U32;
    LeRoundTrips(|ms|);
    LeRoundTrips(h);
    assert b[..4] == Le(|ms|, 4);
    assert b[4..4 + |body|] == body;
    assert b[4 + |body|..8 + |body|] == Le(h, 4);
    MetasRoundTrip(b, 4, ms);
  }

  /** The stored hash must be that of the entries it follows. */
  lemma HashChecked(b: Bytes, hash: Hasher, ms: seq<Meta>, end: nat)
    requires |b| >= 8 && ReadMetas(b, 4, FromLe(b[..4])) == Reads(ms, end) && 4 <= end && end + 4 <= |b|
    ensures DecodeMetas(b, hash) ==
            if FromLe(b[end..end + 4]) == hash(b[4..end]) % U32 then Ok(ms) else Err(HashMismatch)
  {
  }

  /** With any other hash in its place a metadata list is refused. */
  lemma WrongHashRefused(ms: seq<Meta>, hash: Hasher, h: Bytes)
    requires |ms| < U32 && forall i :: 0 <= i < |ms| ==> MetaFits(ms[i])
    requires |h| == 4 && h != Le(hash(MetasBytes(ms)) % U32, 4)
    ensures DecodeMetas(Le(|ms|, 4) + MetasBytes(ms) + h, hash) == Err(HashMismatch)
  {
    hide Le, FromLe, MetasBytes, ReadMetas, DecodeMetas, MetaFits;
    var body := MetasBytes(ms);
    var b, end := Le(|ms|, 4) + body + h, 4 + |MetasBytes(ms)|;
    LeRoundTrips(|ms|);
    assert b[..4] == Le(|ms|, 4) && b[4..end] == body && b[end..end + 4] == h;
    MetasRoundTrip(b, 4, ms);
    HashChecked(b, hash, ms, end);
    OtherHash(hash(body) % U32, h);
  }

  lemma OtherHash(n: nat, h: Bytes)
    requires |h| == 4 && h != Le(n, 4)
    ensures FromLe(h) != n
  {
    LeOfFromLe(h);
  }
}
