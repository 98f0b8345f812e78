/** Byte strings and the order the engine sorts them by: `std::string` comparison,
    which is lexicographic on unsigned bytes. */
module Keys {
  newtype byte = x: int | 0 <= x < 256

  type Bytes = seq<byte>
  type Key = Bytes
  type Value = Bytes

  datatype Option<+T> = None | Some(value: T)

  /** a < b */
  predicate Less(a: Key, b: Key) {
    if |b| == 0 then false
    else if |a| == 0 then true
    else a[0] < b[0] || (a[0] == b[0] && Less(a[1..], b[1..]))
  }

  lemma {:induction false} LessIrreflexive(a: Key)
    ensures !Less(a, a)
  {
    if |a| > 0 {
      LessIrreflexive(a[1..]);
    }
  }

  lemma {:induction false} LessTransitive(a: Key, b: Key, c: Key)
    requires Less(a, b) && Less(b, c)
    ensures Less(a, c)
  {
    if |a| > 0 && a[0] == b[0] == c[0] {
      LessTransitive(a[1..], b[1..], c[1..]);
    }
  }

  lemma {:induction false} LessTotal(a: Key, b: Key)
    ensures a == b || Less(a, b) || Less(b, a)
  {
    if |a| > 0 && |b| > 0 && a[0] == b[0] {
      LessTotal(a[1..], b[1..]);
      assert a == [a[0]] + a[1..] && b == [b[0]] + b[1..];
    }
  }

  /** The order of dictionaries: `a` ends, or has the smaller byte, where the two part. */
  ghost predicate Lexicographic(a: Key, b: Key) {
    exists i :: 0 <= i <= |a| && PartAt(a, b, i)
  }

  ghost predicate PartAt(a: Key, b: Key, i: nat)
    requires i <= |a|
  {
    i < |b| && a[..i] == b[..i] && (i == |a| || a[i] < b[i])
  }

  lemma {:induction false} LessIsLexicographic(a: Key, b: Key)
    ensures Less(a, b) <==> Lexicographic(a, b)
  {
    if |b| > 0 && |a| > 0 && a[0] == b[0] {
      LessIsLexicographic(a[1..], b[1..]);
      if i :| 0 <= i <= |a| && PartAt(a, b, i) {
        assert a[1..][..i - 1] == a[..i][1..] && b[1..][..i - 1] == b[..i][1..];
        assert PartAt(a[1..], b[1..], i - 1);
      }
      if i :| 0 <= i <= |a[1..]| && PartAt(a[1..], b[1..], i) {
        assert a[..i + 1] == [a[0]] + a[1..][..i] && b[..i + 1] == [b[0]] + b[1..][..i];
        assert PartAt(a, b, i + 1);
      }
    } else if |b| > 0 && (|a| == 0 || a[0] < b[0]) {
      assert PartAt(a, b, 0);
    } else if i :| 0 <= i <= |a| && PartAt(a, b, i) {
      SameFirst(a, b, i);
    }
  }

  lemma SameFirst(a: Key, b: Key, i: nat)
    requires i <= |a| && PartAt(a, b, i)
    ensures i > 0 ==> a[0] == b[0]
  {
    if i > 0 {
      assert a[..i][0] == b[..i][0];
    }
  }
}
