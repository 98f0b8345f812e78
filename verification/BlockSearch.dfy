/** Searches inside one decoded block. `es` is what the block represents. */
module BlockSearch {
  import opened Keys
  import opened Versions
  import opened Blocks

  // ----- the shape of a key's run

  lemma KeysAscend(es: seq<Version>, i: nat, j: nat)
    requires Sorted(es) && i <= j < |es|
    ensures es[i].key == es[j].key || Less(es[i].key, es[j].key)
  {
    assert i < j ==> Before(es[i], es[j]);
  }

  lemma RunIsContiguous(es: seq<Version>, i: nat, m: nat, j: nat)
    requires Sorted(es) && i <= m <= j < |es| && es[i].key == es[j].key
    ensures es[m].key == es[i].key
  {
    KeysAscend(es, i, m);
    KeysAscend(es, m, j);
    if Less(es[i].key, es[m].key) && Less(es[m].key, es[j].key) {
      LessTransitive(es[i].key, es[m].key, es[j].key);
    }
    LessIrreflexive(es[i].key);
  }

  /** Every version of the key at or before `p` is at least as new as the one at `p`. */
  lemma NewerBefore(es: seq<Version>, p: nat, t: nat)
    requires Sorted(es) && p < |es| && es[p].tid > t
    ensures forall j :: 0 <= j <= p && es[j].key == es[p].key ==> es[j].tid > t
  {
    LessIrreflexive(es[p].key);
    forall j | 0 <= j <= p && es[j].key == es[p].key ensures es[j].tid > t {
      assert j < p ==> Before(es[j], es[p]);
    }
  }

  lemma RunStart(es: seq<Version>, r: nat)
    requires Sorted(es) && r < |es| && (r > 0 ==> es[r - 1].key != es[r].key)
    ensures forall j :: 0 <= j < r ==> es[j].key != es[r].key
  {
    forall j | 0 <= j < r ensures es[j].key != es[r].key {
      if es[j].key == es[r].key {
        RunIsContiguous(es, j, r - 1, r);
      }
    }
  }

  lemma RunEnd(es: seq<Version>, p: nat, r: nat)
    requires Sorted(es) && p < r <= |es| && (r < |es| ==> es[r].key != es[p].key)
    ensures forall j :: r <= j < |es| ==> es[j].key != es[p].key
  {
    forall j | r <= j < |es| ensures es[j].key != es[p].key {
      if es[j].key == es[p].key {
        RunIsContiguous(es, p, r, j);
      }
    }
  }

  /** `r` is the newest version of the key of `idx` visible at `t`, or -1 if there is none. */
  ghost predicate Adjusted(es: seq<Version>, idx: nat, t: nat, r: int)
    requires idx < |es|
  {
    match Lookup(es, es[idx].key, t)
    case None => r == -1
    case Some(v) => 0 <= r < |es| && es[r] == v
  }

  // ----- reading entry `i` by its offset

  method KeyOf(img: Image, ghost es: seq<Version>, i: nat) returns (k: Key)
    requires Represents(img, es) && i < |es|
    ensures k == es[i].key
  {
    ReadsBack(img, es, i);
    k := KeyAt(img.data, img.offsets[i]);
  }

  method TidOf(img: Image, ghost es: seq<Version>, i: nat) returns (t: nat)
    requires Represents(img, es) && i < |es|
    ensures t == es[i].tid
  {
    ReadsBack(img, es, i);
    t := TidAt(img.data, img.offsets[i]);
  }

  method ValueOf(img: Image, ghost es: seq<Version>, i: nat) returns (v: Value)
    requires Represents(img, es) && i < |es|
    ensures v == es[i].value
  {
    ReadsBack(img, es, i);
    v := ValueAt(img.data, img.offsets[i]);
  }

  method IsSameKey(img: Image, ghost es: seq<Version>, i: nat, target: Key) returns (same: bool)
    requires Represents(img, es)
    ensures same <==> i < |es| && es[i].key == target
  {
    if i >= |img.offsets| {
      return false;
    }
    var k := KeyOf(img, es, i);
    same := k == target;
  }

  // ----- visibility

  /** `idx` sees `t`: walk back to the newest version that still does. */
  method WalkBack(img: Image, ghost es: seq<Version>, idx: nat, t: nat) returns (r: int)
    requires Represents(img, es) && Sorted(es) && idx < |es| && Visible(es[idx].tid, t)
    ensures 0 <= r < |es| && Adjusted(es, idx, t, r)
  {
    hide Represents, Sorted, Less;
    var targetKey := KeyOf(img, es, idx);
    var pre := idx;
    while pre > 0
      invariant 0 <= pre <= idx && es[pre].key == targetKey && Visible(es[pre].tid, t)
    {
      var same := IsSameKey(img, es, pre - 1, targetKey);
      if !same {
        break;
      }
      var tid := TidOf(img, es, pre - 1);
      if t != 0 && tid > t {
        NewerBefore(es, pre - 1, t);
        LookupAt(es, targetKey, t, pre);
        return pre;
      }
      pre := pre - 1;
    }
    RunStart(es, pre);
    LookupAt(es, targetKey, t, pre);
    return pre;
  }

  /** `idx` is too new for `t`: walk forward to the first version that is not. */
  method WalkForward(img: Image, ghost es: seq<Version>, idx: nat, t: nat) returns (r: int)
    requires Represents(img, es) && Sorted(es) && idx < |es| && !Visible(es[idx].tid, t)
    ensures -1 <= r < |es| && Adjusted(es, idx, t, r)
  {
    assert |img.offsets| == |es|;
    hide Represents, Sorted, Less;
    var targetKey := KeyOf(img, es, idx);
    NewerBefore(es, idx, t);
    var next := idx + 1;
    while next < |img.offsets|
      invariant idx < next <= |es| == |img.offsets|
      invariant forall j :: 0 <= j < next ==> !(es[j].key == targetKey && Visible(es[j].tid, t))
    {
      var same := IsSameKey(img, es, next, targetKey);
      if !same {
        break;
      }
      var tid := TidOf(img, es, next);
      if tid <= t {
        LookupAt(es, targetKey, t, next);
        return next;
      }
      next := next + 1;
    }
    RunEnd(es, idx, next);
    LookupAt(es, targetKey, t, |es|);
    return -1;
  }

  /** From any member of a key's run to the newest version of it visible at `t`. */
  method AdjustIdxByTrancId(img: Image, ghost es: seq<Version>, idx: nat, t: nat) returns (r: int)
    requires Represents(img, es) && Sorted(es)
    ensures -1 <= r < |es|
    ensures idx >= |es| ==> r == -1
    ensures idx < |es| ==> Adjusted(es, idx, t, r)
  {
    hide Sorted, Less;
    if idx >= |img.offsets| {
      return -1;
    }
    var tid := TidOf(img, es, idx);
    if t == 0 || tid <= t {
      r := WalkBack(img, es, idx, t);
    } else {
      r := WalkForward(img, es, idx, t);
    }
  }

  // ----- binary search for a key

  /** `std::string::compare` */
  function CompareKey(k: Key, target: Key): (c: int)
    ensures c == 0 <==> k == target
    ensures c < 0 <==> k != target && Less(k, target)
  {
    if k == target then 0 else if Less(k, target) then -1 else 1
  }

  /** Where the binary search between `left` and `right` meets `key`, or -1. */
  function Probe(es: seq<Version>, key: Key, left: nat, right: int): (r: int)
    requires left <= right + 1 <= |es|
    ensures -1 <= r < |es| && (r >= 0 ==> left <= r <= right && es[r].key == key)
    decreases right + 1 - left
  {
    if left > right then -1
    else
      var mid := (left + right) / 2;
      var cmp := CompareKey(es[mid].key, key);
      if cmp == 0 then mid
      else if cmp < 0 then Probe(es, key, mid + 1, right)
      else Probe(es, key, left, mid - 1)
  }

  /** The version of `key` the search of a whole block meets. */
  function Met(es: seq<Version>, key: Key): (v: Option<Version>) {
    var p := Probe(es, key, 0, |es| - 1);
    if p < 0 then None else Some(es[p])
  }

  /** Some index of a version of `key`, or -1 if the block has none. */
  method SearchKey(img: Image, ghost es: seq<Version>, key: Key) returns (r: int)
    requires Represents(img, es) && Sorted(es)
    ensures -1 <= r < |es| && r == Probe(es, key, 0, |es| - 1)
    ensures r >= 0 ==> es[r].key == key
    ensures r < 0 ==> forall i :: 0 <= i < |es| ==> es[i].key != key
  {
    hide Sorted, Less, EncodeEntry;
    if |img.offsets| == 0 {
      return -1;
    }
    var left, right := 0, |img.offsets| - 1;
    while left <= right
      invariant 0 <= left <= right + 1 <= |es| == |img.offsets|
      invariant Probe(es, key, left, right) == Probe(es, key, 0, |es| - 1)
      invariant forall i :: 0 <= i < left ==> es[i].key != key
      invariant forall i :: right < i < |es| ==> es[i].key != key
      decreases right - left
    {
      var mid := (left + right) / 2;
      var k := KeyOf(img, es, mid);
      var cmp := CompareKey(k, key);
      if cmp == 0 {
        return mid;
      } else if cmp < 0 {
        SmallerLeft(es, mid, key);
        left := mid + 1;
      } else {
        LargerRight(es, mid, key);
        right := mid - 1;
      }
    }
    return -1;
  }

  lemma SmallerLeft(es: seq<Version>, m: nat, key: Key)
    requires Sorted(es) && m < |es| && Less(es[m].key, key)
    ensures forall i :: 0 <= i <= m ==> es[i].key != key
  {
    forall i | 0 <= i <= m ensures es[i].key != key {
      KeysAscend(es, i, m);
      LessIrreflexive(key);
      if Less(es[i].key, es[m].key) {
        LessTransitive(es[i].key, es[m].key, key);
      }
    }
  }

  lemma LargerRight(es: seq<Version>, m: nat, key: Key)
    requires Sorted(es) && m < |es| && es[m].key != key && !Less(es[m].key, key)
    ensures forall i :: m <= i < |es| ==> es[i].key != key
  {
    LessTotal(es[m].key, key);
    forall i | m <= i < |es| ensures es[i].key != key {
      KeysAscend(es, m, i);
      LessIrreflexive(key);
      if Less(es[m].key, es[i].key) {
        LessTransitive(key, es[m].key, es[i].key);
      }
    }
  }

  /** The lookup its callers and tests expect: the index of the newest version of `key`
      visible at `t`, and nothing exactly when there is none. */
  method FindVisible(img: Image, ghost es: seq<Version>, key: Key, t: nat) returns (r: Option<nat>)
    requires Represents(img, es) && Sorted(es)
    ensures match r
            case None => Lookup(es, key, t) == None
            case Some(i) => i < |es| && Lookup(es, key, t) == Some(es[i])
  {
    hide Sorted, Less;
    var mid := SearchKey(img, es, key);
    if mid < 0 {
      LookupAbsent(es, key, t);
      return None;
    }
    var newMid := AdjustIdxByTrancId(img, es, mid, t);
    if newMid == -1 {
      return None;
    }
    return Some(newMid);
  }

  /** `get_idx_binary` line for line: its test on the adjusted index is inverted, so it
      answers exactly for keys that are present and have no visible version. */
  method GetIdxBinary(img: Image, ghost es: seq<Version>, key: Key, t: nat) returns (r: Option<nat>)
    requires Represents(img, es) && Sorted(es)
    ensures r.Some? <==> HasKey(es, key) && Lookup(es, key, t) == None
    ensures r.Some? ==> r.value < |es| && Met(es, key) == Some(es[r.value]) && !Visible(es[r.value].tid, t)
  {
    hide Sorted, Less;
    var mid := SearchKey(img, es, key);
    if mid < 0 {
      LookupAbsent(es, key, t);
      return None;
    }
    assert es[mid] in es && HasKey(es, key);
    var newMid := AdjustIdxByTrancId(img, es, mid, t);
    if newMid != -1 {
      return None;
    }
    LookupIsNewestVisible(es, key, t);
    return Some(mid);
  }

  // ----- range query

  datatype BlockRange = NoRange | Range(first: nat, end: nat) | NotSorted

  /** Everything a lower half tells under a monotone predicate. */
  lemma DirectionsLeft(es: seq<Version>, pred: Key -> int, m: nat)
    requires MonotoneOn(es, pred) && m < |es|
    ensures forall i :: 0 <= i <= m ==> Direction(pred(es[i].key)) >= Direction(pred(es[m].key))
    ensures forall i :: m <= i < |es| ==> Direction(pred(es[i].key)) <= Direction(pred(es[m].key))
  {
  }

  /** The first entry where `pred` is 0, and the first one the search happened to meet. */
  method FindFirst(img: Image, ghost es: seq<Version>, pred: Key -> int) returns (first: int, met: int)
    requires Represents(img, es)
    ensures -1 <= first < |es| && -1 <= met < |es| && (first == -1 <==> met == -1)
    ensures first >= 0 ==> pred(es[first].key) == 0 && pred(es[met].key) == 0
    ensures MonotoneOn(es, pred) ==>
              if first == -1 then forall i :: 0 <= i < |es| ==> pred(es[i].key) != 0
              else first <= met && forall i :: 0 <= i < first ==> pred(es[i].key) > 0
  {
    hide MonotoneOn, EncodeEntry;
    var left, right := 0, |img.offsets| - 1;
    first, met := -1, -1;
    while left <= right
      invariant 0 <= left <= right + 1 <= |es| == |img.offsets|
      invariant -1 <= first < |es| && -1 <= met < |es| && (first == -1 <==> met == -1)
      invariant first >= 0 ==> right < first && pred(es[first].key) == 0 && pred(es[met].key) == 0
      invariant MonotoneOn(es, pred) ==> forall i :: 0 <= i < left ==> pred(es[i].key) > 0
      invariant MonotoneOn(es, pred) && first == -1 ==> forall i :: right < i < |es| ==> pred(es[i].key) < 0
      invariant MonotoneOn(es, pred) && first >= 0 ==> first == right + 1 && first <= met
      decreases right - left
    {
      var mid := left + (right - left) / 2;
      var midKey := KeyOf(img, es, mid);
      var direction := pred(midKey);
      if MonotoneOn(es, pred) {
        DirectionsLeft(es, pred, mid);
        if first >= 0 {
          DirectionsLeft(es, pred, first);
        }
      }
      if direction < 0 {
        right := mid - 1;
      } else if direction > 0 {
        left := mid + 1;
      } else {
        first := mid;
        if met == -1 {
          met := mid;
        }
        right := mid - 1;
      }
    }
  }

  /** The last entry where `pred` is 0, from one where it is. */
  method FindLast(img: Image, ghost es: seq<Version>, pred: Key -> int, met: nat) returns (last: int, thrown: bool)
    requires Represents(img, es) && met < |es| && pred(es[met].key) == 0
    ensures last >= -1 && (thrown ==> !MonotoneOn(es, pred))
    ensures MonotoneOn(es, pred) ==> met <= last < |es| && pred(es[last].key) == 0
    ensures MonotoneOn(es, pred) ==> forall i :: last < i < |es| ==> pred(es[i].key) < 0
  {
    hide MonotoneOn, EncodeEntry;
    var left, right := met, |img.offsets| - 1;
    last, thrown := -1, false;
    while left <= right
      invariant met <= left <= right + 1 <= |es| == |img.offsets|
      invariant last == -1 ==> left == met
      invariant last != -1 ==> last == left - 1 && met <= last < |es| && pred(es[last].key) == 0
      invariant MonotoneOn(es, pred) ==> forall i :: right < i < |es| ==> pred(es[i].key) < 0
      decreases right - left
    {
      var mid := left + (right - left) / 2;
      var midKey := KeyOf(img, es, mid);
      var direction := pred(midKey);
      if MonotoneOn(es, pred) {
        DirectionsLeft(es, pred, mid);
        DirectionsLeft(es, pred, met);
      }
      if direction < 0 {
        right := mid - 1;
      } else if direction > 0 {
        return last, true;
      } else {
        last := mid;
        left := mid + 1;
      }
    }
  }

  /** Exactly the entries where a monotone `pred` is 0; it never throws on those. */
  method GetMonotonyPredicate(img: Image, ghost es: seq<Version>, pred: Key -> int) returns (r: BlockRange)
    requires Represents(img, es)
    ensures MonotoneOn(es, pred) ==>
              match r
              case NotSorted => false
              case NoRange => forall i :: 0 <= i < |es| ==> pred(es[i].key) != 0
              case Range(first, end) => first < end && Selects(es, pred, first, end)
  {
    hide MonotoneOn, EncodeEntry;
    if |img.offsets| == 0 {
      return NoRange;
    }
    var first, met := FindFirst(img, es, pred);
    if first == -1 {
      return NoRange;
    }
    var last, thrown := FindLast(img, es, pred, met);
    if thrown {
      return NotSorted;
    }
    if MonotoneOn(es, pred) {
      BetweenZeros(es, pred, first, last);
    }
    return Range(first, last + 1);
  }

  lemma BetweenZeros(es: seq<Version>, pred: Key -> int, first: nat, last: nat)
    requires MonotoneOn(es, pred) && first <= last < |es|
    requires pred(es[first].key) == 0 && pred(es[last].key) == 0
    requires forall i :: 0 <= i < first ==> pred(es[i].key) > 0
    requires forall i :: last < i < |es| ==> pred(es[i].key) < 0
    ensures Selects(es, pred, first, last + 1)
  {
    DirectionsLeft(es, pred, first);
    DirectionsLeft(es, pred, last);
  }
}
