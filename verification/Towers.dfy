/** The index arithmetic of a skip list: `hs[p]` is how many levels the node at
    level-0 position `p` is linked on; the head sits at position -1 on every level.
    A level is the subsequence of positions whose tower is taller than it. */
module Towers {

  predicate On(hs: seq<nat>, p: int, i: nat)
    requires -1 <= p < |hs|
  {
    p == -1 || hs[p] > i
  }

  /** The position right of `p` on level `i`, or |hs| at the end of the level. */
  function Next(hs: seq<nat>, p: int, i: nat): (q: nat)
    requires -1 <= p < |hs|
    ensures p < q <= |hs|
    ensures q < |hs| ==> hs[q] > i
    ensures forall r :: p < r < q ==> hs[r] <= i
    decreases |hs| - p
  {
    if p + 1 == |hs| || hs[p + 1] > i then p + 1 else Next(hs, p + 1, i)
  }

  /** The position left of `p` on level `i`, the head's -1 if there is no other. */
  function Prev(hs: seq<nat>, p: nat, i: nat): (q: int)
    requires p <= |hs|
    ensures -1 <= q < p
    ensures q >= 0 ==> hs[q] > i
    ensures forall r :: q < r < p ==> hs[r] <= i
  {
    if p == 0 || hs[p - 1] > i then p - 1 else Prev(hs, p - 1, i)
  }

  lemma {:induction false} NextIs(hs: seq<nat>, p: int, i: nat, q: nat)
    requires -1 <= p < q <= |hs|
    requires q < |hs| ==> hs[q] > i
    requires forall r :: p < r < q ==> hs[r] <= i
    ensures Next(hs, p, i) == q
    decreases q - p
  {
    if p + 1 < q {
      NextIs(hs, p + 1, i, q);
    }
  }

  lemma {:induction false} PrevIs(hs: seq<nat>, p: nat, i: nat, q: int)
    requires -1 <= q < p <= |hs|
    requires q >= 0 ==> hs[q] > i
    requires forall r :: q < r < p ==> hs[r] <= i
    ensures Prev(hs, p, i) == q
  {
    if q < p - 1 {
      PrevIs(hs, p - 1, i, q);
    }
  }

  /** Going right and going left on a level undo each other. */
  lemma NextPrev(hs: seq<nat>, p: int, i: nat)
    requires -1 <= p < |hs| && On(hs, p, i)
    ensures Next(hs, p, i) <= |hs| && Prev(hs, Next(hs, p, i), i) == p
  {
    PrevIs(hs, Next(hs, p, i), i, p);
  }

  lemma PrevNext(hs: seq<nat>, p: nat, i: nat)
    requires p <= |hs|
    requires p < |hs| ==> hs[p] > i
    ensures Next(hs, Prev(hs, p, i), i) == p
  {
    NextIs(hs, Prev(hs, p, i), i, p);
  }

  /** `s` with `x` put in before position `pos`. */
  function Inserted<T>(s: seq<T>, pos: nat, x: T): (r: seq<T>)
    requires pos <= |s|
    ensures |r| == |s| + 1 && r[pos] == x
    ensures forall p :: 0 <= p < pos ==> r[p] == s[p]
    ensures forall p :: pos < p < |r| ==> r[p] == s[p - 1]
  {
    s[..pos] + [x] + s[pos..]
  }

  function Shift(pos: nat, q: int): int {
    if q < pos then q else q + 1
  }

  /** A tower linked on no level only shifts the positions after it. */
  lemma NextWithTower(hs: seq<nat>, pos: nat, p: int, i: nat)
    requires pos <= |hs| && -1 <= p < |hs|
    ensures Next(Inserted(hs, pos, 0), Shift(pos, p), i) == Shift(pos, Next(hs, p, i))
  {
    var hs', q := Inserted(hs, pos, 0), Next(hs, p, i);
    forall r | Shift(pos, p) < r < Shift(pos, q) ensures hs'[r] <= i {
      if r > pos {
        assert hs'[r] == hs[r - 1];
      } else if r < pos {
        assert hs'[r] == hs[r];
      }
    }
    NextIs(hs', Shift(pos, p), i, Shift(pos, q));
  }

  lemma PrevWithTower(hs: seq<nat>, pos: nat, p: nat, i: nat)
    requires pos <= |hs| && p < |hs|
    ensures Prev(Inserted(hs, pos, 0), Shift(pos, p), i) == Shift(pos, Prev(hs, p, i))
  {
    var hs', q := Inserted(hs, pos, 0), Prev(hs, p, i);
    forall r | Shift(pos, q) < r < Shift(pos, p) ensures hs'[r] <= i {
      if r > pos {
        assert hs'[r] == hs[r - 1];
      } else if r < pos {
        assert hs'[r] == hs[r];
      }
    }
    PrevIs(hs', Shift(pos, p), i, Shift(pos, q));
  }

  /** The left neighbour of `pos` depends only on the towers before it. */
  lemma {:induction false} PrevLocal(hs: seq<nat>, hs': seq<nat>, pos: nat, p: nat, i: nat)
    requires p <= pos <= |hs| && pos <= |hs'|
    requires forall q :: 0 <= q < pos ==> hs[q] == hs'[q]
    ensures Prev(hs, p, i) == Prev(hs', p, i)
  {
    if p > 0 {
      PrevLocal(hs, hs', pos, p - 1, i);
    }
  }

  /** Raising one tower from height `i` changes the neighbours on level `i` only, and
      there only those that now meet it. */
  lemma NextRaised(hs: seq<nat>, pos: nat, p: int, l: nat)
    requires pos < |hs| && -1 <= p < |hs|
    ensures var q := Next(hs, p, l);
            Next(hs[pos := hs[pos] + 1], p, l) == if l == hs[pos] && p < pos < q then pos else q
  {
    var q := Next(hs, p, l);
    NextIs(hs[pos := hs[pos] + 1], p, l, if l == hs[pos] && p < pos < q then pos else q);
  }

  lemma PrevRaised(hs: seq<nat>, pos: nat, p: nat, l: nat)
    requires pos < |hs| && p < |hs|
    ensures var q := Prev(hs, p, l);
            Prev(hs[pos := hs[pos] + 1], p, l) == if l == hs[pos] && q < pos < p then pos else q
  {
    var q := Prev(hs, p, l);
    PrevIs(hs[pos := hs[pos] + 1], p, l, if l == hs[pos] && q < pos < p then pos else q);
  }

  /** Only the two neighbours of `pos` on a level look across it. */
  lemma AcrossFromLeft(hs: seq<nat>, pos: nat, p: int, i: nat)
    requires pos < |hs| && -1 <= p < pos && On(hs, p, i)
    ensures Next(hs, p, i) > pos ==> p == Prev(hs, pos, i)
    ensures p == Prev(hs, pos, i) && hs[pos] <= i ==> Next(hs, p, i) == Next(hs, pos, i)
  {
    if Next(hs, p, i) > pos {
      PrevIs(hs, pos, i, p);
    }
    if p == Prev(hs, pos, i) && hs[pos] <= i {
      NextIs(hs, p, i, Next(hs, pos, i));
    }
  }

  lemma AcrossFromRight(hs: seq<nat>, pos: nat, p: nat, i: nat)
    requires pos < p < |hs| && hs[p] > i
    ensures Prev(hs, p, i) < pos ==> p == Next(hs, pos, i)
    ensures p == Next(hs, pos, i) && hs[pos] <= i ==> Prev(hs, p, i) == Prev(hs, pos, i)
  {
    if Prev(hs, p, i) < pos {
      NextIs(hs, pos, i, p);
    }
    if p == Next(hs, pos, i) && hs[pos] <= i {
      PrevIs(hs, p, i, Prev(hs, pos, i));
    }
  }
}
