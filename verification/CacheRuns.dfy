/** What the counts and times of the reference cache mean over a whole run of accesses. */
module CacheRuns {
  import opened BlockCaches

  /** An access of a block, with the victim that leaves if the block has to come in. */
  datatype Use<B> = Use(key: BlockKey, block: B, victim: BlockKey)

  ghost function Run<B>(uses: seq<Use<B>>, capacity: nat): (m: Reference<B>) {
    if uses == [] then map[]
    else
      var n := |uses| - 1;
      var m, u := Run(uses[..n], capacity), uses[n];
      if u.key in m then Touched(m, u.key, u.block, n) else Admitted(m, capacity, u.victim, u.key, u.block, n)
  }

  /** Accesses of `key` from place `from` on. */
  function CountFrom<B>(uses: seq<Use<B>>, from: nat, key: BlockKey): (n: nat) {
    if |uses| <= from then 0
    else
      CountFrom(uses[..|uses| - 1], from, key) + if uses[|uses| - 1].key == key then 1 else 0
  }

  /** `i` is the last access of `key`. */
  ghost predicate LastAt<B>(uses: seq<Use<B>>, i: nat, key: BlockKey) {
    i < |uses| && uses[i].key == key && forall j :: i < j < |uses| ==> uses[j].key != key
  }

  /** `key` came in with access `a` and has stayed since. */
  ghost predicate InSince<B>(uses: seq<Use<B>>, capacity: nat, a: nat, key: BlockKey) {
    && a < |uses| && uses[a].key == key && key !in Run(uses[..a], capacity)
    && forall n :: a < n <= |uses| ==> key in Run(uses[..n], capacity)
  }

  /** Every cached block is the one last put under its key, its stamp is the place of its
      last access, and its count is the number of its accesses since it came in. */
  lemma {:induction false} EntryMeaning<B>(uses: seq<Use<B>>, capacity: nat, key: BlockKey) returns (a: nat)
    requires key in Run(uses, capacity)
    ensures var e := Run(uses, capacity)[key];
            && LastAt(uses, e.stamp, key) && e.block == uses[e.stamp].block
            && InSince(uses, capacity, a, key) && e.count == CountFrom(uses, a, key)
  {
    var n := |uses| - 1;
    var p := uses[..n];
    assert uses[..n + 1] == uses;
    if key in Run(p, capacity) {
      a := EntryMeaning(p, capacity, key);
      forall i | a < i <= n + 1 ensures key in Run(uses[..i], capacity) {
        assert i <= n ==> p[..i] == uses[..i];
      }
      assert p[..a] == uses[..a];
    } else {
      a := n;
      CountNone(p, n, key);
    }
  }

  lemma CountNone<B>(uses: seq<Use<B>>, from: nat, key: BlockKey)
    requires |uses| <= from
    ensures CountFrom(uses, from, key) == 0
  {
  }
}
