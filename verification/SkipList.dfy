/** One in-memory table: a skip list of nodes linked both ways on every level.
    The random tower heights are inputs, so every contract holds for every draw. */
module SkipLists {
  import opened Keys
  import opened Versions
  import opened Towers

  class Node {
    const key: Key
    var value: Value
    const tid: nat
    var forward: seq<Node?>
    var backward: seq<Node?>

    constructor (key: Key, value: Value, level: nat, tid: nat)
      ensures this.key == key && this.value == value && this.tid == tid
      ensures forward == seq(level, _ => null) && backward == seq(level, _ => null)
    {
      this.key, this.value, this.tid := key, value, tid;
      forward, backward := seq(level, _ => null), seq(level, _ => null);
    }

    method SetBackward(level: nat, node: Node)
      requires level < |backward|
      modifies this`backward
      ensures backward == old(backward)[level := node]
    {
      backward := backward[level := node];
    }
  }

  ghost function At(head: Node, nodes: seq<Node>, p: int): Node
    requires -1 <= p < |nodes|
  {
    if p == -1 then head else nodes[p]
  }

  ghost function PtrAt(nodes: seq<Node>, q: nat): Node?
    requires q <= |nodes|
  {
    if q < |nodes| then nodes[q] else null
  }

  /** The links `f`, `b` of the node at `p` lead to its neighbours on level `i`. */
  ghost predicate Links(f: seq<Node?>, b: seq<Node?>, head: Node, nodes: seq<Node>, hs: seq<nat>, i: nat, p: int)
    requires |hs| == |nodes| && -1 <= p < |nodes|
  {
    && i < |f| && f[i] == PtrAt(nodes, Next(hs, p, i))
    && (p >= 0 ==> i < |b| && b[i] == At(head, nodes, Prev(hs, p, i)))
  }

  /** All links of a list, the head's first: `fs` forward and `bs` backward. */
  datatype Net = Net(fs: seq<seq<Node?>>, bs: seq<seq<Node?>>)

  ghost predicate LinkAt(net: Net, head: Node, nodes: seq<Node>, hs: seq<nat>, i: nat, p: int)
    requires |hs| == |nodes| && |net.fs| == |net.bs| == |nodes| + 1 && -1 <= p < |nodes|
  {
    Links(net.fs[p + 1], net.bs[p + 1], head, nodes, hs, i, p)
  }

  /** Level `i` links exactly the head and the towers taller than `i`, in order, and its
      backward links are the inverse of its forward links. */
  ghost predicate LevelLinked(net: Net, head: Node, nodes: seq<Node>, hs: seq<nat>, i: nat)
    requires |hs| == |nodes| && |net.fs| == |net.bs| == |nodes| + 1
  {
    forall p {:trigger LinkAt(net, head, nodes, hs, i, p)} ::
      -1 <= p < |nodes| && On(hs, p, i) ==> LinkAt(net, head, nodes, hs, i, p)
  }

  /** A node carries no link on a level it is not linked on. */
  ghost predicate TowerTop(f: seq<Node?>, b: seq<Node?>, h: nat, maxLevel: nat) {
    && h <= |f| == |b| <= maxLevel
    && forall i :: h <= i < |f| ==> f[i] == null && b[i] == null
  }

  ghost predicate Shape(net: Net, head: Node, nodes: seq<Node>, hs: seq<nat>, maxLevel: nat) {
    && |hs| == |nodes| && |net.fs| == |net.bs| == |nodes| + 1
    && |net.fs[0]| == maxLevel
    && (forall p :: 0 <= p < |nodes| ==> TowerTop(net.fs[p + 1], net.bs[p + 1], hs[p], maxLevel))
    && (forall i :: 0 <= i < maxLevel ==> LevelLinked(net, head, nodes, hs, i))
  }

  // ----- a fresh node counts as a tower of height 0 at its position

  function NetInserted(net: Net, pos: nat, f: seq<Node?>, b: seq<Node?>): (r: Net)
    requires pos + 1 <= |net.fs| == |net.bs|
  {
    Net(Inserted(net.fs, pos + 1, f), Inserted(net.bs, pos + 1, b))
  }

  lemma ShiftedPtr(head: Node, nodes: seq<Node>, pos: nat, n: Node, q: int)
    requires pos <= |nodes| && -1 <= q <= |nodes|
    ensures q >= 0 ==> PtrAt(Inserted(nodes, pos, n), Shift(pos, q)) == PtrAt(nodes, q)
    ensures q < |nodes| ==> At(head, Inserted(nodes, pos, n), Shift(pos, q)) == At(head, nodes, q)
  {
  }

  lemma ShiftedLinks(f: seq<Node?>, b: seq<Node?>, head: Node, nodes: seq<Node>, hs: seq<nat>, n: Node,
                     pos: nat, i: nat, o: int)
    requires |hs| == |nodes| && pos <= |nodes| && -1 <= o < |nodes|
    requires Links(f, b, head, nodes, hs, i, o)
    ensures Links(f, b, head, Inserted(nodes, pos, n), Inserted(hs, pos, 0), i, Shift(pos, o))
  {
    NextWithTower(hs, pos, o, i);
    ShiftedPtr(head, nodes, pos, n, Next(hs, o, i));
    if o >= 0 {
      PrevWithTower(hs, pos, o, i);
      ShiftedPtr(head, nodes, pos, n, Prev(hs, o, i));
    }
  }

  lemma InsertedLevel(net: Net, head: Node, nodes: seq<Node>, hs: seq<nat>, n: Node, f: seq<Node?>,
                      b: seq<Node?>, pos: nat, i: nat)
    requires |hs| == |nodes| && |net.fs| == |net.bs| == |nodes| + 1 && pos <= |nodes|
    requires LevelLinked(net, head, nodes, hs, i)
    ensures LevelLinked(NetInserted(net, pos, f, b), head, Inserted(nodes, pos, n), Inserted(hs, pos, 0), i)
  {
    var net', nodes', hs' := NetInserted(net, pos, f, b), Inserted(nodes, pos, n), Inserted(hs, pos, 0);
    forall p {:trigger LinkAt(net', head, nodes', hs', i, p)} | -1 <= p < |nodes'| && On(hs', p, i)
      ensures LinkAt(net', head, nodes', hs', i, p)
    {
      var o := if p < pos then p else p - 1;
      assert LinkAt(net, head, nodes, hs, i, o);
      ShiftedLinks(net.fs[o + 1], net.bs[o + 1], head, nodes, hs, n, pos, i, o);
    }
  }

  lemma InsertedShape(net: Net, head: Node, nodes: seq<Node>, hs: seq<nat>, maxLevel: nat, n: Node,
                      f: seq<Node?>, b: seq<Node?>, pos: nat)
    requires Shape(net, head, nodes, hs, maxLevel) && pos <= |nodes|
    requires TowerTop(f, b, 0, maxLevel)
    ensures Shape(NetInserted(net, pos, f, b), head, Inserted(nodes, pos, n), Inserted(hs, pos, 0), maxLevel)
  {
    var net', nodes', hs' := NetInserted(net, pos, f, b), Inserted(nodes, pos, n), Inserted(hs, pos, 0);
    forall p | 0 <= p < |nodes'| ensures TowerTop(net'.fs[p + 1], net'.bs[p + 1], hs'[p], maxLevel) {
      if p != pos {
        var o := if p < pos then p else p - 1;
        assert TowerTop(net.fs[o + 1], net.bs[o + 1], hs[o], maxLevel);
      }
    }
    forall i | 0 <= i < maxLevel ensures LevelLinked(net', head, nodes', hs', i) {
      InsertedLevel(net, head, nodes, hs, n, f, b, pos, i);
    }
  }

  // ----- linking a tower on one more level

  /** The forward links of the node at `p` once the node at `pos` is linked on level `i`
      between `u` and `w`, and then its backward links: only those three change. */
  ghost function ForwardLinked(f: seq<Node?>, nodes: seq<Node>, u: int, pos: nat, w: nat, i: nat,
                               p: int): (r: seq<Node?>)
    requires pos < w <= |nodes|
  {
    if p == pos && i < |f| then f[i := PtrAt(nodes, w)]
    else if p == u && i < |f| then f[i := nodes[pos]]
    else f
  }

  ghost function BackwardLinked(b: seq<Node?>, head: Node, nodes: seq<Node>, u: int, pos: nat, w: nat, i: nat,
                                p: int): (r: seq<Node?>)
    requires -1 <= u < pos < |nodes|
  {
    if p == pos && i < |b| then b[i := At(head, nodes, u)]
    else if p == w && i < |b| then b[i := nodes[pos]]
    else b
  }

  ghost predicate Relinked(net: Net, net': Net, head: Node, nodes: seq<Node>, u: int, pos: nat, w: nat, i: nat)
    requires -1 <= u < pos < w <= |nodes|
  {
    && |net.fs| == |net.bs| == |net'.fs| == |net'.bs| == |nodes| + 1
    && (forall k :: 0 <= k <= |nodes| ==> net'.fs[k] == ForwardLinked(net.fs[k], nodes, u, pos, w, i, k - 1))
    && (forall k :: 0 < k <= |nodes| ==> net'.bs[k] == BackwardLinked(net.bs[k], head, nodes, u, pos, w, i, k - 1))
  }

  lemma RaisedLinks(f: seq<Node?>, b: seq<Node?>, head: Node, nodes: seq<Node>, hs: seq<nat>, pos: nat, i: nat,
                    l: nat, p: int)
    requires |hs| == |nodes| && pos < |nodes| && -1 <= p < |nodes| && hs[pos] == i
    requires On(hs[pos := i + 1], p, l)
    requires !(p == pos && l == i) ==> Links(f, b, head, nodes, hs, l, p)
    requires p == pos ==> i < |f| && i < |b|
    ensures var u, w := Prev(hs, pos, i), Next(hs, pos, i);
            Links(ForwardLinked(f, nodes, u, pos, w, i, p), BackwardLinked(b, head, nodes, u, pos, w, i, p),
                  head, nodes, hs[pos := i + 1], l, p)
  {
    NextRaised(hs, pos, p, l);
    if p >= 0 {
      PrevRaised(hs, pos, p, l);
    }
    if l == i && p < pos {
      AcrossFromLeft(hs, pos, p, i);
    } else if l == i && p > pos {
      AcrossFromRight(hs, pos, p, i);
    }
  }

  lemma RaisedLinkAt(net: Net, net': Net, head: Node, nodes: seq<Node>, hs: seq<nat>, pos: nat, i: nat, l: nat, p: int)
    requires |hs| == |nodes| && pos < |nodes| && -1 <= p < |nodes|
    requires |net.fs| == |net.bs| == |net'.fs| == |net'.bs| == |nodes| + 1
    requires net'.fs[p + 1] == ForwardLinked(net.fs[p + 1], nodes, Prev(hs, pos, i), pos, Next(hs, pos, i), i, p)
    requires p < 0 || net'.bs[p + 1] ==
                      BackwardLinked(net.bs[p + 1], head, nodes, Prev(hs, pos, i), pos, Next(hs, pos, i), i, p)
    requires LevelLinked(net, head, nodes, hs, l)
    requires hs[pos] == i < |net.fs[pos + 1]| == |net.bs[pos + 1]|
    requires On(hs[pos := i + 1], p, l)
    ensures LinkAt(net', head, nodes, hs[pos := i + 1], l, p)
  {
    if !(p == pos && l == i) {
      assert LinkAt(net, head, nodes, hs, l, p);
    }
    RaisedLinks(net.fs[p + 1], net.bs[p + 1], head, nodes, hs, pos, i, l, p);
  }

  lemma RaisedLevel(net: Net, net': Net, head: Node, nodes: seq<Node>, hs: seq<nat>, hs': seq<nat>, pos: nat,
                    i: nat, l: nat)
    requires |hs| == |nodes| && pos < |nodes|
    requires Relinked(net, net', head, nodes, Prev(hs, pos, i), pos, Next(hs, pos, i), i)
    requires LevelLinked(net, head, nodes, hs, l)
    requires hs[pos] == i < |net.fs[pos + 1]| == |net.bs[pos + 1]| && hs' == hs[pos := i + 1]
    ensures LevelLinked(net', head, nodes, hs', l)
  {
    forall p {:trigger LinkAt(net', head, nodes, hs', l, p)} | -1 <= p < |nodes| && On(hs', p, l)
      ensures LinkAt(net', head, nodes, hs', l, p)
    {
      RaisedLinkAt(net, net', head, nodes, hs, pos, i, l, p);
    }
  }

  lemma RaisedShape(net: Net, net': Net, head: Node, nodes: seq<Node>, hs: seq<nat>, maxLevel: nat, pos: nat, i: nat)
    requires Shape(net, head, nodes, hs, maxLevel)
    requires pos < |nodes| && Relinked(net, net', head, nodes, Prev(hs, pos, i), pos, Next(hs, pos, i), i)
    requires hs[pos] == i < |net.fs[pos + 1]|
    ensures Shape(net', head, nodes, hs[pos := i + 1], maxLevel)
  {
    var hs' := hs[pos := i + 1];
    assert TowerTop(net.fs[pos + 1], net.bs[pos + 1], hs[pos], maxLevel);
    forall p | 0 <= p < |nodes| ensures TowerTop(net'.fs[p + 1], net'.bs[p + 1], hs'[p], maxLevel) {
      assert TowerTop(net.fs[p + 1], net.bs[p + 1], hs[p], maxLevel);
    }
    forall l | 0 <= l < maxLevel ensures LevelLinked(net', head, nodes, hs', l) {
      RaisedLevel(net, net', head, nodes, hs, hs', pos, i, l);
    }
  }

  ghost function ForwardsOf(head: Node, nodes: seq<Node>): (fs: seq<seq<Node?>>)
    reads ({head} + set o: Node | o in nodes)`forward
    ensures |fs| == |nodes| + 1 && forall k :: 0 <= k <= |nodes| ==> fs[k] == At(head, nodes, k - 1).forward
  {
    if nodes == [] then [head.forward]
    else ForwardsOf(head, nodes[..|nodes| - 1]) + [nodes[|nodes| - 1].forward]
  }

  ghost function BackwardsOf(head: Node, nodes: seq<Node>): (bs: seq<seq<Node?>>)
    reads ({head} + set o: Node | o in nodes)`backward
    ensures |bs| == |nodes| + 1 && forall k :: 0 <= k <= |nodes| ==> bs[k] == At(head, nodes, k - 1).backward
  {
    if nodes == [] then [head.backward]
    else BackwardsOf(head, nodes[..|nodes| - 1]) + [nodes[|nodes| - 1].backward]
  }

  ghost function NetOf(head: Node, nodes: seq<Node>): (net: Net)
    reads ({head} + set o: Node | o in nodes)`forward, ({head} + set o: Node | o in nodes)`backward
  {
    Net(ForwardsOf(head, nodes), BackwardsOf(head, nodes))
  }

  ghost predicate Distinct(head: Node, nodes: seq<Node>) {
    && head !in nodes
    && forall p, q :: 0 <= p < q < |nodes| ==> nodes[p] != nodes[q]
  }

  /** The pointer updates of one level: `n` goes between `pred`, at `u`, and its right
      neighbour, at `w`. */
  method Relink(head: Node, ghost nodes: seq<Node>, n: Node, ghost pos: nat, pred: Node, i: nat, ghost u: int,
                ghost w: nat)
    requires Distinct(head, nodes)
    requires -1 <= u < pos < w <= |nodes| && nodes[pos] == n && pred == At(head, nodes, u)
    requires i < |n.forward| && i < |n.backward| && i < |pred.forward| && pred.forward[i] == PtrAt(nodes, w)
    requires w < |nodes| ==> i < |nodes[w].backward|
    modifies n`forward, pred`forward, n`backward, (if w < |nodes| then {nodes[w]} else {})`backward
    ensures Relinked(old(NetOf(head, nodes)), NetOf(head, nodes), head, nodes, u, pos, w, i)
  {
    hide ForwardsOf, BackwardsOf;
    n.forward := n.forward[i := pred.forward[i]];
    if n.forward[i] != null {
      n.forward[i].SetBackward(i, n);
    }
    pred.forward := pred.forward[i := n];
    n.SetBackward(i, pred);
    assert forall p :: 0 <= p < |nodes| ==>
             nodes[p].forward == ForwardLinked(old(nodes[p].forward), nodes, u, pos, w, i, p);
    assert forall p :: 0 <= p < |nodes| ==>
             nodes[p].backward == BackwardLinked(old(nodes[p].backward), head, nodes, u, pos, w, i, p);
  }

  lemma NeighbourLinks(net: Net, head: Node, nodes: seq<Node>, hs: seq<nat>, maxLevel: nat, pos: nat, i: nat)
    requires Shape(net, head, nodes, hs, maxLevel)
    requires pos < |nodes| && hs[pos] == i < |net.fs[pos + 1]|
    ensures i < |net.bs[pos + 1]|
    ensures var u, w := Prev(hs, pos, i), Next(hs, pos, i);
            && i < |net.fs[u + 1]| && net.fs[u + 1][i] == PtrAt(nodes, w)
            && (w < |nodes| ==> i < |net.bs[w + 1]|)
  {
    var u, w := Prev(hs, pos, i), Next(hs, pos, i);
    assert TowerTop(net.fs[pos + 1], net.bs[pos + 1], hs[pos], maxLevel);
    assert LevelLinked(net, head, nodes, hs, i);
    assert LinkAt(net, head, nodes, hs, i, u);
    assert w < |nodes| ==> LinkAt(net, head, nodes, hs, i, w);
    AcrossFromLeft(hs, pos, u, i);
  }

  /** Link `n`, already linked below level `i`, on level `i` after `pred`: its tower
      grows by one. */
  method LinkOnLevel(head: Node, ghost nodes: seq<Node>, ghost hs: seq<nat>, ghost maxLevel: nat,
                     n: Node, ghost pos: nat, pred: Node, i: nat)
    requires Distinct(head, nodes)
    requires Shape(NetOf(head, nodes), head, nodes, hs, maxLevel)
    requires pos < |nodes| && nodes[pos] == n && hs[pos] == i < |n.forward|
    requires pred == At(head, nodes, Prev(hs, pos, i))
    modifies ({head} + set o: Node | o in nodes)`forward, (set o: Node | o in nodes)`backward
    ensures Shape(NetOf(head, nodes), head, nodes, hs[pos := i + 1], maxLevel)
    ensures |n.forward| == old(|n.forward|)
  {
    ghost var net := NetOf(head, nodes);
    NeighbourLinks(net, head, nodes, hs, maxLevel, pos, i);
    Relink(head, nodes, n, pos, pred, i, Prev(hs, pos, i), Next(hs, pos, i));
    RaisedShape(net, NetOf(head, nodes), head, nodes, hs, maxLevel, pos, i);
  }

  lemma InsertedNet(head: Node, nodes: seq<Node>, n: Node, pos: nat)
    requires pos <= |nodes|
    ensures NetOf(head, Inserted(nodes, pos, n)) == NetInserted(NetOf(head, nodes), pos, n.forward, n.backward)
  {
    var nodes', net, net' := Inserted(nodes, pos, n), NetOf(head, nodes), NetOf(head, Inserted(nodes, pos, n));
    var r := NetInserted(net, pos, n.forward, n.backward);
    forall k | 0 <= k <= |nodes'| ensures net'.fs[k] == r.fs[k] && net'.bs[k] == r.bs[k] {
      if k < pos + 1 {
        assert At(head, nodes', k - 1) == At(head, nodes, k - 1);
      } else if k > pos + 1 {
        assert At(head, nodes', k - 1) == At(head, nodes, k - 2);
      }
    }
    assert net'.fs == r.fs && net'.bs == r.bs;
  }

  lemma DistinctInserted(head: Node, nodes: seq<Node>, n: Node, pos: nat)
    requires Distinct(head, nodes) && pos <= |nodes| && n !in nodes && n != head
    ensures Distinct(head, Inserted(nodes, pos, n))
  {
  }

  /** A fresh node in the sequence of nodes, linked nowhere yet. */
  lemma FreshNode(head: Node, nodes: seq<Node>, hs: seq<nat>, maxLevel: nat, n: Node, pos: nat)
    requires Distinct(head, nodes) && Shape(NetOf(head, nodes), head, nodes, hs, maxLevel)
    requires pos <= |nodes| && n !in nodes && n != head && TowerTop(n.forward, n.backward, 0, maxLevel)
    ensures Distinct(head, Inserted(nodes, pos, n))
    ensures Shape(NetOf(head, Inserted(nodes, pos, n)), head, Inserted(nodes, pos, n), Inserted(hs, pos, 0), maxLevel)
    ensures forall l :: Prev(Inserted(hs, pos, 0), pos, l) == Prev(hs, pos, l)
  {
    DistinctInserted(head, nodes, n, pos);
    InsertedShape(NetOf(head, nodes), head, nodes, hs, maxLevel, n, n.forward, n.backward, pos);
    InsertedNet(head, nodes, n, pos);
    forall l ensures Prev(Inserted(hs, pos, 0), pos, l) == Prev(hs, pos, l) {
      PrevLocal(Inserted(hs, pos, 0), hs, pos, pos, l);
    }
  }

  /** The height the draws give a new tower: every level of a new top, otherwise level 0
      and on up while the bits say so. */
  function DrawnHeight(newLevel: nat, currentLevel: nat, bits: seq<bool>, i: nat): (h: nat)
    requires i <= newLevel <= |bits|
    ensures i <= h <= newLevel
    decreases newLevel - i
  {
    if i < newLevel && (i == 0 || newLevel > currentLevel || bits[i])
    then DrawnHeight(newLevel, currentLevel, bits, i + 1) else i
  }

  /** `v` and its tower come in at the same place and nothing else changes. */
  ghost predicate TowerAdded(es: seq<Version>, es': seq<Version>, hs: seq<nat>, hs': seq<nat>, v: Version, h: nat)
  {
    |es| == |hs| && exists pos: nat :: pos <= |es| && es' == Inserted(es, pos, v) && hs' == Inserted(hs, pos, h)
  }

  /** Link `n`, so far on no level, on level 0 and then on higher levels until a draw
      says to stop. */
  method LinkTower(head: Node, ghost nodes: seq<Node>, ghost hs0: seq<nat>, maxLevel: nat, currentLevel: nat,
                   n: Node, ghost pos: nat, update: seq<Node?>, newLevel: nat, bits: seq<bool>)
    returns (ghost hs: seq<nat>)
    requires Distinct(head, nodes) && Shape(NetOf(head, nodes), head, nodes, hs0, maxLevel)
    requires pos < |nodes| && nodes[pos] == n && hs0[pos] == 0
    requires 1 <= newLevel == |n.forward| <= |update| == |bits|
    requires forall l :: 0 <= l < newLevel ==> update[l] == At(head, nodes, Prev(hs0, pos, l))
    modifies ({head} + set o: Node | o in nodes)`forward, (set o: Node | o in nodes)`backward
    ensures hs == hs0[pos := DrawnHeight(newLevel, currentLevel, bits, 0)] && hs[pos] >= 1
    ensures Shape(NetOf(head, nodes), head, nodes, hs, maxLevel)
  {
    hs := hs0;
    var i := 0;
    while i < newLevel && (i == 0 || newLevel > currentLevel || bits[i])
      invariant 0 <= i <= newLevel == |n.forward| && |hs| == |nodes| && hs == hs0[pos := i]
      invariant DrawnHeight(newLevel, currentLevel, bits, i) == DrawnHeight(newLevel, currentLevel, bits, 0)
      invariant Shape(NetOf(head, nodes), head, nodes, hs, maxLevel)
      decreases newLevel - i
    {
      PrevLocal(hs, hs0, pos, pos, i);
      LinkOnLevel(head, nodes, hs, maxLevel, n, pos, update[i], i);
      hs := hs[pos := i + 1];
      i := i + 1;
    }
  }

  ghost function VersionsOf(nodes: seq<Node>): (r: seq<Version>)
    reads (set o: Node | o in nodes)`value
    ensures |r| == |nodes|
    ensures forall p :: 0 <= p < |nodes| ==> r[p] == Version(nodes[p].key, nodes[p].value, nodes[p].tid)
  {
    if nodes == [] then []
    else VersionsOf(nodes[..|nodes| - 1])
         + [Version(nodes[|nodes| - 1].key, nodes[|nodes| - 1].value, nodes[|nodes| - 1].tid)]
  }

  method SetValue(ghost nodes: seq<Node>, n: Node, value: Value, ghost pos: nat)
    requires pos < |nodes| && nodes[pos] == n
    requires forall p :: 0 <= p < |nodes| && p != pos ==> nodes[p] != n
    modifies n`value
    ensures n.value == value && VersionsOf(nodes) == old(VersionsOf(nodes))[pos := Version(n.key, value, n.tid)]
  {
    n.value := value;
  }

  lemma VersionsInserted(nodes: seq<Node>, n: Node, pos: nat)
    requires pos <= |nodes|
    ensures VersionsOf(Inserted(nodes, pos, n)) == Inserted(VersionsOf(nodes), pos, Version(n.key, n.value, n.tid))
  {
    hide VersionsOf;
    var nodes', v := Inserted(nodes, pos, n), Version(n.key, n.value, n.tid);
    var r, r' := VersionsOf(nodes'), Inserted(VersionsOf(nodes), pos, v);
    forall p | 0 <= p < |nodes'| ensures r[p] == r'[p] {
      assert nodes'[p] == if p < pos then nodes[p] else if p == pos then n else nodes[p - 1];
    }
  }

  datatype NodeRange = Nothing | Found(begin: Node, end: Node?) | InvalidDirection

  class SkipList {
    const maxLevel: nat
    var head: Node
    var currentLevel: nat
    var sizeBytes: int
    /** The stored versions in level-0 order. */
    ghost var entries: seq<Version>
    ghost var nodes: seq<Node>
    ghost var hs: seq<nat>
    ghost var Repr: set<object>

    ghost predicate Linked()
      reads `head, `nodes, `hs, `currentLevel
      reads ({head} + set o: Node | o in nodes)`forward, ({head} + set o: Node | o in nodes)`backward
    {
      && |hs| == |nodes|
      && Distinct(head, nodes)
      && Shape(NetOf(head, nodes), head, nodes, hs, maxLevel)
      && (forall p :: 0 <= p < |hs| ==> 1 <= hs[p] <= currentLevel)
      && 1 <= currentLevel <= maxLevel
    }

    ghost predicate Valid()
      reads this, Repr
      ensures Valid() ==> this in Repr
    {
      && this in Repr && head in Repr && (forall o :: o in nodes ==> o in Repr)
      && |hs| == |nodes| && 1 <= currentLevel <= maxLevel && Distinct(head, nodes) && Linked()
      && entries == VersionsOf(nodes)
      && Sorted(entries)
      && sizeBytes == Size(entries)
    }

    constructor (maxLevel: nat)
      requires maxLevel >= 1
      ensures Valid() && fresh(Repr) && entries == [] && this.maxLevel == maxLevel
    {
      this.maxLevel := maxLevel;
      head := new Node([], [], maxLevel, 0);
      currentLevel, sizeBytes := 1, 0;
      entries, nodes, hs := [], [], [];
      new;
      Repr := {this, head};
    }

    /** The node at `p` leads right to the next tower of level `i`. */
    lemma ForwardAt(p: int, i: nat)
      requires Linked() && |hs| == |nodes| && -1 <= p < |nodes| && On(hs, p, i) && i < maxLevel
      ensures var o := At(head, nodes, p);
              i < |o.forward| && o.forward[i] == PtrAt(nodes, Next(hs, p, i))
    {
      assert LevelLinked(NetOf(head, nodes), head, nodes, hs, i);
      assert LinkAt(NetOf(head, nodes), head, nodes, hs, i, p);
    }

    /** `goRight` holds of exactly the versions before position `pos`. */
    ghost predicate Cuts(goRight: (Key, nat) -> bool, pos: nat)
      reads this
    {
      pos <= |entries| &&
      forall q :: 0 <= q < |entries| ==> (goRight(entries[q].key, entries[q].tid) <==> q < pos)
    }

    /** Walk level `i` from `cur`, at `c`, while the next node is before position `pos`. */
    method WalkRight(cur: Node, i: nat, goRight: (Key, nat) -> bool, ghost c: int, ghost pos: nat)
      returns (r: Node)
      requires Valid() && Cuts(goRight, pos)
      requires i < maxLevel && -1 <= c < pos <= |nodes| == |hs| && cur == At(head, nodes, c) && On(hs, c, i)
      ensures r == At(head, nodes, Prev(hs, pos, i))
    {
      hide Shape, Sorted, Size, Distinct;
      r := cur;
      ghost var p := c;
      ForwardAt(p, i);
      while r.forward[i] != null && goRight(r.forward[i].key, r.forward[i].tid)
        invariant -1 <= p < pos && r == At(head, nodes, p) && On(hs, p, i)
        invariant i < |r.forward| && r.forward[i] == PtrAt(nodes, Next(hs, p, i))
        decreases pos - p
      {
        p := Next(hs, p, i);
        r := r.forward[i];
        ForwardAt(p, i);
      }
      PrevIs(hs, pos, i, p);
    }

    lemma LevelZeroIsEverything(pos: nat)
      requires Linked() && |hs| == |nodes| && pos <= |nodes|
      ensures Prev(hs, pos, 0) == pos - 1 && Next(hs, pos - 1, 0) == pos && On(hs, pos - 1, 0)
    {
      PrevIs(hs, pos, 0, pos - 1);
      NextIs(hs, pos - 1, 0, pos);
    }

    /** Descend from level `top` - 1, recording on each level the last node before
        position `pos`; `current` is the node at `pos`. */
    method Descend(top: nat, goRight: (Key, nat) -> bool, ghost pos: nat) returns (update: seq<Node?>, current: Node?)
      requires Valid() && Cuts(goRight, pos) && 1 <= top <= maxLevel
      ensures |nodes| == |hs| && |update| == maxLevel
      ensures forall l :: 0 <= l < top ==> update[l] == At(head, nodes, Prev(hs, pos, l))
      ensures current == PtrAt(nodes, pos)
    {
      hide Linked, Sorted, Size;
      update := seq(maxLevel, _ => null);
      var cur := head;
      ghost var c := -1;
      var i := top;
      while i > 0
        invariant 0 <= i <= top && -1 <= c < pos && cur == At(head, nodes, c)
        invariant On(hs, c, i) && (i < top ==> c == Prev(hs, pos, i))
        invariant |update| == maxLevel
        invariant forall l :: i <= l < top ==> update[l] == At(head, nodes, Prev(hs, pos, l))
      {
        i := i - 1;
        cur := WalkRight(cur, i, goRight, c, pos);
        c := Prev(hs, pos, i);
        update := update[i := cur];
      }
      LevelZeroIsEverything(pos);
      ForwardAt(c, 0);
      current := cur.forward[0];
    }

    /** Link the fresh node `n` in at level-0 position `pos`. */
    method LinkNew(n: Node, ghost pos: nat, update: seq<Node?>, newLevel: nat, bits: seq<bool>)
      requires Linked() && |hs| == |nodes| && pos <= |nodes| && |update| == |bits| == maxLevel
      requires n !in nodes && n != head && TowerTop(n.forward, n.backward, 0, maxLevel)
      requires currentLevel <= newLevel == |n.forward|
      requires forall l :: 0 <= l < newLevel ==> update[l] == At(head, nodes, Prev(hs, pos, l))
      modifies ({head, n} + set o: Node | o in nodes)`forward, ({n} + set o: Node | o in nodes)`backward
      modifies this`nodes, this`hs, this`currentLevel
      ensures Linked() && Distinct(head, nodes) && 1 <= currentLevel == newLevel <= maxLevel
          && |hs| == |nodes| && nodes == Inserted(old(nodes), pos, n)
      ensures hs == Inserted(old(hs), pos, DrawnHeight(newLevel, old(currentLevel), bits, 0))
    {
      hide Shape, Distinct, NetOf;
      FreshNode(head, nodes, hs, maxLevel, n, pos);
      nodes, hs := Inserted(nodes, pos, n), Inserted(hs, pos, 0);
      hs := LinkTower(head, nodes, hs, maxLevel, currentLevel, n, pos, update, newLevel, bits);
      currentLevel := newLevel;
    }

    /** Above the old top level every predecessor is the head. */
    method FillUpdate(update0: seq<Node?>, newLevel: nat, ghost pos: nat) returns (update: seq<Node?>)
      requires Linked() && |hs| == |nodes| && pos <= |nodes| && |update0| == maxLevel && newLevel <= maxLevel
      requires forall l :: 0 <= l < currentLevel ==> update0[l] == At(head, nodes, Prev(hs, pos, l))
      ensures |update| == maxLevel
      ensures forall l :: 0 <= l < newLevel ==> update[l] == At(head, nodes, Prev(hs, pos, l))
    {
      update := update0;
      var i := currentLevel;
      while i < newLevel
        invariant currentLevel <= i && |update| == maxLevel
        invariant forall l :: 0 <= l < i && l < maxLevel ==> update[l] == At(head, nodes, Prev(hs, pos, l))
      {
        PrevIs(hs, pos, i, -1);
        update := update[i := head];
        i := i + 1;
      }
    }

    /** Store `v` in the fresh node `n` at position `pos`. */
    method PutNew(n: Node, ghost v: Version, ghost pos: nat, update: seq<Node?>, newLevel: nat, bits: seq<bool>)
      requires Valid() && |hs| == |nodes| && pos <= |nodes| && |update| == |bits| == maxLevel
      requires n !in Repr && TowerTop(n.forward, n.backward, 0, maxLevel)
      requires currentLevel <= newLevel == |n.forward|
      requires forall l :: 0 <= l < newLevel ==> update[l] == At(head, nodes, Prev(hs, pos, l))
      requires v == Version(n.key, n.value, n.tid) && Sorted(Inserted(entries, pos, v))
      modifies Repr, n
      ensures Valid() && Repr == old(Repr) + {n} && currentLevel == newLevel
      ensures entries == Inserted(old(entries), pos, v)
      ensures hs == Inserted(old(hs), pos, DrawnHeight(newLevel, old(currentLevel), bits, 0))
    {
      hide Linked, Sorted, Size, VersionsOf, Less;
      SizeInserted(entries, pos, v);
      sizeBytes := sizeBytes + |n.key| + |n.value| + 8;
      LinkNew(n, pos, update, newLevel, bits);
      VersionsInserted(old(nodes), n, pos);
      entries := Inserted(entries, pos, v);
      Repr := Repr + {n};
    }

    /** Overwrite the value of the node at `pos`. */
    method Overwrite(n: Node, value: Value, ghost pos: nat)
      requires Valid() && pos < |nodes| && n == nodes[pos]
      modifies this`sizeBytes, this`entries, n`value
      ensures Valid() && entries == old(entries)[pos := Version(n.key, value, n.tid)]
    {
      hide Linked, Size, Less, Sorted, VersionsOf, Before;
      ghost var v := Version(n.key, value, n.tid);
      SortedReplaced(entries, pos, v);
      SizeReplaced(entries, pos, v);
      sizeBytes := sizeBytes + |value| - |n.value|;
      SetValue(nodes, n, value, pos);
      entries := entries[pos := v];
    }

    /** Write one version. `randomLevel` and `bits` stand for the two random draws. A new
        version gets a tower of the drawn height and moves no other. */
    method Put(key: Key, value: Value, tid: nat, randomLevel: nat, bits: seq<bool>)
      requires Valid()
      requires 1 <= randomLevel <= maxLevel && |bits| == maxLevel
      modifies Repr
      ensures Valid() && fresh(Repr - old(Repr))
      ensures entries == Insert(old(entries), Version(key, value, tid))
      ensures var newLevel := if randomLevel > old(currentLevel) then randomLevel else old(currentLevel);
              || (hs == old(hs) && nodes == old(nodes) && currentLevel == old(currentLevel)
                  && exists w :: w in old(entries) && SameSlot(w, Version(key, value, tid)))
              || (currentLevel == newLevel
                  && TowerAdded(old(entries), entries, old(hs), hs, Version(key, value, tid),
                                DrawnHeight(newLevel, old(currentLevel), bits, 0)))
    {
      hide Shape, Sorted, Size, Less, Insert, Distinct;
      var newLevel := if randomLevel > currentLevel then randomLevel else currentLevel;
      var newNode := new Node(key, value, newLevel, tid);
      var v := Version(key, value, tid);
      ghost var pos := SlotExists(entries, v);
      InsertAt(entries, v, pos);
      InsertSorted(entries, v);
      var goRight := (k: Key, t: nat) => SlotBefore(k, t, key, tid);
      assert Cuts(goRight, pos);
      var update, current := Descend(currentLevel, goRight, pos);
      if current != null && current.key == key && current.tid == tid {
        Overwrite(current, value, pos);
      } else {
        update := FillUpdate(update, newLevel, pos);
        PutNew(newNode, v, pos, update, newLevel, bits);
      }
    }

    /** The newest version of `key` a reader at `t` may see, or null. */
    method Get(key: Key, t: nat) returns (r: Node?)
      requires Valid()
      ensures match Lookup(entries, key, t)
              case None => r == null
              case Some(v) => r != null && r in nodes && v == Version(r.key, r.value, r.tid)
    {
      hide Linked, Size, Less;
      ghost var pos := KeyCut(entries, key);
      var goRight := (k: Key, tid: nat) => Less(k, key);
      assert Cuts(goRight, pos);
      var _, current := Descend(maxLevel, goRight, pos);
      r := current;
      ghost var i := pos;
      while r != null && r.key == key && t != 0 && r.tid > t
        invariant pos <= i <= |nodes| && r == PtrAt(nodes, i)
        invariant forall j :: pos <= j < i ==> entries[j].key == key && !Visible(entries[j].tid, t)
        decreases |nodes| - i
      {
        LevelZeroIsEverything(i + 1);
        ForwardAt(i, 0);
        r := r.forward[0];
        i := i + 1;
      }
      LessIrreflexive(key);
      if r != null && r.key == key {
        LookupAt(entries, key, t, i);
      } else {
        NoneFurther(entries, key, i);
        LookupAt(entries, key, t, |entries|);
        r := null;
      }
    }

    method GetSize() returns (n: int)
      requires Valid()
      ensures n == Size(entries)
    {
      n := sizeBytes;
    }

    /** `clear`: a new head; `currentLevel` stays, as an upper bound. */
    method Clear()
      requires Valid()
      modifies this
      ensures Valid() && fresh(Repr - old(Repr)) && entries == []
    {
      head := new Node([], [], maxLevel, 0);
      sizeBytes := 0;
      entries, nodes, hs := [], [], [];
      Repr := {this, head};
    }

    /** Everything in level-0 order, as a flush hands it to the table builder. */
    method Flush() returns (res: seq<Version>)
      requires Valid()
      ensures res == entries && InNodeOrder(res)
    {
      SortedIsNodeOrder(entries);
      hide Shape, Size, Distinct, Less, Sorted, InNodeOrder;
      res := [];
      LevelZeroIsEverything(0);
      ForwardAt(-1, 0);
      var node := head.forward[0];
      ghost var i := 0;
      while node != null
        invariant 0 <= i <= |nodes| && node == PtrAt(nodes, i) && res == entries[..i]
        decreases |nodes| - i
      {
        res := res + [Version(node.key, node.value, node.tid)];
        ForwardAt(i, 0);
        LevelZeroIsEverything(i + 1);
        node := node.forward[0];
        i := i + 1;
      }
    }

    /** Any node with `pred` 0, walking right while `pred` is positive. */
    method FindSatisfying(pred: Key -> int) returns (r: Node?, ghost p: nat)
      requires Valid()
      ensures r != null ==> p < |nodes| && r == nodes[p] && pred(r.key) == 0
      ensures r == null && MonotoneOn(entries, pred) ==> forall v :: v in entries ==> pred(v.key) != 0
    {
      hide Linked, Size, Less, Sorted, MonotoneOn;
      var current := head;
      ghost var c := -1;
      var i := currentLevel;
      ghost var stop := |nodes|;
      while i > 0
        invariant 0 <= i <= currentLevel && -1 <= c < stop <= |nodes| && current == At(head, nodes, c) && On(hs, c, i)
        invariant c >= 0 ==> pred(entries[c].key) > 0
        invariant stop < |nodes| ==> pred(entries[stop].key) < 0
        invariant i == 0 ==> stop == c + 1
      {
        i := i - 1;
        ForwardAt(c, i);
        stop := Next(hs, c, i);
        while current.forward[i] != null && pred(current.forward[i].key) > 0
          invariant -1 <= c < |nodes| && current == At(head, nodes, c) && On(hs, c, i)
          invariant c >= 0 ==> pred(entries[c].key) > 0
          invariant i < |current.forward| && stop == Next(hs, c, i) && current.forward[i] == PtrAt(nodes, stop)
          decreases |nodes| - c
        {
          c := stop;
          current := current.forward[i];
          ForwardAt(c, i);
          stop := Next(hs, c, i);
        }
        if current.forward[i] != null && pred(current.forward[i].key) == 0 {
          return current.forward[i], stop;
        }
        if i == 0 {
          LevelZeroIsEverything(c + 1);
        }
      }
      if MonotoneOn(entries, pred) {
        EmptyRun(entries, pred, c);
      }
      r, p := null, 0;
    }

    /** What the node at `p` carries on level `i`: its neighbours there, or nothing above
        its own tower. */
    lemma LinksOf(p: nat, i: nat)
      requires Linked() && p < |nodes| && i < |nodes[p].forward|
      ensures |nodes[p].forward| == |nodes[p].backward| <= maxLevel
      ensures nodes[p].forward[i] == if On(hs, p, i) then PtrAt(nodes, Next(hs, p, i)) else null
      ensures nodes[p].backward[i] == if On(hs, p, i) then At(head, nodes, Prev(hs, p, i)) else null
    {
      var net := NetOf(head, nodes);
      assert TowerTop(net.fs[p + 1], net.bs[p + 1], hs[p], maxLevel);
      if On(hs, p, i) {
        assert LevelLinked(net, head, nodes, hs, i);
        assert LinkAt(net, head, nodes, hs, i, p);
      }
    }

    lemma TowerSizes(p: nat)
      requires Linked() && p < |nodes|
      ensures hs[p] <= |nodes[p].forward| == |nodes[p].backward| <= maxLevel
    {
      var net := NetOf(head, nodes);
      assert TowerTop(net.fs[p + 1], net.bs[p + 1], hs[p], maxLevel);
    }

    /** On every level of a node or of the head, the node a forward link leads to links
        back. */
    lemma ForwardThenBack(p: int, i: nat)
      requires Valid() && -1 <= p < |nodes| && i < |At(head, nodes, p).forward| && At(head, nodes, p).forward[i] != null
      ensures var o := At(head, nodes, p);
              i < |o.forward[i].backward| && o.forward[i].backward[i] == o
    {
      hide Size, Sorted, VersionsOf;
      HeadSize();
      if p >= 0 {
        LinksOf(p, i);
      } else {
        ForwardAt(p, i);
      }
      NextPrev(hs, p, i);
      var q := Next(hs, p, i);
      TowerSizes(q);
      LinksOf(q, i);
    }

    /** And the node or head a backward link leads to links forward again. */
    lemma BackThenForward(p: nat, i: nat)
      requires Valid() && p < |nodes| && i < |nodes[p].backward| && nodes[p].backward[i] != null
      ensures var o := nodes[p].backward[i];
              i < |o.forward| && o.forward[i] == nodes[p]
    {
      hide Size, Sorted, VersionsOf;
      TowerSizes(p);
      LinksOf(p, i);
      PrevNext(hs, p, i);
      ForwardAt(Prev(hs, p, i), i);
    }

    lemma HeadSize()
      requires Linked()
      ensures |head.forward| <= maxLevel
    {
      assert NetOf(head, nodes).fs[0] == head.forward;
    }

    /** Follow backward links from a satisfying node to the first one of its run, or stop
        where the predicate says "go left" (the source throws). */
    method WalkToFirst(from: Node, ghost p: nat, pred: Key -> int) returns (current: Node, ghost lo: nat, thrown: bool)
      requires Valid() && p < |nodes| && from == nodes[p] && pred(from.key) == 0
      ensures lo <= p && current == nodes[lo] && pred(current.key) == 0
      ensures !thrown && lo > 0 ==> pred(entries[lo - 1].key) > 0
      ensures thrown ==> lo > 0 && exists q :: 0 <= q < lo && pred(entries[q].key) < 0
    {
      hide Shape, Size, Less, Sorted;
      current, lo, thrown := from, p, false;
      TowerSizes(p);
      var i := |current.backward|;
      while i > 0
        invariant 0 <= i && lo <= p && current == nodes[lo] && pred(current.key) == 0
        invariant i <= |current.backward| == |current.forward|
        invariant i == 0 && lo > 0 ==> pred(entries[lo - 1].key) > 0
      {
        i := i - 1;
        LinksOf(lo, i);
        while current.backward[i] != null && current.backward[i] != head && pred(current.backward[i].key) == 0
          invariant lo <= p && current == nodes[lo] && pred(current.key) == 0
          invariant i < |current.forward| == |current.backward|
          invariant current.backward[i] == if On(hs, lo, i) then At(head, nodes, Prev(hs, lo, i)) else null
          decreases lo
        {
          current, lo := current.backward[i], Prev(hs, lo, i);
          TowerSizes(lo);
          LinksOf(lo, i);
        }
        if current.backward[i] != null && current.backward[i] != head && pred(current.backward[i].key) < 0 {
          thrown := true;
          assert pred(entries[Prev(hs, lo, i)].key) < 0;
          return;
        }
        if i == 0 {
          LevelZeroIsEverything(lo);
        }
      }
    }

    /** Follow forward links to the last node of the run. */
    method WalkToLast(from: Node, ghost p: nat, pred: Key -> int) returns (current: Node, ghost last: nat, thrown: bool)
      requires Valid() && p < |nodes| && from == nodes[p] && pred(from.key) == 0
      ensures p <= last < |nodes| && current == nodes[last] && pred(current.key) == 0
      ensures !thrown && last + 1 < |nodes| ==> pred(entries[last + 1].key) < 0
      ensures thrown ==> exists q :: last < q < |nodes| && pred(entries[q].key) > 0
    {
      hide Shape, Size, Less, Sorted;
      current, last, thrown := from, p, false;
      TowerSizes(p);
      var i := |current.forward|;
      while i > 0
        invariant 0 <= i && p <= last < |nodes| && current == nodes[last] && pred(current.key) == 0
        invariant i <= |current.forward|
        invariant i == 0 && last + 1 < |nodes| ==> pred(entries[last + 1].key) < 0
      {
        i := i - 1;
        LinksOf(last, i);
        while current.forward[i] != null && pred(current.forward[i].key) == 0
          invariant p <= last < |nodes| && current == nodes[last] && pred(current.key) == 0
          invariant i < |current.forward|
          invariant current.forward[i] == if On(hs, last, i) then PtrAt(nodes, Next(hs, last, i)) else null
          decreases |nodes| - last
        {
          current, last := current.forward[i], Next(hs, last, i);
          TowerSizes(last);
          LinksOf(last, i);
        }
        if current.forward[i] != null && pred(current.forward[i].key) > 0 {
          thrown := true;
          assert pred(entries[Next(hs, last, i)].key) > 0;
          return;
        }
        if i == 0 {
          LevelZeroIsEverything(last + 1);
        }
      }
    }

    /** The maximal run of nodes where `pred` is 0. Whatever `pred` is the walks end; when
        it is monotone on the stored keys no direction is ever invalid. */
    method ItersMonotonyPredicate(pred: Key -> int) returns (r: NodeRange, ghost lo: nat, ghost hi: nat)
      requires Valid()
      ensures match r
              case Nothing => MonotoneOn(entries, pred) ==> forall v :: v in entries ==> pred(v.key) != 0
              case InvalidDirection => !MonotoneOn(entries, pred)
              case Found(b, e) =>
                && lo < hi <= |nodes| && b == nodes[lo] && e == PtrAt(nodes, hi)
                && (MonotoneOn(entries, pred) ==> Selects(entries, pred, lo, hi))
    {
      hide Linked, Size, Less, Sorted, MonotoneOn, Selects, VersionsOf, Distinct;
      lo, hi := 0, 0;
      var found, p := FindSatisfying(pred);
      if found == null {
        return Nothing, lo, hi;
      }
      var first, l, thrown := WalkToFirst(found, p, pred);
      if thrown {
        ghost var q :| 0 <= q < l && pred(entries[q].key) < 0;
        NotMonotone(entries, pred, q, l);
        return InvalidDirection, lo, hi;
      }
      var current2, last, thrown2 := WalkToLast(found, p, pred);
      if thrown2 {
        ghost var q :| last < q < |nodes| && pred(entries[q].key) > 0;
        NotMonotone(entries, pred, last, q);
        return InvalidDirection, lo, hi;
      }
      if MonotoneOn(entries, pred) {
        MaximalRun(entries, pred, l, last);
      }
      lo, hi := l, last + 1;
      LevelZeroIsEverything(last + 1);
      ForwardAt(last, 0);
      r := Found(first, current2.forward[0]);
    }

    /** The versions from `begin` up to `end`, walking level 0. */
    method CollectRange(begin: Node, end: Node?, ghost lo: nat, ghost hi: nat) returns (vs: seq<Version>)
      requires Valid() && lo < hi <= |nodes| && begin == nodes[lo] && end == PtrAt(nodes, hi)
      ensures vs == entries[lo..hi]
    {
      hide Linked, Size, Less, Sorted;
      vs := [];
      var node: Node? := begin;
      ghost var i := lo;
      while node != end
        invariant lo <= i <= hi && node == PtrAt(nodes, i) && vs == entries[lo..i]
        decreases hi - i
      {
        vs := vs + [Version(node.key, node.value, node.tid)];
        LevelZeroIsEverything(i + 1);
        ForwardAt(i, 0);
        node := node.forward[0];
        i := i + 1;
      }
    }
  }
}
