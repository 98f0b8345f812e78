/** The locks of memtable, engine, cache, log and transaction manager as a step system:
    whatever threads run and however they interleave, none waits for ever, and none meets
    another in what a lock guards. */
module Locks {
  datatype Mutex = Frozen | Cur | Ssts | LogFile | Manager | Cache

  datatype Lock = Lock(mutex: Mutex, exclusive: bool)

  /** What threads share. `NodeValues` are the values in the nodes of the current table. */
  datatype Component = CurrentTable | NodeValues | FrozenList | Index | Blocks | LogBuffer | Ids

  datatype Access = Access(component: Component, write: bool)

  /** A stretch of code that reads or writes shared components. */
  datatype Section =
    | Putting
    | Sizing
    | FrozenSizing
    | Freezing
    | TakingOldest
    | Reading
    | UsingNode
    | Clearing
    | Searching
    | Installing
    | Caching
    | Numbering
    | Logging
    | Checking

  datatype Act = Acquire(lock: Lock) | Release(lock: Lock) | Enter(section: Section) | Leave(section: Section)

  function Reads(c: Component): Access {
    Access(c, false)
  }

  function Writes(c: Component): Access {
    Access(c, true)
  }

  function Footprint(x: Section): (accesses: set<Access>) {
    match x
    case Putting => {Writes(CurrentTable), Writes(NodeValues)}
    case Sizing => {Reads(CurrentTable)}
    case FrozenSizing => {Reads(FrozenList)}
    case Freezing => {Writes(CurrentTable), Writes(FrozenList)}
    case TakingOldest => {Writes(FrozenList)}
    case Reading => {Reads(CurrentTable), Reads(NodeValues), Reads(FrozenList)}
    case UsingNode => {Reads(NodeValues)}
    case Clearing => {Writes(CurrentTable), Writes(FrozenList)}
    case Searching => {Reads(Index)}
    case Installing => {Writes(Index)}
    case Caching => {Writes(Blocks)}
    case Numbering => {Writes(Ids)}
    case Logging => {Writes(LogBuffer)}
    case Checking => {Reads(CurrentTable), Reads(NodeValues), Reads(FrozenList)}
  }

  /** Two stretches that must not overlap: they share a component and one writes it. */
  predicate Conflict(a: Section, b: Section) {
    exists x, y :: x in Footprint(a) && y in Footprint(b) && x.component == y.component && (x.write || y.write)
  }

  /** What runs under no lock: looking at a node after the read that found it has given up
      its locks, and putting a flushed file into the index. */
  predicate Unguarded(x: Section) {
    x == UsingNode || x == Installing
  }

  function Guard(c: Component): (m: Mutex) {
    match c
    case CurrentTable => Cur
    case NodeValues => Cur
    case FrozenList => Frozen
    case Index => Ssts
    case Blocks => Cache
    case LogBuffer => LogFile
    case Ids => Manager
  }

  /** The order every operation takes its locks in. */
  function Rank(m: Mutex): nat {
    match m
    case Frozen => 0
    case Cur => 1
    case Ssts => 2
    case LogFile => 3
    case Manager => 4
    case Cache => 5
  }

  // ----- what the operations lock

  function Under(l: Lock, body: seq<Act>): seq<Act> {
    [Acquire(l)] + body + [Release(l)]
  }

  function Exclusive(m: Mutex, body: seq<Act>): seq<Act> {
    Under(Lock(m, true), body)
  }

  function Shared(m: Mutex, body: seq<Act>): seq<Act> {
    Under(Lock(m, false), body)
  }

  function Within(x: Section, body: seq<Act>): seq<Act> {
    [Enter(x)] + body + [Leave(x)]
  }

  function Brief(x: Section): seq<Act> {
    Within(x, [])
  }

  /** `blocks` visits of the block cache. */
  function CacheUses(blocks: nat): seq<Act> {
    if blocks == 0 then [] else Exclusive(Cache, Brief(Caching)) + CacheUses(blocks - 1)
  }

  function SstGets(lookups: seq<nat>): seq<Act> {
    if lookups == [] then [] else Shared(Ssts, Within(Searching, CacheUses(lookups[0]))) + SstGets(lookups[1..])
  }

  datatype Operation =
    | MemtablePut
    | GetCurSize
    | GetFrozenSize
    | FrozenCurTable
    | FlushLast(currentToo: bool)
    | MemtableRead
    | UseNode
    | MemtableClear
    | SstGet(blocks: nat)
    | InstallFile
    | NewTranc
    | CommitUncommitted
    | CommitCommitted
    | CommitChecked(lookups: seq<nat>, conflict: bool)

  /** Writing the log, then recording the finished id. */
  function FinishCommit(): seq<Act> {
    Exclusive(LogFile, Brief(Logging)) + Exclusive(Manager, Brief(Numbering))
  }

  /** Commits at ReadUncommitted, at ReadCommitted and, `CommitChecked`, from RepeatableRead
      up hold more and more locks. `SstGet` is the part of an engine read behind the
      memtable: it takes `ssts_mtx` for reading twice. */
  function Acts(op: Operation): (acts: seq<Act>) {
    match op
    case MemtablePut => Exclusive(Cur, Brief(Putting))
    case GetCurSize => Shared(Cur, Brief(Sizing))
    case GetFrozenSize => Shared(Frozen, Brief(FrozenSizing))
    case FrozenCurTable => Exclusive(Frozen, Exclusive(Cur, Brief(Freezing)))
    case FlushLast(currentToo) =>
      Exclusive(Frozen, Within(TakingOldest, if currentToo then Exclusive(Cur, Brief(Freezing)) else []))
    case MemtableRead => Shared(Frozen, Shared(Cur, Brief(Reading)))
    case UseNode => Brief(UsingNode)
    case MemtableClear => Exclusive(Frozen, Exclusive(Cur, Brief(Clearing)))
    case SstGet(blocks) => Shared(Ssts, SstGets([blocks]))
    case InstallFile => Brief(Installing)
    case NewTranc => Exclusive(Manager, Brief(Numbering))
    case CommitUncommitted => FinishCommit()
    case CommitCommitted => Exclusive(Frozen, Exclusive(Cur, FinishCommit()))
    case CommitChecked(lookups, conflict) =>
      Exclusive(Frozen, Exclusive(Cur,
        Shared(Ssts, Within(Checking, SstGets(lookups))) + if conflict then [] else FinishCommit()))
  }

  /** What one thread runs: any sequence of operations. Engine operations are such
      sequences: a put is MemtablePut, GetCurSize and perhaps a flush, which ends in
      InstallFile; a read is MemtableRead and then UseNode or SstGet. */
  function Program(ops: seq<Operation>): (acts: seq<Act>) {
    if ops == [] then [] else Acts(ops[0]) + Program(ops[1..])
  }

  // ----- the rule the operations follow

  /** The locks held guard everything `x` touches, exclusively what it writes. */
  predicate Covers(held: multiset<Lock>, x: Section) {
    forall a :: a in Footprint(x) ==>
      Lock(Guard(a.component), true) in held || (!a.write && Lock(Guard(a.component), false) in held)
  }

  predicate CoversAll(held: multiset<Lock>, inside: multiset<Section>) {
    forall x :: x in inside ==> Unguarded(x) || Covers(held, x)
  }

  /** Locks are taken in ascending order, `ssts_mtx` only for reading and perhaps again;
      every section but the unguarded ones runs under its locks; and in the end everything
      is released and left. */
  predicate Ordered(todo: seq<Act>, held: multiset<Lock>, inside: multiset<Section>)
    decreases todo
  {
    if todo == [] then held == multiset{} && inside == multiset{}
    else match todo[0]
      case Acquire(l) => MayTake(held, l) && Ordered(todo[1..], held + multiset{l}, inside)
      case Release(l) =>
        l in held && CoversAll(held - multiset{l}, inside) && Ordered(todo[1..], held - multiset{l}, inside)
      case Enter(x) => (Unguarded(x) || Covers(held, x)) && Ordered(todo[1..], held, inside + multiset{x})
      case Leave(x) => x in inside && Ordered(todo[1..], held, inside - multiset{x})
  }

  predicate MayTake(held: multiset<Lock>, l: Lock) {
    && (l.mutex == Ssts ==> !l.exclusive)
    && forall h :: h in held ==> Rank(h.mutex) < Rank(l.mutex) || h.mutex == l.mutex == Ssts
  }

  /** `body` keeps the rule from here on, and gives back what it took. */
  ghost predicate Nests(body: seq<Act>, held: multiset<Lock>, inside: multiset<Section>) {
    forall rest :: Ordered(rest, held, inside) ==> Ordered(body + rest, held, inside)
  }

  lemma NestsUnder(l: Lock, body: seq<Act>, held: multiset<Lock>, inside: multiset<Section>)
    requires MayTake(held, l) && CoversAll(held, inside) && Nests(body, held + multiset{l}, inside)
    ensures Nests(Under(l, body), held, inside)
  {
    hide MayTake, CoversAll;
    forall rest | Ordered(rest, held, inside) ensures Ordered(Under(l, body) + rest, held, inside) {
      var after := [Release(l)] + rest;
      assert after[1..] == rest && held + multiset{l} - multiset{l} == held;
      assert Ordered(after, held + multiset{l}, inside);
      assert (Under(l, body) + rest)[1..] == body + after;
    }
  }

  lemma NestsWithin(x: Section, body: seq<Act>, held: multiset<Lock>, inside: multiset<Section>)
    requires Unguarded(x) || Covers(held, x)
    requires Nests(body, held, inside + multiset{x})
    ensures Nests(Within(x, body), held, inside)
  {
    hide Covers;
    forall rest | Ordered(rest, held, inside) ensures Ordered(Within(x, body) + rest, held, inside) {
      var after := [Leave(x)] + rest;
      assert after[1..] == rest && inside + multiset{x} - multiset{x} == inside;
      assert Ordered(after, held, inside + multiset{x});
      assert (Within(x, body) + rest)[1..] == body + after;
    }
  }

  lemma NestsNothing(held: multiset<Lock>, inside: multiset<Section>)
    ensures Nests([], held, inside)
  {
    forall rest | Ordered(rest, held, inside) ensures Ordered([] + rest, held, inside) {
      assert [] + rest == rest;
    }
  }

  lemma NestsBoth(a: seq<Act>, b: seq<Act>, held: multiset<Lock>, inside: multiset<Section>)
    requires Nests(a, held, inside) && Nests(b, held, inside)
    ensures Nests(a + b, held, inside)
  {
    forall rest | Ordered(rest, held, inside) ensures Ordered((a + b) + rest, held, inside) {
      assert (a + b) + rest == a + (b + rest);
    }
  }

  lemma NestsBrief(x: Section, held: multiset<Lock>, inside: multiset<Section>)
    requires Unguarded(x) || Covers(held, x)
    ensures Nests(Brief(x), held, inside)
  {
    NestsNothing(held, inside + multiset{x});
    NestsWithin(x, [], held, inside);
  }

  /** One section under one more lock. */
  lemma NestsLeaf(l: Lock, x: Section, held: multiset<Lock>, inside: multiset<Section>)
    requires MayTake(held, l) && CoversAll(held, inside) && (Unguarded(x) || Covers(held + multiset{l}, x))
    ensures Nests(Under(l, Brief(x)), held, inside)
  {
    NestsBrief(x, held + multiset{l}, inside);
    NestsUnder(l, Brief(x), held, inside);
  }

  lemma {:induction false} CacheUsesNest(blocks: nat, held: multiset<Lock>, inside: multiset<Section>)
    requires MayTake(held, Lock(Cache, true)) && CoversAll(held, inside)
    ensures Nests(CacheUses(blocks), held, inside)
  {
    hide Nests, MayTake, CoversAll;
    NestsNothing(held, inside);
    if blocks > 0 {
      NestsLeaf(Lock(Cache, true), Caching, held, inside);
      CacheUsesNest(blocks - 1, held, inside);
      NestsBoth(Exclusive(Cache, Brief(Caching)), CacheUses(blocks - 1), held, inside);
    }
  }

  lemma CoveredMore(held: multiset<Lock>, inside: multiset<Section>, l: Lock)
    requires CoversAll(held, inside)
    ensures CoversAll(held + multiset{l}, inside)
  {
  }

  lemma CoveredInside(held: multiset<Lock>, inside: multiset<Section>, x: Section)
    requires CoversAll(held, inside) && (Unguarded(x) || Covers(held, x))
    ensures CoversAll(held, inside + multiset{x})
  {
  }

  lemma {:induction false} SstGetsNest(lookups: seq<nat>, held: multiset<Lock>, inside: multiset<Section>)
    requires MayTake(held, Lock(Ssts, false)) && CoversAll(held, inside)
    ensures Nests(SstGets(lookups), held, inside)
  {
    NestsNothing(held, inside);
    if lookups != [] {
      var l := Lock(Ssts, false);
      var held' := held + multiset{l};
      CoveredMore(held, inside, l);
      CoveredInside(held', inside, Searching);
      hide Nests, CoversAll;
      CacheUsesNest(lookups[0], held', inside + multiset{Searching});
      NestsWithin(Searching, CacheUses(lookups[0]), held', inside);
      NestsUnder(l, Within(Searching, CacheUses(lookups[0])), held, inside);
      SstGetsNest(lookups[1..], held, inside);
      NestsBoth(Shared(Ssts, Within(Searching, CacheUses(lookups[0]))), SstGets(lookups[1..]), held, inside);
    }
  }

  const NO_LOCKS: multiset<Lock> := multiset{}
  const NOWHERE: multiset<Section> := multiset{}

  lemma FinishNests(held: multiset<Lock>)
    requires MayTake(held, Lock(LogFile, true)) && MayTake(held, Lock(Manager, true))
    ensures Nests(FinishCommit(), held, NOWHERE)
  {
    hide Nests;
    NestsLeaf(Lock(LogFile, true), Logging, held, NOWHERE);
    NestsLeaf(Lock(Manager, true), Numbering, held, NOWHERE);
    NestsBoth(Exclusive(LogFile, Brief(Logging)), Exclusive(Manager, Brief(Numbering)), held, NOWHERE);
  }

  /** Anything under both memtable locks. */
  lemma NestsMemtable(exclusive: bool, body: seq<Act>)
    requires Nests(body, NO_LOCKS + multiset{Lock(Frozen, exclusive)} + multiset{Lock(Cur, exclusive)}, NOWHERE)
    ensures Nests(Under(Lock(Frozen, exclusive), Under(Lock(Cur, exclusive), body)), NO_LOCKS, NOWHERE)
  {
    hide Nests;
    var frozen, cur := Lock(Frozen, exclusive), Lock(Cur, exclusive);
    NestsUnder(cur, body, NO_LOCKS + multiset{frozen}, NOWHERE);
    NestsUnder(frozen, Under(cur, body), NO_LOCKS, NOWHERE);
  }

  lemma CommitNests(lookups: seq<nat>, conflict: bool)
    ensures Nests(Acts(CommitChecked(lookups, conflict)), NO_LOCKS, NOWHERE)
  {
    hide Nests;
    var ssts := Lock(Ssts, false);
    var held := NO_LOCKS + multiset{Lock(Frozen, true)} + multiset{Lock(Cur, true)};
    var body := Within(Checking, SstGets(lookups));
    var tail := if conflict then [] else FinishCommit();
    SstGetsNest(lookups, held + multiset{ssts}, NOWHERE + multiset{Checking});
    NestsWithin(Checking, SstGets(lookups), held + multiset{ssts}, NOWHERE);
    NestsUnder(ssts, body, held, NOWHERE);
    FinishNests(held);
    NestsNothing(held, NOWHERE);
    NestsBoth(Shared(Ssts, body), tail, held, NOWHERE);
    NestsMemtable(true, Shared(Ssts, body) + tail);
  }

  lemma FlushNests(currentToo: bool)
    ensures Nests(Acts(FlushLast(currentToo)), NO_LOCKS, NOWHERE)
  {
    hide Nests;
    var frozen, cur := Lock(Frozen, true), Lock(Cur, true);
    var held, inside := NO_LOCKS + multiset{frozen}, NOWHERE + multiset{TakingOldest};
    var body := if currentToo then Exclusive(Cur, Brief(Freezing)) else [];
    NestsLeaf(cur, Freezing, held, inside);
    NestsNothing(held, inside);
    NestsWithin(TakingOldest, body, held, NOWHERE);
    NestsUnder(frozen, Within(TakingOldest, body), NO_LOCKS, NOWHERE);
  }

  lemma MemtableNests(op: Operation)
    requires op in {FrozenCurTable, MemtableRead, MemtableClear, CommitCommitted}
    ensures Nests(Acts(op), NO_LOCKS, NOWHERE)
  {
    hide Nests;
    var both := NO_LOCKS + multiset{Lock(Frozen, true)} + multiset{Lock(Cur, true)};
    if op == FrozenCurTable {
      NestsBrief(Freezing, both, NOWHERE);
      NestsMemtable(true, Brief(Freezing));
    } else if op == MemtableRead {
      NestsBrief(Reading, NO_LOCKS + multiset{Lock(Frozen, false)} + multiset{Lock(Cur, false)}, NOWHERE);
      NestsMemtable(false, Brief(Reading));
    } else if op == MemtableClear {
      NestsBrief(Clearing, both, NOWHERE);
      NestsMemtable(true, Brief(Clearing));
    } else {
      FinishNests(both);
      NestsMemtable(true, FinishCommit());
    }
  }

  /** An operation of one section under one lock. */
  lemma OneSectionNests(l: Lock, x: Section)
    requires l.mutex != Ssts && Covers(NO_LOCKS + multiset{l}, x)
    ensures Nests(Under(l, Brief(x)), NO_LOCKS, NOWHERE)
  {
    NestsLeaf(l, x, NO_LOCKS, NOWHERE);
  }

  lemma SearchNests(blocks: nat)
    ensures Nests(Acts(SstGet(blocks)), NO_LOCKS, NOWHERE)
  {
    hide Nests, SstGets;
    SstGetsNest([blocks], NO_LOCKS + multiset{Lock(Ssts, false)}, NOWHERE);
    NestsUnder(Lock(Ssts, false), SstGets([blocks]), NO_LOCKS, NOWHERE);
  }

  lemma ActsNest(op: Operation)
    ensures Nests(Acts(op), NO_LOCKS, NOWHERE)
  {
    hide Nests;
    match op {
      case MemtablePut => OneSectionNests(Lock(Cur, true), Putting);
      case GetCurSize => OneSectionNests(Lock(Cur, false), Sizing);
      case GetFrozenSize => OneSectionNests(Lock(Frozen, false), FrozenSizing);
      case FlushLast(currentToo) => FlushNests(currentToo);
      case UseNode => NestsBrief(UsingNode, NO_LOCKS, NOWHERE);
      case SstGet(blocks) => SearchNests(blocks);
      case InstallFile => NestsBrief(Installing, NO_LOCKS, NOWHERE);
      case NewTranc => OneSectionNests(Lock(Manager, true), Numbering);
      case CommitUncommitted => FinishNests(NO_LOCKS);
      case CommitChecked(lookups, conflict) => CommitNests(lookups, conflict);
      case _ => MemtableNests(op);
    }
  }

  lemma {:induction false} ProgramOrdered(ops: seq<Operation>)
    ensures Ordered(Program(ops), NO_LOCKS, NOWHERE)
  {
    if ops != [] {
      ProgramOrdered(ops[1..]);
      ActsNest(ops[0]);
    }
  }

  // ----- the work an operation does

  function Entered(acts: seq<Act>): (work: seq<Section>) {
    if acts == [] then [] else Mark(acts[0]) + Entered(acts[1..])
  }

  function Mark(act: Act): seq<Section> {
    if act.Enter? then [act.section] else []
  }

  function Repeated(x: Section, n: nat): (work: seq<Section>) {
    if n == 0 then [] else [x] + Repeated(x, n - 1)
  }

  function Lookups(lookups: seq<nat>): (work: seq<Section>) {
    if lookups == [] then [] else [Searching] + Repeated(Caching, lookups[0]) + Lookups(lookups[1..])
  }

  /** The sections an operation passes through, in order. */
  function Work(op: Operation): (work: seq<Section>) {
    match op
    case MemtablePut => [Putting]
    case GetCurSize => [Sizing]
    case GetFrozenSize => [FrozenSizing]
    case FrozenCurTable => [Freezing]
    case FlushLast(currentToo) => if currentToo then [TakingOldest, Freezing] else [TakingOldest]
    case MemtableRead => [Reading]
    case UseNode => [UsingNode]
    case MemtableClear => [Clearing]
    case SstGet(blocks) => Lookups([blocks])
    case InstallFile => [Installing]
    case NewTranc => [Numbering]
    case CommitUncommitted => [Logging, Numbering]
    case CommitCommitted => [Logging, Numbering]
    case CommitChecked(lookups, conflict) =>
      [Checking] + Lookups(lookups) + if conflict then [] else [Logging, Numbering]
  }

  lemma {:induction false} EnteredBoth(a: seq<Act>, b: seq<Act>)
    ensures Entered(a + b) == Entered(a) + Entered(b)
  {
    hide Mark;
    if a == [] {
      assert a + b == b;
    } else {
      EnteredBoth(a[1..], b);
      assert (a + b)[1..] == a[1..] + b && (a + b)[0] == a[0];
      Associate(Mark(a[0]), Entered(a[1..]), Entered(b));
    }
  }

  lemma Associate(x: seq<Section>, y: seq<Section>, z: seq<Section>)
    ensures x + (y + z) == (x + y) + z
  {
  }

  lemma EnteredUnder(l: Lock, body: seq<Act>)
    ensures Entered(Under(l, body)) == Entered(body)
  {
    EnteredBoth([Acquire(l)] + body, [Release(l)]);
    EnteredBoth([Acquire(l)], body);
    assert [Acquire(l)][1..] == [] && [Release(l)][1..] == [];
  }

  lemma EnteredWithin(x: Section, body: seq<Act>)
    ensures Entered(Within(x, body)) == [x] + Entered(body)
  {
    EnteredBoth([Enter(x)] + body, [Leave(x)]);
    EnteredBoth([Enter(x)], body);
    assert [Enter(x)][1..] == [] && [Leave(x)][1..] == [];
  }

  lemma {:induction false} CacheUsesWork(blocks: nat)
    ensures Entered(CacheUses(blocks)) == Repeated(Caching, blocks)
  {
    if blocks > 0 {
      CacheUsesWork(blocks - 1);
      EnteredBoth(Exclusive(Cache, Brief(Caching)), CacheUses(blocks - 1));
      EnteredUnder(Lock(Cache, true), Brief(Caching));
      EnteredWithin(Caching, []);
    }
  }

  lemma {:induction false} SstGetsWork(lookups: seq<nat>)
    ensures Entered(SstGets(lookups)) == Lookups(lookups)
  {
    if lookups != [] {
      hide Entered;
      var body := CacheUses(lookups[0]);
      SstGetsWork(lookups[1..]);
      CacheUsesWork(lookups[0]);
      EnteredBoth(Shared(Ssts, Within(Searching, body)), SstGets(lookups[1..]));
      EnteredUnder(Lock(Ssts, false), Within(Searching, body));
      EnteredWithin(Searching, body);
    } else {
      assert Entered([]) == [];
    }
  }

  lemma FinishWork()
    ensures Entered(FinishCommit()) == [Logging, Numbering] && Entered([]) == []
  {
    EnteredBoth(Exclusive(LogFile, Brief(Logging)), Exclusive(Manager, Brief(Numbering)));
    EnteredUnder(Lock(LogFile, true), Brief(Logging));
    EnteredUnder(Lock(Manager, true), Brief(Numbering));
    EnteredWithin(Logging, []);
    EnteredWithin(Numbering, []);
  }

  lemma TwoLocksWork(exclusive: bool, body: seq<Act>)
    ensures Entered(Under(Lock(Frozen, exclusive), Under(Lock(Cur, exclusive), body))) == Entered(body)
  {
    EnteredUnder(Lock(Cur, exclusive), body);
    EnteredUnder(Lock(Frozen, exclusive), Under(Lock(Cur, exclusive), body));
  }

  lemma BriefWork(x: Section)
    ensures Entered(Brief(x)) == [x]
  {
    EnteredWithin(x, []);
  }

  lemma LeafWork(l: Lock, x: Section)
    ensures Entered(Under(l, Brief(x))) == [x]
  {
    BriefWork(x);
    EnteredUnder(l, Brief(x));
  }

  /** Every operation passes through exactly its sections. */
  lemma ActsDoWork(op: Operation)
    ensures Entered(Acts(op)) == Work(op)
  {
    FinishWork();
    hide Entered, FinishCommit, Under, Within, Brief;
    match op {
      case MemtablePut => LeafWork(Lock(Cur, true), Putting);
      case GetCurSize => LeafWork(Lock(Cur, false), Sizing);
      case GetFrozenSize => LeafWork(Lock(Frozen, false), FrozenSizing);
      case FrozenCurTable =>
        BriefWork(Freezing);
        TwoLocksWork(true, Brief(Freezing));
      case FlushLast(currentToo) =>
        var body := if currentToo then Exclusive(Cur, Brief(Freezing)) else [];
        LeafWork(Lock(Cur, true), Freezing);
        EnteredWithin(TakingOldest, body);
        EnteredUnder(Lock(Frozen, true), Within(TakingOldest, body));
      case MemtableRead =>
        BriefWork(Reading);
        TwoLocksWork(false, Brief(Reading));
      case UseNode => BriefWork(UsingNode);
      case MemtableClear =>
        BriefWork(Clearing);
        TwoLocksWork(true, Brief(Clearing));
      case SstGet(blocks) =>
        SstGetsWork([blocks]);
        EnteredUnder(Lock(Ssts, false), SstGets([blocks]));
      case InstallFile => BriefWork(Installing);
      case NewTranc => LeafWork(Lock(Manager, true), Numbering);
      case CommitUncommitted =>
      case CommitCommitted => TwoLocksWork(true, FinishCommit());
      case CommitChecked(lookups, conflict) =>
        var body := Within(Checking, SstGets(lookups));
        var tail := if conflict then [] else FinishCommit();
        SstGetsWork(lookups);
        EnteredWithin(Checking, SstGets(lookups));
        EnteredUnder(Lock(Ssts, false), body);
        EnteredBoth(Shared(Ssts, body), tail);
        TwoLocksWork(true, Shared(Ssts, body) + tail);
    }
  }

  // ----- threads

  datatype Thread = Thread(todo: seq<Act>, held: multiset<Lock>, inside: multiset<Section>)

  type System = seq<Thread>

  ghost predicate Wants(s: System, i: nat, l: Lock) {
    i < |s| && s[i].todo != [] && s[i].todo[0] == Acquire(l)
  }

  ghost predicate Holds(s: System, i: nat, l: Lock) {
    i < |s| && l in s[i].held
  }

  /** A lock is granted when no other thread holds the mutex in a mode that excludes it;
      a reader also lets waiting writers go first. An exclusive request needs that not
      even the thread itself holds the mutex. */
  ghost predicate Granted(s: System, i: nat, l: Lock) {
    && (forall j, h :: Holds(s, j, h) && h.mutex == l.mutex ==> !h.exclusive && !l.exclusive)
    && (!l.exclusive ==> forall j :: j != i ==> !Wants(s, j, Lock(l.mutex, true)))
  }

  ghost predicate CanStep(s: System, i: nat) {
    i < |s| && s[i].todo != [] && (s[i].todo[0].Acquire? ==> Granted(s, i, s[i].todo[0].lock))
  }

  ghost function Next(s: System, i: nat): System
    requires CanStep(s, i)
  {
    match s[i].todo[0]
    case Acquire(l) => s[i := Thread(s[i].todo[1..], s[i].held + multiset{l}, s[i].inside)]
    case Release(l) => s[i := Thread(s[i].todo[1..], s[i].held - multiset{l}, s[i].inside)]
    case Enter(x) => s[i := Thread(s[i].todo[1..], s[i].held, s[i].inside + multiset{x})]
    case Leave(x) => s[i := Thread(s[i].todo[1..], s[i].held, s[i].inside - multiset{x})]
  }

  function Started(threads: seq<seq<Operation>>): (s: System) {
    seq(|threads|, i requires 0 <= i < |threads| => Thread(Program(threads[i]), NO_LOCKS, NOWHERE))
  }

  /** A turn for a thread that cannot step changes nothing. */
  ghost function Run(s: System, turns: seq<nat>): System {
    if turns == [] then s
    else
      var r := Run(s, turns[..|turns| - 1]);
      var i := turns[|turns| - 1];
      if CanStep(r, i) then Next(r, i) else r
  }

  ghost predicate SstsShared(s: System) {
    forall i, h :: Holds(s, i, h) && h.mutex == Ssts ==> !h.exclusive
  }

  ghost predicate Exclusion(s: System) {
    forall i, j, h, g ::
      i != j && Holds(s, i, h) && Holds(s, j, g) && h.mutex == g.mutex ==> !h.exclusive && !g.exclusive
  }

  ghost predicate Safe(s: System) {
    && (forall i :: 0 <= i < |s| ==> Ordered(s[i].todo, s[i].held, s[i].inside) && CoversAll(s[i].held, s[i].inside))
    && SstsShared(s) && Exclusion(s)
  }

  predicate Done(s: System) {
    forall i :: 0 <= i < |s| ==> s[i].todo == []
  }

  /** The rule goes on for the thread that steps. */
  lemma NextOrdered(s: System, i: nat)
    requires Safe(s) && CanStep(s, i)
    ensures var t := Next(s, i)[i]; Ordered(t.todo, t.held, t.inside) && CoversAll(t.held, t.inside)
  {
    hide Granted, Exclusion, SstsShared, Covers;
    var t := s[i];
    assert Ordered(t.todo, t.held, t.inside) && CoversAll(t.held, t.inside);
    match t.todo[0] {
      case Acquire(l) => CoveredMore(t.held, t.inside, l);
      case Enter(x) => CoveredInside(t.held, t.inside, x);
      case _ =>
    }
  }

  lemma NextHolds(s: System, i: nat)
    requires CanStep(s, i)
    ensures forall j, h :: Holds(Next(s, i), j, h) ==> Holds(s, j, h) || (j == i && s[i].todo[0] == Acquire(h))
  {
  }

  lemma NextExcludes(s: System, i: nat)
    requires CanStep(s, i) && Exclusion(s)
    ensures Exclusion(Next(s, i))
  {
    var r := Next(s, i);
    NextHolds(s, i);
    forall j, k, h, g | j != k && Holds(r, j, h) && Holds(r, k, g) && h.mutex == g.mutex
      ensures !h.exclusive && !g.exclusive
    {
      assert Holds(s, j, h) || Holds(s, k, g);
    }
  }

  lemma NextShares(s: System, i: nat)
    requires CanStep(s, i) && SstsShared(s)
    requires s[i].todo[0].Acquire? ==> MayTake(s[i].held, s[i].todo[0].lock)
    ensures SstsShared(Next(s, i))
  {
    NextHolds(s, i);
  }

  lemma NextSafe(s: System, i: nat)
    requires Safe(s) && CanStep(s, i)
    ensures Safe(Next(s, i))
  {
    NextOrdered(s, i);
    MayTakeNext(s, i);
    NextExcludes(s, i);
    NextShares(s, i);
    hide Exclusion, SstsShared, Ordered, CoversAll, Granted;
  }

  lemma MayTakeNext(s: System, i: nat)
    requires Safe(s) && CanStep(s, i)
    ensures s[i].todo[0].Acquire? ==> MayTake(s[i].held, s[i].todo[0].lock)
  {
    assert Ordered(s[i].todo, s[i].held, s[i].inside);
  }

  /** No two threads ever hold a mutex in modes that exclude each other. */
  lemma {:induction false} RunSafe(threads: seq<seq<Operation>>, turns: seq<nat>)
    ensures Safe(Run(Started(threads), turns))
  {
    if turns == [] {
      forall i | 0 <= i < |threads| ensures Ordered(Program(threads[i]), NO_LOCKS, NOWHERE) {
        ProgramOrdered(threads[i]);
      }
    } else {
      var n := |turns| - 1;
      RunSafe(threads, turns[..n]);
      var r := Run(Started(threads), turns[..n]);
      if CanStep(r, turns[n]) {
        NextSafe(r, turns[n]);
      }
    }
  }

  // ----- progress

  /** The thread wanting the mutex of the highest rank, among the first `n`. */
  lemma {:induction false} HighestWanted(s: System, n: nat) returns (i: nat)
    requires n <= |s|
    requires forall j :: 0 <= j < n && s[j].todo != [] ==> s[j].todo[0].Acquire?
    requires exists j :: 0 <= j < n && s[j].todo != []
    ensures i < n && s[i].todo != []
    ensures forall j :: 0 <= j < n && s[j].todo != [] ==> Rank(s[j].todo[0].lock.mutex) <= Rank(s[i].todo[0].lock.mutex)
  {
    if exists j :: 0 <= j < n - 1 && s[j].todo != [] {
      i := HighestWanted(s, n - 1);
      if s[n - 1].todo != [] && Rank(s[n - 1].todo[0].lock.mutex) > Rank(s[i].todo[0].lock.mutex) {
        i := n - 1;
      }
    } else {
      i := n - 1;
    }
  }

  /** A thread that holds a lock is not done and, if it wants another, wants a later one. */
  lemma HolderWantsLater(s: System, i: nat, h: Lock)
    requires Safe(s) && Holds(s, i, h)
    ensures s[i].todo != []
    ensures s[i].todo[0].Acquire? && h.mutex != Ssts ==> Rank(h.mutex) < Rank(s[i].todo[0].lock.mutex)
  {
    assert Ordered(s[i].todo, s[i].held, s[i].inside);
  }

  lemma SomeoneSteps(s: System) returns (i: nat)
    requires Safe(s) && !Done(s)
    ensures CanStep(s, i)
  {
    if r :| 0 <= r < |s| && s[r].todo != [] && !s[r].todo[0].Acquire? {
      return r;
    }
    var top := HighestWanted(s, |s|);
    var m := s[top].todo[0].lock.mutex;
    forall j, h | Holds(s, j, h) && h.mutex == m ensures m == Ssts {
      HolderWantsLater(s, j, h);
    }
    forall j: nat, l | Wants(s, j, l) ensures MayTake(s[j].held, l) {
      assert Ordered(s[j].todo, s[j].held, s[j].inside);
    }
    if w :| Wants(s, w, Lock(m, true)) {
      i := w;
    } else {
      i := top;
      assert !s[top].todo[0].lock.exclusive by {
        assert Wants(s, top, s[top].todo[0].lock);
      }
    }
  }

  function Left(s: System): (n: nat) {
    if s == [] then 0 else |s[0].todo| + Left(s[1..])
  }

  lemma {:induction false} LeftStep(s: System, i: nat, t: Thread)
    requires i < |s| && |t.todo| < |s[i].todo|
    ensures Left(s[i := t]) < Left(s)
  {
    if i == 0 {
      assert s[0 := t][1..] == s[1..];
    } else {
      LeftStep(s[1..], i - 1, t);
      assert s[i := t][1..] == s[1..][i - 1 := t];
    }
  }

  lemma {:induction false} RunOn(s: System, a: seq<nat>, b: seq<nat>)
    ensures Run(s, a + b) == Run(Run(s, a), b)
  {
    if b == [] {
      assert a + b == a;
    } else {
      RunOn(s, a, b[..|b| - 1]);
      assert (a + b)[..|a + b| - 1] == a + b[..|b| - 1];
    }
  }

  /** From a safe state everyone can still finish. */
  lemma {:induction false} CanFinish(s: System) returns (turns: seq<nat>)
    requires Safe(s)
    ensures Done(Run(s, turns))
    decreases Left(s)
  {
    turns := [];
    if !Done(s) {
      var i := SomeoneSteps(s);
      NextSafe(s, i);
      LeftStep(s, i, Next(s, i)[i]);
      var more := CanFinish(Next(s, i));
      turns := [i] + more;
      RunOne(s, i);
      RunOn(s, [i], more);
    }
  }

  /** No deadlock: wherever any number of threads, each running any operations, have got
      to, either all are done or one of them can go on, and all can still finish. */
  lemma NoDeadlock(threads: seq<seq<Operation>>, turns: seq<nat>) returns (rest: seq<nat>)
    ensures var s := Run(Started(threads), turns);
            && (Done(s) || exists i :: CanStep(s, i))
            && Done(Run(s, rest))
  {
    var s := Run(Started(threads), turns);
    RunSafe(threads, turns);
    rest := CanFinish(s);
    if !Done(s) {
      var i := SomeoneSteps(s);
    }
  }

  lemma RunOne(s: System, i: nat)
    requires CanStep(s, i)
    ensures Run(s, [i]) == Next(s, i)
  {
    assert [i][..0] == [];
  }

  lemma RunCons(s: System, i: nat, turns: seq<nat>)
    requires CanStep(s, i)
    ensures Run(s, [i] + turns) == Run(Next(s, i), turns)
  {
    RunOn(s, [i], turns);
    RunOne(s, i);
  }

  function Ready(todo: seq<Act>): Thread {
    Thread(todo, NO_LOCKS, NOWHERE)
  }

  const READ_SSTS: Lock := Lock(Ssts, false)
  const WRITE_SSTS: Lock := Lock(Ssts, true)
  const MANAGER: Lock := Lock(Manager, true)

  lemma WriterArrives(reader: seq<Act>, writer: seq<Act>)
    requires |reader| > 1 && reader[0] == reader[1] == Acquire(READ_SSTS)
    requires |writer| > 2 && writer[0] == Acquire(MANAGER) && writer[1] == Release(MANAGER)
    ensures Run([Ready(reader), Ready(writer)], [0, 1, 1]) ==
            [Thread(reader[1..], NO_LOCKS + multiset{READ_SSTS}, NOWHERE), Ready(writer[2..])]
  {
    hide Run, CanStep, Next;
    var s0 := [Ready(reader), Ready(writer)];
    var s1 := [Thread(reader[1..], NO_LOCKS + multiset{READ_SSTS}, NOWHERE), Ready(writer)];
    var s2 := [s1[0], Thread(writer[1..], NO_LOCKS + multiset{MANAGER}, NOWHERE)];
    Takes(s0, 0, READ_SSTS);
    assert Next(s0, 0) == s1;
    Takes(s1, 1, MANAGER);
    assert Next(s1, 1) == s2;
    GivesBack(s2, 1, MANAGER);
    assert writer[1..][1..] == writer[2..] && NO_LOCKS + multiset{MANAGER} - multiset{MANAGER} == NO_LOCKS;
    RunCons(s0, 0, [1, 1]);
    RunCons(s1, 1, [1]);
    RunOne(s2, 1);
    assert [0] + [1, 1] == [0, 1, 1] && [1] + [1] == [1, 1];
  }

  /** The second shared lock of a file read needs that nobody locks `ssts_mtx` for
      writing: a writer arriving between the two locks stops both threads. */
  lemma WriterBetweenSharedLocks()
    ensures var reader, writer := Acts(SstGet(0)), Exclusive(Manager, []) + Exclusive(Ssts, []);
            var s := Run([Ready(reader), Ready(writer)], [0, 1, 1]);
            !Done(s) && forall i :: !CanStep(s, i)
  {
    var reader, writer := Acts(SstGet(0)), Exclusive(Manager, []) + Exclusive(Ssts, []);
    SearchActs();
    assert writer == [Acquire(MANAGER), Release(MANAGER), Acquire(WRITE_SSTS), Release(WRITE_SSTS)];
    WriterArrives(reader, writer);
    hide Acts, Exclusive, Run, CanStep;
    var s := Run([Ready(reader), Ready(writer)], [0, 1, 1]);
    assert s[0].todo[0] == Acquire(READ_SSTS) && s[1].todo[0] == Acquire(WRITE_SSTS);
    BothStuck(s);
  }

  /** A thread takes a lock on a mutex that no thread holds or wants for writing. */
  lemma Takes(s: System, i: nat, l: Lock)
    requires i < |s| && s[i].todo != [] && s[i].todo[0] == Acquire(l)
    requires forall j, h :: 0 <= j < |s| && h in s[j].held ==> h.mutex != l.mutex
    requires forall j :: 0 <= j < |s| && j != i ==> s[j].todo == [] || s[j].todo[0] != Acquire(Lock(l.mutex, true))
    ensures CanStep(s, i)
    ensures Next(s, i) == s[i := Thread(s[i].todo[1..], s[i].held + multiset{l}, s[i].inside)]
  {
  }

  lemma GivesBack(s: System, i: nat, l: Lock)
    requires i < |s| && s[i].todo != [] && s[i].todo[0] == Release(l)
    ensures CanStep(s, i)
    ensures Next(s, i) == s[i := Thread(s[i].todo[1..], s[i].held - multiset{l}, s[i].inside)]
  {
  }

  lemma SearchActs()
    ensures var l := Lock(Ssts, false);
            Acts(SstGet(0)) == [Acquire(l), Acquire(l), Enter(Searching), Leave(Searching), Release(l), Release(l)]
  {
    assert CacheUses(0) == [] && [0][1..] == [];
    assert SstGets([0]) == Shared(Ssts, Within(Searching, []));
  }

  lemma BothStuck(s: System)
    requires |s| == 2 && Holds(s, 0, Lock(Ssts, false))
    requires Wants(s, 0, Lock(Ssts, false)) && Wants(s, 1, Lock(Ssts, true))
    ensures forall i :: !CanStep(s, i)
  {
  }

  // ----- isolation

  ghost predicate Inside(s: System, i: nat, x: Section) {
    i < |s| && x in s[i].inside
  }

  lemma SafeIsolates(s: System, i: nat, j: nat, a: Section, b: Section)
    requires Safe(s) && i != j && Inside(s, i, a) && Inside(s, j, b)
    ensures Conflict(a, b) ==> Unguarded(a) || Unguarded(b)
  {
    if Conflict(a, b) && !Unguarded(a) && !Unguarded(b) {
      var x, y :| x in Footprint(a) && y in Footprint(b) && x.component == y.component && (x.write || y.write);
      GuardHeld(s, i, a, x);
      GuardHeld(s, j, b, y);
    }
  }

  /** Inside a guarded section a thread holds the lock of everything it touches. */
  lemma GuardHeld(s: System, i: nat, x: Section, a: Access)
    requires Safe(s) && Inside(s, i, x) && !Unguarded(x) && a in Footprint(x)
    ensures Holds(s, i, Lock(Guard(a.component), true)) || (!a.write && Holds(s, i, Lock(Guard(a.component), false)))
  {
    assert CoversAll(s[i].held, s[i].inside) && Covers(s[i].held, x);
  }

  /** In every state that any threads reach, no two are inside conflicting sections, but for
      the two kinds of section that run under no lock. */
  lemma Isolation(threads: seq<seq<Operation>>, turns: seq<nat>, i: nat, j: nat, a: Section, b: Section)
    requires var s := Run(Started(threads), turns); i != j && Inside(s, i, a) && Inside(s, j, b)
    ensures Conflict(a, b) ==> Unguarded(a) || Unguarded(b)
  {
    RunSafe(threads, turns);
    SafeIsolates(Run(Started(threads), turns), i, j, a, b);
  }

  /** What that keeps apart, among others. */
  lemma KeptApart()
    ensures Conflict(Putting, Putting) && Conflict(Putting, Reading) && Conflict(Putting, Checking)
    ensures Conflict(Freezing, Putting) && Conflict(Freezing, Reading) && Conflict(Freezing, Checking)
    ensures Conflict(TakingOldest, Reading) && Conflict(TakingOldest, Checking) && Conflict(TakingOldest, Freezing)
    ensures Conflict(Clearing, Putting) && Conflict(Clearing, Reading) && Conflict(Clearing, TakingOldest)
    ensures Conflict(Logging, Logging) && Conflict(Numbering, Numbering) && Conflict(Caching, Caching)
  {
    hide Conflict;
    Meet(Putting, Putting, CurrentTable, true);
    Meet(Putting, Reading, CurrentTable, false);
    Meet(Putting, Checking, CurrentTable, false);
    Meet(Freezing, Putting, CurrentTable, true);
    Meet(Freezing, Reading, CurrentTable, false);
    Meet(Freezing, Checking, CurrentTable, false);
    Meet(TakingOldest, Reading, FrozenList, false);
    Meet(TakingOldest, Checking, FrozenList, false);
    Meet(TakingOldest, Freezing, FrozenList, true);
    Meet(Clearing, Putting, CurrentTable, true);
    Meet(Clearing, Reading, CurrentTable, false);
    Meet(Clearing, TakingOldest, FrozenList, true);
    Meet(Logging, Logging, LogBuffer, true);
    Meet(Numbering, Numbering, Ids, true);
    Meet(Caching, Caching, Blocks, true);
  }

  lemma Meet(a: Section, b: Section, c: Component, write: bool)
    requires Writes(c) in Footprint(a) && Access(c, write) in Footprint(b)
    ensures Conflict(a, b)
  {
  }

  /** A thread takes a lock while no other holds or wants one. */
  lemma TakesAlone(s: System, i: nat, l: Lock)
    requires i < |s| && s[i].todo != [] && s[i].todo[0] == Acquire(l)
    requires forall h :: h in s[i].held ==> !h.exclusive && !l.exclusive
    requires forall j :: 0 <= j < |s| && j != i ==> s[j].held == NO_LOCKS && (s[j].todo == [] || !s[j].todo[0].Acquire?)
    ensures CanStep(s, i)
    ensures Next(s, i) == s[i := Thread(s[i].todo[1..], s[i].held + multiset{l}, s[i].inside)]
  {
  }

  lemma Enters(s: System, i: nat, x: Section)
    requires i < |s| && s[i].todo != [] && s[i].todo[0] == Enter(x)
    ensures CanStep(s, i)
    ensures Next(s, i) == s[i := Thread(s[i].todo[1..], s[i].held, s[i].inside + multiset{x})]
  {
  }

  /** A search of the files up to where it is inside the index. */
  lemma SearchBegins(other: Thread, turns: seq<nat>)
    requires other.held == NO_LOCKS && (other.todo == [] || !other.todo[0].Acquire?)
    ensures var search, l := Acts(SstGet(0)), Lock(Ssts, false);
            var held := NO_LOCKS + multiset{l} + multiset{l};
            Run([Ready(search), other], [0, 0, 0] + turns)
            == Run([Thread(search[3..], held, NOWHERE + multiset{Searching}), other], turns)
  {
    SearchActs();
    hide Acts, Run, CanStep, Next;
    var search, l := Acts(SstGet(0)), Lock(Ssts, false);
    var s0 := [Ready(search), other];
    var s1 := [Thread(search[1..], NO_LOCKS + multiset{l}, NOWHERE), other];
    var s2 := [Thread(search[2..], NO_LOCKS + multiset{l} + multiset{l}, NOWHERE), other];
    TakesAlone(s0, 0, l);
    assert Next(s0, 0) == s1;
    TakesAlone(s1, 0, l);
    assert search[1..][1..] == search[2..] && Next(s1, 0) == s2;
    Enters(s2, 0, Searching);
    var s3 := [Thread(search[3..], NO_LOCKS + multiset{l} + multiset{l}, NOWHERE + multiset{Searching}), other];
    assert search[2..][1..] == search[3..] && Next(s2, 0) == s3;
    RunCons(s0, 0, [0, 0] + turns);
    RunCons(s1, 0, [0] + turns);
    RunCons(s2, 0, turns);
    assert [0, 0, 0] + turns == [0] + ([0, 0] + turns) && [0, 0] + turns == [0] + ([0] + turns);
  }

  /** A flushed file goes into the index while another thread searches it. */
  lemma InstallMeetsSearch()
    ensures var s := Run([Ready(Acts(SstGet(0))), Ready(Acts(InstallFile))], [0, 0, 0] + [1]);
            Inside(s, 0, Searching) && Inside(s, 1, Installing) && Conflict(Installing, Searching)
  {
    Meet(Installing, Searching, Index, false);
    var install := Ready(Acts(InstallFile));
    assert install.todo == [Enter(Installing), Leave(Installing)];
    SearchBegins(install, [1]);
    hide Acts, Run, Footprint, Conflict, CanStep, Next;
    var held := NO_LOCKS + multiset{Lock(Ssts, false)} + multiset{Lock(Ssts, false)};
    var s := [Thread(Acts(SstGet(0))[3..], held, NOWHERE + multiset{Searching}), install];
    Enters(s, 1, Installing);
    RunOne(s, 1);
  }

  /** A reader looks at the value of a node it found while a put overwrites it. */
  lemma UseMeetsPut()
    ensures var s := Run([Ready(Acts(MemtablePut)), Ready(Acts(UseNode))], [0, 0, 1]);
            Inside(s, 0, Putting) && Inside(s, 1, UsingNode) && Conflict(Putting, UsingNode)
  {
    Meet(Putting, UsingNode, NodeValues, false);
    var put, use, l := Acts(MemtablePut), Acts(UseNode), Lock(Cur, true);
    assert put == [Acquire(l), Enter(Putting), Leave(Putting), Release(l)];
    assert use == [Enter(UsingNode), Leave(UsingNode)];
    hide Acts, Run, Footprint, Conflict, CanStep, Next;
    var s0 := [Ready(put), Ready(use)];
    var s1 := [Thread(put[1..], NO_LOCKS + multiset{l}, NOWHERE), s0[1]];
    var s2 := [Thread(put[2..], s1[0].held, NOWHERE + multiset{Putting}), s0[1]];
    TakesAlone(s0, 0, l);
    assert Next(s0, 0) == s1;
    Enters(s1, 0, Putting);
    assert put[1..][1..] == put[2..] && Next(s1, 0) == s2;
    Enters(s2, 1, UsingNode);
    RunCons(s0, 0, [0, 1]);
    RunCons(s1, 0, [1]);
    RunOne(s2, 1);
    assert [0] + [0, 1] == [0, 0, 1] && [0] + [1] == [0, 1];
  }
}
