/** Threads racing on the two-level jump table without a lock: create_jmptbl followed by a
    compare-and-swap on the leaf entry (src/custommem.c). A step is one access to shared
    memory; a run is any interleaving of them. No leaf is reclaimed. */
module JumpTableRace {
  import opened JumpTable

  type Target = int  // a code address

  /** Stores val at (idx1, idx0) if ref is there. Without `create` a slot that still has the
      shared leaf is left alone. */
  datatype Op = Op(idx1: nat, idx0: nat, val: Target, ref: Target, create: bool)

  /** Where a thread stands in its operation; tables are named by numbers, 0 being the shared
      default leaf. */
  datatype Pc =
    | Idle
    | CheckSlot(op: Op)              // about to test the slot for the default leaf
    | Publish(op: Op, tbl: nat)      // has a fresh leaf, about to compare-and-swap the slot
    | FreeLoser(op: Op, tbl: nat)    // another leaf was there first
    | ReadSlot(op: Op)               // about to fetch the leaf for the entry's address
    | SwapEntry(op: Op, tbl: nat)    // about to compare-and-swap the entry

  /** One completed operation: what it found at its entry, and whose it was. */
  datatype Event = Event(op: Op, found: Target, who: nat)

  datatype State = State(
    armNext: Target,
    slots: seq<nat>,
    tables: map<nat, seq<Target>>,
    freed: set<nat>,
    threads: map<nat, Pc>,
    log: seq<Event>)

  /** The number of the next leaf to be allocated: numbers are not reused. */
  function NextTable(s: State): nat {
    |s.tables|
  }

  /** Only the clearing operation, which stores arm_next, leaves slots alone. */
  predicate InRange(s: State, op: Op) {
    Legal(|s.slots|, s.armNext, op)
  }

  predicate Legal(slots: nat, armNext: Target, op: Op) {
    op.idx1 < slots && op.idx0 < LEAF && (op.create || op.val == armNext)
  }

  /** Thread t takes one step; an idle thread begins `next`. */
  function Step(s: State, t: nat, next: Op): State
    requires Inv(s) && t in s.threads && InRange(s, next)
  {
    match s.threads[t]
    case Idle => s.(threads := s.threads[t := CheckSlot(next)])
    case CheckSlot(op) =>
      if s.slots[op.idx1] != 0 then s.(threads := s.threads[t := ReadSlot(op)])
      else if !op.create then s.(threads := s.threads[t := Idle], log := s.log + [Event(op, s.armNext, t)])
      else s.(tables := s.tables[NextTable(s) := seq(LEAF, _ => s.armNext)],
        threads := s.threads[t := Publish(op, NextTable(s))])
    case Publish(op, tbl) =>
      if s.slots[op.idx1] == 0 then s.(slots := s.slots[op.idx1 := tbl], threads := s.threads[t := ReadSlot(op)])
      else s.(threads := s.threads[t := FreeLoser(op, tbl)])
    case FreeLoser(op, tbl) => s.(freed := s.freed + {tbl}, threads := s.threads[t := ReadSlot(op)])
    case ReadSlot(op) => s.(threads := s.threads[t := SwapEntry(op, s.slots[op.idx1])])
    case SwapEntry(op, tbl) =>
      var now := s.tables[tbl][op.idx0];
      var s' := s.(threads := s.threads[t := Idle], log := s.log + [Event(op, now, t)]);
      if now == op.ref then s'.(tables := s.tables[tbl := s.tables[tbl][op.idx0 := op.val]]) else s'
  }

  /** A thread in one of these states holds a leaf nobody else knows. */
  predicate Holds(pc: Pc) {
    pc.Publish? || pc.FreeLoser?
  }

  predicate Apart(p: Pc, q: Pc) {
    Holds(p) && Holds(q) ==> p.tbl != q.tbl
  }

  ghost predicate Inv(s: State) {
    && 0 in s.tables && (forall k | k in s.tables :: k < NextTable(s) && |s.tables[k]| == LEAF)
    && s.tables[0] == seq(LEAF, _ => s.armNext)
    && (forall i | 0 <= i < |s.slots| :: s.slots[i] in s.tables && s.slots[i] !in s.freed)
    && (forall i, j | 0 <= i < j < |s.slots| :: s.slots[i] == s.slots[j] ==> s.slots[i] == 0)
    && (forall t | t in s.threads :: PcInv(s, t, s.threads[t]))
    && (forall t, u | t in s.threads && u in s.threads && t != u :: Apart(s.threads[t], s.threads[u]))
    && 0 !in s.freed && s.freed <= s.tables.Keys
  }

  predicate PcInv(s: State, t: nat, pc: Pc)
    requires 0 in s.tables && forall i | 0 <= i < |s.slots| :: s.slots[i] in s.tables
  {
    match pc
    case Idle => true
    case CheckSlot(op) => InRange(s, op)
    case Publish(op, tbl) => InRange(s, op) && Private(s, tbl)
    case FreeLoser(op, tbl) => InRange(s, op) && Private(s, tbl) && s.slots[op.idx1] != 0
    case ReadSlot(op) => InRange(s, op) && s.slots[op.idx1] != 0
    case SwapEntry(op, tbl) => InRange(s, op) && tbl != 0 && s.slots[op.idx1] == tbl
  }

  /** Allocated, never published, not given back, and still empty. */
  predicate Private(s: State, tbl: nat) {
    && tbl in s.tables && tbl != 0 && tbl !in s.slots && tbl !in s.freed
    && forall i | 0 <= i < |s.tables[tbl]| :: s.tables[tbl][i] == s.armNext
  }

  predicate SameFrame(s: State, r: State) {
    |r.slots| == |s.slots| && r.armNext == s.armNext && r.threads.Keys == s.threads.Keys
  }

  /** A step of t leaves the claims of every other thread true. */
  lemma OthersKeep(s: State, t: nat, next: Op, u: nat)
    requires Inv(s) && t in s.threads && InRange(s, next) && u in s.threads && u != t
    ensures var r := Step(s, t, next);
            && r.threads.Keys == s.threads.Keys && r.threads[u] == s.threads[u]
            && 0 in r.tables && (forall i | 0 <= i < |r.slots| :: r.slots[i] in r.tables)
            && PcInv(r, u, r.threads[u])
  {
    StepFrame(s, t, next);
    assert PcInv(s, u, s.threads[u]) && Apart(s.threads[t], s.threads[u]);
    hide Step;
  }

  /** What a step may touch: published leaves, and the leaf that t alone holds. */
  lemma StepFrame(s: State, t: nat, next: Op)
    requires Inv(s) && t in s.threads && InRange(s, next)
    ensures var r := Step(s, t, next);
      && SameFrame(s, r) && s.tables.Keys <= r.tables.Keys
      && (forall u | u in s.threads && u != t :: r.threads[u] == s.threads[u])
      && (forall i | 0 <= i < |s.slots| ::
            r.slots[i] == s.slots[i] || (s.slots[i] == 0 && s.threads[t].Publish? && r.slots[i] == s.threads[t].tbl))
      && (forall k | k in r.freed :: k in s.freed || (s.threads[t].FreeLoser? && k == s.threads[t].tbl))
      && (forall k | k in s.tables :: r.tables[k] == s.tables[k] || k in s.slots)
  {
    assert PcInv(s, t, s.threads[t]);
  }

  /** What t holds after a step it held before, or has just allocated. */
  lemma NewHolding(s: State, t: nat, next: Op)
    requires Inv(s) && t in s.threads && InRange(s, next)
    ensures var (p, q) := (s.threads[t], Step(s, t, next).threads[t]);
            Holds(q) ==> (Holds(p) && p.tbl == q.tbl) || q.tbl == NextTable(s)
    ensures forall u | u in s.threads && Holds(s.threads[u]) :: s.threads[u].tbl < NextTable(s)
  {
    forall u | u in s.threads ensures Holds(s.threads[u]) ==> s.threads[u].tbl < NextTable(s) {
      assert PcInv(s, u, s.threads[u]);
    }
  }

  lemma StepKeepsApart(s: State, t: nat, next: Op)
    requires Inv(s) && t in s.threads && InRange(s, next)
    ensures var r := Step(s, t, next);
            forall u, w | u in r.threads && w in r.threads && u != w :: Apart(r.threads[u], r.threads[w])
  {
    var r := Step(s, t, next);
    StepFrame(s, t, next);
    NewHolding(s, t, next);
    forall u, w | u in s.threads && w in s.threads && u != w ensures Apart(s.threads[u], s.threads[w]) {}
    hide Step, Inv, NextTable;
    forall u, w | u in r.threads && w in r.threads && u != w ensures Apart(r.threads[u], r.threads[w]) {
      assert Apart(s.threads[u], s.threads[w]);
    }
  }

  /** What a step does to the tables and to t itself keeps the invariant. */
  lemma StepKeepsTables(s: State, t: nat, next: Op)
    requires Inv(s) && t in s.threads && InRange(s, next)
    ensures var r := Step(s, t, next);
    && 0 in r.tables && (forall k | k in r.tables :: k < NextTable(r) && |r.tables[k]| == LEAF)
    && r.tables[0] == seq(LEAF, _ => r.armNext)
    && (forall i | 0 <= i < |r.slots| :: r.slots[i] in r.tables && r.slots[i] !in r.freed)
    && (forall i, j | 0 <= i < j < |r.slots| :: r.slots[i] == r.slots[j] ==> r.slots[i] == 0)
    && PcInv(r, t, r.threads[t])
    && 0 !in r.freed && r.freed <= r.tables.Keys
  {
    assert PcInv(s, t, s.threads[t]);
  }

  lemma StepKeepsInv(s: State, t: nat, next: Op)
    requires Inv(s) && t in s.threads && InRange(s, next)
    ensures Inv(Step(s, t, next))
    ensures SameFrame(s, Step(s, t, next))
  {
    StepKeepsTables(s, t, next);
    StepKeepsApart(s, t, next);
    StepFrame(s, t, next);
    forall u | u in s.threads && u != t ensures PcInv(Step(s, t, next), u, s.threads[u]) { OthersKeep(s, t, next, u); }
    hide PcInv, Apart, Step;
  }

  /** The flat table. */
  function Flat(s: State, i1: nat, i0: nat): Target
    requires Inv(s) && i1 < |s.slots| && i0 < LEAF
  {
    s.tables[s.slots[i1]][i0]
  }

  predicate Scheduled(s: State, schedule: seq<(nat, Op)>) {
    forall k | 0 <= k < |schedule| :: schedule[k].0 in s.threads && InRange(s, schedule[k].1)
  }

  /** The state after the scheduled steps. */
  ghost function Run(s: State, schedule: seq<(nat, Op)>): (r: State)
    requires Inv(s) && Scheduled(s, schedule)
    ensures Inv(r) && |r.slots| == |s.slots|
    decreases |schedule|
  {
    if schedule == [] then s
    else
      StepKeepsInv(s, schedule[0].0, schedule[0].1);
      Run(Step(s, schedule[0].0, schedule[0].1), schedule[1..])
  }

  /** No shared leaf yet, no thread under way. */
  ghost function Start(threads: set<nat>, armNext: Target): (s: State)
    ensures Inv(s) && NoLeak(s) && s.log == [] && |s.slots| == SLOTS
    ensures s.threads.Keys == threads && forall t | t in threads :: s.threads[t].Idle?
    ensures forall i1, i0 | 0 <= i1 < SLOTS && 0 <= i0 < LEAF :: Flat(s, i1, i0) == armNext
  {
    State(armNext, seq(SLOTS, _ => 0), map[0 := seq(LEAF, _ => armNext)], {}, map t | t in threads :: Idle, [])
  }

  /** Every allocated leaf is accounted for: the shared one, published, given back, or held
      by a thread that is still deciding. */
  ghost predicate NoLeak(s: State) {
    forall k | k in s.tables :: k == 0 || k in s.slots || k in s.freed || HeldBySome(s, k)
  }

  ghost predicate HeldBySome(s: State, k: nat) {
    exists t :: t in s.threads && Holds(s.threads[t]) && s.threads[t].tbl == k
  }

  lemma StepKeepsNoLeak(s: State, t: nat, next: Op)
    requires Inv(s) && NoLeak(s) && t in s.threads && InRange(s, next)
    ensures NoLeak(Step(s, t, next))
  {
    var r := Step(s, t, next);
    StepFrame(s, t, next);
    SlotsOnlyGrow(s, t, next);
    hide Step, Inv;
    forall k | k in r.tables ensures k == 0 || k in r.slots || k in r.freed || HeldBySome(r, k) {
      if k in s.tables && k in s.slots && k != 0 {
        var i :| 0 <= i < |s.slots| && s.slots[i] == k;
        assert r.slots[i] == k;
      } else if k in s.tables && HeldBySome(s, k) {
        var u :| u in s.threads && Holds(s.threads[u]) && s.threads[u].tbl == k;
        if u == t { HeldLeaf(s, t, next); } else { assert Holds(r.threads[u]) && r.threads[u].tbl == k; }
      } else if k !in s.tables {
        NewLeaf(s, t, next, k);
      }
    }
  }

  /** The leaf that t held is still held, published or given back after its step. */
  lemma HeldLeaf(s: State, t: nat, next: Op)
    requires Inv(s) && t in s.threads && InRange(s, next) && Holds(s.threads[t])
    ensures var (r, k) := (Step(s, t, next), s.threads[t].tbl); k in r.slots || k in r.freed || HeldBySome(r, k)
  {
    var r := Step(s, t, next);
    assert PcInv(s, t, s.threads[t]);
    var op := s.threads[t].op;
    if s.threads[t].Publish? {
      if s.slots[op.idx1] == 0 {
        assert r.slots[op.idx1] == s.threads[t].tbl;
      } else {
        assert Holds(r.threads[t]) && r.threads[t].tbl == s.threads[t].tbl;
      }
    }
  }

  lemma NewLeaf(s: State, t: nat, next: Op, k: nat)
    requires Inv(s) && t in s.threads && InRange(s, next) && k in Step(s, t, next).tables && k !in s.tables
    ensures HeldBySome(Step(s, t, next), k)
  {
    var r := Step(s, t, next);
    assert PcInv(s, t, s.threads[t]);
    assert Holds(r.threads[t]) && r.threads[t].tbl == k;
  }

  /** A slot is published at most once: it never changes after leaving the shared leaf. */
  lemma SlotsOnlyGrow(s: State, t: nat, next: Op)
    requires Inv(s) && t in s.threads && InRange(s, next)
    ensures var r := Step(s, t, next);
            |r.slots| == |s.slots| && s.freed <= r.freed
            && forall i | 0 <= i < |s.slots| && s.slots[i] != 0 :: r.slots[i] == s.slots[i]
  {
    assert PcInv(s, t, s.threads[t]);
  }

  /** Over any run: each slot is published at most once, what is given back was never
      published and never will be, and no leaf is lost. */
  lemma {:induction false} LeavesOverRun(s: State, schedule: seq<(nat, Op)>)
    requires Inv(s) && NoLeak(s) && Scheduled(s, schedule)
    ensures var r := Run(s, schedule);
            && (forall i | 0 <= i < |s.slots| && s.slots[i] != 0 :: r.slots[i] == s.slots[i])
            && s.freed <= r.freed && (forall k | k in r.freed :: k !in r.slots && k !in s.slots)
            && NoLeak(r)
    decreases |schedule|
  {
    hide Step, NoLeak, PcInv, Private, Apart;
    if schedule == [] {
    } else {
      var t, next := schedule[0].0, schedule[0].1;
      StepKeepsInv(s, t, next);
      StepKeepsNoLeak(s, t, next);
      SlotsOnlyGrow(s, t, next);
      LeavesOverRun(Step(s, t, next), schedule[1..]);
      var r := Run(s, schedule);
      assert forall i | 0 <= i < |s.slots| :: s.slots[i] == 0 || r.slots[i] == s.slots[i];
    }
  }

  /** Once all threads are idle again, the allocated leaves are the shared one, the published
      ones and exactly the losing ones, which have all been given back. */
  lemma LosersFreed(s: State, schedule: seq<(nat, Op)>)
    requires Inv(s) && NoLeak(s) && Scheduled(s, schedule)
    requires forall t | t in Run(s, schedule).threads :: Run(s, schedule).threads[t].Idle?
    ensures var r := Run(s, schedule);
            forall k :: k in r.freed <==> k in r.tables && k != 0 && k !in r.slots
  {
    LeavesOverRun(s, schedule);
    var r := Run(s, schedule);
    forall k | k in r.tables ensures !HeldBySome(r, k) {}
  }

  // ---- Linearization: the log of completed operations replays on one flat table

  predicate At(e: Event, i1: nat, i0: nat) {
    e.op.idx1 == i1 && e.op.idx0 == i0
  }

  /** The value at one address after the events, each an atomic compare-and-swap. */
  function Replay(v: Target, events: seq<Event>, i1: nat, i0: nat): Target {
    if events == [] then v
    else
      var w := Replay(v, events[..|events| - 1], i1, i0);
      var e := events[|events| - 1];
      if At(e, i1, i0) && w == e.op.ref then e.op.val else w
  }

  /** Each event at the address found the value that the events before it had left there. */
  ghost predicate Explains(v: Target, events: seq<Event>, i1: nat, i0: nat) {
    forall k | 0 <= k < |events| :: At(events[k], i1, i0) ==> events[k].found == Replay(v, events[..k], i1, i0)
  }

  /** One step changes the flat table only by the compare-and-swap it logs. */
  lemma StepIsAtomic(s: State, t: nat, next: Op, i1: nat, i0: nat)
    requires Inv(s) && t in s.threads && InRange(s, next) && i1 < |s.slots| && i0 < LEAF
    ensures Inv(Step(s, t, next)) && SameFrame(s, Step(s, t, next))
    ensures var r := Step(s, t, next);
            if r.log == s.log then Flat(r, i1, i0) == Flat(s, i1, i0)
            else var e := r.log[|r.log| - 1];
              && r.log == s.log + [e]
              && (At(e, i1, i0) ==> e.found == Flat(s, i1, i0))
              && Flat(r, i1, i0) == if At(e, i1, i0) && Flat(s, i1, i0) == e.op.ref then e.op.val else Flat(s, i1, i0)
  {
    StepKeepsInv(s, t, next);
    assert PcInv(s, t, s.threads[t]);
  }

  /** The invariant of a run: its log so far explains the flat table. */
  lemma {:induction false} RunIsSequential(s: State, schedule: seq<(nat, Op)>, v: Target, i1: nat, i0: nat)
    requires Inv(s) && Scheduled(s, schedule) && i1 < |s.slots| && i0 < LEAF
    requires Explains(v, s.log, i1, i0) && Flat(s, i1, i0) == Replay(v, s.log, i1, i0)
    ensures var r := Run(s, schedule);
            s.log <= r.log && Explains(v, r.log, i1, i0) && Flat(r, i1, i0) == Replay(v, r.log, i1, i0)
    decreases |schedule|
  {
    hide Step, PcInv, Private, Apart;
    if schedule == [] {
    } else {
      var t, next := schedule[0].0, schedule[0].1;
      StepIsAtomic(s, t, next, i1, i0);
      var r := Step(s, t, next);
      if r.log != s.log {
        assert r.log[..|r.log| - 1] == s.log;
        forall k | 0 <= k < |r.log| && At(r.log[k], i1, i0) ensures r.log[k].found == Replay(v, r.log[..k], i1, i0) {
          if k < |s.log| { assert r.log[..k] == s.log[..k]; }
        }
      }
      RunIsSequential(r, schedule[1..], v, i1, i0);
    }
  }

  /** Events one after the other. */
  lemma {:induction false} ReplayAppend(v: Target, a: seq<Event>, b: seq<Event>, i1: nat, i0: nat)
    ensures Replay(v, a + b, i1, i0) == Replay(Replay(v, a, i1, i0), b, i1, i0)
  {
    if b == [] {
      assert a + b == a;
    } else {
      var n := |b| - 1;
      assert (a + b)[..|a + b| - 1] == a + b[..n];
      ReplayAppend(v, a, b[..n], i1, i0);
    }
  }

  /** A value stays while no event names it as its reference. */
  lemma {:induction false} ReplayStays(v: Target, events: seq<Event>, i1: nat, i0: nat)
    requires forall k | 0 <= k < |events| :: At(events[k], i1, i0) ==> events[k].op.ref != v
    ensures Replay(v, events, i1, i0) == v
  {
    if events == [] {
    } else {
      ReplayStays(v, events[..|events| - 1], i1, i0);
    }
  }

  /** Over any run: the entry that is there stays there, whatever the threads do, until one of
      them completes an operation that names it as its reference. */
  lemma EntryStays(s: State, schedule: seq<(nat, Op)>, v: Target, i1: nat, i0: nat)
    requires Inv(s) && Scheduled(s, schedule) && i1 < |s.slots| && i0 < LEAF
    requires Explains(v, s.log, i1, i0) && Flat(s, i1, i0) == Replay(v, s.log, i1, i0)
    requires forall k | |s.log| <= k < |Run(s, schedule).log| ::
               At(Run(s, schedule).log[k], i1, i0) ==> Run(s, schedule).log[k].op.ref != Flat(s, i1, i0)
    ensures Flat(Run(s, schedule), i1, i0) == Flat(s, i1, i0)
  {
    hide Step, PcInv, Private, Apart, Explains;
    RunIsSequential(s, schedule, v, i1, i0);
    var log := Run(s, schedule).log;
    assert log == s.log + log[|s.log|..];
    ReplayAppend(v, s.log, log[|s.log|..], i1, i0);
    ReplayStays(Flat(s, i1, i0), log[|s.log|..], i1, i0);
  }

  /** A compare-and-swap that found its reference leaves its value. */
  lemma Swapped(v: Target, log: seq<Event>, i1: nat, i0: nat, k: nat)
    requires Explains(v, log, i1, i0) && k < |log| && At(log[k], i1, i0) && log[k].found == log[k].op.ref
    ensures Replay(v, log[..k + 1], i1, i0) == log[k].op.val
  {
    assert log[..k + 1][..k] == log[..k];
  }

  /** No entry that a successful compare-and-swap installed is lost: at the end of any run it is
      there, unless a later operation named it as its reference. */
  lemma InstalledStays(s: State, schedule: seq<(nat, Op)>, v: Target, i1: nat, i0: nat, k: nat)
    requires Inv(s) && Scheduled(s, schedule) && i1 < |s.slots| && i0 < LEAF
    requires Explains(v, s.log, i1, i0) && Flat(s, i1, i0) == Replay(v, s.log, i1, i0)
    requires k < |Run(s, schedule).log|
    requires var e := Run(s, schedule).log[k]; At(e, i1, i0) && e.found == e.op.ref
    requires forall j | k < j < |Run(s, schedule).log| ::
               At(Run(s, schedule).log[j], i1, i0) ==> Run(s, schedule).log[j].op.ref != Run(s, schedule).log[k].op.val
    ensures Flat(Run(s, schedule), i1, i0) == Run(s, schedule).log[k].op.val
  {
    hide Step, PcInv, Private, Apart, Explains, Replay;
    RunIsSequential(s, schedule, v, i1, i0);
    var log := Run(s, schedule).log;
    var e := log[k];
    Swapped(v, log, i1, i0, k);
    assert log == log[..k + 1] + log[k + 1..];
    ReplayAppend(v, log[..k + 1], log[k + 1..], i1, i0);
    ReplayStays(e.op.val, log[k + 1..], i1, i0);
  }

  lemma NothingYet(v: Target, i1: nat, i0: nat)
    ensures Explains(v, [], i1, i0) && Replay(v, [], i1, i0) == v
  {}

  // ---- Every operation that is begun is completed, and logged

  /** The completed operations of thread t, in their order. */
  function OpsBy(log: seq<Event>, t: nat): seq<Op> {
    if log == [] then []
    else OpsBy(log[..|log| - 1], t) + if log[|log| - 1].who == t then [log[|log| - 1].op] else []
  }

  function UnderWay(pc: Pc): seq<Op> {
    if pc.Idle? then [] else [pc.op]
  }

  /** The operations that thread t begins in a run. */
  ghost function BegunBy(s: State, schedule: seq<(nat, Op)>, t: nat): seq<Op>
    requires Inv(s) && Scheduled(s, schedule) && t in s.threads
    decreases |schedule|
  {
    if schedule == [] then []
    else
      var u, next := schedule[0].0, schedule[0].1;
      StepKeepsInv(s, u, next);
      (if u == t && s.threads[t].Idle? then [next] else []) + BegunBy(Step(s, u, next), schedule[1..], t)
  }

  /** A thread becomes idle only by completing its operation. */
  lemma IdleIsLogged(s: State, t: nat, next: Op)
    requires Inv(s) && t in s.threads && InRange(s, next)
    ensures var r := Step(s, t, next);
            if !s.threads[t].Idle? && r.threads[t].Idle?
            then |r.log| == |s.log| + 1 && r.log == s.log + [r.log[|s.log|]]
                 && r.log[|s.log|].op == s.threads[t].op && r.log[|s.log|].who == t
            else r.log == s.log
    ensures var r := Step(s, t, next);
            && (!r.threads[t].Idle? ==> r.threads[t].op == if s.threads[t].Idle? then next else s.threads[t].op)
            && (s.threads[t].Idle? ==> !r.threads[t].Idle?)
            && forall u | u in s.threads && u != t :: r.threads[u] == s.threads[u]
  {}

  lemma StepAccounts(s: State, u: nat, next: Op, t: nat)
    requires Inv(s) && u in s.threads && InRange(s, next) && t in s.threads
    ensures var r := Step(s, u, next);
            && r.threads.Keys == s.threads.Keys
            && OpsBy(r.log, t) + UnderWay(r.threads[t]) ==
               OpsBy(s.log, t) + UnderWay(s.threads[t]) + if u == t && s.threads[t].Idle? then [next] else []
  {
    IdleIsLogged(s, u, next);
    StepKeepsInv(s, u, next);
    hide Step, Inv;
    var r := Step(s, u, next);
    if r.log != s.log { assert r.log[..|r.log| - 1] == s.log; }
  }

  /** Over any run: what a thread began is what it completed, in that order, and what it is at. */
  lemma {:induction false} RunAccounts(s: State, schedule: seq<(nat, Op)>, t: nat)
    requires Inv(s) && Scheduled(s, schedule) && t in s.threads
    ensures var r := Run(s, schedule);
            && t in r.threads
            && OpsBy(r.log, t) + UnderWay(r.threads[t]) ==
               OpsBy(s.log, t) + UnderWay(s.threads[t]) + BegunBy(s, schedule, t)
    decreases |schedule|
  {
    hide Step, PcInv, Private, Apart, OpsBy, UnderWay;
    if schedule == [] {
    } else {
      var u, next := schedule[0].0, schedule[0].1;
      StepKeepsInv(s, u, next);
      StepAccounts(s, u, next, t);
      RunAccounts(Step(s, u, next), schedule[1..], t);
    }
  }

  /** A leaf is allocated exactly by a creating operation that sees its slot empty. */
  lemma AllocatesForEmptySlot(s: State, t: nat, next: Op)
    requires Inv(s) && t in s.threads && InRange(s, next)
    ensures NextTable(s) in Step(s, t, next).tables <==>
              s.threads[t].CheckSlot? && s.threads[t].op.create && s.slots[s.threads[t].op.idx1] == 0
    ensures Step(s, t, next).tables.Keys <= s.tables.Keys + {NextTable(s)}
  {
    assert PcInv(s, t, s.threads[t]);
  }

  /** How many steps of its own a thread needs at most until it is idle. */
  function StepsLeft(pc: Pc): (n: nat)
    ensures n <= 5 && (n == 0 <==> pc.Idle?)
  {
    match pc
    case Idle => 0
    case SwapEntry(_, _) => 1
    case ReadSlot(_) => 2
    case FreeLoser(_, _) => 3
    case Publish(_, _) => 4
    case CheckSlot(_) => 5
  }

  function Turns(schedule: seq<(nat, Op)>, t: nat): nat {
    if schedule == [] then 0 else (if schedule[0].0 == t then 1 else 0) + Turns(schedule[1..], t)
  }

  lemma StepAdvances(s: State, t: nat, next: Op)
    requires Inv(s) && t in s.threads && InRange(s, next)
    ensures !s.threads[t].Idle? ==> StepsLeft(Step(s, t, next).threads[t]) < StepsLeft(s.threads[t])
  {}

  /** Whatever the others do, an operation is completed within five steps of its own thread. */
  lemma {:induction false} Completes(s: State, schedule: seq<(nat, Op)>, t: nat)
    requires Inv(s) && Scheduled(s, schedule) && t in s.threads && !s.threads[t].Idle?
    requires Turns(schedule, t) >= StepsLeft(s.threads[t])
    ensures OpsBy(s.log, t) + [s.threads[t].op] <= OpsBy(Run(s, schedule).log, t)
    decreases |schedule|
  {
    hide Step, PcInv, Private, Apart, StepsLeft, Inv;
    if schedule == [] {
    } else {
      var u, next := schedule[0].0, schedule[0].1;
      var r := Step(s, u, next);
      StepKeepsInv(s, u, next);
      StepAccounts(s, u, next, t);
      IdleIsLogged(s, u, next);
      StepAdvances(s, u, next);
      if r.threads[t].Idle? {
        LogGrows(r, schedule[1..], t);
      } else {
        Completes(r, schedule[1..], t);
      }
    }
  }

  lemma {:induction false} LogGrows(s: State, schedule: seq<(nat, Op)>, t: nat)
    requires Inv(s) && Scheduled(s, schedule) && t in s.threads
    ensures OpsBy(s.log, t) <= OpsBy(Run(s, schedule).log, t)
    decreases |schedule|
  {
    hide Step, PcInv, Private, Apart, Inv;
    if schedule == [] {
    } else {
      var u, next := schedule[0].0, schedule[0].1;
      var r := Step(s, u, next);
      StepKeepsInv(s, u, next);
      IdleIsLogged(s, u, next);
      if r.log != s.log { assert r.log[..|r.log| - 1] == s.log; }
      LogGrows(r, schedule[1..], t);
    }
  }

  /** From an empty table, whatever the threads do: what each began is in the log, in its order, but
      for what it is at; the log explains every entry, no leaf that was given back is in use, and
      once all threads are idle just the losing leaves were. */
  lemma FromStart(threads: set<nat>, armNext: Target, schedule: seq<(nat, Op)>)
    requires Scheduled(Start(threads, armNext), schedule)
    ensures forall t | t in threads :: var r := Run(Start(threads, armNext), schedule);
            t in r.threads && OpsBy(r.log, t) + UnderWay(r.threads[t]) == BegunBy(Start(threads, armNext), schedule, t)
    ensures var r := Run(Start(threads, armNext), schedule);
            && (forall i1: nat, i0: nat | i1 < SLOTS && i0 < LEAF ::
                  Explains(armNext, r.log, i1, i0) && Flat(r, i1, i0) == Replay(armNext, r.log, i1, i0))
            && NoLeak(r) && (forall k | k in r.freed :: k !in r.slots)
            && ((forall t | t in r.threads :: r.threads[t].Idle?) ==>
                  forall k :: k in r.freed <==> k in r.tables && k != 0 && k !in r.slots)
  {
    hide Step, PcInv, Private, Apart, NoLeak, Run, Start, Explains, Replay, Flat;
    var s := Start(threads, armNext);
    LeavesOverRun(s, schedule);
    forall t | t in threads
      ensures var r := Run(s, schedule);
              t in r.threads && OpsBy(r.log, t) + UnderWay(r.threads[t]) == BegunBy(s, schedule, t)
    {
      RunAccounts(s, schedule, t);
    }
    if forall t | t in Run(s, schedule).threads :: Run(s, schedule).threads[t].Idle? { LosersFreed(s, schedule); }
    forall i1: nat, i0: nat | i1 < SLOTS && i0 < LEAF
      ensures Explains(armNext, Run(s, schedule).log, i1, i0)
      ensures Flat(Run(s, schedule), i1, i0) == Replay(armNext, Run(s, schedule).log, i1, i0)
    {
      NothingYet(armNext, i1, i0);
      RunIsSequential(s, schedule, armNext, i1, i0);
    }
  }
}
