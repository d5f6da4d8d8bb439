/** Parallel cycles within a collection: what the marker hands to its helpers, what it gets
    back, and that together they mark exactly the reachable objects. */
module ParallelCycles {
  import opened Prelude
  import opened MarkHeap
  import opened Marking
  import P = ParallelMarking

  // ----- Nothing but reachable objects is marked -----

  /** Every word of the range lies in a root or in an object of `bound`. */
  ghost predicate RangeIn(heap: Heap, bound: set<nat>, r: Range) {
    forall a: nat :: r.Has(a) ==> SourceIn(heap, bound, a)
  }

  ghost predicate SourceIn(heap: Heap, bound: set<nat>, a: nat) {
    heap.lay.InRoots(a) || heap.lay.InStacks(a) || exists o: nat :: o in bound && heap.lay.InObj(o, a)
  }

  ghost predicate RangesIn(heap: Heap, bound: set<nat>, s: seq<Range>) {
    forall k :: 0 <= k < |s| ==> RangeIn(heap, bound, s[k])
  }

  /** A helper works on such ranges only. */
  ghost predicate HelperIn(heap: Heap, bound: set<nat>, me: P.Helper) {
    && RangesIn(heap, bound, me.local)
    && (me.pc.Popped? ==> RangeIn(heap, bound, me.pc.r))
    && (me.pc.Scan? ==> RangeIn(heap, bound, me.pc.r))
    && (me.pc.Take? ==> RangeIn(heap, bound, me.pc.e))
  }

  ghost predicate SlotsIn(heap: Heap, bound: set<nat>, slots: seq<Option<Range>>) {
    forall i :: 0 <= i < |slots| && slots[i].Some? ==> RangeIn(heap, bound, slots[i].value)
  }

  ghost predicate HelpersIn(heap: Heap, bound: set<nat>, helpers: seq<P.Helper>) {
    forall h :: 0 <= h < |helpers| ==> HelperIn(heap, bound, helpers[h])
  }

  /** Nothing outside `bound` is marked or will be. */
  ghost predicate Within(s: P.State, bound: set<nat>) {
    && s.heap.ClosedSet(bound) && s.heap.HoldsRoots(bound) && s.marks <= bound
    && SlotsIn(s.heap, bound, s.slots) && HelpersIn(s.heap, bound, s.helpers)
  }

  lemma HelperMoves(s: P.State, t: P.State, h: nat, bound: set<nat>)
    requires Within(s, bound) && h < |s.helpers| && t.heap == s.heap && t.marks <= bound
             && SlotsIn(s.heap, bound, t.slots)
    requires |t.helpers| == |s.helpers| && t.helpers == s.helpers[h := t.helpers[h]]
    requires HelperIn(s.heap, bound, t.helpers[h])
    ensures Within(t, bound)
  {
    hide HelperIn;
    hide SlotsIn;
  }

  /** The target of a word within bounds is within bounds. */
  lemma TargetIn(heap: Heap, bound: set<nat>, r: Range)
    requires heap.Valid() && heap.ClosedSet(bound) && heap.HoldsRoots(bound) && RangeIn(heap, bound, r)
    requires r.lo < r.hi && r.lo in heap.mem
    ensures heap.mem[r.lo] in bound && heap.mem[r.lo] in heap.lay.objs
    ensures var p := heap.mem[r.lo]; RangeIn(heap, bound, Range(p, p + heap.lay.objs[p].len))
  {
    var p := heap.mem[r.lo];
    assert r.Has(r.lo);
    if heap.lay.InRoots(r.lo) || heap.lay.InStacks(r.lo) {
      assert heap.RootEdge(p);
    } else {
      var o: nat :| o in bound && heap.lay.InObj(o, r.lo);
      assert heap.Edge(o, p);
    }
    forall a: nat | Range(p, p + heap.lay.objs[p].len).Has(a)
      ensures SourceIn(heap, bound, a)
    {
      assert heap.lay.InObj(p, a);
    }
  }

  lemma PushLocalIn(heap: Heap, bound: set<nat>, local: seq<Range>, e: Range)
    requires RangesIn(heap, bound, local) && RangeIn(heap, bound, e)
    ensures RangesIn(heap, bound, P.PushLocal(local, e))
  {
    hide RangeIn;
  }

  lemma ScanIn(s: P.State, h: nat, r: Range, choice: bool, bound: set<nat>)
    requires s.heap.Valid() && Within(s, bound) && h < |s.helpers| && s.helpers[h].pc == P.Scan(r)
    ensures Within(P.StepScan(s, h, r, choice), bound)
  {
    hide Heap.Valid;
    hide Heap.ClosedSet;
    hide Heap.HoldsRoots;
    hide SlotsIn;
    assert HelperIn(s.heap, bound, s.helpers[h]);
    RestIn(s.heap, bound, r);
    hide RangeIn;
    if r.lo < r.hi && r.lo in s.heap.mem {
      var p := s.heap.mem[r.lo];
      TargetIn(s.heap, bound, r);
      PushLocalIn(s.heap, bound, s.helpers[h].local, Range(p, p + s.heap.lay.objs[p].len));
    }
    HelperMoves(s, P.StepScan(s, h, r, choice), h, bound);
  }

  lemma RestIn(heap: Heap, bound: set<nat>, r: Range)
    requires RangeIn(heap, bound, r)
    ensures RangeIn(heap, bound, Range(r.lo + 1, r.hi))
  {
  }

  lemma DepositIn(s: P.State, entries: seq<Range>, bound: set<nat>)
    requires Within(s, bound) && RangesIn(s.heap, bound, entries)
    ensures SlotsIn(s.heap, bound, P.Deposit(s, entries).slots)
  {
    hide RangeIn;
  }

  /** The steps that give work back. */
  lemma GiveIn(s: P.State, h: nat, choice: bool, bound: set<nat>)
    requires Within(s, bound) && h < |s.helpers| && (s.helpers[h].pc == P.Tail || s.helpers[h].pc == P.Giving)
    ensures Within(P.Step(s, h, choice), bound)
  {
    hide RangeIn;
    var me := s.helpers[h];
    var t := P.Step(s, h, choice);
    assert HelperIn(s.heap, bound, me);
    var half := if me.pc == P.Tail then |me.local| else if me.local == [] then 0 else (|me.local| - 1) / 2;
    assert me.local[..|me.local|] == me.local;
    DepositIn(s, me.local[..half], bound);
    HelperMoves(s, t, h, bound);
  }

  lemma TakeIn(s: P.State, h: nat, p: nat, end: nat, taken: nat, want: nat, e: Range, bound: set<nat>)
    requires Within(s, bound) && h < |s.helpers| && s.helpers[h].pc == P.Take(p, end, taken, want, e)
    ensures Within(P.StepTake(s, h, p, end, taken, want, e), bound)
  {
    hide RangeIn;
    assert HelperIn(s.heap, bound, s.helpers[h]);
    HelperMoves(s, P.StepTake(s, h, p, end, taken, want, e), h, bound);
  }

  lemma StealIn(s: P.State, h: nat, p: nat, end: nat, taken: nat, want: nat, bound: set<nat>)
    requires Within(s, bound) && h < |s.helpers| && s.helpers[h].pc == P.Steal(p, end, taken, want)
    ensures Within(P.StepSteal(s, h, p, end, taken, want), bound)
  {
    hide RangeIn;
    assert HelperIn(s.heap, bound, s.helpers[h]);
    HelperMoves(s, P.StepSteal(s, h, p, end, taken, want), h, bound);
  }

  lemma LocalIn(s: P.State, h: nat, bound: set<nat>)
    requires Within(s, bound) && h < |s.helpers| && s.helpers[h].pc == P.Local
    ensures Within(P.StepLocal(s, h), bound)
  {
    hide RangeIn;
    assert HelperIn(s.heap, bound, s.helpers[h]);
    HelperMoves(s, P.StepLocal(s, h), h, bound);
  }

  /** The other steps move no range. */
  lemma MoveIn(s: P.State, h: nat, choice: bool, bound: set<nat>)
    requires Within(s, bound) && h < |s.helpers|
    requires var t := P.Step(s, h, choice);
             && t.heap == s.heap && t.marks == s.marks && t.slots == s.slots && |t.helpers| == |s.helpers|
             && t.helpers == s.helpers[h := t.helpers[h]]
             && (t.helpers[h].local == s.helpers[h].local || t.helpers[h].local == [])
             && (t.helpers[h].pc == s.helpers[h].pc
                 || (!t.helpers[h].pc.Popped? && !t.helpers[h].pc.Scan? && !t.helpers[h].pc.Take?))
    ensures Within(P.Step(s, h, choice), bound)
  {
    hide RangeIn;
    hide P.Step;
    hide SlotsIn;
    assert HelperIn(s.heap, bound, s.helpers[h]);
    HelperMoves(s, P.Step(s, h, choice), h, bound);
  }

  lemma PoppedIn(s: P.State, h: nat, r: Range, bound: set<nat>)
    requires Within(s, bound) && h < |s.helpers| && s.helpers[h].pc == P.Popped(r)
    ensures Within(P.StepPopped(s, h, r), bound)
  {
    assert HelperIn(s.heap, bound, s.helpers[h]);
    hide SourceIn;
    HelperMoves(s, P.StepPopped(s, h, r), h, bound);
  }

  lemma StepIn(s: P.State, h: nat, choice: bool, bound: set<nat>)
    requires s.heap.Valid() && Within(s, bound)
    ensures Within(P.Step(s, h, choice), bound)
  {
    hide Within;
    hide Heap.Valid;
    if h < |s.helpers| {
      match s.helpers[h].pc
      case Scan(r) => ScanIn(s, h, r, choice, bound);
      case Tail => GiveIn(s, h, choice, bound);
      case Giving => GiveIn(s, h, choice, bound);
      case Popped(r) => PoppedIn(s, h, r, bound);
      case Take(p, end, taken, want, e) => TakeIn(s, h, p, end, taken, want, e, bound);
      case Steal(p, end, taken, want) => StealIn(s, h, p, end, taken, want, bound);
      case Local => LocalIn(s, h, bound);
      case _ => MoveIn(s, h, choice, bound);
    }
  }

  /** In every interleaving, the helpers mark nothing outside `bound`. */
  lemma {:induction false} RunIn(s: P.State, schedule: seq<(nat, bool)>, bound: set<nat>)
    requires P.Init(s) && s.heap.Valid() && Within(s, bound)
    ensures Within(P.Run(s, schedule), bound)
  {
    if schedule != [] {
      var init, last := schedule[..|schedule| - 1], schedule[|schedule| - 1];
      RunIn(s, init, bound);
      P.RunKeeps(s, init);
      hide Within;
      StepIn(P.Run(s, init), last.0, last.1, bound);
    }
  }

  // ----- A cycle within a collection -----

  /** What GC_do_parallel_mark starts from, with `n` threads that may take part. */
  function Start(v: View, stack: seq<Range>, capacity: nat, n: nat): P.State {
    var slots := seq(|stack|, i requires 0 <= i < |stack| => Some(stack[i]));
    P.State(v.heap, v.marks, slots, capacity, 0, 0, 0, true, false, seq(n, _ => P.Helper(P.Idle, 0, [])))
  }

  /** All threads are idle, and the shared stack holds the entries in their order. */
  lemma StartIs(v: View, stack: seq<Range>, capacity: nat, n: nat)
    ensures var s := Start(v, stack, capacity, n);
            && s.heap == v.heap && s.marks == v.marks && s.capacity == capacity && !s.invalid && s.wanted
            && |s.slots| == |stack| && (forall k :: 0 <= k < |stack| ==> s.slots[k] == Some(stack[k]))
            && |s.helpers| == n && forall h :: 0 <= h < n ==> s.helpers[h].pc == P.Idle && s.helpers[h].local == []
  {
  }

  /** A marker that has pushed the roots, with the world stopped, may start a parallel cycle. */
  lemma StartInit(v: View, stack: seq<Range>, capacity: nat, n: nat)
    requires v.Good(stack) && v.state == RootsPushed && v.stopped && v.dirty == {} && |stack| <= capacity
    ensures P.Init(Start(v, stack, capacity, n))
  {
    var s := Start(v, stack, capacity, n);
    forall a: nat | P.Due(s, a) && P.White(s, a)
      ensures P.SlotHas(s.slots, a)
    {
      assert v.White(a);
      assert Covered(stack, a);
      var k :| 0 <= k < |stack| && stack[k].Has(a);
      assert s.slots[k].Some? && s.slots[k].value.Has(a);
    }
  }

  lemma StartIn(v: View, stack: seq<Range>, capacity: nat, n: nat, bound: set<nat>)
    requires v.heap.ClosedSet(bound) && v.heap.HoldsRoots(bound) && v.marks <= bound
    requires forall a: nat :: Covered(stack, a) ==> SourceIn(v.heap, bound, a)
    ensures Within(Start(v, stack, capacity, n), bound)
  {
    forall k: nat, a: nat | k < |stack| && stack[k].Has(a)
      ensures SourceIn(v.heap, bound, a)
    {
      assert Covered(stack, a);
    }
  }

  /** What the marker goes on with when the cycle is over. */
  function End(v: View, t: P.State): View {
    v.(marks := t.marks, state := if t.invalid then Invalid else MsNone)
  }

  /** A finished cycle leaves the marker done or invalid, and nothing is forgotten either way. */
  lemma EndGood(v: View, stack: seq<Range>, capacity: nat, n: nat, schedule: seq<(nat, bool)>)
    requires v.Good(stack) && v.state == RootsPushed && v.stopped && v.dirty == {} && |stack| <= capacity
    requires P.Finished(P.Run(Start(v, stack, capacity, n), schedule))
    ensures var t := P.Run(Start(v, stack, capacity, n), schedule);
            End(v, t).Good([]) && v.marks <= t.marks <= v.bound
  {
    var s := Start(v, stack, capacity, n);
    var t := P.Run(s, schedule);
    StartInit(v, stack, capacity, n);
    assert forall a: nat :: v.Source(a) ==> SourceIn(v.heap, v.bound, a);
    StartIn(v, stack, capacity, n, v.bound);
    P.RunKeeps(s, schedule);
    P.FinishedMarked(s, schedule);
    RunIn(s, schedule, v.bound);
    hide P.Run;
    hide P.Init;
    var w := End(v, t);
    if !t.invalid {
      forall a: nat | w.White(a)
        ensures P.White(t, a)
      {
      }
      assert w.ObjectsOk([]) && w.RootsOk([]) && w.StacksOk([]);
    }
  }

  /** Only objects are marked. */
  lemma EndObjects(v: View, stack: seq<Range>, capacity: nat, n: nat, schedule: seq<(nat, bool)>)
    requires v.Good(stack) && v.state == RootsPushed && v.stopped && v.dirty == {} && |stack| <= capacity
    requires v.marks <= v.heap.lay.objs.Keys
    ensures P.Run(Start(v, stack, capacity, n), schedule).marks <= v.heap.lay.objs.Keys
  {
    var objs := v.heap.lay.objs.Keys;
    StartInit(v, stack, capacity, n);
    AllClosed(v, stack);
    forall a: nat | Covered(stack, a)
      ensures SourceIn(v.heap, objs, a)
    {
      assert v.Source(a);
    }
    StartIn(v, stack, capacity, n, objs);
    RunIn(Start(v, stack, capacity, n), schedule, objs);
  }

  /** A parallel cycle that was not declared invalid has marked exactly what is reachable from the
      roots and from the objects that were marked before. */
  lemma ParallelExact(v: View, stack: seq<Range>, capacity: nat, n: nat, schedule: seq<(nat, bool)>)
    requires v.Good(stack) && v.state == RootsPushed && v.stopped && v.dirty == {} && |stack| <= capacity
    requires v.marks <= v.heap.lay.objs.Keys && Entries(v.heap.lay, v.marks, stack)
    requires P.Finished(P.Run(Start(v, stack, capacity, n), schedule))
    ensures var t := P.Run(Start(v, stack, capacity, n), schedule);
            t.invalid || t.marks == ReachableSet(v.heap, v.marks)
  {
    var s := Start(v, stack, capacity, n);
    var t := P.Run(s, schedule);
    var bound := ReachableSet(v.heap, v.marks);
    ReachableSetClosed(v.heap, v.marks);
    StartInit(v, stack, capacity, n);
    forall a: nat | Covered(stack, a)
      ensures SourceIn(v.heap, bound, a)
    {
      EntriesSource(v.(bound := bound), stack, a);
    }
    StartIn(v, stack, capacity, n, bound);
    RunIn(s, schedule, bound);
    forall q | q in bound && !t.invalid
      ensures q in t.marks
    {
      P.ParallelMarksAll(s, schedule, q);
    }
  }

  /** MS_ROOTS_PUSHED with parallel markers; `schedule` is what the threads happened to do. */
  method StepParallel(m: Marker, n: nat, schedule: seq<(nat, bool)>)
    requires m.Inv() && m.state == RootsPushed && m.stopped && m.dirty == {}
    requires P.Finished(P.Run(Start(m.V(), m.stack, m.capacity, n), schedule))
    modifies m
    ensures m.Inv() && m.heap == old(m.heap) && m.stopped && m.dirty == {} && m.stack == []
    ensures m.state == MsNone || m.state == Invalid
    ensures old(m.marks) <= m.marks <= m.bound == old(m.bound)
    ensures m.state == MsNone ==> m.marks == ReachableSet(m.heap, old(m.marks))
    ensures m.state == Invalid <==> exists k: nat :: P.RaisesAt(old(Start(m.V(), m.stack, m.capacity, n)), schedule, k)
  {
    hide View.Good;
    hide P.Run;
    hide ReachableSet;
    hide P.RaisesAt;
    ghost var v := m.V();
    StartInit(v, m.stack, m.capacity, n);
    P.RunInvalid(Start(v, m.stack, m.capacity, n), schedule);
    EndGood(v, m.stack, m.capacity, n, schedule);
    EndObjects(v, m.stack, m.capacity, n, schedule);
    ParallelExact(v, m.stack, m.capacity, n, schedule);
    var now := View(m.heap, m.marks, m.state, m.scan, m.dirty, m.grungy, m.stopped, {});
    var t := P.Run(Start(now, m.stack, m.capacity, n), schedule);
    m.marks := t.marks;
    m.tooSmall := m.tooSmall || t.invalid;
    m.objectsAreMarked := true;
    m.stack := [];
    if m.tooSmall {
      m.GrowStack();
    }
    m.state := if t.invalid then Invalid else MsNone;
    assert m.V() == End(v, t);
  }
}
