/** The mark phase: the six-state machine of `GC_mark_some`, its bounded stack that
    discards entries on overflow, rescanning of dirty pages while the mutator runs,
    and the drivers that stop the world and finish a collection. */
module Marking {
  import opened Prelude
  import opened MarkHeap

  datatype MarkState = MsNone | PushRescuers | PushUncollectable | RootsPushed | PartiallyInvalid | Invalid

  function From(scan: Option<nat>): nat {
    if scan.Some? then scan.value else 0
  }

  /** Work left on the mark stack: one unit per word and one per entry. */
  function Weight(stack: seq<Range>): nat {
    if stack == [] then 0
    else
      var e := stack[|stack| - 1];
      Weight(stack[..|stack| - 1]) + 1 + (if e.lo <= e.hi then e.hi - e.lo else 0)
  }

  lemma WeightPush(stack: seq<Range>, e: Range)
    ensures Weight(stack + [e]) == Weight(stack) + 1 + (if e.lo <= e.hi then e.hi - e.lo else 0)
  {
  }

  /** Will the scan in progress still push the marked objects of block `b`? */
  ghost predicate BlockPending(lay: Layout, st: MarkState, scan: Option<nat>, grungy: set<nat>, b: nat) {
    match st
    case PartiallyInvalid => From(scan) <= b
    case PushUncollectable => From(scan) <= b && b in lay.blocks && lay.blocks[b].kind == Uncollectable
    case PushRescuers => From(scan) <= b && lay.BlockTouches(b, grungy)
    case _ => false
  }

  /** Will the static root word `a` still be pushed? */
  ghost predicate RootPending(st: MarkState, grungy: set<nat>, a: nat) {
    match st
    case PartiallyInvalid => true
    case PushUncollectable => true
    case PushRescuers => a / PAGE_WORDS in grungy
    case _ => false
  }

  /** Everything the invariant speaks about, as a value. */
  datatype View = View(
    heap: Heap, marks: set<nat>, state: MarkState, scan: Option<nat>,
    dirty: set<nat>, grungy: set<nat>, stopped: bool,
    bound: set<nat>)    // nothing outside it may be marked while the world is stopped
  {
    /** A pointer word that leads to an unmarked object. */
    ghost predicate White(a: nat) {
      a in heap.mem && heap.mem[a] !in marks
    }

    /** Invariant "I" for marked objects. */
    ghost predicate ObjectsOk(stack: seq<Range>) {
      forall o: nat, a: nat :: o in marks && heap.lay.InObj(o, a) && White(a) ==>
        || Covered(stack, a)
        || a / PAGE_WORDS in dirty
        || BlockPending(heap.lay, state, scan, grungy, heap.lay.objs[o].block)
    }

    /** Invariant "I" for static roots. */
    ghost predicate RootsOk(stack: seq<Range>) {
      forall a: nat :: heap.lay.InRoots(a) && White(a) ==>
        || Covered(stack, a)
        || a / PAGE_WORDS in dirty
        || RootPending(state, grungy, a)
    }

    /** Stacks are not watched for writes, so they only matter with the world stopped. */
    ghost predicate StacksOk(stack: seq<Range>) {
      stopped && (state == RootsPushed || state == MsNone) ==>
        forall a: nat :: heap.lay.InStacks(a) && White(a) ==> Covered(stack, a)
    }

    /** Nothing that still has to be marked can be forgotten. */
    ghost predicate Safe(stack: seq<Range>) {
      state == Invalid || (ObjectsOk(stack) && RootsOk(stack) && StacksOk(stack))
    }

    /** The word belongs to a root or to an object of `bound`. */
    ghost predicate Source(a: nat) {
      heap.lay.InRoots(a) || heap.lay.InStacks(a) || exists o: nat :: o in bound && heap.lay.InObj(o, a)
    }

    /** Nothing outside `bound` is marked or will be. */
    ghost predicate Bounded(stack: seq<Range>) {
      stopped ==>
        && heap.ClosedSet(bound)
        && heap.HoldsRoots(bound)
        && marks <= bound
        && forall a: nat :: Covered(stack, a) ==> Source(a)
    }

    ghost predicate Good(stack: seq<Range>) {
      heap.Valid() && Safe(stack) && Bounded(stack)
    }
  }

  /** An entry of the mark stack lies in a marked object or in the roots. */
  ghost predicate EntryOk(lay: Layout, marks: set<nat>, e: Range) {
    || (forall a: nat :: e.Has(a) ==> lay.InRoots(a) || lay.InStacks(a))
    || exists p: nat :: p in marks && p in lay.objs && p <= e.lo && e.hi <= p + lay.objs[p].len
  }

  ghost predicate Entries(lay: Layout, marks: set<nat>, stack: seq<Range>) {
    forall k :: 0 <= k < |stack| ==> EntryOk(lay, marks, stack[k])
  }

  lemma EntriesMore(lay: Layout, marks: set<nat>, to: set<nat>, stack: seq<Range>)
    requires Entries(lay, marks, stack) && marks <= to
    ensures Entries(lay, to, stack)
  {
  }

  lemma EntriesPush(lay: Layout, marks: set<nat>, stack: seq<Range>, n: nat, e: Range)
    requires Entries(lay, marks, stack) && EntryOk(lay, marks, e) && n <= |stack|
    ensures Entries(lay, marks, stack[..n] + [e])
  {
    hide EntryOk;
  }

  lemma EntriesPop(lay: Layout, marks: set<nat>, stack: seq<Range>, limit: nat)
    requires Entries(lay, marks, stack) && stack != []
    ensures var e := stack[|stack| - 1];
            && Entries(lay, marks, stack[..|stack| - 1])
            && (e.lo <= limit ==> EntryOk(lay, marks, Range(limit, e.hi)))
  {
    assert EntryOk(lay, marks, stack[|stack| - 1]);
  }

  lemma ObjectEntry(lay: Layout, marks: set<nat>, p: nat)
    requires p in marks && p in lay.objs
    ensures EntryOk(lay, marks, Range(p, p + lay.objs[p].len))
  {
  }

  /** More coverage keeps the invariant. */
  lemma SafeMono(v: View, s: seq<Range>, t: seq<Range>)
    requires v.Safe(s)
    requires forall a :: Covered(s, a) && v.White(a) ==> Covered(t, a)
    ensures v.Safe(t)
  {
  }

  /** Marking `p` keeps the invariant once the words of `p` are covered. */
  lemma SafeMark(v: View, p: nat, s: seq<Range>, t: seq<Range>)
    requires v.Safe(s)
    requires forall a :: Covered(s, a) ==> Covered(t, a)
    requires forall a :: v.heap.lay.InObj(p, a) ==> Covered(t, a)
    ensures v.(marks := v.marks + {p}).Safe(t)
  {
  }

  /** The stack after pushing `e`: when it is full, the topmost entries are thrown away first. */
  function PushStack(stack: seq<Range>, e: Range, capacity: nat): seq<Range>
    requires |stack| <= capacity && MARK_STACK_DISCARDS <= capacity
  {
    if |stack| < capacity then stack + [e] else stack[..capacity - MARK_STACK_DISCARDS] + [e]
  }

  lemma PushStackCovers(stack: seq<Range>, e: Range, capacity: nat, extra: seq<Range>)
    requires |stack| <= capacity && MARK_STACK_DISCARDS <= capacity
    ensures forall a :: e.Has(a) ==> Covered(PushStack(stack, e, capacity) + extra, a)
    ensures |stack| < capacity ==>
              forall a :: Covered(stack + extra, a) ==> Covered(PushStack(stack, e, capacity) + extra, a)
    ensures forall a :: Covered(PushStack(stack, e, capacity) + extra, a) ==> Covered(stack + extra, a) || e.Has(a)
  {
    var kept := if |stack| < capacity then stack else stack[..capacity - MARK_STACK_DISCARDS];
    CoveredConcat(kept + [e], extra);
    CoveredConcat(kept, [e]);
    CoveredSingle(e);
    CoveredConcat(stack, extra);
    if |stack| == capacity {
      assert stack == kept + stack[capacity - MARK_STACK_DISCARDS..];
      CoveredConcat(kept, stack[capacity - MARK_STACK_DISCARDS..]);
    }
  }

  function PushState(st: MarkState, stack: seq<Range>, capacity: nat): MarkState {
    if |stack| < capacity then st else Invalid
  }

  /** Every word scheduled in `s` is scheduled in `t`. */
  ghost predicate Keeps(s: seq<Range>, t: seq<Range>) {
    forall a: nat :: Covered(s, a) ==> Covered(t, a)
  }

  lemma PushStackKeeps(stack: seq<Range>, e: Range, capacity: nat)
    requires |stack| < capacity && MARK_STACK_DISCARDS <= capacity
    ensures Keeps(stack, PushStack(stack, e, capacity))
    ensures forall a: nat :: e.Has(a) ==> Covered(PushStack(stack, e, capacity), a)
  {
    CoveredConcat(stack, [e]);
    CoveredSingle(e);
  }

  /** Pushing a range keeps the invariant; if the stack overflowed, marking became invalid. */
  lemma GoodPush(v: View, e: Range, stack: seq<Range>, capacity: nat, extra: seq<Range>)
    requires |stack| <= capacity && MARK_STACK_DISCARDS <= capacity
    requires v.Good(stack + extra)
    requires v.stopped ==> forall a: nat :: e.Has(a) ==> v.Source(a)
    ensures v.(state := PushState(v.state, stack, capacity)).Good(PushStack(stack, e, capacity) + extra)
  {
    PushStackCovers(stack, e, capacity, extra);
    if |stack| < capacity {
      SafeMono(v, stack + extra, PushStack(stack, e, capacity) + extra);
    }
    assert forall a: nat :: v.Source(a) ==> v.(state := PushState(v.state, stack, capacity)).Source(a);
  }

  /** Marking `p` and pushing its words keeps the invariant. */
  lemma GoodMark(v: View, p: nat, stack: seq<Range>, capacity: nat, extra: seq<Range>)
    requires |stack| <= capacity && MARK_STACK_DISCARDS <= capacity
    requires v.Good(stack + extra)
    requires p in v.heap.lay.objs
    requires v.stopped ==> p in v.bound
    ensures v.(marks := v.marks + {p}, state := PushState(v.state, stack, capacity))
             .Good(PushStack(stack, Range(p, p + v.heap.lay.objs[p].len), capacity) + extra)
  {
    var e := Range(p, p + v.heap.lay.objs[p].len);
    var t := PushStack(stack, e, capacity) + extra;
    var w := v.(marks := v.marks + {p}, state := PushState(v.state, stack, capacity));
    PushStackCovers(stack, e, capacity, extra);
    if |stack| < capacity {
      SafeMark(v, p, stack + extra, t);
    }
    forall a: nat | v.stopped && Covered(t, a)
      ensures w.Source(a)
    {
      if e.Has(a) {
        assert v.heap.lay.InObj(p, a);
      } else {
        assert v.Source(a);
      }
    }
  }

  lemma GoodMarkPtrFree(v: View, p: nat, stk: seq<Range>)
    requires v.Good(stk)
    requires p in v.heap.lay.objs && v.heap.lay.objs[p].len == 0
    requires v.stopped ==> p in v.bound
    ensures v.(marks := v.marks + {p}).Good(stk)
  {
    var w := v.(marks := v.marks + {p});
    if v.state != Invalid {
      SafeMark(v, p, stk, stk);
    }
    assert forall a: nat :: v.Source(a) ==> w.Source(a);
  }

  /** Words that lead to marked objects, or are no pointers, need no coverage. */
  lemma GoodShrink(v: View, s: seq<Range>, t: seq<Range>)
    requires v.Good(s)
    requires forall a: nat :: Covered(s, a) && v.White(a) ==> Covered(t, a)
    requires forall a: nat :: Covered(t, a) ==> Covered(s, a)
    ensures v.Good(t)
  {
  }

  /** Scanning a scheduled word can only lead inside `bound`. */
  lemma TargetBounded(v: View, s: seq<Range>, a: nat)
    requires v.Good(s) && v.stopped && Covered(s, a) && a in v.heap.mem
    ensures v.heap.mem[a] in v.bound
  {
    assert v.Source(a);
    if v.heap.lay.InRoots(a) || v.heap.lay.InStacks(a) {
      assert v.heap.RootEdge(v.heap.mem[a]);
    } else {
      var o: nat :| o in v.bound && v.heap.lay.InObj(o, a);
      assert v.heap.Edge(o, v.heap.mem[a]);
    }
  }

  /** What a load of word `a` finds. */
  function Word(h: Heap, a: nat): Option<nat> {
    if a in h.mem then Some(h.mem[a]) else None
  }

  /** The heap after the mutator stores `target` (or a non-pointer) in word `a`. */
  function StoreIn(h: Heap, a: nat, target: Option<nat>): Heap {
    h.(mem := if target.Some? && target.value in h.lay.objs then h.mem[a := target.value] else h.mem - {a})
  }

  function DirtyAfter(h: Heap, a: nat, dirty: set<nat>): set<nat> {
    if h.lay.InStacks(a) then dirty else dirty + {a / PAGE_WORDS}
  }

  lemma StackWord(lay: Layout, a: nat)
    ensures lay.InStacks(a) <==> !Avoids(lay.stacks, a, a + 1)
  {
    AvoidsIs(lay.stacks, a, a + 1);
  }

  /** Only the word at `a` changed: it holds the target, if that is an object. */
  ghost predicate Stored(was: Heap, heap: Heap, a: nat, target: Option<nat>) {
    && heap.lay == was.lay
    && (a in heap.mem <==> target.Some? && target.value in was.lay.objs)
    && (a in heap.mem ==> heap.mem[a] == target.value)
    && forall x: nat ::
         x != a ==> (x in heap.mem <==> x in was.mem) && (x in heap.mem ==> heap.mem[x] == was.mem[x])
  }

  lemma StoreInIs(h: Heap, a: nat, target: Option<nat>)
    ensures Stored(h, StoreIn(h, a, target), a, target)
  {
  }

  /** Nothing but pointer words changed, and only on dirty pages or in stacks. */
  ghost predicate OnlyStores(was: Heap, heap: Heap, dirty: set<nat>) {
    forall a: nat :: Word(heap, a) == Word(was, a) || a / PAGE_WORDS in dirty || was.lay.InStacks(a)
  }

  /** What scanning may do, with the mutator storing in between unless it is stopped. */
  ghost predicate Evolves(v: View, w: View) {
    && w.heap.lay == v.heap.lay
    && v.dirty <= w.dirty
    && OnlyStores(v.heap, w.heap, w.dirty)
    && (v.stopped ==> w.heap == v.heap && w.dirty == v.dirty)
    && v.marks <= w.marks
    && (w.state == v.state || w.state == Invalid)
    && (w.marks == v.marks ==> w.state == v.state)
    && w.scan == v.scan && w.grungy == v.grungy && w.stopped == v.stopped && w.bound == v.bound
  }

  lemma EvolvesRefl(v: View)
    ensures Evolves(v, v)
  {
  }

  lemma MarkEvolves(v: View, p: nat, state: MarkState)
    requires p !in v.marks && (state == v.state || state == Invalid)
    ensures Evolves(v, v.(marks := v.marks + {p}, state := state))
  {
  }

  lemma ObjFacts(v: View, stk: seq<Range>, p: nat)
    requires v.Good(stk) && p in v.heap.lay.objs
    ensures v.heap.lay.objs[p].block in v.heap.lay.blocks
    ensures IsPtrFree(v.heap.lay.blocks[v.heap.lay.objs[p].block].kind) ==> v.heap.lay.objs[p].len == 0
  {
  }

  lemma EvolvesTrans(u: View, v: View, w: View)
    requires Evolves(u, v) && Evolves(v, w)
    ensures Evolves(u, w)
    ensures u.heap.lay == v.heap.lay == w.heap.lay && u.marks <= v.marks <= w.marks
  {
  }

  lemma StoreEvolves(u: View, v: View, a: nat, target: Option<nat>)
    requires Evolves(u, v) && !v.stopped
    ensures Evolves(u, v.(heap := StoreIn(v.heap, a, target), dirty := DirtyAfter(v.heap, a, v.dirty)))
  {
  }

  lemma EvolvesFrame(v: View, w: View)
    requires Evolves(v, w)
    ensures w.heap.lay == v.heap.lay && w.stopped == v.stopped && w.bound == v.bound && v.marks <= w.marks
  {
  }

  /** A store by the running mutator keeps the invariant: its page is dirty now. */
  lemma GoodStore(v: View, a: nat, target: Option<nat>, stk: seq<Range>)
    requires v.Good(stk) && !v.stopped
    ensures v.(heap := StoreIn(v.heap, a, target), dirty := DirtyAfter(v.heap, a, v.dirty)).Good(stk)
  {
    var w := v.(heap := StoreIn(v.heap, a, target), dirty := DirtyAfter(v.heap, a, v.dirty));
    assert forall b: nat :: b != a && w.White(b) ==> v.White(b);
    assert forall o: nat, b: nat :: w.heap.lay.InObj(o, b) <==> v.heap.lay.InObj(o, b);
    assert forall b: nat :: v.heap.lay.InRoots(b) <==> w.heap.lay.InRoots(b);
    if v.state != Invalid {
      forall o: nat, b: nat | o in w.marks && w.heap.lay.InObj(o, b) && w.White(b)
        ensures Covered(stk, b) || b / PAGE_WORDS in w.dirty
             || BlockPending(w.heap.lay, w.state, w.scan, w.grungy, w.heap.lay.objs[o].block)
      {
        if b != a {
          assert v.heap.lay.InObj(o, b) && v.White(b);
        }
      }
      assert w.ObjectsOk(stk);
      assert w.RootsOk(stk);
    }
  }

  /** Word `a` need not be scheduled any more: it leads to no unmarked object, or the
      mutator has written to it since and the dirty page will be looked at again. */
  ghost predicate Done(v: View, a: nat) {
    !v.White(a) || (!v.stopped && (a / PAGE_WORDS in v.dirty || v.heap.lay.InStacks(a)))
  }

  lemma DropWord(v: View, stack: seq<Range>, r: Range, rest: Range, a: nat)
    requires v.Good(stack + [r]) && Done(v, a)
    requires forall x: nat :: r.Has(x) && x != a ==> rest.Has(x)
    requires forall x: nat :: rest.Has(x) ==> r.Has(x)
    ensures v.Good(stack + [rest])
  {
    CoveredConcat(stack, [r]);
    CoveredConcat(stack, [rest]);
    CoveredSingle(r);
    CoveredSingle(rest);
    assert forall o: nat, x: nat :: v.heap.lay.InObj(o, x) ==> !v.heap.lay.InStacks(x);
    assert forall x: nat :: v.heap.lay.InRoots(x) ==> !v.heap.lay.InStacks(x);
  }

  /** A value loaded earlier and marked now finishes its word, even if the word was
      overwritten in the meantime. */
  lemma DeferredDone(v: View, w: View, at: nat, deferred: nat)
    requires Evolves(v, w) && Word(v.heap, at) == Some(deferred) && deferred in w.marks
    ensures Done(w, at)
  {
  }

  lemma DropEmpty(v: View, stack: seq<Range>, r: Range)
    requires v.Good(stack + [r]) && r.hi <= r.lo
    ensures v.Good(stack)
  {
    CoveredConcat(stack, [r]);
    CoveredSingle(r);
    GoodShrink(v, stack + [r], stack);
  }

  lemma ScheduledTarget(v: View, stack: seq<Range>, r: Range, a: nat)
    requires v.Good(stack + [r]) && r.Has(a) && a in v.heap.mem
    ensures v.heap.mem[a] in v.heap.lay.objs
    ensures v.stopped ==> v.heap.mem[a] in v.bound
  {
    CoveredConcat(stack, [r]);
    CoveredSingle(r);
    if v.stopped {
      TargetBounded(v, stack + [r], a);
    }
  }

  /** Shortening a long entry and scanning its front covers the same words. */
  lemma SplitEntry(v: View, rest: seq<Range>, e: Range, limit: nat)
    requires v.Good(rest + [e]) && e.lo <= limit <= e.hi
    ensures v.Good(rest + [Range(limit, e.hi)] + [Range(e.lo, limit)])
  {
    var t := rest + [Range(limit, e.hi)];
    CoveredConcat(rest, [e]);
    CoveredConcat(rest, [Range(limit, e.hi)]);
    CoveredConcat(t, [Range(e.lo, limit)]);
    CoveredSingle(e);
    CoveredSingle(Range(limit, e.hi));
    CoveredSingle(Range(e.lo, limit));
    GoodShrink(v, rest + [e], t + [Range(e.lo, limit)]);
  }

  lemma FewerLeft(all: set<nat>, m: set<nat>, n: set<nat>)
    requires m <= n && m != n && n <= all
    ensures |all - n| < |all - m|
  {
    var x :| x in n && x !in m;
    assert all - n <= (all - m) - {x};
    SubsetSize(all - n, (all - m) - {x});
  }

  /** All words of the marked objects of block `b` are scheduled. */
  ghost predicate BlockPushed(v: View, stack: seq<Range>, b: nat) {
    forall o: nat, a: nat :: o in v.marks && v.heap.lay.InObj(o, a) && v.heap.lay.objs[o].block == b ==>
        Covered(stack, a)
  }

  lemma MarkedSource(v: View, stack: seq<Range>, o: nat)
    requires v.Good(stack) && o in v.marks && o in v.heap.lay.objs
    ensures stack + [] == stack
    ensures v.stopped ==> forall a: nat :: Range(o, o + v.heap.lay.objs[o].len).Has(a) ==> v.Source(a)
  {
  }

  ghost predicate PrefixPushed(v: View, stack: seq<Range>, objs: seq<nat>) {
    forall o: nat, a: nat :: o in objs && o in v.marks && v.heap.lay.InObj(o, a) ==> Covered(stack, a)
  }

  lemma PrefixEmpty(v: View, stack: seq<Range>)
    ensures PrefixPushed(v, stack, [])
  {
  }

  lemma PrefixGrows(v: View, s: seq<Range>, t: seq<Range>, objs: seq<nat>, i: nat)
    requires i < |objs| && PrefixPushed(v, s, objs[..i]) && Keeps(s, t)
    requires objs[i] in v.marks ==> forall a: nat :: v.heap.lay.InObj(objs[i], a) ==> Covered(t, a)
    ensures PrefixPushed(v, t, objs[..i + 1])
  {
  }

  lemma BlockFacts(v: View, stack: seq<Range>, b: nat)
    requires v.Good(stack) && b in v.heap.lay.blocks
    ensures forall o :: o in v.heap.lay.blocks[b].objs ==> o in v.heap.lay.objs
    ensures |v.heap.lay.blocks[b].objs| <= MAX_HBLK_OBJS
    ensures (|| IsPtrFree(v.heap.lay.blocks[b].kind)
             || (forall o :: o in v.heap.lay.blocks[b].objs ==> o !in v.marks)
             || PrefixPushed(v, stack, v.heap.lay.blocks[b].objs))
            ==> BlockPushed(v, stack, b)
  {
  }

  /** The scan may move past blocks whose marked objects are scheduled or need not be. */
  lemma AdvanceScan(v: View, stack: seq<Range>, s: nat)
    requires v.Good(stack)
    requires forall b :: b in v.heap.lay.blocks && From(v.scan) <= b < s ==>
               BlockPushed(v, stack, b) || !BlockPending(v.heap.lay, v.state, v.scan, v.grungy, b)
    ensures v.(scan := Some(s)).Good(stack)
  {
    var w := v.(scan := Some(s));
    assert forall a: nat :: w.White(a) ==> v.White(a);
    assert forall a: nat :: v.Source(a) ==> w.Source(a);
    if v.state != Invalid {
      forall o: nat, a: nat | o in w.marks && w.heap.lay.InObj(o, a) && w.White(a)
        ensures Covered(stack, a) || a / PAGE_WORDS in w.dirty
             || BlockPending(w.heap.lay, w.state, w.scan, w.grungy, w.heap.lay.objs[o].block)
      {
        assert w.heap.lay.ObjOk(o);
        assert v.White(a);
      }
      assert w.ObjectsOk(stack);
      assert w.RootsOk(stack);
    }
  }

  /** Blocks do not overlap, so nothing starts inside block `b`. */
  lemma BlockExtent(v: View, stack: seq<Range>, b: nat)
    requires v.Good(stack) && b in v.heap.lay.blocks
    ensures b < b + v.heap.lay.blocks[b].pages <= v.heap.lay.end
    ensures forall c :: c in v.heap.lay.blocks && b < c ==> b + v.heap.lay.blocks[b].pages <= c
  {
  }

  /** Where a scan that returned `next` has got to; NULL means past the last block. */
  function Past(lay: Layout, next: Option<nat>): nat {
    if next.Some? then next.value else lay.end
  }

  /** All words of the range that lie on grungy pages are scheduled. */
  ghost predicate GrungyPushed(stack: seq<Range>, grungy: set<nat>, lo: nat, hi: nat) {
    forall a: nat :: lo <= a < hi && a / PAGE_WORDS in grungy ==> Covered(stack, a)
  }

  lemma GrungyStep(s: seq<Range>, t: seq<Range>, grungy: set<nat>, lo: nat, mid: nat, hi: nat)
    requires lo <= mid <= hi && GrungyPushed(s, grungy, lo, mid) && Keeps(s, t)
    requires forall a: nat :: mid <= a < hi && a / PAGE_WORDS in grungy ==> Covered(t, a)
    ensures GrungyPushed(t, grungy, lo, hi)
  {
  }

  lemma KeepsTrans(s: seq<Range>, t: seq<Range>, u: seq<Range>)
    requires Keeps(s, t) && Keeps(t, u)
    ensures Keeps(s, u)
  {
  }

  /** `DropWord` with further ranges to be scheduled after this one. */
  lemma DropWordTail(v: View, stack: seq<Range>, r: Range, rest: Range, a: nat, tail: seq<Range>)
    requires v.Good(stack + ([r] + tail)) && Done(v, a)
    requires forall x: nat :: r.Has(x) && x != a ==> rest.Has(x)
    requires forall x: nat :: rest.Has(x) ==> r.Has(x)
    ensures v.Good(stack + ([rest] + tail))
  {
    TailCovered(stack, r, tail);
    TailCovered(stack, rest, tail);
    assert forall o: nat, x: nat :: v.heap.lay.InObj(o, x) ==> !v.heap.lay.InStacks(x);
    assert forall x: nat :: v.heap.lay.InRoots(x) ==> !v.heap.lay.InStacks(x);
  }

  lemma TailCovered(stack: seq<Range>, r: Range, tail: seq<Range>)
    ensures forall a: nat :: Covered(stack + ([r] + tail), a) <==> Covered(stack, a) || r.Has(a) || Covered(tail, a)
  {
    CoveredConcat(stack, [r] + tail);
    CoveredConcat([r], tail);
    CoveredSingle(r);
  }

  lemma TailTarget(v: View, stack: seq<Range>, r: Range, a: nat, tail: seq<Range>)
    requires v.Good(stack + ([r] + tail)) && r.Has(a) && a in v.heap.mem
    ensures v.heap.mem[a] in v.heap.lay.objs
    ensures v.stopped ==> v.heap.mem[a] in v.bound
  {
    TailCovered(stack, r, tail);
    if v.stopped {
      TargetBounded(v, stack + ([r] + tail), a);
    }
  }

  /** A range whose pointers to unmarked objects are all scheduled needs no more attention. */
  lemma DropRange(v: View, stack: seq<Range>, r: Range, tail: seq<Range>)
    requires v.Good(stack + ([r] + tail))
    requires v.state != Invalid ==>
               forall a: nat :: r.Has(a) && v.White(a) ==>
                 Covered(stack, a) || (a / PAGE_WORDS in v.dirty && !v.heap.lay.InStacks(a))
    ensures v.Good(stack + tail)
  {
    TailCovered(stack, r, tail);
    CoveredConcat(stack, tail);
  }

  /** Static roots on pages that were clean when dirty bits were read. */
  ghost predicate CleanRootsOk(v: View, stack: seq<Range>) {
    forall a: nat :: v.heap.lay.InRoots(a) && v.White(a) && a / PAGE_WORDS !in v.grungy ==>
      Covered(stack, a) || a / PAGE_WORDS in v.dirty
  }

  lemma RootWords(lay: Layout, k: nat)
    requires k < |lay.roots|
    ensures forall a: nat :: lay.roots[k].Has(a) ==> lay.InRoots(a)
    ensures lay.roots[k..] == [lay.roots[k]] + lay.roots[k + 1..]
  {
  }

  lemma StackWords(lay: Layout, k: nat)
    requires k < |lay.stacks|
    ensures forall a: nat :: lay.stacks[k].Has(a) ==> lay.InStacks(a)
    ensures lay.stacks[k..] == [lay.stacks[k]] + lay.stacks[k + 1..]
  {
  }

  /** After one static root was pushed it need not be counted as still to be pushed. */
  lemma RootDone(v: View, s: seq<Range>, stack: seq<Range>, k: nat, tail: seq<Range>, all: bool)
    requires k < |v.heap.lay.roots|
    requires v.Good(stack + ([v.heap.lay.roots[k]] + tail))
    requires v.state != Invalid && all ==> forall a: nat :: v.heap.lay.roots[k].Has(a) ==> Covered(stack, a)
    requires v.state != Invalid && !all ==>
               && Keeps(s, stack) && CleanRootsOk(v, s)
               && GrungyPushed(stack, v.grungy, v.heap.lay.roots[k].lo, v.heap.lay.roots[k].hi)
    ensures v.Good(stack + tail)
    ensures v.state != Invalid && !all ==> CleanRootsOk(v, stack)
  {
    RootWords(v.heap.lay, k);
    assert forall a: nat :: v.heap.lay.InRoots(a) ==> !v.heap.lay.InStacks(a);
    DropRange(v, stack, v.heap.lay.roots[k], tail);
  }

  /** Once the scan is over, only the roots are left to be pushed. */
  lemma EnterRootsPushed(v: View, stack: seq<Range>)
    requires v.(scan := Some(v.heap.lay.end)).Good(stack)
    requires v.state != RootsPushed && v.state != MsNone
    ensures v.state != Invalid ==> v.(state := RootsPushed).Good(stack + (v.heap.lay.roots + v.heap.lay.stacks))
    ensures v.Good(stack + (v.heap.lay.roots + v.heap.lay.stacks))
    ensures v.state == PushRescuers ==> CleanRootsOk(v, stack)
  {
    var lay := v.heap.lay;
    var u := v.(scan := Some(lay.end));
    CoveredConcat(stack, lay.roots + lay.stacks);
    CoveredConcat(lay.roots, lay.stacks);
    assert forall a: nat :: u.White(a) <==> v.White(a);
    assert forall a: nat :: u.Source(a) ==> v.Source(a);
    var w := v.(state := RootsPushed);
    assert forall a: nat :: w.White(a) <==> v.White(a);
    assert forall a: nat :: v.Source(a) ==> w.Source(a);
    if v.state != Invalid {
      forall o: nat, a: nat | o in v.marks && lay.InObj(o, a) && v.White(a)
        ensures Covered(stack, a) || a / PAGE_WORDS in v.dirty
      {
        assert u.White(a);
        assert lay.ObjOk(o);
        assert lay.BlockOk(lay.objs[o].block);
      }
    }
  }

  ghost predicate OnlyUncollectable(lay: Layout, marks: set<nat>) {
    forall o: nat, a: nat :: o in marks && lay.InObj(o, a) && lay.objs[o].block in lay.blocks ==>
      lay.blocks[lay.objs[o].block].kind == Uncollectable
  }

  /** How far the marker has still to go before it is done, if nothing new gets marked. */
  function Rank(st: MarkState, objectsAreMarked: bool, scan: Option<nat>): nat {
    match st
    case Invalid => if !objectsAreMarked then 6 else if scan.Some? then 4 else 3
    case PushUncollectable => 5
    case PushRescuers => 5
    case PartiallyInvalid => 2
    case RootsPushed => 1
    case MsNone => 0
  }

  /** Pages a scan in progress has not reached. */
  function Remaining(lay: Layout, st: MarkState, scan: Option<nat>): nat {
    if scan.Some? then (if scan.value <= lay.end then lay.end - scan.value else 0)
    else if st == PushRescuers || st == PushUncollectable then lay.end + 1
    else 0
  }

  predicate Less(a: (nat, nat, nat, nat), b: (nat, nat, nat, nat)) {
    || a.0 < b.0
    || (a.0 == b.0 && a.1 < b.1)
    || (a.0 == b.0 && a.1 == b.1 && a.2 < b.2)
    || (a.0 == b.0 && a.1 == b.1 && a.2 == b.2 && a.3 < b.3)
  }

  /** What any step of the marker may change. */
  ghost predicate Runs(v: View, w: View) {
    && w.heap.lay == v.heap.lay
    && v.marks <= w.marks
    && (v.stopped ==> w.heap == v.heap && w.dirty == v.dirty)
    && w.grungy == v.grungy && w.stopped == v.stopped && w.bound == v.bound
  }

  /** What a view says about single words does not depend on the state of the marker. */
  lemma OtherState(v: View, st: MarkState, stack: seq<Range>)
    ensures forall a: nat :: v.(state := st).White(a) <==> v.White(a)
    ensures v.(state := st).Bounded(stack) <==> v.Bounded(stack)
  {
    assert forall a: nat :: v.(state := st).Source(a) <==> v.Source(a);
  }

  /** Pushing uncollectable objects can begin: nothing else is marked. */
  lemma EnterPushUncollectable(v: View)
    requires v.Good([]) && v.scan.None? && OnlyUncollectable(v.heap.lay, v.marks)
    ensures v.(state := PushUncollectable).Good([])
  {
    hide View.Bounded;
    var w := v.(state := PushUncollectable);
    OtherState(v, PushUncollectable, []);
    forall o: nat, a: nat | o in w.marks && w.heap.lay.InObj(o, a) && w.White(a)
      ensures BlockPending(w.heap.lay, w.state, w.scan, w.grungy, w.heap.lay.objs[o].block)
    {
      assert w.heap.lay.ObjOk(o);
    }
    assert w.ObjectsOk([]);
  }

  /** A full rescan can begin. */
  lemma EnterPartiallyInvalid(v: View, stack: seq<Range>)
    requires v.Good(stack) && v.scan.None?
    ensures v.(state := PartiallyInvalid).Good(stack)
  {
    hide View.Bounded;
    hide View.White;
    hide Heap.Valid;
    OtherState(v, PartiallyInvalid, stack);
  }

  lemma EnterNone(v: View)
    requires v.Good([]) && v.state == RootsPushed
    ensures v.(state := MsNone).Good([])
  {
    hide View.Bounded;
    hide View.White;
    hide Heap.Valid;
    OtherState(v, MsNone, []);
  }

  lemma CleanRootsAnyState(v: View, stack: seq<Range>)
    ensures CleanRootsOk(v, stack) ==> CleanRootsOk(v.(state := RootsPushed), stack)
  {
  }

  lemma MoreMarked(all: set<nat>, m: set<nat>, n: set<nat>)
    requires m <= n <= all
    ensures |all - n| <= |all - m|
    ensures m != n ==> |all - n| < |all - m|
  {
    if m != n {
      FewerLeft(all, m, n);
    }
  }

  /** Marking from the stack makes progress: a new mark, or less work. */
  lemma LessTrans(a: (nat, nat, nat, nat), b: (nat, nat, nat, nat), c: (nat, nat, nat, nat))
    requires Less(a, b)
    ensures Less(b, c) || b == c ==> Less(a, c)
  {
  }

  /** What a step that pushes blocks or roots achieves, if nothing is marked by it. */
  ghost predicate Advances(st: MarkState, to: MarkState, marked: bool, scan: Option<nat>, scanTo: Option<nat>,
                           end: nat) {
    || to == RootsPushed
    || (to == Invalid && marked)
    || (to == st && scanTo.Some? && From(scan) < scanTo.value <= end)
  }

  lemma AdvancesLess(v: View, w: View, s: seq<Range>, t: seq<Range>, marked: bool, markedTo: bool)
    requires Runs(v, w) && w.marks <= w.heap.lay.objs.Keys && (v.state == PushRescuers || v.state == PushUncollectable)
    requires Advances(v.state, w.state, markedTo, v.scan, w.scan, w.heap.lay.end)
    ensures Less((|w.heap.lay.objs.Keys - w.marks|, Rank(w.state, markedTo, w.scan),
                  Remaining(w.heap.lay, w.state, w.scan), Weight(t)),
                 (|v.heap.lay.objs.Keys - v.marks|, Rank(v.state, marked, v.scan),
                  Remaining(v.heap.lay, v.state, v.scan), Weight(s)))
  {
    MoreMarked(v.heap.lay.objs.Keys, v.marks, w.marks);
  }

  lemma MarkFromLess(v: View, w: View, s: seq<Range>, t: seq<Range>, objectsAreMarked: bool)
    requires Evolves(v, w) && w.marks <= w.heap.lay.objs.Keys
    requires w.marks == v.marks ==> Weight(t) < Weight(s)
    requires v.state == Invalid ==> objectsAreMarked
    ensures Less((|w.heap.lay.objs.Keys - w.marks|, Rank(w.state, true, w.scan), Remaining(w.heap.lay, w.state, w.scan),
                  Weight(t)),
                 (|v.heap.lay.objs.Keys - v.marks|, Rank(v.state, objectsAreMarked, v.scan),
                  Remaining(v.heap.lay, v.state, v.scan), Weight(s)))
    ensures Runs(v, w) && w.scan == v.scan && (w.state == v.state || w.state == Invalid)
  {
    MoreMarked(v.heap.lay.objs.Keys, v.marks, w.marks);
  }

  /** Rescanning makes progress: a new mark, a later phase, or a later block. */
  lemma RescanLess(v: View, w: View, s: seq<Range>, t: seq<Range>, before: bool, after: bool)
    requires Runs(v, w) && w.marks <= w.heap.lay.objs.Keys
    requires v.state == PartiallyInvalid ==> v.scan.Some?
    requires (w.state == Invalid ==> after) && (v.state == Invalid ==> before)
    requires v.scan.Some? ==> v.scan.value <= v.heap.lay.end
    requires w.scan.Some? ==> w.scan.value <= v.heap.lay.end
    requires w.marks == v.marks ==>
               || w.state == RootsPushed
               || (w.state == v.state && v.scan.Some? && w.scan.Some? && v.scan.value < w.scan.value)
               || (w.state == v.state == Invalid && v.scan.Some? && w.scan.None?)
               || (v.state == Invalid && v.scan.None? && w.state == PartiallyInvalid)
    requires v.state == Invalid || v.state == PartiallyInvalid
    ensures Less((|w.heap.lay.objs.Keys - w.marks|, Rank(w.state, after, w.scan),
                  Remaining(w.heap.lay, w.state, w.scan), Weight(t)),
                 (|v.heap.lay.objs.Keys - v.marks|, Rank(v.state, before, v.scan),
                  Remaining(v.heap.lay, v.state, v.scan), Weight(s)))
  {
    MoreMarked(v.heap.lay.objs.Keys, v.marks, w.marks);
  }

  lemma InvalidAnyScan(v: View, scan: Option<nat>, stack: seq<Range>)
    requires v.state == Invalid && v.Good(stack)
    ensures v.(scan := scan).Good(stack)
  {
  }

  /** The view after dirty bits were read and marking was begun with the world stopped. */
  ghost function Initiated(v: View, grungy: set<nat>, bound: set<nat>): View {
    v.(state := if v.state == MsNone then PushRescuers else v.state,
       scan := None, grungy := grungy, dirty := {}, stopped := true, bound := bound)
  }

  /** Entries lead only inside a set that holds the marked objects and the roots. */
  lemma EntriesSource(v: View, stack: seq<Range>, a: nat)
    requires Entries(v.heap.lay, v.marks, stack) && v.marks <= v.bound && Covered(stack, a)
    ensures v.Source(a)
  {
    var k :| 0 <= k < |stack| && stack[k].Has(a);
    assert EntryOk(v.heap.lay, v.marks, stack[k]);
    if !v.heap.lay.InRoots(a) && !v.heap.lay.InStacks(a) {
      var p: nat :| p in v.marks && p in v.heap.lay.objs && p <= stack[k].lo
          && stack[k].hi <= p + v.heap.lay.objs[p].len;
      assert v.heap.lay.InObj(p, a);
    }
  }

  /** Between collections only dirty pages can hide pointers to unmarked objects, so it is
      enough to look at those. */
  lemma InitiateGood(v: View, grungy: set<nat>, bound: set<nat>, stack: seq<Range>)
    requires v.Good(stack) && !v.stopped && Entries(v.heap.lay, v.marks, stack)
    requires v.state == Invalid || (v.state == MsNone && grungy == v.dirty && stack == [])
    requires v.heap.ClosedSet(bound) && v.heap.HoldsRoots(bound) && v.marks <= bound
    ensures Initiated(v, grungy, bound).Good(stack)
  {
    var w := Initiated(v, grungy, bound);
    if v.state == MsNone {
      forall o: nat, a: nat | o in w.marks && w.heap.lay.InObj(o, a) && w.White(a)
        ensures BlockPending(w.heap.lay, w.state, w.scan, w.grungy, w.heap.lay.objs[o].block)
      {
        assert v.White(a);
        assert w.heap.lay.ObjOk(o);
        var b := w.heap.lay.objs[o].block;
        assert b <= a / PAGE_WORDS < b + w.heap.lay.blocks[b].pages;
      }
      assert w.ObjectsOk([]);
      forall a: nat | w.heap.lay.InRoots(a) && w.White(a)
        ensures RootPending(w.state, w.grungy, a)
      {
        assert v.White(a);
      }
      assert w.RootsOk([]);
    }
    forall a: nat | Covered(stack, a)
      ensures w.Source(a)
    {
      EntriesSource(w, stack, a);
    }
  }

  /** Restarting the world asks for less. */
  lemma RestartGood(v: View, stack: seq<Range>)
    requires v.Good(stack)
    ensures v.(stopped := false).Good(stack)
  {
  }

  ghost predicate Holds(all: set<nat>, h: Heap, extra: set<nat>) {
    forall q: nat :: h.Reachable(extra, q) ==> q in all
  }

  /** The marks that survive clearing: those of uncollectable objects. */
  function KeptMarks(lay: Layout, marks: set<nat>): set<nat> {
    set o | o in marks && o in lay.objs && lay.objs[o].block in lay.blocks
          && lay.blocks[lay.objs[o].block].kind in {Uncollectable, AUncollectable}
  }

  lemma KeptMarksIs(lay: Layout, marks: set<nat>)
    ensures forall o: nat :: o in KeptMarks(lay, marks) <==>
              && o in marks && o in lay.objs && lay.objs[o].block in lay.blocks
              && (lay.blocks[lay.objs[o].block].kind == Uncollectable
                  || lay.blocks[lay.objs[o].block].kind == AUncollectable)
  {
  }

  lemma AllClosed(v: View, stack: seq<Range>)
    requires v.Good(stack)
    ensures v.heap.ClosedSet(v.heap.lay.objs.Keys) && v.heap.HoldsRoots(v.heap.lay.objs.Keys)
  {
  }

  lemma ClearedGood(v: View)
    requires v.heap.Valid() && !v.stopped
    ensures v.(state := Invalid, scan := None, marks := KeptMarks(v.heap.lay, v.marks)).Good([])
    ensures OnlyUncollectable(v.heap.lay, KeptMarks(v.heap.lay, v.marks))
    ensures KeptMarks(v.heap.lay, v.marks) <= v.marks
  {
    var lay := v.heap.lay;
    forall o: nat, a: nat | o in KeptMarks(lay, v.marks) && lay.InObj(o, a) && lay.objs[o].block in lay.blocks
      ensures lay.blocks[lay.objs[o].block].kind == Uncollectable
    {
      assert lay.ObjOk(o);
    }
  }

  lemma MarksBounded(v: View, stack: seq<Range>)
    requires v.Good(stack) && v.stopped
    ensures v.marks <= v.bound
  {
  }

  /** The view after an object was allocated: its words are clear, its pages dirty, and it is
      marked from the start if it is uncollectable. */
  function Allocated(v: View, o: nat, len: nat, b: nat, pages: nat, kind: Kind): View {
    v.(heap := AllocHeap(v.heap, o, len, b, pages, kind),
       dirty := v.dirty + Span(b, pages),
       marks := AllocMarks(v.marks, o, kind))
  }

  function AllocHeap(h: Heap, o: nat, len: nat, b: nat, pages: nat, kind: Kind): Heap {
    Heap(h.mem - Span(o, len), Place(h.lay, o, len, b, pages, kind))
  }

  function AllocMarks(marks: set<nat>, o: nat, kind: Kind): set<nat> {
    if kind in {Uncollectable, AUncollectable} then marks + {o} else marks
  }

  /** The new object is there, in its block, and its words are clear; nothing else changed. */
  ghost predicate Placed(was: Heap, heap: Heap, o: nat, len: nat, b: nat, pages: nat, kind: Kind) {
    && heap.lay.roots == was.lay.roots && heap.lay.stacks == was.lay.stacks
    && heap.lay.objs.Keys == was.lay.objs.Keys + {o} && heap.lay.objs[o] == Obj(len, b)
    && (forall p :: p in was.lay.objs && p != o ==> heap.lay.objs[p] == was.lay.objs[p])
    && heap.lay.blocks.Keys == was.lay.blocks.Keys + {b}
    && heap.lay.blocks[b].pages == pages && heap.lay.blocks[b].kind == kind && o in heap.lay.blocks[b].objs
    && (forall p :: p in heap.lay.blocks[b].objs ==> p == o || (b in was.lay.blocks && p in was.lay.blocks[b].objs))
    && (b in was.lay.blocks ==> forall p :: p in was.lay.blocks[b].objs ==> p in heap.lay.blocks[b].objs)
    && (forall c :: c in was.lay.blocks && c != b ==> heap.lay.blocks[c] == was.lay.blocks[c])
    && (forall a: nat :: a in heap.mem <==> a in was.mem && !(o <= a < o + len))
    && forall a: nat :: a in heap.mem ==> heap.mem[a] == was.mem[a]
  }

  lemma AllocHeapIs(h: Heap, o: nat, len: nat, b: nat, pages: nat, kind: Kind)
    ensures Placed(h, AllocHeap(h, o, len, b, pages, kind), o, len, b, pages, kind)
  {
    var there := if b in h.lay.blocks then h.lay.blocks[b].objs else [];
    assert (there + [o])[|there|] == o;
    assert forall p :: p in there + [o] <==> p in there || p == o;
  }

  /** A block that was to be scanned is still to be scanned after an allocation. */
  lemma AllocatedPending(v: View, o: nat, len: nat, b: nat, pages: nat, kind: Kind, c: nat)
    requires v.heap.lay.Valid() && CanPlace(v.heap.lay, o, len, b, pages, kind)
    requires c in v.heap.lay.blocks && BlockPending(v.heap.lay, v.state, v.scan, v.grungy, c)
    ensures BlockPending(Place(v.heap.lay, o, len, b, pages, kind), v.state, v.scan, v.grungy, c)
  {
  }

  lemma AllocatedObjects(v: View, o: nat, len: nat, b: nat, pages: nat, kind: Kind, stack: seq<Range>, p: nat, a: nat)
    requires v.Good(stack) && v.state != Invalid && v.marks <= v.heap.lay.objs.Keys
    requires CanPlace(v.heap.lay, o, len, b, pages, kind)
    requires var w := Allocated(v, o, len, b, pages, kind); p in w.marks && w.heap.lay.InObj(p, a) && w.White(a)
    ensures var w := Allocated(v, o, len, b, pages, kind);
            || Covered(stack, a)
            || a / PAGE_WORDS in w.dirty
            || BlockPending(w.heap.lay, w.state, w.scan, w.grungy, w.heap.lay.objs[p].block)
  {
    if p != o {
      assert v.heap.lay.InObj(p, a) && v.White(a);
      assert v.heap.lay.ObjOk(p);
      var c := v.heap.lay.objs[p].block;
      if BlockPending(v.heap.lay, v.state, v.scan, v.grungy, c) {
        AllocatedPending(v, o, len, b, pages, kind, c);
      }
    }
  }

  lemma AllocatedFresh(v: View, o: nat, len: nat, b: nat, pages: nat, kind: Kind, stack: seq<Range>)
    requires v.Good(stack) && CanPlace(v.heap.lay, o, len, b, pages, kind) && v.marks <= v.heap.lay.objs.Keys
    ensures var w := Allocated(v, o, len, b, pages, kind);
            && w.marks <= w.heap.lay.objs.Keys && v.heap.lay.end <= w.heap.lay.end
            && (OnlyUncollectable(v.heap.lay, v.marks) ==> OnlyUncollectable(w.heap.lay, w.marks))
  {
    var w := Allocated(v, o, len, b, pages, kind);
    if OnlyUncollectable(v.heap.lay, v.marks) {
      forall p: nat, a: nat | p in w.marks && w.heap.lay.InObj(p, a) && w.heap.lay.objs[p].block in w.heap.lay.blocks
        ensures w.heap.lay.blocks[w.heap.lay.objs[p].block].kind == Uncollectable
      {
        if p != o {
          assert v.heap.lay.InObj(p, a) && v.heap.lay.ObjOk(p);
        }
      }
    }
  }

  lemma AllocatedEntries(v: View, o: nat, len: nat, b: nat, pages: nat, kind: Kind, stack: seq<Range>)
    requires CanPlace(v.heap.lay, o, len, b, pages, kind) && Entries(v.heap.lay, v.marks, stack)
    ensures var w := Allocated(v, o, len, b, pages, kind); Entries(w.heap.lay, w.marks, stack)
  {
    var w := Allocated(v, o, len, b, pages, kind);
    forall k | 0 <= k < |stack|
      ensures EntryOk(w.heap.lay, w.marks, stack[k])
    {
      AllocatedEntry(v, o, len, b, pages, kind, stack[k]);
    }
  }

  lemma AllocatedEntry(v: View, o: nat, len: nat, b: nat, pages: nat, kind: Kind, e: Range)
    requires CanPlace(v.heap.lay, o, len, b, pages, kind) && EntryOk(v.heap.lay, v.marks, e)
    ensures var w := Allocated(v, o, len, b, pages, kind); EntryOk(w.heap.lay, w.marks, e)
  {
    var w := Allocated(v, o, len, b, pages, kind);
    if forall a: nat :: e.Has(a) ==> v.heap.lay.InRoots(a) || v.heap.lay.InStacks(a) {
      assert forall a: nat :: e.Has(a) ==> w.heap.lay.InRoots(a) || w.heap.lay.InStacks(a);
    }
  }

  lemma AllocatedGood(v: View, o: nat, len: nat, b: nat, pages: nat, kind: Kind, stack: seq<Range>)
    requires v.Good(stack) && !v.stopped && v.marks <= v.heap.lay.objs.Keys
    requires CanPlace(v.heap.lay, o, len, b, pages, kind)
    ensures Allocated(v, o, len, b, pages, kind).Good(stack)
  {
    hide Layout.Valid;
    hide CanPlace;
    var w := Allocated(v, o, len, b, pages, kind);
    PlaceValid(v.heap.lay, o, len, b, pages, kind);
    if v.state != Invalid {
      assert w.ObjectsOk(stack) by {
        hide View.Good;
        forall p: nat, a: nat | p in w.marks && w.heap.lay.InObj(p, a) && w.White(a)
          ensures Covered(stack, a) || a / PAGE_WORDS in w.dirty
               || BlockPending(w.heap.lay, w.state, w.scan, w.grungy, w.heap.lay.objs[p].block)
        {
          AllocatedObjects(v, o, len, b, pages, kind, stack, p, a);
        }
      }
      assert w.RootsOk(stack) by {
        forall a: nat | w.heap.lay.InRoots(a) && w.White(a)
          ensures Covered(stack, a) || a / PAGE_WORDS in w.dirty || RootPending(w.state, w.grungy, a)
        {
          assert v.heap.lay.InRoots(a) && v.White(a);
        }
      }
    }
  }

  /** The view after a large object was freed by the client: words that led to it lead nowhere. */
  function Freed(v: View, o: nat): View
    requires o in v.heap.lay.objs
  {
    v.(heap := FreeHeap(v.heap, o), marks := v.marks - {o})
  }

  function FreeHeap(h: Heap, o: nat): Heap
    requires o in h.lay.objs
  {
    Heap(map a | a in h.mem && h.mem[a] != o :: h.mem[a], Unplace(h.lay, o))
  }

  /** The object, its block and the pointers to it are gone; nothing else is. */
  ghost predicate Removed(was: Heap, heap: Heap, o: nat)
    requires o in was.lay.objs
  {
    && heap.lay.roots == was.lay.roots && heap.lay.stacks == was.lay.stacks
    && heap.lay.objs.Keys == was.lay.objs.Keys - {o}
    && (forall p :: p in heap.lay.objs ==> heap.lay.objs[p] == was.lay.objs[p])
    && heap.lay.blocks.Keys == was.lay.blocks.Keys - {was.lay.objs[o].block}
    && (forall c :: c in heap.lay.blocks ==> heap.lay.blocks[c] == was.lay.blocks[c])
    && (forall a: nat :: a in heap.mem <==> a in was.mem && was.mem[a] != o)
    && forall a: nat :: a in heap.mem ==> heap.mem[a] == was.mem[a]
  }

  lemma FreeHeapIs(h: Heap, o: nat)
    requires o in h.lay.objs
    ensures Removed(h, FreeHeap(h, o), o)
  {
  }

  /** Does the entry start in the object? */
  ghost predicate Inside(lay: Layout, o: nat, e: Range)
    requires o in lay.objs
  {
    o <= e.lo < o + lay.objs[o].len
  }

  /** The entries of `was` that do not start in the object, each as often. */
  ghost predicate Dropped(lay: Layout, o: nat, was: seq<Range>, stack: seq<Range>)
    requires o in lay.objs
  {
    forall e :: multiset(stack)[e] == if o <= e.lo < o + lay.objs[o].len then 0 else multiset(was)[e]
  }

  lemma DroppedHas(lay: Layout, o: nat, was: seq<Range>, stack: seq<Range>)
    requires o in lay.objs && Dropped(lay, o, was, stack)
    ensures forall e :: e in stack <==> e in was && !Inside(lay, o, e)
  {
    forall e: Range
      ensures e in stack <==> e in was && !Inside(lay, o, e)
    {
      assert e in stack <==> multiset(stack)[e] > 0;
      assert e in was <==> multiset(was)[e] > 0;
    }
  }

  /** An entry that starts in a large object, and is not empty, lies in it. */
  lemma InsideLies(lay: Layout, marks: set<nat>, o: nat, e: Range)
    requires lay.Valid() && IsLarge(lay, o) && EntryOk(lay, marks, e) && Inside(lay, o, e) && e.lo < e.hi
    ensures e.hi <= o + lay.objs[o].len
  {
    hide Layout.Valid;
    ObjAt(lay, o);
    assert e.Has(e.lo) && lay.InObj(o, e.lo);
    var p: nat :| p in marks && p in lay.objs && p <= e.lo && e.hi <= p + lay.objs[p].len;
    ObjAt(lay, p);
    BlocksApart(lay, lay.objs[o].block, lay.objs[p].block);
    BlocksApart(lay, lay.objs[p].block, lay.objs[o].block);
  }

  /** Objects of other blocks, and roots, do not meet a large object. */
  lemma ElsewhereThan(lay: Layout, o: nat, p: nat, a: nat)
    requires lay.Valid() && IsLarge(lay, o) && p != o && (lay.InObj(p, a) || lay.InRoots(a))
    ensures !lay.InObj(o, a)
  {
    hide Layout.Valid;
    ObjAt(lay, o);
    if lay.InObj(p, a) {
      ObjAt(lay, p);
      BlocksApart(lay, lay.objs[o].block, lay.objs[p].block);
      BlocksApart(lay, lay.objs[p].block, lay.objs[o].block);
    }
  }

  /** Without the entries of the freed object, the others still cover what they should. */
  lemma StillCovered(v: View, o: nat, stack: seq<Range>, to: seq<Range>, a: nat)
    requires v.heap.lay.Valid() && IsLarge(v.heap.lay, o) && Entries(v.heap.lay, v.marks, stack)
    requires forall e :: e in stack && !Inside(v.heap.lay, o, e) ==> e in to
    requires Covered(stack, a) && !v.heap.lay.InObj(o, a)
    ensures Covered(to, a)
  {
    var k :| 0 <= k < |stack| && stack[k].Has(a);
    assert EntryOk(v.heap.lay, v.marks, stack[k]);
    if Inside(v.heap.lay, o, stack[k]) {
      InsideLies(v.heap.lay, v.marks, o, stack[k]);
    }
    assert stack[k] in to;
  }

  lemma FreedWords(v: View, o: nat)
    requires o in v.heap.lay.objs
    ensures var w := Freed(v, o);
            && (forall a: nat :: w.White(a) ==> v.White(a))
            && (forall p: nat, a: nat :: w.heap.lay.InObj(p, a) <==> p != o && v.heap.lay.InObj(p, a))
            && (forall a: nat :: w.heap.lay.InRoots(a) <==> v.heap.lay.InRoots(a))
  {
  }

  lemma FreedPending(v: View, o: nat, p: nat)
    requires v.heap.lay.Valid() && IsLarge(v.heap.lay, o) && p in v.heap.lay.objs && p != o
    ensures var w := Freed(v, o);
            p in w.heap.lay.objs && w.heap.lay.objs[p] == v.heap.lay.objs[p] &&
            (BlockPending(w.heap.lay, w.state, w.scan, w.grungy, w.heap.lay.objs[p].block) <==>
             BlockPending(v.heap.lay, v.state, v.scan, v.grungy, v.heap.lay.objs[p].block))
  {
    hide Layout.Valid;
    ObjAt(v.heap.lay, p);
  }

  /** Freeing a large object while it may be on the mark stack keeps the invariant. */
  lemma FreedGood(v: View, o: nat, stack: seq<Range>, to: seq<Range>)
    requires v.Good(stack) && !v.stopped && IsLarge(v.heap.lay, o) && Entries(v.heap.lay, v.marks, stack)
    requires forall e :: e in stack && !Inside(v.heap.lay, o, e) ==> e in to
    ensures Freed(v, o).Good(to)
  {
    hide Layout.Valid;
    var w := Freed(v, o);
    FreedWords(v, o);
    UnplaceValid(v.heap.lay, o);
    hide IsLarge;
    hide Entries;
    hide BlockPending;
    if v.state != Invalid {
      forall p: nat, a: nat | p in w.marks && w.heap.lay.InObj(p, a) && w.White(a)
        ensures Covered(to, a) || a / PAGE_WORDS in w.dirty
             || BlockPending(w.heap.lay, w.state, w.scan, w.grungy, w.heap.lay.objs[p].block)
      {
        assert v.heap.lay.InObj(p, a);
        FreedPending(v, o, p);
        if Covered(stack, a) {
          ElsewhereThan(v.heap.lay, o, p, a);
          StillCovered(v, o, stack, to, a);
        }
      }
      assert w.ObjectsOk(to);
      forall a: nat | w.heap.lay.InRoots(a) && w.White(a)
        ensures Covered(to, a) || a / PAGE_WORDS in w.dirty || RootPending(w.state, w.grungy, a)
      {
        if Covered(stack, a) {
          ElsewhereThan(v.heap.lay, o, o + 1, a);
          StillCovered(v, o, stack, to, a);
        }
      }
      assert w.RootsOk(to);
    }
  }

  lemma FreedEntries(v: View, o: nat, stack: seq<Range>, to: seq<Range>)
    requires o in v.heap.lay.objs && Entries(v.heap.lay, v.marks, stack)
    requires forall e :: e in to ==> e in stack && !Inside(v.heap.lay, o, e)
    ensures Entries(Freed(v, o).heap.lay, Freed(v, o).marks, to)
  {
    forall k | 0 <= k < |to|
      ensures EntryOk(Freed(v, o).heap.lay, Freed(v, o).marks, to[k])
    {
      assert to[k] in stack;
      var j :| 0 <= j < |stack| && stack[j] == to[k];
      assert EntryOk(v.heap.lay, v.marks, stack[j]);
      FreedEntry(v, o, to[k]);
    }
  }

  lemma FreedEntry(v: View, o: nat, e: Range)
    requires o in v.heap.lay.objs && EntryOk(v.heap.lay, v.marks, e) && !Inside(v.heap.lay, o, e)
    ensures EntryOk(Freed(v, o).heap.lay, Freed(v, o).marks, e)
  {
    var w := Freed(v, o);
    if forall a: nat :: e.Has(a) ==> v.heap.lay.InRoots(a) || v.heap.lay.InStacks(a) {
      assert forall a: nat :: e.Has(a) ==> w.heap.lay.InRoots(a) || w.heap.lay.InStacks(a);
    } else {
      var p: nat :| p in v.marks && p in v.heap.lay.objs && p <= e.lo && e.hi <= p + v.heap.lay.objs[p].len;
      if p != o {
        assert p in w.marks && p in w.heap.lay.objs;
      }
    }
  }

  lemma LargeThere(lay: Layout, o: nat)
    requires IsLarge(lay, o)
    ensures o in lay.objs
  {
  }

  lemma FreedRest(v: View, o: nat)
    requires o in v.heap.lay.objs && v.marks <= v.heap.lay.objs.Keys
    ensures var w := Freed(v, o);
            && w.marks <= w.heap.lay.objs.Keys
            && (OnlyUncollectable(v.heap.lay, v.marks) ==> OnlyUncollectable(w.heap.lay, w.marks))
  {
    var w := Freed(v, o);
    assert forall p: nat, a: nat :: w.heap.lay.InObj(p, a) ==> v.heap.lay.InObj(p, a);
  }

  /** The stack without entry `i`, whose place the topmost takes. */
  function Filled(stack: seq<Range>, i: nat): seq<Range>
    requires i < |stack|
  {
    stack[i := stack[|stack| - 1]][..|stack| - 1]
  }

  lemma FilledHas(stack: seq<Range>, i: nat, e: Range)
    requires i < |stack|
    ensures multiset(Filled(stack, i))[e] == multiset(stack)[e] - if e == stack[i] then 1 else 0
  {
    var n := |stack| - 1;
    assert stack == stack[..n] + [stack[n]];
    if i < n {
      assert Filled(stack, i) == stack[..n][i := stack[n]];
    }
  }

  /** With the world stopped and nothing dirty, no pointer leads from a marked object or a root to
      an unmarked one when marking is finished. */
  lemma FinishedClosed(v: View)
    requires v.state == MsNone && v.stopped && v.dirty == {} && v.Good([])
    ensures v.heap.ClosedSet(v.marks) && v.heap.HoldsRoots(v.marks)
  {
    hide Heap.Valid;
    hide View.Bounded;
    forall p: nat, q: nat | p in v.marks && v.heap.Edge(p, q)
      ensures q in v.marks
    {
      var a :| v.heap.lay.InObj(p, a) && a in v.heap.mem && v.heap.mem[a] == q;
      assert !v.White(a);
    }
    forall q: nat | v.heap.RootEdge(q)
      ensures q in v.marks
    {
      var a :| (v.heap.lay.InRoots(a) || v.heap.lay.InStacks(a)) && a in v.heap.mem && v.heap.mem[a] == q;
      assert !v.White(a);
    }
  }

  /** A finished mark phase has marked everything that is reachable. */
  lemma FinishedMarksAll(v: View, extra: set<nat>)
    requires v.state == MsNone && v.stopped && v.dirty == {} && v.Good([])
    requires extra <= v.marks
    ensures Holds(v.marks, v.heap, extra)
  {
    FinishedClosed(v);
    hide View.Good;
    hide Heap.ClosedSet;
    hide Heap.HoldsRoots;
    forall q: nat | v.heap.Reachable(extra, q)
      ensures q in v.marks
    {
      var path :| v.heap.IsPath(path, q) && (v.heap.RootEdge(path[0]) || path[0] in extra);
      ReachableInClosed(v.heap, extra, v.marks, path, q);
    }
  }

  class Marker {
    var heap: Heap
    var marks: set<nat>
    var state: MarkState
    var scan: Option<nat>           // GC_scan_ptr
    var stack: seq<Range>           // occupied entries, bottom first
    var capacity: nat               // GC_mark_stack_size
    var tooSmall: bool
    var objectsAreMarked: bool
    var dirty: set<nat>             // pages written since dirty bits were last read
    var grungy: set<nat>            // pages found dirty when they were last read
    var stopped: bool
    var lazyStacks: bool            // may a stack be pushed as one range?
    var attempts: nat               // GC_n_attempts
    var deficit: nat                // GC_mark_deficit
    ghost var bound: set<nat>       // nothing outside it may be marked while stopped

    ghost function V(): View
      reads this
    {
      View(heap, marks, state, scan, dirty, grungy, stopped, bound)
    }

    ghost predicate Shape()
      reads this
    {
      && |stack| <= capacity && INITIAL_MARK_STACK_SIZE <= capacity
      && marks <= heap.lay.objs.Keys && Entries(heap.lay, marks, stack)
    }

    /** Marks were cleared and nothing has been marked since. */
    ghost predicate Fresh()
      reads this
    {
      state == Invalid && !objectsAreMarked ==> scan.None? && stack == [] && OnlyUncollectable(heap.lay, marks)
    }

    /** What holds between calls. */
    ghost predicate Inv()
      reads this
    {
      && Shape()
      && V().Good(stack)
      && Fresh()
      && (state == MsNone ==> stack == [])
      && (state == PartiallyInvalid ==> scan.Some?)
      && (scan.Some? ==> scan.value <= heap.lay.end)
    }

    /** Room for the objects of one block and for the static root ranges. */
    ghost predicate Room()
      reads this
    {
      MAX_HBLK_OBJS + |heap.lay.roots| <= capacity
    }

    ghost function Measure(): (nat, nat, nat, nat)
      reads this
    {
      (|heap.lay.objs.Keys - marks|, Rank(state, objectsAreMarked, scan), Remaining(heap.lay, state, scan),
       Weight(stack))
    }

    /** GC_ms_push_obj_descr with GC_signal_mark_stack_overflow. */
    method PushEntry(e: Range)
      requires Shape() && EntryOk(heap.lay, marks, e)
      modifies this`stack, this`state, this`tooSmall
      ensures Shape()
      ensures stack == PushStack(old(stack), e, capacity)
      ensures state == if |old(stack)| < capacity then old(state) else Invalid
      ensures tooSmall == (old(tooSmall) || |old(stack)| == capacity)
    {
      hide Entries;
      hide EntryOk;
      EntriesPush(heap.lay, marks, stack, |stack|, e);
      assert stack[..|stack|] == stack;
      if |stack| >= capacity {
        EntriesPush(heap.lay, marks, stack, |stack| - MARK_STACK_DISCARDS, e);
        state := Invalid;
        tooSmall := true;
        stack := stack[..|stack| - MARK_STACK_DISCARDS];
      }
      stack := stack + [e];
    }

    /** GC_push_all: schedule the words of one range. */
    method PushRange(r: Range, ghost extra: seq<Range>)
      requires Shape() && V().Good(stack + extra) && EntryOk(heap.lay, marks, r)
      requires stopped ==> forall a: nat :: r.Has(a) ==> V().Source(a)
      modifies this`stack, this`state, this`tooSmall
      ensures Shape() && V().Good(stack + extra)
      ensures stack == PushStack(old(stack), r, capacity) && state == PushState(old(state), old(stack), capacity)
      ensures state != Invalid ==> Keeps(old(stack), stack) && forall a: nat :: r.Has(a) ==> Covered(stack, a)
    {
      hide Entries;
      hide EntryOk;
      GoodPush(V(), r, stack, capacity, extra);
      if |stack| < capacity {
        PushStackKeeps(stack, r, capacity);
      }
      PushEntry(r);
    }

    /** Mark an object and schedule its words. */
    method MarkAndPush(p: nat, ghost extra: seq<Range>)
      requires Shape() && V().Good(stack + extra)
      requires p in heap.lay.objs && p !in marks
      requires stopped ==> p in bound
      modifies this`marks, this`stack, this`state, this`tooSmall
      ensures Shape() && V().Good(stack + extra)
      ensures marks == old(marks) + {p} && Evolves(old(V()), V())
      ensures state != Invalid ==> Keeps(old(stack), stack)
    {
      hide View.Good;
      hide Evolves;
      hide Keeps;
      hide Entries;
      hide EntryOk;
      EntriesMore(heap.lay, marks, marks + {p}, stack);
      ObjectEntry(heap.lay, marks + {p}, p);
      var e := Range(p, p + heap.lay.objs[p].len);
      ghost var w := V().(marks := marks + {p}, state := PushState(state, stack, capacity));
      GoodMark(V(), p, stack, capacity, extra);
      MarkEvolves(V(), p, w.state);
      if |stack| < capacity {
        PushStackKeeps(stack, e, capacity);
      }
      marks := marks + {p};
      PushEntry(e);
      assert V() == w;
    }

    /** PUSH_CONTENTS: mark the target and schedule its words, unless it is marked already. */
    method PushContents(p: nat, ghost extra: seq<Range>)
      requires Shape() && V().Good(stack + extra)
      requires p in heap.lay.objs
      requires stopped ==> p in bound
      modifies this`marks, this`stack, this`state, this`tooSmall
      ensures Shape() && V().Good(stack + extra)
      ensures marks == old(marks) + {p}
      ensures Evolves(old(V()), V())
      ensures p in old(marks) ==> stack == old(stack)
      ensures state != Invalid ==> Keeps(old(stack), stack)
    {
      hide View.Good;
      hide Evolves;
      hide Entries;
      EvolvesRefl(V());
      if p !in marks {
        ObjFacts(V(), stack + extra, p);
        if !IsPtrFree(heap.lay.blocks[heap.lay.objs[p].block].kind) {
          MarkAndPush(p, extra);
        } else {
          EntriesMore(heap.lay, marks, marks + {p}, stack);
          GoodMarkPtrFree(V(), p, stack + extra);
          MarkEvolves(V(), p, state);
          ghost var w := V().(marks := marks + {p});
          marks := marks + {p};
          assert V() == w;
        }
      }
    }

    /** The mutator may run between any two loads of the marker, unless it is stopped. */
    method Interleave(ghost stk: seq<Range>)
      requires V().Good(stk)
      modifies this`heap, this`dirty
      ensures V().Good(stk)
      ensures Evolves(old(V()), V())
    {
      hide View.Good;
      var n: nat := *;
      EvolvesRefl(V());
      while n > 0 && !stopped
        invariant V().Good(stk)
        invariant Evolves(old(V()), V())
        decreases n
      {
        var a: nat := *;
        var target: Option<nat> := *;
        StoreEvolves(old(V()), V(), a, target);
        Store(a, target, stk);
        n := n - 1;
      }
    }

    /** One store of the mutator, with the write barrier of the dirty-page tracker. */
    method Store(a: nat, target: Option<nat>, ghost stk: seq<Range>)
      requires V().Good(stk) && !stopped
      modifies this`heap, this`dirty
      ensures V().Good(stk)
      ensures V() == old(V()).(heap := StoreIn(old(heap), a, target), dirty := DirtyAfter(old(heap), a, old(dirty)))
      ensures Stored(old(heap), heap, a, target)
      ensures forall g :: g in dirty <==>
                            || g in old(dirty)
                            || (g == a / PAGE_WORDS && Avoids(heap.lay.stacks, a, a + 1))
    {
      StoreInIs(heap, a, target);
      StackWord(heap.lay, a);
      ghost var w := V().(heap := StoreIn(heap, a, target), dirty := DirtyAfter(heap, a, dirty));
      GoodStore(V(), a, target, stk);
      hide View.Good;
      dirty := DirtyAfter(heap, a, dirty);
      heap := StoreIn(heap, a, target);
      assert V() == w;
    }

    /** Look backwards from the end of the range for the first pointer; its marking is deferred. */
    method FindDeferred(lo: nat, hi: nat) returns (at: nat, deferred: Option<nat>)
      requires V().Good(stack + [Range(lo, hi)]) && lo < hi
      modifies this`heap, this`dirty
      ensures V().Good(stack + [Range(lo, at + 1)])
      ensures Evolves(old(V()), V())
      ensures lo <= at < hi
      ensures deferred == Word(heap, at)
      ensures deferred.None? ==> at == lo
    {
      EvolvesRefl(V());
      hide View.Good;
      hide Evolves;
      at := hi;
      deferred := None;
      while true
        invariant lo < at <= hi && deferred.None?
        invariant V().Good(stack + [Range(lo, at)])
        invariant Evolves(old(V()), V())
        decreases at
      {
        ghost var v := V();
        Interleave(stack + [Range(lo, at)]);
        EvolvesTrans(old(V()), v, V());
        deferred := Word(heap, at - 1);
        if deferred.Some? || at - 1 == lo {
          at := at - 1;
          return;
        }
        DropWord(V(), stack, Range(lo, at), Range(lo, at - 1), at - 1);
        at := at - 1;
      }
    }

    /** Scan the words of a range that was just taken off the stack. */
    method ScanWords(lo: nat, hi: nat)
      requires Shape() && V().Good(stack + [Range(lo, hi)])
      modifies this`heap, this`dirty, this`marks, this`stack, this`state, this`tooSmall
      ensures Shape() && V().Good(stack)
      ensures Evolves(old(V()), V())
      ensures marks == old(marks) ==> stack == old(stack)
    {
      EvolvesRefl(V());
      hide View.Good;
      if lo >= hi {
        DropEmpty(V(), stack, Range(lo, hi));
        return;
      }
      var at, deferred := FindDeferred(lo, hi);
      if deferred.None? {
        DropWord(V(), stack, Range(lo, at + 1), Range(lo, at), at);
        DropEmpty(V(), stack, Range(lo, at));
        return;
      }
      ScheduledTarget(V(), stack, Range(lo, at + 1), at);
      ScanForward(lo, at, deferred.value);
    }

    /** Load one word of the range being scanned and mark from it. */
    method ScanWord(cur: nat, end: nat)
      requires Shape() && V().Good(stack + [Range(cur, end)]) && cur < end
      modifies this`heap, this`dirty, this`marks, this`stack, this`state, this`tooSmall
      ensures Shape() && V().Good(stack + [Range(cur + 1, end)])
      ensures Evolves(old(V()), V())
      ensures marks == old(marks) ==> stack == old(stack)
    {
      hide View.Good;
      Interleave(stack + [Range(cur, end)]);
      var q := Word(heap, cur);
      if q.Some? {
        ghost var v := V();
        ScheduledTarget(v, stack, Range(cur, end), cur);
        PushContents(q.value, [Range(cur, end)]);
        EvolvesTrans(old(V()), v, V());
      }
      DropWord(V(), stack, Range(cur, end), Range(cur + 1, end), cur);
    }

    /** Scan forwards up to the deferred word, then mark from the value loaded there earlier. */
    method ScanForward(lo: nat, at: nat, deferred: nat)
      requires Shape() && V().Good(stack + [Range(lo, at + 1)]) && lo <= at
      requires Word(heap, at) == Some(deferred) && deferred in heap.lay.objs && (stopped ==> deferred in bound)
      modifies this`heap, this`dirty, this`marks, this`stack, this`state, this`tooSmall
      ensures Shape() && V().Good(stack)
      ensures Evolves(old(V()), V())
      ensures marks == old(marks) ==> stack == old(stack)
    {
      EvolvesRefl(V());
      hide View.Good;
      hide Evolves;
      var cur := lo;
      while cur < at
        invariant lo <= cur <= at
        invariant Shape() && V().Good(stack + [Range(cur, at + 1)])
        invariant Evolves(old(V()), V())
        invariant marks == old(marks) ==> stack == old(stack)
      {
        ghost var v := V();
        ScanWord(cur, at + 1);
        EvolvesTrans(old(V()), v, V());
        cur := cur + 1;
      }
      ghost var v := V();
      EvolvesFrame(old(V()), v);
      PushContents(deferred, [Range(at, at + 1)]);
      EvolvesTrans(old(V()), v, V());
      DeferredDone(old(V()), V(), at, deferred);
      DropWord(V(), stack, Range(at, at + 1), Range(at, at), at);
      DropEmpty(V(), stack, Range(at, at));
    }

    /** Take the top entry off the stack and scan it; of a long range only the first part is
        scanned and the rest stays on the stack. */
    method MarkTop() returns (words: nat)
      requires Shape() && V().Good(stack) && stack != []
      modifies this`heap, this`dirty, this`marks, this`stack, this`state, this`tooSmall
      ensures Shape() && V().Good(stack)
      ensures Evolves(old(V()), V())
      ensures marks == old(marks) ==> Weight(stack) < Weight(old(stack))
    {
      hide View.Good;
      hide Evolves;
      hide Entries;
      hide EntryOk;
      var e := stack[|stack| - 1];
      var rest := stack[..|stack| - 1];
      assert stack == rest + [e];
      WeightPush(rest, e);
      EntriesPop(heap.lay, marks, stack, e.lo);
      var limit := e.hi;
      if e.hi >= e.lo + SPLIT_RANGE_PTRS {
        limit := e.lo + SPLIT_RANGE_PTRS - 1;
        EntriesPop(heap.lay, marks, stack, limit);
        EntriesPush(heap.lay, marks, rest, |rest|, Range(limit, e.hi));
        assert rest[..|rest|] == rest;
        SplitEntry(V(), rest, e, limit);
        WeightPush(rest, Range(limit, e.hi));
        stack := rest + [Range(limit, e.hi)];
      } else {
        stack := rest;
      }
      words := if e.lo <= limit then limit - e.lo else 0;
      ScanWords(e.lo, limit);
    }

    /** GC_mark_from: take entries off the stack and scan them until the stack is empty or
        a block's worth of words has been looked at. */
    method MarkFrom()
      requires Shape() && V().Good(stack)
      modifies this`heap, this`dirty, this`marks, this`stack, this`state, this`tooSmall, this`objectsAreMarked
      ensures Shape() && V().Good(stack)
      ensures objectsAreMarked
      ensures Evolves(old(V()), V())
      ensures marks == old(marks) && old(stack) != [] ==> Weight(stack) < Weight(old(stack))
    {
      EvolvesRefl(V());
      hide View.Good;
      hide Evolves;
      objectsAreMarked := true;
      var credit: int := HBLK_BYTES;
      ghost var first := true;
      while stack != [] && credit >= 0
        invariant Shape() && V().Good(stack) && objectsAreMarked
        invariant Evolves(old(V()), V())
        invariant if first then stack == old(stack) && credit == HBLK_BYTES
                  else marks == old(marks) ==> Weight(stack) < Weight(old(stack))
        decreases |heap.lay.objs.Keys - marks|, Weight(stack)
      {
        ghost var v := V();
        var words := MarkTop();
        credit := credit - words * PTR_BYTES;
        EvolvesTrans(old(V()), v, V());
        if marks != v.marks {
          FewerLeft(heap.lay.objs.Keys, v.marks, marks);
        }
        first := false;
      }
    }

    method PushIfMarked(o: nat)
      requires Shape() && V().Good(stack) && o in heap.lay.objs
      modifies this`stack, this`state, this`tooSmall
      ensures Shape() && V().Good(stack)
      ensures state == old(state) || state == Invalid
      ensures state != Invalid ==> Keeps(old(stack), stack)
      ensures state != Invalid && o in marks ==> forall a: nat :: heap.lay.InObj(o, a) ==> Covered(stack, a)
      ensures |old(stack)| < capacity ==> state == old(state) && |stack| <= |old(stack)| + 1
    {
      hide View.Good;
      if o in marks {
        MarkedSource(V(), stack, o);
        ObjectEntry(heap.lay, marks, o);
        PushRange(Range(o, o + heap.lay.objs[o].len), []);
        assert stack + [] == stack;
      }
    }

    /** One round of GC_push_marked. */
    method PushMember(block: Block, i: nat)
      requires Shape() && V().Good(stack) && i < |block.objs| && block.objs[i] in heap.lay.objs
      requires state != Invalid ==> PrefixPushed(V(), stack, block.objs[..i])
      modifies this`stack, this`state, this`tooSmall
      ensures Shape() && V().Good(stack)
      ensures state == old(state) || state == Invalid
      ensures state != Invalid ==> PrefixPushed(V(), stack, block.objs[..i + 1])
      ensures |old(stack)| < capacity ==> state == old(state) && |stack| <= |old(stack)| + 1
    {
      hide View.Good;
      hide Keeps;
      hide PrefixPushed;
      ghost var before := stack;
      PushIfMarked(block.objs[i]);
      if state != Invalid {
        assert V() == old(V());
        PrefixGrows(V(), before, stack, block.objs, i);
      }
    }

    /** GC_push_marked: schedule every marked object of block `b`. */
    method PushMarked(b: nat)
      requires Shape() && V().Good(stack)
      requires b in heap.lay.blocks
      modifies this`stack, this`state, this`tooSmall, this`objectsAreMarked
      ensures Shape() && V().Good(stack)
      ensures state == old(state) || (state == Invalid && objectsAreMarked)
      ensures old(objectsAreMarked) ==> objectsAreMarked
      ensures state != Invalid ==> BlockPushed(V(), stack, b)
      ensures |old(stack)| + MAX_HBLK_OBJS <= capacity ==>
                state == old(state) && |stack| <= |old(stack)| + MAX_HBLK_OBJS
    {
      hide View.Good;
      hide Keeps;
      hide PrefixPushed;
      hide BlockPushed;
      BlockFacts(V(), stack, b);
      var block := heap.lay.blocks[b];
      if IsPtrFree(block.kind) || forall o :: o in block.objs ==> o !in marks {
        return;
      }
      objectsAreMarked := true;
      var i := 0;
      PrefixEmpty(V(), stack);
      while i < |block.objs|
        invariant 0 <= i <= |block.objs|
        invariant Shape() && V().Good(stack) && objectsAreMarked
        invariant state == old(state) || state == Invalid
        invariant state != Invalid ==> PrefixPushed(V(), stack, block.objs[..i])
        invariant |old(stack)| + MAX_HBLK_OBJS <= capacity ==> state == old(state) && |stack| <= |old(stack)| + i
      {
        PushMember(block, i);
        i := i + 1;
      }
      assert block.objs[..i] == block.objs;
      BlockFacts(V(), stack, b);
    }

    /** GC_push_next_marked: schedule the marked objects of the next block. */
    method PushNextMarked() returns (next: Option<nat>)
      requires Shape() && V().Good(stack)
      modifies this`stack, this`state, this`tooSmall, this`objectsAreMarked
      ensures Shape()
      ensures V().(scan := Some(Past(heap.lay, next))).Good(stack)
      ensures state == old(state) || (state == Invalid && objectsAreMarked)
      ensures old(objectsAreMarked) ==> objectsAreMarked
      ensures next.Some? ==> From(scan) < next.value <= heap.lay.end
      ensures |old(stack)| + MAX_HBLK_OBJS <= capacity ==>
                state == old(state) && |stack| <= |old(stack)| + MAX_HBLK_OBJS
    {
      hide View.Good;
      var found := NextBlock(heap.lay, From(scan));
      if found.None? {
        AdvanceScan(V(), stack, heap.lay.end);
        return None;
      }
      var b := found.value;
      BlockExtent(V(), stack, b);
      var after := b + heap.lay.blocks[b].pages;
      PushMarked(b);
      AdvanceScan(V(), stack, after);
      next := Some(after);
    }

    /** GC_push_next_marked_dirty: the same for the next block with a grungy page. */
    method PushNextMarkedDirty() returns (next: Option<nat>)
      requires Shape() && V().Good(stack) && state == PushRescuers
      modifies this`stack, this`state, this`tooSmall, this`objectsAreMarked
      ensures Shape()
      ensures V().(scan := Some(Past(heap.lay, next))).Good(stack)
      ensures state == old(state) || (state == Invalid && objectsAreMarked)
      ensures old(objectsAreMarked) ==> objectsAreMarked
      ensures next.Some? ==> From(scan) < next.value <= heap.lay.end
      ensures |old(stack)| + MAX_HBLK_OBJS <= capacity ==>
                state == old(state) && |stack| <= |old(stack)| + MAX_HBLK_OBJS
    {
      hide View.Good;
      var h := From(scan);
      while true
        invariant From(scan) <= h
        invariant stack == old(stack) && state == old(state) && tooSmall == old(tooSmall)
        invariant objectsAreMarked == old(objectsAreMarked)
        invariant forall c :: c in heap.lay.blocks && From(scan) <= c < h ==>
                    !BlockPending(heap.lay, state, scan, grungy, c)
        decreases if h <= heap.lay.end then heap.lay.end - h else 0
      {
        var found := NextBlock(heap.lay, h);
        if found.None? {
          AdvanceScan(V(), stack, heap.lay.end);
          return None;
        }
        var b := found.value;
        BlockExtent(V(), stack, b);
        var after := b + heap.lay.blocks[b].pages;
        if heap.lay.BlockTouches(b, grungy) {
          PushMarked(b);
          AdvanceScan(V(), stack, after);
          return Some(after);
        }
        h := after;
      }
    }

    /** GC_push_next_marked_uncollectable: the same for the next block of uncollectable objects. */
    method PushNextMarkedUncollectable() returns (next: Option<nat>)
      requires Shape() && V().Good(stack) && state == PushUncollectable
      modifies this`stack, this`state, this`tooSmall, this`objectsAreMarked
      ensures Shape()
      ensures V().(scan := Some(Past(heap.lay, next))).Good(stack)
      ensures state == old(state) || (state == Invalid && objectsAreMarked)
      ensures old(objectsAreMarked) ==> objectsAreMarked
      ensures next.Some? ==> From(scan) < next.value <= heap.lay.end
      ensures |old(stack)| + MAX_HBLK_OBJS <= capacity ==>
                state == old(state) && |stack| <= |old(stack)| + MAX_HBLK_OBJS
    {
      hide View.Good;
      var h := From(scan);
      while true
        invariant From(scan) <= h
        invariant stack == old(stack) && state == old(state) && tooSmall == old(tooSmall)
        invariant objectsAreMarked == old(objectsAreMarked)
        invariant forall c :: c in heap.lay.blocks && From(scan) <= c < h ==>
                    !BlockPending(heap.lay, state, scan, grungy, c)
        decreases if h <= heap.lay.end then heap.lay.end - h else 0
      {
        var found := NextBlock(heap.lay, h);
        if found.None? {
          AdvanceScan(V(), stack, heap.lay.end);
          return None;
        }
        var b := found.value;
        BlockExtent(V(), stack, b);
        var after := b + heap.lay.blocks[b].pages;
        if heap.lay.blocks[b].kind == Uncollectable {
          PushMarked(b);
          AdvanceScan(V(), stack, after);
          return Some(after);
        }
        h := after;
      }
    }

    /** The test `(word)(top - bottom) > 3 * size / 4` on unsigned words: it also holds of the
        empty stack, whose top lies one below its bottom. */
    predicate OverflowDanger()
      reads this
    {
      |stack| == 0 || |stack| - 1 > 3 * capacity / 4
    }

    /** Schedule words `mid` up to `hi` of a range whose grungy words below `mid` are scheduled. */
    method PushPart(lo: nat, mid: nat, hi: nat, ghost extra: seq<Range>)
      requires Shape() && V().Good(stack + extra) && lo <= mid <= hi
      requires state != Invalid ==> GrungyPushed(stack, grungy, lo, mid)
      requires forall a: nat :: lo <= a < hi ==> heap.lay.InRoots(a)
      modifies this`stack, this`state, this`tooSmall
      ensures Shape() && V().Good(stack + extra)
      ensures state == old(state) || state == Invalid
      ensures state != Invalid ==> Keeps(old(stack), stack) && GrungyPushed(stack, grungy, lo, hi)
    {
      hide View.Good;
      hide PushStack;
      PushRange(Range(mid, hi), extra);
      if state != Invalid {
        GrungyStep(old(stack), stack, grungy, lo, mid, hi);
      }
    }

    /** GC_push_selected: schedule the parts of a root range that lie on grungy pages, page by
        page, or all that is left of it when the stack is filling up. */
    method PushSelected(bottom: nat, top: nat, ghost extra: seq<Range>)
      requires Shape() && V().Good(stack + extra)
      requires forall a: nat :: bottom <= a < top ==> heap.lay.InRoots(a)
      modifies this`stack, this`state, this`tooSmall
      ensures Shape() && V().Good(stack + extra)
      ensures state == old(state) || state == Invalid
      ensures state != Invalid ==> Keeps(old(stack), stack) && GrungyPushed(stack, grungy, bottom, top)
    {
      hide View.Good;
      if bottom >= top {
        return;
      }
      var h := bottom / PAGE_WORDS + 1;
      if h * PAGE_WORDS >= top {
        if h - 1 in grungy {
          PushPart(bottom, bottom, top, extra);
        }
        return;
      }
      if h - 1 in grungy {
        if OverflowDanger() {
          PushPart(bottom, bottom, top, extra);
          return;
        }
        PushPart(bottom, bottom, h * PAGE_WORDS, extra);
      }
      while top >= (h + 1) * PAGE_WORDS
        invariant bottom <= h * PAGE_WORDS <= top
        invariant Shape() && V().Good(stack + extra)
        invariant state == old(state) || state == Invalid
        invariant state != Invalid ==> Keeps(old(stack), stack) && GrungyPushed(stack, grungy, bottom, h * PAGE_WORDS)
      {
        if h in grungy {
          ghost var s := stack;
          if OverflowDanger() {
            PushPart(bottom, h * PAGE_WORDS, top, extra);
            if state != Invalid {
              KeepsTrans(old(stack), s, stack);
            }
            return;
          }
          PushPart(bottom, h * PAGE_WORDS, (h + 1) * PAGE_WORDS, extra);
        }
        h := h + 1;
      }
      if h * PAGE_WORDS != top && h in grungy {
        PushPart(bottom, h * PAGE_WORDS, top, extra);
      }
    }

    /** GC_push_roots, first part: the static data, whole or only its grungy pages. */
    method PushStaticRoots(all: bool)
      requires Shape() && V().Good(stack + (heap.lay.roots + heap.lay.stacks))
      requires state != Invalid && !all ==> CleanRootsOk(V(), stack)
      modifies this`stack, this`state, this`tooSmall
      ensures Shape() && V().Good(stack + heap.lay.stacks)
      ensures state == old(state) || state == Invalid
      ensures all && |old(stack)| + |heap.lay.roots| <= capacity ==> state == old(state)
    {
      hide View.Good;
      hide CleanRootsOk;
      hide GrungyPushed;
      hide Keeps;
      hide PushStack;
      var k := 0;
      assert heap.lay.roots[0..] == heap.lay.roots;
      while k < |heap.lay.roots|
        invariant 0 <= k <= |heap.lay.roots|
        invariant Shape() && V().Good(stack + (heap.lay.roots[k..] + heap.lay.stacks))
        invariant state == old(state) || state == Invalid
        invariant state != Invalid && !all ==> CleanRootsOk(V(), stack)
        invariant all && |old(stack)| + |heap.lay.roots| <= capacity ==>
                    state == old(state) && |stack| <= |old(stack)| + k
      {
        PushRoot(k, all);
        k := k + 1;
      }
      assert heap.lay.roots[k..] + heap.lay.stacks == heap.lay.stacks;
    }

    method PushRoot(k: nat, all: bool)
      requires k < |heap.lay.roots|
      requires Shape() && V().Good(stack + (heap.lay.roots[k..] + heap.lay.stacks))
      requires state != Invalid && !all ==> CleanRootsOk(V(), stack)
      modifies this`stack, this`state, this`tooSmall
      ensures Shape() && V().Good(stack + (heap.lay.roots[k + 1..] + heap.lay.stacks))
      ensures state == old(state) || state == Invalid
      ensures state != Invalid && !all ==> CleanRootsOk(V(), stack)
      ensures all && |old(stack)| < capacity ==> state == old(state) && |stack| == |old(stack)| + 1
    {
      hide View.Good;
      var r := heap.lay.roots[k];
      RootWords(heap.lay, k);
      ghost var tail := heap.lay.roots[k + 1..] + heap.lay.stacks;
      assert heap.lay.roots[k..] + heap.lay.stacks == [r] + tail;
      if all {
        PushRange(r, [r] + tail);
      } else {
        PushSelected(r.lo, r.hi, [r] + tail);
      }
      RootDone(V(), old(stack), stack, k, tail, all);
    }

    /** GC_push_all_stack: one range if there is room for it, else word by word. */
    method PushAllStack(k: nat)
      requires k < |heap.lay.stacks|
      requires Shape() && V().Good(stack + heap.lay.stacks[k..])
      modifies this`heap, this`dirty, this`marks, this`stack, this`state, this`tooSmall
      ensures heap.lay == old(heap.lay)
      ensures Shape() && V().Good(stack + heap.lay.stacks[k + 1..])
      ensures Evolves(old(V()), V())
    {
      hide View.Good;
      var r := heap.lay.stacks[k];
      ghost var tail := heap.lay.stacks[k + 1..];
      StackWords(heap.lay, k);
      if lazyStacks && |stack| - 1 < capacity - INITIAL_MARK_STACK_SIZE / 8 {
        PushRange(r, [r] + tail);
        DropRange(V(), stack, r, tail);
      } else {
        PushAllEager(r, tail);
      }
    }

    /** GC_push_all_eager: mark from each word at once. */
    method PushAllEager(r: Range, ghost tail: seq<Range>)
      requires Shape() && V().Good(stack + ([r] + tail))
      modifies this`heap, this`dirty, this`marks, this`stack, this`state, this`tooSmall
      ensures Shape() && V().Good(stack + tail)
      ensures Evolves(old(V()), V())
    {
      EvolvesRefl(V());
      hide View.Good;
      hide Evolves;
      var cur := r.lo;
      while cur < r.hi
        invariant cur <= r.hi || cur == r.lo
        invariant Shape() && V().Good(stack + ([Range(cur, r.hi)] + tail))
        invariant Evolves(old(V()), V())
        decreases if cur <= r.hi then r.hi - cur else 0
      {
        ghost var v := V();
        EagerWord(cur, r.hi, tail);
        EvolvesTrans(old(V()), v, V());
        cur := cur + 1;
      }
      DropRange(V(), stack, Range(cur, r.hi), tail);
    }

    method EagerWord(cur: nat, hi: nat, ghost tail: seq<Range>)
      requires Shape() && V().Good(stack + ([Range(cur, hi)] + tail)) && cur < hi
      modifies this`heap, this`dirty, this`marks, this`stack, this`state, this`tooSmall
      ensures Shape() && V().Good(stack + ([Range(cur + 1, hi)] + tail))
      ensures Evolves(old(V()), V())
    {
      hide View.Good;
      Interleave(stack + ([Range(cur, hi)] + tail));
      var q := Word(heap, cur);
      if q.Some? {
        ghost var v := V();
        TailTarget(v, stack, Range(cur, hi), cur, tail);
        PushContents(q.value, [Range(cur, hi)] + tail);
        EvolvesTrans(old(V()), v, V());
      }
      DropWordTail(V(), stack, Range(cur, hi), Range(cur + 1, hi), cur, tail);
    }

    /** GC_push_roots, last part: thread stacks and registers. */
    method PushStacks()
      requires Shape() && V().Good(stack + heap.lay.stacks)
      modifies this`heap, this`dirty, this`marks, this`stack, this`state, this`tooSmall
      ensures Shape() && V().Good(stack)
      ensures Evolves(old(V()), V())
    {
      EvolvesRefl(V());
      hide View.Good;
      hide Evolves;
      var k := 0;
      assert heap.lay.stacks[0..] == heap.lay.stacks;
      while k < |heap.lay.stacks|
        invariant 0 <= k <= |heap.lay.stacks|
        invariant heap.lay == old(heap.lay)
        invariant Shape() && V().Good(stack + heap.lay.stacks[k..])
        invariant Evolves(old(V()), V())
      {
        ghost var v := V();
        PushAllStack(k);
        EvolvesTrans(old(V()), v, V());
        k := k + 1;
      }
      assert stack + heap.lay.stacks[k..] == stack;
    }

    /** push_roots_and_advance.  The new state is recorded before the roots are pushed: nothing
        in between looks at it, and an overflow overrides it either way. */
    method PushRootsAndAdvance(all: bool)
      requires Shape() && scan.None?
      requires V().(scan := Some(heap.lay.end)).Good(stack)
      requires state != RootsPushed && state != MsNone
      requires !all ==> state == PushRescuers || state == Invalid
      modifies this`heap, this`dirty, this`marks, this`stack, this`state, this`tooSmall, this`objectsAreMarked
      ensures Shape() && V().Good(stack)
      ensures objectsAreMarked
      ensures Runs(old(V()), V()) && scan.None?
      ensures state == RootsPushed || state == Invalid
      ensures old(state) != Invalid && all && |old(stack)| + |heap.lay.roots| <= capacity && marks == old(marks) ==>
                state == RootsPushed
    {
      hide View.Good;
      hide Entries;
      hide CleanRootsOk;
      EnterRootsPushed(V(), stack);
      ghost var v := V();
      if state != Invalid {
        state := RootsPushed;
        assert V() == v.(state := RootsPushed);
        CleanRootsAnyState(v, stack);
      }
      PushStaticRoots(all);
      PushStacks();
      objectsAreMarked := true;
    }

    /** alloc_mark_stack: try to double the empty stack; failing is silent. */
    method GrowStack()
      requires Shape()
      modifies this`stack, this`capacity, this`tooSmall
      ensures Shape() && stack == [] && !tooSmall && (capacity == old(capacity) || capacity == 2 * old(capacity))
    {
      tooSmall := false;
      var granted: bool := *;
      if granted {
        capacity := 2 * capacity;
      }
      stack := [];
    }

    /** MARK_FROM_MARK_STACK as one step of the state machine. */
    method MarkFromStep()
      requires Inv() && stack != [] && state != MsNone
      modifies this`heap, this`dirty, this`marks, this`stack, this`state, this`scan, this`capacity,
               this`tooSmall, this`objectsAreMarked
      ensures Inv()
      ensures Runs(old(V()), V()) && old(capacity) <= capacity
      ensures state != MsNone
      ensures Less(Measure(), old(Measure()))
    {
      hide View.Good;
      MarkFrom();
      MarkFromLess(old(V()), V(), old(stack), stack, old(objectsAreMarked));
    }

    /** MS_PUSH_RESCUERS with room on the mark stack: the next block, or the roots. */
    method PushRescuersBlock()
      requires Inv() && state == PushRescuers && |stack| - 1 < capacity - INITIAL_MARK_STACK_SIZE / 2
      modifies this`heap, this`dirty, this`marks, this`stack, this`state, this`scan, this`capacity,
               this`tooSmall, this`objectsAreMarked
      ensures Inv()
      ensures Runs(old(V()), V()) && old(capacity) <= capacity
      ensures state != MsNone
      ensures Advances(old(state), state, objectsAreMarked, old(scan), scan, heap.lay.end)
    {
      hide View.Good;
      hide Evolves;
      hide OnlyUncollectable;
      scan := PushNextMarkedDirty();
      if scan.None? {
        PushRootsAndAdvance(false);
      } else {
        assert V() == old(V()).(scan := scan, state := state);
      }
    }

    /** MS_PUSH_RESCUERS. */
    method StepPushRescuers()
      requires Inv() && state == PushRescuers
      modifies this`heap, this`dirty, this`marks, this`stack, this`state, this`scan, this`capacity,
               this`tooSmall, this`objectsAreMarked
      ensures Inv()
      ensures Runs(old(V()), V()) && old(capacity) <= capacity
      ensures state != MsNone
      ensures Less(Measure(), old(Measure()))
    {
      hide View.Good;
      hide Evolves;
      hide Runs;
      if |stack| - 1 >= capacity - INITIAL_MARK_STACK_SIZE / 2 {
        tooSmall := true;
        MarkFromStep();
      } else {
        PushRescuersBlock();
        AdvancesLess(old(V()), V(), old(stack), stack, old(objectsAreMarked), objectsAreMarked);
      }
    }

    /** MS_PUSH_UNCOLLECTABLE with room on the mark stack: the next block, or the roots. */
    method PushUncollectableBlock()
      requires Inv() && state == PushUncollectable && |stack| - 1 < capacity / 4
      modifies this`heap, this`dirty, this`marks, this`stack, this`state, this`scan, this`capacity,
               this`tooSmall, this`objectsAreMarked
      ensures Inv()
      ensures Runs(old(V()), V()) && old(capacity) <= capacity
      ensures state != MsNone
      ensures Advances(old(state), state, objectsAreMarked, old(scan), scan, heap.lay.end)
    {
      hide View.Good;
      hide Evolves;
      hide OnlyUncollectable;
      scan := PushNextMarkedUncollectable();
      if scan.None? {
        PushRootsAndAdvance(true);
      } else {
        assert V() == old(V()).(scan := scan, state := state);
      }
    }

    /** MS_PUSH_UNCOLLECTABLE. */
    method StepPushUncollectable()
      requires Inv() && state == PushUncollectable
      modifies this`heap, this`dirty, this`marks, this`stack, this`state, this`scan, this`capacity,
               this`tooSmall, this`objectsAreMarked
      ensures Inv()
      ensures Runs(old(V()), V()) && old(capacity) <= capacity
      ensures state != MsNone
      ensures Less(Measure(), old(Measure()))
    {
      hide View.Good;
      hide Evolves;
      hide Runs;
      if |stack| - 1 >= capacity / 4 {
        MarkFromStep();
      } else {
        PushUncollectableBlock();
        AdvancesLess(old(V()), V(), old(stack), stack, old(objectsAreMarked), objectsAreMarked);
      }
    }

    /** MS_ROOTS_PUSHED, without parallel markers. */
    method StepRootsPushed()
      requires Inv() && state == RootsPushed
      modifies this`heap, this`dirty, this`marks, this`stack, this`state, this`scan, this`capacity,
               this`tooSmall, this`objectsAreMarked
      ensures Inv()
      ensures Runs(old(V()), V()) && old(capacity) <= capacity
      ensures state == MsNone <==> old(stack) == []
      ensures state != MsNone ==> Less(Measure(), old(Measure()))
    {
      hide View.Good;
      if stack != [] {
        MarkFromStep();
      } else {
        EnterNone(V());
        ghost var v := V();
        if tooSmall {
          GrowStack();
        }
        state := MsNone;
        assert V() == v.(state := MsNone);
      }
    }

    /** MS_INVALID and MS_PARTIALLY_INVALID. */
    method StepInvalid()
      requires Inv() && (state == Invalid || state == PartiallyInvalid)
      modifies this`heap, this`dirty, this`marks, this`stack, this`state, this`scan, this`capacity,
               this`tooSmall, this`objectsAreMarked
      ensures Inv()
      ensures Runs(old(V()), V()) && old(capacity) <= capacity
      ensures state != MsNone
      ensures old(Room()) ==> Less(Measure(), old(Measure()))
    {
      hide View.Good;
      if state == Invalid && !objectsAreMarked {
        EnterPushUncollectable(V());
        ghost var v := V();
        state := PushUncollectable;
        assert V() == v.(state := PushUncollectable);
      } else if stack != [] {
        MarkFromStep();
      } else {
        Rescan();
      }
    }

    /** MS_INVALID with nothing on the stack and no scan in progress: begin one. */
    method BeginRescan()
      requires Inv() && state == Invalid && scan.None? && stack == []
      modifies this`stack, this`state, this`capacity, this`tooSmall
      ensures Shape() && V() == old(V()).(state := PartiallyInvalid) && V().Good(stack) && stack == []
      ensures old(capacity) <= capacity
    {
      hide View.Good;
      hide Entries;
      EnterPartiallyInvalid(V(), stack);
      ghost var v := V();
      if tooSmall {
        GrowStack();
      }
      state := PartiallyInvalid;
      assert V() == v.(state := PartiallyInvalid);
    }

    /** With an empty stack, schedule the marked objects of the next block; after the last one,
        the roots. */
    method Rescan()
      requires Inv() && (state == Invalid || state == PartiallyInvalid) && stack == []
      requires state == Invalid ==> objectsAreMarked
      modifies this`heap, this`dirty, this`marks, this`stack, this`state, this`scan, this`capacity,
               this`tooSmall, this`objectsAreMarked
      ensures Inv()
      ensures Runs(old(V()), V()) && old(capacity) <= capacity
      ensures state != MsNone
      ensures old(Room()) ==> Less(Measure(), old(Measure()))
    {
      hide View.Good;
      hide Rank;
      hide Remaining;
      hide Less;
      hide Weight;
      hide OnlyUncollectable;
      hide Entries;
      if scan.None? && state == Invalid {
        BeginRescan();
      }
      RescanBlock();
      if old(Room()) {
        RescanLess(old(V()), V(), old(stack), stack, old(objectsAreMarked), objectsAreMarked);
      }
    }

    method RescanBlock()
      requires Shape() && V().Good(stack) && stack == []
      requires state == PartiallyInvalid || (state == Invalid && objectsAreMarked && scan.Some?)
      requires scan.Some? ==> scan.value <= heap.lay.end
      modifies this`heap, this`dirty, this`marks, this`stack, this`state, this`scan, this`tooSmall,
               this`objectsAreMarked
      ensures Inv()
      ensures Runs(old(V()), V())
      ensures state == old(state) || state == Invalid || state == RootsPushed
      ensures state == Invalid ==> objectsAreMarked
      ensures marks == old(marks) && Room() ==>
                || state == RootsPushed
                || (state == old(state) && scan.Some? && From(old(scan)) < scan.value)
                || (state == old(state) == Invalid && scan.None?)
    {
      hide View.Good;
      ghost var v := V();
      scan := PushNextMarked();
      assert V() == v.(scan := scan, state := state);
      if scan.None? {
        if state == PartiallyInvalid {
          PushRootsAndAdvance(true);
        } else {
          InvalidAnyScan(V().(scan := Some(heap.lay.end)), None, stack);
        }
      }
    }

    /** GC_mark_some: do some marking; TRUE means that there is none left to do.  Unless it
        returns TRUE it makes progress, given room on the stack. */
    method MarkSome() returns (done: bool)
      requires Inv()
      modifies this`heap, this`dirty, this`marks, this`stack, this`state, this`scan, this`capacity,
               this`tooSmall, this`objectsAreMarked
      ensures Inv()
      ensures Runs(old(V()), V()) && old(capacity) <= capacity
      ensures done <==> state == MsNone
      ensures !done && old(Room()) ==> Less(Measure(), old(Measure()))
    {
      hide View.Good;
      match state {
        case MsNone =>
        case PushRescuers => StepPushRescuers();
        case PushUncollectable => StepPushUncollectable();
        case RootsPushed => StepRootsPushed();
        case _ => StepInvalid();
      }
      done := state == MsNone;
    }

    /** GC_clear_marks after GC_invalidate_mark_state: forget all marks but those of
        uncollectable objects. */
    method ClearMarks()
      requires heap.Valid() && Shape() && !stopped
      modifies this`marks, this`stack, this`state, this`scan, this`objectsAreMarked
      ensures Inv()
      ensures state == Invalid && !objectsAreMarked && stack == [] && scan.None?
      ensures forall o: nat :: o in marks <==>
                && o in old(marks) && o in heap.lay.objs && heap.lay.objs[o].block in heap.lay.blocks
                && (heap.lay.blocks[heap.lay.objs[o].block].kind == Uncollectable
                    || heap.lay.blocks[heap.lay.objs[o].block].kind == AUncollectable)
    {
      KeptMarksIs(heap.lay, marks);
      ClearedGood(V());
      hide View.Good;
      hide OnlyUncollectable;
      hide KeptMarks;
      ghost var v := V();
      stack := [];
      state := Invalid;
      marks := KeptMarks(heap.lay, marks);
      objectsAreMarked := false;
      scan := None;
      assert V() == v.(state := Invalid, scan := None, marks := marks);
    }

    /** GC_initiate_gc, with the world stopped: fetch the dirty bits and start over. */
    method InitiateGc(ghost limit: set<nat>)
      requires Inv() && !stopped && (state == MsNone || state == Invalid)
      requires heap.ClosedSet(limit) && heap.HoldsRoots(limit) && marks <= limit
      modifies this`dirty, this`state, this`scan, this`grungy, this`stopped, this`bound
      ensures Inv() && stopped && dirty == {} && bound == limit && scan.None?
      ensures state == (if old(state) == MsNone then PushRescuers else Invalid)
      ensures grungy == (if old(state) == MsNone then old(dirty) else old(grungy))
    {
      hide View.Good;
      hide Heap.ClosedSet;
      hide Heap.HoldsRoots;
      hide OnlyUncollectable;
      hide Entries;
      ghost var v := V();
      if state == MsNone {
        grungy := dirty;
      }
      dirty := {};
      InitiateGood(v, grungy, limit, stack);
      stopped := true;
      bound := limit;
      state := if state == MsNone then PushRescuers else state;
      scan := None;
      assert V() == Initiated(v, grungy, limit);
    }

    /** With the world stopped, mark until done or until the stop function has been asked `patience`
        times. */
    method MarkStopped(patience: Option<nat>) returns (ok: bool, polls: nat)
      requires Inv() && stopped && dirty == {} && state != MsNone && (patience.None? ==> Room())
      modifies this`heap, this`dirty, this`marks, this`stack, this`state, this`scan, this`capacity,
               this`tooSmall, this`objectsAreMarked
      ensures Inv() && dirty == {} && heap == old(heap) && old(marks) <= marks && old(capacity) <= capacity
      ensures (ok <==> state == MsNone) && (ok || patience == Some(polls))
    {
      hide View.Good;
      hide OnlyUncollectable;
      hide Entries;
      hide Rank;
      hide Remaining;
      hide Weight;
      polls := 0;
      ok := false;
      while !ok && (patience.Some? ==> polls < patience.value)
        invariant Inv() && dirty == {} && heap == old(heap) && old(marks) <= marks && old(capacity) <= capacity
        invariant ok <==> state == MsNone
        invariant patience.Some? ==> polls <= patience.value
        invariant patience.None? ==> Room()
        decreases if patience.Some? then patience.value - polls else 0,
                  if ok then 0 else 1,
                  Measure().0, Measure().1, Measure().2, Measure().3
      {
        ok := MarkSome();
        polls := polls + 1;
      }
    }

    /** GC_stopped_mark: stop the world, read the dirty bits, mark until done or until the stop
        function has been asked `patience` times.  `limit` bounds what may be marked. */
    method StoppedMark(patience: Option<nat>, ghost limit: set<nat>) returns (ok: bool)
      requires Inv() && !stopped && (state == MsNone || state == Invalid)
      requires heap.ClosedSet(limit) && heap.HoldsRoots(limit) && marks <= limit
      requires patience.None? ==> Room()
      modifies this`heap, this`dirty, this`marks, this`stack, this`state, this`scan, this`capacity,
               this`tooSmall, this`objectsAreMarked, this`grungy, this`stopped, this`bound, this`deficit
      ensures Inv() && !stopped
      ensures heap == old(heap) && old(marks) <= marks <= limit && old(capacity) <= capacity
      ensures patience.None? ==> ok
      ensures deficit == if ok then old(deficit) else patience.value
      ensures ok <==> state == MsNone
      ensures ok ==> Holds(marks, heap, old(marks))
    {
      hide View.Good;
      hide Heap.ClosedSet;
      hide Heap.HoldsRoots;
      hide OnlyUncollectable;
      hide Entries;
      hide Holds;
      InitiateGc(limit);
      var polls;
      ok, polls := MarkStopped(patience);
      MarksBounded(V(), stack);
      if ok {
        FinishedMarksAll(V(), old(marks));
      } else {
        deficit := polls;
      }
      RestartGood(V(), stack);
      ghost var w := V();
      stopped := false;
      assert V() == w.(stopped := false);
    }

    /** GC_try_to_collect_inner: a full collection.  When it succeeds, exactly the objects that
        are reachable from the roots and from uncollectable objects are marked. */
    method TryToCollect(patience: Option<nat>) returns (ok: bool)
      requires heap.Valid() && Shape() && !stopped
      requires patience.None? ==> Room()
      modifies this`heap, this`dirty, this`marks, this`stack, this`state, this`scan, this`capacity,
               this`tooSmall, this`objectsAreMarked, this`grungy, this`stopped, this`bound, this`deficit
      ensures Inv() && !stopped && heap == old(heap)
      ensures patience.None? ==> ok
      ensures ok ==> state == MsNone
      ensures ok ==> forall q: nat :: q in marks <==>
                exists path :: heap.IsPath(path, q) &&
                  (|| heap.RootEdge(path[0])
                   || (&& path[0] in old(marks) && path[0] in heap.lay.objs
                       && heap.lay.objs[path[0]].block in heap.lay.blocks
                       && (heap.lay.blocks[heap.lay.objs[path[0]].block].kind == Uncollectable
                           || heap.lay.blocks[heap.lay.objs[path[0]].block].kind == AUncollectable)))
    {
      hide View.Good;
      hide Heap.IsPath;
      hide Heap.RootEdge;
      ClearMarks();
      ghost var kept := marks;
      ReachableSetClosed(heap, kept);
      ok := StoppedMark(patience, ReachableSet(heap, kept));
      if ok {
        forall q: nat
          ensures q in marks <==> heap.Reachable(kept, q)
        {
        }
      }
    }

    /** The mutator allocates an object between two steps of the marker. */
    method Allocate(o: nat, len: nat, b: nat, pages: nat, kind: Kind) returns (ok: bool)
      requires Inv() && !stopped
      modifies this`heap, this`dirty, this`marks
      ensures Inv()
      ensures ok == CanPlace(old(heap.lay), o, len, b, pages, kind)
      ensures V() == if ok then Allocated(old(V()), o, len, b, pages, kind) else old(V())
      ensures ok ==> Placed(old(heap), heap, o, len, b, pages, kind)
      ensures ok ==> forall p :: p in marks <==> p in old(marks) || (p == o && kind in {Uncollectable, AUncollectable})
      ensures ok ==> forall g: nat :: g in dirty <==> g in old(dirty) || b <= g < b + pages
    {
      hide View.Good;
      hide CanPlace;
      hide OnlyUncollectable;
      hide Entries;
      ok := CanPlace(heap.lay, o, len, b, pages, kind);
      if ok {
        AllocatedGood(V(), o, len, b, pages, kind, stack);
        AllocatedFresh(V(), o, len, b, pages, kind, stack);
        AllocatedEntries(V(), o, len, b, pages, kind, stack);
        AllocHeapIs(heap, o, len, b, pages, kind);
        hide Placed;
        ghost var w := Allocated(V(), o, len, b, pages, kind);
        heap := AllocHeap(heap, o, len, b, pages, kind);
        dirty := dirty + Span(b, pages);
        marks := AllocMarks(marks, o, kind);
        assert V() == w;
      }
    }

    /** Take the entries that start in `o` off the stack, each time filling the gap from the top. */
    method DropEntries(o: nat)
      requires o in heap.lay.objs
      modifies this`stack
      ensures |stack| <= |old(stack)|
      ensures Dropped(heap.lay, o, old(stack), stack)
    {
      var i := 0;
      while i < |stack|
        invariant 0 <= i <= |stack| <= |old(stack)|
        invariant forall k :: 0 <= k < i ==> !Inside(heap.lay, o, stack[k])
        invariant forall e :: !Inside(heap.lay, o, e) ==> multiset(stack)[e] == multiset(old(stack))[e]
        decreases |stack| - i
      {
        if o <= stack[i].lo < o + heap.lay.objs[o].len {
          forall e
            ensures multiset(Filled(stack, i))[e] == multiset(stack)[e] - if e == stack[i] then 1 else 0
          {
            FilledHas(stack, i, e);
          }
          stack := Filled(stack, i);
        } else {
          i := i + 1;
        }
      }
      forall e | Inside(heap.lay, o, e)
        ensures e !in multiset(stack)
      {
        assert e !in stack;
      }
    }

    /** GC_free of a large object, while marking may be in progress: its entries are taken off the
        mark stack before its blocks are given up. */
    method Free(o: nat)
      requires Inv() && !stopped && IsLarge(heap.lay, o)
      modifies this`heap, this`marks, this`stack
      ensures Inv() && V() == Freed(old(V()), o)
      ensures Removed(old(heap), heap, o) && marks == old(marks) - {o}
      ensures Dropped(old(heap.lay), o, old(stack), stack)
    {
      hide Removed;
      hide Inside;
      hide IsLarge;
      LargeThere(heap.lay, o);
      FreeHeapIs(heap, o);
      hide View.Good;
      hide OnlyUncollectable;
      hide Entries;
      ghost var v, before := V(), stack;
      if state != MsNone {
        DropEntries(o);
      }
      hide Dropped;
      DroppedHas(heap.lay, o, before, stack);
      FreedGood(v, o, before, stack);
      FreedEntries(v, o, before, stack);
      FreedRest(v, o);
      heap := FreeHeap(heap, o);
      marks := marks - {o};
      assert V() == Freed(v, o);
    }

    /** The marking of GC_collect_a_little_inner while the mutator runs: as many steps as the deficit
        leaves of `max`.  `complete` says that there was none left to do. */
    method MarkALittle(max: nat) returns (complete: bool)
      requires Inv() && !stopped && state != MsNone
      modifies this`heap, this`dirty, this`marks, this`stack, this`state, this`scan, this`capacity,
               this`tooSmall, this`objectsAreMarked
      ensures Inv() && heap.lay == old(heap.lay) && old(capacity) <= capacity && old(marks) <= marks
      ensures complete <==> state == MsNone
      ensures old(Room()) && !complete && deficit < max ==> Less(Measure(), old(Measure()))
      ensures deficit >= max ==> !complete && Measure() == old(Measure())
    {
      hide View.Good;
      hide Less;
      var i := deficit;
      complete := false;
      while i < max && !complete
        invariant Inv() && !stopped && heap.lay == old(heap.lay) && old(capacity) <= capacity && old(marks) <= marks
        invariant complete <==> state == MsNone
        invariant !complete && old(Room()) ==>
                    if i == deficit then Measure() == old(Measure()) else Less(Measure(), old(Measure()))
        invariant deficit <= i && (deficit >= max ==> i == deficit && !complete && Measure() == old(Measure()))
        decreases max - i, if complete then 0 else 1
      {
        ghost var before := Measure();
        complete := MarkSome();
        if !complete {
          if old(Room()) {
            LessTrans(Measure(), before, old(Measure()));
          }
          i := i + 1;
        }
      }
    }

    /** How far an incremental collection is from its end. */
    ghost predicate Closer(attempts0: nat, measure0: (nat, nat, nat, nat), deficit0: nat)
      reads this
    {
      || attempts == attempts0 + 1
      || (attempts == attempts0 && Less(Measure(), measure0))
      || (attempts == attempts0 && Measure() == measure0 && deficit < deficit0)
    }

    /** GC_collect_a_little_inner, with a collection in progress: some marking while the mutator
        runs; if that completes it, try to finish with the world stopped. */
    method CollectALittle(max: nat, maxAttempts: nat, patience: nat)
      requires Inv() && !stopped && state != MsNone && (attempts >= maxAttempts ==> Room())
      modifies this`heap, this`dirty, this`marks, this`stack, this`state, this`scan, this`capacity, this`tooSmall,
               this`objectsAreMarked, this`grungy, this`stopped, this`bound, this`attempts, this`deficit
      ensures Inv() && !stopped && heap.lay == old(heap.lay) && old(capacity) <= capacity && old(marks) <= marks
      ensures state == MsNone ==> Holds(marks, heap, old(marks)) && attempts == 0
      ensures state != MsNone && attempts != old(attempts) ==> attempts == old(attempts) + 1 <= maxAttempts
      ensures state != MsNone && old(Room()) && max > 0 ==> Closer(old(attempts), old(Measure()), old(deficit))
    {
      hide View.Good;
      hide Less;
      hide Holds;
      hide Entries;
      hide OnlyUncollectable;
      hide Rank;
      hide Remaining;
      hide Weight;
      var complete := MarkALittle(max);
      if complete {
        AllClosed(V(), stack);
        ghost var marks0 := marks;
        var ok := StoppedMark(if attempts < maxAttempts then Some(patience) else None, heap.lay.objs.Keys);
        if ok {
          HoldsMore(marks, heap, old(marks), marks0);
        }
        attempts := if ok then 0 else attempts + 1;
      }
      deficit := if deficit > max then deficit - max else 0;
    }

    /** The loop of GC_try_to_collect_inner that finishes a collection in progress.  It ends, even
        if the mutator goes on storing, and then everything reachable is marked. */
    method FinishCollection(max: nat, maxAttempts: nat, patience: nat)
      requires Inv() && !stopped && Room() && max > 0
      modifies this`heap, this`dirty, this`marks, this`stack, this`state, this`scan, this`capacity, this`tooSmall,
               this`objectsAreMarked, this`grungy, this`stopped, this`bound, this`attempts, this`deficit
      ensures Inv() && !stopped && state == MsNone && heap.lay == old(heap.lay) && old(marks) <= marks
      ensures old(state) != MsNone ==> Holds(marks, heap, old(marks))
    {
      hide View.Good;
      hide Holds;
      hide Rank;
      hide Remaining;
      hide Weight;
      hide Entries;
      hide OnlyUncollectable;
      while state != MsNone
        invariant Inv() && !stopped && Room() && heap.lay == old(heap.lay) && old(marks) <= marks
        invariant state == MsNone && old(state) != MsNone ==> Holds(marks, heap, old(marks))
        decreases if state == MsNone then 0 else 1, if attempts < maxAttempts then maxAttempts - attempts else 0,
                  Measure().0, Measure().1, Measure().2, Measure().3, deficit
      {
        Interleave(stack);
        ghost var marks0 := marks;
        CollectALittle(max, maxAttempts, patience);
        if state == MsNone {
          HoldsMore(marks, heap, old(marks), marks0);
        }
      }
    }
  }

  lemma HoldsMore(all: set<nat>, h: Heap, extra: set<nat>, more: set<nat>)
    requires Holds(all, h, more) && extra <= more
    ensures Holds(all, h, extra)
  {
    forall q: nat | h.Reachable(extra, q)
      ensures h.Reachable(more, q)
    {
      var path :| h.IsPath(path, q) && (h.RootEdge(path[0]) || path[0] in extra);
    }
  }
}
