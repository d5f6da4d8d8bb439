/** The parallel marker: helpers steal entries of the shared mark stack, mark from local
    stacks, give work back, and agree on when no work is left.

    Each step is one shared-memory access or one section under the mark lock.  The world is
    stopped, so the heap does not change. */
module ParallelMarking {
  import opened Prelude
  import opened MarkHeap

  const LOCAL_MARK_STACK_SIZE: nat := HBLK_BYTES
  const SHARE_WORDS: nat := 256           // SHARE_BYTES in words
  const ENTRIES_TO_GET: nat := 5

  /** Where a helper is in `GC_mark_local`. */
  datatype Pc =
    | Idle                                              // not taking part in this cycle
    | Start                                             // head of the loop
    | Compare(seen: nat)                                // GC_first_nonempty was loaded
    | Look                                              // about to load GC_mark_stack_top
    | Lock                                              // nothing seen; about to make sure under the lock
    | Steal(p: nat, end: nat, taken: nat, want: nat)    // GC_steal_mark_stack
    | Take(p: nat, end: nat, taken: nat, want: nat, e: Range)   // descriptor loaded, not yet cleared
    | Local                                             // marking from the local stack
    | Popped(r: Range)                                  // range taken off, may be split
    | Scan(r: Range)                                    // words still to be looked at
    | Tail                                              // GC_mark_from returned
    | Sharing(top: nat)                                 // GC_mark_stack_top was loaded, for sharing work
    | Testing                                           // about to ask whether helpers are inactive
    | Giving                                            // they were; about to return half the entries
    | Waiting                                           // not active any more
    | Gone                                              // left GC_mark_local

  datatype Helper = Helper(pc: Pc, first: nat, local: seq<Range>)

  predicate IsActive(pc: Pc) {
    !pc.Idle? && !pc.Waiting? && !pc.Gone?
  }

  predicate IsHelping(pc: Pc) {
    !pc.Idle? && !pc.Gone?
  }

  function CountActive(hs: seq<Helper>): nat {
    if hs == [] then 0 else (if IsActive(hs[0].pc) then 1 else 0) + CountActive(hs[1..])
  }

  function CountHelping(hs: seq<Helper>): nat {
    if hs == [] then 0 else (if IsHelping(hs[0].pc) then 1 else 0) + CountHelping(hs[1..])
  }

  lemma {:induction false} CountUpdate(hs: seq<Helper>, h: nat, new': Helper)
    requires h < |hs|
    ensures CountActive(hs[h := new']) ==
            CountActive(hs) - (if IsActive(hs[h].pc) then 1 else 0) + (if IsActive(new'.pc) then 1 else 0)
    ensures CountHelping(hs[h := new']) ==
            CountHelping(hs) - (if IsHelping(hs[h].pc) then 1 else 0) + (if IsHelping(new'.pc) then 1 else 0)
  {
    if h == 0 {
      assert hs[h := new'][1..] == hs[1..];
    } else {
      assert hs[h := new'][1..] == hs[1..][h - 1 := new'];
      CountUpdate(hs[1..], h - 1, new');
    }
  }

  lemma {:induction false} NoneActive(hs: seq<Helper>, h: nat)
    requires CountActive(hs) == 0 && h < |hs|
    ensures !IsActive(hs[h].pc)
  {
    if h > 0 {
      NoneActive(hs[1..], h - 1);
    }
  }

  lemma {:induction false} NoneHelping(hs: seq<Helper>, h: nat)
    requires CountHelping(hs) == 0 && h < |hs|
    ensures !IsHelping(hs[h].pc)
  {
    if h > 0 {
      NoneHelping(hs[1..], h - 1);
    }
  }

  datatype State = State(
    heap: Heap,
    marks: set<nat>,
    slots: seq<Option<Range>>,    // mark stack up to its top; None is a cleared descriptor
    capacity: nat,
    first: nat,                   // GC_first_nonempty
    active: nat,                  // GC_active_count
    helping: nat,                 // GC_helper_count
    wanted: bool,                 // GC_help_wanted
    invalid: bool,                // mark state is MS_INVALID
    helpers: seq<Helper>)         // number 0 started the cycle

  /** The local stack after a push; when it is full its topmost entries are thrown away. */
  function PushLocal(local: seq<Range>, e: Range): seq<Range> {
    if |local| < LOCAL_MARK_STACK_SIZE then local + [e]
    else local[..|local| - MARK_STACK_DISCARDS] + [e]
  }

  /** A step of helper `h`; `choice` settles what the code leaves to timing. */
  function Step(s: State, h: nat, choice: bool): State
  {
    if h >= |s.helpers| then s
    else match s.helpers[h].pc
      case Idle => Join(s, h)
      case Start => With(s, h, s.helpers[h].(pc := Compare(s.first)))
      case Compare(seen) => StepCompare(s, h, seen)
      case Look => StepLook(s, h)
      case Lock => StepLock(s, h)
      case Steal(p, end, taken, want) => StepSteal(s, h, p, end, taken, want)
      case Take(p, end, taken, want, e) => StepTake(s, h, p, end, taken, want, e)
      case Local => StepLocal(s, h)
      case Popped(r) => StepPopped(s, h, r)
      case Scan(r) => StepScan(s, h, r, choice)
      case Tail => StepTail(s, h, choice)
      case Sharing(top) => StepSharing(s, h, top)
      case Testing => With(s, h, s.helpers[h].(pc := if s.active < s.helping then Giving else Local))
      case Giving => StepGiving(s, h)
      case Waiting => StepWaiting(s, h)
      case Gone => if h == 0 then s.(wanted := false) else s
  }

  function With(s: State, h: nat, new': Helper): State
    requires h < |s.helpers|
  {
    s.(helpers := s.helpers[h := new'])
  }

  /** GC_help_marker; helper 0 joins through GC_do_parallel_mark. */
  function Join(s: State, h: nat): State
    requires h < |s.helpers|
  {
    if s.wanted then
      With(s, h, Helper(Start, s.first, [])).(active := s.active + 1, helping := s.helping + 1)
    else s
  }

  /** Adopt the larger of the shared and the own bound; the shared one by compare-and-swap. */
  function StepCompare(s: State, h: nat, seen: nat): State
    requires h < |s.helpers|
  {
    var me := s.helpers[h];
    if me.first < seen then With(s, h, me.(pc := Look, first := seen))
    else if seen < me.first && s.first == seen then With(s, h, me.(pc := Look)).(first := me.first)
    else With(s, h, me.(pc := Look))
  }

  function Want(n: nat): nat {
    if n < 2 * ENTRIES_TO_GET then 1 else ENTRIES_TO_GET
  }

  function StepLook(s: State, h: nat): State
    requires h < |s.helpers|
  {
    var me := s.helpers[h];
    if |s.slots| <= me.first then With(s, h, me.(pc := Lock))
    else With(s, h, me.(pc := Steal(me.first, |s.slots|, 0, Want(|s.slots| - me.first))))
  }

  /** Under the lock: if the stack is empty for us, stop being active. */
  function StepLock(s: State, h: nat): State
    requires h < |s.helpers|
  {
    var me := s.helpers[h];
    if |s.slots| == me.first then
      With(s, h, me.(pc := Waiting)).(active := if s.active > 0 then s.active - 1 else 0)
    else if |s.slots| < me.first then s
    else With(s, h, me.(pc := Steal(me.first, |s.slots|, 0, Want(|s.slots| - me.first))))
  }

  /** Under the lock: leave when nobody is active and the stack is empty, else try again. */
  function StepWaiting(s: State, h: nat): State
    requires h < |s.helpers|
  {
    var me := s.helpers[h];
    if |s.slots| <= s.first then
      if s.active > 0 then s
      else With(s, h, me.(pc := Gone)).(helping := if s.helping > 0 then s.helping - 1 else 0)
    else With(s, h, me.(pc := Start)).(active := s.active + 1)
  }

  function StepSteal(s: State, h: nat, p: nat, end: nat, taken: nat, want: nat): State
    requires h < |s.helpers|
  {
    var me := s.helpers[h];
    if p < end && p < |s.slots| && taken <= want then
      if s.slots[p].Some? then With(s, h, me.(pc := Take(p, end, taken, want, s.slots[p].value)))
      else With(s, h, me.(pc := Steal(p + 1, end, taken, want)))
    else With(s, h, me.(pc := Local, first := p))
  }

  /** Clear the descriptor and keep the entry; a big one counts for several. */
  function StepTake(s: State, h: nat, p: nat, end: nat, taken: nat, want: nat, e: Range): State
    requires h < |s.helpers|
  {
    var me := s.helpers[h];
    var size := if e.lo <= e.hi then e.hi - e.lo else 0;
    var t := With(s, h, me.(pc := Steal(p + 1, end, taken + 1 + size * PTR_BYTES / 256, want),
                            local := me.local + [e]));
    if p < |s.slots| then t.(slots := s.slots[p := None]) else t
  }

  function StepLocal(s: State, h: nat): State
    requires h < |s.helpers|
  {
    var me := s.helpers[h];
    if me.local == [] then With(s, h, me.(pc := Start))
    else With(s, h, me.(pc := Popped(me.local[|me.local| - 1]), local := me.local[..|me.local| - 1]))
  }

  /** Leave half of a huge range, or all but the front of a long one, on the local stack. */
  function StepPopped(s: State, h: nat, r: Range): State
    requires h < |s.helpers|
  {
    var me := s.helpers[h];
    if r.hi > r.lo + SHARE_WORDS && |me.local| < LOCAL_MARK_STACK_SIZE - 1 then
      var half := (r.hi - r.lo) / 2;
      With(s, h, me.(pc := Popped(Range(r.lo + half, r.hi)), local := me.local + [Range(r.lo, r.lo + half + 1)]))
    else if r.hi >= r.lo + SPLIT_RANGE_PTRS then
      var limit := r.lo + SPLIT_RANGE_PTRS - 1;
      With(s, h, me.(pc := Scan(Range(r.lo, limit)), local := me.local + [Range(limit, r.hi)]))
    else With(s, h, me.(pc := Scan(r)))
  }

  /** Look at one word.  Two helpers may both find an object unmarked and both push it; at the
      end of a range, `choice` says whether the credit of GC_mark_from is used up. */
  function StepScan(s: State, h: nat, r: Range, choice: bool): State
    requires h < |s.helpers|
  {
    var me := s.helpers[h];
    if r.hi <= r.lo then With(s, h, me.(pc := if choice then Tail else Local))
    else
      var next := me.(pc := Scan(Range(r.lo + 1, r.hi)));
      if r.lo in s.heap.mem && s.heap.mem[r.lo] in s.heap.lay.objs && (choice || s.heap.mem[r.lo] !in s.marks) then
        var p := s.heap.mem[r.lo];
        With(s, h, next.(local := PushLocal(me.local, Range(p, p + s.heap.lay.objs[p].len))))
          .(marks := s.marks + {p}, invalid := s.invalid || |me.local| >= LOCAL_MARK_STACK_SIZE)
      else With(s, h, next)
  }

  /** After GC_mark_from: give everything back if the local stack is half full; `choice` says
      whether it is time to look whether work should be shared. */
  function StepTail(s: State, h: nat, choice: bool): State
    requires h < |s.helpers|
  {
    var me := s.helpers[h];
    if me.local == [] then With(s, h, me.(pc := Start))
    else if |me.local| - 1 >= LOCAL_MARK_STACK_SIZE / 2 then
      Deposit(s, me.local).(helpers := s.helpers[h := me.(pc := Start, local := [])])
    else With(s, h, me.(pc := if choice then Sharing(|s.slots|) else Local))
  }

  function StepSharing(s: State, h: nat, top: nat): State
    requires h < |s.helpers|
  {
    var me := s.helpers[h];
    With(s, h, me.(pc := if top <= s.first && |me.local| > 2 then Testing else Local))
  }

  /** Return the lower half of the entries, whether or not anybody still waits for them. */
  function StepGiving(s: State, h: nat): State
    requires h < |s.helpers|
  {
    var me := s.helpers[h];
    var half := if me.local == [] then 0 else (|me.local| - 1) / 2;
    Deposit(s, me.local[..half]).(helpers := s.helpers[h := me.(pc := Local, local := me.local[half..])])
  }

  /** GC_return_mark_stack: without room for them the entries are dropped and marking is invalid. */
  function Deposit(s: State, entries: seq<Range>): State {
    if |s.slots| + |entries| > s.capacity then s.(invalid := true)
    else s.(slots := s.slots + seq(|entries|, i requires 0 <= i < |entries| => Some(entries[i])))
  }

  // ----- What is left to do -----

  /** A word that leads to an unmarked object. */
  ghost predicate White(s: State, a: nat) {
    a in s.heap.mem && s.heap.mem[a] in s.heap.lay.objs && s.heap.mem[a] !in s.marks
  }

  ghost predicate SlotHas(slots: seq<Option<Range>>, a: nat) {
    exists i :: 0 <= i < |slots| && slots[i].Some? && slots[i].value.Has(a)
  }

  ghost predicate HelperHas(me: Helper, a: nat) {
    || Covered(me.local, a)
    || (me.pc.Popped? && me.pc.r.Has(a))
    || (me.pc.Scan? && me.pc.r.Has(a))
  }

  /** Some entry on the shared stack or in the hands of a helper schedules word `a`. */
  ghost predicate Work(s: State, a: nat) {
    SlotHas(s.slots, a) || exists h :: 0 <= h < |s.helpers| && HelperHas(s.helpers[h], a)
  }

  /** A word the marker is responsible for: in a root or in a marked object. */
  ghost predicate Due(s: State, a: nat) {
    s.heap.lay.InRoots(a) || s.heap.lay.InStacks(a) || exists o: nat :: o in s.marks && s.heap.lay.InObj(o, a)
  }

  /** No work is lost unless marking was declared invalid. */
  ghost predicate Safe(s: State) {
    s.invalid || forall a: nat :: Due(s, a) && White(s, a) ==> Work(s, a)
  }

  ghost predicate Cleared(slots: seq<Option<Range>>, n: nat) {
    n <= |slots| && forall i :: 0 <= i < n ==> slots[i].None?
  }

  /** Everything below the bound a helper knows of has been taken. */
  ghost predicate HelperOk(s: State, me: Helper) {
    && (IsHelping(me.pc) ==> Cleared(s.slots, me.first))
    && (!IsActive(me.pc) ==> me.local == [])
    && (me.pc.Compare? ==> Cleared(s.slots, me.pc.seen))
    && (me.pc.Steal? || me.pc.Take? ==> me.pc.p <= me.pc.end <= |s.slots| && Cleared(s.slots, me.pc.p))
    && (me.pc.Take? ==> me.pc.p < me.pc.end && (s.slots[me.pc.p].Some? ==> s.slots[me.pc.p].value == me.pc.e))
    && (me.pc == Testing || me.pc == Giving ==> |me.local| > 2)
    && (me.pc == Start || me.pc.Compare? || me.pc == Look || me.pc == Lock ==> me.local == [])
  }

  /** There is nothing left to do anywhere. */
  ghost predicate NoWork(s: State) {
    && Cleared(s.slots, |s.slots|)
    && forall h :: 0 <= h < |s.helpers| ==> NoHelperWork(s.helpers[h])
  }

  ghost predicate NoHelperWork(me: Helper) {
    me.local == [] && !me.pc.Popped? && !me.pc.Scan? && !me.pc.Take?
  }

  ghost predicate Inv(s: State) {
    && |s.slots| <= s.capacity
    && Cleared(s.slots, s.first)
    && (forall h :: 0 <= h < |s.helpers| ==> HelperOk(s, s.helpers[h]))
    && s.active == CountActive(s.helpers)
    && s.helping == CountHelping(s.helpers)
    && Safe(s)
    && (forall h :: 0 <= h < |s.helpers| && s.helpers[h].pc.Gone? ==> NoWork(s))
    && (!s.wanted ==> |s.helpers| > 0 && s.helpers[0].pc.Gone?)
  }

  // ----- Each step keeps it -----

  /** The slots a step leaves behind: at most more of them cleared, and new ones on top. */
  ghost predicate SlotsGrow(old': seq<Option<Range>>, new': seq<Option<Range>>) {
    |old'| <= |new'| && forall i :: 0 <= i < |old'| ==> new'[i] == old'[i] || new'[i].None?
  }

  /** Only helper `h` has changed. */
  ghost predicate Moved(s: State, t: State, h: nat) {
    h < |s.helpers| == |t.helpers| && t.helpers == s.helpers[h := t.helpers[h]]
  }

  /** One helper moved; nothing it held or took was lost. */
  lemma WorkMoves(s: State, t: State, h: nat, a: nat)
    requires Moved(s, t, h)
    requires Work(s, a)
    requires SlotHas(s.slots, a) ==> SlotHas(t.slots, a) || HelperHas(t.helpers[h], a)
    requires HelperHas(s.helpers[h], a) ==> SlotHas(t.slots, a) || HelperHas(t.helpers[h], a)
    ensures Work(t, a)
  {
    if !SlotHas(t.slots, a) && !HelperHas(t.helpers[h], a) {
      var k :| 0 <= k < |s.helpers| && HelperHas(s.helpers[k], a);
      assert k != h && t.helpers[k] == s.helpers[k];
    }
  }

  /** What the other helpers know stays true. */
  lemma OthersOk(s: State, t: State, h: nat)
    requires Moved(s, t, h)
    requires forall k :: 0 <= k < |s.helpers| ==> HelperOk(s, s.helpers[k])
    requires SlotsGrow(s.slots, t.slots) && HelperOk(t, t.helpers[h])
    ensures forall k :: 0 <= k < |t.helpers| ==> HelperOk(t, t.helpers[k])
  {
  }

  /** If nothing was left to do, a step that takes nothing leaves nothing to do. */
  lemma NoWorkStays(s: State, t: State, h: nat)
    requires Moved(s, t, h)
    requires NoWork(s) && t.slots == s.slots && NoHelperWork(t.helpers[h])
    ensures NoWork(t)
  {
  }

  /** A step of helper `h` that neither marks nor touches the counters or the slots. */
  lemma QuietStep(s: State, t: State, h: nat)
    requires Inv(s) && Moved(s, t, h)
    requires t == s.(helpers := t.helpers, first := t.first)
    requires Cleared(t.slots, t.first)
    requires IsActive(s.helpers[h].pc) && IsActive(t.helpers[h].pc)
    requires HelperOk(t, t.helpers[h])
    requires forall a: nat :: HelperHas(s.helpers[h], a) && White(s, a) ==> HelperHas(t.helpers[h], a)
    requires NoWork(s) ==> NoHelperWork(t.helpers[h])
    ensures Inv(t)
  {
    CountUpdate(s.helpers, h, t.helpers[h]);
    OthersOk(s, t, h);
    forall a: nat | !s.invalid && Due(t, a) && White(t, a)
      ensures Work(t, a)
    {
      assert Due(s, a) && White(s, a);
      WorkMoves(s, t, h, a);
    }
    if exists k :: 0 <= k < |t.helpers| && t.helpers[k].pc.Gone? {
      var k :| 0 <= k < |t.helpers| && t.helpers[k].pc.Gone?;
      assert s.helpers[k].pc.Gone?;
      NoWorkStays(s, t, h);
    }
  }

  /** What a helper knows about itself. */
  lemma HelperFacts(s: State, h: nat)
    requires Inv(s) && h < |s.helpers|
    ensures HelperOk(s, s.helpers[h]) && Cleared(s.slots, s.first)
    ensures NoWork(s) ==> NoHelperWork(s.helpers[h])
  {
  }

  /** A step that changes neither the local stack nor a range that is being worked on. */
  lemma PcStep(s: State, t: State, h: nat)
    requires Inv(s) && Moved(s, t, h) && t == s.(helpers := t.helpers, first := t.first) && Cleared(t.slots, t.first)
    requires IsActive(s.helpers[h].pc) && IsActive(t.helpers[h].pc) && HelperOk(t, t.helpers[h])
    requires t.helpers[h].local == s.helpers[h].local && !s.helpers[h].pc.Popped? && !s.helpers[h].pc.Scan?
    requires NoHelperWork(s.helpers[h]) ==> NoHelperWork(t.helpers[h])
    ensures Inv(t)
  {
    hide Inv;
    hide NoWork;
    hide White;
    hide HelperOk;
    HelperFacts(s, h);
    QuietStep(s, t, h);
  }

  lemma CompareKeeps(s: State, h: nat, seen: nat)
    requires Inv(s) && h < |s.helpers| && s.helpers[h].pc == Compare(seen)
    ensures Inv(StepCompare(s, h, seen))
  {
    hide Inv;
    hide NoWork;
    HelperFacts(s, h);
    PcStep(s, StepCompare(s, h, seen), h);
  }

  lemma LookKeeps(s: State, h: nat)
    requires Inv(s) && h < |s.helpers| && s.helpers[h].pc == Look
    ensures Inv(StepLook(s, h))
  {
    hide Inv;
    hide NoWork;
    HelperFacts(s, h);
    PcStep(s, StepLook(s, h), h);
  }

  lemma SomeWork(s: State, p: nat)
    requires p < |s.slots| && s.slots[p].Some?
    ensures !NoWork(s)
  {
  }

  lemma StealKeeps(s: State, h: nat, p: nat, end: nat, taken: nat, want: nat)
    requires Inv(s) && h < |s.helpers| && s.helpers[h].pc == Steal(p, end, taken, want)
    ensures Inv(StepSteal(s, h, p, end, taken, want))
  {
    hide Inv;
    hide NoWork;
    hide White;
    HelperFacts(s, h);
    var t := StepSteal(s, h, p, end, taken, want);
    if t.helpers[h].pc.Take? {
      SomeWork(s, p);
      QuietStep(s, t, h);
    } else {
      PcStep(s, t, h);
    }
  }

  lemma LocalKeeps(s: State, h: nat)
    requires Inv(s) && h < |s.helpers| && s.helpers[h].pc == Local
    ensures Inv(StepLocal(s, h))
  {
    hide Inv;
    hide NoWork;
    hide White;
    HelperFacts(s, h);
    var me := s.helpers[h];
    if me.local != [] {
      var e := me.local[|me.local| - 1];
      assert me.local == me.local[..|me.local| - 1] + [e];
      CoveredConcat(me.local[..|me.local| - 1], [e]);
      CoveredSingle(e);
    }
    QuietStep(s, StepLocal(s, h), h);
  }

  /** Part of a range stays on the local stack. */
  lemma SplitKeeps(s: State, h: nat, r: Range, pc: Pc, rest: Range)
    requires Inv(s) && h < |s.helpers| && s.helpers[h].pc == Popped(r) && (pc.Popped? || pc.Scan?)
    requires forall a: nat :: r.Has(a) ==> pc.r.Has(a) || rest.Has(a)
    ensures Inv(With(s, h, s.helpers[h].(pc := pc, local := s.helpers[h].local + [rest])))
  {
    hide Inv;
    hide NoWork;
    hide White;
    hide Cleared;
    HelperFacts(s, h);
    var me := s.helpers[h];
    CoveredConcat(me.local, [rest]);
    CoveredSingle(rest);
    QuietStep(s, With(s, h, me.(pc := pc, local := me.local + [rest])), h);
  }

  lemma PoppedKeeps(s: State, h: nat, r: Range)
    requires Inv(s) && h < |s.helpers| && s.helpers[h].pc == Popped(r)
    ensures Inv(StepPopped(s, h, r))
  {
    hide Inv;
    hide NoWork;
    if r.hi > r.lo + SHARE_WORDS && |s.helpers[h].local| < LOCAL_MARK_STACK_SIZE - 1 {
      var half := (r.hi - r.lo) / 2;
      SplitKeeps(s, h, r, Popped(Range(r.lo + half, r.hi)), Range(r.lo, r.lo + half + 1));
    } else if r.hi >= r.lo + SPLIT_RANGE_PTRS {
      var limit := r.lo + SPLIT_RANGE_PTRS - 1;
      SplitKeeps(s, h, r, Scan(Range(r.lo, limit)), Range(limit, r.hi));
    } else {
      HelperFacts(s, h);
      QuietStep(s, StepPopped(s, h, r), h);
    }
  }

  /** Under the lock a helper gives up being active only with empty hands. */
  lemma LockKeeps(s: State, h: nat)
    requires Inv(s) && h < |s.helpers| && s.helpers[h].pc == Lock
    ensures Inv(StepLock(s, h))
  {
    var me := s.helpers[h];
    assert HelperOk(s, me);
    var t := StepLock(s, h);
    if |s.slots| == me.first {
      CountUpdate(s.helpers, h, t.helpers[h]);
      OthersOk(s, t, h);
      InactiveKeeps(s, t, h);
    } else {
      QuietStep(s, t, h);
    }
  }

  /** A helper with empty hands before and after changes nothing about the work. */
  lemma InactiveKeeps(s: State, t: State, h: nat)
    requires Inv(s) && Moved(s, t, h)
    requires t.heap == s.heap && t.marks == s.marks && t.slots == s.slots && t.invalid == s.invalid
    requires NoHelperWork(s.helpers[h]) && NoHelperWork(t.helpers[h])
    ensures Safe(t)
    ensures NoWork(s) ==> NoWork(t)
  {
    forall a: nat | !s.invalid && Due(t, a) && White(t, a)
      ensures Work(t, a)
    {
      assert Due(s, a) && White(s, a);
      WorkMoves(s, t, h, a);
    }
    if NoWork(s) {
      NoWorkStays(s, t, h);
    }
  }

  /** When nobody is active and the stack is empty, no work is left anywhere. */
  lemma IdleMeansNoWork(s: State)
    requires Inv(s) && s.active == 0 && |s.slots| <= s.first
    ensures NoWork(s)
  {
    forall k | 0 <= k < |s.helpers|
      ensures NoHelperWork(s.helpers[k])
    {
      NoneActive(s.helpers, k);
      assert HelperOk(s, s.helpers[k]);
    }
  }

  /** A helper leaves only when no work exists anywhere. */
  lemma WaitingKeeps(s: State, h: nat)
    requires Inv(s) && h < |s.helpers| && s.helpers[h].pc == Waiting
    ensures Inv(StepWaiting(s, h))
    ensures StepWaiting(s, h).helpers[h].pc.Gone? ==> NoWork(s)
  {
    if |s.slots| <= s.first && s.active == 0 {
      IdleMeansNoWork(s);
      LeaveKeeps(s, h);
    } else if |s.slots| > s.first {
      ResumeKeeps(s, h);
    }
  }

  lemma LeaveKeeps(s: State, h: nat)
    requires Inv(s) && h < |s.helpers| && s.helpers[h].pc == Waiting && NoWork(s) && s.active == 0
    ensures Inv(With(s, h, s.helpers[h].(pc := Gone)).(helping := if s.helping > 0 then s.helping - 1 else 0))
  {
    hide Safe;
    hide NoWork;
    var t := With(s, h, s.helpers[h].(pc := Gone)).(helping := if s.helping > 0 then s.helping - 1 else 0);
    HelperFacts(s, h);
    InactiveKeeps(s, t, h);
    CountUpdate(s.helpers, h, t.helpers[h]);
    OthersOk(s, t, h);
  }

  lemma ResumeKeeps(s: State, h: nat)
    requires Inv(s) && h < |s.helpers| && s.helpers[h].pc == Waiting
    ensures Inv(With(s, h, s.helpers[h].(pc := Start)).(active := s.active + 1))
  {
    hide Safe;
    hide NoWork;
    var t := With(s, h, s.helpers[h].(pc := Start)).(active := s.active + 1);
    HelperFacts(s, h);
    InactiveKeeps(s, t, h);
    CountUpdate(s.helpers, h, t.helpers[h]);
    OthersOk(s, t, h);
    assert forall k :: 0 <= k < |t.helpers| && t.helpers[k].pc.Gone? ==> s.helpers[k].pc.Gone?;
  }

  lemma JoinKeeps(s: State, h: nat)
    requires Inv(s) && h < |s.helpers| && s.helpers[h].pc == Idle
    ensures Inv(Join(s, h))
  {
    var t := Join(s, h);
    assert HelperOk(s, s.helpers[h]);
    if s.wanted {
      CountUpdate(s.helpers, h, t.helpers[h]);
      OthersOk(s, t, h);
      InactiveKeeps(s, t, h);
    }
  }

  /** Clearing a slot loses nothing: its entry is on the local stack now.  Another helper may
      have taken the same entry; then both have it. */
  lemma TakeKeeps(s: State, h: nat, p: nat, end: nat, taken: nat, want: nat, e: Range)
    requires Inv(s) && h < |s.helpers| && s.helpers[h].pc == Take(p, end, taken, want, e)
    ensures Inv(StepTake(s, h, p, end, taken, want, e))
  {
    var me := s.helpers[h];
    assert HelperOk(s, me);
    var t := StepTake(s, h, p, end, taken, want, e);
    CountUpdate(s.helpers, h, t.helpers[h]);
    OthersOk(s, t, h);
    CoveredConcat(me.local, [e]);
    CoveredSingle(e);
    forall a: nat | !s.invalid && Due(t, a) && White(t, a)
      ensures Work(t, a)
    {
      assert Due(s, a) && White(s, a);
      if SlotHas(s.slots, a) {
        var i :| 0 <= i < |s.slots| && s.slots[i].Some? && s.slots[i].value.Has(a);
        assert i != p ==> t.slots[i] == s.slots[i];
      }
      WorkMoves(s, t, h, a);
    }
    assert !NoHelperWork(me);
  }

  lemma PushLocalCovers(local: seq<Range>, e: Range)
    ensures forall a: nat :: e.Has(a) ==> Covered(PushLocal(local, e), a)
    ensures |local| < LOCAL_MARK_STACK_SIZE ==> forall a: nat :: Covered(local, a) ==> Covered(PushLocal(local, e), a)
  {
    var kept := if |local| < LOCAL_MARK_STACK_SIZE then local else local[..|local| - MARK_STACK_DISCARDS];
    CoveredConcat(kept, [e]);
    CoveredSingle(e);
  }

  /** Looking at a word marks its target and schedules it, or overflows and says so. */
  lemma ScanKeeps(s: State, h: nat, r: Range, choice: bool)
    requires Inv(s) && h < |s.helpers| && s.helpers[h].pc == Scan(r)
    ensures Inv(StepScan(s, h, r, choice))
  {
    hide Inv;
    hide NoWork;
    HelperFacts(s, h);
    var me := s.helpers[h];
    assert !NoHelperWork(me);
    if r.hi <= r.lo {
      QuietStep(s, StepScan(s, h, r, choice), h);
    } else if r.lo in s.heap.mem && s.heap.mem[r.lo] in s.heap.lay.objs && (choice || s.heap.mem[r.lo] !in s.marks) {
      MarkKeeps(s, h, r, s.heap.mem[r.lo]);
    } else {
      QuietStep(s, With(s, h, me.(pc := Scan(Range(r.lo + 1, r.hi)))), h);
    }
  }

  lemma MarkKeeps(s: State, h: nat, r: Range, p: nat)
    requires Inv(s) && h < |s.helpers| && s.helpers[h].pc == Scan(r) && r.lo < r.hi
    requires r.lo in s.heap.mem && s.heap.mem[r.lo] == p && p in s.heap.lay.objs
    ensures Inv(StepScan(s, h, r, true))
  {
    var t := StepScan(s, h, r, true);
    ScanSafe(s, h, r, p);
    hide Safe;
    HelperFacts(s, h);
    assert !NoHelperWork(s.helpers[h]);
    CountUpdate(s.helpers, h, t.helpers[h]);
    OthersOk(s, t, h);
  }

  lemma ScanSafe(s: State, h: nat, r: Range, p: nat)
    requires Inv(s) && h < |s.helpers| && s.helpers[h].pc == Scan(r) && r.lo < r.hi
    requires r.lo in s.heap.mem && s.heap.mem[r.lo] == p && p in s.heap.lay.objs
    ensures Safe(StepScan(s, h, r, true))
  {
    hide Inv;
    hide Due;
    hide Work;
    hide White;
    var t := StepScan(s, h, r, true);
    PushLocalCovers(s.helpers[h].local, Range(p, p + s.heap.lay.objs[p].len));
    forall a: nat | !t.invalid && Due(t, a) && White(t, a)
      ensures Work(t, a)
    {
      ScanWork(s, t, h, r, p, a);
    }
  }

  lemma ScanWork(s: State, t: State, h: nat, r: Range, p: nat, a: nat)
    requires Inv(s) && Moved(s, t, h) && s.helpers[h].pc == Scan(r)
    requires t.heap == s.heap && t.slots == s.slots && t.marks == s.marks + {p} && !t.invalid && !s.invalid
    requires r.Has(r.lo) && r.lo in s.heap.mem && s.heap.mem[r.lo] == p && p in s.heap.lay.objs
    requires t.helpers[h].pc == Scan(Range(r.lo + 1, r.hi))
    requires forall x: nat :: Covered(s.helpers[h].local, x) ==> Covered(t.helpers[h].local, x)
    requires forall x: nat :: s.heap.lay.InObj(p, x) ==> Covered(t.helpers[h].local, x)
    requires Due(t, a) && White(t, a)
    ensures Work(t, a)
  {
    assert White(s, a);
    if s.heap.lay.InObj(p, a) {
      assert HelperHas(t.helpers[h], a);
    } else {
      assert Due(s, a);
      assert a != r.lo;
      WorkMoves(s, t, h, a);
    }
  }

  lemma DepositSafe(s: State, h: nat, given: seq<Range>, kept: seq<Range>, pc: Pc)
    requires Inv(s) && h < |s.helpers| && (s.helpers[h].pc == Tail || s.helpers[h].pc == Giving)
    requires s.helpers[h].local == given + kept && (pc == Start || pc == Local)
    ensures Safe(Deposit(s, given).(helpers := s.helpers[h := s.helpers[h].(pc := pc, local := kept)]))
  {
    var me := s.helpers[h];
    var t := Deposit(s, given).(helpers := s.helpers[h := me.(pc := pc, local := kept)]);
    CoveredConcat(given, kept);
    if !t.invalid {
      forall a: nat | Due(t, a) && White(t, a)
        ensures Work(t, a)
      {
        assert Due(s, a) && White(s, a);
        DepositHas(s.slots, given, a);
        WorkMoves(s, t, h, a);
      }
    }
  }

  /** Returned entries are on the shared stack, or marking is invalid. */
  lemma DepositKeeps(s: State, h: nat, given: seq<Range>, kept: seq<Range>, pc: Pc)
    requires Inv(s) && h < |s.helpers| && (s.helpers[h].pc == Tail || s.helpers[h].pc == Giving)
    requires s.helpers[h].local == given + kept && given != []
    requires (pc == Start && kept == []) || pc == Local
    ensures Inv(Deposit(s, given).(helpers := s.helpers[h := s.helpers[h].(pc := pc, local := kept)]))
  {
    var me := s.helpers[h];
    HelperFacts(s, h);
    assert !NoHelperWork(me);
    DepositSafe(s, h, given, kept, pc);
    hide Safe;
    hide Covered;
    var t := Deposit(s, given).(helpers := s.helpers[h := me.(pc := pc, local := kept)]);
    CountUpdate(s.helpers, h, t.helpers[h]);
    OthersOk(s, t, h);
  }

  lemma DepositHas(slots: seq<Option<Range>>, given: seq<Range>, a: nat)
    ensures var new' := slots + seq(|given|, i requires 0 <= i < |given| => Some(given[i]));
            SlotHas(slots, a) || Covered(given, a) ==> SlotHas(new', a)
  {
    var new' := slots + seq(|given|, i requires 0 <= i < |given| => Some(given[i]));
    if SlotHas(slots, a) {
      var i :| 0 <= i < |slots| && slots[i].Some? && slots[i].value.Has(a);
      assert new'[i] == slots[i];
    }
    if Covered(given, a) {
      var k :| 0 <= k < |given| && given[k].Has(a);
      assert new'[|slots| + k] == Some(given[k]);
    }
  }

  lemma TailKeeps(s: State, h: nat, choice: bool)
    requires Inv(s) && h < |s.helpers| && s.helpers[h].pc == Tail
    ensures Inv(StepTail(s, h, choice))
  {
    hide Inv;
    hide NoWork;
    HelperFacts(s, h);
    var me := s.helpers[h];
    if me.local != [] && |me.local| - 1 >= LOCAL_MARK_STACK_SIZE / 2 {
      assert me.local == me.local + [];
      DepositKeeps(s, h, me.local, [], Start);
    } else {
      PcStep(s, StepTail(s, h, choice), h);
    }
  }

  /** The answer to the question whether helpers wait may be out of date by now. */
  lemma GivingKeeps(s: State, h: nat)
    requires Inv(s) && h < |s.helpers| && s.helpers[h].pc == Giving
    ensures Inv(StepGiving(s, h))
  {
    hide Inv;
    hide NoWork;
    HelperFacts(s, h);
    var me := s.helpers[h];
    var half := (|me.local| - 1) / 2;
    assert me.local == me.local[..half] + me.local[half..];
    DepositKeeps(s, h, me.local[..half], me.local[half..], Local);
  }

  /** The starting thread withdraws the call for help after it has left. */
  lemma GoneKeeps(s: State, h: nat)
    requires Inv(s) && h < |s.helpers| && s.helpers[h].pc == Gone
    ensures h == 0 ==> Inv(s.(wanted := false))
  {
    var t := s.(wanted := false);
    assert NoWork(t);
    assert forall a: nat :: Due(t, a) ==> Due(s, a);
    forall a: nat | !s.invalid && Due(t, a) && White(t, a)
      ensures false
    {
      assert White(s, a) && Work(s, a);
      NoWorkNothing(s, a);
    }
    assert forall k :: 0 <= k < |s.helpers| ==> HelperOk(s, s.helpers[k]) && HelperOk(t, s.helpers[k]);
  }

  /** The steps that only read. */
  lemma ReadKeeps(s: State, h: nat, choice: bool)
    requires Inv(s) && h < |s.helpers|
    requires var pc := s.helpers[h].pc; pc == Start || pc.Sharing? || pc == Testing
    ensures Inv(Step(s, h, choice))
  {
    hide Inv;
    hide NoWork;
    HelperFacts(s, h);
    PcStep(s, Step(s, h, choice), h);
  }

  lemma StepKeeps(s: State, h: nat, choice: bool)
    requires Inv(s)
    ensures Inv(Step(s, h, choice))
  {
    hide Inv;
    if h < |s.helpers| {
      match s.helpers[h].pc
      case Idle => JoinKeeps(s, h);
      case Start => ReadKeeps(s, h, choice);
      case Compare(seen) => CompareKeeps(s, h, seen);
      case Look => LookKeeps(s, h);
      case Lock => LockKeeps(s, h);
      case Steal(p, end, taken, want) => StealKeeps(s, h, p, end, taken, want);
      case Take(p, end, taken, want, e) => TakeKeeps(s, h, p, end, taken, want, e);
      case Local => LocalKeeps(s, h);
      case Popped(r) => PoppedKeeps(s, h, r);
      case Scan(r) => ScanKeeps(s, h, r, choice);
      case Tail => TailKeeps(s, h, choice);
      case Sharing(top) => ReadKeeps(s, h, choice);
      case Testing => ReadKeeps(s, h, choice);
      case Giving => GivingKeeps(s, h);
      case Waiting => WaitingKeeps(s, h);
      case Gone => GoneKeeps(s, h);
    }
  }

  lemma StepFrame(s: State, h: nat, choice: bool)
    ensures Step(s, h, choice).heap == s.heap && s.marks <= Step(s, h, choice).marks
  {
    if h < |s.helpers| {
      match s.helpers[h].pc
      case Scan(r) => assert StepScan(s, h, r, choice).heap == s.heap;
      case Tail => assert StepTail(s, h, choice).heap == s.heap;
      case Giving => assert StepGiving(s, h).heap == s.heap;
      case _ =>
    }
  }

  // ----- Whole cycles -----

  /** GC_do_parallel_mark begins: the stack holds what the roots and marked objects still need. */
  ghost predicate Init(s: State) {
    && |s.slots| <= s.capacity
    && s.first == 0 && s.active == 0 && s.helping == 0 && s.wanted && !s.invalid
    && (forall h :: 0 <= h < |s.helpers| ==> s.helpers[h] == Helper(Idle, 0, []))
    && forall a: nat :: Due(s, a) && White(s, a) ==> SlotHas(s.slots, a)
  }

  /** A schedule: which helper moves next, and how. */
  function Run(s: State, schedule: seq<(nat, bool)>): State {
    if schedule == [] then s
    else
      var last := schedule[|schedule| - 1];
      Step(Run(s, schedule[..|schedule| - 1]), last.0, last.1)
  }

  lemma {:induction false} NobodyHelps(hs: seq<Helper>)
    requires forall h :: 0 <= h < |hs| ==> hs[h].pc == Idle
    ensures CountActive(hs) == 0 && CountHelping(hs) == 0
  {
    if hs != [] {
      NobodyHelps(hs[1..]);
    }
  }

  lemma InitInv(s: State)
    requires Init(s)
    ensures Inv(s)
  {
    NobodyHelps(s.helpers);
  }

  /** In every interleaving, no deposited work is lost: it is on the shared stack or held by an
      active helper until it is done, or marking has been declared invalid. */
  lemma {:induction false} RunKeeps(s: State, schedule: seq<(nat, bool)>)
    requires Init(s)
    ensures Inv(Run(s, schedule))
    ensures Run(s, schedule).heap == s.heap && s.marks <= Run(s, schedule).marks
  {
    if schedule == [] {
      InitInv(s);
    } else {
      hide Inv;
      hide Init;
      hide Step;
      var last := schedule[|schedule| - 1];
      var before := Run(s, schedule[..|schedule| - 1]);
      RunKeeps(s, schedule[..|schedule| - 1]);
      StepKeeps(before, last.0, last.1);
      StepFrame(before, last.0, last.1);
    }
  }

  // ----- When marking becomes invalid -----

  /** Entries that fit are put on top of the shared stack, all of them and in their order. */
  lemma DepositReturns(s: State, entries: seq<Range>)
    requires |s.slots| + |entries| <= s.capacity
    ensures var t := Deposit(s, entries);
            && t == s.(slots := t.slots) && |t.slots| == |s.slots| + |entries|
            && (forall i :: 0 <= i < |s.slots| ==> t.slots[i] == s.slots[i])
            && forall k :: 0 <= k < |entries| ==> t.slots[|s.slots| + k] == Some(entries[k])
  {
  }

  /** A helper gives everything back, or the lower half, and keeps the rest. */
  lemma StepReturns(s: State, h: nat, choice: bool)
    requires h < |s.helpers| && s.helpers[h].local != []
    ensures var me, t := s.helpers[h], Step(s, h, choice);
            var n := if me.pc == Giving then (|me.local| - 1) / 2 else |me.local|;
            (me.pc == Giving || (me.pc == Tail && |me.local| - 1 >= LOCAL_MARK_STACK_SIZE / 2))
              && |s.slots| + n <= s.capacity ==>
              && t.invalid == s.invalid && t.marks == s.marks && t.first == s.first
              && |t.slots| == |s.slots| + n && (forall i :: 0 <= i < |s.slots| ==> t.slots[i] == s.slots[i])
              && (forall k :: 0 <= k < n ==> t.slots[|s.slots| + k] == Some(me.local[k]))
              && t.helpers[h].local == me.local[n..]
  {
    var me := s.helpers[h];
    var n := if me.pc == Giving then (|me.local| - 1) / 2 else |me.local|;
    if |s.slots| + n <= s.capacity {
      assert me.local[..|me.local|] == me.local;
      DepositReturns(s, me.local[..n]);
    }
  }

  /** The step pushes on a full local stack, or returns entries for which there is no room. */
  ghost predicate Raises(s: State, h: nat, choice: bool) {
    h < |s.helpers| &&
    var me := s.helpers[h];
    || (&& me.pc.Scan? && me.pc.r.lo < me.pc.r.hi && |me.local| >= LOCAL_MARK_STACK_SIZE
        && me.pc.r.lo in s.heap.mem && s.heap.mem[me.pc.r.lo] in s.heap.lay.objs
        && (choice || s.heap.mem[me.pc.r.lo] !in s.marks))
    || (me.pc == Tail && |me.local| > LOCAL_MARK_STACK_SIZE / 2 && |s.slots| + |me.local| > s.capacity)
    || (me.pc == Giving && me.local != [] && |s.slots| + (|me.local| - 1) / 2 > s.capacity)
  }

  lemma StepInvalid(s: State, h: nat, choice: bool)
    requires Inv(s)
    ensures Step(s, h, choice).invalid <==> s.invalid || Raises(s, h, choice)
  {
    if h < |s.helpers| {
      HelperFacts(s, h);
      hide Inv;
      var me := s.helpers[h];
      if me.local != [] {
        StepReturns(s, h, choice);
      }
    }
  }

  /** Step `k` of the run meets a limit. */
  ghost predicate RaisesAt(s: State, schedule: seq<(nat, bool)>, k: nat) {
    k < |schedule| && Raises(Run(s, schedule[..k]), schedule[k].0, schedule[k].1)
  }

  lemma RaisesEarlier(s: State, schedule: seq<(nat, bool)>, n: nat, k: nat)
    requires k < n <= |schedule|
    ensures RaisesAt(s, schedule[..n], k) <==> RaisesAt(s, schedule, k)
  {
    assert schedule[..n][..k] == schedule[..k];
  }

  /** One more step of a run. */
  lemma RunNext(s: State, schedule: seq<(nat, bool)>)
    requires Init(s) && schedule != []
    ensures var n := |schedule| - 1;
            Run(s, schedule).invalid <==> Run(s, schedule[..n]).invalid || RaisesAt(s, schedule, n)
  {
    hide Init;
    hide Inv;
    hide Raises;
    hide Step;
    var n := |schedule| - 1;
    RunKeeps(s, schedule[..n]);
    StepInvalid(Run(s, schedule[..n]), schedule[n].0, schedule[n].1);
  }

  lemma RunNone(s: State, k: nat)
    requires Init(s)
    ensures !Run(s, []).invalid && !RaisesAt(s, [], k)
  {
  }

  /** Marking becomes invalid in a run exactly if some step of it meets a limit. */
  lemma {:induction false} RunInvalid(s: State, schedule: seq<(nat, bool)>)
    requires Init(s)
    ensures Run(s, schedule).invalid <==> exists k: nat :: RaisesAt(s, schedule, k)
  {
    hide *;
    if schedule == [] {
      forall k: nat
        ensures !RaisesAt(s, [], k)
      {
        RunNone(s, k);
      }
      RunNone(s, 0);
    } else {
      var n := |schedule| - 1;
      RunInvalid(s, schedule[..n]);
      RunNext(s, schedule);
      forall k: nat
        ensures RaisesAt(s, schedule, k) <==> if k == n then RaisesAt(s, schedule, n) else RaisesAt(s, schedule[..n], k)
      {
        if k < n {
          RaisesEarlier(s, schedule, n, k);
        } else {
          RaisesLater(s, schedule, k);
          RaisesLater(s, schedule[..n], k);
        }
      }
      if k: nat :| RaisesAt(s, schedule[..n], k) {
        RaisesLater(s, schedule[..n], k);
        assert RaisesAt(s, schedule, k);
      }
    }
  }

  lemma RaisesLater(s: State, schedule: seq<(nat, bool)>, k: nat)
    ensures k >= |schedule| ==> !RaisesAt(s, schedule, k)
  {
  }

  /** The starting thread has seen the end and every helper has left. */
  predicate Finished(s: State) {
    !s.wanted && s.helping == 0
  }

  /** When the cycle is over, every pointer in a root or marked object leads to a marked
      object, unless marking has been declared invalid. */
  lemma FinishedMarked(s: State, schedule: seq<(nat, bool)>)
    requires Init(s) && Finished(Run(s, schedule))
    ensures var t := Run(s, schedule);
            NoWork(t) && (t.invalid || forall a: nat :: Due(t, a) ==> !White(t, a))
  {
    RunKeeps(s, schedule);
    var t := Run(s, schedule);
    assert NoWork(t);
    forall a: nat | !t.invalid && Due(t, a)
      ensures !White(t, a)
    {
      if White(t, a) {
        assert Work(t, a);
        NoWorkNothing(t, a);
      }
    }
  }

  lemma NoWorkNothing(t: State, a: nat)
    requires NoWork(t)
    ensures !Work(t, a)
  {
  }

  /** A parallel cycle marks everything that the roots and the marks it started from lead to,
      unless it was declared invalid. */
  lemma ParallelMarksAll(s: State, schedule: seq<(nat, bool)>, q: nat)
    requires Init(s) && s.heap.Valid() && Finished(Run(s, schedule)) && s.heap.Reachable(s.marks, q)
    ensures var t := Run(s, schedule); t.invalid || q in t.marks
  {
    var t := Run(s, schedule);
    RunKeeps(s, schedule);
    FinishedMarked(s, schedule);
    hide Run;
    hide Init;
    if !t.invalid {
      NoWhiteClosed(t);
      var path :| s.heap.IsPath(path, q) && (s.heap.RootEdge(path[0]) || path[0] in s.marks);
      ReachableInClosed(s.heap, s.marks, t.marks, path, q);
    }
  }

  lemma NoWhiteClosed(t: State)
    requires t.heap.Valid() && forall a: nat :: Due(t, a) ==> !White(t, a)
    ensures t.heap.ClosedSet(t.marks) && t.heap.HoldsRoots(t.marks)
  {
    forall p: nat, q: nat | p in t.marks && t.heap.Edge(p, q)
      ensures q in t.marks
    {
      var a: nat :| t.heap.lay.InObj(p, a) && a in t.heap.mem && t.heap.mem[a] == q;
      assert Due(t, a) && !White(t, a);
    }
    forall q: nat | t.heap.RootEdge(q)
      ensures q in t.marks
    {
      var a: nat :| (t.heap.lay.InRoots(a) || t.heap.lay.InStacks(a)) && a in t.heap.mem && t.heap.mem[a] == q;
      assert Due(t, a) && !White(t, a);
    }
  }
}
