/** Every parallel cycle can be completed: from each state that some interleaving leads to, the
    helpers can go on until all of them have left. */
module ParallelEnds {
  import opened Prelude
  import opened MarkHeap
  import opened ParallelMarking

  // ----- How far a helper is from leaving -----

  function Length(r: Range): nat {
    if r.lo <= r.hi then r.hi - r.lo else 0
  }

  /** The work in a range; halves that overlap are still less than the whole. */
  function Effort(r: Range): nat {
    if Length(r) == 0 then 1 else 16 * Length(r) - 8 + 64 * (if Length(r) > 256 then Length(r) - 256 else 0)
  }

  function LocalWork(local: seq<Range>): nat {
    if local == [] then 0 else LocalWork(local[..|local| - 1]) + Effort(local[|local| - 1]) + 3
  }

  /** Where the helper looks for entries. */
  function Position(me: Helper): nat {
    match me.pc
    case Steal(p, end, taken, want) => p
    case Take(p, end, taken, want, e) => p
    case _ => me.first
  }

  datatype Kind = Sharer | Position | Work | Place

  function SharerValue(me: Helper): nat {
    match me.pc
    case Tail => 4
    case Sharing(top) => 3
    case Testing => 2
    case Giving => 1
    case _ => 0
  }

  function PositionValue(n: nat, me: Helper): nat {
    if IsHelping(me.pc) && Position(me) <= n then n - Position(me) else 0
  }

  function RangeWork(pc: Pc): nat {
    match pc
    case Popped(r) => Effort(r) + 2
    case Scan(r) => if Length(r) == 0 then 0 else 16 * Length(r) - 12
    case _ => 0
  }

  function PlaceValue(n: nat, first: nat, me: Helper): nat {
    match me.pc
    case Idle => 0
    case Gone => 0
    case Waiting => if n <= first then 1 else 17
    case Take(p, end, taken, want, e) => 4
    case Steal(p, end, taken, want) => if p < end && p < n && taken <= want then 5 else 23
    case Lock => if first < me.first then 18 else 13
    case Look => if first < me.first then 19 else 14
    case Compare(seen) => if seen == first then 15 else 20
    case Start => 16
    case Local => 22
    case Scan(r) => 25
    case Popped(r) => 26
    case _ => 24
  }

  /** Parts of the measure, for `n` slots and the shared bound `first`. */
  function Value(kind: Kind, n: nat, first: nat, me: Helper): nat {
    match kind
    case Sharer => SharerValue(me)
    case Position => PositionValue(n, me)
    case Work => LocalWork(me.local) + RangeWork(me.pc)
    case Place => PlaceValue(n, first, me)
  }

  function Sum(kind: Kind, n: nat, first: nat, hs: seq<Helper>): nat {
    if hs == [] then 0 else Value(kind, n, first, hs[0]) + Sum(kind, n, first, hs[1..])
  }

  lemma {:induction false} SumUpdate(kind: Kind, n: nat, first: nat, hs: seq<Helper>, h: nat, me: Helper)
    requires h < |hs|
    ensures Sum(kind, n, first, hs[h := me]) ==
            Sum(kind, n, first, hs) - Value(kind, n, first, hs[h]) + Value(kind, n, first, me)
  {
    hide Value;
    if h == 0 {
      assert hs[h := me][1..] == hs[1..];
    } else {
      assert hs[h := me][1..] == hs[1..][h - 1 := me];
      SumUpdate(kind, n, first, hs[1..], h - 1, me);
    }
  }

  function Joins(s: State): nat {
    if s.helpers != [] && s.helpers[0].pc == Idle then 1 else 0
  }

  function Unmarked(s: State): nat {
    |s.heap.lay.objs.Keys - s.marks|
  }

  function Total(kind: Kind, s: State): nat {
    Sum(kind, |s.slots|, s.first, s.helpers)
  }

  function Behind(s: State): nat {
    if s.first <= |s.slots| then |s.slots| - s.first else 0
  }

  /** Nearer to the end of the cycle. */
  predicate Nearer(t: State, s: State) {
    || Joins(t) < Joins(s)
    || (Joins(t) == Joins(s) &&
        (|| Total(Sharer, t) < Total(Sharer, s)
         || (Total(Sharer, t) == Total(Sharer, s) &&
             (|| Total(Kind.Position, t) < Total(Kind.Position, s)
              || (Total(Kind.Position, t) == Total(Kind.Position, s) && NearerWork(t, s))))))
  }

  predicate NearerWork(t: State, s: State) {
    || Unmarked(t) < Unmarked(s)
    || (Unmarked(t) == Unmarked(s) &&
        (|| Total(Work, t) < Total(Work, s)
         || (Total(Work, t) == Total(Work, s) && NearerPlace(t, s))))
  }

  predicate NearerPlace(t: State, s: State) {
    || Behind(t) < Behind(s)
    || (Behind(t) == Behind(s) &&
        (|| Total(Place, t) < Total(Place, s)
         || (Total(Place, t) == Total(Place, s) && s.wanted && !t.wanted)))
  }

  // ----- Steps that bring the end nearer -----

  /** A helper moves and leaves the shared state alone. */
  lemma HelperNearer(s: State, t: State, h: nat)
    requires Moved(s, t, h) && t.slots == s.slots && t.first == s.first && t.heap == s.heap && t.marks == s.marks
    requires s.helpers[h].pc != Idle && t.helpers[h].pc != Idle
    requires var n, me, to := |s.slots|, s.helpers[h], t.helpers[h];
             && Value(Sharer, n, s.first, to) == Value(Sharer, n, s.first, me)
             && (|| Value(Kind.Position, n, s.first, to) < Value(Kind.Position, n, s.first, me)
                 || (&& Value(Kind.Position, n, s.first, to) == Value(Kind.Position, n, s.first, me)
                     && (|| Value(Work, n, s.first, to) < Value(Work, n, s.first, me)
                         || (&& Value(Work, n, s.first, to) == Value(Work, n, s.first, me)
                             && Value(Place, n, s.first, to) < Value(Place, n, s.first, me)))))
    ensures Nearer(t, s)
  {
    hide Value;
    var n := |s.slots|;
    SumUpdate(Sharer, n, s.first, s.helpers, h, t.helpers[h]);
    SumUpdate(Kind.Position, n, s.first, s.helpers, h, t.helpers[h]);
    SumUpdate(Work, n, s.first, s.helpers, h, t.helpers[h]);
    SumUpdate(Place, n, s.first, s.helpers, h, t.helpers[h]);
  }

  /** A helper that was about to share work has done with it. */
  lemma SharerNearer(s: State, t: State, h: nat)
    requires h < |s.helpers| == |t.helpers| && t.helpers == s.helpers[h := t.helpers[h]]
    requires s.helpers[h].pc != Idle && t.helpers[h].pc != Idle
    requires forall n: nat, first: nat, m: nat, g: nat ::
               Value(Sharer, n, first, t.helpers[h]) < Value(Sharer, m, g, s.helpers[h])
    ensures Nearer(t, s)
  {
    SumUpdate(Sharer, |s.slots|, s.first, s.helpers, h, t.helpers[h]);
    SharerSame(t.helpers, |t.slots|, t.first, |s.slots|, s.first);
  }

  lemma {:induction false} SharerSame(hs: seq<Helper>, n: nat, first: nat, m: nat, g: nat)
    ensures Sum(Sharer, n, first, hs) == Sum(Sharer, m, g, hs)
  {
    if hs != [] {
      SharerSame(hs[1..], n, first, m, g);
    }
  }

  lemma ShareMoves(s: State, h: nat)
    requires h < |s.helpers|
    requires var pc := s.helpers[h].pc; pc == Tail || pc.Sharing? || pc == Testing || pc == Giving
    ensures Nearer(Step(s, h, false), s)
  {
    hide Nearer;
    SharerNearer(s, Step(s, h, false), h);
  }

  lemma LocalPushed(local: seq<Range>, r: Range)
    ensures LocalWork(local + [r]) == LocalWork(local) + Effort(r) + 3
  {
    assert (local + [r])[..|local|] == local;
  }

  /** Splitting a range leaves less work than it had. */
  lemma SplitEffort(r: Range)
    ensures Length(r) > 256 ==>
              var half := Length(r) / 2;
              Effort(Range(r.lo + half, r.hi)) + Effort(Range(r.lo, r.lo + half + 1)) + 3 < Effort(r)
    ensures Length(r) >= SPLIT_RANGE_PTRS ==>
              16 * (SPLIT_RANGE_PTRS - 1) - 12 + Effort(Range(r.lo + SPLIT_RANGE_PTRS - 1, r.hi)) + 3 < Effort(r) + 2
  {
  }

  /** What is left of a popped range, on the local stack and in hand, is less work. */
  lemma PoppedWork(s: State, h: nat, r: Range)
    requires h < |s.helpers| && s.helpers[h].pc == Popped(r)
    ensures var me, to := s.helpers[h], StepPopped(s, h, r).helpers[h];
            && StepPopped(s, h, r) == With(s, h, to) && to.first == me.first && (to.pc.Popped? || to.pc.Scan?)
            && LocalWork(to.local) + RangeWork(to.pc) < LocalWork(me.local) + RangeWork(me.pc)
  {
    hide Effort;
    SplitEffort(r);
    EffortSmall(r);
    var me := s.helpers[h];
    LocalPushed(me.local, Range(r.lo, r.lo + Length(r) / 2 + 1));
    LocalPushed(me.local, Range(r.lo + SPLIT_RANGE_PTRS - 1, r.hi));
    hide LocalWork;
  }

  lemma PoppedMoves(s: State, h: nat, r: Range)
    requires h < |s.helpers| && s.helpers[h].pc == Popped(r)
    ensures Nearer(StepPopped(s, h, r), s)
  {
    hide Nearer;
    hide LocalWork;
    hide RangeWork;
    hide PlaceValue;
    hide StepPopped;
    PoppedWork(s, h, r);
    HelperNearer(s, StepPopped(s, h, r), h);
  }

  lemma EffortSmall(r: Range)
    ensures (if Length(r) == 0 then 0 else 16 * Length(r) - 12) < Effort(r) + 2
  {
  }

  lemma LocalMoves(s: State, h: nat)
    requires h < |s.helpers| && s.helpers[h].pc == Local
    ensures Nearer(StepLocal(s, h), s)
  {
    hide Nearer;
    hide Effort;
    HelperNearer(s, StepLocal(s, h), h);
  }

  lemma ScanMoves(s: State, h: nat, r: Range)
    requires h < |s.helpers| && s.helpers[h].pc == Scan(r)
    ensures Nearer(StepScan(s, h, r, false), s)
  {
    hide LocalWork;
    var t := StepScan(s, h, r, false);
    if t.marks == s.marks {
      hide Nearer;
      HelperNearer(s, t, h);
    } else {
      var p := s.heap.mem[r.lo];
      FewerUnmarked(s.heap.lay.objs.Keys, s.marks, p);
      var n := |s.slots|;
      SumUpdate(Sharer, n, s.first, s.helpers, h, t.helpers[h]);
      SumUpdate(Kind.Position, n, s.first, s.helpers, h, t.helpers[h]);
    }
  }

  lemma FewerUnmarked(all: set<nat>, marks: set<nat>, p: nat)
    requires p in all && p !in marks
    ensures |all - (marks + {p})| < |all - marks|
  {
    assert all - marks == (all - (marks + {p})) + {p};
  }

  lemma StartMoves(s: State, h: nat)
    requires Inv(s) && h < |s.helpers| && s.helpers[h].pc == Start
    ensures Nearer(With(s, h, s.helpers[h].(pc := Compare(s.first))), s)
  {
    hide Nearer;
    hide LocalWork;
    hide Inv;
    hide NoWork;
    HelperFacts(s, h);
    HelperNearer(s, With(s, h, s.helpers[h].(pc := Compare(s.first))), h);
  }

  lemma LookMoves(s: State, h: nat)
    requires Inv(s) && h < |s.helpers| && s.helpers[h].pc == Look
    ensures Nearer(StepLook(s, h), s)
  {
    hide Nearer;
    hide LocalWork;
    hide Inv;
    hide NoWork;
    HelperFacts(s, h);
    HelperNearer(s, StepLook(s, h), h);
  }

  lemma LockMoves(s: State, h: nat)
    requires Inv(s) && h < |s.helpers| && s.helpers[h].pc == Lock
    ensures Nearer(StepLock(s, h), s)
  {
    hide Nearer;
    hide LocalWork;
    hide Inv;
    hide NoWork;
    HelperFacts(s, h);
    HelperNearer(s, StepLock(s, h), h);
  }

  lemma StealMoves(s: State, h: nat, p: nat, end: nat, taken: nat, want: nat)
    requires Inv(s) && h < |s.helpers| && s.helpers[h].pc == Steal(p, end, taken, want)
    ensures Nearer(StepSteal(s, h, p, end, taken, want), s)
  {
    hide Nearer;
    hide LocalWork;
    hide Inv;
    hide NoWork;
    HelperFacts(s, h);
    HelperNearer(s, StepSteal(s, h, p, end, taken, want), h);
  }

  lemma TakeMoves(s: State, h: nat)
    requires Inv(s) && h < |s.helpers| && s.helpers[h].pc.Take?
    ensures Nearer(Step(s, h, false), s)
  {
    hide LocalWork;
    hide Inv;
    hide NoWork;
    HelperFacts(s, h);
    var t := Step(s, h, false);
    var n := |s.slots|;
    SumUpdate(Sharer, n, s.first, s.helpers, h, t.helpers[h]);
    SumUpdate(Kind.Position, n, s.first, s.helpers, h, t.helpers[h]);
  }

  /** The shared bound is raised to the helper's own. */
  lemma RaiseMoves(s: State, h: nat)
    requires h < |s.helpers| && s.first < s.helpers[h].first <= |s.slots| && s.helpers[h].pc.Compare?
    ensures Nearer(With(s, h, s.helpers[h].(pc := Look)).(first := s.helpers[h].first), s)
  {
    hide LocalWork;
    hide PlaceValue;
    var n, me := |s.slots|, s.helpers[h];
    var t := With(s, h, me.(pc := Look)).(first := me.first);
    SumUpdate(Sharer, n, s.first, s.helpers, h, t.helpers[h]);
    SumUpdate(Kind.Position, n, s.first, s.helpers, h, t.helpers[h]);
    SumUpdate(Work, n, s.first, s.helpers, h, t.helpers[h]);
    SharerSame(t.helpers, n, t.first, n, s.first);
    FirstSame(t.helpers, n, t.first, s.first);
  }

  lemma CompareMoves(s: State, h: nat, seen: nat)
    requires Inv(s) && h < |s.helpers| && s.helpers[h].pc == Compare(seen)
    ensures Nearer(StepCompare(s, h, seen), s)
  {
    hide Nearer;
    hide LocalWork;
    hide Inv;
    hide NoWork;
    HelperFacts(s, h);
    var me := s.helpers[h];
    if me.first >= seen && seen < me.first && s.first == seen {
      RaiseMoves(s, h);
    } else {
      HelperNearer(s, StepCompare(s, h, seen), h);
    }
  }

  /** Only the places depend on the shared bound. */
  lemma {:induction false} FirstSame(hs: seq<Helper>, n: nat, first: nat, g: nat)
    ensures Sum(Kind.Position, n, first, hs) == Sum(Kind.Position, n, g, hs)
    ensures Sum(Work, n, first, hs) == Sum(Work, n, g, hs)
  {
    if hs != [] {
      FirstSame(hs[1..], n, first, g);
    }
  }

  lemma ActiveMoves(s: State, h: nat)
    requires Inv(s) && h < |s.helpers| && IsActive(s.helpers[h].pc)
    ensures Nearer(Step(s, h, false), s)
  {
    hide Nearer;
    hide Inv;
    match s.helpers[h].pc
    case Compare(seen) => CompareMoves(s, h, seen);
    case Take(p, end, taken, want, e) => TakeMoves(s, h);
    case Local => LocalMoves(s, h);
    case Popped(r) => PoppedMoves(s, h, r);
    case Scan(r) => ScanMoves(s, h, r);
    case Tail => ShareMoves(s, h);
    case Sharing(top) => ShareMoves(s, h);
    case Testing => ShareMoves(s, h);
    case Giving => ShareMoves(s, h);
    case Start => StartMoves(s, h);
    case Look => LookMoves(s, h);
    case Lock => LockMoves(s, h);
    case Steal(p, end, taken, want) => StealMoves(s, h, p, end, taken, want);
  }

  lemma WaitingMoves(s: State, h: nat)
    requires Inv(s) && h < |s.helpers| && s.helpers[h].pc == Waiting && s.active == 0
    ensures Nearer(StepWaiting(s, h), s)
  {
    hide Nearer;
    hide LocalWork;
    hide Inv;
    hide NoWork;
    HelperFacts(s, h);
    HelperNearer(s, StepWaiting(s, h), h);
  }

  lemma {:induction false} AllInactive(hs: seq<Helper>)
    requires forall h :: 0 <= h < |hs| ==> !IsActive(hs[h].pc)
    ensures CountActive(hs) == 0
  {
    if hs != [] {
      AllInactive(hs[1..]);
    }
  }

  lemma {:induction false} AllGone(hs: seq<Helper>)
    requires forall h :: 0 <= h < |hs| ==> !IsHelping(hs[h].pc)
    ensures CountHelping(hs) == 0
  {
    if hs != [] {
      AllGone(hs[1..]);
    }
  }

  /** In every state that is not final, some helper can bring the end nearer. */
  lemma NextMove(s: State) returns (h: nat)
    requires Inv(s) && s.helpers != [] && !Finished(s)
    ensures Nearer(Step(s, h, false), s)
  {
    if s.helpers[0].pc == Idle {
      h := 0;
    } else if h0 :| 0 <= h0 < |s.helpers| && IsActive(s.helpers[h0].pc) {
      hide Nearer;
      ActiveMoves(s, h0);
      h := h0;
    } else {
      AllInactive(s.helpers);
      if h0 :| 0 <= h0 < |s.helpers| && s.helpers[h0].pc == Waiting {
        hide Nearer;
        WaitingMoves(s, h0);
        h := h0;
      } else {
        AllGone(s.helpers);
        h := 0;
      }
    }
  }

  lemma StepSize(s: State, h: nat, choice: bool)
    ensures |Step(s, h, choice).helpers| == |s.helpers|
  {
    hide PushLocal;
    hide Deposit;
    if h < |s.helpers| {
      match s.helpers[h].pc
      case Compare(seen) => assert |StepCompare(s, h, seen).helpers| == |s.helpers|;
      case Scan(r) => assert |StepScan(s, h, r, choice).helpers| == |s.helpers|;
      case Tail => assert |StepTail(s, h, choice).helpers| == |s.helpers|;
      case Giving => assert |StepGiving(s, h).helpers| == |s.helpers|;
      case _ =>
    }
  }

  lemma {:induction false} RunMore(s: State, a: seq<(nat, bool)>, b: seq<(nat, bool)>)
    ensures Run(s, a + b) == Run(Run(s, a), b)
  {
    hide Step;
    if b == [] {
      assert a + b == a;
    } else {
      var n := |b| - 1;
      RunMore(s, a, b[..n]);
      assert (a + b)[..|a| + n] == a + b[..n];
    }
  }

  lemma RunFirst(s: State, h: nat, rest: seq<(nat, bool)>)
    ensures Run(s, [(h, false)] + rest) == Run(Step(s, h, false), rest)
  {
    hide Step;
    RunMore(s, [(h, false)], rest);
    assert [(h, false)][..0] == [];
    assert Run(s, [(h, false)]) == Step(Run(s, [(h, false)][..0]), h, false);
  }

  lemma {:induction false} CanFinishFrom(s: State) returns (more: seq<(nat, bool)>)
    requires Inv(s) && s.helpers != []
    ensures Finished(Run(s, more))
    decreases Joins(s), Total(Sharer, s), Total(Kind.Position, s), Unmarked(s), Total(Work, s), Behind(s),
              Total(Place, s), s.wanted
  {
    hide Inv;
    hide Step;
    hide Finished;
    hide Total;
    if Finished(s) {
      more := [];
    } else {
      var h := NextMove(s);
      StepKeeps(s, h, false);
      StepSize(s, h, false);
      var rest := CanFinishFrom(Step(s, h, false));
      RunFirst(s, h, rest);
      more := [(h, false)] + rest;
    }
  }

  lemma {:induction false} RunHelpers(s: State, schedule: seq<(nat, bool)>)
    ensures |Run(s, schedule).helpers| == |s.helpers|
  {
    if schedule != [] {
      var n := |schedule| - 1;
      RunHelpers(s, schedule[..n]);
      StepSize(Run(s, schedule[..n]), schedule[n].0, schedule[n].1);
    }
  }

  /** Whatever the helpers have done so far, they can agree that no work is left, and all leave. */
  lemma CanFinish(s: State, schedule: seq<(nat, bool)>)
    requires Init(s) && s.helpers != []
    ensures exists more: seq<(nat, bool)> :: Finished(Run(s, schedule + more))
  {
    RunKeeps(s, schedule);
    RunHelpers(s, schedule);
    var more := CanFinishFrom(Run(s, schedule));
    RunMore(s, schedule, more);
  }
}
