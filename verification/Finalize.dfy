/** Finalization: which registered objects are queued, in which order, what stays alive for
    them, and what becomes of weak links. */
module Finalization {
  import opened Prelude
  import opened MarkHeap
  import opened ChainTables

  /** The mark procedure given with a finalizer. */
  datatype Order = Ordered | IgnoreSelf | NoOrder | WhenUnreachable

  datatype Fo = Fo(order: Order, fn: nat, data: nat)

  /** The objects that the mark procedure of `o` starts from. */
  ghost function Targets(heap: Heap, o: nat, order: Order): set<nat> {
    set q | q in heap.lay.objs && order != NoOrder && heap.Edge(o, q) && (order == IgnoreSelf ==> q != o)
  }

  /** The objects that some registered object must not be finalized before. */
  ghost function AllTargets(heap: Heap, content: map<nat, Fo>): set<nat> {
    set k, q | k in content && q in Targets(heap, k, content[k].order) :: q
  }

  /** What is marked before anything is queued: the live objects, and all that is reachable from
      registered objects as far as their order demands. */
  ghost function Kept(heap: Heap, marks: set<nat>, content: map<nat, Fo>): set<nat> {
    ReachableSet(heap, marks + AllTargets(heap, content))
  }

  ghost predicate EdgesIn(heap: Heap, o: nat, s: set<nat>) {
    forall q: nat :: heap.Edge(o, q) ==> q in s
  }

  /** Pointers out of `marks` come only from objects that are still to be scanned. */
  ghost predicate ClosedBut(heap: Heap, marks: set<nat>, stack: seq<nat>) {
    forall p: nat :: p in marks && p !in stack ==> EdgesIn(heap, p, marks)
  }

  lemma EdgesInMore(heap: Heap, o: nat, s: set<nat>, t: set<nat>)
    requires EdgesIn(heap, o, s) && s <= t
    ensures EdgesIn(heap, o, t)
  {
  }

  lemma ClosedButNone(heap: Heap, marks: set<nat>)
    ensures ClosedBut(heap, marks, []) <==> heap.ClosedSet(marks)
  {
  }

  /** Marking has gone on from `m0` to `m`, and what is newly marked was scheduled. */
  ghost predicate Scheduled(keys: set<nat>, m0: set<nat>, s0: seq<nat>, m: set<nat>, s: seq<nat>) {
    && m0 <= m <= keys
    && (forall q :: q in s0 || (q in m && q !in m0) ==> q in s)
    && (forall q :: q in s ==> q in s0 || q in m)
    && |keys - m| + |s| == |keys - m0| + |s0|
  }

  lemma ScheduledNone(keys: set<nat>, m: set<nat>, s: seq<nat>)
    requires m <= keys
    ensures Scheduled(keys, m, s, m, s)
  {
  }

  lemma ScheduleOne(keys: set<nat>, m0: set<nat>, s0: seq<nat>, m: set<nat>, s: seq<nat>, q: nat)
    requires Scheduled(keys, m0, s0, m, s) && q in keys && q !in m
    ensures Scheduled(keys, m0, s0, m + {q}, s + [q])
  {
  }

  /** The state of a trace that started with `s0` scheduled. */
  ghost predicate Draining(heap: Heap, m0: set<nat>, s0: seq<nat>, m: set<nat>, s: seq<nat>, limit: set<nat>) {
    && m0 <= m <= limit && m <= heap.lay.objs.Keys
    && ClosedBut(heap, m, s)
    && (forall o :: o in s ==> o in heap.lay.objs && EdgesIn(heap, o, limit))
    && forall o :: o in s0 ==> o in s || EdgesIn(heap, o, m)
  }

  lemma DrainStart(heap: Heap, m: set<nat>, s: seq<nat>, limit: set<nat>)
    requires m <= limit && m <= heap.lay.objs.Keys && ClosedBut(heap, m, s)
    requires forall o :: o in s ==> o in heap.lay.objs && EdgesIn(heap, o, limit)
    ensures Draining(heap, m, s, m, s, limit)
  {
  }

  lemma DrainScan(heap: Heap, m0: set<nat>, s0: seq<nat>, m: set<nat>, s: seq<nat>, limit: set<nat>)
    requires Draining(heap, m0, s0, m, s, limit) && s != []
    ensures var o := s[|s| - 1];
            o in heap.lay.objs && (forall q: nat :: heap.Edge(o, q) ==> q in limit) && m <= heap.lay.objs.Keys
                && m <= limit
  {
  }

  lemma DrainMore(heap: Heap, m0: set<nat>, s0: seq<nat>, m: set<nat>, s: seq<nat>, limit: set<nat>, m': set<nat>,
                  s': seq<nat>)
    requires Draining(heap, m0, s0, m, s, limit) && s != [] && heap.ClosedSet(limit) && m' <= limit
    requires Scheduled(heap.lay.objs.Keys, m, s[..|s| - 1], m', s')
    requires forall q: nat :: heap.Edge(s[|s| - 1], q) ==> q in m'
    ensures Draining(heap, m0, s0, m', s', limit)
    ensures |heap.lay.objs.Keys - m'| + |s'| < |heap.lay.objs.Keys - m| + |s|
  {
    var o := s[|s| - 1];
    var rest := s[..|s| - 1];
    assert s == rest + [o];
    assert EdgesIn(heap, o, m');
    forall p: nat | p in m' && p !in s'
      ensures EdgesIn(heap, p, m')
    {
      if p != o {
        assert p in m && p !in s && EdgesIn(heap, p, m);
        EdgesInMore(heap, p, m, m');
      }
    }
    forall x | x in s'
      ensures x in heap.lay.objs && EdgesIn(heap, x, limit)
    {
      if x in rest {
        assert x in s;
      }
    }
    forall x | x in s0
      ensures x in s' || EdgesIn(heap, x, m')
    {
      if x !in s {
        EdgesInMore(heap, x, m, m');
      }
    }
  }

  lemma DrainEnd(heap: Heap, m0: set<nat>, s0: seq<nat>, m: set<nat>, limit: set<nat>)
    requires Draining(heap, m0, s0, m, [], limit)
    ensures m0 <= m <= limit && m <= heap.lay.objs.Keys && heap.ClosedSet(m)
    ensures forall o :: o in s0 ==> EdgesIn(heap, o, m)
  {
  }

  lemma TargetsAre(heap: Heap, o: nat, order: Order)
    requires heap.Valid() && order != NoOrder
    ensures forall q: nat :: heap.Edge(o, q) && (order == IgnoreSelf ==> q != o) ==> q in Targets(heap, o, order)
  {
  }

  lemma ClosedButMore(heap: Heap, m: set<nat>, o: nat)
    requires ClosedBut(heap, m, [])
    ensures ClosedBut(heap, m, [o])
  {
  }

  /** After the pointers that leave an object were followed, the new marks are scheduled. */
  lemma SelfScanned(heap: Heap, before: set<nat>, marks: set<nat>, stack: seq<nat>, limit: set<nat>)
    requires Scheduled(heap.lay.objs.Keys, before, [], marks, stack) && ClosedBut(heap, before, [])
    requires marks <= limit && heap.ClosedSet(limit)
    ensures ClosedBut(heap, marks, stack)
    ensures forall x :: x in stack ==> x in heap.lay.objs && EdgesIn(heap, x, limit)
  {
  }

  lemma TargetsMarked(heap: Heap, o: nat, order: Order, mid: set<nat>, marks: set<nat>)
    requires mid <= marks
    requires EdgesIn(heap, o, marks)
             || (order == IgnoreSelf && forall q: nat :: heap.Edge(o, q) && q != o ==> q in mid)
    ensures Targets(heap, o, order) <= marks
  {
  }

  lemma MarkedTargets(heap: Heap, marks: set<nat>, o: nat, order: Order)
    requires heap.ClosedSet(marks) && o in marks
    ensures Targets(heap, o, order) <= marks
  {
  }

  /** What the first `j` entries of a chain lead to is marked. */
  ghost predicate ChainMarked(heap: Heap, chain: seq<Entry<Fo>>, j: nat, marks: set<nat>) {
    forall l :: 0 <= l < j && l < |chain| ==> Targets(heap, chain[l].key, chain[l].value.order) <= marks
  }

  lemma TableMarked(heap: Heap, heads: seq<seq<Entry<Fo>>>, logSize: nat, content: map<nat, Fo>, marks: set<nat>)
    requires Rep(heads, logSize, content)
    requires forall a {:trigger heads[a]} :: 0 <= a < |heads| ==> ChainMarked(heap, heads[a], |heads[a]|, marks)
    ensures forall k :: k in content ==> Targets(heap, k, content[k].order) <= marks
  {
  }

  lemma KeptFacts(heap: Heap, marks: set<nat>, content: map<nat, Fo>)
    requires heap.Valid() && marks <= heap.lay.objs.Keys
    ensures var s := Kept(heap, marks, content);
            && heap.ClosedSet(s) && marks <= s
            && forall k :: k in content ==> Targets(heap, k, content[k].order) <= s
  {
    hide Heap.ClosedSet;
    ReachableSetClosed(heap, marks + AllTargets(heap, content));
    forall k | k in content
      ensures Targets(heap, k, content[k].order) <= AllTargets(heap, content)
    {
    }
  }

  /** A closed set between the start and the limit is the limit. */
  lemma KeptIs(heap: Heap, m0: set<nat>, content: map<nat, Fo>, marks: set<nat>)
    requires heap.ClosedSet(marks) && heap.HoldsRoots(m0) && m0 <= marks
    requires forall k :: k in content ==> Targets(heap, k, content[k].order) <= marks
    requires marks <= Kept(heap, m0, content)
    ensures marks == Kept(heap, m0, content) && heap.HoldsRoots(marks)
  {
    var extra := m0 + AllTargets(heap, content);
    assert extra <= marks;
    forall q: nat | q in ReachableSet(heap, extra)
      ensures q in marks
    {
      var path :| heap.IsPath(path, q) && (heap.RootEdge(path[0]) || path[0] in extra);
      ReachableInClosed(heap, extra, marks, path, q);
    }
  }

  ghost predicate DistinctKeys(s: seq<Entry<Fo>>) {
    forall j, l :: 0 <= j < l < |s| ==> s[j].key != s[l].key
  }

  ghost function KeySet(s: seq<Entry<Fo>>): set<nat> {
    set e | e in s :: e.key
  }

  /** The registered objects of `c0` are split between the table and the queue. */
  ghost predicate Queuing(c0: map<nat, Fo>, m0: set<nat>, content: map<nat, Fo>, added: seq<Entry<Fo>>) {
    && (forall k :: k in content ==> k in c0 && c0[k] == content[k])
    && (forall k :: k in c0 && k !in content ==> Entry(k, c0[k]) in added)
    && (forall e :: e in added ==> e.key in c0 && c0[e.key] == e.value && e.key !in content && e.key !in m0)
    && DistinctKeys(added)
  }

  /** Without Java finalization the queued objects are marked at once. */
  ghost function QueueMarks(java: bool, m0: set<nat>, added: seq<Entry<Fo>>): set<nat> {
    if java then m0 else m0 + KeySet(added)
  }

  function Restricted(c: map<nat, Fo>, m: set<nat>): map<nat, Fo> {
    map k | k in c && k in m :: c[k]
  }

  /** `q` holds the unmarked registered objects, each once. */
  ghost predicate IsQueue(q: seq<Entry<Fo>>, c: map<nat, Fo>, m: set<nat>) {
    && (forall e :: e in q <==> e.key in c && c[e.key] == e.value && e.key !in m)
    && DistinctKeys(q)
  }

  lemma QueueNone(java: bool, c0: map<nat, Fo>, m0: set<nat>)
    ensures Queuing(c0, m0, c0, []) && QueueMarks(java, m0, []) == m0
  {
  }

  lemma QueueOne(c0: map<nat, Fo>, m0: set<nat>, content: map<nat, Fo>, added: seq<Entry<Fo>>, e: Entry<Fo>)
    requires Queuing(c0, m0, content, added) && e.key in content && content[e.key] == e.value && e.key !in m0
    ensures Queuing(c0, m0, content - {e.key}, [e] + added)
  {
    var to := [e] + added;
    forall k | k in c0 && k !in content - {e.key}
      ensures Entry(k, c0[k]) in to
    {
      if k == e.key {
        assert to[0] == Entry(k, c0[k]);
      } else {
        assert Entry(k, c0[k]) in added;
      }
    }
  }

  lemma QueueMarksOne(java: bool, m0: set<nat>, added: seq<Entry<Fo>>, e: Entry<Fo>)
    ensures QueueMarks(java, m0, [e] + added) == QueueMarks(java, m0, added) + (if java then {} else {e.key})
  {
  }

  /** What is still in the table was not marked by queuing. */
  lemma QueuedApart(java: bool, c0: map<nat, Fo>, m0: set<nat>, content: map<nat, Fo>, added: seq<Entry<Fo>>, k: nat)
    requires Queuing(c0, m0, content, added) && k in content
    ensures k in QueueMarks(java, m0, added) <==> k in m0
  {
  }

  ghost predicate ChainIn(chain: seq<Entry<Fo>>, j: nat, m: set<nat>) {
    forall l :: 0 <= l < j && l < |chain| ==> chain[l].key in m
  }

  lemma AllIn(heads: seq<seq<Entry<Fo>>>, logSize: nat, content: map<nat, Fo>, m: set<nat>)
    requires Rep(heads, logSize, content)
    requires ChainsIn(heads, |heads|, m)
    ensures forall k :: k in content ==> k in m
  {
  }

  ghost predicate ChainsIn(heads: seq<seq<Entry<Fo>>>, i: nat, m: set<nat>) {
    forall a {:trigger heads[a]} :: 0 <= a < i && a < |heads| ==> ChainIn(heads[a], |heads[a]|, m)
  }

  lemma ChainInNone(chain: seq<Entry<Fo>>, m: set<nat>)
    ensures ChainIn(chain, 0, m)
  {
  }

  lemma ChainInNext(chain: seq<Entry<Fo>>, j: nat, m: set<nat>)
    requires ChainIn(chain, j, m) && j < |chain| && chain[j].key in m
    ensures ChainIn(chain, j + 1, m)
  {
  }

  lemma ChainsInNext(heads: seq<seq<Entry<Fo>>>, i: nat, m: set<nat>)
    requires i < |heads| && ChainsIn(heads, i, m) && ChainIn(heads[i], |heads[i]|, m)
    ensures ChainsIn(heads, i + 1, m)
  {
  }

  lemma RemovedIn(heads: seq<seq<Entry<Fo>>>, i: nat, j: nat, m: set<nat>)
    requires i < |heads| && j < |heads[i]| && ChainsIn(heads, i, m) && ChainIn(heads[i], j, m)
    ensures var w := Removed(heads, i, j);
            |w| == |heads| && |w[i]| == |heads[i]| - 1 && ChainsIn(w, i, m) && ChainIn(w[i], j, m)
  {
  }

  lemma QueueDone(c0: map<nat, Fo>, m0: set<nat>, content: map<nat, Fo>, added: seq<Entry<Fo>>)
    requires Queuing(c0, m0, content, added) && forall k :: k in content ==> k in m0
    ensures content == Restricted(c0, m0) && IsQueue(added, c0, m0)
  {
  }

  /** The queued objects that Java finalization keeps alive in any case. */
  ghost function Pinned(now: seq<Entry<Fo>>): set<nat> {
    set e | e in now && e.value.order != WhenUnreachable :: e.key
  }

  ghost predicate PinnedMarked(now: seq<Entry<Fo>>, j: nat, marks: set<nat>) {
    forall l :: 0 <= l < j && l < |now| && now[l].value.order != WhenUnreachable ==> now[l].key in marks
  }

  /** Every queued object is marked, or what its order demands is. */
  ghost predicate QueueTraced(heap: Heap, now: seq<Entry<Fo>>, marks: set<nat>) {
    forall j {:trigger now[j]} :: 0 <= j < |now| ==>
      now[j].key in heap.lay.objs && (now[j].key in marks || Targets(heap, now[j].key, now[j].value.order) <= marks)
  }

  lemma QueueTracedAt(heap: Heap, now: seq<Entry<Fo>>, marks: set<nat>, j: nat)
    requires QueueTraced(heap, now, marks) && j < |now|
    ensures now[j].key in heap.lay.objs
            && (now[j].key in marks || Targets(heap, now[j].key, now[j].value.order) <= marks)
  {
  }

  lemma PinnedAt(now: seq<Entry<Fo>>, j: nat)
    requires j < |now|
    ensures now[j].value.order != WhenUnreachable ==> now[j].key in Pinned(now)
  {
  }

  lemma PinnedFacts(heap: Heap, marks: set<nat>, now: seq<Entry<Fo>>)
    requires heap.Valid() && marks <= heap.lay.objs.Keys && QueueTraced(heap, now, marks)
    ensures var s := ReachableSet(heap, marks + Pinned(now)); heap.ClosedSet(s) && marks + Pinned(now) <= s
  {
    assert Pinned(now) <= heap.lay.objs.Keys;
    ReachableSetClosed(heap, marks + Pinned(now));
  }

  lemma PinnedIs(heap: Heap, m0: set<nat>, now: seq<Entry<Fo>>, marks: set<nat>)
    requires heap.ClosedSet(marks) && heap.HoldsRoots(m0) && m0 <= marks && PinnedMarked(now, |now|, marks)
    requires marks <= ReachableSet(heap, m0 + Pinned(now))
    ensures marks == ReachableSet(heap, m0 + Pinned(now)) && heap.HoldsRoots(marks)
  {
    var extra := m0 + Pinned(now);
    forall q: nat | q in ReachableSet(heap, extra)
      ensures q in marks
    {
      var path :| heap.IsPath(path, q) && (heap.RootEdge(path[0]) || path[0] in extra);
      ReachableInClosed(heap, extra, marks, path, q);
    }
  }

  /** An object whose pointers lead to marked objects, or to itself, may be marked. */
  lemma AddClosed(heap: Heap, marks: set<nat>, o: nat, order: Order)
    requires heap.Valid() && heap.ClosedSet(marks) && order != NoOrder && Targets(heap, o, order) <= marks
    ensures heap.ClosedSet(marks + {o})
  {
  }

  predicate Stays(e: Entry<Fo>, m: set<nat>) {
    e.value.order == WhenUnreachable ==> e.key !in m
  }

  /** The entries that stay queued. */
  function Staying(s: seq<Entry<Fo>>, m: set<nat>): seq<Entry<Fo>> {
    if s == [] then []
    else Staying(s[..|s| - 1], m) + (if Stays(s[|s| - 1], m) then [s[|s| - 1]] else [])
  }

  /** The table after the others went back to it. */
  function Back(c: map<nat, Fo>, s: seq<Entry<Fo>>, m: set<nat>): map<nat, Fo> {
    if s == [] then c
    else
      var e := s[|s| - 1];
      if Stays(e, m) then Back(c, s[..|s| - 1], m) else Back(c, s[..|s| - 1], m)[e.key := e.value]
  }

  /** The objects to be finalized when unreachable that are so. */
  function Waiting(s: seq<Entry<Fo>>, m: set<nat>): set<nat> {
    if s == [] then {}
    else
      var e := s[|s| - 1];
      Waiting(s[..|s| - 1], m) + (if e.value.order == WhenUnreachable && e.key !in m then {e.key} else {})
  }

  /** Objects to be finalized when unreachable that wait in the queue are registered nowhere else. */
  ghost predicate Revivable(now: seq<Entry<Fo>>, content: map<nat, Fo>) {
    && (forall j :: 0 <= j < |now| && Waits(now[j]) ==> now[j].key !in content)
    && (forall j, l :: 0 <= j < l < |now| && Waits(now[j]) && Waits(now[l]) ==> now[j].key != now[l].key)
  }

  predicate Waits(e: Entry<Fo>) {
    e.value.order == WhenUnreachable
  }

  /** What goes back to the table has new keys, each once. */
  ghost predicate BackApart(s: seq<Entry<Fo>>, m: set<nat>, c: map<nat, Fo>) {
    && (forall j :: 0 <= j < |s| && !Stays(s[j], m) ==> s[j].key !in c)
    && (forall j, l :: 0 <= j < l < |s| && !Stays(s[j], m) && !Stays(s[l], m) ==> s[j].key != s[l].key)
  }

  /** No object that has to wait is queued twice. */
  ghost predicate WaitOnce(s: seq<Entry<Fo>>, m: set<nat>) {
    forall j, l :: 0 <= j < l < |s| && Waits(s[j]) && Waits(s[l]) && s[j].key !in m ==> s[j].key != s[l].key
  }

  /** The buckets after the entries that do not stay queued were pushed on them. */
  function RevivedHeads(heads: seq<seq<Entry<Fo>>>, logSize: nat, s: seq<Entry<Fo>>,
                        m: set<nat>): (r: seq<seq<Entry<Fo>>>)
    requires |heads| == Pow2(logSize)
    ensures |r| == |heads|
  {
    if s == [] then heads
    else
      var e := s[|s| - 1];
      var r := RevivedHeads(heads, logSize, s[..|s| - 1], m);
      if Stays(e, m) then r else Pushed(r, Hash(e.key, logSize), e)
  }

  lemma RevivedNone(heads: seq<seq<Entry<Fo>>>, logSize: nat, m: set<nat>)
    requires |heads| == Pow2(logSize)
    ensures RevivedHeads(heads, logSize, [], m) == heads
  {
  }

  lemma RevivedNext(heads: seq<seq<Entry<Fo>>>, logSize: nat, s: seq<Entry<Fo>>, m: set<nat>, t: nat)
    requires |heads| == Pow2(logSize) && t < |s|
    ensures RevivedHeads(heads, logSize, s[..t + 1], m) ==
            var r := RevivedHeads(heads, logSize, s[..t], m);
            if Stays(s[t], m) then r else Pushed(r, Hash(s[t].key, logSize), s[t])
  {
    assert s[..t + 1][..t] == s[..t];
  }

  lemma BackApartNext(s: seq<Entry<Fo>>, m: set<nat>, c: map<nat, Fo>, t: nat)
    requires t < |s|
    ensures BackApart(s[..t + 1], m, c) <==>
            BackApart(s[..t], m, c) && (Stays(s[t], m) || s[t].key !in Back(c, s[..t], m))
  {
    var init, all := s[..t], s[..t + 1];
    var k := s[t].key;
    BackKeys(c, init, m, k);
    if BackApart(all, m, c) {
      assert forall j :: 0 <= j < t ==> init[j] == all[j];
      assert all[t] == s[t];
    }
  }

  /** If a table is a map after a push, it was one before. */
  lemma PushedFitted(heads: seq<seq<Entry<Fo>>>, logSize: nat, e: Entry<Fo>)
    requires |heads| == Pow2(logSize) && Fits(Pushed(heads, Hash(e.key, logSize), e), logSize)
    ensures Fits(heads, logSize)
  {
    hide Hash;
    var h := Hash(e.key, logSize);
    var w := Pushed(heads, h, e);
    var to: map<nat, Fo> :| Rep(w, logSize, to);
    RemoveRep(w, logSize, to, h, 0);
    assert Without(w[h], 0) == heads[h];
    assert Removed(w, h, 0) == heads;
  }

  /** The table is a map after the last pass exactly if what goes back to it has new keys, each
      once; and then it is the expected map. */
  lemma {:induction false} RevivedIsMap(heads: seq<seq<Entry<Fo>>>, logSize: nat, c: map<nat, Fo>, s: seq<Entry<Fo>>,
                                        m: set<nat>)
    requires Rep(heads, logSize, c)
    ensures BackApart(s, m, c) ==> Rep(RevivedHeads(heads, logSize, s, m), logSize, Back(c, s, m))
    ensures Fits(RevivedHeads(heads, logSize, s, m), logSize) <==> BackApart(s, m, c)
  {
    hide Hash;
    hide Rep;
    hide Stays;
    RepSize(heads, logSize, c);
    if s != [] {
      var t := |s| - 1;
      assert s[..t + 1] == s;
      RevivedIsMap(heads, logSize, c, s[..t], m);
      RevivedNext(heads, logSize, s, m, t);
      BackApartNext(s, m, c, t);
      hide BackApart;
      var r := RevivedHeads(heads, logSize, s[..t], m);
      if !Stays(s[t], m) {
        if BackApart(s[..t], m, c) {
          PushFits(r, logSize, Back(c, s[..t], m), s[t]);
          if s[t].key !in Back(c, s[..t], m) {
            PushRep(r, logSize, Back(c, s[..t], m), s[t]);
          }
        } else if Fits(RevivedHeads(heads, logSize, s, m), logSize) {
          PushedFitted(r, logSize, s[t]);
        }
      }
    }
  }

  /** Of the first `t` entries those that stay are in front of `j`; the rest is untouched. */
  ghost predicate Split(now: seq<Entry<Fo>>, j: nat, now0: seq<Entry<Fo>>, t: nat, m: set<nat>) {
    t <= |now0| && j <= |now| && now[..j] == Staying(now0[..t], m) && now[j..] == now0[t..]
  }

  lemma SplitNext(now: seq<Entry<Fo>>, j: nat, now0: seq<Entry<Fo>>, t: nat, m: set<nat>)
    requires Split(now, j, now0, t, m) && j < |now|
    ensures t < |now0| && now[j] == now0[t]
    ensures if Stays(now[j], m) then Split(now, j + 1, now0, t + 1, m)
            else Split(now[..j] + now[j + 1..], j, now0, t + 1, m)
  {
    var e := now[j];
    assert e == now[j..][0] == now0[t..][0];
    assert now0[..t + 1][..t] == now0[..t];
    assert now[j + 1..] == now[j..][1..] == now0[t..][1..] == now0[t + 1..];
    if Stays(e, m) {
      assert now[..j + 1] == now[..j] + [e];
    } else {
      var w := now[..j] + now[j + 1..];
      assert w[..j] == now[..j] && w[j..] == now[j + 1..];
    }
  }

  lemma {:induction false} BackKeys(c: map<nat, Fo>, s: seq<Entry<Fo>>, m: set<nat>, k: nat)
    ensures k in Back(c, s, m) <==> k in c || exists j :: 0 <= j < |s| && !Stays(s[j], m) && s[j].key == k
  {
    if s != [] {
      var t := |s| - 1;
      BackKeys(c, s[..t], m, k);
      forall j | 0 <= j < t
        ensures s[..t][j] == s[j]
      {
      }
    }
  }

  lemma {:induction false} WaitingHas(s: seq<Entry<Fo>>, m: set<nat>, k: nat)
    requires k in Waiting(s, m)
    ensures k !in m && exists j :: 0 <= j < |s| && s[j].value.order == WhenUnreachable && s[j].key == k
  {
    var init := s[..|s| - 1];
    if k in Waiting(init, m) {
      WaitingHas(init, m, k);
      var j :| 0 <= j < |init| && init[j].value.order == WhenUnreachable && init[j].key == k;
      assert s[j].key == k && s[j].value.order == WhenUnreachable;
    } else {
      assert s[|s| - 1].key == k;
    }
  }

  /** Marks set for entries that wait do not matter to later entries. */
  lemma WaitingApart(s: seq<Entry<Fo>>, m: set<nat>, t: nat)
    requires WaitOnce(s, m) && t < |s|
    ensures s[t].value.order == WhenUnreachable ==> (s[t].key in m + Waiting(s[..t], m) <==> s[t].key in m)
  {
    if s[t].value.order == WhenUnreachable && s[t].key in Waiting(s[..t], m) {
      WaitingHas(s[..t], m, s[t].key);
    }
  }

  // ----- Conservation of entries -----

  /** All entries of a table. */
  ghost function Bag(heads: seq<seq<Entry<Fo>>>): multiset<Entry<Fo>> {
    if heads == [] then multiset{} else multiset(heads[0]) + Bag(heads[1..])
  }

  lemma {:induction false} BagUpdate(heads: seq<seq<Entry<Fo>>>, i: nat, chain: seq<Entry<Fo>>)
    requires i < |heads|
    ensures Bag(heads[i := chain]) + multiset(heads[i]) == Bag(heads) + multiset(chain)
  {
    var w := heads[i := chain];
    if i == 0 {
      assert w[1..] == heads[1..];
    } else {
      assert w[1..] == heads[1..][i - 1 := chain];
      BagUpdate(heads[1..], i - 1, chain);
      SameFront(multiset(heads[0]), Bag(w[1..]), multiset(heads[i]), Bag(heads[1..]), multiset(chain));
    }
  }

  lemma SameFront(z: multiset<Entry<Fo>>, a: multiset<Entry<Fo>>, b: multiset<Entry<Fo>>, c: multiset<Entry<Fo>>,
                  d: multiset<Entry<Fo>>)
    requires a + b == c + d
    ensures (z + a) + b == (z + c) + d
  {
    assert (z + a) + b == z + (a + b);
  }

  lemma SameBack(a: multiset<Entry<Fo>>, x: multiset<Entry<Fo>>, c: multiset<Entry<Fo>>, b: multiset<Entry<Fo>>,
                 y: multiset<Entry<Fo>>)
    requires a + b == c + y && b == y + x
    ensures a + x == c
  {
    assert (a + x) + y == c + y;
    forall e: Entry<Fo>
      ensures (a + x)[e] == c[e]
    {
      assert ((a + x) + y)[e] == (c + y)[e];
    }
  }

  lemma BagRemoved(heads: seq<seq<Entry<Fo>>>, i: nat, j: nat)
    requires i < |heads| && j < |heads[i]|
    ensures Bag(Removed(heads, i, j)) + multiset{heads[i][j]} == Bag(heads)
  {
    hide Bag;
    BagUpdate(heads, i, Without(heads[i], j));
    BagWithout(heads[i], j);
    SameBack(Bag(Removed(heads, i, j)), multiset{heads[i][j]}, Bag(heads), multiset(heads[i]),
             multiset(Without(heads[i], j)));
  }

  lemma BagWithout(s: seq<Entry<Fo>>, j: nat)
    requires j < |s|
    ensures multiset(s) == multiset(Without(s, j)) + multiset{s[j]}
  {
    assert s == s[..j] + [s[j]] + s[j + 1..];
  }

  lemma BagPushed(heads: seq<seq<Entry<Fo>>>, i: nat, e: Entry<Fo>)
    requires i < |heads|
    ensures Bag(Pushed(heads, i, e)) == Bag(heads) + multiset{e}
  {
    hide Bag;
    var w := Pushed(heads, i, e);
    BagUpdate(heads, i, w[i]);
    assert multiset(w[i]) == multiset(heads[i]) + multiset{e};
    SameBack(Bag(heads), multiset{e}, Bag(w), multiset(w[i]), multiset(heads[i]));
  }

  lemma MovedOne(a: multiset<Entry<Fo>>, b: multiset<Entry<Fo>>, c: multiset<Entry<Fo>>, d: multiset<Entry<Fo>>,
                 x: multiset<Entry<Fo>>)
    requires a + b == c + d
    ensures (a + x) + b == c + (d + x) == a + (b + x)
  {
    assert (a + x) + b == (a + b) + x;
  }

  /** The last pass moves entries; it loses and invents none. */
  lemma {:induction false} NothingLost(heads: seq<seq<Entry<Fo>>>, logSize: nat, s: seq<Entry<Fo>>, m: set<nat>)
    requires |heads| == Pow2(logSize)
    ensures Bag(RevivedHeads(heads, logSize, s, m)) + multiset(Staying(s, m)) == Bag(heads) + multiset(s)
  {
    hide Hash;
    hide Bag;
    hide Stays;
    if s != [] {
      var t := |s| - 1;
      assert s == s[..t] + [s[t]];
      NothingLost(heads, logSize, s[..t], m);
      var r := RevivedHeads(heads, logSize, s[..t], m);
      if !Stays(s[t], m) {
        BagPushed(r, Hash(s[t].key, logSize), s[t]);
      }
      MovedOne(Bag(r), multiset(Staying(s[..t], m)), Bag(heads), multiset(s[..t]), multiset{s[t]});
    }
  }

  /** Does a link survive?  One pass looks at what it points to, the other at what holds it. */
  ghost predicate LinkKept(marks: set<nat>, home: map<nat, nat>, dangling: bool, link: nat, obj: nat) {
    if dangling then link in home ==> home[link] in marks else obj in marks
  }

  lemma LinkKeptIs(marks: set<nat>, home: map<nat, nat>, dangling: bool, link: nat, obj: nat)
    ensures LinkKept(marks, home, dangling, link, obj) <==>
            if dangling then link !in home || home[link] in marks else obj in marks
  {
  }

  ghost function KeptLinks(c: map<nat, nat>, marks: set<nat>, home: map<nat, nat>, dangling: bool): map<nat, nat> {
    map k | k in c && LinkKept(marks, home, dangling, k, c[k]) :: c[k]
  }

  lemma KeptLinksAre(c: map<nat, nat>, marks: set<nat>, home: map<nat, nat>, dangling: bool)
    ensures var d := KeptLinks(c, marks, home, dangling);
            && (forall k: nat :: k in d <==>
                  k in c && if dangling then k in home ==> home[k] in marks else c[k] in marks)
            && forall k: nat :: k in d ==> d[k] == c[k]
  {
  }

  ghost predicate ChainKept(chain: seq<Entry<nat>>, j: nat, marks: set<nat>, home: map<nat, nat>, dangling: bool) {
    forall l :: 0 <= l < j && l < |chain| ==> LinkKept(marks, home, dangling, chain[l].key, chain[l].value)
  }

  /** Some links that do not survive are gone, all others are there. */
  ghost predicate Dropping(c0: map<nat, nat>, c: map<nat, nat>, marks: set<nat>, home: map<nat, nat>, dangling: bool) {
    && (forall k :: k in c ==> k in c0 && c0[k] == c[k])
    && forall k :: k in c0 && k !in c ==> !LinkKept(marks, home, dangling, k, c0[k])
  }

  lemma AllKept(heads: seq<seq<Entry<nat>>>, logSize: nat, c0: map<nat, nat>, c: map<nat, nat>, marks: set<nat>,
                home: map<nat, nat>, dangling: bool)
    requires Rep(heads, logSize, c) && Dropping(c0, c, marks, home, dangling)
    requires ChainsKept(heads, |heads|, marks, home, dangling)
    ensures c == KeptLinks(c0, marks, home, dangling)
  {
  }

  ghost predicate ChainsKept(heads: seq<seq<Entry<nat>>>, i: nat, marks: set<nat>, home: map<nat, nat>,
                             dangling: bool) {
    forall a {:trigger heads[a]} :: 0 <= a < i && a < |heads| ==> ChainKept(heads[a], |heads[a]|, marks, home, dangling)
  }

  lemma DropOne(c0: map<nat, nat>, c: map<nat, nat>, marks: set<nat>, home: map<nat, nat>, dangling: bool, k: nat)
    requires Dropping(c0, c, marks, home, dangling) && k in c && !LinkKept(marks, home, dangling, k, c[k])
    ensures Dropping(c0, c - {k}, marks, home, dangling)
    ensures c0.Keys - (c - {k}).Keys == c0.Keys - c.Keys + {k}
  {
  }

  lemma RemovedKept(heads: seq<seq<Entry<nat>>>, i: nat, j: nat, marks: set<nat>, home: map<nat, nat>, dangling: bool)
    requires i < |heads| && j < |heads[i]|
    requires ChainsKept(heads, i, marks, home, dangling) && ChainKept(heads[i], j, marks, home, dangling)
    ensures ChainsKept(Removed(heads, i, j), i, marks, home, dangling)
    ensures ChainKept(Removed(heads, i, j)[i], j, marks, home, dangling)
  {
  }

  /** The locations that were set to NULL so far. */
  ghost function Cleared(c0: map<nat, nat>, c: map<nat, nat>, dangling: bool): set<nat> {
    if dangling then {} else c0.Keys - c.Keys
  }

  method DropLink(t: ChainTable<nat>, i: nat, j: nat, ghost marks: set<nat>, ghost home: map<nat, nat>,
                  ghost dangling: bool, ghost c0: map<nat, nat>)
    requires t.Valid() && i < |t.heads| && j < |t.heads[i]| && Dropping(c0, t.content, marks, home, dangling)
    requires ChainsKept(t.heads, i, marks, home, dangling) && ChainKept(t.heads[i], j, marks, home, dangling)
    requires !LinkKept(marks, home, dangling, t.heads[i][j].key, t.heads[i][j].value)
    modifies t
    ensures t.Valid() && |t.heads| == |old(t.heads)| && |t.heads[i]| == |old(t.heads)[i]| - 1
    ensures Dropping(c0, t.content, marks, home, dangling)
    ensures c0.Keys - t.content.Keys == c0.Keys - old(t.content).Keys + {old(t.heads)[i][j].key}
    ensures ChainsKept(t.heads, i, marks, home, dangling) && ChainKept(t.heads[i], j, marks, home, dangling)
  {
    hide Rep;
    hide LinkKept;
    hide Dropping;
    hide ChainsKept;
    hide ChainKept;
    var e := t.heads[i][j];
    RepAt(t.heads, t.logSize, t.content, i, j);
    DropOne(c0, t.content, marks, home, dangling, e.key);
    RemovedKept(t.heads, i, j, marks, home, dangling);
    t.RemoveAt(i, j);
  }

  /** One chain of GC_make_disappearing_links_disappear. */
  method DisappearChain(t: ChainTable<nat>, i: nat, marks: set<nat>, home: map<nat, nat>, dangling: bool,
                        cleared: set<nat>, ghost c0: map<nat, nat>) returns (to: set<nat>)
    requires t.Valid() && i < |t.heads| && Dropping(c0, t.content, marks, home, dangling)
    requires ChainsKept(t.heads, i, marks, home, dangling) && cleared == Cleared(c0, t.content, dangling)
    modifies t
    ensures t.Valid() && |t.heads| == |old(t.heads)| && Dropping(c0, t.content, marks, home, dangling)
    ensures ChainsKept(t.heads, i + 1, marks, home, dangling) && to == Cleared(c0, t.content, dangling)
  {
    hide Rep;
    hide LinkKept;
    hide Dropping;
    to := cleared;
    var j := 0;
    while j < |t.heads[i]|
      invariant t.Valid() && |t.heads| == |old(t.heads)| && 0 <= j <= |t.heads[i]|
      invariant Dropping(c0, t.content, marks, home, dangling) && to == Cleared(c0, t.content, dangling)
      invariant ChainsKept(t.heads, i, marks, home, dangling) && ChainKept(t.heads[i], j, marks, home, dangling)
      decreases |t.heads[i]| - j
    {
      var e := t.heads[i][j];
      var kept := if dangling then e.key !in home || home[e.key] in marks else e.value in marks;
      assert kept == LinkKept(marks, home, dangling, e.key, e.value) by {
        LinkKeptIs(marks, home, dangling, e.key, e.value);
      }
      if kept {
        j := j + 1;
      } else {
        if !dangling {
          to := to + {e.key};
        }
        DropLink(t, i, j, marks, home, dangling, c0);
      }
    }
  }

  /** GC_make_disappearing_links_disappear: drop the links that do not survive.  The locations of
      those whose object is gone are set to NULL, dangling links are only forgotten. */
  method Disappear(t: ChainTable<nat>, marks: set<nat>, home: map<nat, nat>, dangling: bool) returns (cleared: set<nat>)
    requires t.Valid()
    modifies t
    ensures t.Valid() && t.content == KeptLinks(old(t.content), marks, home, dangling)
    ensures forall k: nat :: k in t.content <==>
              && k in old(t.content)
              && if dangling then k in home ==> home[k] in marks else old(t.content)[k] in marks
    ensures forall k: nat :: k in t.content ==> t.content[k] == old(t.content)[k]
    ensures forall k: nat :: k in cleared <==> !dangling && k in old(t.content) && old(t.content)[k] !in marks
  {
    hide Rep;
    hide LinkKept;
    cleared := {};
    var i := 0;
    while i < |t.heads|
      invariant t.Valid() && |t.heads| == |old(t.heads)| && 0 <= i <= |t.heads|
      invariant Dropping(old(t.content), t.content, marks, home, dangling)
      invariant ChainsKept(t.heads, i, marks, home, dangling) && cleared == Cleared(old(t.content), t.content, dangling)
    {
      cleared := DisappearChain(t, i, marks, home, dangling, cleared, old(t.content));
      i := i + 1;
    }
    KeptLinksAre(old(t.content), marks, home, dangling);
    if t.heads != [] {
      AllKept(t.heads, t.logSize, old(t.content), t.content, marks, home, dangling);
    }
  }

  class Finalizer {
    const heap: Heap
    const home: map<nat, nat>           // the object that holds a location, if any does
    var marks: set<nat>
    const fos: ChainTable<Fo>           // GC_fnlz_roots.fo_head and what belongs to it
    var now: seq<Entry<Fo>>             // GC_fnlz_roots.finalize_now
    var java: bool                      // GC_java_finalization
    var needUnreachable: bool           // GC_need_unreachable_finalization

    constructor (heap: Heap, home: map<nat, nat>, fos: ChainTable<Fo>, java: bool)
      ensures this.heap == heap && this.home == home && this.fos == fos && this.java == java
      ensures marks == {} && now == [] && !needUnreachable
    {
      this.heap, this.home, this.fos, this.java := heap, home, fos, java;
      marks, now, needUnreachable := {}, [], false;
    }

    /** All entries, in the table and in the queue. */
    ghost function Held(): multiset<Entry<Fo>>
      reads this`now, fos`heads
    {
      Bag(fos.heads) + multiset(now)
    }

    /** Scan the words of `o`, leaving out pointers to `o` itself if so asked; what is newly marked
        is scheduled. */
    method ScanObject(o: nat, stack: seq<nat>, skipSelf: bool, ghost limit: set<nat>) returns (to: seq<nat>)
      requires heap.Valid() && o in heap.lay.objs && marks <= heap.lay.objs.Keys && marks <= limit
      requires forall q: nat :: heap.Edge(o, q) && (skipSelf ==> q != o) ==> q in limit
      modifies this`marks
      ensures Scheduled(heap.lay.objs.Keys, old(marks), stack, marks, to) && marks <= limit
      ensures forall q: nat :: heap.Edge(o, q) && (skipSelf ==> q != o) ==> q in marks
    {
      hide Scheduled;
      hide Layout.Valid;
      to := stack;
      var a := o;
      ScheduledNone(heap.lay.objs.Keys, marks, stack);
      while a < o + heap.lay.objs[o].len
        invariant o <= a <= o + heap.lay.objs[o].len
        invariant Scheduled(heap.lay.objs.Keys, old(marks), stack, marks, to) && marks <= limit
        invariant forall b :: o <= b < a && b in heap.mem && (skipSelf ==> heap.mem[b] != o) ==> heap.mem[b] in marks
      {
        if a in heap.mem && !(skipSelf && heap.mem[a] == o) && heap.mem[a] !in marks {
          var q := heap.mem[a];
          assert heap.lay.InObj(o, a) && heap.Edge(o, q);
          ScheduleOne(heap.lay.objs.Keys, old(marks), stack, marks, to, q);
          marks := marks + {q};
          to := to + [q];
        }
        a := a + 1;
      }
    }

    /** Scan everything that is scheduled, and all that it leads to. */
    method Drain(stack0: seq<nat>, ghost limit: set<nat>)
      requires heap.Valid() && marks <= heap.lay.objs.Keys && marks <= limit
      requires forall o :: o in stack0 ==> o in heap.lay.objs && EdgesIn(heap, o, limit)
      requires ClosedBut(heap, marks, stack0) && heap.ClosedSet(limit)
      modifies this`marks
      ensures old(marks) <= marks <= limit && marks <= heap.lay.objs.Keys
      ensures heap.ClosedSet(marks) && forall o :: o in stack0 ==> EdgesIn(heap, o, marks)
    {
      hide Layout.Valid;
      hide Heap.Valid;
      hide ClosedBut;
      hide EdgesIn;
      hide Heap.ClosedSet;
      var stack := stack0;
      DrainStart(heap, marks, stack, limit);
      while stack != []
        invariant Draining(heap, old(marks), stack0, marks, stack, limit)
        decreases |heap.lay.objs.Keys - marks| + |stack|
      {
        var o := stack[|stack| - 1];
        var rest := stack[..|stack| - 1];
        ghost var before := marks;
        DrainScan(heap, old(marks), stack0, marks, stack, limit);
        var to := ScanObject(o, rest, false, limit);
        DrainMore(heap, old(marks), stack0, before, stack, limit, marks, to);
        stack := to;
      }
      DrainEnd(heap, old(marks), stack0, marks, limit);
    }

    /** GC_mark_fo with one of the finalization mark procedures. */
    method MarkFo(o: nat, order: Order, ghost limit: set<nat>)
      requires heap.Valid() && o in heap.lay.objs && marks <= heap.lay.objs.Keys && marks <= limit
      requires heap.ClosedSet(marks) && heap.ClosedSet(limit) && Targets(heap, o, order) <= limit
      modifies this`marks
      ensures old(marks) <= marks <= limit && marks <= heap.lay.objs.Keys
      ensures heap.ClosedSet(marks) && Targets(heap, o, order) <= marks
    {
      hide Layout.Valid;
      hide ClosedBut;
      hide Heap.ClosedSet;
      ClosedButNone(heap, marks);
      if order == NoOrder {
        return;
      }
      TargetsAre(heap, o, order);
      var stack := [o];
      if order == IgnoreSelf {
        ghost var before := marks;
        stack := ScanObject(o, [], true, limit);
        SelfScanned(heap, before, marks, stack, limit);
      } else {
        ClosedButMore(heap, marks, o);
      }
      ghost var mid := marks;
      hide Heap.Valid;
      hide EdgesIn;
      Drain(stack, limit);
      TargetsMarked(heap, o, order, mid, marks);
    }

    /** First pass of GC_finalize: mark what the registered objects lead to. */
    method MarkFromTable()
      requires heap.Valid() && marks <= heap.lay.objs.Keys && heap.ClosedSet(marks) && heap.HoldsRoots(marks)
      requires fos.heads == [] ==> fos.content == map[]
      requires fos.heads != [] ==> Rep(fos.heads, fos.logSize, fos.content)
      requires fos.content.Keys <= heap.lay.objs.Keys
      modifies this`marks
      ensures marks == Kept(heap, old(marks), fos.content) && marks <= heap.lay.objs.Keys
      ensures heap.ClosedSet(marks) && heap.HoldsRoots(marks) && old(marks) <= marks
      ensures forall k :: k in fos.content ==> Targets(heap, k, fos.content[k].order) <= marks
    {
      hide Layout.Valid;
      hide Heap.Valid;
      hide Heap.ClosedSet;
      hide Heap.HoldsRoots;
      hide Targets;
      hide Rep;
      hide Kept;
      ghost var limit := Kept(heap, marks, fos.content);
      KeptFacts(heap, marks, fos.content);
      var i := 0;
      while i < |fos.heads|
        invariant 0 <= i <= |fos.heads|
        invariant old(marks) <= marks <= limit && marks <= heap.lay.objs.Keys && heap.ClosedSet(marks)
        invariant forall a {:trigger fos.heads[a]} :: 0 <= a < i ==>
                  ChainMarked(heap, fos.heads[a], |fos.heads[a]|, marks)
      {
        MarkFromChain(i, limit);
        i := i + 1;
      }
      if fos.heads != [] {
        TableMarked(heap, fos.heads, fos.logSize, fos.content, marks);
      }
      KeptIs(heap, old(marks), fos.content, marks);
    }

    method MarkFromChain(i: nat, ghost limit: set<nat>)
      requires heap.Valid() && marks <= heap.lay.objs.Keys && marks <= limit
      requires heap.ClosedSet(marks) && heap.ClosedSet(limit)
      requires i < |fos.heads| && Rep(fos.heads, fos.logSize, fos.content) && fos.content.Keys <= heap.lay.objs.Keys
      requires forall k :: k in fos.content ==> Targets(heap, k, fos.content[k].order) <= limit
      modifies this`marks
      ensures old(marks) <= marks <= limit && marks <= heap.lay.objs.Keys && heap.ClosedSet(marks)
      ensures ChainMarked(heap, fos.heads[i], |fos.heads[i]|, marks)
      ensures forall a {:trigger fos.heads[a]} ::
                0 <= a < |fos.heads| && ChainMarked(heap, fos.heads[a], |fos.heads[a]|, old(marks)) ==>
                ChainMarked(heap, fos.heads[a], |fos.heads[a]|, marks)
    {
      hide Layout.Valid;
      hide Heap.Valid;
      hide Heap.ClosedSet;
      hide Targets;
      hide Rep;
      var j := 0;
      while j < |fos.heads[i]|
        invariant 0 <= j <= |fos.heads[i]|
        invariant old(marks) <= marks <= limit && marks <= heap.lay.objs.Keys && heap.ClosedSet(marks)
        invariant ChainMarked(heap, fos.heads[i], j, marks)
      {
        var e := fos.heads[i][j];
        RepAt(fos.heads, fos.logSize, fos.content, i, j);
        if e.key !in marks {
          MarkFo(e.key, e.value.order, limit);
        } else {
          MarkedTargets(heap, marks, e.key, e.value.order);
        }
        j := j + 1;
      }
    }

    /** Take an unmarked object out of the table and queue it. */
    method QueueEntry(i: nat, j: nat, ghost c0: map<nat, Fo>, ghost m0: set<nat>, ghost added: seq<Entry<Fo>>)
      returns (ghost to: seq<Entry<Fo>>)
      requires fos.Valid() && i < |fos.heads| && j < |fos.heads[i]| && fos.heads[i][j].key !in marks
      requires fos.heads[i][j].key !in m0
      requires Queuing(c0, m0, fos.content, added) && marks == QueueMarks(java, m0, added)
      modifies this`marks, this`now, fos`heads, fos`entries, fos`content
      ensures fos.Valid() && to == [old(fos.heads)[i][j]] + added && now == [old(fos.heads)[i][j]] + old(now)
      ensures fos.heads == Removed(old(fos.heads), i, j)
      ensures Queuing(c0, m0, fos.content, to) && marks == QueueMarks(java, m0, to) && Held() == old(Held())
    {
      hide Rep;
      hide Queuing;
      hide QueueMarks;
      hide ChainTable.Valid;
      hide Bag;
      var e := fos.heads[i][j];
      BagRemoved(fos.heads, i, j);
      QueueMarksOne(java, m0, added, e);
      if !java {
        marks := marks + {e.key};
      }
      ghost var c := fos.content;
      fos.RemoveAt(i, j);
      QueueOne(c0, m0, c, added, e);
      now := [e] + now;
      to := [e] + added;
    }

    static lemma Reassociate(e: Entry<Fo>, added: seq<Entry<Fo>>, now0: seq<Entry<Fo>>)
      ensures [e] + (added + now0) == ([e] + added) + now0
    {
    }

    /** Queue the unmarked objects of one chain. */
    method QueueChain(i: nat, ghost c0: map<nat, Fo>, ghost m0: set<nat>, ghost now0: seq<Entry<Fo>>,
                      ghost added: seq<Entry<Fo>>)
      returns (ghost to: seq<Entry<Fo>>)
      requires fos.Valid() && i < |fos.heads| && Queuing(c0, m0, fos.content, added)
      requires marks == QueueMarks(java, m0, added) && now == added + now0
      requires ChainsIn(fos.heads, i, m0)
      modifies this`marks, this`now, fos`heads, fos`entries, fos`content
      ensures fos.Valid() && |fos.heads| == |old(fos.heads)| && Queuing(c0, m0, fos.content, to)
      ensures marks == QueueMarks(java, m0, to) && now == to + now0 && Held() == old(Held())
      ensures ChainsIn(fos.heads, i + 1, m0)
    {
      hide Rep;
      hide Queuing;
      hide Bag;
      hide QueueMarks;
      hide ChainIn;
      hide ChainsIn;
      hide Removed;
      to := added;
      var j := 0;
      ChainInNone(fos.heads[i], m0);
      while j < |fos.heads[i]|
        invariant fos.Valid() && |fos.heads| == |old(fos.heads)| && 0 <= j <= |fos.heads[i]|
                  && Queuing(c0, m0, fos.content, to)
        invariant marks == QueueMarks(java, m0, to) && now == to + now0 && Held() == old(Held())
        invariant ChainsIn(fos.heads, i, m0) && ChainIn(fos.heads[i], j, m0)
        decreases |fos.heads[i]| - j
      {
        RepAt(fos.heads, fos.logSize, fos.content, i, j);
        QueuedApart(java, c0, m0, fos.content, to, fos.heads[i][j].key);
        if fos.heads[i][j].key !in marks {
          RemovedIn(fos.heads, i, j, m0);
          Reassociate(fos.heads[i][j], to, now0);
          to := QueueEntry(i, j, c0, m0, to);
        } else {
          ChainInNext(fos.heads[i], j, m0);
          j := j + 1;
        }
      }
      ChainsInNext(fos.heads, i, m0);
    }

    /** Second pass of GC_finalize: queue all registered objects that are not marked; `added` are
        the new ones in front of the queue. */
    method Enqueue() returns (ghost added: seq<Entry<Fo>>)
      requires fos.Valid()
      modifies this`marks, this`now, fos`heads, fos`entries, fos`content
      ensures fos.Valid() && |fos.heads| == |old(fos.heads)|
      ensures fos.content == Restricted(old(fos.content), old(marks))
      ensures now == added + old(now) && IsQueue(added, old(fos.content), old(marks))
      ensures marks == QueueMarks(java, old(marks), added) && Held() == old(Held())
    {
      hide Rep;
      hide Queuing;
      hide Bag;
      added := [];
      ghost var c0, m0 := fos.content, marks;
      QueueNone(java, c0, m0);
      var i := 0;
      while i < |fos.heads|
        invariant fos.Valid() && |fos.heads| == |old(fos.heads)| && 0 <= i <= |fos.heads|
                  && Queuing(c0, m0, fos.content, added)
        invariant marks == QueueMarks(java, m0, added) && now == added + old(now) && Held() == old(Held())
        invariant ChainsIn(fos.heads, i, m0)
      {
        added := QueueChain(i, c0, m0, old(now), added);
        i := i + 1;
      }
      if fos.heads != [] {
        AllIn(fos.heads, fos.logSize, fos.content, m0);
      }
      QueueDone(c0, m0, fos.content, added);
    }

    /** Third pass, for Java finalization: mark the queued objects, and what the unordered ones lead
        to; objects to be finalized when unreachable wait. */
    method MarkQueued()
      requires heap.Valid() && marks <= heap.lay.objs.Keys && heap.ClosedSet(marks) && heap.HoldsRoots(marks)
      requires QueueTraced(heap, now, marks)
      modifies this`marks
      ensures old(marks) <= marks <= heap.lay.objs.Keys && heap.ClosedSet(marks) && heap.HoldsRoots(marks)
      ensures marks == ReachableSet(heap, old(marks) + Pinned(now))
    {
      hide Layout.Valid;
      hide Heap.Valid;
      hide Heap.ClosedSet;
      hide Heap.HoldsRoots;
      hide Targets;
      hide QueueTraced;
      hide ReachableSet;
      hide Pinned;
      ghost var limit := ReachableSet(heap, marks + Pinned(now));
      PinnedFacts(heap, marks, now);
      var j := 0;
      while j < |now|
        invariant 0 <= j <= |now|
        invariant old(marks) <= marks <= limit && marks <= heap.lay.objs.Keys && heap.ClosedSet(marks)
        invariant PinnedMarked(now, j, marks)
      {
        MarkQueuedAt(j, limit, old(marks));
        j := j + 1;
      }
      PinnedIs(heap, old(marks), now, marks);
    }

    method MarkQueuedAt(j: nat, ghost limit: set<nat>, ghost m0: set<nat>)
      requires heap.Valid() && m0 <= marks && marks <= heap.lay.objs.Keys && marks <= limit
      requires heap.ClosedSet(marks) && heap.ClosedSet(limit)
      requires j < |now| && QueueTraced(heap, now, m0) && Pinned(now) <= limit && PinnedMarked(now, j, marks)
      modifies this`marks
      ensures old(marks) <= marks <= limit && marks <= heap.lay.objs.Keys && heap.ClosedSet(marks)
      ensures PinnedMarked(now, j + 1, marks)
    {
      hide Layout.Valid;
      hide Heap.Valid;
      hide Heap.ClosedSet;
      hide Targets;
      hide QueueTraced;
      var e := now[j];
      QueueTracedAt(heap, now, m0, j);
      PinnedAt(now, j);
      if e.key !in marks {
        if e.value.order == NoOrder {
          MarkedTargets(heap, limit, e.key, Ordered);
          MarkFo(e.key, Ordered, limit);
        }
        if e.value.order != WhenUnreachable {
          AddClosed(heap, marks, e.key, if e.value.order == NoOrder then Ordered else e.value.order);
          marks := marks + {e.key};
        }
      }
    }

    /** Last pass, for Java finalization: objects to be finalized when unreachable go back to the
        table if they are marked by now, and stay queued otherwise.  Nobody looks whether the table
        has an entry for the same object already. */
    method Revive()
      requires fos.Valid() && (now != [] ==> fos.heads != []) && WaitOnce(now, marks)
      modifies this`marks, this`now, fos`heads, fos`entries, fos`content
      ensures now == Staying(old(now), old(marks)) && marks == old(marks) + Waiting(old(now), old(marks))
      ensures fos.content == Back(old(fos.content), old(now), old(marks)) && Held() == old(Held())
      ensures BackApart(old(now), old(marks), old(fos.content)) ==> fos.Valid()
      ensures fos.IsMap() <==> BackApart(old(now), old(marks), old(fos.content))
    {
      hide Rep;
      hide Bag;
      hide WaitOnce;
      hide RevivedHeads;
      hide Stays;
      ghost var now0, m0, c0, heads0 := now, marks, fos.content, fos.heads;
      if now == [] {
        assert fos.heads != [] ==> Rep(fos.heads, fos.logSize, fos.content);
        return;
      }
      RepSize(fos.heads, fos.logSize, fos.content);
      RevivedNone(heads0, fos.logSize, m0);
      ghost var t := 0;
      var j: nat := 0;
      while j < |now|
        invariant t <= |now0| && Split(now, j, now0, t, m0) && marks == m0 + Waiting(now0[..t], m0)
        invariant |heads0| == Pow2(fos.logSize) && fos.heads == RevivedHeads(heads0, fos.logSize, now0[..t], m0)
        invariant fos.content == Back(c0, now0[..t], m0) && (BackApart(now0[..t], m0, c0) ==> fos.Valid())
        decreases |now0| - t
      {
        j := ReviveAt(j, now0, t, heads0, c0, m0);
        t := t + 1;
      }
      assert now0[..t] == now0;
      assert now[..j] == now;
      RevivedIsMap(heads0, fos.logSize, c0, now0, m0);
      NothingLost(heads0, fos.logSize, now0, m0);
    }

    method ReviveAt(j: nat, ghost now0: seq<Entry<Fo>>, ghost t: nat, ghost heads0: seq<seq<Entry<Fo>>>,
                    ghost c0: map<nat, Fo>, ghost m0: set<nat>)
      returns (next: nat)
      requires j < |now| && Split(now, j, now0, t, m0) && WaitOnce(now0, m0) && marks == m0 + Waiting(now0[..t], m0)
      requires |heads0| == Pow2(fos.logSize) && fos.heads == RevivedHeads(heads0, fos.logSize, now0[..t], m0)
      requires fos.content == Back(c0, now0[..t], m0) && (BackApart(now0[..t], m0, c0) ==> fos.Valid())
      modifies this`marks, this`now, fos`heads, fos`entries, fos`content
      ensures t < |now0| && next <= |now| && Split(now, next, now0, t + 1, m0)
      ensures fos.heads == RevivedHeads(heads0, fos.logSize, now0[..t + 1], m0)
              && marks == m0 + Waiting(now0[..t + 1], m0)
      ensures fos.content == Back(c0, now0[..t + 1], m0) && (BackApart(now0[..t + 1], m0, c0) ==> fos.Valid())
    {
      hide ChainTable.Valid;
      hide WaitOnce;
      hide BackApart;
      hide Split;
      hide Hash;
      SplitNext(now, j, now0, t, m0);
      var e := now[j];
      WaitingApart(now0, m0, t);
      RevivedNext(heads0, fos.logSize, now0, m0, t);
      BackApartNext(now0, m0, c0, t);
      assert now0[..t + 1][..t] == now0[..t];
      if e.value.order == WhenUnreachable && e.key in marks {
        now := now[..j] + now[j + 1..];
        fos.Push(e);
        next := j;
      } else {
        if e.value.order == WhenUnreachable {
          marks := marks + {e.key};
        }
        next := j + 1;
      }
    }

    /** What GC_finalize may rely on. */
    ghost predicate Ready()
      reads this, fos
    {
      fos.Valid() && (now != [] ==> fos.heads != []) && Begins(heap, marks, fos.content, now, needUnreachable)
    }

    /** The passes that only Java finalization has. */
    method JavaPasses()
      requires heap.Valid() && marks <= heap.lay.objs.Keys && heap.ClosedSet(marks) && heap.HoldsRoots(marks)
      requires QueueTraced(heap, now, marks)
      requires fos.Valid() && (now != [] ==> fos.heads != [])
      requires WaitOnce(now, ReachableSet(heap, marks + Pinned(now)))
      requires needUnreachable || NoneUnreachable(now, map[])
      modifies this`marks, this`now, fos`heads, fos`entries, fos`content
      ensures var m := ReachableSet(heap, old(marks) + Pinned(old(now)));
              && now == Staying(old(now), m) && fos.content == Back(old(fos.content), old(now), m)
              && marks == m + Waiting(old(now), m) && old(marks) <= m
              && (BackApart(old(now), m, old(fos.content)) ==> fos.Valid())
              && (fos.IsMap() <==> BackApart(old(now), m, old(fos.content)))
      ensures Held() == old(Held())
    {
      hide ChainTable.Valid;
      hide ChainTable.IsMap;
      hide Layout.Valid;
      hide Heap.Valid;
      hide Heap.ClosedSet;
      hide Heap.HoldsRoots;
      hide QueueTraced;
      hide ReachableSet;
      hide Pinned;
      hide WaitOnce;
      hide BackApart;
      hide Bag;
      MarkQueued();
      if needUnreachable {
        Revive();
      } else {
        NoneRevived(now, marks, fos.content);
        ValidIsMap(fos);
      }
    }

    /** GC_finalize. */
    method Finalize(dl: ChainTable<nat>, ll: ChainTable<nat>)
      returns (cleared: set<nat>, long: set<nat>, ghost added: seq<Entry<Fo>>)
      requires Ready() && dl != ll && {dl as object, ll as object} !! {fos as object} && dl.Valid() && ll.Valid()
      modifies this`marks, this`now, fos`heads, fos`entries, fos`content, dl, ll
      ensures IsQueue(added, old(fos.content), Kept(heap, old(marks), old(fos.content)))
      ensures fos.IsMap() <==> (java ==> Revivable(old(now), old(fos.content)))
      ensures fos.IsMap() ==> fos.Valid()
      ensures Held() == old(Held())
      ensures Outcome(heap, java, old(marks), old(fos.content), old(now), added, marks, fos.content, now)
      ensures dl.Valid() && ll.Valid() && old(marks) <= marks
      ensures forall k: nat :: k in dl.content <==>
                k in old(dl.content) && old(dl.content)[k] in old(marks) && (k in home ==> home[k] in marks)
      ensures forall k: nat :: k in dl.content ==> dl.content[k] == old(dl.content)[k]
      ensures forall k: nat :: k in ll.content <==>
                k in old(ll.content) && old(ll.content)[k] in marks && (k in home ==> home[k] in marks)
      ensures forall k: nat :: k in ll.content ==> ll.content[k] == old(ll.content)[k]
      ensures forall k: nat :: k in cleared <==> k in old(dl.content) && old(dl.content)[k] !in old(marks)
      ensures forall k: nat :: k in long <==> k in old(ll.content) && old(ll.content)[k] !in marks
    {
      hide ChainTable.Valid;
      hide ChainTable.IsMap;
      hide Begins;
      hide Outcome;
      hide Revivable;
      hide IsQueue;
      hide Bag;
      hide Kept;
      cleared := Disappear(dl, marks, home, false);
      added := FinalizeObjects();
      var forgotten := Disappear(dl, marks, home, true);
      long := Disappear(ll, marks, home, false);
      var forgottenLong := Disappear(ll, marks, home, true);
    }

    /** The passes of GC_finalize over the registered objects. */
    method FinalizeObjects() returns (ghost added: seq<Entry<Fo>>)
      requires Ready()
      modifies this`marks, this`now, fos`heads, fos`entries, fos`content
      ensures IsQueue(added, old(fos.content), Kept(heap, old(marks), old(fos.content)))
      ensures fos.IsMap() <==> (java ==> Revivable(old(now), old(fos.content)))
      ensures fos.IsMap() ==> fos.Valid()
      ensures Held() == old(Held())
      ensures Outcome(heap, java, old(marks), old(fos.content), old(now), added, marks, fos.content, now)
      ensures old(marks) <= marks
    {
      hide Rep;
      hide Targets;
      hide Kept;
      hide QueueTraced;
      hide IsQueue;
      hide Pinned;
      hide ReachableSet;
      hide WaitOnce;
      hide BackApart;
      hide Revivable;
      hide Bag;
      hide Restricted;
      hide Layout.Valid;
      hide Heap.Valid;
      hide Heap.ClosedSet;
      hide Heap.HoldsRoots;
      hide ChainTable.IsMap;
      hide NoneUnreachable;
      MarkFromTable();
      ghost var m1 := marks;
      added := Enqueue();
      QueueReady(heap, old(marks), m1, old(fos.content), old(now), added);
      if java {
        MapExactlyIf(heap, old(marks), m1, old(fos.content), old(now), added);
        JavaPasses();
      } else {
        ValidIsMap(fos);
      }
    }
  }

  /** The state that GC_finalize leaves, in terms of the state it found. */
  ghost predicate Outcome(heap: Heap, java: bool, m0: set<nat>, c0: map<nat, Fo>, now0: seq<Entry<Fo>>,
                          added: seq<Entry<Fo>>, marks: set<nat>, content: map<nat, Fo>, now: seq<Entry<Fo>>)
  {
    var kept := Kept(heap, m0, c0);
    if java then
      var m := ReachableSet(heap, kept + Pinned(added + now0));
      && now == Staying(added + now0, m)
      && content == Back(Restricted(c0, kept), added + now0, m)
      && marks == m + Waiting(added + now0, m)
    else
      now == added + now0 && content == Restricted(c0, kept) && marks == kept + KeySet(added)
  }

  ghost predicate NoneUnreachable(now: seq<Entry<Fo>>, content: map<nat, Fo>) {
    && (forall e :: e in now ==> e.value.order != WhenUnreachable)
    && forall k :: k in content ==> content[k].order != WhenUnreachable
  }

  /** The state in which GC_finalize is called: marking is complete and has seen the queue. */
  ghost predicate Begins(heap: Heap, marks: set<nat>, content: map<nat, Fo>, now: seq<Entry<Fo>>,
                         needUnreachable: bool) {
    && heap.Valid() && marks <= heap.lay.objs.Keys && heap.ClosedSet(marks) && heap.HoldsRoots(marks)
    && content.Keys <= heap.lay.objs.Keys
    && (forall e :: e in now ==> e.key in marks)
    && (needUnreachable || NoneUnreachable(now, content))
  }

  lemma ValidIsMap<V(!new)>(t: ChainTable<V>)
    requires t.Valid()
    ensures t.IsMap()
  {
  }

  lemma {:induction false} NoneRevived(now: seq<Entry<Fo>>, m: set<nat>, content: map<nat, Fo>)
    requires forall e :: e in now ==> e.value.order != WhenUnreachable
    ensures Staying(now, m) == now && Back(content, now, m) == content && Waiting(now, m) == {}
    ensures BackApart(now, m, content)
  {
    if now != [] {
      var init := now[..|now| - 1];
      assert now[|now| - 1] in now;
      forall e | e in init
        ensures e in now
      {
      }
      NoneRevived(init, m, content);
      assert now == init + [now[|now| - 1]];
    }
  }

  /** The queue after the second pass. */
  lemma QueueReady(heap: Heap, m0: set<nat>, m1: set<nat>, c: map<nat, Fo>, now0: seq<Entry<Fo>>, added: seq<Entry<Fo>>)
    requires IsQueue(added, c, m1) && m0 <= m1 && c.Keys <= heap.lay.objs.Keys && m1 <= heap.lay.objs.Keys
    requires forall k :: k in c ==> Targets(heap, k, c[k].order) <= m1
    requires forall e :: e in now0 ==> e.key in m0
    ensures QueueTraced(heap, added + now0, m1)
    ensures added != [] ==> c != map[]
    ensures NoneUnreachable(now0, c) ==> NoneUnreachable(added + now0, map[])
  {
    hide Targets;
    var now := added + now0;
    forall j {:trigger now[j]} | 0 <= j < |now|
      ensures now[j].key in heap.lay.objs
      ensures now[j].key in m1 || Targets(heap, now[j].key, now[j].value.order) <= m1
    {
      QueueMember(c, m1, now0, added, j);
    }
    if added != [] {
      assert added[0] in added;
    }
  }

  lemma QueueMember(c: map<nat, Fo>, m1: set<nat>, now0: seq<Entry<Fo>>, added: seq<Entry<Fo>>, j: nat)
    requires IsQueue(added, c, m1) && j < |added + now0|
    ensures var e := (added + now0)[j]; e in now0 || (e.key in c && c[e.key] == e.value && e.key !in m1)
  {
  }

  lemma QueueSplit(now0: seq<Entry<Fo>>, added: seq<Entry<Fo>>, j: nat)
    requires j < |added + now0|
    ensures var e := (added + now0)[j];
            if j < |added| then e == added[j] && e in added else e == now0[j - |added|] && e in now0
  {
  }

  /** Old entries to be finalized when unreachable go back to the table, as the queue made their
      objects reachable; of the new ones, some may, and their keys are new.  So the table stays a
      map exactly if no waiting object has been registered again. */
  lemma BackApartIff(m0: set<nat>, m1: set<nat>, m: set<nat>, c: map<nat, Fo>, now0: seq<Entry<Fo>>,
                     added: seq<Entry<Fo>>)
    requires IsQueue(added, c, m1) && m0 <= m1 <= m && forall e :: e in now0 ==> e.key in m0
    ensures WaitOnce(added + now0, m)
    ensures BackApart(added + now0, m, Restricted(c, m1)) <==> Revivable(now0, c)
  {
    var s := added + now0;
    forall j {:trigger s[j]} | 0 <= j < |s|
      ensures if j < |added| then s[j].key !in m1 && s[j] == added[j] else s[j].key in m0 && s[j] == now0[j - |added|]
    {
      QueueSplit(now0, added, j);
    }
    if BackApart(s, m, Restricted(c, m1)) {
      forall j | 0 <= j < |now0|
        ensures s[|added| + j] == now0[j]
      {
      }
    }
  }

  lemma MapExactlyIf(heap: Heap, m0: set<nat>, m1: set<nat>, c: map<nat, Fo>, now0: seq<Entry<Fo>>,
                     added: seq<Entry<Fo>>)
    requires heap.Valid() && IsQueue(added, c, m1) && m0 <= m1 <= heap.lay.objs.Keys
             && QueueTraced(heap, added + now0, m1)
    requires forall e :: e in now0 ==> e.key in m0
    ensures var m := ReachableSet(heap, m1 + Pinned(added + now0));
            && WaitOnce(added + now0, m)
            && (BackApart(added + now0, m, Restricted(c, m1)) <==> Revivable(now0, c))
  {
    hide Heap.Valid;
    hide QueueTraced;
    hide ReachableSet;
    hide IsQueue;
    hide BackApart;
    hide Revivable;
    PinnedFacts(heap, m1, added + now0);
    BackApartIff(m0, m1, ReachableSet(heap, m1 + Pinned(added + now0)), c, now0, added);
  }

  // ----- What the outcome means -----

  lemma PathTail(heap: Heap, path: seq<nat>, q: nat)
    requires heap.IsPath(path, q) && |path| >= 2
    ensures heap.Edge(path[0], path[1]) && heap.IsPath(path[1..], q)
  {
  }

  /** Everything that a path of at least one pointer reaches from a registered object is kept,
      except, with the ignore-self order, the object itself. */
  lemma {:induction false} ReachedIsKept(heap: Heap, m0: set<nat>, c: map<nat, Fo>, f: nat, path: seq<nat>, q: nat)
    requires heap.Valid() && f in c && c[f].order != NoOrder
    requires heap.IsPath(path, q) && |path| >= 2 && path[0] == f && (c[f].order == IgnoreSelf ==> q != f)
    ensures q in Kept(heap, m0, c)
    decreases |path|
  {
    hide Layout.Valid;
    var rest := path[1..];
    var p := path[1];
    PathTail(heap, path, q);
    hide Heap.IsPath;
    hide Heap.Edge;
    if c[f].order == IgnoreSelf && p == f {
      ReachedIsKept(heap, m0, c, f, rest, q);
    } else {
      var extra := m0 + AllTargets(heap, c);
      TargetsAre(heap, f, c[f].order);
      assert p in Targets(heap, f, c[f].order);
      assert rest[0] in extra;
      assert heap.Reachable(extra, q);
      EndsInObject(heap, path, q);
    }
  }

  lemma EndsInObject(heap: Heap, path: seq<nat>, q: nat)
    requires heap.Valid() && heap.IsPath(path, q) && |path| >= 2
    ensures q in heap.lay.objs
  {
  }

  lemma LiveIsKept(heap: Heap, m0: set<nat>, c: map<nat, Fo>, q: nat)
    requires heap.Reachable(m0, q) && q in heap.lay.objs
    ensures q in Kept(heap, m0, c)
  {
  }

  /** Finalization order: a queued object is neither live nor reachable, by one or more pointers,
      from a registered object that asks for order. */
  lemma FinalizationOrder(heap: Heap, m0: set<nat>, c: map<nat, Fo>, added: seq<Entry<Fo>>, e: Entry<Fo>, f: nat,
                          path: seq<nat>)
    requires heap.Valid() && m0 <= heap.lay.objs.Keys && IsQueue(added, c, Kept(heap, m0, c)) && e in added
    requires c.Keys <= heap.lay.objs.Keys
    ensures !heap.Reachable(m0, e.key)
    ensures f in c && c[f].order != NoOrder && |path| >= 2 && path[0] == f
            && (c[f].order == IgnoreSelf ==> f != e.key) ==>
              !heap.IsPath(path, e.key)
  {
    if heap.Reachable(m0, e.key) {
      LiveIsKept(heap, m0, c, e.key);
    }
    if f in c && c[f].order != NoOrder && |path| >= 2 && path[0] == f && (c[f].order == IgnoreSelf ==> f != e.key)
       && heap.IsPath(path, e.key) {
      ReachedIsKept(heap, m0, c, f, path, e.key);
    }
  }

  /** Nothing is held back without reason: a registered object that is not queued is reachable
      from a root, a live object, or what an ordered object points to. */
  lemma QueuedUnlessReached(heap: Heap, m0: set<nat>, c: map<nat, Fo>, added: seq<Entry<Fo>>, k: nat)
    requires IsQueue(added, c, Kept(heap, m0, c)) && k in c && k in heap.lay.objs
    ensures Entry(k, c[k]) in added <==> !heap.Reachable(m0 + AllTargets(heap, c), k)
  {
  }

  lemma {:induction false} StayingIs(s: seq<Entry<Fo>>, m: set<nat>, e: Entry<Fo>)
    ensures e in Staying(s, m) <==> e in s && Stays(e, m)
  {
    if s != [] {
      var init, last := s[..|s| - 1], s[|s| - 1];
      StayingIs(init, m, e);
      assert s == init + [last];
      assert e in s <==> e in init || e == last;
    }
  }

  lemma {:induction false} WaitingIs(s: seq<Entry<Fo>>, m: set<nat>, e: Entry<Fo>)
    requires e in s && e.value.order == WhenUnreachable && e.key !in m
    ensures e.key in Waiting(s, m)
  {
    var init, last := s[..|s| - 1], s[|s| - 1];
    assert s == init + [last];
    if e != last {
      WaitingIs(init, m, e);
    }
  }

  /** The waiting objects may be marked: what they lead to is. */
  lemma {:induction false} WaitingClosed(heap: Heap, s: seq<Entry<Fo>>, m: set<nat>, base: set<nat>)
    requires heap.Valid() && heap.ClosedSet(m) && QueueTraced(heap, s, base) && base <= m
    ensures heap.ClosedSet(m + Waiting(s, m))
  {
    if s == [] {
      assert m + {} == m;
    } else {
      var init, last := s[..|s| - 1], s[|s| - 1];
      assert QueueTraced(heap, init, base) by {
        forall j {:trigger init[j]} | 0 <= j < |init|
          ensures init[j].key in heap.lay.objs
                  && (init[j].key in base || Targets(heap, init[j].key, init[j].value.order) <= base)
        {
          assert init[j] == s[j];
        }
      }
      WaitingClosed(heap, init, m, base);
      if last.value.order == WhenUnreachable && last.key !in m {
        QueueTracedAt(heap, s, base, |s| - 1);
        AddClosed(heap, m + Waiting(init, m), last.key, WhenUnreachable);
        assert m + Waiting(init, m) + {last.key} == m + Waiting(s, m);
      } else {
        assert m + Waiting(s, m) == m + Waiting(init, m);
      }
    }
  }

  /** Java finalization keeps alive everything that a queued object can reach. */
  lemma QueuedStaysAlive(heap: Heap, m1: set<nat>, s: seq<Entry<Fo>>, e: Entry<Fo>, path: seq<nat>, q: nat)
    requires heap.Valid() && m1 <= heap.lay.objs.Keys && heap.HoldsRoots(m1) && QueueTraced(heap, s, m1)
    requires var m := ReachableSet(heap, m1 + Pinned(s)); e in Staying(s, m)
    requires heap.IsPath(path, q) && path[0] == e.key
    ensures var m := ReachableSet(heap, m1 + Pinned(s)); q in m + Waiting(s, m)
  {
    var m := ReachableSet(heap, m1 + Pinned(s));
    PinnedFacts(heap, m1, s);
    StayingIs(s, m, e);
    WaitingClosed(heap, s, m, m1);
    var all := m + Waiting(s, m);
    assert e.key in all by {
      if e.value.order == WhenUnreachable {
        WaitingIs(s, m, e);
      } else {
        assert e.key in Pinned(s);
      }
    }
    assert heap.HoldsRoots(all);
    ReachableInClosed(heap, {e.key}, all, path, q);
  }

  /** An object to be finalized when unreachable stays queued only if no other queued object, even
      an unordered one, can reach it. */
  lemma UnreachableLast(heap: Heap, m1: set<nat>, s: seq<Entry<Fo>>, e: Entry<Fo>, f: Entry<Fo>, path: seq<nat>)
    requires heap.Valid() && m1 <= heap.lay.objs.Keys && QueueTraced(heap, s, m1)
    requires e in Staying(s, ReachableSet(heap, m1 + Pinned(s))) && e.value.order == WhenUnreachable
    requires f in s && f.value.order != WhenUnreachable && path != [] && path[0] == f.key
    ensures !heap.IsPath(path, e.key)
  {
    var extra := m1 + Pinned(s);
    StayingIs(s, ReachableSet(heap, extra), e);
    var j :| 0 <= j < |s| && s[j] == e;
    QueueTracedAt(heap, s, m1, j);
    assert f.key in extra;
    if heap.IsPath(path, e.key) {
      assert heap.Reachable(extra, e.key);
    }
  }

  lemma QueuedKeys(c: map<nat, Fo>, m: set<nat>, added: seq<Entry<Fo>>)
    requires IsQueue(added, c, m)
    ensures m + KeySet(added) == m + c.Keys
  {
    forall k | k in c && k !in m
      ensures k in KeySet(added)
    {
      assert Entry(k, c[k]) in added;
    }
  }

  /** Without Java finalization nothing is marked for the sake of unordered objects, so what they
      point to stays alive exactly if it is kept or registered itself. */
  lemma PlainClosed(heap: Heap, m0: set<nat>, c: map<nat, Fo>, added: seq<Entry<Fo>>)
    requires heap.Valid() && m0 <= heap.lay.objs.Keys && c.Keys <= heap.lay.objs.Keys
    requires IsQueue(added, c, Kept(heap, m0, c))
    ensures heap.ClosedSet(Kept(heap, m0, c) + KeySet(added)) <==>
            forall k: nat, q: nat :: k in c && c[k].order == NoOrder && k !in Kept(heap, m0, c) && heap.Edge(k, q) ==>
              q in Kept(heap, m0, c) || q in c
  {
    hide Layout.Valid;
    var kept := Kept(heap, m0, c);
    KeptFacts(heap, m0, c);
    QueuedKeys(c, kept, added);
    hide Kept;
    if forall k: nat, q: nat :: k in c && c[k].order == NoOrder && k !in kept && heap.Edge(k, q) ==>
        q in kept || q in c {
      forall p: nat, q: nat | p in kept + c.Keys && heap.Edge(p, q)
        ensures q in kept + c.Keys
      {
        if p !in kept && c[p].order != NoOrder {
          TargetsAre(heap, p, c[p].order);
        }
      }
    }
  }

  /** An object that points to another one, and nothing else. */
  function PairLayout(): Layout {
    Layout(map[1 := Obj(1, 0), 2 := Obj(0, 0)], map[0 := Block(1, Normal, [1, 2])], 1, [], [])
  }

  function PairHeap(): Heap {
    Heap(map[1 := 2], PairLayout())
  }

  lemma PairValid()
    ensures PairHeap().Valid() && PairHeap().Edge(1, 2)
  {
    assert PairLayout().BlockOk(0);
    assert PairLayout().ObjOk(1) && PairLayout().ObjOk(2);
    assert PairLayout().InObj(1, 1);
  }

  /** An unordered finalizable object does not keep alive what it points to, unless Java
      finalization is on. */
  lemma PlainDrops()
    ensures exists heap: Heap, c: map<nat, Fo>, added: seq<Entry<Fo>> ::
              && heap.Valid() && IsQueue(added, c, Kept(heap, {}, c))
              && !heap.ClosedSet(Kept(heap, {}, c) + KeySet(added))
  {
    var heap := PairHeap();
    var c := map[1 := Fo(NoOrder, 0, 0)];
    var added := [Entry(1, c[1])];
    PairValid();
    NothingKept(heap, c);
    hide Heap.Valid;
    hide Heap.Edge;
    hide Kept;
    assert IsQueue(added, c, {}) by {
      forall e: Entry<Fo>
        ensures e in added <==> e.key in c && c[e.key] == e.value
      {
      }
    }
    assert added[0].key in KeySet(added);
    assert 2 !in KeySet(added);
  }

  lemma NothingKept(heap: Heap, c: map<nat, Fo>)
    requires heap.lay.roots == [] && heap.lay.stacks == [] && forall k :: k in c ==> c[k].order == NoOrder
    ensures Kept(heap, {}, c) == {}
  {
  }

  // ----- Waiting objects -----

  /** An object to be finalized when unreachable that is still queued when the next collection
      comes is withdrawn from the queue: its entry is in the table again. */
  lemma Withdrawn(heap: Heap, m0: set<nat>, c0: map<nat, Fo>, now0: seq<Entry<Fo>>, added: seq<Entry<Fo>>,
                  marks: set<nat>, content: map<nat, Fo>, now: seq<Entry<Fo>>, bag0: multiset<Entry<Fo>>,
                  bag: multiset<Entry<Fo>>, e: Entry<Fo>)
    requires Begins(heap, m0, c0, now0, true) && IsQueue(added, c0, Kept(heap, m0, c0))
    requires Outcome(heap, true, m0, c0, now0, added, marks, content, now)
    requires bag + multiset(now) == bag0 + multiset(now0) && e in now0 && e.value.order == WhenUnreachable
    ensures e !in now && e in bag
    ensures Revivable(now0, c0) ==> e.key in content && content[e.key] == e.value
  {
    hide ReachableSet;
    hide Kept;
    hide IsQueue;
    hide Revivable;
    hide BackApart;
    hide Pinned;
    var kept := Kept(heap, m0, c0);
    var s := added + now0;
    var m := ReachableSet(heap, kept + Pinned(s));
    KeptFacts(heap, m0, c0);
    KeptInObjects(heap, m0, c0);
    QueueReady(heap, m0, kept, c0, now0, added);
    PinnedFacts(heap, kept, s);
    StayingIs(s, m, e);
    InBag(bag, multiset(now), bag0, multiset(now0), e);
    BackApartIff(m0, kept, m, c0, now0, added);
    if Revivable(now0, c0) {
      assert e in s;
      BackIs(Restricted(c0, kept), s, m, e);
    }
  }

  lemma InBag(a: multiset<Entry<Fo>>, b: multiset<Entry<Fo>>, c: multiset<Entry<Fo>>, d: multiset<Entry<Fo>>,
              e: Entry<Fo>)
    requires a + b == c + d && e in d && e !in b
    ensures e in a
  {
    assert (a + b)[e] == (c + d)[e];
  }

  lemma KeptInObjects(heap: Heap, m0: set<nat>, c: map<nat, Fo>)
    requires m0 <= heap.lay.objs.Keys
    ensures Kept(heap, m0, c) <= heap.lay.objs.Keys
  {
  }

  lemma {:induction false} BackIs(c: map<nat, Fo>, s: seq<Entry<Fo>>, m: set<nat>, e: Entry<Fo>)
    requires BackApart(s, m, c) && e in s && !Stays(e, m)
    ensures e.key in Back(c, s, m) && Back(c, s, m)[e.key] == e.value
  {
    var t := |s| - 1;
    assert s == s[..t] + [s[t]];
    if e != s[t] {
      assert BackApart(s[..t], m, c);
      BackIs(c, s[..t], m, e);
      var j :| 0 <= j < t && s[j] == e;
    }
  }

  const WAITS := Entry(1, Fo(WhenUnreachable, 0, 0))
  const AGAIN := Entry(1, Fo(Ordered, 1, 0))

  /** An object that waits and was registered again: the table will hold its key twice. */
  lemma RegisteredAgain()
    ensures exists heap: Heap, marks: set<nat>, c: map<nat, Fo>, now: seq<Entry<Fo>>, heads: seq<seq<Entry<Fo>>> ::
              && Begins(heap, marks, c, now, true) && c.Keys <= marks && Rep(heads, 0, c) && |heads| == Pow2(0)
              && !Fits(RevivedHeads(heads, 0, now, marks), 0)
  {
    hide Begins;
    hide Rep;
    hide Fits;
    hide RevivedHeads;
    PairBegins();
    AgainRep();
    AgainLost();
  }

  lemma AgainLost()
    ensures |[[AGAIN]]| == Pow2(0) && !Fits(RevivedHeads([[AGAIN]], 0, [WAITS], {1, 2}), 0)
  {
    hide Rep;
    hide Fits;
    hide RevivedHeads;
    AgainRep();
    var now, c := [WAITS], map[1 := AGAIN.value];
    assert !Stays(now[0], {1, 2}) && now[0].key in c;
    assert !BackApart(now, {1, 2}, c);
    RepSize([[AGAIN]], 0, c);
    RevivedIsMap([[AGAIN]], 0, c, now, {1, 2});
  }

  lemma PairBegins()
    ensures Begins(PairHeap(), {1, 2}, map[1 := AGAIN.value], [WAITS], true)
  {
    PairValid();
    PairMarked();
  }

  lemma AgainRep()
    ensures Rep([[AGAIN]], 0, map[1 := AGAIN.value])
  {
    assert [[AGAIN]][0][0].key == 1;
    assert HasKey([AGAIN], 1);
  }

  lemma PairMarked()
    ensures PairHeap().ClosedSet({1, 2}) && PairHeap().HoldsRoots({1, 2}) && PairHeap().lay.objs.Keys == {1, 2}
  {
  }

  /** After both passes exactly the weak links are left that have an object marked in time and are
      themselves in no dead object. */
  lemma LinksAlive(c: map<nat, nat>, early: set<nat>, marks: set<nat>, home: map<nat, nat>, k: nat)
    ensures k in KeptLinks(KeptLinks(c, early, home, false), marks, home, true) <==>
            k in c && c[k] in early && (k in home ==> home[k] in marks)
  {
    KeptLinksAre(c, early, home, false);
    KeptLinksAre(KeptLinks(c, early, home, false), marks, home, true);
  }
}
