/** Scanning a range of memory for pointers, byte by byte: long ranges are split, a short one is
    searched backwards for a first candidate and then forwards.  Also the scan of a bitmap of
    pointer slots. */
module RangeScans {
  import opened Prelude

  const PTR: nat := 8                 // sizeof(ptr_t)
  const SPLIT_BYTES: nat := 1024      // PTRS_TO_BYTES(SPLIT_RANGE_PTRS)
  const SHARE_BYTES: nat := 2048

  predicate AlignOk(align: nat) {
    align == 1 || align == 2 || align == 4 || align == 8
  }

  /** `x` is a multiple of the alignment. */
  predicate Aligned(x: int, align: nat) {
    match align
    case 2 => x % 2 == 0
    case 4 => x % 4 == 0
    case 8 => x % 8 == 0
    case _ => true
  }

  /** The whole pointer at `a` lies in the `len` bytes from `p` on, an even number of steps away. */
  predicate Pos(p: nat, len: nat, align: nat, a: nat)
    requires align > 0
  {
    p <= a && a + PTR <= p + len && Aligned(a - p, align)
  }

  /** The same, counted in steps from the last position of the range. */
  predicate PosEnd(p: nat, len: nat, align: nat, a: nat)
    requires align > 0
  {
    p <= a && a + PTR <= p + len && Aligned(p + len - PTR - a, align)
  }

  /** Counting from the end gives the same positions exactly if the length is a multiple of the
      alignment. */
  lemma EndsAgree(p: nat, len: nat, align: nat)
    requires AlignOk(align) && len >= PTR
    ensures (forall a: nat :: Pos(p, len, align, a) <==> PosEnd(p, len, align, a)) <==> Aligned(len, align)
  {
    if Aligned(len, align) {
      forall a: nat
        ensures Pos(p, len, align, a) <==> PosEnd(p, len, align, a)
      {
        if p <= a && a + PTR <= p + len {
          ModSum(a - p, p + len - PTR - a, len, align);
        }
      }
    } else {
      EndsDiffer(p, len, align);
    }
  }

  lemma Mod2(x: int, m: int)
    ensures (x - 2 * m) % 2 == x % 2
  {
  }

  lemma Mod4(x: int, m: int)
    ensures (x - 4 * m) % 4 == x % 4
  {
  }

  lemma Mod8(x: int, m: int)
    ensures (x - 8 * m) % 8 == x % 8
  {
  }

  /** Going a number of steps does not change the alignment. */
  lemma Steps(x: int, m: int, align: nat)
    requires AlignOk(align)
    ensures Aligned(x - align * m, align) <==> Aligned(x, align)
  {
    match align
    case 2 => Mod2(x, m);
    case 4 => Mod4(x, m);
    case 8 => Mod8(x, m);
    case _ =>
  }

  /** An aligned number is a number of steps. */
  lemma StepsOf(x: int, align: nat) returns (m: int)
    requires AlignOk(align) && Aligned(x, align)
    ensures x == align * m
  {
    m := match align
         case 2 => x / 2
         case 4 => x / 4
         case 8 => x / 8
         case _ => x;
  }

  lemma WordSteps(k: nat, align: nat) returns (m: int)
    requires AlignOk(align) && k % 8 == 0
    ensures k == align * m
  {
    var w := k / 8;
    m := match align
         case 2 => 4 * w
         case 4 => 2 * w
         case 8 => w
         case _ => k;
  }

  lemma ModSum(x: nat, y: nat, len: nat, align: nat)
    requires AlignOk(align) && x + y + PTR == len && Aligned(len, align)
    ensures Aligned(x, align) <==> Aligned(y, align)
  {
    hide Aligned;
    var m := StepsOf(len, align);
    var w := WordSteps(PTR, align);
    if Aligned(x, align) {
      var t := StepsOf(x, align);
      IsSteps(y, m - w - t, align);
    }
    if Aligned(y, align) {
      var t := StepsOf(y, align);
      IsSteps(x, m - w - t, align);
    }
  }

  lemma IsSteps(x: int, m: int, align: nat)
    requires AlignOk(align) && x == align * m
    ensures Aligned(x, align)
  {
    match align
    case 2 => Mod2(x, m);
    case 4 => Mod4(x, m);
    case 8 => Mod8(x, m);
    case _ =>
  }

  lemma EndsDiffer(p: nat, len: nat, align: nat)
    requires AlignOk(align) && len >= PTR && !Aligned(len, align)
    ensures Pos(p, len, align, p) && !PosEnd(p, len, align, p)
  {
    ModShift(len, PTR, align);
    assert Aligned(0, align);
  }

  /** `seen` holds every position of the range once and nothing else. */
  ghost predicate Once(p: nat, len: nat, align: nat, seen: multiset<nat>)
    requires align > 0
  {
    forall a: nat :: seen[a] == if Pos(p, len, align, a) then 1 else 0
  }

  lemma ModStep(x: int, align: nat)
    requires AlignOk(align)
    ensures Aligned(x + align, align) <==> Aligned(x, align)
    ensures Aligned(x - align, align) <==> Aligned(x, align)
  {
    hide Aligned;
    Steps(x, 1, align);
    Steps(x, -1, align);
  }

  /** Multiples of the alignment between `lo` and `hi` are at least a step apart. */
  lemma ModGap(x: int, y: int, align: nat)
    requires AlignOk(align) && Aligned(x, align) && Aligned(y, align) && x < y
    ensures x + align <= y
  {
    hide Aligned;
    var s := StepsOf(x, align);
    var t := StepsOf(y, align);
    Multiples(align, t, s);
    Multiples(align, s + 1, t);
  }

  /** Positions strictly above `last` have been looked at from above. */
  ghost predicate SeenDown(p: nat, len: nat, align: nat, last: int, seen: multiset<nat>)
    requires align > 0
  {
    forall a: nat :: seen[a] == if PosEnd(p, len, align, a) && a > last then 1 else 0
  }

  /** Positions outside `cur` .. `last` have been looked at. */
  ghost predicate SeenBoth(p: nat, len: nat, align: nat, cur: nat, last: int, seen: multiset<nat>)
    requires align > 0
  {
    forall a: nat :: seen[a] == if Pos(p, len, align, a) && (a > last || a < cur) then 1 else 0
  }

  lemma DownStep(p: nat, len: nat, align: nat, last: nat, seen: multiset<nat>)
    requires AlignOk(align) && p <= last && last + PTR <= p + len && Aligned(p + len - PTR - last, align)
    requires SeenDown(p, len, align, last, seen)
    ensures SeenDown(p, len, align, last - align, seen + multiset{last})
    ensures Aligned(p + len - PTR - (last - align), align)
  {
    var end := p + len - PTR;
    ModStep(end - last, align);
    forall a: nat
      ensures (seen + multiset{last})[a] == if PosEnd(p, len, align, a) && a > last - align then 1 else 0
    {
      if PosEnd(p, len, align, a) && last - align < a < last {
        ModGap(end - last, end - a, align);
      }
    }
  }

  lemma UpStep(p: nat, len: nat, align: nat, cur: nat, last: nat, seen: multiset<nat>)
    requires AlignOk(align) && p <= cur <= last && last + PTR <= p + len && Aligned(cur - p, align)
    requires SeenBoth(p, len, align, cur, last, seen)
    ensures SeenBoth(p, len, align, cur + align, last, seen + multiset{cur})
    ensures Aligned(cur + align - p, align)
  {
    ModStep(cur - p, align);
    forall a: nat
      ensures (seen + multiset{cur})[a] == if Pos(p, len, align, a) && (a > last || a < cur + align) then 1 else 0
    {
      if Pos(p, len, align, a) && cur < a < cur + align {
        ModGap(cur - p, a - p, align);
      }
    }
  }

  /** Exactly the candidates among the positions looked at were pushed, or are held back. */
  ghost predicate PushedIs(pushed: seq<nat>, held: multiset<nat>, seen: multiset<nat>, cand: set<nat>) {
    forall a: nat :: multiset(pushed)[a] + held[a] == if a in cand then seen[a] else 0
  }

  lemma PushOne(pushed: seq<nat>, held: multiset<nat>, seen: multiset<nat>, cand: set<nat>, a: nat)
    requires PushedIs(pushed, held, seen, cand)
    ensures PushedIs(if a in cand then pushed + [a] else pushed, held, seen + multiset{a}, cand)
  {
  }

  lemma StartDown(p: nat, len: nat, align: nat)
    requires AlignOk(align)
    ensures SeenDown(p, len, align, p + len - PTR, multiset{})
  {
  }

  /** The first loop: backwards from the end up to a candidate, which is held back. */
  method ScanBack(cand: set<nat>, p: nat, len: nat, align: nat)
    returns (deferred: Option<nat>, limit: int, ghost seen: multiset<nat>)
    requires AlignOk(align) && len >= PTR
    ensures limit + PTR <= p + len && Aligned(p + len - PTR - limit, align) && SeenDown(p, len, align, limit, seen)
    ensures PushedIs([], if deferred.Some? then multiset{deferred.value} else multiset{}, seen, cand)
    ensures if deferred.None? then limit < p else deferred.value in cand
  {
    hide SeenDown;
    seen := multiset{};
    limit := p + len - PTR;
    StartDown(p, len, align);
    while limit >= p
      invariant limit + PTR <= p + len && Aligned(p + len - PTR - limit, align)
      invariant SeenDown(p, len, align, limit, seen) && PushedIs([], multiset{}, seen, cand)
    {
      var at := limit;
      DownStep(p, len, align, at, seen);
      limit := limit - align;
      seen := seen + multiset{at};
      if at in cand {
        return Some(at), limit, seen;
      }
    }
    return None, limit, seen;
  }

  /** The second loop: forwards up to where the first one stopped. */
  method ScanOn(cand: set<nat>, p: nat, len: nat, align: nat, limit: int, ghost held: multiset<nat>,
                ghost seen0: multiset<nat>)
    returns (pushed: seq<nat>, ghost seen: multiset<nat>)
    requires AlignOk(align) && len >= PTR && limit + PTR <= p + len && Aligned(p + len - PTR - limit, align)
    requires SeenDown(p, len, align, limit, seen0) && PushedIs([], held, seen0, cand)
    ensures PushedIs(pushed, held, seen, cand)
    ensures Aligned(len, align) ==> Once(p, len, align, seen)
  {
    hide SeenDown;
    hide SeenBoth;
    hide PushedIs;
    hide Once;
    pushed, seen := [], seen0;
    var cur := p;
    BothStart(p, len, align, limit, seen);
    while cur <= limit
      invariant p <= cur && Aligned(cur - p, align) && PushedIs(pushed, held, seen, cand)
      invariant Aligned(len, align) ==> SeenBoth(p, len, align, cur, limit, seen)
      decreases limit + 1 - cur
    {
      if Aligned(len, align) {
        UpStep(p, len, align, cur, limit, seen);
      }
      ModStep(cur - p, align);
      PushOne(pushed, held, seen, cand, cur);
      seen := seen + multiset{cur};
      if cur in cand {
        pushed := pushed + [cur];
      }
      cur := cur + align;
    }
    if Aligned(len, align) {
      BothEnd(p, len, align, cur, limit, seen);
    }
  }

  lemma BothStart(p: nat, len: nat, align: nat, limit: int, seen: multiset<nat>)
    requires AlignOk(align) && len >= PTR && SeenDown(p, len, align, limit, seen)
    ensures Aligned(len, align) ==> SeenBoth(p, len, align, p, limit, seen)
    ensures Aligned(p - p, align)
  {
    EndsAgree(p, len, align);
  }

  lemma BothEnd(p: nat, len: nat, align: nat, cur: nat, limit: int, seen: multiset<nat>)
    requires align > 0 && limit < cur && SeenBoth(p, len, align, cur, limit, seen)
    ensures Once(p, len, align, seen)
  {
  }

  /** The scan of a short range.  `cand` are the positions whose contents look like a heap address.
      Every position is looked at exactly once if the length is a multiple of the alignment;
      without candidates, positions are counted from the end. */
  method ScanRange(cand: set<nat>, p: nat, len: nat, align: nat) returns (pushed: seq<nat>, ghost seen: multiset<nat>)
    requires AlignOk(align) && len >= PTR
    ensures PushedIs(pushed, multiset{}, seen, cand)
    ensures Aligned(len, align) ==> Once(p, len, align, seen)
    ensures Aligned(len, align) ==>
              forall a: nat :: multiset(pushed)[a] == if a in cand && Pos(p, len, align, a) then 1 else 0
    ensures cand == {} ==> SeenDown(p, len, align, p - 1, seen)
  {
    var deferred, limit, first := ScanBack(cand, p, len, align);
    if deferred.None? {
      EndsAgree(p, len, align);
      return [], first;
    }
    pushed, seen := ScanOn(cand, p, len, align, limit, multiset{deferred.value}, first);
    pushed := pushed + [deferred.value];
  }

  // ----- Long ranges -----

  datatype Entry = Entry(start: nat, len: nat)

  /** How many entries still have to look at position `a`. */
  ghost function Left(stack: seq<Entry>, align: nat, a: nat): nat
    requires align > 0
  {
    if stack == [] then 0
    else
      var e := stack[|stack| - 1];
      Left(stack[..|stack| - 1], align, a) + (if Pos(e.start, e.len, align, a) then 1 else 0)
  }

  /** Work that is left, for termination. */
  ghost function Work(stack: seq<Entry>): nat {
    if stack == [] then 0 else Work(stack[..|stack| - 1]) + Weight(stack[|stack| - 1].len)
  }

  function Weight(len: nat): nat {
    if len > PTR then 2 * (len - PTR) - 1 else 1
  }

  lemma LeftMore(stack: seq<Entry>, align: nat, e: Entry, a: nat)
    requires align > 0
    ensures Left(stack + [e], align, a) == Left(stack, align, a) + (if Pos(e.start, e.len, align, a) then 1 else 0)
  {
  }

  lemma WorkMore(stack: seq<Entry>, e: Entry)
    ensures Work(stack + [e]) == Work(stack) + Weight(e.len)
  {
  }

  /** The serial split: a chunk, and the rest pushed back; no position is in both. */
  lemma SerialSplit(p: nat, len: nat, align: nat, a: nat)
    requires AlignOk(align) && len >= SPLIT_BYTES
    ensures var k := SPLIT_BYTES - PTR;
            (if Pos(p, len, align, a) then 1 else 0)
            == (if Pos(p, k + PTR - align, align, a) then 1 else 0) + (if Pos(p + k, len - k, align, a) then 1 else 0)
  {
  }

  lemma ModShift(x: int, k: nat, align: nat)
    requires AlignOk(align) && k % 8 == 0
    ensures (Aligned(x - k, align) <==> Aligned(x, align)) && Aligned(k, align)
  {
    hide Aligned;
    var m := WordSteps(k, align);
    Steps(x, m, align);
    IsSteps(k, m, align);
  }

  /** The parallel split: the halves overlap in one pointer, and nothing falls between them. */
  lemma ParallelSplit(p: nat, len: nat, align: nat, a: nat)
    requires AlignOk(align) && len > SHARE_BYTES
    ensures var n := Half(len);
            Pos(p, len, align, a) <==> Pos(p, n + PTR, align, a) || Pos(p + n, len - n, align, a)
  {
    ModShift(a - p, Half(len), align);
  }

  function Half(len: nat): (n: nat)
    ensures n % 8 == 0 && n <= len / 2 && n + 8 > len / 2
  {
    len / 2 - (len / 2) % 8
  }

  /** Each position of the first range has been looked at, or is left, exactly once; with parallel
      markers at least once. */
  ghost predicate Covered(p: nat, len: nat, align: nat, stack: seq<Entry>, seen: multiset<nat>, parallel: bool)
    requires align > 0
  {
    forall a: nat {:trigger seen[a]} ::
      if Pos(p, len, align, a) then seen[a] + Left(stack, align, a) >= 1
          && (!parallel ==> seen[a] + Left(stack, align, a) == 1)
      else seen[a] == 0 && Left(stack, align, a) == 0
  }

  ghost predicate LengthsOk(stack: seq<Entry>, align: nat)
    requires align > 0
  {
    forall i {:trigger stack[i]} :: 0 <= i < |stack| ==> Aligned(stack[i].len, align)
  }

  lemma AfterScan(p: nat, len: nat, align: nat, rest: seq<Entry>, e: Entry, seen: multiset<nat>, more: multiset<nat>,
                  parallel: bool)
    requires align > 0 && Covered(p, len, align, rest + [e], seen, parallel) && Once(e.start, e.len, align, more)
    ensures Covered(p, len, align, rest, seen + more, parallel)
  {
  }

  /** An entry replaced by another one, after part of it was scanned. */
  lemma AfterChunk(p: nat, len: nat, align: nat, rest: seq<Entry>, e: Entry, seen: multiset<nat>, more: multiset<nat>,
                   parallel: bool)
    requires AlignOk(align) && Covered(p, len, align, rest + [e], seen, parallel) && e.len >= SPLIT_BYTES
    requires Once(e.start, SPLIT_BYTES - align, align, more)
    ensures Covered(p, len, align, rest + [Entry(e.start + SPLIT_BYTES - PTR, e.len - (SPLIT_BYTES - PTR))],
                    seen + more, parallel)
  {
    var r := Entry(e.start + SPLIT_BYTES - PTR, e.len - (SPLIT_BYTES - PTR));
    forall a: nat
      ensures (seen + more)[a] + Left(rest + [r], align, a) == seen[a] + Left(rest + [e], align, a)
    {
      LeftMore(rest, align, e, a);
      LeftMore(rest, align, r, a);
      SerialSplit(e.start, e.len, align, a);
    }
  }

  lemma AfterShare(p: nat, len: nat, align: nat, rest: seq<Entry>, e: Entry, seen: multiset<nat>)
    requires AlignOk(align) && Covered(p, len, align, rest + [e], seen, true) && e.len > SHARE_BYTES
    ensures var n := Half(e.len);
            Covered(p, len, align, rest + [Entry(e.start, n + PTR)] + [Entry(e.start + n, e.len - n)], seen, true)
  {
    var n := Half(e.len);
    var x, y := Entry(e.start, n + PTR), Entry(e.start + n, e.len - n);
    forall a: nat
      ensures var l0, l1 := Left(rest + [e], align, a), Left(rest + [x] + [y], align, a);
              l1 >= l0 && (l0 == 0 ==> l1 == 0)
    {
      LeftMore(rest, align, e, a);
      LeftMore(rest, align, x, a);
      LeftMore(rest + [x], align, y, a);
      ParallelSplit(e.start, e.len, align, a);
    }
  }

  lemma LenMod(len: nat, k: nat, align: nat)
    requires AlignOk(align) && Aligned(len, align) && k % 8 == 0 && k <= len
    ensures Aligned(len - k, align) && Aligned(k + PTR, align) && Aligned(SPLIT_BYTES - align, align)
  {
    ModShift(len, k, align);
    ModShift(0, k + PTR, align);
    ModShift(0, SPLIT_BYTES, align);
    ModStep(SPLIT_BYTES, align);
  }

  /** The loop of GC_mark_from for one range: everything that the range leads to on its own part
      of the stack.  A parallel marker may split wherever it has room. */
  method MarkRange(cand: set<nat>, p: nat, len: nat, align: nat, parallel: bool)
    returns (pushed: seq<nat>, ghost seen: multiset<nat>)
    requires AlignOk(align) && Aligned(len, align)
    ensures forall a: nat ::
              if !Pos(p, len, align, a) then seen[a] == 0 else seen[a] >= 1 && (!parallel ==> seen[a] == 1)
    ensures PushedIs(pushed, multiset{}, seen, cand)
    ensures forall a: nat :: a in pushed <==> a in cand && Pos(p, len, align, a)
    ensures !parallel ==> forall a: nat :: multiset(pushed)[a] <= 1
  {
    hide Once;
    hide Covered;
    pushed, seen := [], multiset{};
    var stack := [Entry(p, len)];
    CoveredStart(p, len, align, parallel);
    while stack != []
      invariant Covered(p, len, align, stack, seen, parallel) && LengthsOk(stack, align)
      invariant PushedIs(pushed, multiset{}, seen, cand)
      decreases Work(stack)
    {
      var e := stack[|stack| - 1];
      var rest := stack[..|stack| - 1];
      assert stack == rest + [e];
      WorkMore(rest, e);
      var share: bool := *;
      if parallel && share && e.len > SHARE_BYTES {
        var n := Half(e.len);
        AfterShare(p, len, align, rest, e, seen);
        LenMod(e.len, n, align);
        WorkMore(rest, Entry(e.start, n + PTR));
        WorkMore(rest + [Entry(e.start, n + PTR)], Entry(e.start + n, e.len - n));
        stack := rest + [Entry(e.start, n + PTR)] + [Entry(e.start + n, e.len - n)];
      } else {
        ghost var more: multiset<nat>;
        stack, pushed, more := ScanEntry(cand, p, len, align, parallel, rest, e, pushed, seen);
        seen := seen + more;
      }
    }
    CoveredEnd(p, len, align, seen, parallel);
    PushedPositions(p, len, align, pushed, seen, cand);
  }

  lemma PushedPositions(p: nat, len: nat, align: nat, pushed: seq<nat>, seen: multiset<nat>, cand: set<nat>)
    requires align > 0 && PushedIs(pushed, multiset{}, seen, cand)
    requires forall a: nat :: Pos(p, len, align, a) <==> seen[a] >= 1
    ensures forall a: nat :: a in pushed <==> a in cand && Pos(p, len, align, a)
    ensures forall a: nat :: multiset(pushed)[a] <= seen[a]
  {
    forall a: nat
      ensures a in pushed <==> a in cand && Pos(p, len, align, a)
    {
      assert a in pushed <==> multiset(pushed)[a] >= 1;
    }
  }

  /** Scan the top entry, or its first part, serially. */
  method ScanEntry(cand: set<nat>, ghost p: nat, ghost len: nat, align: nat, ghost parallel: bool, rest: seq<Entry>,
                   e: Entry,
                   pushed: seq<nat>, ghost seen: multiset<nat>)
    returns (stack: seq<Entry>, to: seq<nat>, ghost more: multiset<nat>)
    requires AlignOk(align) && Covered(p, len, align, rest + [e], seen, parallel) && LengthsOk(rest + [e], align)
    requires PushedIs(pushed, multiset{}, seen, cand)
    ensures Covered(p, len, align, stack, seen + more, parallel) && LengthsOk(stack, align)
    ensures PushedIs(to, multiset{}, seen + more, cand) && Work(stack) < Work(rest + [e])
  {
    hide Once;
    hide Covered;
    hide SeenDown;
    WorkMore(rest, e);
    assert (rest + [e])[|rest|] == e;
    RestLengths(rest, e, align);
    if e.len >= SPLIT_BYTES {
      var r := Entry(e.start + SPLIT_BYTES - PTR, e.len - (SPLIT_BYTES - PTR));
      LenMod(e.len, SPLIT_BYTES - PTR, align);
      var now, chunk := ScanRange(cand, e.start, SPLIT_BYTES - align, align);
      more := chunk;
      AfterChunk(p, len, align, rest, e, seen, more, parallel);
      WorkMore(rest, r);
      stack := rest + [r];
      to := pushed + now;
    } else if e.len < PTR {
      more := multiset{};
      NothingLeft(e, align);
      AfterScan(p, len, align, rest, e, seen, more, parallel);
      stack, to := rest, pushed;
    } else {
      var now, all := ScanRange(cand, e.start, e.len, align);
      more := all;
      AfterScan(p, len, align, rest, e, seen, more, parallel);
      stack := rest;
      to := pushed + now;
    }
  }

  lemma RestLengths(rest: seq<Entry>, e: Entry, align: nat)
    requires align > 0 && LengthsOk(rest + [e], align)
    ensures LengthsOk(rest, align) && Aligned(e.len, align)
  {
    assert (rest + [e])[|rest|] == e;
    forall i {:trigger rest[i]} | 0 <= i < |rest|
      ensures Aligned(rest[i].len, align)
    {
      assert (rest + [e])[i] == rest[i];
    }
  }

  lemma NothingLeft(e: Entry, align: nat)
    requires align > 0 && e.len < PTR
    ensures Once(e.start, e.len, align, multiset{})
  {
  }

  lemma CoveredStart(p: nat, len: nat, align: nat, parallel: bool)
    requires align > 0
    ensures Covered(p, len, align, [Entry(p, len)], multiset{}, parallel)
  {
  }

  lemma CoveredEnd(p: nat, len: nat, align: nat, seen: multiset<nat>, parallel: bool)
    requires align > 0 && Covered(p, len, align, [], seen, parallel)
    ensures forall a: nat ::
              if !Pos(p, len, align, a) then seen[a] == 0 else seen[a] >= 1 && (!parallel ==> seen[a] == 1)
  {
  }

  // ----- Bitmaps -----

  /** Bit `i` of a word. */
  predicate Bit(n: nat, i: nat) {
    if i == 0 then n % 2 == 1 else Bit(n / 2, i - 1)
  }

  /** Bitwise and. */
  function And(a: nat, b: nat): nat {
    if a == 0 || b == 0 then 0 else 2 * And(a / 2, b / 2) + (if a % 2 == 1 && b % 2 == 1 then 1 else 0)
  }

  /** The number of the lowest bit that is set. */
  function Lowest(n: nat): nat
    requires n > 0
  {
    if n % 2 == 1 then 0 else 1 + Lowest(n / 2)
  }

  lemma {:induction false} AndSelf(n: nat)
    ensures And(n, n) == n
  {
    if n > 0 {
      AndSelf(n / 2);
    }
  }

  /** `bits &= bits - 1` clears the lowest bit that is set, and only that. */
  lemma {:induction false} ClearLowest(n: nat, i: nat)
    requires n > 0
    ensures Bit(And(n, n - 1), i) <==> Bit(n, i) && i != Lowest(n)
    ensures And(n, n - 1) < n
    decreases n
  {
    if n % 2 == 1 {
      assert (n - 1) / 2 == n / 2;
      AndSelf(n / 2);
      assert And(n, n - 1) == 2 * (n / 2);
    } else {
      assert (n - 1) / 2 == n / 2 - 1;
      assert And(n, n - 1) == 2 * And(n / 2, n / 2 - 1);
      ClearLowest(n / 2, if i == 0 then 0 else i - 1);
    }
  }

  lemma {:induction false} LowestIs(n: nat, i: nat)
    requires n > 0
    ensures Bit(n, Lowest(n)) && (i < Lowest(n) ==> !Bit(n, i))
    decreases n
  {
    if n % 2 == 0 {
      LowestIs(n / 2, if i == 0 then 0 else i - 1);
    }
  }

  /** The slots of a bitmap from `lo` up to `hi`, one after the other. */
  function Slots(n: nat, lo: nat, hi: nat): seq<nat>
    requires lo <= hi
    decreases hi - lo
  {
    if lo == hi then [] else (if Bit(n, lo) then [lo] else []) + Slots(n, lo + 1, hi)
  }

  lemma {:induction false} NoSlots(n: nat, lo: nat, hi: nat)
    requires lo <= hi && forall i :: lo <= i < hi ==> !Bit(n, i)
    ensures Slots(n, lo, hi) == []
    decreases hi - lo
  {
    if lo < hi {
      NoSlots(n, lo + 1, hi);
    }
  }

  lemma {:induction false} SameSlots(m: nat, n: nat, lo: nat, hi: nat)
    requires lo <= hi && forall i :: lo <= i < hi ==> (Bit(m, i) <==> Bit(n, i))
    ensures Slots(m, lo, hi) == Slots(n, lo, hi)
    decreases hi - lo
  {
    if lo < hi {
      SameSlots(m, n, lo + 1, hi);
    }
  }

  lemma SlotsHead(n: nat, lo: nat, hi: nat)
    requires lo < hi
    ensures Slots(n, lo, hi) == if Bit(n, lo) then [lo] + Slots(n, lo + 1, hi) else Slots(n, lo + 1, hi)
  {
  }

  /** The lowest bit is the first slot, and the others are the slots of the cleared word. */
  lemma {:induction false} FirstSlot(n: nat, lo: nat, hi: nat)
    requires n > 0 && lo <= Lowest(n) < hi
    ensures Slots(n, lo, hi) == [Lowest(n)] + Slots(And(n, n - 1), lo, hi)
    decreases hi - lo
  {
    hide Bit;
    hide And;
    hide Lowest;
    hide Slots;
    var m := And(n, n - 1);
    ClearLowest(n, lo);
    LowestIs(n, lo);
    SlotsHead(n, lo, hi);
    SlotsHead(m, lo, hi);
    if lo == Lowest(n) {
      forall i | lo + 1 <= i < hi
        ensures Bit(n, i) <==> Bit(m, i)
      {
        ClearLowest(n, i);
      }
      SameSlots(n, m, lo + 1, hi);
    } else {
      FirstSlot(n, lo + 1, hi);
    }
  }

  lemma {:induction false} HighBits(n: nat, hi: nat, i: nat)
    requires n < Pow2(hi) && i >= hi
    ensures !Bit(n, i)
    decreases i
  {
    if hi > 0 {
      HighBits(n / 2, hi - 1, i - 1);
    } else if i > 0 {
      HighBits(n / 2, 0, i - 1);
    }
  }

  /** Count trailing zeros by shifting. */
  method CountZeros(bits: nat) returns (slot: nat)
    requires bits > 0
    ensures slot == Lowest(bits)
  {
    slot := 0;
    var remaining := bits;
    while remaining % 2 == 0
      invariant remaining > 0 && slot + Lowest(remaining) == Lowest(bits)
      decreases remaining
    {
      remaining := remaining / 2;
      slot := slot + 1;
    }
  }

  /** The scan of a compressed bitmap of one word: the set bits below `slots`, taken off from the
      lowest, are the slots that a scan one by one finds. */
  method ScanBitmap(word: nat, slots: nat) returns (visited: seq<nat>)
    ensures visited == Slots(word, 0, slots)
  {
    hide *;
    visited := [];
    var bits: nat := word % Pow2(slots);
    MaskedSlots(word, slots);
    while bits != 0
      invariant bits < Pow2(slots) && visited + Slots(bits, 0, slots) == Slots(word, 0, slots)
      decreases bits
    {
      var slot := CountZeros(bits);
      LowestBelow(bits, slots);
      FirstSlot(bits, 0, slots);
      ClearLowest(bits, 0);
      visited := visited + [slot];
      bits := And(bits, bits - 1);
    }
    NoBits(slots);
  }

  lemma LowestBelow(bits: nat, slots: nat)
    requires 0 < bits < Pow2(slots)
    ensures Lowest(bits) < slots
  {
    LowestIs(bits, 0);
    if Lowest(bits) >= slots {
      HighBits(bits, slots, Lowest(bits));
    }
  }

  // ----- Bitmaps of several words -----

  const WORD_BITS: nat := 64

  predicate BitAt(words: seq<nat>, slot: nat)
    requires slot < WORD_BITS * |words|
  {
    Bit(words[slot / WORD_BITS], slot % WORD_BITS)
  }

  /** The slots from `lo` up to `hi` whose bits are set, in ascending order. */
  function SlotsOf(words: seq<nat>, lo: nat, hi: nat): seq<nat>
    requires lo <= hi <= WORD_BITS * |words|
    decreases hi - lo
  {
    if lo == hi then [] else (if BitAt(words, lo) then [lo] else []) + SlotsOf(words, lo + 1, hi)
  }

  lemma {:induction false} SlotsOfSplit(words: seq<nat>, lo: nat, mid: nat, hi: nat)
    requires lo <= mid <= hi <= WORD_BITS * |words|
    ensures SlotsOf(words, lo, mid) + SlotsOf(words, mid, hi) == SlotsOf(words, lo, hi)
    decreases mid - lo
  {
    if lo < mid {
      SlotsOfSplit(words, lo + 1, mid, hi);
    }
  }

  /** Slot numbers of a word, counted from the start of the bitmap. */
  function From(base: nat, slots: seq<nat>): seq<nat> {
    seq(|slots|, i requires 0 <= i < |slots| => base + slots[i])
  }

  lemma FromCons(base: nat, slot: nat, rest: seq<nat>)
    ensures From(base, [slot] + rest) == [base + slot] + From(base, rest) && From(base, []) == []
  {
  }

  lemma SlotsOfHead(words: seq<nat>, w: nat, lo: nat, hi: nat)
    requires w < |words| && lo < hi <= WORD_BITS
    ensures SlotsOf(words, WORD_BITS * w + lo, WORD_BITS * w + hi) ==
            var rest := SlotsOf(words, WORD_BITS * w + (lo + 1), WORD_BITS * w + hi);
            if Bit(words[w], lo) then [WORD_BITS * w + lo] + rest else rest
  {
    hide Bit;
    InWord(w, lo);
  }

  /** The slots of one word are those that the whole bitmap has there. */
  lemma {:induction false} SlotsOfWord(words: seq<nat>, w: nat, lo: nat, hi: nat)
    requires w < |words| && lo <= hi <= WORD_BITS
    ensures SlotsOf(words, WORD_BITS * w + lo, WORD_BITS * w + hi) == From(WORD_BITS * w, Slots(words[w], lo, hi))
    decreases hi - lo
  {
    if lo < hi {
      hide *;
      SlotsOfWord(words, w, lo + 1, hi);
      SlotsHead(words[w], lo, hi);
      SlotsOfHead(words, w, lo, hi);
      FromCons(WORD_BITS * w, lo, Slots(words[w], lo + 1, hi));
    }
  }

  lemma InWord(w: nat, i: nat)
    requires i < WORD_BITS
    ensures (WORD_BITS * w + i) / WORD_BITS == w && (WORD_BITS * w + i) % WORD_BITS == i
  {
  }

  /** The loop over the bits of one word, which ends at the first bit that is no slot. */
  method ScanWord(word: nat, base: nat, slots: nat) returns (visited: seq<nat>)
    requires base < slots
    ensures visited == From(base, Slots(word, 0, slots - base))
  {
    hide *;
    visited := [];
    var bits := word;
    ghost var seen: seq<nat> := [];
    FromCons(base, 0, []);
    while bits != 0
      invariant visited == From(base, seen) && seen + Slots(bits, 0, slots - base) == Slots(word, 0, slots - base)
      decreases bits
    {
      var low := CountZeros(bits);
      var slot := base + low;
      if slot >= slots {
        NoneBelow(bits, slots - base);
        assert seen + [] == seen;
        return;
      }
      FirstSlot(bits, 0, slots - base);
      ClearLowest(bits, 0);
      FromMore(base, seen, slot - base);
      seen := seen + [slot - base];
      visited := visited + [slot];
      bits := And(bits, bits - 1);
    }
    NoBits(slots - base);
  }

  lemma FromMore(base: nat, seen: seq<nat>, slot: nat)
    ensures From(base, seen + [slot]) == From(base, seen) + [base + slot]
  {
  }

  lemma NoneBelow(bits: nat, hi: nat)
    requires bits > 0 && Lowest(bits) >= hi
    ensures Slots(bits, 0, hi) == []
  {
    forall i | 0 <= i < hi
      ensures !Bit(bits, i)
    {
      LowestIs(bits, i);
    }
    NoSlots(bits, 0, hi);
  }

  /** GC_mark_compressed_bitmap_multi: a bitmap of several words. */
  method ScanBitmapWords(words: seq<nat>, slots: nat) returns (visited: seq<nat>)
    requires slots <= WORD_BITS * |words| && forall i :: 0 <= i < |words| ==> words[i] < Pow2(WORD_BITS)
    ensures visited == SlotsOf(words, 0, slots)
  {
    visited := [];
    var w := 0;
    var n := slots / WORD_BITS + if slots % WORD_BITS != 0 then 1 else 0;
    while w < n
      invariant 0 <= w <= n && visited == SlotsOf(words, 0, if WORD_BITS * w <= slots then WORD_BITS * w else slots)
    {
      var more := ScanWord(words[w], WORD_BITS * w, slots);
      visited := visited + more;
      WholeWord(words, w, slots);
      w := w + 1;
    }
  }

  /** Bits of a word beyond its last are not set, so a full word has no more slots than that. */
  lemma WholeWord(words: seq<nat>, w: nat, slots: nat)
    requires slots <= WORD_BITS * |words| && WORD_BITS * w < slots && words[w] < Pow2(WORD_BITS)
    ensures var end := if WORD_BITS * (w + 1) <= slots then WORD_BITS * (w + 1) else slots;
            SlotsOf(words, 0, WORD_BITS * w) + From(WORD_BITS * w, Slots(words[w], 0, slots - WORD_BITS * w)) ==
            SlotsOf(words, 0, end)
  {
    hide *;
    var base := WORD_BITS * w;
    var end := if base + WORD_BITS <= slots then base + WORD_BITS else slots;
    if base + WORD_BITS < slots {
      ShortSlots(words[w], slots - base);
    }
    SlotsOfWord(words, w, 0, end - base);
    SlotsOfSplit(words, 0, base, end);
  }

  lemma ShortSlots(word: nat, hi: nat)
    requires word < Pow2(WORD_BITS) && hi >= WORD_BITS
    ensures Slots(word, 0, hi) == Slots(word, 0, WORD_BITS)
  {
    forall i | WORD_BITS <= i < hi
      ensures !Bit(word, i)
    {
      HighBits(word, WORD_BITS, i);
    }
    hide Bit;
    hide Pow2;
    NoSlots(word, WORD_BITS, hi);
    SlotsSplit(word, 0, WORD_BITS, hi);
  }

  lemma {:induction false} SlotsSplit(n: nat, lo: nat, mid: nat, hi: nat)
    requires lo <= mid <= hi
    ensures Slots(n, lo, mid) + Slots(n, mid, hi) == Slots(n, lo, hi)
    decreases mid - lo
  {
    if lo < mid {
      SlotsSplit(n, lo + 1, mid, hi);
    }
  }

  /** The loop of the ignore-self mark procedure: one slot after the other. */
  method ScanSlots(words: seq<nat>, slots: nat) returns (visited: seq<nat>)
    requires slots <= WORD_BITS * |words|
    ensures visited == SlotsOf(words, 0, slots)
  {
    visited := [];
    for slot := 0 to slots
      invariant visited == SlotsOf(words, 0, slot)
    {
      SlotsOfSplit(words, 0, slot, slot + 1);
      if BitAt(words, slot) {
        visited := visited + [slot];
      }
    }
  }

  lemma NoBits(slots: nat)
    ensures Slots(0, 0, slots) == []
  {
    forall i | 0 <= i < slots
      ensures !Bit(0, i)
    {
      ZeroBit(i);
    }
    NoSlots(0, 0, slots);
  }

  lemma {:induction false} ZeroBit(i: nat)
    ensures !Bit(0, i)
  {
    if i > 0 {
      ZeroBit(i - 1);
    }
  }

  lemma {:induction false} MaskedBit(word: nat, slots: nat, i: nat)
    requires i < slots
    ensures Bit(word % Pow2(slots), i) <==> Bit(word, i)
  {
    Masked(word, Pow2(slots - 1));
    if i > 0 {
      MaskedBit(word / 2, slots - 1, i - 1);
    }
  }

  /** Masking and halving commute. */
  lemma Masked(word: nat, half: nat)
    requires half > 0
    ensures (word % (2 * half)) % 2 == word % 2 && (word % (2 * half)) / 2 == (word / 2) % half
  {
    var q, r := QuotRem(word, 2 * half);
    Twice(half, q);
    Halves(word, half * q, r);
    Quotient(word / 2, half, q, r / 2);
  }

  lemma QuotRem(x: nat, n: nat) returns (q: nat, r: nat)
    requires n > 0
    ensures x == n * q + r && r < n && x % n == r
  {
    q, r := x / n, x % n;
  }

  lemma Twice(half: nat, q: nat)
    ensures (2 * half) * q == 2 * (half * q)
  {
  }

  lemma Halves(word: nat, h: nat, r: nat)
    requires word == 2 * h + r
    ensures word / 2 == h + r / 2 && word % 2 == r % 2
  {
  }

  lemma Quotient(x: nat, n: nat, q: nat, r: nat)
    requires n > 0 && x == n * q + r && r < n
    ensures x % n == r
  {
    var d := x / n;
    assert x == n * d + x % n;
    Multiples(n, d + 1, q);
    Multiples(n, q + 1, d);
  }

  lemma Multiples(n: nat, a: int, b: int)
    ensures a <= b ==> n * a <= n * b
  {
  }

  lemma MaskedSlots(word: nat, slots: nat)
    ensures Slots(word % Pow2(slots), 0, slots) == Slots(word, 0, slots)
  {
    forall i | 0 <= i < slots
      ensures Bit(word % Pow2(slots), i) <==> Bit(word, i)
    {
      MaskedBit(word, slots, i);
    }
    SameSlots(word % Pow2(slots), word, 0, slots);
  }
}
