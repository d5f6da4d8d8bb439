/** Address ranges that are left out of the static roots: a sorted table, searched by bisection,
    and the parts of a root that remain to be pushed. */
module Exclusions {
  import opened Prelude

  /** Addresses `start` up to, not including, `end`. */
  datatype Stretch = Stretch(start: nat, end: nat) {
    predicate Has(a: nat) {
      start <= a < end
    }
  }

  /** Nonempty ranges in ascending order that do not overlap; they may touch. */
  ghost predicate Ascending(s: seq<Stretch>) {
    && (forall i :: 0 <= i < |s| ==> s[i].start < s[i].end)
    && forall i, j :: 0 <= i < j < |s| ==> s[i].end <= s[j].start
  }

  ghost predicate In(s: seq<Stretch>, a: nat) {
    exists i :: 0 <= i < |s| && s[i].Has(a)
  }

  /** The ranges that end at or before `a` are the first `i`. */
  ghost predicate SplitAt(s: seq<Stretch>, a: nat, i: nat) {
    i <= |s| && (forall j :: 0 <= j < i ==> s[j].end <= a) && forall j :: i <= j < |s| ==> a < s[j].end
  }

  ghost predicate Overlaps(s: seq<Stretch>, start: nat, finish: nat) {
    exists a :: start <= a < finish && In(s, a)
  }

  function Inserted(s: seq<Stretch>, i: nat, e: Stretch): seq<Stretch>
    requires i <= |s|
  {
    s[..i] + [e] + s[i..]
  }

  /** The one range that is looked at decides whether any overlaps. */
  lemma OverlapIs(s: seq<Stretch>, start: nat, finish: nat, i: nat)
    requires Ascending(s) && start < finish && SplitAt(s, start, i)
    ensures Overlaps(s, start, finish) <==> i < |s| && s[i].start < finish
  {
    if i < |s| && s[i].start < finish {
      var a := if s[i].start < start then start else s[i].start;
      assert s[i].Has(a);
      assert In(s, a);
    }
    forall a | start <= a < finish && In(s, a)
      ensures i < |s| && s[i].start < finish
    {
      var j :| 0 <= j < |s| && s[j].Has(a);
      assert j >= i;
    }
  }

  lemma EndsBelow(s: seq<Stretch>, mid: nat, a: nat)
    requires Ascending(s) && mid < |s| && s[mid].end <= a
    ensures forall j :: 0 <= j <= mid ==> s[j].end <= a
  {
  }

  lemma EndsAbove(s: seq<Stretch>, mid: nat, a: nat)
    requires Ascending(s) && mid < |s| && a < s[mid].end
    ensures forall j :: mid <= j < |s| ==> a < s[j].end
  {
  }

  ghost predicate Starts(s: seq<Stretch>, a: nat) {
    exists i :: 0 <= i < |s| && s[i].start == a
  }

  /** Only the same range can start where the new one ends. */
  lemma StartsIs(s: seq<Stretch>, start: nat, finish: nat, i: nat)
    requires Ascending(s) && start < finish && SplitAt(s, start, i)
    ensures !Overlaps(s, start, finish) ==> (Starts(s, finish) <==> i < |s| && s[i].start == finish)
  {
    OverlapIs(s, start, finish, i);
    if j :| 0 <= j < |s| && s[j].start == finish {
      assert j >= i;
      assert j > i ==> s[i].end <= s[j].start;
    }
  }

  lemma InsertedIs(s: seq<Stretch>, start: nat, finish: nat, i: nat)
    requires Ascending(s) && start < finish && SplitAt(s, start, i) && (i < |s| ==> finish <= s[i].start)
    ensures Ascending(Inserted(s, i, Stretch(start, finish)))
    ensures forall a: nat :: In(Inserted(s, i, Stretch(start, finish)), a) <==> In(s, a) || start <= a < finish
  {
    InsertedAscending(s, start, finish, i);
    hide Ascending;
    var e := Stretch(start, finish);
    var t := Inserted(s, i, e);
    assert forall j :: 0 <= j < |t| ==> t[j] == if j < i then s[j] else if j == i then e else s[j - 1];
    forall a: nat
      ensures In(t, a) <==> In(s, a) || e.Has(a)
    {
      if e.Has(a) {
        assert t[i].Has(a);
      }
      if In(s, a) {
        var j :| 0 <= j < |s| && s[j].Has(a);
        assert t[if j < i then j else j + 1].Has(a);
      }
    }
  }

  lemma InsertedAscending(s: seq<Stretch>, start: nat, finish: nat, i: nat)
    requires Ascending(s) && start < finish && SplitAt(s, start, i) && (i < |s| ==> finish <= s[i].start)
    ensures Ascending(Inserted(s, i, Stretch(start, finish)))
  {
    var t := Inserted(s, i, Stretch(start, finish));
    assert forall j :: 0 <= j < |t| ==>
           t[j] == if j < i then s[j] else if j == i then Stretch(start, finish) else s[j - 1];
    assert forall j :: i <= j < |s| ==> finish <= s[j].start;
  }

  lemma ExtendedIs(s: seq<Stretch>, start: nat, finish: nat, i: nat)
    requires Ascending(s) && start < finish && SplitAt(s, start, i) && i < |s| && s[i].start == finish
    ensures Ascending(s[i := Stretch(start, s[i].end)])
    ensures forall a: nat :: In(s[i := Stretch(start, s[i].end)], a) <==> In(s, a) || start <= a < finish
  {
    var t := s[i := Stretch(start, s[i].end)];
    forall a: nat
      ensures In(t, a) <==> In(s, a) || start <= a < finish
    {
      if In(t, a) {
        var j :| 0 <= j < |t| && t[j].Has(a);
        assert j != i ==> s[j].Has(a);
        assert j == i && finish <= a ==> s[i].Has(a);
      }
      if In(s, a) {
        var j :| 0 <= j < |s| && s[j].Has(a);
        assert t[j].Has(a);
      }
      if start <= a < finish {
        assert t[i].Has(a);
      }
    }
  }

  datatype Result = Excluded | RangesOverlap | TooMany

  class ExclusionTable {
    var table: array<Stretch>     // GC_excl_table
    var entries: nat            // GC_excl_table_entries

    ghost predicate Valid()
      reads this, table
    {
      entries <= table.Length && Ascending(table[..entries])
    }

    constructor (capacity: nat)
      ensures Valid() && fresh(table) && table.Length == capacity && entries == 0
    {
      table := new Stretch[capacity](_ => Stretch(0, 0));
      entries := 0;
    }

    /** GC_next_exclusion: the first range that ends after `a`. */
    method NextExclusion(a: nat) returns (r: Option<nat>)
      requires Valid()
      ensures r.Some? ==> r.value < entries
      ensures SplitAt(table[..entries], a, if r.Some? then r.value else entries)
    {
      if entries == 0 {
        return None;
      }
      var low, high := 0, entries - 1;
      ghost var s := table[..entries];
      hide Ascending;
      while high > low
        invariant 0 <= low <= high < entries
        invariant forall j :: 0 <= j < low ==> s[j].end <= a
        invariant forall j :: high < j < entries ==> a < s[j].end
        invariant high == entries - 1 || a < s[high].end
      {
        var mid := (low + high) / 2;
        assert s[mid] == table[mid];
        if a >= table[mid].end {
          EndsBelow(s, mid, a);
          low := mid + 1;
        } else {
          EndsAbove(s, mid, a);
          high := mid;
        }
      }
      assert s[low] == table[low];
      if a >= table[low].end {
        return None;
      }
      return Some(low);
    }

    /** Make room at position `i`. */
    method ShiftUp(i: nat)
      requires i <= entries < table.Length
      modifies table
      ensures forall j :: 0 <= j < i ==> table[j] == old(table[j])
      ensures forall j :: i < j <= entries ==> table[j] == old(table[j - 1])
    {
      var k := entries;
      while k > i
        invariant i <= k <= entries
        invariant forall j :: 0 <= j < k ==> table[j] == old(table[j])
        invariant forall j :: k < j <= entries ==> table[j] == old(table[j - 1])
      {
        table[k] := table[k - 1];
        k := k - 1;
      }
    }

    method InsertAt(at: nat, e: Stretch)
      requires at <= entries < table.Length
      modifies this`entries, table
      ensures entries == old(entries) + 1 <= table.Length
      ensures table[..entries] == Inserted(old(table[..entries]), at, e)
    {
      ghost var s := table[..entries];
      ShiftUp(at);
      table[at] := e;
      entries := entries + 1;
      assert table[..entries] == Inserted(s, at, e);
    }

    /** GC_exclude_static_roots_inner.  The check that the source calls incomplete is complete. */
    method Exclude(start: nat, finish: nat) returns (r: Result)
      requires Valid() && start < finish
      modifies this`entries, table
      ensures Valid()
      ensures r == RangesOverlap <==> Overlaps(old(table[..entries]), start, finish)
      ensures r == TooMany <==>
                && old(entries) == table.Length && !Overlaps(old(table[..entries]), start, finish)
                && !Starts(old(table[..entries]), finish)
      ensures r == Excluded ==> forall a: nat :: In(table[..entries], a) <==>
              In(old(table[..entries]), a) || start <= a < finish
      ensures r != Excluded ==> entries == old(entries) && table[..entries] == old(table[..entries])
    {
      hide Ascending;
      hide SplitAt;
      hide Overlaps;
      hide Starts;
      hide In;
      hide Inserted;
      ghost var s := table[..entries];
      var next := NextExclusion(start);
      ghost var split := if next.Some? then next.value else entries;
      OverlapIs(s, start, finish, split);
      StartsIs(s, start, finish, split);
      if next.Some? {
        var i := next.value;
        assert s[i] == table[i];
        if table[i].start < finish {
          return RangesOverlap;
        }
        if table[i].start == finish {
          ExtendedIs(s, start, finish, i);
          table[i] := Stretch(start, table[i].end);
          assert table[..entries] == s[i := Stretch(start, s[i].end)];
          return Excluded;
        }
      }
      if entries >= table.Length {
        return TooMany;
      }
      InsertedIs(s, start, finish, split);
      InsertAt(if next.Some? then next.value else entries, Stretch(start, finish));
      return Excluded;
    }

    /** GC_push_conditional_with_exclusions: the pieces of a root that are pushed, in order. */
    method Push(bottom: nat, top: nat) returns (pushed: seq<Stretch>)
      requires Valid()
      ensures Ascending(pushed)
      ensures forall a: nat :: In(pushed, a) <==> bottom <= a < top && !In(table[..entries], a)
    {
      ghost var s := table[..entries];
      pushed := [];
      var b := bottom;
      while b < top
        invariant bottom <= b
        invariant Ascending(pushed) && forall i :: 0 <= i < |pushed| ==> pushed[i].end <= b
        invariant forall a: nat :: In(pushed, a) <==> bottom <= a < b && a < top && !In(s, a)
        decreases top - b
      {
        var next := NextExclusion(b);
        ghost var split := if next.Some? then next.value else entries;
        var start := top;
        var found := false;
        if next.Some? {
          assert table[next.value] == s[next.value];
          if table[next.value].start < top {
            found := true;
            start := table[next.value].start;
          }
        }
        GapIs(s, b, split, start, top);
        if b < start {
          PushedMore(pushed, Stretch(b, start));
          pushed := pushed + [Stretch(b, start)];
        }
        if !found {
          return;
        }
        b := table[next.value].end;
      }
    }
  }

  /** From `b` up to the next range nothing is excluded, and that range is. */
  lemma GapIs(s: seq<Stretch>, b: nat, i: nat, start: nat, top: nat)
    requires Ascending(s) && SplitAt(s, b, i) && start <= top
    requires if i < |s| && s[i].start < top then start == s[i].start else start == top
    ensures forall a: nat :: b <= a < start ==> !In(s, a)
    ensures i < |s| ==> forall a: nat :: b <= a && s[i].Has(a) ==> In(s, a)
  {
  }

  lemma PushedMore(pushed: seq<Stretch>, e: Stretch)
    requires Ascending(pushed) && e.start < e.end && forall i :: 0 <= i < |pushed| ==> pushed[i].end <= e.start
    ensures Ascending(pushed + [e])
    ensures forall a: nat :: In(pushed + [e], a) <==> In(pushed, a) || e.Has(a)
  {
    var t := pushed + [e];
    forall a: nat
      ensures In(t, a) <==> In(pushed, a) || e.Has(a)
    {
      if In(pushed, a) {
        var j :| 0 <= j < |pushed| && pushed[j].Has(a);
        assert t[j].Has(a);
      }
      if e.Has(a) {
        assert t[|pushed|].Has(a);
      }
    }
  }
}
