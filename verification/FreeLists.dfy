/** The free lists of heap blocks: size classes, and doubly linked lists kept in the headers
    of their members. */
module FreeLists {
  import opened Prelude

  const UNIQUE_THRESHOLD: nat := 32
  const HUGE_THRESHOLD: nat := 256
  const FL_COMPRESSION: nat := 8
  const N_HBLK_FLS: nat := 60     // (HUGE_THRESHOLD - UNIQUE_THRESHOLD) / FL_COMPRESSION + UNIQUE_THRESHOLD

  /** GC_hblk_fl_from_blocks: the list for blocks of `n` units. */
  function FlIndex(n: nat): (i: nat)
    ensures i <= N_HBLK_FLS
    ensures n > 0 ==> i > 0
  {
    if n <= UNIQUE_THRESHOLD then n
    else if n >= HUGE_THRESHOLD then N_HBLK_FLS
    else (n - UNIQUE_THRESHOLD) / FL_COMPRESSION + UNIQUE_THRESHOLD
  }

  /** A bigger block is never on an earlier list, and small sizes have lists of their own. */
  lemma FlIndexMonotone(m: nat, n: nat)
    requires m <= n
    ensures FlIndex(m) <= FlIndex(n)
    ensures FlIndex(m) < UNIQUE_THRESHOLD && FlIndex(n) == FlIndex(m) ==> m == n
  {
  }

  /** Small sizes have a list each, middle ones share a list with their FL_COMPRESSION - 1
      neighbours, and all huge ones are on the last list. */
  lemma FlIndexClasses(m: nat, n: nat)
    requires 0 < m && 0 < n
    ensures m <= 32 ==> (FlIndex(m) == FlIndex(n) <==> m == n || (m == 32 && 32 < n < 40))
    ensures 40 <= m < 256 ==> (FlIndex(m) == FlIndex(n) <==> 8 * (m / 8) <= n < 8 * (m / 8) + 8)
    ensures m >= 256 ==> (FlIndex(m) == FlIndex(n) <==> n >= 256)
  {
  }

  /** The link fields of a header: NULL is None. */
  datatype Link = Link(prev: Option<nat>, next: Option<nat>)

  /** `head` and the links thread exactly the blocks of `l`, in order and both ways. */
  ghost predicate Chain(links: map<nat, Link>, head: Option<nat>, l: seq<nat>) {
    && head == (if l == [] then None else Some(l[0]))
    && forall j {:trigger l[j]} :: 0 <= j < |l| ==> l[j] in links && links[l[j]] == LinkAt(l, j)
  }

  function LinkAt(l: seq<nat>, j: nat): Link
    requires j < |l|
  {
    Link(if j > 0 then Some(l[j - 1]) else None, if j + 1 < |l| then Some(l[j + 1]) else None)
  }

  /** No block is listed twice, on one list or on two. */
  ghost predicate Distinct(lists: seq<seq<nat>>) {
    forall i, j, k, m ::
      (0 <= i < |lists| && 0 <= j < |lists[i]| && 0 <= k < |lists| && 0 <= m < |lists[k]|
       && lists[i][j] == lists[k][m]) ==>
      i == k && j == m
  }

  ghost predicate ListsOk(links: map<nat, Link>, heads: seq<Option<nat>>, lists: seq<seq<nat>>) {
    && |heads| == |lists| == N_HBLK_FLS + 1
    && Distinct(lists)
    && forall i {:trigger lists[i]} :: 0 <= i <= N_HBLK_FLS ==> Chain(links, heads[i], lists[i])
  }

  ghost predicate Listed(lists: seq<seq<nat>>, b: nat) {
    exists i, j :: 0 <= i < |lists| && 0 <= j < |lists[i]| && lists[i][j] == b
  }

  function Swapped(l: seq<nat>, j: nat, last: nat): seq<nat>
    requires j < |l|
  {
    l[j := last]
  }

  /** Links and heads after unlinking `b` from list `i`, as GC_remove_from_fl_at does it. */
  function UnlinkHeads(links: map<nat, Link>, heads: seq<Option<nat>>, b: nat, i: nat): seq<Option<nat>>
    requires b in links && i < |heads|
  {
    if links[b].prev.None? then heads[i := links[b].next] else heads
  }

  function UnlinkLinks(links: map<nat, Link>, b: nat): map<nat, Link>
    requires b in links
    requires links[b].prev.Some? ==> links[b].prev.value in links
    requires links[b].next.Some? ==> links[b].next.value in links
  {
    var p, n := links[b].prev, links[b].next;
    var l1 := if p.Some? then links[p.value := links[p.value].(next := n)] else links;
    if n.Some? then l1[n.value := l1[n.value].(prev := p)] else l1
  }

  /** Neighbours of a listed block are listed next to it. */
  lemma Neighbours(links: map<nat, Link>, heads: seq<Option<nat>>, lists: seq<seq<nat>>, i: nat, j: nat)
    requires ListsOk(links, heads, lists) && i <= N_HBLK_FLS && j < |lists[i]|
    ensures lists[i][j] in links && links[lists[i][j]] == LinkAt(lists[i], j)
    ensures j > 0 ==> lists[i][j - 1] in links
    ensures j + 1 < |lists[i]| ==> lists[i][j + 1] in links
    ensures (j == 0) == (heads[i] == Some(lists[i][j]))
  {
  }

  ghost predicate NoRepeats(l: seq<nat>) {
    forall j, m :: 0 <= j < m < |l| ==> l[j] != l[m]
  }

  /** A chain does not notice changes to headers that are not on it. */
  lemma ChainFrame(links: map<nat, Link>, after: map<nat, Link>, head: Option<nat>, l: seq<nat>)
    requires Chain(links, head, l)
    requires forall b :: b in l && b in links ==> b in after && after[b] == links[b]
    ensures Chain(after, head, l)
  {
  }

  lemma ChainAt(links: map<nat, Link>, head: Option<nat>, l: seq<nat>, j: nat)
    requires Chain(links, head, l) && j < |l|
    ensures l[j] in links && links[l[j]] == LinkAt(l, j) && head == Some(l[0])
    ensures links[l[j]].prev == (if j > 0 then Some(l[j - 1]) else None) && (j > 0 ==> l[j - 1] in links)
    ensures links[l[j]].next == (if j + 1 < |l| then Some(l[j + 1]) else None) && (j + 1 < |l| ==> l[j + 1] in links)
  {
  }

  lemma ChainFrom(links: map<nat, Link>, head: Option<nat>, l: seq<nat>)
    requires head == (if l == [] then None else Some(l[0]))
    requires forall j {:trigger l[j]} :: 0 <= j < |l| ==> l[j] in links && links[l[j]] == LinkAt(l, j)
    ensures Chain(links, head, l)
  {
  }

  lemma NoRepeatAt(l: seq<nat>, j: int, m: int)
    requires NoRepeats(l) && 0 <= j < |l| && 0 <= m < |l|
    ensures l[j] == l[m] <==> j == m
  {
  }

  /** What unlinking does to the link of one member. */
  lemma UnlinkLinkAt(links: map<nat, Link>, head: Option<nat>, l: seq<nat>, j: nat, o: nat)
    requires Chain(links, head, l) && NoRepeats(l) && j < |l| && o < |l| && o != j
    ensures var b := l[j];
            && (links[b].prev.Some? ==> links[b].prev.value in links)
            && (links[b].next.Some? ==> links[b].next.value in links)
            && l[o] in UnlinkLinks(links, b)
            && UnlinkLinks(links, b)[l[o]] == LinkAt(Without(l, j), if o < j then o else o - 1)
  {
    hide Chain;
    hide NoRepeats;
    ChainAt(links, head, l, j);
    ChainAt(links, head, l, o);
    NoRepeatAt(l, j, o);
    if j > 0 {
      NoRepeatAt(l, j - 1, j);
      NoRepeatAt(l, j - 1, o);
    }
    if j + 1 < |l| {
      NoRepeatAt(l, j + 1, j);
      NoRepeatAt(l, j + 1, o);
    }
    if 0 < j < |l| - 1 {
      NoRepeatAt(l, j - 1, j + 1);
    }
  }

  lemma UnlinkSame(links: map<nat, Link>, head: Option<nat>, l: seq<nat>, j: nat)
    requires Chain(links, head, l) && NoRepeats(l) && j < |l|
    ensures var b := l[j];
            && (links[b].prev.Some? ==> links[b].prev.value in links)
            && (links[b].next.Some? ==> links[b].next.value in links)
            && Chain(UnlinkLinks(links, b), if j == 0 then links[b].next else head, Without(l, j))
  {
    hide UnlinkLinks;
    hide Chain;
    hide LinkAt;
    hide NoRepeats;
    ChainAt(links, head, l, j);
    var w := Without(l, j);
    forall m {:trigger w[m]} | 0 <= m < |w|
      ensures w[m] in UnlinkLinks(links, l[j]) && UnlinkLinks(links, l[j])[w[m]] == LinkAt(w, m)
    {
      UnlinkLinkAt(links, head, l, j, if m < j then m else m + 1);
    }
    ChainFrom(UnlinkLinks(links, l[j]), if j == 0 then links[l[j]].next else head, w);
  }

  lemma UnlinkChain(links: map<nat, Link>, heads: seq<Option<nat>>, lists: seq<seq<nat>>, i: nat, j: nat, k: nat)
    requires ListsOk(links, heads, lists) && i <= N_HBLK_FLS && j < |lists[i]| && k <= N_HBLK_FLS
    ensures var b := lists[i][j];
            && b in links
            && (links[b].prev.Some? ==> links[b].prev.value in links)
            && (links[b].next.Some? ==> links[b].next.value in links)
            && Chain(UnlinkLinks(links, b), UnlinkHeads(links, heads, b, i)[k], lists[i := Without(lists[i], j)][k])
  {
    Neighbours(links, heads, lists, i, j);
    assert NoRepeats(lists[i]);
    UnlinkSame(links, heads[i], lists[i], j);
    if k != i {
      assert j > 0 ==> lists[i][j - 1] !in lists[k];
      assert j + 1 < |lists[i]| ==> lists[i][j + 1] !in lists[k];
      ChainFrame(links, UnlinkLinks(links, lists[i][j]), heads[k], lists[k]);
    }
  }

  lemma WithoutDistinct(lists: seq<seq<nat>>, i: nat, j: nat)
    requires Distinct(lists) && i < |lists| && j < |lists[i]|
    ensures Distinct(lists[i := Without(lists[i], j)])
    ensures !Listed(lists[i := Without(lists[i], j)], lists[i][j])
    ensures forall b :: b != lists[i][j] ==> (Listed(lists[i := Without(lists[i], j)], b) <==> Listed(lists, b))
  {
    var w := lists[i := Without(lists[i], j)];
    forall a, c | 0 <= a < |w| && 0 <= c < |w[a]|
      ensures var c' := if a == i && c >= j then c + 1 else c;
              c' < |lists[a]| && w[a][c] == lists[a][c'] && (a != i || c' != j)
    {
    }
    forall b | b != lists[i][j] && Listed(lists, b)
      ensures Listed(w, b)
    {
      var a, c :| 0 <= a < |lists| && 0 <= c < |lists[a]| && lists[a][c] == b;
      var c' := if a == i && c > j then c - 1 else c;
      assert w[a][c'] == b;
    }
  }

  /** Unlinking keeps every list intact and drops exactly that block. */
  lemma UnlinkOk(links: map<nat, Link>, heads: seq<Option<nat>>, lists: seq<seq<nat>>, i: nat, j: nat)
    requires ListsOk(links, heads, lists) && i <= N_HBLK_FLS && j < |lists[i]|
    ensures var b := lists[i][j];
            && b in links
            && (links[b].prev.Some? ==> links[b].prev.value in links)
            && (links[b].next.Some? ==> links[b].next.value in links)
            && UnlinkLinks(links, b).Keys == links.Keys
            && ListsOk(UnlinkLinks(links, b), UnlinkHeads(links, heads, b, i), lists[i := Without(lists[i], j)])
  {
    WithoutDistinct(lists, i, j);
    forall k | 0 <= k <= N_HBLK_FLS
      ensures Chain(UnlinkLinks(links, lists[i][j]), UnlinkHeads(links, heads, lists[i][j], i)[k],
                    lists[i := Without(lists[i], j)][k])
    {
      UnlinkChain(links, heads, lists, i, j, k);
    }
    UnlinkChain(links, heads, lists, i, j, i);
  }

  /** Links after pushing `b` on the list whose first block is `second`. */
  function PushLinks(links: map<nat, Link>, second: Option<nat>, b: nat): map<nat, Link>
    requires second.Some? ==> second.value in links
  {
    var l1 := links[b := Link(None, second)];
    if second.Some? then l1[second.value := l1[second.value].(prev := Some(b))] else l1
  }

  /** Pushing an unlisted block keeps every list intact and adds exactly that block. */
  lemma PushOk(links: map<nat, Link>, heads: seq<Option<nat>>, lists: seq<seq<nat>>, i: nat, b: nat)
    requires ListsOk(links, heads, lists) && i <= N_HBLK_FLS && !Listed(lists, b)
    ensures heads[i].Some? ==> heads[i].value in links
    ensures ListsOk(PushLinks(links, heads[i], b), heads[i := Some(b)], lists[i := [b] + lists[i]])
    ensures forall c :: Listed(lists[i := [b] + lists[i]], c) <==> c == b || Listed(lists, c)
  {
    var w := lists[i := [b] + lists[i]];
    assert Chain(links, heads[i], lists[i]);
    PushDistinct(lists, i, b);
    forall k | 0 <= k <= N_HBLK_FLS
      ensures Chain(PushLinks(links, heads[i], b), heads[i := Some(b)][k], w[k])
    {
      PushChain(links, heads, lists, i, b, k);
    }
  }

  lemma PushDistinct(lists: seq<seq<nat>>, i: nat, b: nat)
    requires Distinct(lists) && i < |lists| && !Listed(lists, b)
    ensures Distinct(lists[i := [b] + lists[i]])
    ensures forall c :: Listed(lists[i := [b] + lists[i]], c) <==> c == b || Listed(lists, c)
  {
    var w := lists[i := [b] + lists[i]];
    assert w[i][0] == b;
    forall a, c | 0 <= a < |w| && 0 <= c < |w[a]|
      ensures (a == i && c == 0) || (var c' := if a == i then c - 1 else c;
                                   0 <= c' < |lists[a]| && w[a][c] == lists[a][c'] && w[a][c] != b)
    {
      if !(a == i && c == 0) {
        var c' := if a == i then c - 1 else c;
        assert w[a][c] == lists[a][c'];
        assert Listed(lists, lists[a][c']);
      }
    }
    forall c | Listed(lists, c)
      ensures Listed(w, c)
    {
      var a, m :| 0 <= a < |lists| && 0 <= m < |lists[a]| && lists[a][m] == c;
      assert w[a][if a == i then m + 1 else m] == c;
    }
  }

  lemma PushChain(links: map<nat, Link>, heads: seq<Option<nat>>, lists: seq<seq<nat>>, i: nat, b: nat, k: nat)
    requires ListsOk(links, heads, lists) && i <= N_HBLK_FLS && !Listed(lists, b) && k <= N_HBLK_FLS
    ensures heads[i].Some? ==> heads[i].value in links
    ensures Chain(PushLinks(links, heads[i], b), heads[i := Some(b)][k], lists[i := [b] + lists[i]][k])
  {
    var w := lists[i := [b] + lists[i]];
    assert Chain(links, heads[i], lists[i]) && Chain(links, heads[k], lists[k]);
    var after := PushLinks(links, heads[i], b);
    forall m | 0 <= m < |w[k]|
      ensures w[k][m] in after && after[w[k][m]] == LinkAt(w[k], m)
    {
      if k == i && m == 0 {
        assert lists[i] != [] ==> Listed(lists, lists[i][0]);
      } else {
        var o := if k == i then m - 1 else m;
        assert w[k][m] == lists[k][o] && Listed(lists, lists[k][o]);
        assert links[lists[k][o]] == LinkAt(lists[k], o);
        if lists[i] != [] && lists[k][o] == lists[i][0] {
          assert k == i && o == 0;
        }
      }
    }
  }

  /** Links after putting `last` in the place of `b`. */
  function ReplaceLinks(links: map<nat, Link>, b: nat, last: nat): map<nat, Link>
    requires b in links
    requires links[b].prev.Some? ==> links[b].prev.value in links
    requires links[b].next.Some? ==> links[b].next.value in links
  {
    var p, n := links[b].prev, links[b].next;
    var l0 := links[last := Link(p, n)];
    var l1 := if p.Some? then l0[p.value := l0[p.value].(next := Some(last))] else l0;
    if n.Some? then l1[n.value := l1[n.value].(prev := Some(last))] else l1
  }

  function ReplaceHeads(links: map<nat, Link>, heads: seq<Option<nat>>, b: nat, last: nat, i: nat): seq<Option<nat>>
    requires b in links && i < |heads|
  {
    if links[b].prev.None? then heads[i := Some(last)] else heads
  }

  lemma ReplaceLinkAt(links: map<nat, Link>, head: Option<nat>, l: seq<nat>, j: nat, last: nat, m: nat)
    requires Chain(links, head, l) && NoRepeats(l) && j < |l| && m < |l| && last !in l
    ensures var b := l[j];
            && (links[b].prev.Some? ==> links[b].prev.value in links)
            && (links[b].next.Some? ==> links[b].next.value in links)
            && Swapped(l, j, last)[m] in ReplaceLinks(links, b, last)
            && ReplaceLinks(links, b, last)[Swapped(l, j, last)[m]] == LinkAt(Swapped(l, j, last), m)
  {
    hide Chain;
    hide NoRepeats;
    ChainAt(links, head, l, j);
    ChainAt(links, head, l, m);
    NoRepeatAt(l, j, m);
    if j > 0 {
      NoRepeatAt(l, j - 1, j);
      NoRepeatAt(l, j - 1, m);
    }
    if j + 1 < |l| {
      NoRepeatAt(l, j + 1, j);
      NoRepeatAt(l, j + 1, m);
    }
    if 0 < j < |l| - 1 {
      NoRepeatAt(l, j - 1, j + 1);
    }
  }

  lemma ReplaceSame(links: map<nat, Link>, head: Option<nat>, l: seq<nat>, j: nat, last: nat)
    requires Chain(links, head, l) && NoRepeats(l) && j < |l| && last !in l
    ensures var b := l[j];
            && (links[b].prev.Some? ==> links[b].prev.value in links)
            && (links[b].next.Some? ==> links[b].next.value in links)
            && Chain(ReplaceLinks(links, b, last), if j == 0 then Some(last) else head, Swapped(l, j, last))
  {
    ReplaceLinkAt(links, head, l, j, last, j);
    var w := Swapped(l, j, last);
    forall m | 0 <= m < |w|
      ensures w[m] in ReplaceLinks(links, l[j], last) && ReplaceLinks(links, l[j], last)[w[m]] == LinkAt(w, m)
    {
      ReplaceLinkAt(links, head, l, j, last, m);
    }
  }

  lemma ReplaceChain(links: map<nat, Link>, heads: seq<Option<nat>>, lists: seq<seq<nat>>, i: nat, j: nat, last: nat,
                     k: nat)
    requires ListsOk(links, heads, lists) && i <= N_HBLK_FLS && j < |lists[i]| && k <= N_HBLK_FLS
             && !Listed(lists, last)
    ensures var b := lists[i][j];
            && b in links
            && (links[b].prev.Some? ==> links[b].prev.value in links)
            && (links[b].next.Some? ==> links[b].next.value in links)
            && Chain(ReplaceLinks(links, b, last), ReplaceHeads(links, heads, b, last, i)[k],
                     lists[i := Swapped(lists[i], j, last)][k])
  {
    Neighbours(links, heads, lists, i, j);
    assert NoRepeats(lists[i]);
    assert last !in lists[i] && last !in lists[k];
    ReplaceSame(links, heads[i], lists[i], j, last);
    if k != i {
      assert j > 0 ==> lists[i][j - 1] !in lists[k];
      assert j + 1 < |lists[i]| ==> lists[i][j + 1] !in lists[k];
      ChainFrame(links, ReplaceLinks(links, lists[i][j], last), heads[k], lists[k]);
    }
  }

  lemma ReplaceListed(lists: seq<seq<nat>>, i: nat, j: nat, last: nat, c: nat)
    requires Distinct(lists) && i < |lists| && j < |lists[i]|
    ensures Listed(lists[i := Swapped(lists[i], j, last)], c) <==> c == last || (Listed(lists, c) && c != lists[i][j])
  {
    var w := lists[i := Swapped(lists[i], j, last)];
    assert w[i][j] == last;
    if Listed(w, c) {
      var a, m :| 0 <= a < |w| && 0 <= m < |w[a]| && w[a][m] == c;
      assert (a == i && m == j) || lists[a][m] == c;
    }
    if Listed(lists, c) && c != lists[i][j] {
      var a, m :| 0 <= a < |lists| && 0 <= m < |lists[a]| && lists[a][m] == c;
      assert w[a][m] == c;
    }
  }

  lemma ReplaceDistinct(lists: seq<seq<nat>>, i: nat, j: nat, last: nat)
    requires Distinct(lists) && i < |lists| && j < |lists[i]| && !Listed(lists, last)
    ensures Distinct(lists[i := Swapped(lists[i], j, last)])
    ensures forall c :: Listed(lists[i := Swapped(lists[i], j, last)], c) <==>
            c == last || (Listed(lists, c) && c != lists[i][j])
  {
    var w := lists[i := Swapped(lists[i], j, last)];
    forall a, c | 0 <= a < |w| && 0 <= c < |w[a]|
      ensures (a == i && c == j) || (w[a][c] == lists[a][c] && w[a][c] != last)
    {
      assert Listed(lists, lists[a][c]);
    }
    forall c: nat
      ensures Listed(w, c) <==> c == last || (Listed(lists, c) && c != lists[i][j])
    {
      ReplaceListed(lists, i, j, last, c);
    }
  }

  /** Replacing one block by an unlisted one keeps every list intact. */
  lemma ReplaceOk(links: map<nat, Link>, heads: seq<Option<nat>>, lists: seq<seq<nat>>, i: nat, j: nat, last: nat)
    requires ListsOk(links, heads, lists) && i <= N_HBLK_FLS && j < |lists[i]| && !Listed(lists, last)
    ensures var b := lists[i][j];
            && b in links
            && (links[b].prev.Some? ==> links[b].prev.value in links)
            && (links[b].next.Some? ==> links[b].next.value in links)
            && ListsOk(ReplaceLinks(links, b, last), ReplaceHeads(links, heads, b, last, i),
                       lists[i := Swapped(lists[i], j, last)])
  {
    ReplaceDistinct(lists, i, j, last);
    ReplaceChain(links, heads, lists, i, j, last, i);
    forall k | 0 <= k <= N_HBLK_FLS
      ensures Chain(ReplaceLinks(links, lists[i][j], last), ReplaceHeads(links, heads, lists[i][j], last, i)[k],
                    lists[i := Swapped(lists[i], j, last)][k])
    {
      ReplaceChain(links, heads, lists, i, j, last, k);
    }
  }
}
