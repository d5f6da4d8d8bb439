/** The heap-block allocator: free lists, splitting, coalescing, dropping of black-listed
    blocks, and giving memory back to the system. */
module BlockHeaps {
  import opened Prelude
  import opened FreeLists
  import opened HeapTiles
  import opened BlackList
  import opened HeapUse
  import opened BlockSearch

  const MERGE_LIMIT: nat := 0x8_0000_0000_0000    // blocks whose size in bytes sets the sign bit

  /** Sum of the sizes of the listed blocks. */
  function Total(tiles: Tiles, l: seq<nat>): nat {
    if l == [] then 0 else (if l[0] in tiles then tiles[l[0]].size else 0) + Total(tiles, l[1..])
  }

  function Sum(counts: seq<nat>): nat {
    if counts == [] then 0 else counts[0] + Sum(counts[1..])
  }

  lemma {:induction false} TotalFrame(tiles: Tiles, to: Tiles, l: seq<nat>)
    requires forall b :: b in l ==> b in tiles && b in to && tiles[b].size == to[b].size
    ensures Total(tiles, l) == Total(to, l)
  {
    if l != [] {
      assert l[0] in l;
      TotalFrame(tiles, to, l[1..]);
    }
  }

  lemma {:induction false} TotalWithout(tiles: Tiles, l: seq<nat>, j: nat)
    requires j < |l| && l[j] in tiles
    ensures Total(tiles, l) == Total(tiles, Without(l, j)) + tiles[l[j]].size
  {
    if j == 0 {
      assert Without(l, 0) == l[1..];
    } else {
      TotalWithout(tiles, l[1..], j - 1);
      assert Without(l, j)[0] == l[0];
      assert Without(l, j)[1..] == Without(l[1..], j - 1);
    }
  }

  lemma TotalPush(tiles: Tiles, l: seq<nat>, b: nat)
    requires b in tiles
    ensures Total(tiles, [b] + l) == tiles[b].size + Total(tiles, l)
  {
  }

  lemma {:induction false} TotalSwapped(tiles: Tiles, l: seq<nat>, j: nat, last: nat)
    requires j < |l| && l[j] in tiles && last in tiles
    ensures Total(tiles, Swapped(l, j, last)) == Total(tiles, l) - tiles[l[j]].size + tiles[last].size
  {
    if j == 0 {
      assert Swapped(l, 0, last)[1..] == l[1..];
    } else {
      TotalSwapped(tiles, l[1..], j - 1, last);
      assert Swapped(l, j, last)[0] == l[0];
      assert Swapped(l, j, last)[1..] == Swapped(l[1..], j - 1, last);
    }
  }

  lemma {:induction false} SumUpdate(counts: seq<nat>, i: nat, n: nat)
    requires i < |counts|
    ensures Sum(counts[i := n]) == Sum(counts) - counts[i] + n
  {
    if i == 0 {
      assert counts[i := n][1..] == counts[1..];
    } else {
      assert counts[i := n][1..] == counts[1..][i - 1 := n];
      SumUpdate(counts[1..], i - 1, n);
    }
  }

  /** Headers and free lists, with the contents of the lists spelled out. */
  datatype Free = Free(
    tiles: Tiles, links: map<nat, Link>, heads: seq<Option<nat>>, counts: seq<nat>, lists: seq<seq<nat>>)
  {
    /** Every free block is on the list of its size class, once, and on no other, except that
        the blocks of `loose` are on no list and those of `misfit` may be on any. */
    ghost predicate Ok(loose: set<nat>, misfit: set<nat>) {
      && ListsOk(links, heads, lists)
      && |counts| == N_HBLK_FLS + 1
      && (forall b :: Listed(lists, b) <==> b in tiles && tiles[b].free && b !in loose)
      && Classed(misfit)
      && forall i {:trigger lists[i]} :: 0 <= i <= N_HBLK_FLS ==> counts[i] == Total(tiles, lists[i])
    }

    ghost predicate Classed(misfit: set<nat>) {
      forall i, j {:trigger lists[i][j]} :: 0 <= i < |lists| && 0 <= j < |lists[i]| && lists[i][j] in tiles ==>
        lists[i][j] in misfit || FlIndex(tiles[lists[i][j]].size) == i
    }

    ghost function Unlinked(i: nat, j: nat): Free
      requires i < |lists| == |heads| == |counts| && j < |lists[i]| && lists[i][j] in links && lists[i][j] in tiles
      requires links[lists[i][j]].prev.Some? ==> links[lists[i][j]].prev.value in links
      requires links[lists[i][j]].next.Some? ==> links[lists[i][j]].next.value in links
      requires tiles[lists[i][j]].size <= counts[i]
    {
      var b := lists[i][j];
      Free(tiles, UnlinkLinks(links, b), UnlinkHeads(links, heads, b, i),
           counts[i := counts[i] - tiles[b].size], lists[i := Without(lists[i], j)])
    }
  }

  lemma ListedIs(lists: seq<seq<nat>>, i: nat, j: nat)
    requires i < |lists| && j < |lists[i]|
    ensures Listed(lists, lists[i][j])
  {
  }

  lemma OkFacts(f: Free, loose: set<nat>, misfit: set<nat>)
    requires f.Ok(loose, misfit)
    ensures ListsOk(f.links, f.heads, f.lists) && Distinct(f.lists)
    ensures |f.lists| == |f.heads| == |f.counts| == N_HBLK_FLS + 1
    ensures forall b :: Listed(f.lists, b) <==> b in f.tiles && f.tiles[b].free && b !in loose
  {
  }

  lemma ListFacts(f: Free, loose: set<nat>, misfit: set<nat>, a: nat, i: nat, j: nat)
    requires f.Ok(loose, misfit) && a <= N_HBLK_FLS && i <= N_HBLK_FLS && j < |f.lists[i]|
    ensures forall x :: x in f.lists[a] ==> x in f.tiles
    ensures NoRepeats(f.lists[a])
    ensures f.counts[a] == Total(f.tiles, f.lists[a])
    ensures a != i ==> f.lists[i][j] !in f.lists[a]
  {
  }

  lemma WithoutAt(lists: seq<seq<nat>>, i: nat, j: nat, a: nat, c: nat)
    requires i < |lists| && j < |lists[i]| && a < |lists| && c < |lists[i := Without(lists[i], j)][a]|
    ensures var c' := if a == i && c >= j then c + 1 else c;
            c' < |lists[a]| && lists[i := Without(lists[i], j)][a][c] == lists[a][c']
  {
  }

  /** Taking a block off its list makes it loose. */
  lemma UnlinkedOk(f: Free, i: nat, j: nat, loose: set<nat>, misfit: set<nat>)
    requires f.Ok(loose, misfit) && i <= N_HBLK_FLS && j < |f.lists[i]|
    ensures var b := f.lists[i][j];
            && b in f.links && b in f.tiles
            && (f.links[b].prev.Some? ==> f.links[b].prev.value in f.links)
            && (f.links[b].next.Some? ==> f.links[b].next.value in f.links)
            && f.tiles[b].size <= f.counts[i]
            && f.Unlinked(i, j).Ok(loose + {b}, misfit)
  {
    var b := f.lists[i][j];
    ListedIs(f.lists, i, j);
    UnlinkOk(f.links, f.heads, f.lists, i, j);
    WithoutDistinct(f.lists, i, j);
    TotalWithout(f.tiles, f.lists[i], j);
    var g := f.Unlinked(i, j);
    assert g.Classed(misfit) by {
      forall a, c | 0 <= a < |g.lists| && 0 <= c < |g.lists[a]| && g.lists[a][c] in g.tiles
        ensures g.lists[a][c] in misfit || FlIndex(g.tiles[g.lists[a][c]].size) == a
      {
        WithoutAt(f.lists, i, j, a, c);
      }
    }
  }

  /** `f` with block `b` flagged free and pushed on its list. */
  ghost function Added(f: Free, b: nat): Free
    requires b in f.tiles && |f.heads| == |f.lists| == |f.counts| == N_HBLK_FLS + 1
    requires var i := FlIndex(f.tiles[b].size); f.heads[i].Some? ==> f.heads[i].value in f.links
  {
    var i := FlIndex(f.tiles[b].size);
    Free(f.tiles[b := f.tiles[b].(free := true)], PushLinks(f.links, f.heads[i], b), f.heads[i := Some(b)],
         f.counts[i := f.counts[i] + f.tiles[b].size], f.lists[i := [b] + f.lists[i]])
  }

  lemma PushedAt(lists: seq<seq<nat>>, i: nat, b: nat, a: nat, c: nat)
    requires i < |lists| && a < |lists| && c < |lists[i := [b] + lists[i]][a]|
    ensures (a == i && c == 0 && lists[i := [b] + lists[i]][a][c] == b)
         || (var c' := if a == i then c - 1 else c;
             0 <= c' < |lists[a]| && lists[i := [b] + lists[i]][a][c] == lists[a][c'])
  {
  }

  /** Putting a loose block on its list. */
  lemma AddedOk(f: Free, b: nat, loose: set<nat>, misfit: set<nat>)
    requires f.Ok(loose, misfit) && b in f.tiles && (b in loose || !f.tiles[b].free)
    ensures var i := FlIndex(f.tiles[b].size); f.heads[i].Some? ==> f.heads[i].value in f.links
    ensures Added(f, b).Ok(loose - {b}, misfit)
  {
    hide FlIndex;
    hide ListsOk;
    hide Free.Classed;
    hide Listed;
    var i := FlIndex(f.tiles[b].size);
    assert !Listed(f.lists, b);
    PushOk(f.links, f.heads, f.lists, i, b);
    OkShape(f, loose, misfit);
    AddedClassed(f, b, loose, misfit);
    AddedCounts(f, b, loose, misfit);
  }

  lemma AddedCounts(f: Free, b: nat, loose: set<nat>, misfit: set<nat>)
    requires f.Ok(loose, misfit) && b in f.tiles && |f.heads| == |f.lists| == |f.counts| == N_HBLK_FLS + 1
    requires var i := FlIndex(f.tiles[b].size); f.heads[i].Some? ==> f.heads[i].value in f.links
    ensures var g := Added(f, b);
            forall a {:trigger g.lists[a]} :: 0 <= a <= N_HBLK_FLS ==> g.counts[a] == Total(g.tiles, g.lists[a])
  {
    hide FlIndex;
    hide ListsOk;
    hide Free.Classed;
    hide Listed;
    var i := FlIndex(f.tiles[b].size);
    var g := Added(f, b);
    forall a {:trigger g.lists[a]} | 0 <= a <= N_HBLK_FLS
      ensures g.counts[a] == Total(g.tiles, g.lists[a])
    {
      ListTotalFrame(f, g.tiles, a, loose, misfit);
      if a == i {
        TotalPush(g.tiles, f.lists[i], b);
      }
    }
  }

  lemma AddedClassed(f: Free, b: nat, loose: set<nat>, misfit: set<nat>)
    requires f.Ok(loose, misfit) && b in f.tiles && |f.heads| == |f.lists| == |f.counts| == N_HBLK_FLS + 1
    requires var i := FlIndex(f.tiles[b].size); f.heads[i].Some? ==> f.heads[i].value in f.links
    ensures Added(f, b).Classed(misfit)
  {
    var i := FlIndex(f.tiles[b].size);
    var g := Added(f, b);
    forall a, c | 0 <= a < |g.lists| && 0 <= c < |g.lists[a]| && g.lists[a][c] in g.tiles
      ensures g.lists[a][c] in misfit || FlIndex(g.tiles[g.lists[a][c]].size) == a
    {
      PushedAt(f.lists, i, b, a, c);
    }
  }

  /** The total of a list depends only on the sizes of its members. */
  lemma ListTotalFrame(f: Free, to: Tiles, a: nat, loose: set<nat>, misfit: set<nat>)
    requires f.Ok(loose, misfit) && a <= N_HBLK_FLS
    requires forall b :: Listed(f.lists, b) ==> b in to && to[b].size == f.tiles[b].size
    ensures Total(to, f.lists[a]) == f.counts[a]
  {
    forall b | b in f.lists[a]
      ensures b in f.tiles && b in to && f.tiles[b].size == to[b].size
    {
      var j :| 0 <= j < |f.lists[a]| && f.lists[a][j] == b;
      ListedIs(f.lists, a, j);
    }
    TotalFrame(f.tiles, to, f.lists[a]);
  }

  /** Headers of blocks that are on no list may change freely. */
  lemma RetiledOk(f: Free, to: Tiles, loose: set<nat>, loose': set<nat>, misfit: set<nat>)
    requires f.Ok(loose, misfit)
    requires forall b :: Listed(f.lists, b) ==> b in to && to[b].free && to[b].size == f.tiles[b].size && b !in loose'
    requires forall b :: b in to && to[b].free && b !in loose' ==> Listed(f.lists, b)
    ensures f.(tiles := to).Ok(loose', misfit)
  {
    var g := f.(tiles := to);
    assert g.Classed(misfit) by {
      forall a, c | 0 <= a < |g.lists| && 0 <= c < |g.lists[a]| && g.lists[a][c] in g.tiles
        ensures g.lists[a][c] in misfit || FlIndex(g.tiles[g.lists[a][c]].size) == a
      {
        ListedIs(f.lists, a, c);
      }
    }
    forall a {:trigger g.lists[a]} | 0 <= a <= N_HBLK_FLS
      ensures g.counts[a] == Total(to, g.lists[a])
    {
      ListTotalFrame(f, to, a, loose, misfit);
    }
  }

  /** `f` after GC_split_block put `last`, `k` units into block `b`, in the place of `b` on
      list `i`; `b` keeps its first `k` units and is on no list. */
  ghost function Split(f: Free, i: nat, j: nat, k: nat, front: Tile, back: Tile): Free
    requires i < |f.lists| == |f.heads| == |f.counts| && j < |f.lists[i]| && f.lists[i][j] in f.links
    requires f.links[f.lists[i][j]].prev.Some? ==> f.links[f.lists[i][j]].prev.value in f.links
    requires f.links[f.lists[i][j]].next.Some? ==> f.links[f.lists[i][j]].next.value in f.links
    requires k <= f.counts[i]
  {
    var b := f.lists[i][j];
    Free(Cut(f.tiles, b, k, front, back), ReplaceLinks(f.links, b, b + k), ReplaceHeads(f.links, f.heads, b, b + k, i),
         f.counts[i := f.counts[i] - k], f.lists[i := Swapped(f.lists[i], j, b + k)])
  }

  lemma SwappedAt(lists: seq<seq<nat>>, i: nat, j: nat, last: nat, a: nat, c: nat)
    requires i < |lists| && j < |lists[i]| && a < |lists| && c < |lists[i := Swapped(lists[i], j, last)][a]|
    ensures c < |lists[a]|
    ensures lists[i := Swapped(lists[i], j, last)][a][c] == if a == i && c == j then last else lists[a][c]
  {
  }

  /** What is common to the lemmas about splitting block `j` of list `i` after `k` units. */
  ghost predicate CanSplit(f: Free, i: nat, j: nat, k: nat, front: Tile, back: Tile) {
    && |f.lists| == |f.heads| == |f.counts| == N_HBLK_FLS + 1
    && f.Ok({}, {}) && i <= N_HBLK_FLS && j < |f.lists[i]| && f.lists[i][j] in f.tiles
    && 0 < k < f.tiles[f.lists[i][j]].size && f.lists[i][j] + k !in f.tiles
    && front.size == k && back.size == f.tiles[f.lists[i][j]].size - k && front.free && back.free
  }

  /** The free blocks after a cut are the listed ones with `b` replaced by its back part. */
  lemma SplitListed(tiles: Tiles, lists: seq<seq<nat>>, i: nat, j: nat, b: nat, k: nat, front: Tile, back: Tile, x: nat)
    requires Distinct(lists) && i < |lists| && j < |lists[i]| && lists[i][j] == b && k > 0 && back.free
    requires forall y :: Listed(lists, y) <==> y in tiles && tiles[y].free
    requires b + k !in tiles
    ensures Listed(lists[i := Swapped(lists[i], j, b + k)], x) <==>
            (var to := Cut(tiles, b, k, front, back); x in to && to[x].free && x !in {b})
  {
    ReplaceDistinct(lists, i, j, b + k);
    hide Listed;
    hide Distinct;
  }

  /** A list after `b`, its member `j`, was replaced by its back part. */
  lemma SplitTotal(tiles: Tiles, l: seq<nat>, j: nat, b: nat, k: nat, front: Tile, back: Tile)
    requires j < |l| && l[j] == b && b in tiles && 0 < k < tiles[b].size && b + k !in tiles
    requires NoRepeats(l) && forall x :: x in l ==> x in tiles
    requires back.size == tiles[b].size - k
    ensures Total(Cut(tiles, b, k, front, back), Swapped(l, j, b + k)) == Total(tiles, l) - k
  {
    // Sizes as they were, with a header for the back part that takes no part yet.
    var mid := tiles[b + k := back];
    var to := Cut(tiles, b, k, front, back);
    TotalFrame(tiles, mid, l);
    TotalSwapped(mid, l, j, b + k);
    TotalFrame(mid, to, Swapped(l, j, b + k));
  }

  /** A list that does not hold `b`. */
  lemma SplitOther(tiles: Tiles, l: seq<nat>, b: nat, k: nat, front: Tile, back: Tile)
    requires b !in l && b + k !in tiles && forall x :: x in l ==> x in tiles
    ensures Total(Cut(tiles, b, k, front, back), l) == Total(tiles, l)
  {
    TotalFrame(tiles, Cut(tiles, b, k, front, back), l);
  }

  lemma SplitTotals(f: Free, i: nat, j: nat, k: nat, front: Tile, back: Tile, a: nat)
    requires CanSplit(f, i, j, k, front, back) && a <= N_HBLK_FLS
    ensures Total(Cut(f.tiles, f.lists[i][j], k, front, back),
                  f.lists[i := Swapped(f.lists[i], j, f.lists[i][j] + k)][a])
            == if a == i then f.counts[a] - k else f.counts[a]
  {
    hide Free.Ok;
    ListFacts(f, {}, {}, a, i, j);
    if a == i {
      SplitTotal(f.tiles, f.lists[i], j, f.lists[i][j], k, front, back);
    } else {
      SplitOther(f.tiles, f.lists[a], f.lists[i][j], k, front, back);
    }
  }

  lemma SplitClassed(f: Free, i: nat, j: nat, k: nat, front: Tile, back: Tile, a: nat, c: nat)
    requires CanSplit(f, i, j, k, front, back) && a <= N_HBLK_FLS && c < |f.lists[a]| && !(a == i && c == j)
    ensures f.lists[a][c] != f.lists[i][j] && f.lists[a][c] in f.tiles && FlIndex(f.tiles[f.lists[a][c]].size) == a
  {
    ListedIs(f.lists, a, c);
    assert f.lists[a][c] == f.lists[i][j] ==> a == i && c == j;
  }

  lemma SplitOk(f: Free, i: nat, j: nat, k: nat, front: Tile, back: Tile)
    requires CanSplit(f, i, j, k, front, back)
    ensures var b := f.lists[i][j];
            && b in f.links
            && (f.links[b].prev.Some? ==> f.links[b].prev.value in f.links)
            && (f.links[b].next.Some? ==> f.links[b].next.value in f.links)
            && k <= f.counts[i]
            && Split(f, i, j, k, front, back).Ok({b}, {b + k})
  {
    hide Listed;
    hide ListsOk;
    hide Distinct;
    OkFacts(f, {}, {});
    var b, last := f.lists[i][j], f.lists[i][j] + k;
    ReplaceOk(f.links, f.heads, f.lists, i, j, last);
    TotalWithout(f.tiles, f.lists[i], j);
    var g := Split(f, i, j, k, front, back);
    forall x: nat
      ensures Listed(g.lists, x) <==> x in g.tiles && g.tiles[x].free && x !in {b}
    {
      SplitListed(f.tiles, f.lists, i, j, b, k, front, back, x);
    }
    forall a, c | 0 <= a < |g.lists| && 0 <= c < |g.lists[a]| && g.lists[a][c] in g.tiles
      ensures g.lists[a][c] in {last} || FlIndex(g.tiles[g.lists[a][c]].size) == a
    {
      SwappedAt(f.lists, i, j, last, a, c);
      if !(a == i && c == j) {
        SplitClassed(f, i, j, k, front, back, a, c);
      }
    }
    forall a {:trigger g.lists[a]} | 0 <= a <= N_HBLK_FLS
      ensures g.counts[a] == Total(g.tiles, g.lists[a])
    {
      SplitTotals(f, i, j, k, front, back, a);
    }
  }

  lemma GeoFree(tiles: Tiles, region: set<nat>, pages: set<nat>, runs: int, b: nat)
    requires GeoOk(tiles, region, pages, runs) && b in tiles
    ensures GeoOk(tiles[b := tiles[b].(free := true)], region, pages, runs)
  {
    GeoReflag(tiles, region, pages, runs, b, tiles[b].(free := true));
  }

  lemma PrevIs(tiles: Tiles, region: set<nat>, pages: set<nat>, runs: int, b: nat, prev: nat)
    requires GeoOk(tiles, region, pages, runs) && prev in tiles && prev + tiles[prev].size == b
    ensures PrevUnmapped(tiles, b) <==> !tiles[prev].mapped
  {
  }

  lemma FlippedOk(f: Free, b: nat, loose: set<nat>, misfit: set<nat>)
    requires f.Ok(loose, misfit) && b in f.tiles
    ensures f.(tiles := Flip(f.tiles, b)).Ok(loose, misfit)
  {
    RetiledOk(f, Flip(f.tiles, b), loose, loose, misfit);
  }

  lemma OnItsList(f: Free, loose: set<nat>, b: nat)
    requires f.Ok(loose, {}) && b in f.tiles && f.tiles[b].free && b !in loose
    ensures |f.lists| == N_HBLK_FLS + 1 && b in f.lists[FlIndex(f.tiles[b].size)]
  {
    assert Listed(f.lists, b);
    var i, j :| 0 <= i < |f.lists| && 0 <= j < |f.lists[i]| && f.lists[i][j] == b;
    assert FlIndex(f.tiles[f.lists[i][j]].size) == i;
  }

  function JoinedTile(tiles: Tiles, b: nat): Tile
    requires b in tiles && b + tiles[b].size in tiles
  {
    Tile(tiles[b].size + tiles[b + tiles[b].size].size, true, tiles[b].mapped)
  }

  function JoinedFree(tiles: Tiles, b: nat): Tiles
    requires b in tiles && b + tiles[b].size in tiles
  {
    Joined(tiles, b, JoinedTile(tiles, b))
  }

  lemma JoinedOk(f: Free, b: nat)
    requires b in f.tiles && b + f.tiles[b].size in f.tiles
    requires f.Ok({b, b + f.tiles[b].size}, {})
    ensures f.(tiles := JoinedFree(f.tiles, b)).Ok({b}, {})
  {
    RetiledOk(f, JoinedFree(f.tiles, b), {b, b + f.tiles[b].size}, {b}, {});
  }

  /** BLOCKS_MERGE_OVERFLOW and the other conditions for coalescing with the successor. */
  predicate MergesNext(tiles: Tiles, b: nat)
    requires b in tiles
  {
    var n := b + tiles[b].size;
    n in tiles && tiles[n].free && tiles[n].mapped && tiles[b].size + tiles[n].size < MERGE_LIMIT
  }

  function WithNext(tiles: Tiles, b: nat): Tiles
    requires b in tiles
  {
    if MergesNext(tiles, b) then JoinedFree(tiles, b) else tiles
  }

  predicate MergesPrev(tiles: Tiles, b: nat, prev: Option<nat>)
    requires b in tiles
  {
    prev.Some? && prev.value in tiles && prev.value + tiles[prev.value].size == b
    && tiles[prev.value].mapped && tiles[prev.value].size + tiles[b].size < MERGE_LIMIT
  }

  function StartWithPrev(tiles: Tiles, b: nat, prev: Option<nat>): nat
    requires b in tiles
  {
    if MergesPrev(tiles, b, prev) then prev.value else b
  }

  function WithPrev(tiles: Tiles, b: nat, prev: Option<nat>): Tiles
    requires b in tiles
  {
    if MergesPrev(tiles, b, prev) then JoinedFree(tiles, prev.value) else tiles
  }

  /** `prev` is the free block that ends at `b`, if there is one. */
  ghost predicate EndsFree(tiles: Tiles, b: nat, prev: Option<nat>) {
    if prev.Some? then prev.value in tiles && tiles[prev.value].free && prev.value + tiles[prev.value].size == b
    else forall c :: c in tiles && tiles[c].free ==> c + tiles[c].size != b
  }

  /** The blocks after `b` was freed and coalesced with its neighbours. */
  function Freed(tiles: Tiles, b: nat, prev: Option<nat>): Tiles
    requires b in tiles
  {
    WithPrev(WithNext(tiles[b := tiles[b].(free := true)], b), b, prev)
  }

  lemma SizePositive(tiles: Tiles, region: set<nat>, pages: set<nat>, runs: int)
    requires GeoOk(tiles, region, pages, runs)
    ensures forall b :: b in tiles ==> tiles[b].size >= 1
    ensures forall b :: b in tiles && !tiles[b].free ==> tiles[b].mapped
  {
  }

  lemma FreedLoose(f: Free, region: set<nat>, pages: set<nat>, runs: int, b: nat)
    requires f.Ok({}, {}) && GeoOk(f.tiles, region, pages, runs) && b in f.tiles && !f.tiles[b].free
    ensures f.(tiles := f.tiles[b := f.tiles[b].(free := true)]).Ok({b}, {})
    ensures GeoOk(f.tiles[b := f.tiles[b].(free := true)], region, pages, runs)
    ensures f.tiles[b].mapped
  {
    GeoFree(f.tiles, region, pages, runs, b);
    RetiledOk(f, f.tiles[b := f.tiles[b].(free := true)], {}, {b}, {});
  }

  lemma PrevUnaffected(tiles: Tiles, region: set<nat>, pages: set<nat>, runs: int, b: nat, prev: Option<nat>)
    requires GeoOk(tiles, region, pages, runs) && b in tiles
    requires EndsFree(tiles[b := tiles[b].(free := true)], b, prev)
    ensures EndsFree(tiles, b, prev)
    ensures prev.Some? ==> prev.value < b
  {
    var to := tiles[b := tiles[b].(free := true)];
    forall c | c in tiles && tiles[c].free && prev.None?
      ensures c + tiles[c].size != b
    {
      assert c in to;
    }
  }

  lemma NeighboursIn(tiles: Tiles, region: set<nat>, b: nat, x: nat)
    requires Tiled(tiles, region) && b in tiles && b + tiles[b].size in tiles
    requires b <= x < b + tiles[b].size + tiles[b + tiles[b].size].size
    ensures x in region
  {
    assert In(tiles, if x < b + tiles[b].size then b else b + tiles[b].size, x);
  }

  /** Two neighbours together are no larger than the heap. */
  lemma NeighboursFit(tiles: Tiles, region: set<nat>, b: nat)
    requires Tiled(tiles, region) && b in tiles && b + tiles[b].size in tiles
    ensures tiles[b].size + tiles[b + tiles[b].size].size <= |region|
  {
    hide Tiled;
    var total := tiles[b].size + tiles[b + tiles[b].size].size;
    forall x: nat | x in Span(b, total)
      ensures x in region
    {
      NeighboursIn(tiles, region, b, x);
    }
    SpanSize(b, total);
    SubsetSize(Span(b, total), region);
  }

  /** Joining `b` with its successor, which touches nothing, leaves only what ends at `b`. */
  lemma JoinTouching(tiles: Tiles, region: set<nat>, b: nat, x: nat)
    requires Tiled(tiles, region) && b in tiles && tiles[b].free
    requires b + tiles[b].size in tiles && tiles[b + tiles[b].size].free
    requires tiles[b + tiles[b].size].mapped && !Touching(tiles, b + tiles[b].size)
    requires Touching(JoinedFree(tiles, b), x)
    ensures x != b && Touching(tiles, x)
  {
  }

  lemma NextCoalesced(tiles: Tiles, region: set<nat>, b: nat)
    requires Tiled(tiles, region) && |region| < MERGE_LIMIT && b in tiles && tiles[b].free && tiles[b].mapped
    requires forall x: nat :: Touching(tiles, x) ==> x == b || x + tiles[x].size == b
    ensures forall x: nat :: Touching(WithNext(tiles, b), x) ==> x in tiles && x != b && x + tiles[x].size == b
    ensures Tiled(WithNext(tiles, b), region)
  {
    var n := b + tiles[b].size;
    assert tiles[b].size >= 1 && !(b + tiles[b].size == b);
    if n in tiles {
      NeighboursFit(tiles, region, b);
      assert tiles[n].size >= 1 && !Touching(tiles, n);
    }
    if MergesNext(tiles, b) {
      JoinTiled(tiles, region, b, JoinedTile(tiles, b));
      forall x: nat | Touching(JoinedFree(tiles, b), x)
        ensures x in tiles && x != b && x + tiles[x].size == b
      {
        JoinTouching(tiles, region, b, x);
      }
    }
    hide Tiled;
  }

  lemma EndsFreeAfter(tiles: Tiles, region: set<nat>, b: nat, prev: Option<nat>)
    requires Tiled(tiles, region) && b in tiles && EndsFree(tiles, b, prev)
    ensures EndsFree(WithNext(tiles[b := tiles[b].(free := true)], b), b, prev)
  {
  }

  lemma PrevCoalesced(tiles: Tiles, region: set<nat>, b: nat, prev: Option<nat>)
    requires Tiled(tiles, region) && |region| < MERGE_LIMIT && b in tiles && tiles[b].free && tiles[b].mapped
    requires EndsFree(tiles, b, prev)
    requires forall x: nat :: Touching(tiles, x) ==> x + tiles[x].size == b
    ensures Coalesced(WithPrev(tiles, b, prev))
  {
    if prev.Some? {
      var p := prev.value;
      NeighboursFit(tiles, region, p);
      assert !Touching(tiles, b);
      forall x: nat
        ensures !Touching(WithPrev(tiles, b, prev), x)
      {
        if x in tiles && x + tiles[x].size == b {
          OneEndsAt(tiles, region, x, p);
        }
        assert !Touching(tiles, x) || x == p;
      }
    }
  }

  /** Freeing a block keeps all neighbouring free blocks coalesced, except where one of them
      is unmapped. */
  lemma FreedCoalesced(tiles: Tiles, region: set<nat>, b: nat, prev: Option<nat>)
    requires Tiled(tiles, region) && |region| < MERGE_LIMIT && b in tiles && !tiles[b].free && tiles[b].mapped
    requires EndsFree(tiles, b, prev) && Coalesced(tiles)
    ensures Coalesced(Freed(tiles, b, prev))
  {
    var t := tiles[b].(free := true);
    ReflagTiled(tiles, region, b, t);
    var one := tiles[b := t];
    forall x: nat | Touching(one, x)
      ensures x == b || x + one[x].size == b
    {
      assert !Touching(tiles, x);
    }
    NextCoalesced(one, region, b);
    EndsFreeAfter(tiles, region, b, prev);
    hide Tiled;
    hide Touching;
    hide EndsFree;
    PrevCoalesced(WithNext(one, b), region, b, prev);
  }

  lemma FreedTidy(tiles: Tiles, region: set<nat>, b: nat, prev: Option<nat>)
    requires Tiled(tiles, region) && |region| < MERGE_LIMIT && b in tiles && !tiles[b].free
    requires EndsFree(tiles, b, prev) && Tidy(tiles)
    ensures Tidy(Freed(tiles, b, prev))
  {
    FreedCoalesced(tiles, region, b, prev);
  }

  function CutFreeBlock(tiles: Tiles, b: nat, k: nat): Tiles
    requires b in tiles && k <= tiles[b].size
  {
    Cut(tiles, b, k, Tile(k, true, true), Tile(tiles[b].size - k, true, true))
  }

  /** A block that is on no list is on no wrong one. */
  lemma LooseFits(f: Free, h: nat)
    requires f.Ok({h}, {h})
    ensures f.Ok({h}, {})
  {
  }

  lemma WholeTaken(f: Free, region: set<nat>, pages: set<nat>, runs: int, h: nat)
    requires f.Ok({h}, {h}) && GeoOk(f.tiles, region, pages, runs) && h in f.tiles && f.tiles[h].mapped
    ensures var to := f.tiles[h := Tile(f.tiles[h].size, false, true)];
            f.(tiles := to).Ok({}, {}) && GeoOk(to, region, pages, runs)
  {
    LooseFits(f, h);
    var t := Tile(f.tiles[h].size, false, true);
    GeoReflag(f.tiles, region, pages, runs, h, t);
    RetiledOk(f, f.tiles[h := t], {h}, {}, {});
  }

  lemma PartTaken(f: Free, region: set<nat>, pages: set<nat>, runs: int, h: nat, need: nat)
    requires f.Ok({h}, {h}) && GeoOk(f.tiles, region, pages, runs) && h in f.tiles && f.tiles[h].mapped
    requires 0 < need < f.tiles[h].size
    ensures var to := Cut(f.tiles, h, need, Tile(need, false, true), Tile(f.tiles[h].size - need, false, true));
            f.(tiles := to).Ok({}, {}) && GeoOk(to, region, pages, runs)
  {
    LooseFits(f, h);
    var front, back := Tile(need, false, true), Tile(f.tiles[h].size - need, false, true);
    GeoCut(f.tiles, region, pages, runs, h, need, front, back);
    RetiledOk(f, Cut(f.tiles, h, need, front, back), {h}, {}, {});
  }

  /** Replacing a mapped block by its back part on its list. */
  lemma SplitLoose(f: Free, region: set<nat>, pages: set<nat>, runs: int, i: nat, j: nat, k: nat)
    requires f.Ok({}, {}) && GeoOk(f.tiles, region, pages, runs) && i <= N_HBLK_FLS
    requires i < |f.lists| && j < |f.lists[i]| && f.lists[i][j] in f.tiles
    requires f.tiles[f.lists[i][j]].free && f.tiles[f.lists[i][j]].mapped && 0 < k < f.tiles[f.lists[i][j]].size
    ensures var b := f.lists[i][j];
            && |f.lists| == |f.heads| == |f.counts|
            && b in f.links && b + k !in f.tiles
            && (f.links[b].prev.Some? ==> f.links[b].prev.value in f.links)
            && (f.links[b].next.Some? ==> f.links[b].next.value in f.links)
            && k <= f.counts[i]
            && Split(f, i, j, k, Tile(k, true, true), Tile(f.tiles[b].size - k, true, true)).Ok({b}, {b + k})
            && GeoOk(CutFreeBlock(f.tiles, b, k), region, pages, runs)
  {
    hide Free.Ok;
    hide GeoOk;
    hide Split;
    var b := f.lists[i][j];
    var front, back := Tile(k, true, true), Tile(f.tiles[b].size - k, true, true);
    OkShape(f, {}, {});
    GeoCut(f.tiles, region, pages, runs, b, k, front, back);
    SplitOk(f, i, j, k, front, back);
  }

  lemma OkShape(f: Free, loose: set<nat>, misfit: set<nat>)
    requires f.Ok(loose, misfit)
    ensures |f.lists| == |f.heads| == |f.counts| == N_HBLK_FLS + 1
  {
  }

  lemma MayMisfit(f: Free, loose: set<nat>, b: nat)
    requires f.Ok(loose, {})
    ensures f.Ok(loose, {b})
  {
  }

  lemma GeoTiled(tiles: Tiles, region: set<nat>, pages: set<nat>, runs: int)
    requires GeoOk(tiles, region, pages, runs)
    ensures Tiled(tiles, region)
  {
  }

  /** The blocks after `b` was cut into blocks of one unit up to `h`, where the rest starts. */
  function Shredding(tiles: Tiles, b: nat, h: nat): Tiles
    requires b in tiles && b <= h < b + tiles[b].size
  {
    Shredded(tiles, b, h)[h := Tile(b + tiles[b].size - h, false, true)]
  }

  lemma ShreddedNone(tiles: Tiles, b: nat)
    requires b in tiles && tiles[b].size > 0 && !tiles[b].free && tiles[b].mapped
    ensures Shredding(tiles, b, b) == tiles
  {
  }

  lemma ShredHead(t0: Tiles, b: nat, h: nat)
    requires b in t0 && b <= h < b + t0[b].size
    ensures h in Shredding(t0, b, h) && Shredding(t0, b, h)[h] == Tile(b + t0[b].size - h, false, true)
  {
  }

  lemma ShredEnd(t0: Tiles, b: nat)
    requires b in t0 && t0[b].size > 0
    ensures Shredding(t0, b, b + t0[b].size - 1) == Shredded(t0, b, b + t0[b].size)
  {
  }

  lemma ShredStep(t0: Tiles, b: nat, h: nat)
    requires b in t0 && b <= h && h + 1 < b + t0[b].size
    ensures Cut(Shredding(t0, b, h), h, 1, Tile(1, false, true), Tile(b + t0[b].size - h - 1, false, true))
            == Shredding(t0, b, h + 1)
  {
  }

  /** A block in use cut into two. */
  lemma CutUsed(f: Free, region: set<nat>, pages: set<nat>, runs: int, h: nat, front: Tile, back: Tile)
    requires f.Ok({}, {}) && GeoOk(f.tiles, region, pages, runs) && h in f.tiles && !f.tiles[h].free
    requires 0 < front.size < f.tiles[h].size && back.size == f.tiles[h].size - front.size
    requires !front.free && !back.free && front.mapped && back.mapped
    ensures var to := Cut(f.tiles, h, front.size, front, back);
            f.(tiles := to).Ok({}, {}) && GeoOk(to, region, pages, runs)
  {
    hide GeoOk;
    SizePositive(f.tiles, region, pages, runs);
    GeoCut(f.tiles, region, pages, runs, h, front.size, front, back);
    RetiledOk(f, Cut(f.tiles, h, front.size, front, back), {}, {}, {});
  }

  /** The block at position `j` of list `i`, or the end of the list. */
  ghost function At(lists: seq<seq<nat>>, i: nat, j: nat): Option<nat> {
    if i < |lists| && j < |lists[i]| then Some(lists[i][j]) else None
  }

  lemma HeadIs(f: Free, i: nat)
    requires f.Ok({}, {}) && i <= N_HBLK_FLS
    ensures i < |f.heads| && f.heads[i] == At(f.lists, i, 0)
  {
  }

  lemma LinkIs(f: Free, i: nat, j: nat)
    requires f.Ok({}, {}) && i <= N_HBLK_FLS && i < |f.lists| && j < |f.lists[i]|
    ensures var b := f.lists[i][j];
            && b in f.links && f.links[b].next == At(f.lists, i, j + 1)
            && f.links[b].prev == (if j == 0 then None else At(f.lists, i, j - 1))
            && b in f.tiles && f.tiles[b].free
  {
  }

  ghost predicate SuitsAt(t: Tables, q: Request, mode: Splitting, tiles: Tiles, b: nat)
    requires q.align > 0
  {
    b in tiles && q.Suits(t, mode, b, tiles[b].size)
  }

  ghost predicate PlacedAt(t: Tables, q: Request, mode: Splitting, tiles: Tiles, b: nat)
    requires q.align > 0
  {
    b in tiles && q.Placed(t, mode, b, tiles[b].size)
  }

  /** Some block of the list is passed over because it would have to be mapped again and split. */
  ghost predicate Spares(t: Tables, q: Request, mode: Splitting, tiles: Tiles, l: seq<nat>)
    requires q.align > 0
  {
    exists b :: b in l && b in tiles && Spared(t, q, mode, b, tiles[b].size, tiles[b].mapped)
  }

  /** If a block before position `j` would have done, the one at `j` will. */
  ghost predicate NoneMissed(t: Tables, q: Request, mode: Splitting, tiles: Tiles, l: seq<nat>, j: nat)
    requires q.align > 0
  {
    !Spares(t, q, mode, tiles, l) && (exists m :: 0 <= m < j && m < |l| && SuitsAt(t, q, mode, tiles, l[m])) ==>
      j < |l| && PlacedAt(t, q, mode, tiles, l[j])
  }

  ghost predicate NoneSuits(t: Tables, q: Request, mode: Splitting, tiles: Tiles, l: seq<nat>)
    requires q.align > 0
  {
    forall b :: b in l ==> !SuitsAt(t, q, mode, tiles, b)
  }

  lemma SkipMissed(t: Tables, q: Request, mode: Splitting, tiles: Tiles, l: seq<nat>, j: nat)
    requires q.align > 0 && j < |l| && l[j] in tiles && NoneMissed(t, q, mode, tiles, l, j)
    requires q.Suits(t, mode, l[j], tiles[l[j]].size)
             && !Spared(t, q, mode, l[j], tiles[l[j]].size, tiles[l[j]].mapped) ==>
               j + 1 < |l| && l[j + 1] in tiles && q.Placed(t, mode, l[j + 1], tiles[l[j + 1]].size)
    ensures NoneMissed(t, q, mode, tiles, l, j + 1)
  {
    hide Spared;
    assert l[j] in l;
  }

  /** A block without any place that is not black-listed is passed over or dropped. */
  lemma BarredMissed(t: Tables, q: Request, mode: Splitting, tiles: Tiles, l: seq<nat>, j: nat)
    requires q.align > 0 && j < |l| && l[j] in tiles && NoneMissed(t, q, mode, tiles, l, j)
    requires !q.HasPlace(t, l[j], tiles[l[j]].size)
    ensures !q.Punts(tiles[l[j]].size) ==> NoneMissed(t, q, mode, tiles, l, j + 1)
    ensures !Spares(t, q, mode, tiles, l) ==> NoneSuits(t, q, mode, tiles, l[..j])
    ensures !Spared(t, q, mode, l[j], tiles[l[j]].size, tiles[l[j]].mapped)
  {
  }

  lemma DropMissed(t: Tables, q: Request, mode: Splitting, tiles: Tiles, to: Tiles, l: seq<nat>, j: nat)
    requires q.align > 0 && j < |l| && NoRepeats(l) && l[j] in tiles
    requires !Spares(t, q, mode, tiles, l) ==> NoneSuits(t, q, mode, tiles, l[..j])
    requires !Spared(t, q, mode, l[j], tiles[l[j]].size, tiles[l[j]].mapped)
    requires forall b :: b in l && b != l[j] ==> b in tiles && b in to && to[b] == tiles[b]
    ensures NoneMissed(t, q, mode, to, Without(l, j), j)
  {
    hide Request.Suits;
    hide Request.Placed;
    hide Spared;
    if Spares(t, q, mode, tiles, l) {
      var b :| b in l && b in tiles && Spared(t, q, mode, b, tiles[b].size, tiles[b].mapped);
      var m :| 0 <= m < |l| && l[m] == b;
      assert Without(l, j)[if m < j then m else m - 1] == b;
    }
    forall m | !Spares(t, q, mode, tiles, l) && 0 <= m < j
      ensures !SuitsAt(t, q, mode, to, Without(l, j)[m])
    {
      assert Without(l, j)[m] == l[..j][m] == l[m];
      assert l[m] in l[..j] && l[m] in l && l[m] != l[j] && to[l[m]] == tiles[l[m]];
    }
  }

  lemma StartOfList(t: Tables, q: Request, mode: Splitting, tiles: Tiles, l: seq<nat>)
    requires q.align > 0
    ensures NoneMissed(t, q, mode, tiles, l, 0)
  {
  }

  lemma PuntPlace(t: Tables, q: Request, mode: Splitting, b: nat, size: nat)
    requires q.align > 0 && q.FitsIn(mode, b, size) && q.Punts(size)
    ensures q.PlaceOk(t, b, size, b + Pad(b, q.align))
  {
  }

  lemma EndOfList(t: Tables, q: Request, mode: Splitting, tiles: Tiles, l: seq<nat>, j: nat)
    requires q.align > 0 && j >= |l| && NoneMissed(t, q, mode, tiles, l, j)
    ensures Spares(t, q, mode, tiles, l) || NoneSuits(t, q, mode, tiles, l)
  {
  }

  /** Some free block of size class `k` is passed over so as not to map and split it. */
  ghost predicate SparedIn(t: Tables, q: Request, mode: Splitting, tiles: Tiles, k: nat)
    requires q.align > 0
  {
    exists c :: c in tiles && tiles[c].free && FlIndex(tiles[c].size) == k
                && Spared(t, q, mode, c, tiles[c].size, tiles[c].mapped)
  }

  /** No free block of size class `k` will do, unless one of them was passed over. */
  ghost predicate ClassDone(t: Tables, q: Request, mode: Splitting, tiles: Tiles, k: nat)
    requires q.align > 0
  {
    forall b :: b in tiles && tiles[b].free && FlIndex(tiles[b].size) == k ==>
      !q.Suits(t, mode, b, tiles[b].size) || SparedIn(t, q, mode, tiles, k)
  }

  /** So it is for all classes from that of the request up to, not including, `i`. */
  ghost predicate Exhausted(t: Tables, q: Request, mode: Splitting, tiles: Tiles, i: nat)
    requires q.align > 0
  {
    forall k: nat :: FlIndex(q.need) <= k < i ==> ClassDone(t, q, mode, tiles, k)
  }

  /** Free blocks of other classes than `i` are as they were. */
  ghost predicate OthersKept(t0: Tiles, tiles: Tiles, i: nat) {
    forall c :: c in t0 && t0[c].free && FlIndex(t0[c].size) != i ==> c in tiles && tiles[c] == t0[c]
  }

  lemma OthersTrans(t0: Tiles, t1: Tiles, t2: Tiles, i: nat)
    requires OthersKept(t0, t1, i) && OthersKept(t1, t2, i)
    ensures OthersKept(t0, t2, i)
  {
  }

  lemma OthersDropped(f: Free, to: Tiles, i: nat, j: nat)
    requires f.Ok({}, {}) && i <= N_HBLK_FLS && i < |f.lists| && j < |f.lists[i]|
    requires forall c :: c in f.tiles && c != f.lists[i][j] ==> c in to && to[c] == f.tiles[c]
    ensures OthersKept(f.tiles, to, i)
  {
    ListedClass(f, i, j);
  }

  /** A list that was searched to its end holds all blocks of its class. */
  lemma ListDone(f: Free, t: Tables, q: Request, mode: Splitting, i: nat)
    requires f.Ok({}, {}) && q.Valid() && i <= N_HBLK_FLS && i < |f.lists|
    requires Spares(t, q, mode, f.tiles, f.lists[i]) || NoneSuits(t, q, mode, f.tiles, f.lists[i])
    ensures ClassDone(t, q, mode, f.tiles, i)
  {
    hide Request.Suits;
    hide Spared;
    if Spares(t, q, mode, f.tiles, f.lists[i]) {
      var c :| c in f.lists[i] && c in f.tiles && Spared(t, q, mode, c, f.tiles[c].size, f.tiles[c].mapped);
      ListedBlock(f, i, c);
    } else {
      forall b | b in f.tiles && f.tiles[b].free && FlIndex(f.tiles[b].size) == i
        ensures !q.Suits(t, mode, b, f.tiles[b].size)
      {
        OnItsList(f, {}, b);
        assert !SuitsAt(t, q, mode, f.tiles, b);
      }
    }
  }

  lemma ListedBlock(f: Free, i: nat, c: nat)
    requires f.Ok({}, {}) && i <= N_HBLK_FLS && i < |f.lists| && c in f.lists[i]
    ensures c in f.tiles && f.tiles[c].free && FlIndex(f.tiles[c].size) == i
  {
    var j :| 0 <= j < |f.lists[i]| && f.lists[i][j] == c;
    ListedClass(f, i, j);
    ListedIs(f.lists, i, j);
  }

  /** Drops on list `i` do not matter to other classes. */
  lemma ClassStays(t: Tables, q: Request, mode: Splitting, t0: Tiles, tiles: Tiles, i: nat, k: nat)
    requires q.align > 0 && ClassDone(t, q, mode, t0, k) && k != i && Fewer(t0, tiles) && OthersKept(t0, tiles, i)
    ensures ClassDone(t, q, mode, tiles, k)
  {
    hide Request.Suits;
    hide Spared;
    if SparedIn(t, q, mode, t0, k) {
      var c :| c in t0 && t0[c].free && FlIndex(t0[c].size) == k
               && Spared(t, q, mode, c, t0[c].size, t0[c].mapped);
      assert c in tiles && tiles[c] == t0[c];
      assert SparedIn(t, q, mode, tiles, k);
    }
  }

  lemma ExhaustedStays(t: Tables, q: Request, mode: Splitting, t0: Tiles, tiles: Tiles, i: nat)
    requires q.align > 0 && Exhausted(t, q, mode, t0, i) && Fewer(t0, tiles) && OthersKept(t0, tiles, i)
    ensures Exhausted(t, q, mode, tiles, i)
  {
    hide ClassDone;
    forall k: nat | FlIndex(q.need) <= k < i
      ensures ClassDone(t, q, mode, tiles, k)
    {
      ClassStays(t, q, mode, t0, tiles, i, k);
    }
  }

  lemma ExhaustedNone(t: Tables, q: Request, mode: Splitting, tiles: Tiles)
    requires q.align > 0
    ensures Exhausted(t, q, mode, tiles, FlIndex(q.need))
  {
  }

  lemma ExhaustedLess(t: Tables, q: Request, mode: Splitting, tiles: Tiles, i: nat, j: nat)
    requires q.align > 0 && Exhausted(t, q, mode, tiles, j) && i <= j
    ensures Exhausted(t, q, mode, tiles, i)
  {
  }

  lemma ExhaustedNext(t: Tables, q: Request, mode: Splitting, tiles: Tiles, i: nat)
    requires q.align > 0 && Exhausted(t, q, mode, tiles, i) && ClassDone(t, q, mode, tiles, i)
    ensures Exhausted(t, q, mode, tiles, i + 1)
  {
    hide ClassDone;
  }

  lemma ExactSize(f: Free, q: Request, start: nat, b: nat)
    requires f.Ok({}, {}) && start == FlIndex(q.need) < UNIQUE_THRESHOLD && start < |f.lists|
    requires b in f.lists[start] && b in f.tiles
    ensures f.tiles[b].size == q.need
  {
    hide ListsOk;
    var j :| 0 <= j < |f.lists[start]| && f.lists[start][j] == b;
    assert FlIndex(f.tiles[f.lists[start][j]].size) == start;
  }

  /** A list of a single size, searched for exact matches, need not be searched again. */
  lemma ExactOnly(f: Free, t: Tables, q: Request, mode: Splitting, start: nat)
    requires f.Ok({}, {}) && q.Valid() && start == FlIndex(q.need) < UNIQUE_THRESHOLD && start < |f.lists|
    requires mode != Never && NoneSuits(t, q, Never, f.tiles, f.lists[start])
    ensures Exhausted(t, q, mode, f.tiles, start + 1)
  {
    forall b | b in f.lists[start]
      ensures !SuitsAt(t, q, mode, f.tiles, b)
    {
      assert !SuitsAt(t, q, Never, f.tiles, b);
      if b in f.tiles {
        ExactSize(f, q, start, b);
      }
    }
    hide Free.Ok;
    ListDone(f, t, q, mode, start);
  }

  /** No free block of exactly the right size would do. */
  ghost predicate NoExact(t: Tables, q: Request, tiles: Tiles)
    requires q.align > 0
  {
    forall b :: b in tiles && tiles[b].free ==> !q.Suits(t, Never, b, tiles[b].size)
  }

  lemma NoExactLeft(f: Free, t: Tables, q: Request, start: nat)
    requires f.Ok({}, {}) && q.Valid() && start == FlIndex(q.need) && start < |f.lists|
    requires NoneSuits(t, q, Never, f.tiles, f.lists[start])
    ensures NoExact(t, q, f.tiles)
  {
    forall b | b in f.tiles && f.tiles[b].free && f.tiles[b].size == q.need
      ensures !q.Suits(t, Never, b, f.tiles[b].size)
    {
      OnItsList(f, {}, b);
      assert !SuitsAt(t, q, Never, f.tiles, b);
    }
  }

  lemma NoExactFewer(t: Tables, q: Request, tiles: Tiles, to: Tiles)
    requires q.align > 0 && NoExact(t, q, tiles) && Fewer(tiles, to)
    ensures NoExact(t, q, to)
  {
  }

  /** A block that is big enough is of no class before that of the request. */
  lemma AllSearched(t: Tables, q: Request, tiles: Tiles)
    requires q.Valid() && Exhausted(t, q, Allowed, tiles, N_HBLK_FLS + 1)
    ensures forall b :: b in tiles && tiles[b].free ==> !q.Suits(t, Allowed, b, tiles[b].size)
  {
    forall b | b in tiles && tiles[b].free
      ensures !q.Suits(t, Allowed, b, tiles[b].size)
    {
      if tiles[b].size >= q.need {
        FlIndexMonotone(q.need, tiles[b].size);
        assert ClassDone(t, q, Allowed, tiles, FlIndex(tiles[b].size));
      }
    }
  }

  /** Block `b` and the one that follows it are free. */
  ghost predicate FreePair(tiles: Tiles, b: nat) {
    b in tiles && tiles[b].free && b + tiles[b].size in tiles && tiles[b + tiles[b].size].free
  }

  /** The two neighbours made one free block in the given mapping state. */
  function JoinedAs(tiles: Tiles, b: nat, mapped: bool): Tiles
    requires FreePair(tiles, b)
  {
    Joined(tiles, b, Tile(tiles[b].size + tiles[b + tiles[b].size].size, true, mapped))
  }

  /** The blocks after one of the two neighbours was flipped, if need be. */
  function Matched(tiles: Tiles, b: nat, keep: bool): Tiles
    requires FreePair(tiles, b)
  {
    if tiles[b].mapped == tiles[b + tiles[b].size].mapped then tiles
    else Flip(tiles, if keep then b + tiles[b].size else b)
  }

  lemma MatchedPair(tiles: Tiles, b: nat, keep: bool)
    requires FreePair(tiles, b) && tiles[b].size >= 1
    ensures var to, m := Matched(tiles, b, keep), if keep then tiles[b].mapped else tiles[b + tiles[b].size].mapped;
            && FreePair(to, b) && to[b].mapped == to[b + to[b].size].mapped
            && JoinedFree(to, b) == JoinedAs(tiles, b, m)
  {
  }

  /** The two neighbours are free and not too big together. */
  ghost predicate Mergeable(tiles: Tiles, b: nat) {
    FreePair(tiles, b) && tiles[b].size + tiles[b + tiles[b].size].size < MERGE_LIMIT
  }

  /** Two mergeable neighbours have become one; the larger one, or else the second, has decided
      whether the result is mapped. */
  ghost predicate LargerDecides(t0: Tiles, t1: Tiles) {
    exists b :: Mergeable(t0, b) && t1 == LargerDecided(t0, b)
  }

  ghost function LargerDecided(t0: Tiles, b: nat): Tiles
    requires FreePair(t0, b)
  {
    var next := b + t0[b].size;
    JoinedAs(t0, b, if t0[b].size > t0[next].size then t0[b].mapped else t0[next].mapped)
  }

  /** Each state follows from the one before by such a merge. */
  ghost predicate MergeSteps(trace: seq<Tiles>, t0: Tiles, t1: Tiles) {
    && trace != [] && trace[0] == t0 && trace[|trace| - 1] == t1
    && forall k {:trigger trace[k]} :: 0 < k < |trace| ==> LargerDecides(trace[k - 1], trace[k])
  }

  lemma MergeStepsNone(t0: Tiles)
    ensures MergeSteps([t0], t0, t0)
  {
  }

  lemma MergeStepsMore(a: seq<Tiles>, b: seq<Tiles>, t0: Tiles, t1: Tiles, t2: Tiles)
    requires MergeSteps(a, t0, t1) && MergeSteps(b, t1, t2)
    ensures b != [] && MergeSteps(a + b[1..], t0, t2)
  {
    hide LargerDecides;
    var c := a + b[1..];
    forall k {:trigger c[k]} | 0 < k < |c|
      ensures LargerDecides(c[k - 1], c[k])
    {
      if k < |a| {
        assert c[k] == a[k];
      } else {
        assert c[k] == b[k - |a| + 1] && c[k - 1] == b[k - |a|];
      }
    }
  }

  lemma MergeStepsOne(t0: Tiles, t1: Tiles)
    requires LargerDecides(t0, t1)
    ensures MergeSteps([t0, t1], t0, t1)
  {
  }

  /** From `h` on some free blocks have become one, which is mapped if all of them were; nothing
      else has changed. */
  ghost predicate OneChain(t0: Tiles, t: Tiles, h: nat) {
    && h in t0 && h in t && t0[h].free && t[h].free
    && (forall c :: c in t <==> c in t0 && !(h < c < h + t[h].size))
    && (forall c :: c in t && c != h ==> t[c] == t0[c])
    && (t[h].mapped <==> forall c :: c in t0 && h <= c < h + t[h].size ==> t0[c].mapped)
  }

  /** The block that ends at `end` starts before `at`: no more was merged than needed. */
  ghost predicate EndsLate(t0: Tiles, at: nat, end: nat) {
    exists c :: c in t0 && c < at && c + t0[c].size == end
  }

  lemma LastLate(t0: Tiles, t: Tiles, h: nat, required: nat)
    requires OneChain(t0, t, h) && FreePair(t, h) && 1 <= t[h].size < required
    ensures EndsLate(t0, h + required, h + t[h].size + t[h + t[h].size].size)
  {
    var next := h + t[h].size;
    assert next in t0 && t0[next] == t[next];
  }

  lemma OneChainStart(t0: Tiles, region: set<nat>, h: nat)
    requires Tiled(t0, region) && h in t0 && t0[h].free
    ensures OneChain(t0, t0, h)
  {
  }

  lemma OneChainMore(t0: Tiles, region: set<nat>, t: Tiles, h: nat, to: Tiles)
    requires Tiled(t0, region) && OneChain(t0, t, h) && FreePair(t, h) && t[h].size >= 1
    requires to == JoinedAs(t, h, if !t[h].mapped then t[h].mapped else t[h + t[h].size].mapped)
    ensures OneChain(t0, to, h) && to[h].size > t[h].size
  {
    var next := h + t[h].size;
    assert next in t0 && t0[next] == t[next];
    NothingInside(t0, region, next);
    hide Tiled;
    ChainMapped(t0, t, h, to);
  }

  lemma NothingInside(t0: Tiles, region: set<nat>, b: nat)
    requires Tiled(t0, region) && b in t0
    ensures t0[b].size >= 1 && forall c :: c in t0 && b < c ==> b + t0[b].size <= c
  {
  }

  lemma ChainMapped(t0: Tiles, t: Tiles, h: nat, to: Tiles)
    requires OneChain(t0, t, h) && FreePair(t, h) && t[h].size >= 1
    requires var next := h + t[h].size;
             && next in t0 && t0[next] == t[next] && t0[next].size >= 1
             && forall c :: c in t0 && next < c ==> next + t0[next].size <= c
    requires to == JoinedAs(t, h, if !t[h].mapped then t[h].mapped else t[h + t[h].size].mapped)
    ensures to[h].mapped <==> forall c :: c in t0 && h <= c < h + to[h].size ==> t0[c].mapped
  {
    var next := h + t[h].size;
    assert to[h].size == t[h].size + t0[next].size;
    if to[h].mapped {
      forall c | c in t0 && h <= c < h + to[h].size
        ensures t0[c].mapped
      {
        assert c < next || c == next;
      }
    }
  }

  /** No block of the size classes below `i` can be merged with its successor. */
  ghost predicate Settled(tiles: Tiles, i: nat) {
    forall b :: b in tiles && FlIndex(tiles[b].size) < i ==> !Mergeable(tiles, b)
  }

  ghost predicate NoneMerges(tiles: Tiles, l: seq<nat>, j: nat) {
    forall m :: 0 <= m < j && m < |l| ==> !Mergeable(tiles, l[m])
  }

  lemma NoneMergesYet(tiles: Tiles, l: seq<nat>)
    ensures NoneMerges(tiles, l, 0)
  {
  }

  lemma NoneMergesNext(tiles: Tiles, l: seq<nat>, j: nat)
    requires j < |l| && NoneMerges(tiles, l, j) && !Mergeable(tiles, l[j])
    ensures NoneMerges(tiles, l, j + 1)
  {
  }

  lemma ListedClass(f: Free, i: nat, j: nat)
    requires f.Ok({}, {}) && i <= N_HBLK_FLS && i < |f.lists| && j < |f.lists[i]|
    ensures f.lists[i][j] in f.tiles && FlIndex(f.tiles[f.lists[i][j]].size) == i
  {
  }

  lemma ListSettled(f: Free, i: nat, j: nat)
    requires f.Ok({}, {}) && i <= N_HBLK_FLS && i < |f.lists| && j >= |f.lists[i]|
    requires Settled(f.tiles, i) && NoneMerges(f.tiles, f.lists[i], j)
    ensures Settled(f.tiles, i + 1)
  {
  }

  lemma MergedOther(tiles: Tiles, region: set<nat>, b: nat, mapped: bool, c: nat)
    requires Tiled(tiles, region) && FreePair(tiles, b) && c != b && c in JoinedAs(tiles, b, mapped)
    requires !Mergeable(tiles, c)
    ensures !Mergeable(JoinedAs(tiles, b, mapped), c)
  {
  }

  /** Merging moves a block to a list that comes later, and makes no other block mergeable. */
  lemma MergedSettled(tiles: Tiles, region: set<nat>, b: nat, i: nat, mapped: bool)
    requires Tiled(tiles, region) && FreePair(tiles, b) && FlIndex(tiles[b].size) == i && Settled(tiles, i)
    ensures Settled(JoinedAs(tiles, b, mapped), i)
    ensures |JoinedAs(tiles, b, mapped)| < |tiles|
  {
    assert tiles[b].size >= 1;
    hide Tiled;
    hide Mergeable;
    hide FlIndex;
    var to := JoinedAs(tiles, b, mapped);
    FlIndexMonotone(tiles[b].size, to[b].size);
    forall c | c in to && FlIndex(to[c].size) < i
      ensures !Mergeable(to, c)
    {
      assert c != b && to[c] == tiles[c];
      MergedOther(tiles, region, b, mapped, c);
    }
    assert to.Keys == tiles.Keys - {b + tiles[b].size};
  }

  lemma AllSettled(tiles: Tiles, region: set<nat>)
    requires Tiled(tiles, region) && Settled(tiles, N_HBLK_FLS + 1)
    ensures forall b :: b in tiles ==> !Mergeable(tiles, b)
    ensures |region| < MERGE_LIMIT ==> forall b :: b in tiles ==> !FreePair(tiles, b)
  {
    forall b | b in tiles && FreePair(tiles, b)
      ensures |region| >= MERGE_LIMIT
    {
      NeighboursFit(tiles, region, b);
    }
  }

  /** The free stretch that starts at block `b` is too short for the request, unless the block
      itself is long enough. */
  ghost predicate NoChainAt(q: Request, tiles: Tiles, b: nat)
    requires q.align > 0
  {
    b in tiles && tiles[b].free && tiles[b].size < q.need + Pad(b, q.align) ==>
      !AllFree(tiles, b, q.need + Pad(b, q.align))
  }

  ghost predicate NoChainOn(q: Request, tiles: Tiles, l: seq<nat>, j: nat)
    requires q.align > 0
  {
    forall m :: 0 <= m < j && m < |l| ==> NoChainAt(q, tiles, l[m])
  }

  /** The same for all blocks of the size classes below `i`. */
  ghost predicate NoChain(q: Request, tiles: Tiles, i: nat)
    requires q.align > 0
  {
    forall b :: b in tiles && FlIndex(tiles[b].size) < i ==> NoChainAt(q, tiles, b)
  }

  lemma NoChainYet(q: Request, tiles: Tiles)
    requires q.align > 0
    ensures NoChain(q, tiles, 0)
  {
  }

  lemma NoChainOnYet(q: Request, tiles: Tiles, l: seq<nat>)
    requires q.align > 0
    ensures NoChainOn(q, tiles, l, 0)
  {
  }

  lemma NoChainOnNext(q: Request, tiles: Tiles, l: seq<nat>, j: nat)
    requires q.align > 0 && j < |l| && NoChainOn(q, tiles, l, j) && NoChainAt(q, tiles, l[j])
    ensures NoChainOn(q, tiles, l, j + 1)
  {
  }

  lemma NoChainNext(f: Free, q: Request, i: nat, j: nat)
    requires f.Ok({}, {}) && q.align > 0 && i <= N_HBLK_FLS && i < |f.lists| && j >= |f.lists[i]|
    requires NoChain(q, f.tiles, i) && NoChainOn(q, f.tiles, f.lists[i], j)
    ensures NoChain(q, f.tiles, i + 1)
  {
  }

  lemma ChainEnds(tiles: Tiles, region: set<nat>, h: nat, last: nat, total: nat, required: nat)
    requires Tiled(tiles, region) && |region| < MERGE_LIMIT && h in tiles && 0 < total < required
    requires last in tiles && last + tiles[last].size == h + total
    requires !(h + total in tiles && tiles[h + total].free && tiles[h].size + tiles[h + total].size < MERGE_LIMIT)
    ensures !AllFree(tiles, h, required)
  {
    var x := h + total;
    if AllFree(tiles, h, required) {
      assert FreeAt(tiles, x);
      var c: nat :| In(tiles, c, x) && tiles[c].free;
      assert c == x;
      TwoFit(tiles, region, h, x);
    }
  }

  lemma NowFits(q: Request, b: nat, size: nat)
    requires q.align > 0 && size >= q.need + Pad(b, q.align)
    ensures q.FitsIn(Allowed, b, size)
  {
  }

  /** The size check of GC_allochblk: padded for alignment, the request has fewer than half of
      all addresses. */
  ghost predicate TooBig(q: Request) {
    q.need + (if q.align == 1 then 0 else q.align) >= MERGE_LIMIT
  }

  /** Somewhere in the heap there is an aligned free stretch that is long enough, however it is
      cut into blocks. */
  ghost predicate HasRoom(q: Request, tiles: Tiles)
    requires q.align > 0
  {
    exists x: nat :: x % q.align == 0 && AllFree(tiles, x, q.need)
  }

  lemma FitsSuits(t: Tables, q: Request, tiles: Tiles)
    requires q.Valid() && q.Anywhere()
    ensures forall b :: b in tiles && q.FitsIn(Allowed, b, tiles[b].size) ==> q.Suits(t, Allowed, b, tiles[b].size)
  {
  }

  /** A free stretch for the request lies in a stretch that starts with a block. */
  lemma StretchBlock(q: Request, tiles: Tiles, region: set<nat>, x: nat) returns (b: nat)
    requires Tiled(tiles, region) && q.Valid() && x % q.align == 0 && AllFree(tiles, x, q.need)
    ensures b in tiles && tiles[b].free && AllFree(tiles, b, q.need + Pad(b, q.align))
  {
    assert FreeAt(tiles, x);
    b :| In(tiles, b, x) && tiles[b].free;
    PadFirst(b, q.align, x);
    BlockAllFree(tiles, b);
    AllFreePart(tiles, b, tiles[b].size, x - b);
    AllFreeJoin(tiles, b, x - b, q.need);
    AllFreePart(tiles, b, x - b + q.need, q.need + Pad(b, q.align));
  }

  /** If no free block is big enough and merging does not help, there is no room. */
  lemma NoRoom(t: Tables, q: Request, tiles: Tiles, region: set<nat>)
    requires Tiled(tiles, region) && q.Valid() && q.Anywhere() && NoChain(q, tiles, N_HBLK_FLS + 1)
    requires forall b :: b in tiles && tiles[b].free ==> !q.Suits(t, Allowed, b, tiles[b].size)
    ensures !HasRoom(q, tiles)
  {
    hide AllFree;
    FitsSuits(t, q, tiles);
    if HasRoom(q, tiles) {
      var x: nat :| x % q.align == 0 && AllFree(tiles, x, q.need);
      var b := StretchBlock(q, tiles, region, x);
    }
  }

  lemma MergedKeeps(a: Tiles, b: Tiles, c: Tiles, d: Tiles)
    requires Fewer(a, b) && Rearranged(b, c) && Fewer(c, d)
    ensures KeepsUsed(a, d)
    ensures a == b && c == d ==> Rearranged(a, d)
  {
  }

  /** All that changed is that some free blocks, all of `idle`, were unmapped. */
  ghost predicate OnlyUnmaps(tiles: Tiles, to: Tiles, idle: set<nat>) {
    && to.Keys == tiles.Keys
    && forall b :: b in tiles && to[b] != tiles[b] ==>
         b in idle && tiles[b].free && tiles[b].mapped && to[b] == tiles[b].(mapped := false)
  }

  /** Unmapping the free block `b` would make too many unmapped runs. */
  ghost predicate TooManyRuns(tiles: Tiles, runs: int, softLimit: nat, b: nat) {
    b in tiles && tiles[b].free && tiles[b].mapped && Delta(tiles, b) >= 0 && runs + Delta(tiles, b) >= softLimit
  }

  /** No idle block of the size classes below `i` is mapped. */
  ghost predicate IdleUnmapped(tiles: Tiles, idle: set<nat>, i: nat) {
    forall b :: b in tiles && tiles[b].free && b in idle && FlIndex(tiles[b].size) < i ==> !tiles[b].mapped
  }

  ghost predicate UnmappedOn(tiles: Tiles, idle: set<nat>, l: seq<nat>, j: nat) {
    forall m :: 0 <= m < j && m < |l| && l[m] in idle && l[m] in tiles ==> !tiles[l[m]].mapped
  }

  /** The first idle block in the order of the lists that is still mapped must stay so. */
  ghost predicate StuckAt(lists: seq<seq<nat>>, tiles: Tiles, idle: set<nat>, runs: int, softLimit: nat, i: nat,
                          j: nat) {
    && i < |lists| && j < |lists[i]| && lists[i][j] in idle
    && TooManyRuns(tiles, runs, softLimit, lists[i][j])
    && IdleUnmapped(tiles, idle, i) && UnmappedOn(tiles, idle, lists[i], j)
  }

  lemma UnmappedNone(tiles: Tiles, idle: set<nat>, l: seq<nat>)
    ensures UnmappedOn(tiles, idle, l, 0)
  {
  }

  lemma UnmappedNext(tiles: Tiles, idle: set<nat>, l: seq<nat>, j: nat)
    requires j < |l| && l[j] in tiles && UnmappedOn(tiles, idle, l, j) && !(tiles[l[j]].mapped && l[j] in idle)
    ensures UnmappedOn(tiles, idle, l, j + 1)
  {
  }

  lemma UnmappedStays(tiles: Tiles, idle: set<nat>, l: seq<nat>, i: nat, j: nat, b: nat)
    requires b in tiles && tiles[b].mapped && IdleUnmapped(tiles, idle, i) && UnmappedOn(tiles, idle, l, j)
    ensures IdleUnmapped(Flip(tiles, b), idle, i) && UnmappedOn(Flip(tiles, b), idle, l, j)
  {
  }

  lemma ListUnmapped(f: Free, idle: set<nat>, i: nat, j: nat)
    requires f.Ok({}, {}) && i <= N_HBLK_FLS && i < |f.lists| && j >= |f.lists[i]|
    requires IdleUnmapped(f.tiles, idle, i) && UnmappedOn(f.tiles, idle, f.lists[i], j)
    ensures IdleUnmapped(f.tiles, idle, i + 1)
  {
  }

  lemma UnmapsNone(tiles: Tiles, idle: set<nat>)
    ensures OnlyUnmaps(tiles, tiles, idle)
  {
  }

  lemma UnmapsMore(tiles: Tiles, to: Tiles, idle: set<nat>, b: nat)
    requires OnlyUnmaps(tiles, to, idle) && b in idle && b in to && to[b].free && to[b].mapped
    ensures OnlyUnmaps(tiles, Flip(to, b), idle)
  {
  }

  lemma AddedUsed(f: Free, region: set<nat>, pages: set<nat>, runs: int, b: nat, size: nat)
    requires f.Ok({}, {}) && GeoOk(f.tiles, region, pages, runs) && size >= 1
    requires forall x :: b <= x < b + size ==> x !in region
    ensures var to := f.tiles[b := Tile(size, false, true)];
            f.(tiles := to).Ok({}, {}) && GeoOk(to, region + Span(b, size), pages + Span(b, size), runs)
  {
    GeoAdd(f.tiles, region, pages, runs, b, Tile(size, false, true));
    hide GeoOk;
    RetiledOk(f, f.tiles[b := Tile(size, false, true)], {}, {}, {});
  }

  lemma AddedTidy(tiles: Tiles, region: set<nat>, pages: set<nat>, runs: int, b: nat, size: nat)
    requires GeoOk(tiles, region, pages, runs) && size >= 1 && forall x :: b <= x < b + size ==> x !in region
    ensures Tidy(tiles) ==> Tidy(tiles[b := Tile(size, false, true)])
  {
    AddApart(tiles, region, b, Tile(size, false, true));
    hide GeoOk;
    var to := tiles[b := Tile(size, false, true)];
    forall x: nat
      ensures Touching(to, x) ==> Touching(tiles, x)
    {
    }
  }

  lemma {:induction false} SumZero(counts: seq<nat>)
    requires forall i :: 0 <= i < |counts| ==> counts[i] == 0
    ensures Sum(counts) == 0
  {
    if counts != [] {
      SumZero(counts[1..]);
    }
  }

  lemma JoinedStays(tiles: Tiles, b: nat)
    requires b in tiles && tiles[b].free && b + tiles[b].size in tiles && tiles[b + tiles[b].size].free
    ensures Rearranged(tiles, JoinedFree(tiles, b))
  {
    JoinRearranged(tiles, b, JoinedTile(tiles, b));
  }

  /** Freeing a block makes exactly its units free and leaves all other blocks in use alone. */
  lemma FreedFree(tiles: Tiles, region: set<nat>, b: nat, prev: Option<nat>)
    requires Tiled(tiles, region) && b in tiles && !tiles[b].free && EndsFree(tiles, b, prev)
    ensures forall x: nat :: FreeAt(Freed(tiles, b, prev), x) <==> FreeAt(tiles, x) || In(tiles, b, x)
    ensures forall c :: c in tiles && c != b && !tiles[c].free ==>
            c in Freed(tiles, b, prev) && Freed(tiles, b, prev)[c] == tiles[c]
  {
    var one := tiles[b := tiles[b].(free := true)];
    ReleaseFree(tiles, b);
    var two := WithNext(one, b);
    EndsFreeAfter(tiles, region, b, prev);
    assert Rearranged(one, two) by {
      RearrangedSame(one);
      if MergesNext(one, b) {
        JoinedStays(one, b);
      }
    }
    var three := WithPrev(two, b, prev);
    assert Rearranged(two, three) by {
      RearrangedSame(two);
      if MergesPrev(two, b, prev) {
        JoinedStays(two, prev.value);
      }
    }
    RearrangedTrans(one, two, three);
  }

  /** Everything is mapped, and two free blocks are adjacent only where `last` starts. */
  ghost predicate Nearly(tiles: Tiles, last: nat) {
    && (forall b :: b in tiles ==> tiles[b].mapped)
    && forall x: nat :: Touching(tiles, x) ==> x + tiles[x].size == last
  }

  lemma TidyNearly(tiles: Tiles, last: nat)
    ensures Tidy(tiles) ==> Nearly(tiles, last)
  {
  }

  lemma CutNearly(tiles: Tiles, region: set<nat>, pages: set<nat>, runs: int, b: nat, k: nat)
    requires GeoOk(tiles, region, pages, runs) && b in tiles && tiles[b].free && 0 < k < tiles[b].size
    ensures Tidy(tiles) ==> Nearly(CutFreeBlock(tiles[b := tiles[b].(mapped := true)], b, k), b + k)
  {
    hide GeoOk;
    GeoTiled(tiles, region, pages, runs);
    hide Tiled;
    if Tidy(tiles) {
      assert tiles[b := tiles[b].(mapped := true)] == tiles;
      var to := CutFreeBlock(tiles, b, k);
      forall x: nat | Touching(to, x)
        ensures x + to[x].size == b + k
      {
        CutTouching(tiles, region, b, k, x);
      }
    }
  }

  lemma NearlyTaken(mid: Tiles, tiles: Tiles, region: set<nat>, pages: set<nat>, runs: int, last: nat, n: nat)
    requires Nearly(mid, last) && last in mid && tiles == mid[last := mid[last].(mapped := true)]
    requires GeoOk(tiles, region, pages, runs) && tiles[last].free && 0 < n <= tiles[last].size
    ensures Tidy(Taken(tiles, last, n))
  {
    hide GeoOk;
    assert tiles == mid;
    GeoTiled(tiles, region, pages, runs);
    TakenTidy(tiles, region, last, n);
  }

  class BlockHeap {
    var tiles: Tiles                // block headers: size and flags
    var links: map<nat, Link>       // block headers: hb_prev and hb_next
    var heads: seq<Option<nat>>     // GC_hblkfreelist
    var counts: seq<nat>            // GC_free_bytes, in blocks
    var largeFree: int              // GC_large_free_bytes, in blocks
    var unmappedRuns: int           // GC_num_unmapped_regions
    var pages: set<nat>             // memory that is mapped
    var dropped: nat                // GC_bytes_dropped, in blocks
    var dropCount: nat              // GC_drop_blacklisted_count
    ghost var lists: seq<seq<nat>>  // contents of the free lists
    ghost var region: set<nat>      // block numbers of the heap

    ghost function F(): Free
      reads this
    {
      Free(tiles, links, heads, counts, lists)
    }

    /** The invariant, up to blocks that are on no list or on a wrong one for the moment and
        up to `out` blocks that are still counted as free. */
    ghost predicate Part(loose: set<nat>, misfit: set<nat>, out: int)
      reads this
    {
      && F().Ok(loose, misfit)
      && GeoOk(tiles, region, pages, unmappedRuns)
      && largeFree == Sum(counts) + out
    }

    /** The heap is tiled by blocks; every free block is on the doubly linked list of its size
        class, once; the counters are the true sums; memory is mapped as the headers say. */
    ghost predicate Inv()
      reads this
    {
      Part({}, {}, 0)
    }

    /** GC_remove_from_fl_at: `j` is the position of `b` on list `i`. */
    method RemoveFromFlAt(b: nat, i: nat, ghost j: nat, ghost loose: set<nat>, ghost misfit: set<nat>, ghost out: int)
      requires Part(loose, misfit, out) && i <= N_HBLK_FLS && i < |lists| && j < |lists[i]| && lists[i][j] == b
      modifies this`links, this`heads, this`counts, this`lists
      ensures b in tiles && Part(loose + {b}, misfit, out + tiles[b].size)
      ensures lists == old(lists)[i := Without(old(lists)[i], j)]
    {
      hide Sum;
      hide Free.Ok;
      hide GeoOk;
      hide UnlinkLinks;
      hide UnlinkHeads;
      ghost var f := F();
      OkShape(f, loose, misfit);
      UnlinkedOk(f, i, j, loose, misfit);
      SumUpdate(counts, i, counts[i] - tiles[b].size);
      heads, links := UnlinkHeads(links, heads, b, i), UnlinkLinks(links, b);
      counts := counts[i := counts[i] - tiles[b].size];
      lists := lists[i := Without(lists[i], j)];
      assert F() == f.Unlinked(i, j);
    }

    /** GC_add_to_fl. */
    method AddToFl(b: nat, ghost loose: set<nat>, ghost misfit: set<nat>, ghost out: int)
      requires Part(loose, misfit, out) && b in tiles && (b in loose || !tiles[b].free)
      modifies this`tiles, this`links, this`heads, this`counts, this`lists
      ensures tiles == old(tiles)[b := old(tiles)[b].(free := true)]
      ensures FlIndex(tiles[b].size) < |old(lists)|
      ensures lists == old(lists)[FlIndex(tiles[b].size) := [b] + old(lists)[FlIndex(tiles[b].size)]]
      ensures Part(loose - {b}, misfit, out - tiles[b].size)
    {
      hide Sum;
      hide Free.Ok;
      hide GeoOk;
      hide PushLinks;
      ghost var f := F();
      OkShape(f, loose, misfit);
      AddedOk(f, b, loose, misfit);
      GeoFree(tiles, region, pages, unmappedRuns, b);
      var i := FlIndex(tiles[b].size);
      SumUpdate(counts, i, counts[i] + tiles[b].size);
      links, heads := PushLinks(links, heads[i], b), heads[i := Some(b)];
      counts := counts[i := counts[i] + tiles[b].size];
      lists := lists[i := [b] + lists[i]];
      tiles := tiles[b := tiles[b].(free := true)];
      assert F() == Added(f, b);
    }

    /** get_block_ending_at: the nearest block below `h`, if it reaches up to `h`. */
    method GetBlockEndingAt(h: nat) returns (r: Option<nat>)
      requires GeoOk(tiles, region, pages, unmappedRuns)
      ensures r.Some? ==> r.value in tiles && r.value + tiles[r.value].size == h
      ensures r.None? ==> forall c :: c in tiles ==> c + tiles[c].size != h
    {
      var p := h;
      while p > 0
        invariant forall c :: c in tiles && c < h ==> c < p
        invariant p <= h
      {
        p := p - 1;
        if p in tiles {
          return if p + tiles[p].size == h then Some(p) else None;
        }
      }
      return None;
    }

    /** calc_num_unmapped_regions_delta: how the number of unmapped runs changes if block `b`
        is mapped or unmapped. */
    method RunsDelta(b: nat) returns (d: int)
      requires GeoOk(tiles, region, pages, unmappedRuns) && b in tiles
      ensures d == Delta(tiles, b)
    {
      hide GeoOk;
      var prev := GetBlockEndingAt(b);
      var next := b + tiles[b].size;
      var prevUnmapped := prev.Some? && !tiles[prev.value].mapped;
      var nextUnmapped := next in tiles && !tiles[next].mapped;
      if prev.Some? {
        PrevIs(tiles, region, pages, unmappedRuns, b, prev.value);
      }
      if prevUnmapped && nextUnmapped {
        return if tiles[b].mapped then -1 else 1;
      }
      if !prevUnmapped && !nextUnmapped {
        return if tiles[b].mapped then 1 else -1;
      }
      return 0;
    }

    /** GC_unmap, or GC_remap, of the whole of a free block, with its flag and the count. */
    method FlipMapping(b: nat, ghost loose: set<nat>, ghost misfit: set<nat>, ghost out: int)
      requires Part(loose, misfit, out) && b in tiles && tiles[b].free
      modifies this`tiles, this`unmappedRuns, this`pages
      ensures Part(loose, misfit, out)
      ensures tiles == Flip(old(tiles), b) && pages == FlipPages(old(tiles), old(pages), b)
      ensures unmappedRuns == old(unmappedRuns) + Delta(old(tiles), b)
    {
      hide Free.Ok;
      hide GeoOk;
      hide Delta;
      var d := RunsDelta(b);
      GeoFlip(tiles, region, pages, unmappedRuns, b);
      FlippedOk(F(), b, loose, misfit);
      ghost var f := F();
      unmappedRuns := unmappedRuns + d;
      pages := FlipPages(tiles, pages, b);
      tiles := Flip(tiles, b);
      assert F() == f.(tiles := tiles);
    }

    /** GC_remove_from_fl: the list follows from the size. */
    method RemoveFromFl(b: nat, ghost loose: set<nat>, ghost out: int)
      requires Part(loose, {}, out) && b in tiles && tiles[b].free && b !in loose
      modifies this`links, this`heads, this`counts, this`lists
      ensures Part(loose + {b}, {}, out + tiles[b].size)
    {
      hide Free.Ok;
      hide GeoOk;
      OnItsList(F(), loose, b);
      ghost var j :| 0 <= j < |lists[FlIndex(tiles[b].size)]| && lists[FlIndex(tiles[b].size)][j] == b;
      RemoveFromFlAt(b, FlIndex(tiles[b].size), j, loose, {}, out);
    }

    /** Make two free blocks that are on no list one block; the header of the second goes away. */
    method JoinLoose(b: nat, ghost out: int)
      requires b in tiles && b + tiles[b].size in tiles
      requires Part({b, b + tiles[b].size}, {}, out)
      requires tiles[b].free && tiles[b + tiles[b].size].free
      requires tiles[b].mapped == tiles[b + tiles[b].size].mapped
      modifies this`tiles
      ensures tiles == JoinedFree(old(tiles), b) && b in tiles && tiles[b] == JoinedTile(old(tiles), b)
      ensures Part({b}, {}, out)
    {
      hide Free.Ok;
      hide GeoOk;
      GeoJoin(tiles, region, pages, unmappedRuns, b, JoinedTile(tiles, b));
      JoinedOk(F(), b);
      ghost var f := F();
      tiles := JoinedFree(tiles, b);
      assert F() == f.(tiles := tiles);
    }

    /** GC_free_block_ending_at. */
    method FreeBlockEndingAt(h: nat) returns (r: Option<nat>)
      requires GeoOk(tiles, region, pages, unmappedRuns)
      ensures r.Some? ==> r.value in tiles && r.value + tiles[r.value].size == h && tiles[r.value].free
      ensures r.None? ==> forall c :: c in tiles && tiles[c].free ==> c + tiles[c].size != h
    {
      r := GetBlockEndingAt(h);
      if r.Some? && !tiles[r.value].free {
        forall c | c in tiles && c + tiles[c].size == h
          ensures c == r.value
        {
          OneEndsAt(tiles, region, c, r.value);
        }
        r := None;
      }
    }

    /** Coalesce a free block that is on no list with its successor, if possible. */
    method CoalesceNext(b: nat)
      requires Part({b}, {}, 0) && b in tiles && tiles[b].free && tiles[b].mapped
      modifies this`tiles, this`links, this`heads, this`counts, this`lists
      ensures tiles == WithNext(old(tiles), b)
      ensures Part({b}, {}, tiles[b].size - old(tiles)[b].size)
    {
      hide Free.Ok;
      hide GeoOk;
      SizePositive(tiles, region, pages, unmappedRuns);
      if MergesNext(tiles, b) {
        var next := b + tiles[b].size;
        RemoveFromFl(next, {b}, 0);
        assert {b} + {next} == {b, next};
        JoinLoose(b, tiles[next].size);
      }
    }

    /** Coalesce it with its predecessor, if possible; returns the block it is part of then. */
    method CoalescePrev(b: nat, prev: Option<nat>, ghost out: int) returns (r: nat)
      requires Part({b}, {}, out) && b in tiles && tiles[b].free && tiles[b].mapped
      requires prev.Some? ==> prev.value in tiles && tiles[prev.value].free && prev.value + tiles[prev.value].size == b
      modifies this`tiles, this`links, this`heads, this`counts, this`lists
      ensures tiles == WithPrev(old(tiles), b, prev) && r == StartWithPrev(old(tiles), b, prev)
      ensures r in tiles && tiles[r].free && tiles[r].mapped && Part({r}, {}, out + tiles[r].size - old(tiles)[b].size)
    {
      hide Free.Ok;
      hide GeoOk;
      SizePositive(tiles, region, pages, unmappedRuns);
      r := b;
      if MergesPrev(tiles, b, prev) {
        RemoveFromFl(prev.value, {b}, out);
        assert {b} + {prev.value} == {prev.value, b};
        JoinLoose(prev.value, out + tiles[prev.value].size);
        r := prev.value;
      }
    }

    /** Flag a block free and look for a free block that ends where it starts. */
    method Release(b: nat) returns (prev: Option<nat>)
      requires Inv() && b in tiles && !tiles[b].free
      modifies this`tiles
      ensures tiles == old(tiles)[b := old(tiles)[b].(free := true)]
      ensures Part({b}, {}, 0) && tiles[b].mapped
      ensures EndsFree(old(tiles), b, prev) && (prev.Some? ==> prev.value < b)
    {
      hide Free.Ok;
      hide GeoOk;
      ghost var f := F();
      FreedLoose(f, region, pages, unmappedRuns, b);
      tiles := tiles[b := tiles[b].(free := true)];
      assert F() == f.(tiles := tiles);
      prev := FreeBlockEndingAt(b);
      PrevUnaffected(old(tiles), region, pages, unmappedRuns, b, prev);
    }

    /** GC_freehblk: `prev` is the free block that was in front of `b`, if any. */
    method FreeBlock(b: nat) returns (ghost prev: Option<nat>)
      requires Inv() && b in tiles && !tiles[b].free && tiles[b].size < MERGE_LIMIT
      modifies this`tiles, this`links, this`heads, this`counts, this`lists, this`largeFree
      ensures Inv()
      ensures EndsFree(old(tiles), b, prev) && tiles == Freed(old(tiles), b, prev)
      ensures Tidy(old(tiles)) && |region| < MERGE_LIMIT ==> Tidy(tiles)
    {
      hide Free.Ok;
      hide GeoOk;
      hide Tidy;
      hide Tiled;
      hide Freed;
      hide EndsFree;
      GeoTiled(tiles, region, pages, unmappedRuns);
      prev := ReleaseAndMerge(b);
      if Tidy(old(tiles)) && |region| < MERGE_LIMIT {
        FreedTidy(old(tiles), region, b, prev);
      }
    }

    /** Free a block and coalesce it with its neighbours. */
    method ReleaseAndMerge(b: nat) returns (ghost prev: Option<nat>)
      requires Inv() && b in tiles && !tiles[b].free
      modifies this`tiles, this`links, this`heads, this`counts, this`lists, this`largeFree
      ensures Inv()
      ensures EndsFree(old(tiles), b, prev) && tiles == Freed(old(tiles), b, prev)
    {
      hide Free.Ok;
      hide GeoOk;
      var size := tiles[b].size;
      var p := Release(b);
      CoalesceNext(b);
      var r := CoalescePrev(b, p, tiles[b].size - size);
      largeFree := largeFree + size;
      AddToFl(r, {r}, {}, tiles[r].size);
      assert {r} - {r} == {};
      prev := p;
    }

    /** The first half of GC_split_block: the back part of the block takes its place on the list. */
    method ReplaceOnList(b: nat, i: nat, k: nat)
      requires Inv() && i <= N_HBLK_FLS && i < |lists| && b in lists[i]
      requires b in tiles && tiles[b].free && tiles[b].mapped && 0 < k < tiles[b].size
      modifies this`tiles, this`links, this`heads, this`counts, this`lists
      ensures tiles == CutFreeBlock(old(tiles), b, k) && b + k !in old(tiles)
      ensures Part({b}, {b + k}, k) && i < |lists| && b + k in lists[i]
    {
      hide Sum;
      hide Free.Ok;
      hide GeoOk;
      hide ReplaceLinks;
      hide ReplaceHeads;
      ghost var f := F();
      OkShape(f, {}, {});
      ghost var j :| 0 <= j < |lists[i]| && lists[i][j] == b;
      SplitLoose(f, region, pages, unmappedRuns, i, j, k);
      SumUpdate(counts, i, counts[i] - k);
      var front, back := Tile(k, true, true), Tile(tiles[b].size - k, true, true);
      heads, links := ReplaceHeads(links, heads, b, b + k, i), ReplaceLinks(links, b, b + k);
      counts := counts[i := counts[i] - k];
      lists := lists[i := Swapped(lists[i], j, b + k)];
      tiles := Cut(tiles, b, k, front, back);
      assert F() == Split(f, i, j, k, front, back);
      assert lists[i][j] == b + k;
    }

    /** GC_split_block: cut a mapped free block of list `i` after `k` units; the front part goes
        to the list of its size. */
    method SplitBlock(b: nat, i: nat, k: nat)
      requires Inv() && i <= N_HBLK_FLS && i < |lists| && b in lists[i]
      requires b in tiles && tiles[b].free && tiles[b].mapped && 0 < k < tiles[b].size
      modifies this`tiles, this`links, this`heads, this`counts, this`lists
      ensures tiles == CutFreeBlock(old(tiles), b, k) && b + k !in old(tiles)
      ensures Part({}, {b + k}, 0) && i < |lists| && b + k in lists[i]
    {
      hide Free.Ok;
      hide GeoOk;
      ReplaceOnList(b, i, k);
      AddToFl(b, {b}, {b + k}, k);
      assert {b} - {b} == {};
    }

    /** Take a block of list `i`, which may be the wrong list for its size, off it. */
    method TakeOff(h: nat, i: nat)
      requires Part({}, {h}, 0) && i <= N_HBLK_FLS && i < |lists| && h in lists[i]
      modifies this`links, this`heads, this`counts, this`lists
      ensures h in tiles && Part({h}, {h}, tiles[h].size)
    {
      hide Free.Ok;
      hide GeoOk;
      ghost var j :| 0 <= j < |lists[i]| && lists[i][j] == h;
      RemoveFromFlAt(h, i, j, {}, {h}, 0);
      assert {} + {h} == {h};
    }

    /** Use the first `need` units of a block that is on no list; the rest stays free. */
    method UseFirst(h: nat, need: nat)
      requires h in tiles && Part({h}, {h}, tiles[h].size)
      requires tiles[h].free && tiles[h].mapped && 0 < need < tiles[h].size
      modifies this`tiles, this`links, this`heads, this`counts, this`lists
      ensures Part({}, {}, need) && tiles == Taken(old(tiles), h, need)
    {
      hide Free.Ok;
      hide GeoOk;
      ghost var f := F();
      var total := tiles[h].size;
      PartTaken(f, region, pages, unmappedRuns, h, need);
      tiles := Cut(tiles, h, need, Tile(need, false, true), Tile(total - need, false, true));
      assert F() == f.(tiles := tiles);
      AddToFl(h + need, {}, {}, total);
      assert {} - {h + need} == {};
    }

    /** GC_get_first_part and the setting up of the header: the first `need` units of block `h`
        of list `i` are taken into use. */
    method Take(h: nat, i: nat, need: nat)
      requires Part({}, {h}, 0) && i <= N_HBLK_FLS && i < |lists| && h in lists[i]
      requires h in tiles && tiles[h].free && tiles[h].mapped && 0 < need <= tiles[h].size
      modifies this`tiles, this`links, this`heads, this`counts, this`lists, this`largeFree
      ensures Inv() && tiles == Taken(old(tiles), h, need)
      ensures largeFree == old(largeFree) - need
    {
      hide Free.Ok;
      hide GeoOk;
      TakeOff(h, i);
      if tiles[h].size == need {
        ghost var f := F();
        WholeTaken(f, region, pages, unmappedRuns, h);
        tiles := tiles[h := Tile(need, false, true)];
        assert F() == f.(tiles := tiles);
      } else {
        UseFirst(h, need);
      }
      largeFree := largeFree - need;
    }

    /** Remap a free block that was given back to the system. */
    method EnsureMapped(b: nat, ghost misfit: set<nat>)
      requires Part({}, misfit, 0) && b in tiles && tiles[b].free
      modifies this`tiles, this`unmappedRuns, this`pages
      ensures Part({}, misfit, 0)
      ensures tiles == old(tiles)[b := old(tiles)[b].(mapped := true)] && Rearranged(old(tiles), tiles)
    {
      hide Free.Ok;
      hide GeoOk;
      hide Rearranged;
      if tiles[b].mapped {
        RearrangedSame(tiles);
        assert tiles[b := tiles[b].(mapped := true)] == tiles;
      } else {
        FlipRearranged(tiles, b);
        FlipMapping(b, {}, misfit, 0);
      }
    }

    /** Map block `b` of list `i` and cut off what lies before `last`. */
    method SplitOff(b: nat, i: nat, last: nat)
      requires Inv() && i <= N_HBLK_FLS && i < |lists| && b in lists[i]
      requires b in tiles && tiles[b].free && b < last < b + tiles[b].size
      modifies this`tiles, this`links, this`heads, this`counts, this`lists, this`unmappedRuns, this`pages
      ensures Rearranged(old(tiles), tiles)
      ensures Part({}, {last}, 0) && i < |lists| && last in lists[i]
      ensures last in tiles && tiles[last] == Tile(b + old(tiles)[b].size - last, true, true)
      ensures Tidy(old(tiles)) ==> Nearly(tiles, last)
    {
      hide Free.Ok;
      hide GeoOk;
      hide Rearranged;
      EnsureMapped(b, {});
      ghost var mid := tiles;
      SplitBlock(b, i, last - b);
      CutRearranged(mid, b, last - b, Tile(last - b, true, true), Tile(mid[b].size - (last - b), true, true));
      RearrangedTrans(old(tiles), mid, tiles);
      CutNearly(old(tiles), region, old(pages), old(unmappedRuns), b, last - b);
    }

    /** The end of GC_allochblk_nth: take `need` units at `last` out of block `b` of list `i`. */
    method Carve(b: nat, i: nat, last: nat, need: nat)
      requires Inv() && i <= N_HBLK_FLS && i < |lists| && b in lists[i]
      requires b in tiles && tiles[b].free && b <= last && 0 < need && last + need <= b + tiles[b].size
      modifies this`tiles, this`links, this`heads, this`counts, this`lists, this`largeFree, this`unmappedRuns,
               this`pages
      ensures Inv() && Took(old(tiles), tiles, last, need)
      ensures largeFree == old(largeFree) - need
      ensures Tidy(old(tiles)) ==> Tidy(tiles)
    {
      hide Free.Ok;
      hide GeoOk;
      hide Rearranged;
      hide Took;
      hide Tidy;
      hide Nearly;
      hide Taken;
      RearrangedSame(tiles);
      if last != b {
        SplitOff(b, i, last);
      } else {
        MayMisfit(F(), {}, last);
        TidyNearly(tiles, last);
      }
      ghost var mid := tiles;
      EnsureMapped(last, {last});
      if Tidy(old(tiles)) {
        NearlyTaken(mid, tiles, region, pages, unmappedRuns, last, need);
      }
      RearrangedTrans(old(tiles), mid, tiles);
      GeoTiled(tiles, region, pages, unmappedRuns);
      TakenTook(tiles, region, last, need);
      RearrangedTook(old(tiles), tiles, Taken(tiles, last, need), last, need);
      Take(last, i, need);
    }

    /** Cut a block in use, of which list and counters know nothing, into blocks of one unit. */
    method Shred(b: nat, ghost out: int)
      requires Part({}, {}, out) && b in tiles && !tiles[b].free
      modifies this`tiles
      ensures Part({}, {}, out)
      ensures tiles == Shredded(old(tiles), b, b + old(tiles)[b].size)
    {
      hide Free.Ok;
      hide GeoOk;
      hide Shredding;
      hide Sum;
      ghost var t0 := tiles;
      SizePositive(tiles, region, pages, unmappedRuns);
      var limit := b + tiles[b].size;
      var h := b;
      ShreddedNone(t0, b);
      while h + 1 < limit
        invariant b <= h < limit && tiles == Shredding(t0, b, h)
        invariant Part({}, {}, out)
      {
        ghost var f := F();
        var front, back := Tile(1, false, true), Tile(limit - h - 1, false, true);
        ShredHead(t0, b, h);
        ShredStep(t0, b, h);
        CutUsed(f, region, pages, unmappedRuns, h, front, back);
        tiles := Cut(tiles, h, 1, front, back);
        assert F() == f.(tiles := tiles);
        h := h + 1;
      }
      ShredEnd(t0, b);
    }

    /** drop_hblk_in_chunks: take a free block out of circulation, one unit at a time, so that
        the units can be recovered one by one. */
    method DropInChunks(b: nat, i: nat, ghost j: nat)
      requires Inv() && i <= N_HBLK_FLS && i < |lists| && j < |lists[i]| && lists[i][j] == b
      requires b in tiles && tiles[b].free && tiles[b].mapped
      modifies this`tiles, this`links, this`heads, this`counts, this`lists, this`largeFree, this`dropped
      ensures Inv() && tiles == Shredded(old(tiles), b, b + old(tiles)[b].size)
      ensures lists == old(lists)[i := Without(old(lists)[i], j)]
      ensures dropped == old(dropped) + old(tiles)[b].size && largeFree == old(largeFree) - old(tiles)[b].size
    {
      hide Free.Ok;
      hide GeoOk;
      hide Shredded;
      hide Sum;
      hide Without;
      var total := tiles[b].size;
      SizePositive(tiles, region, pages, unmappedRuns);
      ShreddedAfter(tiles, b, Tile(total, false, true), b + total);
      RemoveFromFlAt(b, i, j, {}, {}, 0);
      assert {} + {b} == {b};
      largeFree := largeFree - total;
      dropped := dropped + total;
      ghost var f := F();
      MayMisfit(f, {b}, b);
      WholeTaken(f, region, pages, unmappedRuns, b);
      tiles := tiles[b := Tile(total, false, true)];
      assert F() == f.(tiles := tiles);
      Shred(b, 0);
    }

    /** Drop the barred block at position `j` of list `i`; returns the block that is there then. */
    method DropAt(b: nat, i: nat, ghost j: nat) returns (h: Option<nat>)
      requires Inv() && i <= N_HBLK_FLS && i < |lists| && j < |lists[i]| && lists[i][j] == b
      requires b in tiles && tiles[b].free && tiles[b].mapped
      modifies this`tiles, this`links, this`heads, this`counts, this`lists, this`largeFree, this`dropped
      ensures Inv() && Fewer(old(tiles), tiles) && h == At(lists, i, j)
      ensures forall c :: c in old(tiles) && c != b ==> c in tiles && tiles[c] == old(tiles)[c]
      ensures lists == old(lists)[i := Without(old(lists)[i], j)]
      ensures largeFree + dropped == old(largeFree) + old(dropped)
      ensures Tidy(old(tiles)) ==> Tidy(tiles)
    {
      hide Free.Ok;
      hide GeoOk;
      hide Tiled;
      hide Shredded;
      hide Fewer;
      hide Tidy;
      GeoTiled(tiles, region, pages, unmappedRuns);
      ShreddedFewer(tiles, region, b);
      if Tidy(tiles) {
        ShreddedTidy(tiles, region, b);
      }
      LinkIs(F(), i, j);
      var prev := links[b].prev;
      DropInChunks(b, i, j);
      HeadIs(F(), i);
      if prev.None? {
        h := heads[i];
      } else {
        LinkIs(F(), i, j - 1);
        h := links[prev.value].next;
      }
    }

    /** Look at the block at position `j` of list `i`. */
    method ConsiderAt(t: Tables, q: Request, mode: Splitting, b: nat, i: nat, ghost j: nat) returns (c: Choice)
      requires Inv() && q.Valid() && i <= N_HBLK_FLS && i < |lists| && j < |lists[i]| && lists[i][j] == b
      ensures b in tiles && tiles[b].free && b in links && links[b].next == At(lists, i, j + 1)
      ensures c.Use? ==> q.PlaceOk(t, b, tiles[b].size, c.place) && q.FitsIn(mode, b, tiles[b].size)
      ensures c.Barred? ==> q.FitsIn(mode, b, tiles[b].size) && !q.HasPlace(t, b, tiles[b].size)
      ensures c.Skip? && NoneMissed(t, q, mode, tiles, lists[i], j) ==> NoneMissed(t, q, mode, tiles, lists[i], j + 1)
    {
      hide Free.Ok;
      hide GeoOk;
      hide Request.Suits;
      hide Request.Placed;
      hide Request.HasPlace;
      hide Request.PlaceOk;
      hide NoneMissed;
      hide Better;
      hide FirstPlace;
      hide Spared;
      LinkIs(F(), i, j);
      var next := links[b].next;
      if next.Some? {
        LinkIs(F(), i, j + 1);
      }
      var nextSize := if next.Some? then tiles[next.value].size else 0;
      c := Consider(t, q, mode, b, tiles[b].size, tiles[b].mapped, next, nextSize);
      if c.Skip? && NoneMissed(t, q, mode, tiles, lists[i], j) {
        SkipMissed(t, q, mode, tiles, lists[i], j);
      }
    }

    /** What a search of list `i` may have done so far. */
    ghost predicate Searched(t0: Tiles, lists0: seq<seq<nat>>, free0: int, i: nat)
      reads this
    {
      && Inv() && Fewer(t0, tiles) && largeFree + dropped == free0 && (Tidy(t0) ==> Tidy(tiles))
      && |lists| == |lists0| && OthersKept(t0, tiles, i)
    }

    /** Drop the barred block at position `j`, every fourth time. */
    method MaybeDrop(t: Tables, q: Request, mode: Splitting, b: nat, i: nat, ghost j: nat)
      returns (drop: bool, h: Option<nat>)
      requires Inv() && q.Valid() && i <= N_HBLK_FLS && i < |lists| && j < |lists[i]| && lists[i][j] == b
      requires b in tiles && tiles[b].free && NoneMissed(t, q, mode, tiles, lists[i], j)
      requires !q.HasPlace(t, b, tiles[b].size)
      modifies this`tiles, this`links, this`heads, this`counts, this`lists, this`largeFree, this`dropped, this`dropCount
      ensures |lists| == |old(lists)|
      ensures var due := q.need == 1 && q.align == 1 && !q.findLeak && old(tiles)[b].mapped;
              && dropCount == old(dropCount) + (if due then 1 else 0)
              && (drop <==> due && dropCount % 4 == 0)
      ensures !drop ==> tiles == old(tiles) && links == old(links) && lists == old(lists) && heads == old(heads)
      ensures !drop ==> Inv() && largeFree == old(largeFree) && dropped == old(dropped)
      ensures drop ==> q.MayDrop() && |lists[i]| < |old(lists)[i]|
      ensures drop ==> h == At(lists, i, j) && NoneMissed(t, q, mode, tiles, lists[i], j)
      ensures drop ==> Searched(old(tiles), old(lists), old(largeFree) + old(dropped), i)
    {
      hide Free.Ok;
      hide GeoOk;
      assert !q.Anywhere();
      hide Request.HasPlace;
      drop := false;
      h := None;
      if q.need == 1 && q.align == 1 && !q.findLeak && tiles[b].mapped {
        dropCount := dropCount + 1;
        if dropCount % 4 == 0 {
          OkShape(F(), {}, {});
          BarredMissed(t, q, mode, tiles, lists[i], j);
          ListFacts(F(), {}, {}, i, i, j);
          ghost var f := F();
          h := DropAt(b, i, j);
          DropMissed(t, q, mode, old(tiles), tiles, old(lists)[i], j);
          OthersDropped(f, tiles, i, j);
          drop := true;
        }
      }
    }

    /** The outcome of a search: `mid` are the blocks after the drops. */
    ghost predicate Found(t: Tables, q: Request, mode: Splitting, mid: Tiles, r: nat, k: nat, free0: int)
      requires q.Valid()
      reads this
    {
      && Inv() && Took(mid, tiles, r, q.need) && largeFree + dropped == free0 - q.need && (Tidy(mid) ==> Tidy(tiles))
      && exists b :: b in mid && mid[b].free && FlIndex(mid[b].size) == k && q.FitsIn(mode, b, mid[b].size)
                     && q.PlaceOk(t, b, mid[b].size, r)
    }

    /** The smallest size class up to `limit` that had a suitable block was used. */
    ghost predicate FoundLarger(t: Tables, q: Request, mode: Splitting, mid: Tiles, r: nat, limit: nat, free0: int)
      requires q.Valid()
      reads this
    {
      NoExact(t, q, mid) &&
      exists k: nat :: k <= limit && Found(t, q, mode, mid, r, k, free0) && Exhausted(t, q, mode, mid, k)
    }

    /** Take the chosen place. */
    method UseAt(t: Tables, q: Request, ghost mode: Splitting, b: nat, i: nat, ghost j: nat, place: nat)
      requires Inv() && q.Valid() && i <= N_HBLK_FLS && i < |lists| && j < |lists[i]| && lists[i][j] == b
      requires b in tiles && tiles[b].free && q.PlaceOk(t, b, tiles[b].size, place) && q.FitsIn(mode, b, tiles[b].size)
      modifies this`tiles, this`links, this`heads, this`counts, this`lists, this`largeFree, this`unmappedRuns,
               this`pages
      ensures Found(t, q, mode, old(tiles), place, i, old(largeFree) + old(dropped))
    {
      hide Free.Ok;
      hide GeoOk;
      hide Took;
      ListedClass(F(), i, j);
      Carve(b, i, place, q.need);
      assert b in old(tiles);
    }

    /** GC_allochblk_nth: search list `i`. */
    method AllocNth(t: Tables, q: Request, mode: Splitting, i: nat) returns (r: Option<nat>, ghost mid: Tiles)
      requires Inv() && q.Valid() && i <= N_HBLK_FLS
      modifies this`tiles, this`links, this`heads, this`counts, this`lists, this`largeFree, this`unmappedRuns,
               this`pages, this`dropped, this`dropCount
      ensures Fewer(old(tiles), mid) && (!q.MayDrop() ==> mid == old(tiles)) && (Tidy(old(tiles)) ==> Tidy(mid))
      ensures r.Some? ==> Found(t, q, mode, mid, r.value, i, old(largeFree) + old(dropped))
      ensures OthersKept(old(tiles), mid, i)
      ensures r.None? ==> tiles == mid && Searched(old(tiles), old(lists), old(largeFree) + old(dropped), i)
      ensures r.None? ==> i < |lists| && (Spares(t, q, mode, tiles, lists[i]) || NoneSuits(t, q, mode, tiles, lists[i]))
    {
      hide Sum;
      hide Free.Ok;
      hide GeoOk;
      hide Request.HasPlace;
      hide Request.PlaceOk;
      hide NoneMissed;
      hide NoneSuits;
      hide Spares;
      hide Found;
      hide Tidy;
      OkShape(F(), {}, {});
      HeadIs(F(), i);
      var h := heads[i];
      ghost var j := 0;
      StartOfList(t, q, mode, tiles, lists[i]);
      while h.Some?
        invariant Searched(old(tiles), old(lists), old(largeFree) + old(dropped), i) && i < |lists|
        invariant h == At(lists, i, j)
        invariant NoneMissed(t, q, mode, tiles, lists[i], j)
        invariant !q.MayDrop() ==> tiles == old(tiles)
        decreases |lists[i]| - j
      {
        var b := h.value;
        var c := ConsiderAt(t, q, mode, b, i, j);
        mid := tiles;
        if c.Use? {
          UseAt(t, q, mode, b, i, j, c.place);
          return Some(c.place), mid;
        }
        if c.Barred? {
          var drop, next := MaybeDrop(t, q, mode, b, i, j);
          if drop {
            FewerTrans(old(tiles), mid, tiles);
            OthersTrans(old(tiles), mid, tiles, i);
            h := next;
            continue;
          }
          BarredMissed(t, q, mode, tiles, lists[i], j);
          if q.need > q.blLimit && tiles[b].size - q.need > q.blLimit {
            var place := b + Pad(b, q.align);
            PuntPlace(t, q, mode, b, tiles[b].size);
            UseAt(t, q, mode, b, i, j, place);
            return Some(place), mid;
          }
        }
        h := links[b].next;
        j := j + 1;
      }
      EndOfList(t, q, mode, tiles, lists[i], j);
      return None, tiles;
    }

    /** GC_allochblk_from_free_lists: an exact match first, then any larger block of the lists up
        to `limit`. */
    method AllocFromFreeLists(t: Tables, q: Request, limit: nat, mode: Splitting)
      returns (r: Option<nat>, ghost mid: Tiles)
      requires Inv() && q.Valid() && limit <= N_HBLK_FLS && mode != Never
      modifies this`tiles, this`links, this`heads, this`counts, this`lists, this`largeFree, this`unmappedRuns,
               this`pages, this`dropped, this`dropCount
      ensures Fewer(old(tiles), mid) && (!q.MayDrop() ==> mid == old(tiles)) && (Tidy(old(tiles)) ==> Tidy(mid))
      ensures r.Some? ==>
                || Found(t, q, Never, mid, r.value, FlIndex(q.need), old(largeFree) + old(dropped))
                || FoundLarger(t, q, mode, mid, r.value, limit, old(largeFree) + old(dropped))
      ensures r.None? ==> tiles == mid && Inv() && largeFree + dropped == old(largeFree) + old(dropped)
      ensures r.None? ==> NoExact(t, q, tiles) && Exhausted(t, q, mode, tiles, limit + 1)
    {
      hide Free.Ok;
      hide GeoOk;
      hide Request.Suits;
      hide NoneSuits;
      hide NoExact;
      hide Found;
      hide Tidy;
      hide Sum;
      hide FlIndex;
      hide Exhausted;
      hide ClassDone;
      hide OthersKept;
      var start := FlIndex(q.need);
      r, mid := AllocNth(t, q, Never, start);
      if r.Some? {
        return;
      }
      OkShape(F(), {}, {});
      var i := start;
      NoExactLeft(F(), t, q, start);
      ExhaustedNone(t, q, mode, tiles);
      if start < UNIQUE_THRESHOLD && q.align == 1 {
        ExactOnly(F(), t, q, mode, start);
        i := start + 1;
      }
      while i <= limit
        invariant start <= i <= N_HBLK_FLS + 1
        invariant Inv() && |lists| == N_HBLK_FLS + 1 && Fewer(old(tiles), tiles) && (Tidy(old(tiles)) ==> Tidy(tiles))
        invariant largeFree + dropped == old(largeFree) + old(dropped)
        invariant (!q.MayDrop() ==> tiles == old(tiles)) && NoExact(t, q, tiles)
        invariant Exhausted(t, q, mode, tiles, i)
      {
        ghost var t0 := tiles;
        r, mid := AllocNth(t, q, mode, i);
        FewerTrans(old(tiles), t0, mid);
        NoExactFewer(t, q, t0, mid);
        ExhaustedStays(t, q, mode, t0, mid, i);
        if r.Some? {
          return;
        }
        ListDone(F(), t, q, mode, i);
        ExhaustedNext(t, q, mode, tiles, i);
        i := i + 1;
      }
      r, mid := None, tiles;
      ExhaustedLess(t, q, mode, tiles, limit + 1, i);
    }

    /** Bring two free neighbours into the same mapping state, by remapping or unmapping one of
        them; `keep` says whether the first one decides. */
    method MatchMapping(b: nat, keep: bool)
      requires Inv() && FreePair(tiles, b)
      modifies this`tiles, this`unmappedRuns, this`pages
      ensures Inv() && tiles == Matched(old(tiles), b, keep)
    {
      hide Free.Ok;
      hide GeoOk;
      var next := b + tiles[b].size;
      if tiles[b].mapped != tiles[next].mapped {
        FlipMapping(if keep then next else b, {}, {}, 0);
      }
    }

    /** Take two free blocks off their lists. */
    method UnlinkPair(b: nat, next: nat)
      requires Inv() && b in tiles && next in tiles && tiles[b].free && tiles[next].free && b != next
      modifies this`links, this`heads, this`counts, this`lists
      ensures Part({b, next}, {}, tiles[b].size + tiles[next].size)
    {
      hide Free.Ok;
      hide GeoOk;
      RemoveFromFl(b, {}, 0);
      assert {} + {b} == {b};
      RemoveFromFl(next, {b}, tiles[b].size);
      assert {b} + {next} == {b, next};
    }

    /** Merge two free neighbours in the same mapping state. */
    method MergePair(b: nat)
      requires Inv() && FreePair(tiles, b) && tiles[b].mapped == tiles[b + tiles[b].size].mapped
      modifies this`tiles, this`links, this`heads, this`counts, this`lists
      ensures Inv() && tiles == JoinedFree(old(tiles), b)
    {
      hide Free.Ok;
      hide GeoOk;
      SizePositive(tiles, region, pages, unmappedRuns);
      hide JoinedFree;
      var next := b + tiles[b].size;
      UnlinkPair(b, next);
      JoinLoose(b, tiles[b].size + tiles[next].size);
      assert tiles[b := tiles[b].(free := true)] == tiles;
      AddToFl(b, {b}, {}, tiles[b].size);
      assert {b} - {b} == {};
    }

    /** Merge a free block with the free block that follows it. */
    method MergeNext(b: nat, keep: bool)
      requires Inv() && FreePair(tiles, b)
      modifies this`tiles, this`links, this`heads, this`counts, this`lists, this`unmappedRuns, this`pages
      ensures Inv() && Rearranged(old(tiles), tiles)
      ensures b in tiles && tiles == JoinedAs(old(tiles), b, tiles[b].mapped)
      ensures tiles[b].mapped == if keep then old(tiles)[b].mapped else old(tiles)[b + old(tiles)[b].size].mapped
    {
      hide Free.Ok;
      hide GeoOk;
      hide Rearranged;
      JoinRearranged(tiles, b, JoinedAs(tiles, b, if keep then tiles[b].mapped
                                        else tiles[b + tiles[b].size].mapped)[b]);
      SizePositive(tiles, region, pages, unmappedRuns);
      MatchedPair(tiles, b, keep);
      hide Matched;
      MatchMapping(b, keep);
      MergePair(b);
    }

    /** Merge the block at position `j` of list `i` with its successor; returns the start of the
        list. */
    method MergeAt(b: nat, i: nat, ghost j: nat) returns (h: Option<nat>)
      requires Inv() && i <= N_HBLK_FLS && Settled(tiles, i)
      requires i < |lists| && j < |lists[i]| && lists[i][j] == b && Mergeable(tiles, b)
      modifies this`tiles, this`links, this`heads, this`counts, this`lists, this`unmappedRuns, this`pages
      ensures Inv() && Settled(tiles, i) && Rearranged(old(tiles), tiles) && |tiles| < |old(tiles)|
      ensures LargerDecides(old(tiles), tiles)
      ensures |lists| == N_HBLK_FLS + 1 && h == At(lists, i, 0)
    {
      hide Free.Ok;
      hide GeoOk;
      hide Rearranged;
      hide Settled;
      GeoTiled(tiles, region, pages, unmappedRuns);
      ListedClass(F(), i, j);
      ghost var t0 := tiles;
      MergeNext(b, tiles[b].size > tiles[b + tiles[b].size].size);
      MergedSettled(t0, region, b, i, tiles[b].mapped);
      OkShape(F(), {}, {});
      HeadIs(F(), i);
      h := heads[i];
    }

    /** Merge until no block of list `i` can be merged with its successor. */
    method MergeList(i: nat) returns (merged: bool, ghost trace: seq<Tiles>)
      requires Inv() && i <= N_HBLK_FLS && Settled(tiles, i)
      modifies this`tiles, this`links, this`heads, this`counts, this`lists, this`unmappedRuns, this`pages
      ensures Inv() && Settled(tiles, i + 1) && Rearranged(old(tiles), tiles) && MergeSteps(trace, old(tiles), tiles)
      ensures if merged then |tiles| < |old(tiles)| else tiles == old(tiles)
    {
      hide Free.Ok;
      hide GeoOk;
      hide Rearranged;
      hide Settled;
      hide NoneMerges;
      hide MergeSteps;
      hide LargerDecides;
      merged := false;
      trace := [tiles];
      MergeStepsNone(tiles);
      OkShape(F(), {}, {});
      HeadIs(F(), i);
      RearrangedSame(tiles);
      var h := heads[i];
      ghost var j := 0;
      NoneMergesYet(tiles, lists[i]);
      while h.Some?
        invariant Inv() && Settled(tiles, i) && Rearranged(old(tiles), tiles) && MergeSteps(trace, old(tiles), tiles)
        invariant |lists| == N_HBLK_FLS + 1 && h == At(lists, i, j) && NoneMerges(tiles, lists[i], j)
        invariant if merged then |tiles| < |old(tiles)| else tiles == old(tiles)
        decreases |tiles|, |lists[i]| - j
      {
        var b := h.value;
        LinkIs(F(), i, j);
        var c := b + tiles[b].size;
        if tiles[b].free && c in tiles && tiles[c].free && tiles[b].size + tiles[c].size < MERGE_LIMIT {
          ghost var t0 := tiles;
          h := MergeAt(b, i, j);
          RearrangedTrans(old(tiles), t0, tiles);
          MergeStepsOne(t0, tiles);
          MergeStepsMore(trace, [t0, tiles], old(tiles), t0, tiles);
          trace := trace + [t0, tiles][1..];
          NoneMergesYet(tiles, lists[i]);
          merged, j := true, 0;
        } else {
          NoneMergesNext(tiles, lists[i], j);
          h, j := links[b].next, j + 1;
        }
      }
      ListSettled(F(), i, j);
    }

    /** GC_merge_unmapped: afterwards no free block can be merged with the one that follows it. */
    method MergeUnmapped() returns (merged: bool, ghost trace: seq<Tiles>)
      requires Inv()
      modifies this`tiles, this`links, this`heads, this`counts, this`lists, this`unmappedRuns, this`pages
      ensures Inv() && Rearranged(old(tiles), tiles) && MergeSteps(trace, old(tiles), tiles)
      ensures forall b :: b in tiles ==> !Mergeable(tiles, b)
      ensures |region| < MERGE_LIMIT ==> forall b :: b in tiles ==> !FreePair(tiles, b)
      ensures if merged then |tiles| < |old(tiles)| else tiles == old(tiles)
    {
      hide Free.Ok;
      hide GeoOk;
      hide Rearranged;
      hide MergeSteps;
      merged := false;
      trace := [tiles];
      MergeStepsNone(tiles);
      RearrangedSame(tiles);
      for i := 0 to N_HBLK_FLS + 1
        invariant Inv() && Settled(tiles, i) && Rearranged(old(tiles), tiles) && MergeSteps(trace, old(tiles), tiles)
        invariant if merged then |tiles| < |old(tiles)| else tiles == old(tiles)
      {
        ghost var t0 := tiles;
        var m, more := MergeList(i);
        RearrangedTrans(old(tiles), t0, tiles);
        MergeStepsMore(trace, more, old(tiles), t0, tiles);
        trace := trace + more[1..];
        merged := merged || m;
      }
      GeoTiled(tiles, region, pages, unmappedRuns);
      AllSettled(tiles, region);
    }

    /** Add up the sizes of the free blocks that follow each other from `h` on, until there is
        enough; returns whether there is. */
    method ChainReaches(h: nat, required: nat) returns (enough: bool)
      requires Inv() && h in tiles && tiles[h].free && tiles[h].size < required
      ensures enough ==> AllFree(tiles, h, required)
      ensures !enough && |region| < MERGE_LIMIT ==> !AllFree(tiles, h, required)
    {
      hide Free.Ok;
      hide GeoOk;
      SizePositive(tiles, region, pages, unmappedRuns);
      GeoTiled(tiles, region, pages, unmappedRuns);
      hide Tiled;
      hide AllFree;
      var total := tiles[h].size;
      ghost var last := h;
      BlockAllFree(tiles, h);
      while h + total in tiles && tiles[h + total].free && tiles[h].size + tiles[h + total].size < MERGE_LIMIT
        invariant tiles[h].size <= total < required && AllFree(tiles, h, total)
        invariant last in tiles && last + tiles[last].size == h + total
        decreases required - total
      {
        BlockAllFree(tiles, h + total);
        AllFreeJoin(tiles, h, total, tiles[h + total].size);
        last := h + total;
        total := total + tiles[h + total].size;
        if total >= required {
          AllFreePart(tiles, h, total, required);
          return true;
        }
      }
      if |region| < MERGE_LIMIT {
        ChainEnds(tiles, region, h, last, total, required);
      }
      return false;
    }

    /** Merge `h` with the free blocks that follow it until it has `required` units. */
    method MergeUpTo(h: nat, required: nat)
      requires Inv() && h in tiles && tiles[h].free && AllFree(tiles, h, required)
      modifies this`tiles, this`links, this`heads, this`counts, this`lists, this`unmappedRuns, this`pages
      ensures Inv() && Rearranged(old(tiles), tiles) && h in tiles && tiles[h].free && tiles[h].size >= required
      ensures OneChain(old(tiles), tiles, h)
      ensures old(tiles)[h].size < required ==> EndsLate(old(tiles), h + required, h + tiles[h].size)
    {
      hide Free.Ok;
      hide GeoOk;
      hide Rearranged;
      hide AllFree;
      hide OneChain;
      hide EndsLate;
      hide Tiled;
      hide Sum;
      GeoTiled(tiles, region, pages, unmappedRuns);
      OneChainStart(tiles, region, h);
      RearrangedSame(tiles);
      while tiles[h].size < required
        invariant Inv() && h in tiles && tiles[h].free && Rearranged(old(tiles), tiles)
                  && OneChain(old(tiles), tiles, h)
        invariant tiles[h].size >= required > old(tiles)[h].size ==>
                    EndsLate(old(tiles), h + required, h + tiles[h].size)
        decreases required - tiles[h].size
      {
        ghost var t0 := tiles;
        GeoTiled(tiles, region, pages, unmappedRuns);
        AllFreeAfter(old(tiles), tiles, h, required);
        ChainGoesOn(tiles, region, h, required);
        SizePositive(tiles, region, pages, unmappedRuns);
        MergeNext(h, !tiles[h].mapped);
        RearrangedTrans(old(tiles), t0, tiles);
        OneChainMore(old(tiles), region, t0, h, tiles);
        LastLate(old(tiles), t0, h, required);
      }
    }

    /** GC_merge_free_blocks_for_alloc: merge one chain of free blocks if that makes room for the
        request. */
    method MergeForAlloc(q: Request) returns (merged: bool)
      requires Inv() && q.Valid()
      modifies this`tiles, this`links, this`heads, this`counts, this`lists, this`unmappedRuns, this`pages
      ensures Inv() && Rearranged(old(tiles), tiles)
      ensures merged ==> exists b :: b in tiles && tiles[b].free && q.FitsIn(Allowed, b, tiles[b].size)
      ensures merged ==> exists b: nat :: OneChain(old(tiles), tiles, b) && q.FitsIn(Allowed, b, tiles[b].size)
                                          && EndsLate(old(tiles), b + q.need + Pad(b, q.align), b + tiles[b].size)
      ensures !merged ==> tiles == old(tiles)
      ensures Tidy(old(tiles)) ==> !merged
      ensures !merged && |region| < MERGE_LIMIT ==> NoChain(q, tiles, N_HBLK_FLS + 1)
    {
      hide Free.Ok;
      hide GeoOk;
      hide Tidy;
      hide Rearranged;
      hide NoChain;
      hide NoChainOn;
      hide Request.FitsIn;
      hide OneChain;
      hide EndsLate;
      hide Sum;
      RearrangedSame(tiles);
      OkShape(F(), {}, {});
      var i := 0;
      NoChainYet(q, tiles);
      while i <= N_HBLK_FLS
        invariant i <= N_HBLK_FLS + 1 && tiles == old(tiles) && Inv() && |lists| == N_HBLK_FLS + 1
        invariant |region| < MERGE_LIMIT ==> NoChain(q, tiles, i)
      {
        HeadIs(F(), i);
        var h := heads[i];
        ghost var j := 0;
        NoChainOnYet(q, tiles, lists[i]);
        while h.Some?
          invariant tiles == old(tiles) && Inv() && |lists| == N_HBLK_FLS + 1 && h == At(lists, i, j)
          invariant |region| < MERGE_LIMIT ==> NoChainOn(q, tiles, lists[i], j)
          decreases |lists[i]| - j
        {
          var b := h.value;
          LinkIs(F(), i, j);
          var required := q.need + Pad(b, q.align);
          if tiles[b].size < required {
            var enough := ChainReaches(b, required);
            if enough {
              GeoTiled(tiles, region, pages, unmappedRuns);
              TidyNoChain(tiles, region, b, required);
              MergeUpTo(b, required);
              NowFits(q, b, tiles[b].size);
              return true;
            }
          }
          if |region| < MERGE_LIMIT {
            NoChainOnNext(q, tiles, lists[i], j);
          }
          h, j := links[b].next, j + 1;
        }
        if |region| < MERGE_LIMIT {
          NoChainNext(F(), q, i, j);
        }
        i := i + 1;
      }
      return false;
    }

    /** GC_allochblk up to the point where it would collect: search the free lists, and if that
        fails merge free blocks and search again.  `mid` are the blocks before the place is taken. */
    method AllocBlock(t: Tables, q: Request, limit: nat, mode: Splitting) returns (r: Option<nat>, ghost mid: Tiles)
      requires Inv() && q.Valid() && limit <= N_HBLK_FLS && mode != Never
      modifies this`tiles, this`links, this`heads, this`counts, this`lists, this`largeFree, this`unmappedRuns,
               this`pages, this`dropped, this`dropCount
      ensures Inv() && KeepsUsed(old(tiles), mid) && (!q.MayDrop() ==> Rearranged(old(tiles), mid))
      ensures r.None? ==> tiles == mid && largeFree + dropped == old(largeFree) + old(dropped)
      ensures r.None? && !TooBig(q) ==> NoExact(t, q, tiles) && Exhausted(t, q, mode, tiles, limit + 1)
      ensures r.Some? ==>
                || Found(t, q, Never, mid, r.value, FlIndex(q.need), old(largeFree) + old(dropped))
                || FoundLarger(t, q, mode, mid, r.value, limit, old(largeFree) + old(dropped))
      ensures q.Anywhere() && limit == N_HBLK_FLS && mode == Allowed && |region| < MERGE_LIMIT ==>
                (r.Some? <==> !TooBig(q) && HasRoom(q, old(tiles)))
      ensures Tidy(old(tiles)) ==> Tidy(tiles)
    {
      hide Sum;
      hide Free.Ok;
      hide GeoOk;
      hide FoundLarger;
      hide Found;
      hide Exhausted;
      hide NoExact;
      hide OneChain;
      hide EndsLate;
      hide Tidy;
      hide Rearranged;
      hide Request.Suits;
      hide HasRoom;
      RearrangedSame(tiles);
      if q.need + (if q.align == 1 then 0 else q.align) >= MERGE_LIMIT {
        return None, tiles;
      }
      r, mid := AllocFromFreeLists(t, q, limit, mode);
      if r.Some? {
        FoundRoom(this, t, q, mode, old(tiles), mid, r.value, limit, old(largeFree) + old(dropped));
        return;
      }
      GeoTiled(tiles, region, pages, unmappedRuns);
      ghost var t1 := tiles;
      var merged := MergeForAlloc(q);
      assert largeFree + dropped == old(largeFree) + old(dropped);
      if merged {
        ghost var t2 := tiles;
        r, mid := AllocFromFreeLists(t, q, limit, mode);
        MergedKeeps(old(tiles), t1, t2, mid);
        if r.Some? {
          FoundRoom(this, t, q, mode, old(tiles), mid, r.value, limit, old(largeFree) + old(dropped));
        } else if q.Anywhere() && limit == N_HBLK_FLS && mode == Allowed {
          AllSearched(t, q, tiles);
          FitsSuits(t, q, tiles);
        }
      } else {
        mid := tiles;
        if q.Anywhere() && limit == N_HBLK_FLS && mode == Allowed && |region| < MERGE_LIMIT {
          AllSearched(t, q, tiles);
          NoRoom(t, q, tiles, region);
        }
      }
    }

    /** Unmap a mapped free block unless that makes too many unmapped runs. */
    method TryUnmap(b: nat, softLimit: nat) returns (ok: bool)
      requires Inv() && b in tiles && tiles[b].free && tiles[b].mapped && unmappedRuns < softLimit
      modifies this`tiles, this`unmappedRuns, this`pages
      ensures Inv() && Rearranged(old(tiles), tiles) && unmappedRuns < softLimit
      ensures tiles == (if ok then Flip(old(tiles), b) else old(tiles)) && tiles.Keys == old(tiles).Keys
      ensures !ok ==> TooManyRuns(tiles, unmappedRuns, softLimit, b)
    {
      hide Free.Ok;
      hide GeoOk;
      hide Rearranged;
      hide Delta;
      var d := RunsDelta(b);
      if d >= 0 && unmappedRuns + d >= softLimit {
        RearrangedSame(tiles);
        return false;
      }
      FlipRearranged(tiles, b);
      FlipMapping(b, {}, {}, 0);
      return true;
    }

    /** Unmap the idle blocks of list `i`, unless there get to be too many unmapped runs. */
    method UnmapList(i: nat, idle: set<nat>, softLimit: nat, ghost t0: Tiles) returns (all: bool)
      requires Inv() && i <= N_HBLK_FLS && unmappedRuns < softLimit
      requires Rearranged(t0, tiles) && OnlyUnmaps(t0, tiles, idle) && IdleUnmapped(tiles, idle, i)
      modifies this`tiles, this`unmappedRuns, this`pages
      ensures Inv() && unmappedRuns < softLimit
      ensures Rearranged(t0, tiles) && OnlyUnmaps(t0, tiles, idle)
      ensures all ==> IdleUnmapped(tiles, idle, i + 1)
      ensures !all ==> exists j: nat :: StuckAt(lists, tiles, idle, unmappedRuns, softLimit, i, j)
    {
      hide Free.Ok;
      hide GeoOk;
      hide Rearranged;
      hide OnlyUnmaps;
      hide IdleUnmapped;
      hide UnmappedOn;
      hide TooManyRuns;
      OkShape(F(), {}, {});
      HeadIs(F(), i);
      var h := heads[i];
      ghost var j := 0;
      UnmappedNone(tiles, idle, lists[i]);
      while h.Some?
        invariant Inv() && Rearranged(t0, tiles) && OnlyUnmaps(t0, tiles, idle)
        invariant unmappedRuns < softLimit && i < |lists| && h == At(lists, i, j)
        invariant IdleUnmapped(tiles, idle, i) && UnmappedOn(tiles, idle, lists[i], j)
        decreases |lists[i]| - j
      {
        var b := h.value;
        LinkIs(F(), i, j);
        if tiles[b].mapped && b in idle {
          ghost var t1 := tiles;
          var ok := TryUnmap(b, softLimit);
          RearrangedTrans(t0, t1, tiles);
          if !ok {
            assert StuckAt(lists, tiles, idle, unmappedRuns, softLimit, i, j);
            return false;
          }
          UnmapsMore(t0, t1, idle, b);
          UnmappedStays(t1, idle, lists[i], i, j, b);
        }
        UnmappedNext(tiles, idle, lists[i], j);
        h, j := links[b].next, j + 1;
      }
      ListUnmapped(F(), idle, i, j);
      return true;
    }

    /** GC_unmap_old: give back the free blocks that have not been used for long, `idle`, until
        that would make too many unmapped runs; `all` says whether it came to the end. */
    method UnmapOld(idle: set<nat>, softLimit: nat) returns (all: bool)
      requires Inv()
      modifies this`tiles, this`unmappedRuns, this`pages
      ensures Inv() && Rearranged(old(tiles), tiles) && OnlyUnmaps(old(tiles), tiles, idle)
      ensures unmappedRuns < softLimit || tiles == old(tiles)
      ensures all ==> forall b :: b in tiles && tiles[b].free && b in idle ==> !tiles[b].mapped
      ensures !all ==>
                || old(unmappedRuns) >= softLimit
                || exists i: nat, j: nat :: StuckAt(lists, tiles, idle, unmappedRuns, softLimit, i, j)
    {
      hide Free.Ok;
      hide GeoOk;
      hide Rearranged;
      hide OnlyUnmaps;
      hide StuckAt;
      RearrangedSame(tiles);
      UnmapsNone(tiles, idle);
      if unmappedRuns >= softLimit {
        return false;
      }
      all := true;
      var i := 0;
      while i <= N_HBLK_FLS && all
        invariant Inv() && Rearranged(old(tiles), tiles) && OnlyUnmaps(old(tiles), tiles, idle)
        invariant i <= N_HBLK_FLS + 1 && unmappedRuns < softLimit
        invariant all ==> IdleUnmapped(tiles, idle, i)
        invariant !all ==> exists k: nat, j: nat :: StuckAt(lists, tiles, idle, unmappedRuns, softLimit, k, j)
        decreases N_HBLK_FLS + 1 - i, all
      {
        all := UnmapList(i, idle, softLimit, old(tiles));
        i := i + 1;
      }
    }

    /** GC_add_to_heap: the heap grows by `n` units from `lo` on.  Block numbers 0 and 1 are left
        out; the free block in front of the new ones, if any, is `prev`. */
    method GrowHeap(lo: nat, n: nat) returns (ghost prev: Option<nat>, start: nat)
      requires Inv() && n < MERGE_LIMIT && forall x :: lo <= x < lo + n ==> x !in region
      modifies this`tiles, this`links, this`heads, this`counts, this`lists, this`largeFree, this`region, this`pages
      ensures Inv() && start == (if lo <= 1 then 2 else lo)
      ensures region == old(region) + Span(start, if start < lo + n then lo + n - start else 0)
      ensures start >= lo + n ==> tiles == old(tiles)
      ensures start < lo + n ==>
                var added := old(tiles)[start := Tile(lo + n - start, false, true)];
                EndsFree(added, start, prev) && tiles == Freed(added, start, prev)
      ensures Tidy(old(tiles)) && |region| < MERGE_LIMIT ==> Tidy(tiles)
    {
      hide *;
      prev := None;
      start := if lo <= 1 then 2 else lo;
      if start < lo + n {
        prev := AddFree(start, lo + n - start);
      } else {
        assert region + Span(start, 0) == region;
      }
    }

    /** New memory, as one block that is freed at once. */
    method AddFree(start: nat, size: nat) returns (ghost prev: Option<nat>)
      requires Inv() && 0 < size < MERGE_LIMIT && forall x :: start <= x < start + size ==> x !in region
      modifies this`tiles, this`links, this`heads, this`counts, this`lists, this`largeFree, this`region, this`pages
      ensures Inv() && region == old(region) + Span(start, size)
      ensures var added := old(tiles)[start := Tile(size, false, true)];
              EndsFree(added, start, prev) && tiles == Freed(added, start, prev)
      ensures Tidy(old(tiles)) && |region| < MERGE_LIMIT ==> Tidy(tiles)
    {
      hide *;
      AddUsed(start, size);
      prev := FreeBlock(start);
    }

    /** New memory, as one block in use. */
    method AddUsed(start: nat, size: nat)
      requires Inv() && size >= 1 && forall x :: start <= x < start + size ==> x !in region
      modifies this`tiles, this`region, this`pages
      ensures Inv() && tiles == old(tiles)[start := Tile(size, false, true)]
      ensures region == old(region) + Span(start, size)
      ensures Tidy(old(tiles)) ==> Tidy(tiles)
    {
      hide Free.Ok;
      hide GeoOk;
      hide Tidy;
      ghost var f := F();
      AddedUsed(f, region, pages, unmappedRuns, start, size);
      AddedTidy(tiles, region, pages, unmappedRuns, start, size);
      tiles := tiles[start := Tile(size, false, true)];
      region := region + Span(start, size);
      pages := pages + Span(start, size);
      assert F() == f.(tiles := tiles);
    }

    /** An empty heap. */
    constructor ()
      ensures Inv() && tiles == map[] && region == {} && largeFree == 0 && dropped == 0
    {
      tiles, links, heads, counts := map[], map[], seq(N_HBLK_FLS + 1, _ => None), seq(N_HBLK_FLS + 1, _ => 0);
      largeFree, unmappedRuns, pages, dropped, dropCount := 0, 0, {}, 0, 0;
      lists, region := seq(N_HBLK_FLS + 1, _ => []), {};
      new;
      SumZero(counts);
      assert RunStarts(tiles) == {};
    }
  }

  /** What was found was there before. */
  lemma FoundRoom(heap: BlockHeap, t: Tables, q: Request, mode: Splitting, t0: Tiles, mid: Tiles, r: nat,
                  limit: nat, free0: int)
    requires q.Valid()
    requires heap.FoundLarger(t, q, mode, mid, r, limit, free0)
             || heap.Found(t, q, Never, mid, r, FlIndex(q.need), free0)
    ensures heap.Inv() && (Tidy(mid) ==> Tidy(heap.tiles))
    ensures Rearranged(t0, mid) ==> HasRoom(q, t0)
  {
    assert AllFree(mid, r, q.need);
    if Rearranged(t0, mid) {
      assert AllFree(t0, r, q.need);
    }
  }
}
