/** The heap as a row of blocks: every block number of the heap lies in exactly one block,
    blocks are split and merged, and free ones may be given back to the system. */
module HeapTiles {
  import opened Prelude

  /** The part of a block header that says what the block is; sizes are in units of HBLKSIZE. */
  datatype Tile = Tile(size: nat, free: bool, mapped: bool)

  type Tiles = map<nat, Tile>

  ghost predicate In(tiles: Tiles, b: nat, x: nat) {
    b in tiles && b <= x < b + tiles[b].size
  }

  /** The blocks do not overlap and cover exactly the numbers of `region`. */
  ghost predicate Tiled(tiles: Tiles, region: set<nat>) {
    && (forall b :: b in tiles ==> tiles[b].size >= 1)
    && (forall b, c :: b in tiles && c in tiles && b < c ==> b + tiles[b].size <= c)
    && (forall b: nat, x: nat :: In(tiles, b, x) ==> x in region)
    && (forall x: nat :: x in region ==> exists b: nat :: In(tiles, b, x))
  }

  /** A block reflagged in place. */
  lemma ReflagTiled(tiles: Tiles, region: set<nat>, b: nat, t: Tile)
    requires Tiled(tiles, region) && b in tiles && t.size == tiles[b].size
    ensures Tiled(tiles[b := t], region)
  {
    var to := tiles[b := t];
    assert forall c: nat, x: nat :: In(to, c, x) <==> In(tiles, c, x);
  }

  /** Block `b` cut after `k` units. */
  function Cut(tiles: Tiles, b: nat, k: nat, front: Tile, back: Tile): Tiles {
    tiles[b := front][b + k := back]
  }

  lemma CutIn(tiles: Tiles, b: nat, k: nat, front: Tile, back: Tile, x: nat)
    requires b in tiles && 0 < k < tiles[b].size && b + k !in tiles
    requires front.size == k && back.size == tiles[b].size - k
    ensures (exists c: nat :: In(Cut(tiles, b, k, front, back), c, x)) <==> exists c: nat :: In(tiles, c, x)
  {
    var to := Cut(tiles, b, k, front, back);
    if c: nat :| In(to, c, x) {
      assert In(tiles, if c == b || c == b + k then b else c, x);
    }
    if c: nat :| In(tiles, c, x) {
      assert In(to, if c == b && x >= b + k then b + k else c, x);
    }
  }

  lemma CutTiled(tiles: Tiles, region: set<nat>, b: nat, k: nat, front: Tile, back: Tile)
    requires Tiled(tiles, region) && b in tiles && 0 < k < tiles[b].size
    requires front.size == k && back.size == tiles[b].size - k
    ensures b + k !in tiles
    ensures Tiled(Cut(tiles, b, k, front, back), region)
  {
    var to := Cut(tiles, b, k, front, back);
    assert b + k !in tiles;
    forall x: nat
      ensures x in region <==> exists c: nat :: In(to, c, x)
    {
      CutIn(tiles, b, k, front, back, x);
    }
  }

  /** Block `b` and its right neighbour made one. */
  function Joined(tiles: Tiles, b: nat, t: Tile): Tiles
    requires b in tiles
  {
    (tiles - {b + tiles[b].size})[b := t]
  }

  lemma JoinIn(tiles: Tiles, b: nat, t: Tile, x: nat)
    requires b in tiles && b + tiles[b].size in tiles && tiles[b].size >= 1
    requires t.size == tiles[b].size + tiles[b + tiles[b].size].size
    ensures (exists c: nat :: In(Joined(tiles, b, t), c, x)) <==> exists c: nat :: In(tiles, c, x)
  {
    var n := b + tiles[b].size;
    var to := Joined(tiles, b, t);
    if c: nat :| In(to, c, x) {
      assert In(tiles, if c == b && x >= n then n else c, x);
    }
    if c: nat :| In(tiles, c, x) {
      assert In(to, if c == n then b else c, x);
    }
  }

  lemma JoinTiled(tiles: Tiles, region: set<nat>, b: nat, t: Tile)
    requires Tiled(tiles, region) && b in tiles && b + tiles[b].size in tiles
    requires t.size == tiles[b].size + tiles[b + tiles[b].size].size
    ensures Tiled(Joined(tiles, b, t), region)
  {
    var to := Joined(tiles, b, t);
    forall x: nat
      ensures x in region <==> exists c: nat :: In(to, c, x)
    {
      JoinIn(tiles, b, t, x);
    }
  }

  lemma AddApart(tiles: Tiles, region: set<nat>, b: nat, t: Tile)
    requires Tiled(tiles, region) && t.size >= 1
    requires forall x :: b <= x < b + t.size ==> x !in region
    ensures b !in tiles
    ensures forall c :: c in tiles ==> c + tiles[c].size <= b || b + t.size <= c
  {
    forall c | c in tiles
      ensures c + tiles[c].size <= b || b + t.size <= c
    {
      assert In(tiles, c, c);
      if c <= b < c + tiles[c].size {
        assert In(tiles, c, b);
      }
    }
  }

  lemma AddTiled(tiles: Tiles, region: set<nat>, b: nat, t: Tile)
    requires Tiled(tiles, region) && t.size >= 1
    requires forall x :: b <= x < b + t.size ==> x !in region
    ensures Tiled(tiles[b := t], region + Span(b, t.size))
  {
    AddApart(tiles, region, b, t);
    var to := tiles[b := t];
    forall c: nat, x: nat | In(to, c, x)
      ensures x in region + Span(b, t.size)
    {
      assert c != b ==> In(tiles, c, x);
    }
    forall x: nat | x in region + Span(b, t.size)
      ensures exists c: nat :: In(to, c, x)
    {
      if x in region {
        var c: nat :| In(tiles, c, x);
        assert In(to, c, x);
      } else {
        assert In(to, b, x);
      }
    }
  }

  // ----- Adjacent free blocks -----

  /** Block `b` and the one that follows it are both free and mapped. */
  ghost predicate Touching(tiles: Tiles, b: nat) {
    && b in tiles && tiles[b].free && tiles[b].mapped
    && b + tiles[b].size in tiles && tiles[b + tiles[b].size].free && tiles[b + tiles[b].size].mapped
  }

  /** No free block is directly followed by another one, unless memory was given back. */
  ghost predicate Coalesced(tiles: Tiles) {
    forall b: nat :: !Touching(tiles, b)
  }

  // ----- Mapped and unmapped memory -----

  /** The memory of a block is wholly mapped or wholly unmapped, as its flag says. */
  ghost predicate PagesOk(tiles: Tiles, pages: set<nat>) {
    forall b: nat, x: nat :: In(tiles, b, x) ==> (x in pages <==> tiles[b].mapped)
  }

  ghost predicate UsedMapped(tiles: Tiles) {
    forall b :: b in tiles && !tiles[b].free ==> tiles[b].mapped
  }

  /** Is the block that ends where `b` starts, if any, unmapped? */
  ghost predicate PrevUnmapped(tiles: Tiles, b: nat) {
    exists c :: c in tiles && c + tiles[c].size == b && !tiles[c].mapped
  }

  /** The unmapped blocks at which a maximal run of unmapped blocks starts. */
  ghost function RunStarts(tiles: Tiles): set<nat> {
    set b | b in tiles && !tiles[b].mapped && !PrevUnmapped(tiles, b)
  }

  ghost predicate NextUnmapped(tiles: Tiles, b: nat)
    requires b in tiles
  {
    b + tiles[b].size in tiles && !tiles[b + tiles[b].size].mapped
  }

  /** calc_num_unmapped_regions_delta. */
  ghost function Delta(tiles: Tiles, b: nat): int
    requires b in tiles
  {
    if PrevUnmapped(tiles, b) && NextUnmapped(tiles, b) then (if tiles[b].mapped then -1 else 1)
    else if !PrevUnmapped(tiles, b) && !NextUnmapped(tiles, b) then (if tiles[b].mapped then 1 else -1)
    else 0
  }

  /** At most one block ends at a given place. */
  lemma OneEndsAt(tiles: Tiles, region: set<nat>, b: nat, c: nat)
    requires Tiled(tiles, region) && b in tiles && c in tiles && b + tiles[b].size == c + tiles[c].size
    ensures b == c
  {
  }

  function Flip(tiles: Tiles, b: nat): Tiles
    requires b in tiles
  {
    tiles[b := tiles[b].(mapped := !tiles[b].mapped)]
  }

  /** Only the block after `b` sees the flip. */
  lemma FlipPrev(tiles: Tiles, region: set<nat>, b: nat, c: nat)
    requires Tiled(tiles, region) && b in tiles
    ensures PrevUnmapped(Flip(tiles, b), c) ==
            if c == b + tiles[b].size then tiles[b].mapped else PrevUnmapped(tiles, c)
    ensures c == b + tiles[b].size ==> PrevUnmapped(tiles, c) == !tiles[b].mapped
  {
    var to := Flip(tiles, b);
    if c == b + tiles[b].size {
      assert b in to && b + to[b].size == c;
      forall d | d in tiles && d + tiles[d].size == c
        ensures d == b
      {
        OneEndsAt(tiles, region, b, d);
      }
    } else {
      forall d | d in tiles && d + tiles[d].size == c
        ensures d != b && to[d] == tiles[d]
      {
      }
    }
  }

  lemma FlipRest(tiles: Tiles, region: set<nat>, b: nat)
    requires Tiled(tiles, region) && b in tiles
    ensures RunStarts(Flip(tiles, b)) - {b, b + tiles[b].size} == RunStarts(tiles) - {b, b + tiles[b].size}
  {
    forall c: nat | c != b && c != b + tiles[b].size
      ensures c in RunStarts(Flip(tiles, b)) <==> c in RunStarts(tiles)
    {
      FlipPrev(tiles, region, b, c);
    }
  }

  lemma FlipEnds(tiles: Tiles, region: set<nat>, b: nat)
    requires Tiled(tiles, region) && b in tiles
    ensures b in RunStarts(tiles) <==> !tiles[b].mapped && !PrevUnmapped(tiles, b)
    ensures b in RunStarts(Flip(tiles, b)) <==> tiles[b].mapped && !PrevUnmapped(tiles, b)
    ensures b + tiles[b].size in RunStarts(tiles) <==> NextUnmapped(tiles, b) && tiles[b].mapped
    ensures b + tiles[b].size in RunStarts(Flip(tiles, b)) <==> NextUnmapped(tiles, b) && !tiles[b].mapped
    ensures tiles[b].size >= 1
  {
    FlipPrev(tiles, region, b, b);
    FlipPrev(tiles, region, b, b + tiles[b].size);
  }

  /** Mapping or unmapping one block changes the number of runs by exactly `Delta`. */
  lemma FlipRuns(tiles: Tiles, region: set<nat>, b: nat)
    requires Tiled(tiles, region) && b in tiles
    ensures |RunStarts(Flip(tiles, b))| == |RunStarts(tiles)| + Delta(tiles, b)
  {
    hide RunStarts;
    hide Tiled;
    hide PrevUnmapped;
    var n := b + tiles[b].size;
    FlipRest(tiles, region, b);
    FlipEnds(tiles, region, b);
    Parts(RunStarts(tiles), b, n);
    Parts(RunStarts(Flip(tiles, b)), b, n);
  }

  lemma Parts(s: set<nat>, b: nat, n: nat)
    requires b != n
    ensures |s| == |s - {b, n}| + (if b in s then 1 else 0) + (if n in s then 1 else 0)
  {
  }

  lemma JoinPrev(tiles: Tiles, region: set<nat>, b: nat, t: Tile, c: nat)
    requires Tiled(tiles, region) && b in tiles && b + tiles[b].size in tiles && c != b + tiles[b].size
    requires t.size == tiles[b].size + tiles[b + tiles[b].size].size
    requires t.mapped == tiles[b].mapped == tiles[b + tiles[b].size].mapped
    ensures PrevUnmapped(Joined(tiles, b, t), c) == PrevUnmapped(tiles, c)
  {
    assert tiles[b].size >= 1;
    hide Tiled;
    if PrevUnmapped(tiles, c) {
      PrevBeforeJoin(tiles, b, t, c);
    }
    if PrevUnmapped(Joined(tiles, b, t), c) {
      PrevAfterJoin(tiles, b, t, c);
    }
  }

  lemma PrevBeforeJoin(tiles: Tiles, b: nat, t: Tile, c: nat)
    requires b in tiles && tiles[b].size >= 1 && b + tiles[b].size in tiles && c != b + tiles[b].size
    requires t.size == tiles[b].size + tiles[b + tiles[b].size].size
    requires t.mapped == tiles[b].mapped == tiles[b + tiles[b].size].mapped && PrevUnmapped(tiles, c)
    ensures PrevUnmapped(Joined(tiles, b, t), c)
  {
    var to := Joined(tiles, b, t);
    var d :| d in tiles && d + tiles[d].size == c && !tiles[d].mapped;
    var d' := if d == b + tiles[b].size then b else d;
    assert d' in to && d' + to[d'].size == c && !to[d'].mapped;
  }

  lemma PrevAfterJoin(tiles: Tiles, b: nat, t: Tile, c: nat)
    requires b in tiles && tiles[b].size >= 1 && b + tiles[b].size in tiles
    requires t.size == tiles[b].size + tiles[b + tiles[b].size].size
    requires t.mapped == tiles[b].mapped == tiles[b + tiles[b].size].mapped && PrevUnmapped(Joined(tiles, b, t), c)
    ensures PrevUnmapped(tiles, c)
  {
    var to := Joined(tiles, b, t);
    var d :| d in to && d + to[d].size == c && !to[d].mapped;
    var d' := if d == b then b + tiles[b].size else d;
    assert d' in tiles && d' + tiles[d'].size == c && !tiles[d'].mapped;
  }

  /** Joining two blocks in the same mapping state keeps the runs. */
  lemma JoinRuns(tiles: Tiles, region: set<nat>, b: nat, t: Tile)
    requires Tiled(tiles, region) && b in tiles && b + tiles[b].size in tiles
    requires t.size == tiles[b].size + tiles[b + tiles[b].size].size
    requires t.mapped == tiles[b].mapped == tiles[b + tiles[b].size].mapped
    ensures RunStarts(Joined(tiles, b, t)) == RunStarts(tiles)
  {
    var n := b + tiles[b].size;
    assert tiles[b].size >= 1;
    assert !tiles[n].mapped ==> PrevUnmapped(tiles, n);
    hide Tiled;
    hide PrevUnmapped;
    var to := Joined(tiles, b, t);
    forall c: nat | c != n
      ensures PrevUnmapped(to, c) == PrevUnmapped(tiles, c)
    {
      JoinPrev(tiles, region, b, t, c);
    }
  }

  /** Cutting a mapped block keeps the runs. */
  lemma CutRuns(tiles: Tiles, region: set<nat>, b: nat, k: nat, front: Tile, back: Tile)
    requires Tiled(tiles, region) && b in tiles && 0 < k < tiles[b].size
    requires front.size == k && back.size == tiles[b].size - k
    requires tiles[b].mapped && front.mapped && back.mapped
    ensures RunStarts(Cut(tiles, b, k, front, back)) == RunStarts(tiles)
  {
    CutTiled(tiles, region, b, k, front, back);
    var to := Cut(tiles, b, k, front, back);
    forall c: nat | c != b + k
      ensures PrevUnmapped(to, c) == PrevUnmapped(tiles, c)
    {
      if PrevUnmapped(tiles, c) {
        var d :| d in tiles && d + tiles[d].size == c && !tiles[d].mapped;
        assert d in to && to[d] == tiles[d];
      }
    }
  }

  /** Reflagging without changing size or mapping keeps the runs. */
  lemma ReflagRuns(tiles: Tiles, b: nat, t: Tile)
    requires b in tiles && t.size == tiles[b].size && t.mapped == tiles[b].mapped
    ensures RunStarts(tiles[b := t]) == RunStarts(tiles)
  {
    var to := tiles[b := t];
    forall c: nat
      ensures PrevUnmapped(to, c) == PrevUnmapped(tiles, c)
    {
      if PrevUnmapped(tiles, c) {
        var d :| d in tiles && d + tiles[d].size == c && !tiles[d].mapped;
        assert d in to && d + to[d].size == c && !to[d].mapped;
      }
    }
  }

  /** A new mapped block where there was none keeps the runs. */
  lemma AddRuns(tiles: Tiles, b: nat, t: Tile)
    requires b !in tiles && t.mapped
    ensures RunStarts(tiles[b := t]) == RunStarts(tiles)
  {
    var to := tiles[b := t];
    forall c: nat
      ensures PrevUnmapped(to, c) == PrevUnmapped(tiles, c)
    {
      if PrevUnmapped(tiles, c) {
        var d :| d in tiles && d + tiles[d].size == c && !tiles[d].mapped;
        assert d in to && d + to[d].size == c && !to[d].mapped;
      }
    }
  }

  // ----- All of it together -----

  /** The blocks tile the heap, memory is mapped as their flags say, blocks in use are mapped,
      and `runs` counts the maximal runs of unmapped blocks. */
  ghost predicate GeoOk(tiles: Tiles, region: set<nat>, pages: set<nat>, runs: int) {
    && Tiled(tiles, region)
    && PagesOk(tiles, pages)
    && UsedMapped(tiles)
    && runs == |RunStarts(tiles)|
  }

  lemma GeoReflag(tiles: Tiles, region: set<nat>, pages: set<nat>, runs: int, b: nat, t: Tile)
    requires GeoOk(tiles, region, pages, runs) && b in tiles
    requires t.size == tiles[b].size && t.mapped == tiles[b].mapped && (!t.free ==> t.mapped)
    ensures GeoOk(tiles[b := t], region, pages, runs)
  {
    hide Tiled;
    hide PagesOk;
    hide RunStarts;
    ReflagTiled(tiles, region, b, t);
    ReflagRuns(tiles, b, t);
    ReflagPages(tiles, pages, b, t);
  }

  lemma ReflagPages(tiles: Tiles, pages: set<nat>, b: nat, t: Tile)
    requires PagesOk(tiles, pages) && b in tiles && t.size == tiles[b].size && t.mapped == tiles[b].mapped
    ensures PagesOk(tiles[b := t], pages)
  {
    assert forall c: nat, x: nat :: In(tiles[b := t], c, x) ==> In(tiles, c, x);
  }

  lemma GeoCut(tiles: Tiles, region: set<nat>, pages: set<nat>, runs: int, b: nat, k: nat, front: Tile, back: Tile)
    requires GeoOk(tiles, region, pages, runs) && b in tiles && 0 < k < tiles[b].size
    requires front.size == k && back.size == tiles[b].size - k
    requires tiles[b].mapped && front.mapped && back.mapped
    ensures b + k !in tiles
    ensures GeoOk(Cut(tiles, b, k, front, back), region, pages, runs)
  {
    CutTiled(tiles, region, b, k, front, back);
    CutRuns(tiles, region, b, k, front, back);
    var to := Cut(tiles, b, k, front, back);
    forall c: nat, x: nat | In(to, c, x)
      ensures x in pages <==> to[c].mapped
    {
      assert In(tiles, if c == b || c == b + k then b else c, x);
    }
  }

  lemma JoinPages(tiles: Tiles, pages: set<nat>, b: nat, t: Tile)
    requires PagesOk(tiles, pages) && b in tiles && b + tiles[b].size in tiles
    requires t.size == tiles[b].size + tiles[b + tiles[b].size].size
    requires t.mapped == tiles[b].mapped == tiles[b + tiles[b].size].mapped
    ensures PagesOk(Joined(tiles, b, t), pages)
  {
  }

  lemma GeoJoin(tiles: Tiles, region: set<nat>, pages: set<nat>, runs: int, b: nat, t: Tile)
    requires GeoOk(tiles, region, pages, runs) && b in tiles && b + tiles[b].size in tiles
    requires t.size == tiles[b].size + tiles[b + tiles[b].size].size && t.free
    requires t.mapped == tiles[b].mapped == tiles[b + tiles[b].size].mapped
    ensures GeoOk(Joined(tiles, b, t), region, pages, runs)
  {
    JoinTiled(tiles, region, b, t);
    JoinRuns(tiles, region, b, t);
    hide RunStarts;
    hide Tiled;
    JoinPages(tiles, pages, b, t);
  }

  /** The pages after block `b` was mapped or unmapped. */
  function FlipPages(tiles: Tiles, pages: set<nat>, b: nat): set<nat>
    requires b in tiles
  {
    if tiles[b].mapped then pages - Span(b, tiles[b].size) else pages + Span(b, tiles[b].size)
  }

  lemma GeoFlip(tiles: Tiles, region: set<nat>, pages: set<nat>, runs: int, b: nat)
    requires GeoOk(tiles, region, pages, runs) && b in tiles && tiles[b].free
    ensures GeoOk(Flip(tiles, b), region, FlipPages(tiles, pages, b), runs + Delta(tiles, b))
  {
    ReflagTiled(tiles, region, b, Flip(tiles, b)[b]);
    FlipRuns(tiles, region, b);
    var to := Flip(tiles, b);
    forall c: nat, x: nat | In(to, c, x)
      ensures x in FlipPages(tiles, pages, b) <==> to[c].mapped
    {
      assert In(tiles, c, x);
      if c != b && b <= x < b + tiles[b].size {
        assert In(tiles, b, x);
        OneHolds(tiles, region, b, c, x);
      }
    }
  }

  lemma OneHolds(tiles: Tiles, region: set<nat>, b: nat, c: nat, x: nat)
    requires Tiled(tiles, region) && In(tiles, b, x) && In(tiles, c, x)
    ensures b == c
  {
  }

  lemma GeoAdd(tiles: Tiles, region: set<nat>, pages: set<nat>, runs: int, b: nat, t: Tile)
    requires GeoOk(tiles, region, pages, runs) && t.size >= 1 && t.mapped
    requires forall x :: b <= x < b + t.size ==> x !in region
    ensures b !in tiles
    ensures GeoOk(tiles[b := t], region + Span(b, t.size), pages + Span(b, t.size), runs)
  {
    AddApart(tiles, region, b, t);
    AddTiled(tiles, region, b, t);
    AddRuns(tiles, b, t);
    var to := tiles[b := t];
    forall c: nat, x: nat | In(to, c, x)
      ensures x in pages + Span(b, t.size) <==> to[c].mapped
    {
      if c != b {
        assert In(tiles, c, x) && x in region;
      }
    }
  }
}
