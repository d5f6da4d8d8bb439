/** Which units of the heap are free, independently of how they are cut into blocks. */
module HeapUse {
  import opened Prelude
  import opened HeapTiles

  ghost predicate FreeAt(tiles: Tiles, x: nat) {
    exists b: nat :: In(tiles, b, x) && tiles[b].free
  }

  ghost predicate AllFree(tiles: Tiles, lo: nat, n: nat) {
    forall x: nat :: lo <= x < lo + n ==> FreeAt(tiles, x)
  }

  /** The blocks in use are left alone. */
  ghost predicate KeepsUsed(tiles: Tiles, to: Tiles) {
    forall b :: b in tiles && !tiles[b].free ==> b in to && to[b] == tiles[b]
  }

  ghost predicate SameFree(tiles: Tiles, to: Tiles) {
    forall x: nat :: FreeAt(to, x) <==> FreeAt(tiles, x)
  }

  /** The free memory is cut into blocks, or mapped, differently; nothing else changes. */
  ghost predicate Rearranged(tiles: Tiles, to: Tiles) {
    KeepsUsed(tiles, to) && SameFree(tiles, to)
  }

  /** The `n` units from `lo` on were free and have become the block `lo`, in use. */
  ghost predicate Took(tiles: Tiles, to: Tiles, lo: nat, n: nat) {
    && KeepsUsed(tiles, to)
    && lo in to && to[lo] == Tile(n, false, true)
    && AllFree(tiles, lo, n)
    && forall x: nat :: FreeAt(to, x) <==> FreeAt(tiles, x) && !(lo <= x < lo + n)
  }

  lemma RearrangedSame(tiles: Tiles)
    ensures Rearranged(tiles, tiles)
  {
  }

  lemma RearrangedTrans(a: Tiles, b: Tiles, c: Tiles)
    requires Rearranged(a, b) && Rearranged(b, c)
    ensures Rearranged(a, c)
  {
  }

  lemma RearrangedTook(a: Tiles, b: Tiles, c: Tiles, lo: nat, n: nat)
    requires Rearranged(a, b) && Took(b, c, lo, n)
    ensures Took(a, c, lo, n)
  {
  }

  lemma FlipRearranged(tiles: Tiles, b: nat)
    requires b in tiles && tiles[b].free
    ensures Rearranged(tiles, Flip(tiles, b))
  {
    var to := Flip(tiles, b);
    forall x: nat
      ensures FreeAt(to, x) <==> FreeAt(tiles, x)
    {
      assert forall c: nat :: In(to, c, x) && to[c].free <==> In(tiles, c, x) && tiles[c].free;
    }
  }

  lemma JoinRearranged(tiles: Tiles, b: nat, t: Tile)
    requires b in tiles && tiles[b].free && b + tiles[b].size in tiles && tiles[b + tiles[b].size].free
    requires t.free && t.size == tiles[b].size + tiles[b + tiles[b].size].size
    ensures Rearranged(tiles, Joined(tiles, b, t))
  {
    var n := b + tiles[b].size;
    var to := Joined(tiles, b, t);
    forall x: nat
      ensures FreeAt(to, x) <==> FreeAt(tiles, x)
    {
      if FreeAt(tiles, x) {
        var c: nat :| In(tiles, c, x) && tiles[c].free;
        assert In(to, if c == n then b else c, x);
      }
      if FreeAt(to, x) {
        var c: nat :| In(to, c, x) && to[c].free;
        assert In(tiles, if c == b && x >= n then n else c, x);
      }
    }
  }

  lemma CutFree(tiles: Tiles, b: nat, k: nat, front: Tile, back: Tile, x: nat)
    requires b in tiles && tiles[b].free && 0 < k < tiles[b].size && b + k !in tiles
    requires front.size == k && back.size == tiles[b].size - k && front.free && back.free
    ensures FreeAt(Cut(tiles, b, k, front, back), x) <==> FreeAt(tiles, x)
  {
    var to := Cut(tiles, b, k, front, back);
    if FreeAt(tiles, x) {
      var c: nat :| In(tiles, c, x) && tiles[c].free;
      assert In(to, if c == b && x >= b + k then b + k else c, x);
    }
    if FreeAt(to, x) {
      var c: nat :| In(to, c, x) && to[c].free;
      assert In(tiles, if c == b + k then b else c, x);
    }
  }

  /** A free block cut into two free blocks. */
  lemma CutRearranged(tiles: Tiles, b: nat, k: nat, front: Tile, back: Tile)
    requires b in tiles && tiles[b].free && 0 < k < tiles[b].size && b + k !in tiles
    requires front.size == k && back.size == tiles[b].size - k && front.free && back.free
    ensures Rearranged(tiles, Cut(tiles, b, k, front, back))
  {
    forall x: nat
      ensures FreeAt(Cut(tiles, b, k, front, back), x) <==> FreeAt(tiles, x)
    {
      CutFree(tiles, b, k, front, back, x);
    }
  }

  /** The tiles after the first `n` units of the free block `b` were taken. */
  function Taken(tiles: Tiles, b: nat, n: nat): Tiles
    requires b in tiles && n <= tiles[b].size
  {
    if tiles[b].size == n then tiles[b := Tile(n, false, true)]
    else Cut(tiles, b, n, Tile(n, false, true), Tile(tiles[b].size - n, true, true))
  }

  lemma TakenFree(tiles: Tiles, region: set<nat>, b: nat, n: nat, x: nat)
    requires Tiled(tiles, region) && b in tiles && tiles[b].free && 0 < n <= tiles[b].size
    ensures FreeAt(Taken(tiles, b, n), x) <==> FreeAt(tiles, x) && !(b <= x < b + n)
  {
    assert n < tiles[b].size ==> b + n !in tiles;
    hide Tiled;
    if FreeAt(tiles, x) && !(b <= x < b + n) {
      FreeAfterTake(tiles, b, n, x);
    }
    if FreeAt(Taken(tiles, b, n), x) {
      FreeBeforeTake(tiles, region, b, n, x);
    }
  }

  lemma FreeAfterTake(tiles: Tiles, b: nat, n: nat, x: nat)
    requires b in tiles && 0 < n <= tiles[b].size && (n < tiles[b].size ==> b + n !in tiles)
    requires FreeAt(tiles, x) && !(b <= x < b + n)
    ensures FreeAt(Taken(tiles, b, n), x)
  {
    var c: nat :| In(tiles, c, x) && tiles[c].free;
    assert In(Taken(tiles, b, n), if c == b then b + n else c, x);
  }

  lemma FreeBeforeTake(tiles: Tiles, region: set<nat>, b: nat, n: nat, x: nat)
    requires Tiled(tiles, region) && b in tiles && tiles[b].free && 0 < n <= tiles[b].size
    requires FreeAt(Taken(tiles, b, n), x)
    ensures FreeAt(tiles, x) && !(b <= x < b + n)
  {
    hide Tiled;
    var to := Taken(tiles, b, n);
    var c: nat :| In(to, c, x) && to[c].free;
    var c' := if c == b + n && n < tiles[b].size then b else c;
    assert In(tiles, c', x);
    if b <= x < b + n {
      OneHolds(tiles, region, b, c', x);
    }
  }

  lemma TakenTook(tiles: Tiles, region: set<nat>, b: nat, n: nat)
    requires Tiled(tiles, region) && b in tiles && tiles[b].free && 0 < n <= tiles[b].size
    ensures Took(tiles, Taken(tiles, b, n), b, n)
  {
    if n < tiles[b].size {
      CutTiled(tiles, region, b, n, Tile(n, false, true), Tile(tiles[b].size - n, true, true));
    }
    forall x: nat
      ensures FreeAt(Taken(tiles, b, n), x) <==> FreeAt(tiles, x) && !(b <= x < b + n)
    {
      TakenFree(tiles, region, b, n, x);
    }
    forall x: nat | b <= x < b + n
      ensures FreeAt(tiles, x)
    {
      assert In(tiles, b, x);
    }
  }

  /** Freeing block `b` adds exactly its units to the free ones. */
  lemma ReleaseFree(tiles: Tiles, b: nat)
    requires b in tiles && !tiles[b].free
    ensures forall x: nat :: FreeAt(tiles[b := tiles[b].(free := true)], x) <==> FreeAt(tiles, x) || In(tiles, b, x)
  {
    var to := tiles[b := tiles[b].(free := true)];
    forall x: nat
      ensures FreeAt(to, x) <==> FreeAt(tiles, x) || In(tiles, b, x)
    {
      assert forall c: nat :: In(to, c, x) <==> In(tiles, c, x);
      if FreeAt(tiles, x) {
        var c: nat :| In(tiles, c, x) && tiles[c].free;
        assert In(to, c, x) && to[c].free;
      }
    }
  }

  /** Some free blocks were taken away, as a whole; nothing else changes. */
  ghost predicate Fewer(tiles: Tiles, to: Tiles) {
    && KeepsUsed(tiles, to)
    && forall b :: b in to && to[b].free ==> b in tiles && tiles[b] == to[b]
  }

  lemma FewerTrans(a: Tiles, b: Tiles, c: Tiles)
    requires Fewer(a, b) && Fewer(b, c)
    ensures Fewer(a, c)
  {
  }

  /** Blocks of one unit, in use, from `b` up to `limit`. */
  function Shredded(tiles: Tiles, b: nat, limit: nat): Tiles {
    map x | x in tiles.Keys + Span(b, if b <= limit then limit - b else 0) ::
      if b <= x < limit then Tile(1, false, true) else tiles[x]
  }

  lemma ShreddedAfter(tiles: Tiles, b: nat, t: Tile, limit: nat)
    requires b in tiles && b < limit
    ensures Shredded(tiles[b := t], b, limit) == Shredded(tiles, b, limit)
  {
  }

  lemma ShreddedFewer(tiles: Tiles, region: set<nat>, b: nat)
    requires Tiled(tiles, region) && b in tiles && tiles[b].free
    ensures Fewer(tiles, Shredded(tiles, b, b + tiles[b].size))
    ensures forall c :: c in tiles && c != b ==>
              c in Shredded(tiles, b, b + tiles[b].size) && Shredded(tiles, b, b + tiles[b].size)[c] == tiles[c]
  {
  }

  lemma BlockAllFree(tiles: Tiles, b: nat)
    requires b in tiles && tiles[b].free
    ensures AllFree(tiles, b, tiles[b].size)
  {
  }

  lemma AllFreeJoin(tiles: Tiles, lo: nat, m: nat, n: nat)
    requires AllFree(tiles, lo, m) && AllFree(tiles, lo + m, n)
    ensures AllFree(tiles, lo, m + n)
  {
  }

  lemma AllFreePart(tiles: Tiles, lo: nat, m: nat, n: nat)
    requires AllFree(tiles, lo, m) && n <= m
    ensures AllFree(tiles, lo, n)
  {
  }

  lemma AllFreeAfter(tiles: Tiles, to: Tiles, lo: nat, n: nat)
    requires AllFree(tiles, lo, n) && Rearranged(tiles, to)
    ensures AllFree(to, lo, n)
  {
  }

  /** A block that ends inside a free stretch is followed by a free block. */
  lemma ChainGoesOn(tiles: Tiles, region: set<nat>, h: nat, required: nat)
    requires Tiled(tiles, region) && h in tiles && tiles[h].free && AllFree(tiles, h, required)
             && tiles[h].size < required
    ensures h + tiles[h].size in tiles && tiles[h + tiles[h].size].free
  {
    var x := h + tiles[h].size;
    assert FreeAt(tiles, x);
    var c: nat :| In(tiles, c, x) && tiles[c].free;
    assert c == x;
  }

  lemma SpanIn(tiles: Tiles, region: set<nat>, b: nat)
    requires Tiled(tiles, region) && b in tiles
    ensures Span(b, tiles[b].size) <= region
  {
    forall x: nat | x in Span(b, tiles[b].size)
      ensures x in region
    {
      assert In(tiles, b, x);
    }
  }

  /** Two different blocks together are no larger than the heap. */
  lemma TwoFit(tiles: Tiles, region: set<nat>, b: nat, c: nat)
    requires Tiled(tiles, region) && b in tiles && c in tiles && b < c
    ensures tiles[b].size + tiles[c].size <= |region|
  {
    var s, u := Span(b, tiles[b].size), Span(c, tiles[c].size);
    SpanIn(tiles, region, b);
    SpanIn(tiles, region, c);
    SpanSize(b, tiles[b].size);
    SpanSize(c, tiles[c].size);
    assert s !! u;
    hide Tiled;
    SubsetSize(s + u, region);
  }

  /** Nothing was given back to the system, and no two free blocks are adjacent. */
  ghost predicate Tidy(tiles: Tiles) {
    (forall b :: b in tiles ==> tiles[b].mapped) && Coalesced(tiles)
  }

  /** In a tidy heap no free stretch goes on past a free block. */
  lemma TidyNoChain(tiles: Tiles, region: set<nat>, h: nat, required: nat)
    requires Tiled(tiles, region) && h in tiles && tiles[h].free && tiles[h].size < required
             && AllFree(tiles, h, required)
    ensures !Tidy(tiles)
  {
    ChainGoesOn(tiles, region, h, required);
    if forall b :: b in tiles ==> tiles[b].mapped {
      assert Touching(tiles, h);
    }
  }

  lemma ShreddedTidy(tiles: Tiles, region: set<nat>, b: nat)
    requires Tiled(tiles, region) && b in tiles && tiles[b].free && Tidy(tiles)
    ensures Tidy(Shredded(tiles, b, b + tiles[b].size))
  {
    var to := Shredded(tiles, b, b + tiles[b].size);
    ShreddedFewer(tiles, region, b);
    forall x: nat
      ensures !Touching(to, x)
    {
      assert !Touching(tiles, x);
    }
  }

  /** A free block cut in two: only the two parts touch. */
  lemma CutTouching(tiles: Tiles, region: set<nat>, b: nat, k: nat, x: nat)
    requires Tiled(tiles, region) && Tidy(tiles) && b in tiles && tiles[b].free && 0 < k < tiles[b].size
    requires Touching(Cut(tiles, b, k, Tile(k, true, true), Tile(tiles[b].size - k, true, true)), x)
    ensures x == b
  {
    CutTiled(tiles, region, b, k, Tile(k, true, true), Tile(tiles[b].size - k, true, true));
    assert !Touching(tiles, b) && !Touching(tiles, x);
  }

  /** If only the block in front of `last` touches it, taking the start of `last` tidies up. */
  lemma TakenTidy(tiles: Tiles, region: set<nat>, last: nat, n: nat)
    requires Tiled(tiles, region) && last in tiles && tiles[last].free && 0 < n <= tiles[last].size
    requires forall b :: b in tiles ==> tiles[b].mapped
    requires forall x: nat :: Touching(tiles, x) ==> x + tiles[x].size == last
    ensures Tidy(Taken(tiles, last, n))
  {
    var to := Taken(tiles, last, n);
    assert tiles[last].size >= 1 && !Touching(tiles, last);
    if n < tiles[last].size {
      CutTiled(tiles, region, last, n, Tile(n, false, true), Tile(tiles[last].size - n, true, true));
    }
    forall x: nat
      ensures !Touching(to, x)
    {
      TakenTouching(tiles, last, n, x);
    }
  }

  lemma TakenTouching(tiles: Tiles, last: nat, n: nat, x: nat)
    requires last in tiles && tiles[last].free && tiles[last].mapped && 0 < n <= tiles[last].size
    requires n < tiles[last].size ==> last + n !in tiles
    requires x in tiles && x != last ==> x + tiles[x].size <= last || last + tiles[last].size <= x
    requires !Touching(tiles, last) && (Touching(tiles, x) ==> x + tiles[x].size == last)
    ensures !Touching(Taken(tiles, last, n), x)
  {
  }
}
