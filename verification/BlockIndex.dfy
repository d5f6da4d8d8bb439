/** The header index kept in step with the blocks of the heap: what the allocator does to headers
    when it cuts, joins, frees and takes blocks is legal, and the index goes on to describe them. */
module BlockIndexes {
  import opened Prelude
  import opened HeapTiles
  import opened HeaderIndexes
  import U = HeapUse
  import B = BlockHeaps

  /** A header is that of its block; free blocks have no counts. */
  predicate IsHdr(h: Hdr, t: Tile) {
    h.units == t.size && h.free == t.free && (t.free ==> !h.counted)
  }

  ghost predicate Agrees(hdrs: Hdrs, tiles: Tiles) {
    && (forall b :: b in hdrs <==> b in tiles)
    && forall b :: b in tiles ==> IsHdr(hdrs[b], tiles[b])
  }

  /** Two blocks that do not overlap. */
  predicate Apart(hdrs: Hdrs, b: nat, c: nat) {
    b in hdrs && c in hdrs && b < c ==> b + hdrs[b].units <= c
  }

  lemma DisjointAt(hdrs: Hdrs, b: nat, c: nat)
    requires Disjoint(hdrs)
    ensures Apart(hdrs, b, c) && Apart(hdrs, c, b) && (b in hdrs ==> hdrs[b].units >= 1)
  {
  }

  lemma DisjointFrom(hdrs: Hdrs)
    requires forall b, c :: Apart(hdrs, b, c)
    requires forall b :: b in hdrs ==> hdrs[b].units >= 1
    ensures Disjoint(hdrs)
  {
    assert forall b, c :: b in hdrs && c in hdrs && b < c ==> Apart(hdrs, b, c);
  }

  lemma AgreeAt(hdrs: Hdrs, tiles: Tiles, b: nat)
    requires Describes(hdrs, tiles)
    ensures b in hdrs <==> b in tiles
    ensures b in tiles ==> IsHdr(hdrs[b], tiles[b]) && hdrs[b].units >= 1
  {
  }

  ghost predicate InStep(x: HeaderIndex, tiles: Tiles)
    reads x
  {
    x.Valid() && Describes(x.hdrs, tiles)
  }

  ghost predicate Describes(hdrs: Hdrs, tiles: Tiles) {
    Agrees(hdrs, tiles) && Disjoint(hdrs) && ObjectsOk(hdrs)
  }

  /** Headers of blocks in use are as they were. */
  ghost predicate UsedKept(h0: Hdrs, h1: Hdrs) {
    forall c :: c in h0 && !h0[c].free ==> c in h1 && h1[c] == h0[c]
  }

  lemma UsedIs(h0: Hdrs, h1: Hdrs)
    requires UsedKept(h0, h1)
    ensures forall c :: c in h0 && !h0[c].free ==> c in h1 && h1[c] == h0[c]
  {
  }

  lemma UsedTrans(h0: Hdrs, h1: Hdrs, h2: Hdrs)
    requires UsedKept(h0, h1) && UsedKept(h1, h2)
    ensures UsedKept(h0, h2)
  {
  }

  /** What an object of `bytes` needs of its block. */
  predicate ObjectFits(bytes: nat, units: nat) {
    bytes > 0 && bytes % 8 == 0 && units >= 1 && (units - 1) * HBLKSIZE < bytes <= units * HBLKSIZE
  }

  /** Inside a block that has no counts the index is empty. */
  lemma InnerNil(bottoms: Bottoms, hdrs: Hdrs, b: nat, y: nat)
    requires IndexOk(bottoms, hdrs) && Disjoint(hdrs) && b in hdrs && !hdrs[b].counted && b < y < b + hdrs[b].units
    ensures Get(bottoms, y) == Nil
  {
    SlotIs(bottoms, hdrs, y);
    assert forall c: nat :: !Inside(hdrs, c, y);
  }

  lemma IsAlone(bottoms: Bottoms, hdrs: Hdrs, b: nat)
    requires IndexOk(bottoms, hdrs) && Disjoint(hdrs) && b in hdrs && !hdrs[b].counted
    ensures Alone(bottoms, hdrs, b)
  {
    forall y: nat {:trigger Get(bottoms, y)} | b < y < b + hdrs[b].units
      ensures Get(bottoms, y) == Nil
    {
      InnerNil(bottoms, hdrs, b, y);
    }
  }

  /** get_block_ending_at finds the block of the heap that ends where another one starts. */
  method EndingAt(x: HeaderIndex, ghost tiles: Tiles, h: nat) returns (r: Option<nat>)
    requires InStep(x, tiles) && h in tiles && h > 0
    ensures r.Some? ==> r.value in tiles && r.value + tiles[r.value].size == h
    ensures r.None? ==> forall c :: c in tiles ==> c + tiles[c].size != h
  {
    r := x.BlockEndingAt(h);
  }

  /** A header whose length does not change. */
  lemma FieldDescribes(hdrs: Hdrs, tiles: Tiles, b: nat, h: Hdr, t: Tile)
    requires Describes(hdrs, tiles) && b in tiles && IsHdr(h, t) && t.size == tiles[b].size
    requires !h.free ==> ObjectFits(h.objBytes, h.units) && (h.units > 1 ==> h.counted)
    ensures Describes(hdrs[b := h], tiles[b := t])
  {
    AgreeAt(hdrs, tiles, b);
    var to := hdrs[b := h];
    assert Disjoint(to) by {
      forall c: nat, d: nat
        ensures Apart(to, c, d)
      {
        DisjointAt(hdrs, c, d);
      }
      DisjointFrom(to);
    }
    hide Disjoint;
    assert Agrees(to, tiles[b := t]);
    assert ObjectsOk(to);
  }

  lemma AloneIn(x: HeaderIndex, tiles: Tiles, b: nat)
    requires InStep(x, tiles) && b in x.hdrs && !x.hdrs[b].counted
    ensures Alone(x.bottoms, x.hdrs, b)
  {
    IsAlone(x.bottoms, x.hdrs, b);
  }

  /** GC_freehblk, as far as the header of the block itself goes. */
  method FreeHeader(x: HeaderIndex, ghost tiles: Tiles, b: nat)
    requires InStep(x, tiles) && b in tiles && !tiles[b].free
    modifies x
    ensures InStep(x, tiles[b := tiles[b].(free := true)])
    ensures forall c :: c in old(x.hdrs) && !old(x.hdrs)[c].free && c != b ==>
              c in x.hdrs && x.hdrs[c] == old(x.hdrs)[c]
  {
    hide HeaderIndex.Valid;
    hide Describes;
    hide Alone;
    AgreeAt(x.hdrs, tiles, b);
    if !x.hdrs[b].counted {
      AloneIn(x, tiles, b);
    }
    ghost var to := x.hdrs[b].(free := true, counted := false);
    FieldDescribes(x.hdrs, tiles, b, to, tiles[b].(free := true));
    ghost var hdrs := x.hdrs[b := to];
    x.RemoveCounts(b);
    x.SetFields(b, x.hdrs[b].(free := true));
    assert x.hdrs == hdrs;
  }

  function JoinedHdrs(hdrs: Hdrs, b: nat): Hdrs
    requires b in hdrs && b + hdrs[b].units in hdrs
  {
    var next := b + hdrs[b].units;
    hdrs[b := hdrs[b].(units := hdrs[b].units + hdrs[next].units)] - {next}
  }

  lemma JoinApart(hdrs: Hdrs, b: nat, c: nat, d: nat)
    requires Disjoint(hdrs) && b in hdrs && b + hdrs[b].units in hdrs
    ensures Apart(JoinedHdrs(hdrs, b), c, d)
  {
    hide Disjoint;
    DisjointAt(hdrs, c, d);
    DisjointAt(hdrs, b, d);
    DisjointAt(hdrs, b + hdrs[b].units, d);
  }

  lemma JoinDisjoint(hdrs: Hdrs, b: nat)
    requires Disjoint(hdrs) && b in hdrs && b + hdrs[b].units in hdrs
    ensures Disjoint(JoinedHdrs(hdrs, b))
  {
    var h := JoinedHdrs(hdrs, b);
    assert forall c :: c in h ==> h[c].units >= 1;
    hide Disjoint;
    forall c: nat, d: nat
      ensures Apart(h, c, d)
    {
      JoinApart(hdrs, b, c, d);
    }
    hide Apart;
    DisjointFrom(h);
  }

  lemma JoinDescribes(hdrs: Hdrs, tiles: Tiles, b: nat, mapped: bool)
    requires Describes(hdrs, tiles) && B.FreePair(tiles, b)
    ensures b in hdrs && b + hdrs[b].units in hdrs && !hdrs[b].counted && !hdrs[b + hdrs[b].units].counted
    ensures hdrs[b].units >= 1 && Describes(JoinedHdrs(hdrs, b), B.JoinedAs(tiles, b, mapped))
  {
    hide Disjoint;
    AgreeAt(hdrs, tiles, b);
    AgreeAt(hdrs, tiles, b + tiles[b].size);
    JoinDisjoint(hdrs, b);
  }

  /** A free block takes in its free successor. */
  method JoinHeaders(x: HeaderIndex, ghost tiles: Tiles, b: nat, ghost mapped: bool)
    requires InStep(x, tiles) && B.FreePair(tiles, b)
    modifies x
    ensures InStep(x, B.JoinedAs(tiles, b, mapped))
    ensures UsedKept(old(x.hdrs), x.hdrs)
  {
    hide HeaderIndex.Valid;
    hide Describes;
    JoinDescribes(x.hdrs, tiles, b, mapped);
    AgreeAt(x.hdrs, tiles, b);
    AgreeAt(x.hdrs, tiles, b + tiles[b].size);
    var next := b + x.hdrs[b].units;
    ghost var to := JoinedHdrs(x.hdrs, b);
    x.SetFields(b, x.hdrs[b].(units := x.hdrs[b].units + x.hdrs[next].units));
    x.RemoveHeader(next);
    assert x.hdrs == to;
  }

  function CutHdrs(hdrs: Hdrs, b: nat, k: nat): Hdrs
    requires b in hdrs && k <= hdrs[b].units
  {
    hdrs[b + k := hdrs[b].(units := hdrs[b].units - k)][b := hdrs[b].(units := k)]
  }

  lemma CutApart(hdrs: Hdrs, b: nat, k: nat, c: nat, d: nat)
    requires Disjoint(hdrs) && b in hdrs && 0 < k < hdrs[b].units
    ensures Apart(CutHdrs(hdrs, b, k), c, d) && b + k !in hdrs
  {
    hide Disjoint;
    DisjointAt(hdrs, b, b + k);
    DisjointAt(hdrs, c, d);
    DisjointAt(hdrs, b, d);
    DisjointAt(hdrs, c, b);
  }

  lemma CutDisjoint(hdrs: Hdrs, b: nat, k: nat)
    requires Disjoint(hdrs) && b in hdrs && 0 < k < hdrs[b].units
    ensures Disjoint(CutHdrs(hdrs, b, k))
  {
    var h := CutHdrs(hdrs, b, k);
    assert forall c :: c in h ==> h[c].units >= 1;
    hide Disjoint;
    forall c: nat, d: nat
      ensures Apart(h, c, d)
    {
      CutApart(hdrs, b, k, c, d);
    }
    hide Apart;
    DisjointFrom(h);
  }

  lemma CutDescribes(hdrs: Hdrs, tiles: Tiles, b: nat, k: nat)
    requires Describes(hdrs, tiles) && b in tiles && tiles[b].free && 0 < k < tiles[b].size
    ensures b in hdrs && k < hdrs[b].units && !hdrs[b].counted && b + k !in tiles
    ensures Describes(CutHdrs(hdrs, b, k), B.CutFreeBlock(tiles, b, k))
  {
    hide Disjoint;
    AgreeAt(hdrs, tiles, b);
    AgreeAt(hdrs, tiles, b + k);
    CutApart(hdrs, b, k, b, b);
    CutDisjoint(hdrs, b, k);
  }

  /** A free block is cut in two. */
  method CutHeaders(x: HeaderIndex, ghost tiles: Tiles, b: nat, k: nat)
    requires InStep(x, tiles) && b in tiles && tiles[b].free && 0 < k < tiles[b].size
    modifies x
    ensures InStep(x, B.CutFreeBlock(tiles, b, k)) && b + k !in tiles
    ensures UsedKept(old(x.hdrs), x.hdrs)
  {
    hide HeaderIndex.Valid;
    hide Describes;
    CutDescribes(x.hdrs, tiles, b, k);
    AgreeAt(x.hdrs, tiles, b);
    AgreeAt(x.hdrs, tiles, b + k);
    CutNil(x, tiles, b, k);
    ghost var to := CutHdrs(x.hdrs, b, k);
    x.InstallHeader(b + k, x.hdrs[b].(units := x.hdrs[b].units - k));
    x.SetFields(b, x.hdrs[b].(units := k));
    assert x.hdrs == to;
  }

  lemma CutNil(x: HeaderIndex, tiles: Tiles, b: nat, k: nat)
    requires InStep(x, tiles) && b in x.hdrs && !x.hdrs[b].counted && 0 < k < x.hdrs[b].units
    ensures Get(x.bottoms, b + k) == Nil
  {
    InnerNil(x.bottoms, x.hdrs, b, b + k);
  }

  /** A free block goes into use: counts, then the fields. */
  method UseHeader(x: HeaderIndex, ghost tiles: Tiles, b: nat, bytes: nat, offPage: bool)
    requires InStep(x, tiles) && b in tiles && tiles[b].free && ObjectFits(bytes, tiles[b].size)
    modifies x
    ensures InStep(x, tiles[b := Tile(tiles[b].size, false, true)])
    ensures b in x.hdrs && x.hdrs[b] == Hdr(tiles[b].size, false, bytes, offPage, true)
    ensures UsedKept(old(x.hdrs), x.hdrs)
  {
    hide HeaderIndex.Valid;
    hide Describes;
    hide Alone;
    AgreeAt(x.hdrs, tiles, b);
    AloneIn(x, tiles, b);
    ghost var to := Hdr(x.hdrs[b].units, false, bytes, offPage, true);
    FieldDescribes(x.hdrs, tiles, b, to, Tile(tiles[b].size, false, true));
    ghost var hdrs := x.hdrs[b := to];
    x.InstallCounts(b);
    x.SetFields(b, Hdr(x.hdrs[b].units, false, bytes, offPage, true));
    assert x.hdrs == hdrs;
  }

  /** The first coalescing leaves the predecessor and makes a free block. */
  lemma NextJoined(tiles: Tiles, b: nat, prev: Option<nat>)
    requires b in tiles && tiles[b].free && tiles[b].size >= 1
    requires prev.Some? ==> prev.value in tiles && tiles[prev.value].free && prev.value + tiles[prev.value].size == b
    ensures var t := B.WithNext(tiles, b);
            && b in t && (B.MergesNext(tiles, b) ==> B.FreePair(tiles, b) && t == B.JoinedAs(tiles, b, tiles[b].mapped))
            && (!B.MergesNext(tiles, b) ==> t == tiles)
            && (B.MergesPrev(t, b, prev) ==> B.FreePair(t, prev.value))
  {
  }

  /** Both coalescings of GC_freehblk, for the free block `b`. */
  method CoalesceHeaders(x: HeaderIndex, tiles: Tiles, b: nat, prev: Option<nat>)
    requires InStep(x, tiles) && b in tiles && tiles[b].free
    requires prev.Some? ==> prev.value in tiles && tiles[prev.value].free && prev.value + tiles[prev.value].size == b
    modifies x
    ensures InStep(x, B.WithPrev(B.WithNext(tiles, b), b, prev))
    ensures UsedKept(old(x.hdrs), x.hdrs)
  {
    hide HeaderIndex.Valid;
    hide Describes;
    hide B.WithNext;
    hide B.FreePair;
    hide B.JoinedAs;
    AgreeAt(x.hdrs, tiles, b);
    NextJoined(tiles, b, prev);
    var t := B.WithNext(tiles, b);
    if B.MergesNext(tiles, b) {
      JoinHeaders(x, tiles, b, tiles[b].mapped);
    }
    ghost var mid := x.hdrs;
    if B.MergesPrev(t, b, prev) {
      PrevJoined(t, b, prev);
      JoinHeaders(x, t, prev.value, t[prev.value].mapped);
    }
    UsedTrans(old(x.hdrs), mid, x.hdrs);
  }

  lemma PrevJoined(t: Tiles, b: nat, prev: Option<nat>)
    requires b in t && B.MergesPrev(t, b, prev) && B.FreePair(t, prev.value)
    ensures B.WithPrev(t, b, prev) == B.JoinedAs(t, prev.value, t[prev.value].mapped)
  {
  }

  /** GC_free_block_ending_at, by the index. */
  method FreeEndingAt(x: HeaderIndex, ghost tiles: Tiles, h: nat) returns (r: Option<nat>)
    requires InStep(x, tiles) && h in tiles && h > 0
    ensures B.EndsFree(tiles, h, r)
  {
    r := EndingAt(x, tiles, h);
    if r.Some? && !x.hdrs[r.value].free {
      forall c | c in tiles && c + tiles[c].size == h
        ensures c == r.value
      {
        AgreeAt(x.hdrs, tiles, c);
        AgreeAt(x.hdrs, tiles, r.value);
        DisjointAt(x.hdrs, c, r.value);
      }
      r := None;
    }
  }

  lemma EndsFreeOnce(hdrs: Hdrs, tiles: Tiles, b: nat, p: Option<nat>, q: Option<nat>)
    requires Describes(hdrs, tiles) && B.EndsFree(tiles, b, p) && B.EndsFree(tiles, b, q)
    ensures p == q
  {
    if p.Some? && q.Some? {
      AgreeAt(hdrs, tiles, p.value);
      AgreeAt(hdrs, tiles, q.value);
      DisjointAt(hdrs, p.value, q.value);
    }
  }

  /** GC_freehblk on the heap and on the index: they stay in step. */
  method FreeBlock(heap: B.BlockHeap, x: HeaderIndex, b: nat)
    requires heap.Inv() && InStep(x, heap.tiles)
    requires 0 < b && b in heap.tiles && !heap.tiles[b].free && heap.tiles[b].size < B.MERGE_LIMIT
    modifies heap, x
    ensures heap.Inv() && InStep(x, heap.tiles)
    ensures exists prev :: B.EndsFree(old(heap.tiles), b, prev) && heap.tiles == B.Freed(old(heap.tiles), b, prev)
    ensures forall c :: c in old(x.hdrs) && !old(x.hdrs)[c].free && c != b ==>
              c in x.hdrs && x.hdrs[c] == old(x.hdrs)[c]
  {
    hide B.BlockHeap.Inv;
    hide HeaderIndex.Valid;
    hide Describes;
    var t := heap.tiles;
    ghost var hdrs := x.hdrs;
    var prev := FreeEndingAt(x, t, b);
    FreeHeader(x, t, b);
    CoalesceHeaders(x, t[b := t[b].(free := true)], b, prev);
    ghost var p := heap.FreeBlock(b);
    EndsFreeOnce(hdrs, t, b, p, prev);
  }

  /** Merging two free neighbours, on the heap and on the index. */
  method MergeNext(heap: B.BlockHeap, x: HeaderIndex, b: nat, keep: bool)
    requires heap.Inv() && InStep(x, heap.tiles) && B.FreePair(heap.tiles, b)
    modifies heap, x
    ensures heap.Inv() && InStep(x, heap.tiles) && UsedKept(old(x.hdrs), x.hdrs)
  {
    hide B.BlockHeap.Inv;
    hide InStep;
    ghost var t := heap.tiles;
    heap.MergeNext(b, keep);
    JoinHeaders(x, t, b, heap.tiles[b].mapped);
  }

  /** The header steps of GC_get_first_part and what follows: split off the rest, use the block. */
  method TakeHeaders(x: HeaderIndex, ghost tiles: Tiles, h: nat, need: nat, bytes: nat, offPage: bool)
    requires InStep(x, tiles) && h in tiles && tiles[h].free && need <= tiles[h].size && ObjectFits(bytes, need)
    modifies x
    ensures InStep(x, U.Taken(tiles, h, need))
    ensures h in x.hdrs && x.hdrs[h] == Hdr(need, false, bytes, offPage, true)
    ensures UsedKept(old(x.hdrs), x.hdrs)
  {
    hide HeaderIndex.Valid;
    hide Describes;
    AgreeAt(x.hdrs, tiles, h);
    ghost var t := tiles;
    if need < x.hdrs[h].units {
      CutHeaders(x, tiles, h, need);
      t := B.CutFreeBlock(tiles, h, need);
    }
    UseHeader(x, t, h, bytes, offPage);
    assert t[h := Tile(need, false, true)] == U.Taken(tiles, h, need);
  }

  /** The header steps of an allocation: split off the front, then take the block. */
  method CarveHeaders(x: HeaderIndex, ghost tiles: Tiles, b: nat, last: nat, need: nat, bytes: nat, offPage: bool)
    requires InStep(x, tiles) && b in tiles && tiles[b].free && b <= last && last + need <= b + tiles[b].size
    requires ObjectFits(bytes, need)
    modifies x
    ensures var mid := if last == b then tiles else B.CutFreeBlock(tiles, b, last - b);
            last in mid && need <= mid[last].size && InStep(x, U.Taken(mid, last, need))
    ensures last in x.hdrs && x.hdrs[last] == Hdr(need, false, bytes, offPage, true)
    ensures forall c :: c in old(x.hdrs) && !old(x.hdrs)[c].free ==> c in x.hdrs && x.hdrs[c] == old(x.hdrs)[c]
  {
    hide InStep;
    hide U.Taken;
    ghost var t := tiles;
    if last != b {
      CutHeaders(x, tiles, b, last - b);
      t := B.CutFreeBlock(tiles, b, last - b);
    }
    ghost var mid := x.hdrs;
    TakeHeaders(x, t, last, need, bytes, offPage);
    UsedTrans(old(x.hdrs), mid, x.hdrs);
  }

  /** After an allocation, the objects of the new block are those of the size that was asked for. */
  lemma NewObjects(hdrs: Hdrs, h: nat, need: nat, bytes: nat, offPage: bool, p: nat, o: nat)
    requires Disjoint(hdrs) && ObjectsOk(hdrs) && h in hdrs && hdrs[h] == Hdr(need, false, bytes, offPage, true)
    requires h * HBLKSIZE <= p < (h + need) * HBLKSIZE
    ensures HoldsObject(hdrs, o, p) <==>
            o <= p < o + bytes && exists k: nat :: o == h * HBLKSIZE + k * bytes && k * bytes + bytes <= need * HBLKSIZE
  {
    if b: nat :| HoldsObjectIn(hdrs, b, o, p) {
      HolderPlace(hdrs, b, o, p);
      DisjointAt(hdrs, b, h);
    }
    if o <= p < o + bytes && exists k: nat :: o == h * HBLKSIZE + k * bytes && k * bytes + bytes <= need * HBLKSIZE {
      assert HoldsObjectIn(hdrs, h, o, p);
    }
  }

  lemma HolderPlace(hdrs: Hdrs, b: nat, o: nat, p: nat)
    requires HoldsObjectIn(hdrs, b, o, p)
    ensures b * HBLKSIZE <= p < (b + hdrs[b].units) * HBLKSIZE
  {
    var k: nat :| o == b * HBLKSIZE + k * hdrs[b].objBytes
                  && k * hdrs[b].objBytes + hdrs[b].objBytes <= hdrs[b].units * HBLKSIZE;
  }

  /** New memory gets a header of its own. */
  method GrowHeader(x: HeaderIndex, ghost tiles: Tiles, ghost region: set<nat>, start: nat, size: nat)
    requires InStep(x, tiles) && Tiled(tiles, region) && size >= 1
    requires forall y :: start <= y < start + size ==> y !in region
    modifies x
    ensures InStep(x, tiles[start := Tile(size, true, true)]) && UsedKept(old(x.hdrs), x.hdrs)
  {
    hide HeaderIndex.Valid;
    hide Describes;
    NewNil(x, tiles, region, start);
    NewDescribes(x.hdrs, tiles, region, start, size);
    x.InstallHeader(start, Hdr(size, true, 0, false, false));
  }

  /** The header steps of GC_add_to_heap. */
  method GrowHeaders(x: HeaderIndex, t: Tiles, ghost region: set<nat>, start: nat, size: nat)
    returns (prev: Option<nat>, ghost hdrs: Hdrs)
    requires InStep(x, t) && Tiled(t, region) && size >= 1 && start > 0
    requires forall y :: start <= y < start + size ==> y !in region
    modifies x
    ensures B.EndsFree(t[start := Tile(size, false, true)], start, prev)
    ensures InStep(x, B.Freed(t[start := Tile(size, false, true)], start, prev)) && UsedKept(old(x.hdrs), x.hdrs)
    ensures Describes(hdrs, t[start := Tile(size, true, true)])
  {
    hide InStep;
    hide Tiled;
    GrowHeader(x, t, region, start, size);
    var free := t[start := Tile(size, true, true)];
    DescribesOf(x, free);
    hdrs := x.hdrs;
    prev := FreeEndingAt(x, free, start);
    CoalesceHeaders(x, free, start, prev);
    UsedTrans(old(x.hdrs), hdrs, x.hdrs);
    GrownEnds(t, start, size, prev);
  }

  lemma DescribesOf(x: HeaderIndex, tiles: Tiles)
    requires InStep(x, tiles)
    ensures Describes(x.hdrs, tiles)
  {
  }

  lemma HeapTiled(heap: B.BlockHeap)
    requires heap.Inv()
    ensures Tiled(heap.tiles, heap.region)
  {
  }

  /** GC_add_to_heap for memory that is new, on the heap and on the index. */
  method GrowHeap(heap: B.BlockHeap, x: HeaderIndex, lo: nat, n: nat)
    requires heap.Inv() && InStep(x, heap.tiles) && n < B.MERGE_LIMIT
    requires forall y :: lo <= y < lo + n ==> y !in heap.region
    modifies heap, x
    ensures heap.Inv() && InStep(x, heap.tiles)
    ensures forall c :: c in old(x.hdrs) && !old(x.hdrs)[c].free ==> c in x.hdrs && x.hdrs[c] == old(x.hdrs)[c]
  {
    hide *;
    HeapTiled(heap);
    var start := if lo <= 1 then 2 else lo;
    if start < lo + n {
      var t := heap.tiles;
      var prev, hdrs := GrowHeaders(x, t, heap.region, start, lo + n - start);
      UsedIs(old(x.hdrs), x.hdrs);
      ghost var p, at := heap.GrowHeap(lo, n);
      GrownEnds(t, start, lo + n - start, prev);
      GrownEnds(t, start, lo + n - start, p);
      EndsFreeOnce(hdrs, t[start := Tile(lo + n - start, true, true)], start, p, prev);
    } else {
      ghost var p, at := heap.GrowHeap(lo, n);
    }
  }

  /** Whether the new block counts as free does not matter to its predecessor. */
  lemma GrownEnds(tiles: Tiles, start: nat, size: nat, p: Option<nat>)
    requires size >= 1
    ensures var used, free := Tile(size, false, true), Tile(size, true, true);
            && (B.EndsFree(tiles[start := used], start, p) <==> B.EndsFree(tiles[start := free], start, p))
            && tiles[start := used][start := free] == tiles[start := free]
  {
    var used, free := tiles[start := Tile(size, false, true)], tiles[start := Tile(size, true, true)];
    forall c: nat | c != start
      ensures c in used <==> c in free
      ensures c in used ==> used[c] == free[c]
    {
    }
    if p.None? && B.EndsFree(used, start, p) {
      assert forall c :: c in free && free[c].free && c != start ==> c in used && used[c].free;
    }
    if p.None? && B.EndsFree(free, start, p) {
      assert forall c :: c in used && used[c].free ==> c in free && free[c].free;
    }
  }

  lemma NewNil(x: HeaderIndex, tiles: Tiles, region: set<nat>, y: nat)
    requires InStep(x, tiles) && Tiled(tiles, region) && y !in region
    ensures Get(x.bottoms, y) == Nil && y !in x.hdrs
  {
    SlotIs(x.bottoms, x.hdrs, y);
    assert !In(tiles, y, y);
    forall c: nat
      ensures !Inside(x.hdrs, c, y)
    {
      assert !In(tiles, c, y);
    }
  }

  lemma NewApart(hdrs: Hdrs, tiles: Tiles, region: set<nat>, start: nat, size: nat, c: nat)
    requires Describes(hdrs, tiles) && Tiled(tiles, region) && size >= 1 && c in hdrs
    requires forall y :: start <= y < start + size ==> y !in region
    ensures c + hdrs[c].units <= start || start + size <= c
  {
    AgreeAt(hdrs, tiles, c);
    assert In(tiles, c, c);
    if c < start < c + tiles[c].size {
      assert In(tiles, c, start);
    }
  }

  lemma NewDescribes(hdrs: Hdrs, tiles: Tiles, region: set<nat>, start: nat, size: nat)
    requires Describes(hdrs, tiles) && Tiled(tiles, region) && size >= 1
    requires forall y :: start <= y < start + size ==> y !in region
    ensures Describes(hdrs[start := Hdr(size, true, 0, false, false)], tiles[start := Tile(size, true, true)])
  {
    var to := hdrs[start := Hdr(size, true, 0, false, false)];
    assert Disjoint(to) by {
      forall c: nat, d: nat
        ensures Apart(to, c, d)
      {
        DisjointAt(hdrs, c, d);
        if c in hdrs {
          NewApart(hdrs, tiles, region, start, size, c);
        }
        if d in hdrs {
          NewApart(hdrs, tiles, region, start, size, d);
        }
      }
      DisjointFrom(to);
    }
    hide Disjoint;
    hide Tiled;
    assert Agrees(to, tiles[start := Tile(size, true, true)]);
    assert ObjectsOk(to);
  }
}
