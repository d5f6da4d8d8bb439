/** The heap as the marker sees it: words that hold pointers, objects grouped in
    heap blocks, root ranges, and reachability over them.

    Addresses are counted in pointer-sized words.  An object is named by the
    address of its first word.  `mem` holds exactly the words whose contents
    resolve to an object; every other word is a non-pointer. */
module MarkHeap {
  import opened Prelude

  const HBLK_BYTES: nat := 4096
  const PTR_BYTES: nat := 8
  const PAGE_WORDS: nat := 512            // HBLKSIZE in words; a page is one heap block
  const MAX_HBLK_OBJS: nat := 512         // HBLKSIZE over the smallest granule

  const INITIAL_MARK_STACK_SIZE: nat := 4096
  const MARK_STACK_DISCARDS: nat := 512   // INITIAL_MARK_STACK_SIZE / 8
  const SPLIT_RANGE_PTRS: nat := 128

  /** Words `lo` up to, not including, `hi`. */
  datatype Range = Range(lo: nat, hi: nat) {
    predicate Has(a: nat) {
      lo <= a < hi
    }
  }

  datatype Kind = PtrFree | Normal | Uncollectable | AUncollectable

  /** `len` is the number of words the mark descriptor makes the marker scan. */
  datatype Obj = Obj(len: nat, block: nat)

  /** An in-use heap block: one page of small objects, or one large object. */
  datatype Block = Block(pages: nat, kind: Kind, objs: seq<nat>)

  predicate IsPtrFree(kind: Kind) {
    kind == PtrFree || kind == AUncollectable
  }

  /** Where objects, blocks and roots lie; stores do not change it. */
  datatype Layout = Layout(
    objs: map<nat, Obj>,
    blocks: map<nat, Block>,
    end: nat,               // no block reaches this page number
    roots: seq<Range>,      // static data, watched by the dirty-page tracker
    stacks: seq<Range>)     // thread stacks and registers, not watched
  {
    ghost predicate InObj(o: nat, a: nat) {
      o in objs && o <= a < o + objs[o].len
    }

    predicate InRoots(a: nat) {
      Covered(roots, a)
    }

    predicate InStacks(a: nat) {
      Covered(stacks, a)
    }

    ghost predicate BlockOk(b: nat) {
      b in blocks ==>
        && 1 <= blocks[b].pages
        && b + blocks[b].pages <= end
        && |blocks[b].objs| <= MAX_HBLK_OBJS
        && (forall o :: o in blocks[b].objs ==> o in objs && objs[o].block == b)
    }

    ghost predicate ObjOk(o: nat) {
      o in objs ==>
        var b := objs[o].block;
        && b in blocks
        && o in blocks[b].objs
        && b * PAGE_WORDS <= o
        && o + objs[o].len <= (b + blocks[b].pages) * PAGE_WORDS
        && (blocks[b].kind == PtrFree || blocks[b].kind == AUncollectable ==> objs[o].len == 0)
    }

    ghost predicate Valid() {
      && (forall b :: b in blocks ==> BlockOk(b))
      && (forall b, c :: b in blocks && c in blocks && b < c ==> b + blocks[b].pages <= c)
      && (forall o :: o in objs ==> ObjOk(o))
      && (forall o: nat, a: nat :: InObj(o, a) ==> !InStacks(a) && !InRoots(a))
      && (forall a: nat :: InRoots(a) ==> !InStacks(a))
    }

    predicate BlockTouches(b: nat, pages: set<nat>) {
      b in blocks && exists p :: b <= p < b + blocks[b].pages && p in pages
    }
  }

  datatype Heap = Heap(mem: map<nat, nat>, lay: Layout) {
    ghost predicate Valid() {
      lay.Valid() && forall a :: a in mem ==> mem[a] in lay.objs
    }

    /** A pointer stored anywhere in `p` leads to `q`. */
    ghost predicate Edge(p: nat, q: nat) {
      exists a: nat :: lay.InObj(p, a) && a in mem && mem[a] == q
    }

    ghost predicate RootEdge(q: nat) {
      exists a: nat :: (lay.InRoots(a) || lay.InStacks(a)) && a in mem && mem[a] == q
    }

    /** `path` follows pointers from object to object and ends in `q`. */
    ghost predicate IsPath(path: seq<nat>, q: nat) {
      && path != []
      && path[|path| - 1] == q
      && forall i {:trigger path[i]} :: 0 < i < |path| ==> Edge(path[i - 1], path[i])
    }

    /** Reachable from a root, or from an object of `extra`. */
    ghost predicate Reachable(extra: set<nat>, q: nat) {
      exists path :: IsPath(path, q) && (RootEdge(path[0]) || path[0] in extra)
    }

    /** No pointer leads out of `s`. */
    ghost predicate ClosedSet(s: set<nat>) {
      forall p: nat, q: nat :: p in s && Edge(p, q) ==> q in s
    }

    ghost predicate HoldsRoots(s: set<nat>) {
      forall q: nat :: RootEdge(q) ==> q in s
    }
  }

  predicate Covered(rs: seq<Range>, a: nat) {
    exists k :: 0 <= k < |rs| && rs[k].Has(a)
  }

  lemma CoveredConcat(s: seq<Range>, t: seq<Range>)
    ensures forall a :: Covered(s + t, a) <==> Covered(s, a) || Covered(t, a)
  {
    forall a
      ensures Covered(s + t, a) <==> Covered(s, a) || Covered(t, a)
    {
      if Covered(s, a) {
        var k :| 0 <= k < |s| && s[k].Has(a);
        assert (s + t)[k].Has(a);
      }
      if Covered(t, a) {
        var k :| 0 <= k < |t| && t[k].Has(a);
        assert (s + t)[|s| + k].Has(a);
      }
    }
  }

  lemma CoveredSingle(r: Range)
    ensures forall a :: Covered([r], a) <==> r.Has(a)
  {
    forall a
      ensures Covered([r], a) <==> r.Has(a)
    {
      assert [r][0] == r;
    }
  }

  /** A set that holds its start objects and that no pointer leaves holds
      everything reachable from them. */
  lemma {:induction false} ReachableInClosed(h: Heap, extra: set<nat>, s: set<nat>, path: seq<nat>, q: nat)
    requires h.ClosedSet(s) && h.HoldsRoots(s) && extra <= s
    requires h.IsPath(path, q) && (h.RootEdge(path[0]) || path[0] in extra)
    ensures q in s
    decreases |path|
  {
    if |path| > 1 {
      var init := path[..|path| - 1];
      assert h.Edge(path[|path| - 2], path[|path| - 1]);
      ReachableInClosed(h, extra, s, init, init[|init| - 1]);
    }
  }

  /** The objects reachable from the roots and from `extra`. */
  ghost function ReachableSet(h: Heap, extra: set<nat>): set<nat> {
    set q | q in h.lay.objs.Keys + extra && h.Reachable(extra, q)
  }

  lemma ReachableStep(h: Heap, extra: set<nat>, p: nat, q: nat)
    requires h.Reachable(extra, p) && h.Edge(p, q)
    ensures h.Reachable(extra, q)
  {
    var path :| h.IsPath(path, p) && (h.RootEdge(path[0]) || path[0] in extra);
    var longer := path + [q];
    forall i {:trigger longer[i]} | 0 < i < |longer|
      ensures h.Edge(longer[i - 1], longer[i])
    {
      if i < |path| {
        assert longer[i] == path[i];
      }
    }
    assert h.IsPath(longer, q);
  }

  lemma ReachableStart(h: Heap, extra: set<nat>, q: nat)
    requires h.RootEdge(q) || q in extra
    ensures h.Reachable(extra, q)
  {
    assert h.IsPath([q], q);
    assert [q][0] == q;
  }

  lemma ReachableSetClosed(h: Heap, extra: set<nat>)
    requires h.Valid() && extra <= h.lay.objs.Keys
    ensures h.ClosedSet(ReachableSet(h, extra))
    ensures h.HoldsRoots(ReachableSet(h, extra))
    ensures extra <= ReachableSet(h, extra)
  {
    var s := ReachableSet(h, extra);
    forall p: nat, q: nat | p in s && h.Edge(p, q)
      ensures q in s
    {
      ReachableStep(h, extra, p, q);
    }
    forall q: nat | h.RootEdge(q) || q in extra
      ensures q in s
    {
      ReachableStart(h, extra, q);
    }
  }

  /** The first in-use block at or above page `from`. */
  function NextBlock(lay: Layout, from: nat): (r: Option<nat>)
    ensures r.Some? ==> from <= r.value < lay.end && r.value in lay.blocks
    ensures r.Some? ==> forall b :: b in lay.blocks && from <= b ==> r.value <= b
    ensures r.None? ==> forall b :: b in lay.blocks && from <= b ==> lay.end <= b
    decreases if from <= lay.end then lay.end - from else 0
  {
    if from >= lay.end then None
    else if from in lay.blocks then Some(from)
    else NextBlock(lay, from + 1)
  }

  /** May an object of `len` scanned words be placed at `o`, in block `b`? */
  predicate CanPlace(lay: Layout, o: nat, len: nat, b: nat, pages: nat, kind: Kind) {
    && o !in lay.objs
    && 1 <= pages
    && b * PAGE_WORDS <= o && o + len <= (b + pages) * PAGE_WORDS
    && (kind == PtrFree || kind == AUncollectable ==> len == 0)
    && (forall a | o <= a < o + len :: !lay.InStacks(a) && !lay.InRoots(a))
    && if b in lay.blocks
       then lay.blocks[b].pages == pages && lay.blocks[b].kind == kind && |lay.blocks[b].objs| < MAX_HBLK_OBJS
       else forall c :: c in lay.blocks ==> c + lay.blocks[c].pages <= b || b + pages <= c
  }

  /** No address from `lo` up to `hi` lies in one of the ranges. */
  ghost predicate Avoids(ranges: seq<Range>, lo: nat, hi: nat) {
    forall r :: r in ranges ==> hi <= lo || r.hi <= r.lo || r.hi <= lo || hi <= r.lo
  }

  /** There is room for the object: new, in a block of its own kind and size or in a new one that
      meets no other, and away from roots and stacks. */
  lemma CanPlaceIs(lay: Layout, o: nat, len: nat, b: nat, pages: nat, kind: Kind)
    ensures CanPlace(lay, o, len, b, pages, kind) <==>
              && o !in lay.objs && b * PAGE_WORDS <= o && o + len <= (b + pages) * PAGE_WORDS && 1 <= pages
              && (kind in {PtrFree, AUncollectable} ==> len == 0)
              && Avoids(lay.stacks, o, o + len) && Avoids(lay.roots, o, o + len)
              && (b in lay.blocks ==> lay.blocks[b].pages == pages && lay.blocks[b].kind == kind)
              && (b in lay.blocks ==> |lay.blocks[b].objs| < MAX_HBLK_OBJS)
              && forall c :: c in lay.blocks && b !in lay.blocks ==> c + lay.blocks[c].pages <= b || b + pages <= c
  {
    AvoidsIs(lay.stacks, o, o + len);
    AvoidsIs(lay.roots, o, o + len);
    if CanPlace(lay, o, len, b, pages, kind) {
      forall a | o <= a < o + len
        ensures !Covered(lay.stacks, a) && !Covered(lay.roots, a)
      {
        assert !lay.InStacks(a) && !lay.InRoots(a);
      }
    }
  }

  lemma AvoidsIs(ranges: seq<Range>, lo: nat, hi: nat)
    ensures Avoids(ranges, lo, hi) <==> forall a | lo <= a < hi :: !Covered(ranges, a)
  {
    if !Avoids(ranges, lo, hi) {
      var r :| r in ranges && lo < hi && r.lo < r.hi && lo < r.hi && r.lo < hi;
      var k :| 0 <= k < |ranges| && ranges[k] == r;
      var a := if r.lo < lo then lo else r.lo;
      assert ranges[k].Has(a);
      assert Covered(ranges, a);
    }
  }

  function Place(lay: Layout, o: nat, len: nat, b: nat, pages: nat, kind: Kind): Layout {
    var there := if b in lay.blocks then lay.blocks[b].objs else [];
    lay.(objs := lay.objs[o := Obj(len, b)],
         blocks := lay.blocks[b := Block(pages, kind, there + [o])],
         end := if lay.end < b + pages then b + pages else lay.end)
  }

  /** Blocks of the new layout: an old one, or the one that got the new object. */
  lemma PlaceBlockOk(lay: Layout, o: nat, len: nat, b: nat, pages: nat, kind: Kind, c: nat)
    requires lay.Valid() && CanPlace(lay, o, len, b, pages, kind)
    requires c in Place(lay, o, len, b, pages, kind).blocks
    ensures Place(lay, o, len, b, pages, kind).BlockOk(c)
  {
    assert c in lay.blocks ==> lay.BlockOk(c);
  }

  lemma PlaceObjOk(lay: Layout, o: nat, len: nat, b: nat, pages: nat, kind: Kind, p: nat)
    requires lay.Valid() && CanPlace(lay, o, len, b, pages, kind)
    requires p in Place(lay, o, len, b, pages, kind).objs
    ensures Place(lay, o, len, b, pages, kind).ObjOk(p)
  {
    assert p in lay.objs ==> lay.ObjOk(p);
  }

  lemma PlaceApart(lay: Layout, o: nat, len: nat, b: nat, pages: nat, kind: Kind)
    requires lay.Valid() && CanPlace(lay, o, len, b, pages, kind)
    ensures var to := Place(lay, o, len, b, pages, kind);
            forall c, d :: c in to.blocks && d in to.blocks && c < d ==> c + to.blocks[c].pages <= d
  {
  }

  lemma PlaceWords(lay: Layout, o: nat, len: nat, b: nat, pages: nat, kind: Kind)
    requires lay.Valid() && CanPlace(lay, o, len, b, pages, kind)
    ensures var to := Place(lay, o, len, b, pages, kind);
            && (forall p: nat, a: nat :: to.InObj(p, a) ==> !to.InStacks(a) && !to.InRoots(a))
            && (forall a: nat :: to.InRoots(a) ==> !to.InStacks(a))
  {
    var to := Place(lay, o, len, b, pages, kind);
    forall p: nat, a: nat | to.InObj(p, a)
      ensures !to.InStacks(a) && !to.InRoots(a)
    {
      assert p != o ==> lay.InObj(p, a);
      assert !lay.InStacks(a) && !lay.InRoots(a);
    }
    forall a: nat | to.InRoots(a)
      ensures !to.InStacks(a)
    {
      assert lay.InRoots(a);
    }
  }

  lemma PlaceValid(lay: Layout, o: nat, len: nat, b: nat, pages: nat, kind: Kind)
    requires lay.Valid() && CanPlace(lay, o, len, b, pages, kind)
    ensures Place(lay, o, len, b, pages, kind).Valid()
  {
    var to := Place(lay, o, len, b, pages, kind);
    forall c | c in to.blocks
      ensures to.BlockOk(c)
    {
      PlaceBlockOk(lay, o, len, b, pages, kind, c);
    }
    forall p | p in to.objs
      ensures to.ObjOk(p)
    {
      PlaceObjOk(lay, o, len, b, pages, kind, p);
    }
    PlaceApart(lay, o, len, b, pages, kind);
    PlaceWords(lay, o, len, b, pages, kind);
  }

  lemma ObjAt(lay: Layout, o: nat)
    requires lay.Valid() && o in lay.objs
    ensures lay.ObjOk(o)
    ensures forall a: nat :: lay.InObj(o, a) ==> !lay.InStacks(a) && !lay.InRoots(a)
  {
  }

  lemma BlocksApart(lay: Layout, b: nat, c: nat)
    requires lay.Valid() && b in lay.blocks && c in lay.blocks
    ensures b < c ==> b + lay.blocks[b].pages <= c
  {
  }

  /** An object that has its block, or its blocks, to itself. */
  predicate IsLarge(lay: Layout, o: nat) {
    o in lay.objs && lay.objs[o].block in lay.blocks && lay.blocks[lay.objs[o].block].objs == [o]
  }

  function Unplace(lay: Layout, o: nat): Layout
    requires o in lay.objs
  {
    lay.(objs := lay.objs - {o}, blocks := lay.blocks - {lay.objs[o].block})
  }

  lemma UnplaceValid(lay: Layout, o: nat)
    requires lay.Valid() && IsLarge(lay, o)
    ensures Unplace(lay, o).Valid()
  {
    var to := Unplace(lay, o);
    forall b | b in to.blocks
      ensures to.BlockOk(b)
    {
      assert lay.BlockOk(b);
    }
    forall p | p in to.objs
      ensures to.ObjOk(p)
    {
      assert lay.ObjOk(p);
    }
    forall p: nat, a: nat | to.InObj(p, a)
      ensures !to.InStacks(a) && !to.InRoots(a)
    {
      assert lay.InObj(p, a);
    }
    forall a: nat | to.InRoots(a)
      ensures !to.InStacks(a)
    {
      assert lay.InRoots(a);
    }
  }
}
