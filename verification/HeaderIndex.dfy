/** The two-level index from block numbers to block headers, with forwarding counts inside large
    blocks, and the header cache of the marker. */
module HeaderIndexes {
  import opened Prelude

  const BOTTOM_SZ: nat := 1024
  const TOP_SZ: nat := 2048
  const MAX_JUMP: nat := 4095
  const HDR_CACHE_SIZE: nat := 64
  const HBLKSIZE: nat := 4096

  /** A header: `units` blocks long, objects of `objBytes`; counts are installed or not. */
  datatype Hdr = Hdr(units: nat, free: bool, objBytes: nat, offPage: bool, counted: bool)

  type Hdrs = map<nat, Hdr>

  /** An entry of a bottom index. */
  datatype Slot = Nil | Jump(n: nat) | Here

  type Bottoms = map<nat, seq<Slot>>

  /** The slot of block number `x`; where there is no bottom index, all are NULL. */
  function Get(bottoms: Bottoms, x: nat): Slot {
    if x / BOTTOM_SZ in bottoms && |bottoms[x / BOTTOM_SZ]| == BOTTOM_SZ then bottoms[x / BOTTOM_SZ][x % BOTTOM_SZ]
    else Nil
  }

  function Set(bottoms: Bottoms, x: nat, s: Slot): Bottoms
    requires x / BOTTOM_SZ in bottoms && |bottoms[x / BOTTOM_SZ]| == BOTTOM_SZ
  {
    bottoms[x / BOTTOM_SZ := bottoms[x / BOTTOM_SZ][x % BOTTOM_SZ := s]]
  }

  /** `x` lies in the block `b`, which has counts, but is not its start. */
  predicate Inside(hdrs: Hdrs, b: nat, x: nat) {
    b in hdrs && hdrs[b].counted && b < x < b + hdrs[b].units
  }

  ghost function Count(b: nat, x: nat): nat
    requires b <= x
  {
    if x - b > MAX_JUMP then MAX_JUMP else x - b
  }

  /** The slot is what the blocks say. */
  ghost predicate SlotOk(s: Slot, hdrs: Hdrs, x: nat) {
    && (s == Here <==> x in hdrs)
    && (forall b: nat :: Inside(hdrs, b, x) ==> s == Jump(Count(b, x)))
    && (s.Jump? ==> exists b: nat :: Inside(hdrs, b, x))
  }

  ghost predicate IndexOk(bottoms: Bottoms, hdrs: Hdrs) {
    forall x: nat {:trigger Get(bottoms, x)} :: SlotOk(Get(bottoms, x), hdrs, x)
  }

  ghost predicate Sorted(s: seq<nat>) {
    forall i, j :: 0 <= i < j < |s| ==> s[i] < s[j]
  }

  ghost predicate ChainsOk(top: seq<seq<nat>>, bottoms: Bottoms) {
    && |top| == TOP_SZ
    && (forall k :: k in bottoms ==> k in top[k % TOP_SZ])
    && forall i, j :: 0 <= i < TOP_SZ && 0 <= j < |top[i]| ==> top[i][j] in bottoms
  }

  /** The hashed chains and the ascending list hold the keys of the bottom indices. */
  ghost predicate ShapeOk(top: seq<seq<nat>>, asc: seq<nat>, bottoms: Bottoms) {
    && ChainsOk(top, bottoms)
    && Sorted(asc) && (forall k :: k in asc <==> k in bottoms)
    && forall k :: k in bottoms ==> |bottoms[k]| == BOTTOM_SZ
  }

  lemma GetSet(bottoms: Bottoms, x: nat, s: Slot, y: nat)
    requires x / BOTTOM_SZ in bottoms && |bottoms[x / BOTTOM_SZ]| == BOTTOM_SZ
    ensures Get(Set(bottoms, x, s), y) == if y == x then s else Get(bottoms, y)
  {
  }

  lemma SetShape(top: seq<seq<nat>>, asc: seq<nat>, bottoms: Bottoms, x: nat, s: Slot)
    requires ShapeOk(top, asc, bottoms) && x / BOTTOM_SZ in bottoms
    ensures ShapeOk(top, asc, Set(bottoms, x, s))
  {
  }

  /** A new bottom index does not change what is found. */
  lemma GetNew(bottoms: Bottoms, k: nat, s: seq<Slot>, y: nat)
    requires k !in bottoms && |s| == BOTTOM_SZ && forall i :: 0 <= i < |s| ==> s[i] == Nil
    ensures Get(bottoms[k := s], y) == Get(bottoms, y)
  {
  }

  /** Where the key `k` belongs in the ascending list. */
  ghost predicate Place(asc: seq<nat>, k: nat, i: nat) {
    i <= |asc| && (forall j :: 0 <= j < i ==> asc[j] < k) && forall j :: i <= j < |asc| ==> k < asc[j]
  }

  lemma NewShape(top: seq<seq<nat>>, asc: seq<nat>, bottoms: Bottoms, k: nat, s: seq<Slot>, i: nat)
    requires ShapeOk(top, asc, bottoms) && k !in bottoms && |s| == BOTTOM_SZ && Place(asc, k, i)
    ensures var h := k % TOP_SZ;
            ShapeOk(top[h := [k] + top[h]], asc[..i] + [k] + asc[i..], bottoms[k := s])
  {
  }

  // ----- What the index says about blocks -----

  lemma SlotIs(bottoms: Bottoms, hdrs: Hdrs, x: nat)
    requires IndexOk(bottoms, hdrs)
    ensures SlotOk(Get(bottoms, x), hdrs, x)
  {
  }

  /** At most one block has `x` inside, and then no block starts there. */
  lemma InsideOne(bottoms: Bottoms, hdrs: Hdrs, b: nat, c: nat, x: nat)
    requires IndexOk(bottoms, hdrs) && Inside(hdrs, b, x) && (Inside(hdrs, c, x) || c == x)
    ensures c == x ==> x !in hdrs
    ensures c != x ==> c == b
  {
    SlotIs(bottoms, hdrs, x);
    SlotIs(bottoms, hdrs, c);
    SlotIs(bottoms, hdrs, b);
    assert b < c < x ==> Inside(hdrs, b, c);
    assert c < b < x && c != x ==> Inside(hdrs, c, b);
  }

  lemma InstallOk(bottoms: Bottoms, hdrs: Hdrs, b: nat, h: Hdr, to: Bottoms)
    requires IndexOk(bottoms, hdrs) && Get(bottoms, b) == Nil && !h.counted
    requires forall y: nat :: Get(to, y) == if y == b then Here else Get(bottoms, y)
    ensures IndexOk(to, hdrs[b := h]) && b !in hdrs
  {
    SlotIs(bottoms, hdrs, b);
    forall x: nat
      ensures SlotOk(Get(to, x), hdrs[b := h], x)
    {
      SlotIs(bottoms, hdrs, x);
      assert forall c: nat :: Inside(hdrs[b := h], c, x) <==> Inside(hdrs, c, x);
    }
  }

  lemma RemoveOk(bottoms: Bottoms, hdrs: Hdrs, b: nat, to: Bottoms)
    requires IndexOk(bottoms, hdrs) && b in hdrs && !hdrs[b].counted
    requires forall y: nat :: Get(to, y) == if y == b then Nil else Get(bottoms, y)
    ensures IndexOk(to, hdrs - {b})
  {
    SlotIs(bottoms, hdrs, b);
    forall x: nat
      ensures SlotOk(Get(to, x), hdrs - {b}, x)
    {
      SlotIs(bottoms, hdrs, x);
      assert forall c: nat :: Inside(hdrs - {b}, c, x) <==> Inside(hdrs, c, x);
    }
  }

  /** Fields of a header without counts may change. */
  lemma FieldsOk(bottoms: Bottoms, hdrs: Hdrs, b: nat, h: Hdr)
    requires IndexOk(bottoms, hdrs) && b in hdrs
    requires h.counted == hdrs[b].counted && (h.counted ==> h.units == hdrs[b].units)
    ensures IndexOk(bottoms, hdrs[b := h])
  {
    forall x: nat
      ensures SlotOk(Get(bottoms, x), hdrs[b := h], x)
    {
      SlotIs(bottoms, hdrs, x);
      assert forall c: nat :: Inside(hdrs[b := h], c, x) <==> Inside(hdrs, c, x);
    }
  }

  /** Nothing else starts or reaches inside the block. */
  ghost predicate Alone(bottoms: Bottoms, hdrs: Hdrs, b: nat) {
    b in hdrs && forall x: nat {:trigger Get(bottoms, x)} :: b < x < b + hdrs[b].units ==> Get(bottoms, x) == Nil
  }

  lemma CountsOk(bottoms: Bottoms, hdrs: Hdrs, b: nat, to: Bottoms)
    requires IndexOk(bottoms, hdrs) && Alone(bottoms, hdrs, b) && !hdrs[b].counted
    requires forall y: nat :: Get(to, y) == if b < y < b + hdrs[b].units then Jump(Count(b, y)) else Get(bottoms, y)
    ensures IndexOk(to, hdrs[b := hdrs[b].(counted := true)])
  {
    var after := hdrs[b := hdrs[b].(counted := true)];
    forall x: nat
      ensures SlotOk(Get(to, x), after, x)
    {
      SlotIs(bottoms, hdrs, x);
      assert forall c: nat :: c != b ==> (Inside(after, c, x) <==> Inside(hdrs, c, x));
      assert Inside(after, b, x) <==> b < x < b + hdrs[b].units;
    }
  }

  lemma UncountOk(bottoms: Bottoms, hdrs: Hdrs, b: nat, to: Bottoms)
    requires IndexOk(bottoms, hdrs) && b in hdrs && hdrs[b].counted
    requires forall y: nat :: Get(to, y) == if b < y < b + hdrs[b].units then Nil else Get(bottoms, y)
    ensures IndexOk(to, hdrs[b := hdrs[b].(counted := false)])
  {
    var after := hdrs[b := hdrs[b].(counted := false)];
    forall x: nat
      ensures SlotOk(Get(to, x), after, x)
    {
      SlotIs(bottoms, hdrs, x);
      assert forall c: nat :: c != b ==> (Inside(after, c, x) <==> Inside(hdrs, c, x));
      if Inside(hdrs, b, x) {
        forall c: nat
          ensures !Inside(after, c, x)
        {
          if Inside(hdrs, c, x) {
            InsideOne(bottoms, hdrs, b, c, x);
          }
        }
        InsideOne(bottoms, hdrs, b, x, x);
      }
    }
  }

  /** An entry of the header cache: a block number, or 0 for an empty entry. */
  ghost predicate CacheOk(cache: seq<nat>, hdrs: Hdrs) {
    && |cache| == HDR_CACHE_SIZE
    && forall i {:trigger cache[i]} :: 0 <= i < |cache| && cache[i] != 0 ==> cache[i] in hdrs && !hdrs[cache[i]].free
  }

  class HeaderIndex {
    var top: seq<seq<nat>>      // GC_top_index: hash chains of keys
    var asc: seq<nat>           // the keys of all bottom indices, ascending
    var bottoms: Bottoms
    var hdrs: Hdrs
    var cache: seq<nat>         // GC_hdr_cache
    var allInterior: bool       // GC_all_interior_pointers

    ghost predicate Valid()
      reads this
    {
      ShapeOk(top, asc, bottoms) && IndexOk(bottoms, hdrs) && CacheOk(cache, hdrs)
    }

    constructor (interior: bool)
      ensures Valid() && hdrs == map[]
    {
      top, asc, bottoms, hdrs := seq(TOP_SZ, _ => []), [], map[], map[];
      cache := seq(HDR_CACHE_SIZE, _ => 0);
      allInterior := interior;
    }

    /** GET_BI: is there a bottom index with this key? */
    method HasBottom(k: nat) returns (r: bool)
      requires ShapeOk(top, asc, bottoms)
      ensures r <==> k in bottoms
    {
      var chain := top[k % TOP_SZ];
      var i := 0;
      while i < |chain|
        invariant 0 <= i <= |chain| && forall j :: 0 <= j < i ==> chain[j] != k
      {
        if chain[i] == k {
          return true;
        }
        i := i + 1;
      }
      return false;
    }

    /** get_index: make sure that there is a bottom index with this key. */
    method GetIndex(k: nat)
      requires ShapeOk(top, asc, bottoms)
      modifies this`top, this`asc, this`bottoms
      ensures ShapeOk(top, asc, bottoms) && k in bottoms && old(bottoms).Keys <= bottoms.Keys
      ensures forall y: nat :: Get(bottoms, y) == Get(old(bottoms), y)
    {
      hide ChainsOk;
      var there := HasBottom(k);
      if there {
        return;
      }
      var i := 0;
      while i < |asc| && asc[i] < k
        invariant 0 <= i <= |asc| && forall j :: 0 <= j < i ==> asc[j] < k
      {
        i := i + 1;
      }
      assert Place(asc, k, i) by {
        if i < |asc| {
          assert asc[i] in asc;
        }
      }
      var r := seq(BOTTOM_SZ, _ => Nil);
      NewShape(top, asc, bottoms, k, r, i);
      TopSize(top, bottoms);
      forall y: nat
        ensures Get(bottoms[k := r], y) == Get(bottoms, y)
      {
        GetNew(bottoms, k, r, y);
      }
      bottoms := bottoms[k := r];
      asc := asc[..i] + [k] + asc[i..];
      top := top[k % TOP_SZ := [k] + top[k % TOP_SZ]];
    }

    /** SET_HDR. */
    method SetSlot(x: nat, s: Slot)
      requires ShapeOk(top, asc, bottoms) && x / BOTTOM_SZ in bottoms
      modifies this`bottoms
      ensures ShapeOk(top, asc, bottoms) && bottoms.Keys == old(bottoms).Keys
      ensures forall y: nat :: Get(bottoms, y) == if y == x then s else Get(old(bottoms), y)
    {
      SetShape(top, asc, bottoms, x, s);
      forall y: nat
        ensures Get(Set(bottoms, x, s), y) == if y == x then s else Get(bottoms, y)
      {
        GetSet(bottoms, x, s, y);
      }
      bottoms := Set(bottoms, x, s);
    }

    /** GC_INVALIDATE_HDR_CACHE. */
    method Invalidate()
      modifies this`cache
      ensures forall h: Hdrs :: CacheOk(cache, h)
    {
      cache := seq(HDR_CACHE_SIZE, _ => 0);
    }

    /** GC_install_header, with the setting up of its fields. */
    method InstallHeader(b: nat, h: Hdr)
      requires Valid() && Get(bottoms, b) == Nil && !h.counted
      modifies this
      ensures Valid() && hdrs == old(hdrs)[b := h] && allInterior == old(allInterior)
    {
      hide ShapeOk;
      hide IndexOk;
      hide CacheOk;
      Invalidate();
      GetIndex(b / BOTTOM_SZ);
      SetSlot(b, Here);
      InstallOk(old(bottoms), hdrs, b, h, bottoms);
      hdrs := hdrs[b := h];
    }

    /** GC_remove_header. */
    method RemoveHeader(b: nat)
      requires Valid() && b in hdrs && !hdrs[b].counted
      modifies this
      ensures Valid() && hdrs == old(hdrs) - {b} && allInterior == old(allInterior)
    {
      hide ShapeOk;
      hide IndexOk;
      hide CacheOk;
      Invalidate();
      BottomThere(bottoms, hdrs, b);
      SetSlot(b, Nil);
      RemoveOk(old(bottoms), hdrs, b, bottoms);
      hdrs := hdrs - {b};
    }

    /** Bottom indices for all block numbers from `b` up to `limit`, as GC_install_counts asks for
        them: one in every BOTTOM_SZ numbers, and the last. */
    method GetIndices(b: nat, limit: nat)
      requires ShapeOk(top, asc, bottoms) && b < limit
      modifies this`top, this`asc, this`bottoms
      ensures ShapeOk(top, asc, bottoms) && old(bottoms).Keys <= bottoms.Keys
      ensures forall x: nat :: b <= x < limit ==> x / BOTTOM_SZ in bottoms
      ensures forall y: nat :: Get(bottoms, y) == Get(old(bottoms), y)
    {
      hide ShapeOk;
      hide Get;
      var h := b;
      while h < limit
        invariant b <= h && ShapeOk(top, asc, bottoms) && old(bottoms).Keys <= bottoms.Keys
        invariant forall k :: b / BOTTOM_SZ <= k < h / BOTTOM_SZ ==> k in bottoms
        invariant forall y: nat :: Get(bottoms, y) == Get(old(bottoms), y)
        invariant h >= limit ==> (limit - 1) / BOTTOM_SZ <= h / BOTTOM_SZ
        decreases limit - h
      {
        GetIndex(h / BOTTOM_SZ);
        h := h + BOTTOM_SZ;
      }
      GetIndex((limit - 1) / BOTTOM_SZ);
    }

    /** GC_install_counts. */
    method InstallCounts(b: nat)
      requires Valid() && b in hdrs && !hdrs[b].counted && hdrs[b].units >= 1 && Alone(bottoms, hdrs, b)
      modifies this
      ensures Valid() && hdrs == old(hdrs)[b := old(hdrs)[b].(counted := true)] && allInterior == old(allInterior)
      ensures forall x: nat :: b < x < b + old(hdrs)[b].units ==>
                Get(bottoms, x) == Jump(if x - b > MAX_JUMP then MAX_JUMP else x - b)
    {
      hide ShapeOk;
      hide IndexOk;
      hide CacheOk;
      hide Get;
      Invalidate();
      var limit := b + hdrs[b].units;
      GetIndices(b, limit);
      var h := b + 1;
      while h < limit
        invariant b < h <= limit && ShapeOk(top, asc, bottoms) && hdrs == old(hdrs)
        invariant forall x: nat :: b <= x < limit ==> x / BOTTOM_SZ in bottoms
        invariant forall y: nat :: Get(bottoms, y) == if b < y < h then Jump(Count(b, y)) else Get(old(bottoms), y)
        invariant (forall hh: Hdrs :: CacheOk(cache, hh)) && allInterior == old(allInterior)
      {
        SetSlot(h, Jump(if h - b > MAX_JUMP then MAX_JUMP else h - b));
        h := h + 1;
      }
      CountsOk(old(bottoms), hdrs, b, bottoms);
      hdrs := hdrs[b := hdrs[b].(counted := true)];
    }

    /** GC_remove_counts. */
    method RemoveCounts(b: nat)
      requires Valid() && b in hdrs && (!hdrs[b].counted ==> Alone(bottoms, hdrs, b))
      modifies this
      ensures Valid() && hdrs == old(hdrs)[b := old(hdrs)[b].(counted := false)] && allInterior == old(allInterior)
    {
      hide ShapeOk;
      hide IndexOk;
      hide CacheOk;
      hide Get;
      Invalidate();
      var limit := b + hdrs[b].units;
      if hdrs[b].units <= 1 || Get(bottoms, b + 1) == Nil {
        if hdrs[b].counted {
          CountedFirst(bottoms, hdrs, b);
          UncountOk(bottoms, hdrs, b, bottoms);
          hdrs := hdrs[b := hdrs[b].(counted := false)];
        }
        assert hdrs == old(hdrs)[b := old(hdrs)[b].(counted := false)];
        return;
      }
      assert hdrs[b].counted;
      CountedBottoms(bottoms, hdrs, b);
      var h := b + 1;
      while h < limit
        invariant b < h <= limit && ShapeOk(top, asc, bottoms) && hdrs == old(hdrs)
        invariant forall x: nat :: b < x < limit ==> x / BOTTOM_SZ in bottoms
        invariant forall y: nat :: Get(bottoms, y) == if b < y < h then Nil else Get(old(bottoms), y)
        invariant (forall hh: Hdrs :: CacheOk(cache, hh)) && allInterior == old(allInterior)
      {
        SetSlot(h, Nil);
        h := h + 1;
      }
      UncountOk(old(bottoms), hdrs, b, bottoms);
      hdrs := hdrs[b := hdrs[b].(counted := false)];
    }

    /** Writing header fields; a block that becomes free must not stay in the cache. */
    method SetFields(b: nat, h: Hdr)
      requires Valid() && b in hdrs && h.counted == hdrs[b].counted && (h.counted ==> h.units == hdrs[b].units)
      modifies this`hdrs, this`cache
      ensures Valid() && hdrs == old(hdrs)[b := h]
    {
      hide ShapeOk;
      hide IndexOk;
      FieldsOk(bottoms, hdrs, b, h);
      if h.free {
        Invalidate();
      }
      hdrs := hdrs[b := h];
    }

    /** GC_find_starting_hblk: follow the counts to the start of the block. */
    method FindStart(x: nat) returns (h: nat)
      requires Valid() && Get(bottoms, x) != Nil
      ensures h in hdrs && (h == x || Inside(hdrs, h, x))
    {
      hide ShapeOk;
      hide IndexOk;
      hide CacheOk;
      hide Get;
      SlotIs(bottoms, hdrs, x);
      h := x;
      while Get(bottoms, h) != Here
        invariant h <= x && Get(bottoms, h) != Nil && (h == x || h in hdrs || Get(bottoms, h).Jump?)
        invariant forall b: nat :: Inside(hdrs, b, x) ==> h == b || Inside(hdrs, b, h)
        invariant h != x ==> exists b: nat :: Inside(hdrs, b, x)
        decreases h
      {
        ghost var b := Owner(bottoms, hdrs, h);
        FollowJump(bottoms, hdrs, b, h, x);
        h := h - Get(bottoms, h).n;
      }
      SlotIs(bottoms, hdrs, h);
      StartReached(bottoms, hdrs, h, x);
    }

    /** The position of the first key that is not below `k`. */
    method FirstFrom(k: nat) returns (i: nat)
      requires ShapeOk(top, asc, bottoms)
      ensures i <= |asc| && (forall j :: 0 <= j < i ==> asc[j] < k) && (i < |asc| ==> asc[i] >= k)
    {
      i := 0;
      while i < |asc| && asc[i] < k
        invariant 0 <= i <= |asc| && forall j :: 0 <= j < i ==> asc[j] < k
      {
        i := i + 1;
      }
    }

    /** Search one bottom index upwards from entry `from`. */
    method ScanUp(k: nat, from: nat, allowFree: bool) returns (r: Option<nat>)
      requires Valid() && Disjoint(hdrs) && k in bottoms
      ensures r.Some? ==> k * BOTTOM_SZ + from <= r.value && Qualifies(hdrs, allowFree, r.value)
      ensures r.Some? ==> NoneIn(hdrs, allowFree, k * BOTTOM_SZ + from, r.value)
      ensures r.None? ==> NoneIn(hdrs, allowFree, k * BOTTOM_SZ + from, (k + 1) * BOTTOM_SZ)
    {
      hide IndexOk;
      hide CacheOk;
      hide ShapeOk;
      hide Get;
      var j := from;
      while j < BOTTOM_SZ
        invariant from <= j && NoneIn(hdrs, allowFree, k * BOTTOM_SZ + from, k * BOTTOM_SZ + j)
        decreases BOTTOM_SZ - j
      {
        ghost var x := k * BOTTOM_SZ + j;
        EntryIs(top, asc, bottoms, k, j);
        SlotIs(bottoms, hdrs, x);
        if bottoms[k][j] != Here {
          j := j + 1;
        } else {
          var b := k * BOTTOM_SZ + j;
          if allowFree || !hdrs[b].free {
            return Some(b);
          }
          SkipFree(hdrs, allowFree, k * BOTTOM_SZ + from, b);
          j := j + hdrs[b].units;
        }
      }
      return None;
    }

    /** GC_next_block: the first qualifying block at or above `h`. */
    method NextBlock(h: nat, allowFree: bool) returns (r: Option<nat>)
      requires Valid() && Disjoint(hdrs)
      ensures r.Some? ==> h <= r.value && Qualifies(hdrs, allowFree, r.value) && NoneIn(hdrs, allowFree, h, r.value)
      ensures r.None? ==> forall b: nat :: h <= b ==> !Qualifies(hdrs, allowFree, b)
    {
      hide IndexOk;
      hide CacheOk;
      hide Disjoint;
      hide Get;
      hide ShapeOk;
      hide NoneIn;
      var i := FirstFrom(h / BOTTOM_SZ);
      var j: nat := if i < |asc| && asc[i] == h / BOTTOM_SZ then h % BOTTOM_SZ else 0;
      StartUp(top, asc, bottoms, hdrs, allowFree, h, i);
      while i < |asc|
        invariant i <= |asc| && j < BOTTOM_SZ
        invariant i < |asc| ==> h <= asc[i] * BOTTOM_SZ + j && NoneIn(hdrs, allowFree, h, asc[i] * BOTTOM_SZ + j)
        invariant i == |asc| ==> forall b: nat :: h <= b ==> !Qualifies(hdrs, allowFree, b)
      {
        KeyThere(top, asc, bottoms, i);
        r := ScanUp(asc[i], j, allowFree);
        if r.Some? {
          NoneJoin(hdrs, allowFree, h, asc[i] * BOTTOM_SZ + j, r.value);
          return;
        }
        NextUp(top, asc, bottoms, hdrs, allowFree, h, i, j);
        i, j := i + 1, 0;
      }
      return None;
    }

    /** Search one bottom index downwards from entry `from`. */
    method ScanDown(k: nat, from: nat) returns (r: Option<nat>)
      requires Valid() && k in bottoms && from < BOTTOM_SZ
      ensures r.Some? ==> r.value in hdrs && r.value <= k * BOTTOM_SZ + from
      ensures r.Some? ==> NoneIn(hdrs, true, r.value + 1, k * BOTTOM_SZ + from + 1)
      ensures r.None? ==> NoneIn(hdrs, true, k * BOTTOM_SZ, k * BOTTOM_SZ + from + 1)
    {
      hide IndexOk;
      hide CacheOk;
      hide ShapeOk;
      hide Get;
      var j: int := from;
      while j >= 0
        invariant j <= from
        invariant forall b: nat :: k * BOTTOM_SZ <= b <= k * BOTTOM_SZ + from && k * BOTTOM_SZ + j < b ==> b !in hdrs
      {
        ghost var x := k * BOTTOM_SZ + j;
        EntryIs(top, asc, bottoms, k, j);
        SlotIs(bottoms, hdrs, x);
        match bottoms[k][j] {
          case Nil =>
            j := j - 1;
          case Jump(n) =>
            JumpOver(bottoms, hdrs, x);
            j := j - n;
          case Here =>
            return Some(k * BOTTOM_SZ + j);
        }
      }
      return None;
    }

    /** GC_prev_block: the last block that starts at or below `h`. */
    method PrevBlock(h: nat) returns (r: Option<nat>)
      requires Valid()
      ensures r.Some? ==> r.value in hdrs && r.value <= h && NoneIn(hdrs, true, r.value + 1, h + 1)
      ensures r.None? ==> NoneIn(hdrs, true, 0, h + 1)
    {
      hide IndexOk;
      hide CacheOk;
      hide Get;
      hide ShapeOk;
      hide NoneIn;
      var k := h / BOTTOM_SZ;
      var i := FirstFrom(k + 1);
      var j: nat := if i > 0 && asc[i - 1] == k then h % BOTTOM_SZ else BOTTOM_SZ - 1;
      StartDown(top, asc, bottoms, hdrs, h, i);
      while i > 0
        invariant 0 <= i <= |asc| && j < BOTTOM_SZ
        invariant i > 0 ==> asc[i - 1] * BOTTOM_SZ + j <= h && NoneIn(hdrs, true, asc[i - 1] * BOTTOM_SZ + j + 1, h + 1)
        invariant i == 0 ==> NoneIn(hdrs, true, 0, h + 1)
      {
        KeyThere(top, asc, bottoms, i - 1);
        r := ScanDown(asc[i - 1], j);
        if r.Some? {
          NoneJoin(hdrs, true, r.value + 1, asc[i - 1] * BOTTOM_SZ + j + 1, h + 1);
          return;
        }
        NextDown(top, asc, bottoms, hdrs, h, i, j);
        i, j := i - 1, BOTTOM_SZ - 1;
      }
      return None;
    }

    /** get_block_ending_at: the block that ends just before `h`, where no block goes on. */
    method BlockEndingAt(h: nat) returns (r: Option<nat>)
      requires Valid() && Disjoint(hdrs) && h > 0
      requires forall b :: b in hdrs ==> !(b < h < b + hdrs[b].units)
      ensures r.Some? ==> r.value in hdrs && r.value + hdrs[r.value].units == h
      ensures r.None? ==> forall b :: b in hdrs ==> b + hdrs[b].units != h
    {
      hide IndexOk;
      hide CacheOk;
      hide Get;
      hide ShapeOk;
      var p := h - 1;
      SlotIs(bottoms, hdrs, p);
      if Get(bottoms, p) != Nil {
        var s := FindStart(p);
        return Some(s);
      }
      r := PrevBlock(p);
      if r.Some? {
        forall b | b in hdrs && b + hdrs[b].units == h
          ensures b == r.value
        {
          assert Qualifies(hdrs, true, b);
        }
        if r.value + hdrs[r.value].units == h {
          return;
        }
      } else {
        forall b | b in hdrs
          ensures b >= h
        {
          assert Qualifies(hdrs, true, b);
        }
      }
      return None;
    }

    /** One bottom index of the walk: its blocks in use, from the last to the first. */
    method WalkBottom(k: nat, visited: seq<nat>) returns (to: seq<nat>)
      requires Valid() && k in bottoms && Walked(hdrs, visited, k * BOTTOM_SZ)
      ensures Walked(hdrs, to, (k + 1) * BOTTOM_SZ)
    {
      hide IndexOk;
      hide CacheOk;
      hide ShapeOk;
      hide Get;
      hide WalkedDown;
      to := visited;
      var j: int := BOTTOM_SZ - 1;
      WalkStart(hdrs, visited, k);
      while j >= 0
        invariant j < BOTTOM_SZ && WalkedDown(hdrs, to, k, j)
      {
        ghost var x := k * BOTTOM_SZ + j;
        EntryIs(top, asc, bottoms, k, j);
        SlotIs(bottoms, hdrs, x);
        var s := bottoms[k][j];
        if s != Here {
          if s.Jump? {
            JumpOver(bottoms, hdrs, x);
          }
          WalkSkip(hdrs, to, k, j, if s.Jump? then s.n else 1);
          j := j - (if s.Jump? then s.n else 1);
        } else {
          var b := k * BOTTOM_SZ + j;
          WalkTake(hdrs, to, k, j);
          if !hdrs[b].free {
            to := to + [b];
          }
          j := j - 1;
        }
      }
      WalkEnd(hdrs, to, k, j);
    }

    /** GC_apply_to_all_blocks: the blocks that are visited, in order.  Every block in use is
        visited exactly once. */
    method ApplyToAllBlocks() returns (visited: seq<nat>)
      requires Valid()
      ensures forall b: nat :: b in visited <==> b in hdrs && !hdrs[b].free
      ensures forall i, j :: 0 <= i < j < |visited| ==> visited[i] != visited[j]
    {
      hide IndexOk;
      hide CacheOk;
      hide ShapeOk;
      hide Get;
      visited := [];
      var i := 0;
      WalkFirst(top, asc, bottoms, hdrs);
      while i < |asc|
        invariant 0 <= i <= |asc|
        invariant i < |asc| ==> Walked(hdrs, visited, asc[i] * BOTTOM_SZ)
        invariant i == |asc| ==> forall b: nat :: b in visited <==> b in hdrs && !hdrs[b].free
        invariant forall i, j :: 0 <= i < j < |visited| ==> visited[i] != visited[j]
      {
        KeyThere(top, asc, bottoms, i);
        visited := WalkBottom(asc[i], visited);
        WalkNext(top, asc, bottoms, hdrs, visited, i);
        i := i + 1;
      }
    }

    /** GC_header_cache_miss, for the byte address `p` in block `x`. */
    method CacheMiss(p: nat) returns (r: Option<nat>)
      requires Valid() && p / HBLKSIZE > 0
      modifies this`cache
      ensures Valid() && r == Resolved(hdrs, allInterior, p)
    {
      hide IndexOk;
      hide ShapeOk;
      hide Get;
      var x := p / HBLKSIZE;
      SlotIs(bottoms, hdrs, x);
      var s := Get(bottoms, x);
      if s != Here {
        if allInterior && s != Nil {
          var start := FindStart(x);
          InsideUnique(bottoms, hdrs, start, x);
          if hdrs[start].offPage || hdrs[start].free || p - start * HBLKSIZE >= hdrs[start].objBytes {
            return None;
          }
          assert LargeHolds(hdrs, start, p);
          return Some(start);
        }
        return None;
      }
      if hdrs[x].free {
        return None;
      }
      cache := cache[x % HDR_CACHE_SIZE := x];
      return Some(x);
    }

    /** HC_GET_HDR: with the cache, the answer is the same as without. */
    method Lookup(p: nat) returns (r: Option<nat>)
      requires Valid() && p / HBLKSIZE > 0
      modifies this`cache
      ensures Valid() && r == Resolved(hdrs, allInterior, p)
    {
      hide IndexOk;
      hide ShapeOk;
      var x := p / HBLKSIZE;
      if cache[x % HDR_CACHE_SIZE] == x {
        return Some(x);
      }
      r := CacheMiss(p);
    }

    /** GC_base: the start of the object that holds the byte address `p`. */
    method Base(p: nat) returns (r: Option<nat>)
      requires Valid() && ObjectsOk(hdrs)
      ensures r.Some? ==> HoldsObject(hdrs, r.value, p)
      ensures r.None? ==> forall o: nat :: !HoldsObject(hdrs, o, p)
    {
      hide IndexOk;
      hide ShapeOk;
      hide CacheOk;
      hide Get;
      hide HoldsObject;
      var x := p / HBLKSIZE;
      SlotIs(bottoms, hdrs, x);
      if Get(bottoms, x) == Nil {
        NoObject(bottoms, hdrs, p);
        return None;
      }
      var h := FindStart(x);
      if hdrs[h].free {
        FreeHolds(bottoms, hdrs, h, p);
        return None;
      }
      r := BaseIn(hdrs, h, p);
      BaseIs(bottoms, hdrs, h, p);
    }
  }

  ghost predicate Disjoint(hdrs: Hdrs) {
    && (forall b :: b in hdrs ==> hdrs[b].units >= 1)
    && forall b, c :: b in hdrs && c in hdrs && b < c ==> b + hdrs[b].units <= c
  }

  predicate Qualifies(hdrs: Hdrs, allowFree: bool, b: nat) {
    b in hdrs && (allowFree || !hdrs[b].free)
  }

  ghost predicate NoneIn(hdrs: Hdrs, allowFree: bool, lo: nat, hi: nat) {
    forall b: nat :: lo <= b < hi ==> !Qualifies(hdrs, allowFree, b)
  }

  lemma NoneJoin(hdrs: Hdrs, allowFree: bool, lo: nat, mid: nat, hi: nat)
    requires NoneIn(hdrs, allowFree, lo, mid) && NoneIn(hdrs, allowFree, mid, hi)
    ensures NoneIn(hdrs, allowFree, lo, hi)
  {
  }

  lemma EntryIs(top: seq<seq<nat>>, asc: seq<nat>, bottoms: Bottoms, k: nat, j: nat)
    requires ShapeOk(top, asc, bottoms) && k in bottoms && j < BOTTOM_SZ
    ensures |bottoms[k]| == BOTTOM_SZ && bottoms[k][j] == Get(bottoms, k * BOTTOM_SZ + j)
  {
  }

  lemma KeyThere(top: seq<seq<nat>>, asc: seq<nat>, bottoms: Bottoms, i: nat)
    requires ShapeOk(top, asc, bottoms) && i < |asc|
    ensures asc[i] in bottoms
  {
  }

  /** Blocks start only where there is a bottom index. */
  lemma KeyOf(top: seq<seq<nat>>, asc: seq<nat>, bottoms: Bottoms, hdrs: Hdrs, b: nat) returns (i: nat)
    requires ShapeOk(top, asc, bottoms) && IndexOk(bottoms, hdrs) && b in hdrs
    ensures i < |asc| && asc[i] == b / BOTTOM_SZ
  {
    SlotIs(bottoms, hdrs, b);
    assert b / BOTTOM_SZ in asc;
    i :| 0 <= i < |asc| && asc[i] == b / BOTTOM_SZ;
  }

  /** Nothing starts inside a free block either. */
  lemma SkipFree(hdrs: Hdrs, allowFree: bool, lo: nat, b: nat)
    requires Disjoint(hdrs) && b in hdrs && !Qualifies(hdrs, allowFree, b) && NoneIn(hdrs, allowFree, lo, b)
    ensures NoneIn(hdrs, allowFree, lo, b + hdrs[b].units) && hdrs[b].units >= 1
  {
  }

  lemma StartUp(top: seq<seq<nat>>, asc: seq<nat>, bottoms: Bottoms, hdrs: Hdrs, allowFree: bool, h: nat, i: nat)
    requires ShapeOk(top, asc, bottoms) && IndexOk(bottoms, hdrs)
    requires i <= |asc| && (forall j :: 0 <= j < i ==> asc[j] < h / BOTTOM_SZ)
             && (i < |asc| ==> asc[i] >= h / BOTTOM_SZ)
    ensures i < |asc| ==>
              var x := asc[i] * BOTTOM_SZ + (if asc[i] == h / BOTTOM_SZ then h % BOTTOM_SZ else 0);
              h <= x && NoneIn(hdrs, allowFree, h, x)
    ensures i == |asc| ==> forall b: nat :: h <= b ==> !Qualifies(hdrs, allowFree, b)
  {
    hide IndexOk;
    hide ChainsOk;
    forall b: nat | h <= b && b in hdrs
      ensures i < |asc| && asc[i] <= b / BOTTOM_SZ
    {
      var k := KeyOf(top, asc, bottoms, hdrs, b);
    }
  }

  lemma NextUp(top: seq<seq<nat>>, asc: seq<nat>, bottoms: Bottoms, hdrs: Hdrs, allowFree: bool, h: nat, i: nat, j: nat)
    requires ShapeOk(top, asc, bottoms) && IndexOk(bottoms, hdrs) && i < |asc|
    requires h <= asc[i] * BOTTOM_SZ + j && NoneIn(hdrs, allowFree, h, asc[i] * BOTTOM_SZ + j)
    requires j < BOTTOM_SZ && NoneIn(hdrs, allowFree, asc[i] * BOTTOM_SZ + j, (asc[i] + 1) * BOTTOM_SZ)
    ensures i + 1 < |asc| ==> h <= asc[i + 1] * BOTTOM_SZ && NoneIn(hdrs, allowFree, h, asc[i + 1] * BOTTOM_SZ)
    ensures i + 1 == |asc| ==> forall b: nat :: h <= b ==> !Qualifies(hdrs, allowFree, b)
  {
    hide IndexOk;
    hide ChainsOk;
    forall b: nat | (asc[i] + 1) * BOTTOM_SZ <= b && b in hdrs
      ensures i + 1 < |asc| && asc[i + 1] <= b / BOTTOM_SZ
    {
      var k := KeyOf(top, asc, bottoms, hdrs, b);
      assert asc[i] < asc[k];
    }
  }

  /** A jump passes over no start of a block. */
  lemma JumpOver(bottoms: Bottoms, hdrs: Hdrs, x: nat)
    requires IndexOk(bottoms, hdrs) && Get(bottoms, x).Jump?
    ensures var n := Get(bottoms, x).n; 0 < n <= x && forall y: nat :: x - n < y <= x ==> y !in hdrs
  {
    var b := Owner(bottoms, hdrs, x);
    forall y: nat | x - Count(b, x) < y <= x
      ensures y !in hdrs
    {
      assert Inside(hdrs, b, y);
      InsideOne(bottoms, hdrs, b, y, y);
    }
  }

  lemma StartDown(top: seq<seq<nat>>, asc: seq<nat>, bottoms: Bottoms, hdrs: Hdrs, h: nat, i: nat)
    requires ShapeOk(top, asc, bottoms) && IndexOk(bottoms, hdrs)
    requires i <= |asc| && (forall j :: 0 <= j < i ==> asc[j] < h / BOTTOM_SZ + 1)
             && (i < |asc| ==> asc[i] >= h / BOTTOM_SZ + 1)
    ensures i > 0 ==>
              var x := asc[i - 1] * BOTTOM_SZ + (if asc[i - 1] == h / BOTTOM_SZ then h % BOTTOM_SZ else BOTTOM_SZ - 1);
              x <= h && NoneIn(hdrs, true, x + 1, h + 1)
    ensures i == 0 ==> NoneIn(hdrs, true, 0, h + 1)
  {
    hide IndexOk;
    hide ChainsOk;
    forall b: nat | b <= h && b in hdrs
      ensures i > 0 && b / BOTTOM_SZ <= asc[i - 1]
    {
      var k := KeyOf(top, asc, bottoms, hdrs, b);
      assert i < |asc| ==> k < i;
    }
  }

  lemma NextDown(top: seq<seq<nat>>, asc: seq<nat>, bottoms: Bottoms, hdrs: Hdrs, h: nat, i: nat, j: nat)
    requires ShapeOk(top, asc, bottoms) && IndexOk(bottoms, hdrs) && 0 < i <= |asc| && j < BOTTOM_SZ
    requires asc[i - 1] * BOTTOM_SZ + j <= h && NoneIn(hdrs, true, asc[i - 1] * BOTTOM_SZ + j + 1, h + 1)
    requires NoneIn(hdrs, true, asc[i - 1] * BOTTOM_SZ, asc[i - 1] * BOTTOM_SZ + j + 1)
    ensures i > 1 ==>
              asc[i - 2] * BOTTOM_SZ + BOTTOM_SZ - 1 <= h && NoneIn(hdrs, true, (asc[i - 2] + 1) * BOTTOM_SZ, h + 1)
    ensures i == 1 ==> NoneIn(hdrs, true, 0, h + 1)
  {
    hide IndexOk;
    hide ChainsOk;
    forall b: nat | b < asc[i - 1] * BOTTOM_SZ && b in hdrs
      ensures i > 1 && b / BOTTOM_SZ <= asc[i - 2]
    {
      var k := KeyOf(top, asc, bottoms, hdrs, b);
      assert asc[k] < asc[i - 1];
    }
    assert i > 1 ==> asc[i - 2] < asc[i - 1];
  }

  /** The blocks in use below `limit` were visited, each once. */
  ghost predicate Walked(hdrs: Hdrs, visited: seq<nat>, limit: nat) {
    && (forall b: nat :: b in visited <==> b in hdrs && !hdrs[b].free && b < limit)
    && forall i, j :: 0 <= i < j < |visited| ==> visited[i] != visited[j]
  }

  /** In the bottom index `k`, those above entry `j` were visited too. */
  ghost predicate WalkedDown(hdrs: Hdrs, visited: seq<nat>, k: nat, j: int) {
    && (forall b: nat :: b in visited <==>
          b in hdrs && !hdrs[b].free && b < (k + 1) * BOTTOM_SZ && (b < k * BOTTOM_SZ || k * BOTTOM_SZ + j < b))
    && forall i, j :: 0 <= i < j < |visited| ==> visited[i] != visited[j]
  }

  lemma WalkStart(hdrs: Hdrs, visited: seq<nat>, k: nat)
    requires Walked(hdrs, visited, k * BOTTOM_SZ)
    ensures WalkedDown(hdrs, visited, k, BOTTOM_SZ - 1)
  {
  }

  lemma WalkEnd(hdrs: Hdrs, visited: seq<nat>, k: nat, j: int)
    requires WalkedDown(hdrs, visited, k, j) && j < 0
    ensures Walked(hdrs, visited, (k + 1) * BOTTOM_SZ)
  {
  }

  lemma WalkSkip(hdrs: Hdrs, visited: seq<nat>, k: nat, j: nat, n: nat)
    requires WalkedDown(hdrs, visited, k, j) && 0 < n
    requires forall y: nat :: k * BOTTOM_SZ + j - n < y <= k * BOTTOM_SZ + j ==> y !in hdrs
    ensures WalkedDown(hdrs, visited, k, j - n)
  {
  }

  lemma WalkTake(hdrs: Hdrs, visited: seq<nat>, k: nat, j: nat)
    requires WalkedDown(hdrs, visited, k, j) && j < BOTTOM_SZ && k * BOTTOM_SZ + j in hdrs
    ensures var b := k * BOTTOM_SZ + j; WalkedDown(hdrs, if hdrs[b].free then visited else visited + [b], k, j - 1)
  {
  }

  lemma WalkFirst(top: seq<seq<nat>>, asc: seq<nat>, bottoms: Bottoms, hdrs: Hdrs)
    requires ShapeOk(top, asc, bottoms) && IndexOk(bottoms, hdrs)
    ensures asc != [] ==> Walked(hdrs, [], asc[0] * BOTTOM_SZ)
    ensures asc == [] ==> hdrs == map[]
  {
    hide IndexOk;
    hide ChainsOk;
    forall b: nat | b in hdrs
      ensures asc != [] && asc[0] * BOTTOM_SZ <= b
    {
      var k := KeyOf(top, asc, bottoms, hdrs, b);
      assert asc[0] <= asc[k];
    }
    if asc == [] {
      assert hdrs.Keys == {};
    }
  }

  lemma WalkNext(top: seq<seq<nat>>, asc: seq<nat>, bottoms: Bottoms, hdrs: Hdrs, visited: seq<nat>, i: nat)
    requires ShapeOk(top, asc, bottoms) && IndexOk(bottoms, hdrs) && i < |asc|
             && Walked(hdrs, visited, (asc[i] + 1) * BOTTOM_SZ)
    ensures i + 1 < |asc| ==> Walked(hdrs, visited, asc[i + 1] * BOTTOM_SZ)
    ensures i + 1 == |asc| ==> forall b: nat :: b in visited <==> b in hdrs && !hdrs[b].free
  {
    hide IndexOk;
    hide ChainsOk;
    forall b: nat | b in hdrs
      ensures b < (asc[i] + 1) * BOTTOM_SZ || (i + 1 < |asc| && asc[i + 1] * BOTTOM_SZ <= b)
    {
      var k := KeyOf(top, asc, bottoms, hdrs, b);
      assert k > i + 1 ==> asc[i + 1] < asc[k];
      assert k < i ==> asc[k] < asc[i];
    }
    assert i + 1 < |asc| ==> asc[i] < asc[i + 1];
  }

  // ----- Pointers into blocks -----

  /** The header of a pointer, by the blocks alone: that of the block in use that starts where it
      points, or of the large object that it points into, if such pointers count. */
  ghost function Resolved(hdrs: Hdrs, allInterior: bool, p: nat): Option<nat> {
    var x := p / HBLKSIZE;
    if x in hdrs then (if hdrs[x].free then None else Some(x))
    else if allInterior && exists b: nat :: LargeHolds(hdrs, b, p) then
      var b: nat :| LargeHolds(hdrs, b, p);
      Some(b)
    else None
  }

  ghost predicate LargeHolds(hdrs: Hdrs, b: nat, p: nat) {
    Inside(hdrs, b, p / HBLKSIZE) && !hdrs[b].offPage && !hdrs[b].free && p - b * HBLKSIZE < hdrs[b].objBytes
  }

  lemma InsideUnique(bottoms: Bottoms, hdrs: Hdrs, b: nat, x: nat)
    requires IndexOk(bottoms, hdrs) && Inside(hdrs, b, x)
    ensures forall c: nat :: Inside(hdrs, c, x) ==> c == b
  {
    forall c: nat | Inside(hdrs, c, x)
      ensures c == b
    {
      InsideOne(bottoms, hdrs, b, c, x);
    }
  }

  /** A block in use has the least number of units that an object needs; objects are made of
      words, and large ones have counts. */
  ghost predicate ObjectsOk(hdrs: Hdrs) {
    forall b :: b in hdrs && !hdrs[b].free ==>
      && hdrs[b].units >= 1 && hdrs[b].objBytes > 0 && hdrs[b].objBytes % 8 == 0
      && (hdrs[b].units - 1) * HBLKSIZE < hdrs[b].objBytes <= hdrs[b].units * HBLKSIZE
      && (hdrs[b].units > 1 ==> hdrs[b].counted)
  }

  /** The byte address `p` lies in the object slot that starts at `o`, in a block in use. */
  ghost predicate HoldsObject(hdrs: Hdrs, o: nat, p: nat) {
    exists b: nat :: HoldsObjectIn(hdrs, b, o, p)
  }

  ghost predicate HoldsObjectIn(hdrs: Hdrs, b: nat, o: nat, p: nat) {
    && b in hdrs && !hdrs[b].free
    && o <= p < o + hdrs[b].objBytes
    && IsSlot(b * HBLKSIZE, hdrs[b].objBytes, hdrs[b].units * HBLKSIZE, o)
  }

  /** What a lookup finds: the block in use that the address lies in, if it is in its first unit or, if
      pointers into objects count, in the object of a block that has no flag against it. */
  lemma ResolvedIff(hdrs: Hdrs, allInterior: bool, p: nat, b: nat)
    requires Disjoint(hdrs) && ObjectsOk(hdrs)
    ensures Resolved(hdrs, allInterior, p) == Some(b) <==>
            && b in hdrs && !hdrs[b].free
            && (|| p / HBLKSIZE == b
                || (allInterior && !hdrs[b].offPage && b < p / HBLKSIZE && p < b * HBLKSIZE + hdrs[b].objBytes))
  {
    var x := p / HBLKSIZE;
    if b in hdrs && !hdrs[b].free && b < x && p < b * HBLKSIZE + hdrs[b].objBytes {
      assert Inside(hdrs, b, x) && x !in hdrs;
      assert allInterior && !hdrs[b].offPage ==> LargeHolds(hdrs, b, p);
    }
    if x !in hdrs && Resolved(hdrs, allInterior, p).Some? {
      var c := Resolved(hdrs, allInterior, p).value;
      assert LargeHolds(hdrs, c, p);
      if b in hdrs && !hdrs[b].free && b < x && p < b * HBLKSIZE + hdrs[b].objBytes {
        OneUnit(hdrs, b, c, x);
      }
    }
  }

  lemma OneUnit(hdrs: Hdrs, b: nat, c: nat, x: nat)
    requires Disjoint(hdrs) && b in hdrs && c in hdrs && b <= x < b + hdrs[b].units && c <= x < c + hdrs[c].units
    ensures b == c
  {
  }

  /** With pointers into objects counted, every address in an object leads to its block, unless the
      object asks not to be kept by pointers past its first unit. */
  lemma ObjectResolves(hdrs: Hdrs, b: nat, o: nat, p: nat)
    requires Disjoint(hdrs) && ObjectsOk(hdrs) && HoldsObjectIn(hdrs, b, o, p)
    ensures !hdrs[b].offPage || p / HBLKSIZE == b <==> Resolved(hdrs, true, p) == Some(b)
  {
    HolderIs(hdrs, b, o, p);
    if p / HBLKSIZE != b {
      var k: nat :| o == b * HBLKSIZE + k * hdrs[b].objBytes
                    && k * hdrs[b].objBytes + hdrs[b].objBytes <= hdrs[b].units * HBLKSIZE;
      Times(hdrs[b].objBytes, 1, k);
    }
    ResolvedIff(hdrs, true, p, b);
  }

  /** `o` is a multiple of `sz` from `start` on, with room for a whole object. */
  ghost predicate IsSlot(start: nat, sz: nat, bytes: nat, o: nat) {
    exists k: nat :: o == start + k * sz && k * sz + sz <= bytes
  }

  function Rem(x: nat, n: nat): (r: nat)
    requires n > 0
    ensures r <= x && r < n && r == x % n
  {
    x % n
  }

  /** The arithmetic of GC_base in the block `h`. */
  function BaseIn(hdrs: Hdrs, h: nat, p: nat): Option<nat>
    requires h in hdrs && hdrs[h].objBytes > 0
  {
    var sz := hdrs[h].objBytes;
    // A pointer past the first block is moved to the start.
    var r := if p / HBLKSIZE == h then p - p % 8 else h * HBLKSIZE;
    var base := r - Rem(Rem(r, HBLKSIZE), sz);
    var limit := base + sz;
    if ((h + 1) * HBLKSIZE < limit && sz <= HBLKSIZE) || p >= limit then None else Some(base)
  }

  lemma Times(sz: nat, a: int, b: int)
    ensures a <= b ==> a * sz <= b * sz
  {
  }

  /** At most one slot of a size holds an offset. */
  lemma SlotUnique(sz: nat, k: nat, q: nat, d: nat)
    requires k * sz <= d < k * sz + sz && q * sz <= d < q * sz + sz
    ensures k == q
  {
    Times(sz, k + 1, q);
    Times(sz, q + 1, k);
  }

  lemma Division(x: nat, n: nat) returns (q: nat)
    requires n > 0
    ensures x == q * n + Rem(x, n)
  {
    q := x / n;
  }

  lemma EightTimes(q: nat, sz: nat) returns (t: nat)
    requires sz % 8 == 0
    ensures q * sz == 8 * t
  {
    t := q * (sz / 8);
    assert sz == 8 * (sz / 8);
  }

  lemma WordBound(d: nat, start: nat, t: nat, r: nat, sz: nat)
    requires start == 8 * t && d - d % 8 == start + r && r < sz && sz % 8 == 0
    ensures start <= d < start + sz
  {
  }

  /** Rounding down to a word does not change the slot. */
  lemma WordSlot(d: nat, sz: nat) returns (q: nat)
    requires sz > 0 && sz % 8 == 0
    ensures d - d % 8 - Rem(d - d % 8, sz) == q * sz && q * sz <= d < q * sz + sz
  {
    hide Rem;
    q := Division(d - d % 8, sz);
    var t := EightTimes(q, sz);
    WordBound(d, q * sz, t, Rem(d - d % 8, sz), sz);
  }

  /** What GC_base computes for an address in the first block. */
  lemma BaseFirst(hdrs: Hdrs, h: nat, p: nat) returns (q: nat)
    requires h in hdrs && p / HBLKSIZE == h && hdrs[h].objBytes > 0 && hdrs[h].objBytes % 8 == 0
    ensures var sz, d := hdrs[h].objBytes, p % HBLKSIZE;
            && q * sz <= d < q * sz + sz
            && BaseIn(hdrs, h, p) ==
               if q * sz + sz > HBLKSIZE && sz <= HBLKSIZE then None else Some(h * HBLKSIZE + q * sz)
  {
    var sz, d := hdrs[h].objBytes, p % HBLKSIZE;
    hide Rem;
    q := WordSlot(d, sz);
    WordAligned(h, d);
    assert p == h * HBLKSIZE + d;
    assert p - p % 8 == h * HBLKSIZE + (d - d % 8);
  }

  lemma WordAligned(h: nat, d: nat)
    requires d < HBLKSIZE
    ensures var p := h * HBLKSIZE + d;
            && p % 8 == d % 8 && Rem(p - p % 8, HBLKSIZE) == d - d % 8
  {
    var p := h * HBLKSIZE + d;
    assert p == 8 * (h * 512) + d;
    assert p % 8 == d % 8;
    assert p - p % 8 == h * HBLKSIZE + (d - d % 8);
  }

  /** Blocks that hold objects for `p` are found by the index. */
  lemma HolderIs(hdrs: Hdrs, b: nat, o: nat, p: nat)
    requires ObjectsOk(hdrs) && HoldsObjectIn(hdrs, b, o, p)
    ensures b == p / HBLKSIZE || Inside(hdrs, b, p / HBLKSIZE)
  {
  }

  lemma NoObject(bottoms: Bottoms, hdrs: Hdrs, p: nat)
    requires IndexOk(bottoms, hdrs) && ObjectsOk(hdrs) && Get(bottoms, p / HBLKSIZE) == Nil
    ensures forall o: nat :: !HoldsObject(hdrs, o, p)
  {
    SlotIs(bottoms, hdrs, p / HBLKSIZE);
    forall o: nat
      ensures !HoldsObject(hdrs, o, p)
    {
      if b: nat :| HoldsObjectIn(hdrs, b, o, p) {
        HolderIs(hdrs, b, o, p);
      }
    }
  }

  /** The only block that can hold an object for `p` is the one that was found. */
  lemma HolderUnique(bottoms: Bottoms, hdrs: Hdrs, h: nat, b: nat, o: nat, p: nat)
    requires IndexOk(bottoms, hdrs) && ObjectsOk(hdrs) && HoldsObjectIn(hdrs, b, o, p)
    requires h in hdrs && (h == p / HBLKSIZE || Inside(hdrs, h, p / HBLKSIZE))
    ensures b == h
  {
    var x := p / HBLKSIZE;
    HolderIs(hdrs, b, o, p);
    if Inside(hdrs, h, x) {
      InsideOne(bottoms, hdrs, h, b, x);
    } else if Inside(hdrs, b, x) {
      InsideOne(bottoms, hdrs, b, h, x);
    }
  }

  lemma FreeHolds(bottoms: Bottoms, hdrs: Hdrs, h: nat, p: nat)
    requires IndexOk(bottoms, hdrs) && ObjectsOk(hdrs) && h in hdrs && hdrs[h].free
    requires h == p / HBLKSIZE || Inside(hdrs, h, p / HBLKSIZE)
    ensures forall o: nat :: !HoldsObject(hdrs, o, p)
  {
    forall o: nat
      ensures !HoldsObject(hdrs, o, p)
    {
      if b: nat :| HoldsObjectIn(hdrs, b, o, p) {
        HolderUnique(bottoms, hdrs, h, b, o, p);
      }
    }
  }

  /** The arithmetic finds the slot that holds `p`, if there is one. */
  lemma BaseIs(bottoms: Bottoms, hdrs: Hdrs, h: nat, p: nat)
    requires IndexOk(bottoms, hdrs) && ObjectsOk(hdrs) && h in hdrs && !hdrs[h].free
    requires h == p / HBLKSIZE || Inside(hdrs, h, p / HBLKSIZE)
    ensures var r := BaseIn(hdrs, h, p);
            && (r.Some? ==> HoldsObject(hdrs, r.value, p))
            && (r.None? ==> forall o: nat :: !HoldsObject(hdrs, o, p))
  {
    hide IndexOk;
    var r := BaseIn(hdrs, h, p);
    BaseSlot(hdrs, h, p);
    if r.Some? {
      assert HoldsObjectIn(hdrs, h, r.value, p);
    } else {
      forall o: nat
        ensures !HoldsObject(hdrs, o, p)
      {
        if b: nat :| HoldsObjectIn(hdrs, b, o, p) {
          HolderUnique(bottoms, hdrs, h, b, o, p);
        }
      }
    }
  }

  lemma BaseSlot(hdrs: Hdrs, h: nat, p: nat)
    requires ObjectsOk(hdrs) && h in hdrs && !hdrs[h].free
    requires h == p / HBLKSIZE || Inside(hdrs, h, p / HBLKSIZE)
    ensures var r := BaseIn(hdrs, h, p);
            && (r.Some? ==> HoldsObjectIn(hdrs, h, r.value, p))
            && (r.None? ==> forall o: nat :: !HoldsObjectIn(hdrs, h, o, p))
  {
    hide HoldsObjectIn;
    hide BaseIn;
    if p / HBLKSIZE == h {
      var q := BaseFirst(hdrs, h, p);
      FirstSlot(hdrs, h, p, q);
    } else {
      InnerSlot(hdrs, h, p);
      BaseInner(hdrs, h, p);
    }
  }

  lemma BaseInner(hdrs: Hdrs, h: nat, p: nat)
    requires h in hdrs && p / HBLKSIZE != h && hdrs[h].objBytes > HBLKSIZE
    ensures BaseIn(hdrs, h, p) == if p >= h * HBLKSIZE + hdrs[h].objBytes then None else Some(h * HBLKSIZE)
  {
  }

  /** A large object has a single slot. */
  lemma InnerSlot(hdrs: Hdrs, h: nat, p: nat)
    requires ObjectsOk(hdrs) && h in hdrs && !hdrs[h].free && Inside(hdrs, h, p / HBLKSIZE)
    ensures hdrs[h].objBytes > HBLKSIZE
    ensures if p >= h * HBLKSIZE + hdrs[h].objBytes then forall o: nat :: !HoldsObjectIn(hdrs, h, o, p)
            else HoldsObjectIn(hdrs, h, h * HBLKSIZE, p)
  {
    var sz, bytes := hdrs[h].objBytes, hdrs[h].units * HBLKSIZE;
    assert h * HBLKSIZE == h * HBLKSIZE + 0 * sz && 0 * sz + sz <= bytes;
    forall o: nat | HoldsObjectIn(hdrs, h, o, p)
      ensures o == h * HBLKSIZE
    {
      var k: nat :| o == h * HBLKSIZE + k * sz && k * sz + sz <= bytes;
      Times(sz, 1, k);
    }
  }

  lemma FirstSlot(hdrs: Hdrs, h: nat, p: nat, q: nat)
    requires ObjectsOk(hdrs) && h in hdrs && !hdrs[h].free && p / HBLKSIZE == h
    requires var sz, d := hdrs[h].objBytes, p % HBLKSIZE; q * sz <= d < q * sz + sz
    ensures var sz := hdrs[h].objBytes;
            if q * sz + sz > HBLKSIZE && sz <= HBLKSIZE then forall o: nat :: !HoldsObjectIn(hdrs, h, o, p)
            else HoldsObjectIn(hdrs, h, h * HBLKSIZE + q * sz, p)
  {
    var sz, d := hdrs[h].objBytes, p % HBLKSIZE;
    assert p == h * HBLKSIZE + d;
    if q * sz + sz > HBLKSIZE && sz <= HBLKSIZE {
      assert hdrs[h].units == 1;
      forall o: nat
        ensures !HoldsObjectIn(hdrs, h, o, p)
      {
        if HoldsObjectIn(hdrs, h, o, p) {
          var k: nat :| o == h * HBLKSIZE + k * sz && k * sz + sz <= HBLKSIZE;
          SlotUnique(sz, k, q, d);
        }
      }
    } else {
      if sz > HBLKSIZE {
        Times(sz, 1, q);
      }
      assert q * sz + sz <= hdrs[h].units * HBLKSIZE;
    }
  }

  /** The block whose count stands at `x`. */
  lemma Owner(bottoms: Bottoms, hdrs: Hdrs, x: nat) returns (b: nat)
    requires IndexOk(bottoms, hdrs) && Get(bottoms, x).Jump?
    ensures Inside(hdrs, b, x) && Get(bottoms, x) == Jump(Count(b, x))
  {
    SlotIs(bottoms, hdrs, x);
    b :| Inside(hdrs, b, x);
  }

  /** One jump stays in the block. */
  lemma FollowJump(bottoms: Bottoms, hdrs: Hdrs, b: nat, h: nat, x: nat)
    requires IndexOk(bottoms, hdrs) && Inside(hdrs, b, h) && Get(bottoms, h) == Jump(Count(b, h)) && h <= x
    requires forall c: nat :: Inside(hdrs, c, x) ==> h == c || Inside(hdrs, c, h)
    requires h != x ==> exists c: nat :: Inside(hdrs, c, x)
    ensures var to := h - Count(b, h);
            && 0 <= to < h && Inside(hdrs, b, x) && (to == b || Inside(hdrs, b, to))
            && Get(bottoms, to) != Nil && (to in hdrs || Get(bottoms, to).Jump?)
            && forall c: nat :: Inside(hdrs, c, x) ==> to == c || Inside(hdrs, c, to)
  {
    var to := h - Count(b, h);
    SlotIs(bottoms, hdrs, to);
    SlotIs(bottoms, hdrs, h);
    if h != x {
      var c: nat :| Inside(hdrs, c, x);
      if h == c {
        InsideOne(bottoms, hdrs, b, h, h);
      } else {
        InsideOne(bottoms, hdrs, b, c, h);
      }
    }
    forall c: nat | Inside(hdrs, c, x)
      ensures c == b
    {
      InsideOne(bottoms, hdrs, b, c, x);
    }
  }

  lemma StartReached(bottoms: Bottoms, hdrs: Hdrs, h: nat, x: nat)
    requires IndexOk(bottoms, hdrs) && h in hdrs
    requires forall b: nat :: Inside(hdrs, b, x) ==> h == b || Inside(hdrs, b, h)
    requires h != x ==> exists b: nat :: Inside(hdrs, b, x)
    ensures h == x || Inside(hdrs, h, x)
  {
    if h != x {
      var b: nat :| Inside(hdrs, b, x);
      if h != b {
        InsideOne(bottoms, hdrs, b, h, h);
      }
    }
  }

  lemma TopSize(top: seq<seq<nat>>, bottoms: Bottoms)
    requires ChainsOk(top, bottoms)
    ensures |top| == TOP_SZ
  {
  }

  lemma BottomThere(bottoms: Bottoms, hdrs: Hdrs, b: nat)
    requires IndexOk(bottoms, hdrs) && b in hdrs
    ensures b / BOTTOM_SZ in bottoms
  {
    SlotIs(bottoms, hdrs, b);
  }

  lemma CountedBottoms(bottoms: Bottoms, hdrs: Hdrs, b: nat)
    requires IndexOk(bottoms, hdrs) && b in hdrs && hdrs[b].counted
    ensures forall x: nat :: b < x < b + hdrs[b].units ==> x / BOTTOM_SZ in bottoms
  {
    forall x: nat | b < x < b + hdrs[b].units
      ensures x / BOTTOM_SZ in bottoms
    {
      SlotIs(bottoms, hdrs, x);
      assert Inside(hdrs, b, x);
    }
  }

  /** Counts start right after the header. */
  lemma CountedFirst(bottoms: Bottoms, hdrs: Hdrs, b: nat)
    requires IndexOk(bottoms, hdrs) && b in hdrs && hdrs[b].counted
    ensures hdrs[b].units > 1 ==> Get(bottoms, b + 1) == Jump(1)
  {
    SlotIs(bottoms, hdrs, b + 1);
    assert hdrs[b].units > 1 ==> Inside(hdrs, b, b + 1);
  }
}
