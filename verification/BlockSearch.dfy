/** What the search of a free list does with one block: take a place in it, pass it over, or
    find it black-listed throughout. */
module BlockSearch {
  import opened Prelude
  import opened BlackList

  const MAX_BLACK_LIST_ALLOC: nat := 2    // in blocks

  datatype Splitting = Never | Allowed | AvoidRemapped

  /** A request for `need` blocks at a multiple of `align`; `blLimit` is BL_LIMIT in blocks. */
  datatype Request = Request(
    need: nat, align: nat, uncollectable: bool, ptrFree: bool, offPage: bool, blLimit: nat, findLeak: bool)
  {
    ghost predicate Valid() {
      need > 0 && align > 0
    }

    /** The black list is ignored. */
    ghost predicate Anywhere() {
      uncollectable || (ptrFree && need <= MAX_BLACK_LIST_ALLOC)
    }

    /** How many blocks must not be black-listed. */
    ghost function Eff(): nat {
      if offPage then 1 else need
    }

    /** Black-listed blocks may be dropped while searching. */
    ghost predicate MayDrop() {
      need == 1 && align == 1 && !findLeak && !Anywhere()
    }

    ghost predicate FitsIn(mode: Splitting, b: nat, size: nat)
      requires align > 0
    {
      (mode.Never? ==> size == need) && size >= need + Pad(b, align)
    }

    /** The block is so large that a black-listed place is better than none. */
    ghost predicate Punts(size: nat) {
      need > blLimit && size - need > blLimit
    }

    /** Some place in the block is not black-listed. */
    ghost predicate HasPlace(t: Tables, b: nat, size: nat)
      requires align > 0
    {
      Anywhere() || exists x :: b <= x && x + need <= b + size && x % align == 0 && Usable(t, x, Eff())
    }

    ghost predicate Placed(t: Tables, mode: Splitting, b: nat, size: nat)
      requires align > 0
    {
      FitsIn(mode, b, size) && HasPlace(t, b, size)
    }

    /** The block can serve the request. */
    ghost predicate Suits(t: Tables, mode: Splitting, b: nat, size: nat)
      requires align > 0
    {
      FitsIn(mode, b, size) && (HasPlace(t, b, size) || Punts(size))
    }

    /** `x` is a place in the block that may be given out. */
    ghost predicate PlaceOk(t: Tables, b: nat, size: nat, x: nat)
      requires align > 0
    {
      && b <= x && x + need <= b + size && x % align == 0
      && (Anywhere() || Usable(t, x, Eff()) || Punts(size))
    }
  }

  /** What fits for all of the request fits for the part that counts. */
  lemma UsableEff(t: Tables, q: Request, x: nat)
    requires q.Valid() && Usable(t, x, q.need)
    ensures Usable(t, x, q.Eff())
  {
  }

  /** The next block of the list is smaller and would do as well, at its first aligned place. */
  ghost predicate Better(t: Tables, q: Request, size: nat, next: Option<nat>, nextSize: nat)
    requires q.align > 0
  {
    && next.Some? && nextSize < size
    && q.need + Pad(next.value, q.align) <= nextSize
    && Usable(t, next.value + Pad(next.value, q.align), q.need)
  }

  lemma BetterPlaced(t: Tables, q: Request, size: nat, next: Option<nat>, nextSize: nat)
    requires q.Valid() && Better(t, q, size, next, nextSize)
    ensures q.Placed(t, Allowed, next.value, nextSize)
  {
    UsableEff(t, q, next.value + Pad(next.value, q.align));
  }

  /** next_hblk_fits_better. */
  method FitsBetter(t: Tables, q: Request, size: nat, next: Option<nat>, nextSize: nat) returns (r: bool)
    requires q.Valid()
    ensures r <==> Better(t, q, size, next, nextSize)
  {
    if next.None? || size <= nextSize {
      return false;
    }
    var ofs := Pad(next.value, q.align);
    if q.need + ofs > nextSize {
      return false;
    }
    var bl := IsBlackListed(t, next.value + ofs, q.need);
    return bl.None?;
  }

  datatype Choice = Skip | Use(place: nat) | Barred

  /** `x` is the first aligned place of the block that is not black-listed. */
  ghost predicate FirstPlace(t: Tables, q: Request, b: nat, size: nat, x: nat)
    requires q.align > 0
  {
    && b <= x && x + q.need <= b + size && x % q.align == 0 && Usable(t, x, q.Eff())
    && forall y :: b <= y < x && y % q.align == 0 ==> !Usable(t, y, q.Eff())
  }

  /** To use the block, it would have to be mapped again and then split. */
  ghost predicate Spared(t: Tables, q: Request, mode: Splitting, b: nat, size: nat, mapped: bool)
    requires q.align > 0
  {
    mode.AvoidRemapped? && !mapped && !q.Anywhere() && exists x :: x != b && FirstPlace(t, q, b, size, x)
  }

  /** One round of the search: `b`, of `size` blocks, is followed by `next` on its list.  A block is
      skipped if it does not fit, if the next one is better, or so as not to remap and split it. */
  method Consider(t: Tables, q: Request, mode: Splitting, b: nat, size: nat, mapped: bool, next: Option<nat>,
                  nextSize: nat)
    returns (c: Choice)
    requires q.Valid()
    ensures c.Use? ==> q.PlaceOk(t, b, size, c.place) && q.FitsIn(mode, b, size)
    ensures c.Use? ==> if q.Anywhere() then c.place == b + Pad(b, q.align) else FirstPlace(t, q, b, size, c.place)
    ensures c.Barred? ==> q.FitsIn(mode, b, size) && !q.HasPlace(t, b, size)
    ensures c.Skip? <==>
              || !q.FitsIn(mode, b, size)
              || (size != q.need && Better(t, q, size, next, nextSize))
              || Spared(t, q, mode, b, size, mapped)
    ensures c.Skip? && q.Suits(t, mode, b, size) && !Spared(t, q, mode, b, size, mapped) ==>
              next.Some? && q.Placed(t, mode, next.value, nextSize)
  {
    if mode.Never? && size != q.need {
      return Skip;
    }
    var ofs := Pad(b, q.align);
    if size < q.need + ofs {
      return Skip;
    }
    if size != q.need {
      var better := FitsBetter(t, q, size, next, nextSize);
      if better {
        BetterPlaced(t, q, size, next, nextSize);
        return Skip;
      }
    }
    if q.uncollectable || (q.ptrFree && q.need <= MAX_BLACK_LIST_ALLOC) {
      return Use(b + ofs);
    }
    var last := FindNonBl(t, b, size - q.need, if q.offPage then 1 else q.need, q.align);
    if last.None? {
      return Barred;
    }
    assert FirstPlace(t, q, b, size, last.value);
    if mode.AvoidRemapped? && last.value != b && !mapped {
      return Skip;
    }
    return Use(last.value);
  }
}
