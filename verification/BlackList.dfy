/** Black-listed heap blocks: blocks that some stray value seems to point into.  Four bit
    tables, indexed by the block number modulo their size; a set bit may come from another
    block with the same index. */
module BlackList {
  import opened Prelude

  const CPP_WORDSZ: nat := 64
  const PHT_SIZE: nat := 4096             // words per table
  const PHT_ENTRIES: nat := 262144        // bits per table, CPP_WORDSZ * PHT_SIZE

  type Table = s: seq<bv64> | |s| == 4096 witness seq(4096, _ => 0)

  datatype Tables = Tables(oldNormal: Table, incNormal: Table, oldStack: Table, incStack: Table, allInterior: bool)

  function Hash(h: nat): (i: nat)
    ensures i < PHT_ENTRIES
  {
    h % PHT_ENTRIES
  }

  /** Two blocks share an index exactly if they are a multiple of the table size apart. */
  lemma HashSame(h: nat, k: nat)
    ensures Hash(h) == Hash(k) <==> (h - k) % PHT_ENTRIES == 0
  {
    var d := h / PHT_ENTRIES - k / PHT_ENTRIES;
    assert h - k == d * PHT_ENTRIES + (Hash(h) - Hash(k));
  }

  /** get_pht_entry_from_index. */
  predicate Bit(t: Table, index: nat)
    requires index < PHT_ENTRIES
  {
    (t[index / CPP_WORDSZ] >> (index % CPP_WORDSZ)) & 1 == 1
  }

  /** Is block `h` black-listed because a stack or register value points into it? */
  ghost predicate OnStackList(t: Tables, h: nat) {
    Bit(t.oldStack, Hash(h)) || Bit(t.incStack, Hash(h))
  }

  ghost predicate OnNormalList(t: Tables, h: nat) {
    !t.allInterior && (Bit(t.oldNormal, Hash(h)) || Bit(t.incNormal, Hash(h)))
  }

  function Max(a: nat, b: nat): nat {
    if a < b then b else a
  }

  /** No stack-listed block among the `n` blocks from `h` on; the first is looked at even if `n` is 0. */
  ghost predicate RunClear(t: Tables, h: nat, n: nat) {
    forall x :: h <= x < h + Max(n, 1) ==> !OnStackList(t, x)
  }

  /** The `n` blocks from `h` on may be used for an object that starts at `h`. */
  ghost predicate Usable(t: Tables, h: nat, n: nat) {
    !OnNormalList(t, h) && RunClear(t, h, n)
  }

  /** What a search that starts at `h` is told: use it, or look again from here on. */
  ghost predicate Verdict(t: Tables, h: nat, n: nat, r: Option<nat>) {
    if OnNormalList(t, h) then r == Some(h + 1)
    else if r.None? then RunClear(t, h, n)
    else
      && h < r.value <= h + Max(n, 1)
      && OnStackList(t, r.value - 1)
      && forall i :: h <= i < r.value - 1 ==> !OnStackList(t, i)
  }

  lemma ZeroWord(t: Table, index: nat)
    requires index < PHT_ENTRIES && t[index / CPP_WORDSZ] == 0
    ensures !Bit(t, index)
  {
  }

  /** Blocks up to the next word boundary share the word: the table size is a multiple of the
      word size, so the index does not wrap in between. */
  lemma SameWord(h: nat, k: nat)
    requires k < CPP_WORDSZ - Hash(h) % CPP_WORDSZ
    ensures Hash(h + k) == Hash(h) + k
    ensures Hash(h + k) / CPP_WORDSZ == Hash(h) / CPP_WORDSZ
  {
    var q := h / PHT_ENTRIES;
    assert h == q * PHT_ENTRIES + Hash(h);
    assert Hash(h) + k < PHT_ENTRIES;
    assert h + k == q * PHT_ENTRIES + (Hash(h) + k);
  }

  lemma SkipWord(t: Tables, h: nat, k: nat)
    requires k < CPP_WORDSZ - Hash(h) % CPP_WORDSZ
    requires t.oldStack[Hash(h) / CPP_WORDSZ] == 0 && t.incStack[Hash(h) / CPP_WORDSZ] == 0
    ensures !OnStackList(t, h + k)
  {
    SameWord(h, k);
    ZeroWord(t.oldStack, Hash(h + k));
    ZeroWord(t.incStack, Hash(h + k));
  }

  /** GC_is_black_listed: the word-skipping scan finds exactly the first stack-listed block. */
  method IsBlackListed(t: Tables, h: nat, n: nat) returns (r: Option<nat>)
    ensures Verdict(t, h, n, r)
    ensures r.None? <==> Usable(t, h, n)
  {
    if !t.allInterior && (Bit(t.oldNormal, Hash(h)) || Bit(t.incNormal, Hash(h))) {
      return Some(h + 1);
    }
    var i := 0;
    while true
      invariant 0 <= i && (i == 0 || i < n)
      invariant forall x :: h <= x < h + i ==> !OnStackList(t, x)
      decreases if i < Max(n, 1) then Max(n, 1) - i else 0
    {
      var index := Hash(h + i);
      if t.oldStack[index / CPP_WORDSZ] == 0 && t.incStack[index / CPP_WORDSZ] == 0 {
        var step := CPP_WORDSZ - index % CPP_WORDSZ;
        forall x | h + i <= x < h + i + step
          ensures !OnStackList(t, x)
        {
          SkipWord(t, h + i, x - (h + i));
        }
        i := i + step;
      } else {
        if Bit(t.oldStack, index) || Bit(t.incStack, index) {
          assert OnStackList(t, h + i);
          return Some(h + i + 1);
        }
        i := i + 1;
      }
      if i >= n {
        return None;
      }
    }
  }

  /** ALIGN_PAD_SZ in blocks, for an alignment that is a power of two. */
  function Pad(h: nat, align: nat): (p: nat)
    requires align > 0
    ensures p < align && (h + p) % align == 0
  {
    if h % align == 0 then 0
    else
      assert (h + (align - h % align)) % align == 0 by { PadAligned(h, align); }
      align - h % align
  }

  lemma PadAligned(h: nat, align: nat)
    requires align > 0 && h % align != 0
    ensures (h + (align - h % align)) % align == 0
  {
    var q := h / align;
    assert h == align * q + h % align;
    assert h + (align - h % align) == align * (q + 1);
    MultipleMod(align, q + 1);
  }

  lemma MultipleMod(align: nat, q: nat)
    requires align > 0
    ensures (align * q) % align == 0
  {
    var d, r := (align * q) / align, (align * q) % align;
    assert align * q == align * d + r;
    assert align * (q - d) == r;
    MulMonotone(align, 1, q - d);
    MulMonotone(align, q - d, -1);
  }

  lemma MulMonotone(align: nat, a: int, b: int)
    ensures a <= b ==> align * a <= align * b
  {
  }

  /** Rounding up does not jump over an aligned number. */
  lemma {:induction false} PadFirst(h: nat, align: nat, x: nat)
    requires align > 0 && h <= x && x % align == 0
    ensures h + Pad(h, align) <= x
  {
    var q, m := h / align, x / align;
    assert h == align * q + h % align && x == align * m;
    MulMonotone(align, m, q);
    MulMonotone(align, q + 1, m);
  }

  function AlignDown(x: nat, align: nat): (y: nat)
    requires align > 0
    ensures y <= x
  {
    x - x % align
  }

  lemma AlignDownLast(x: nat, align: nat, y: nat)
    requires align > 0 && y <= x && y % align == 0
    ensures y <= AlignDown(x, align) && AlignDown(x, align) % align == 0
  {
    var q, m := x / align, y / align;
    assert x == align * q + x % align && y == align * m;
    assert AlignDown(x, align) == align * q;
    MultipleMod(align, q);
    MulMonotone(align, q + 1, m);
    MulMonotone(align, m, q);
  }

  /** find_non_bl_hblk: the first aligned place, at most `remain` blocks further on, from which
      `n` blocks are not black-listed; None exactly when there is no such place. */
  method FindNonBl(t: Tables, h: nat, remain: nat, n: nat, align: nat) returns (r: Option<nat>)
    requires align > 0 && Pad(h, align) <= remain
    ensures r.Some? ==> h <= r.value <= h + remain && r.value % align == 0 && Usable(t, r.value, n)
    ensures forall x :: h <= x <= h + remain && x % align == 0 && (r.Some? ==> x < r.value) ==> !Usable(t, x, n)
  {
    var end := AlignDown(h + remain, align);
    var last := h;
    AlignDownLast(h + remain, align, h + Pad(h, align));
    while true
      invariant h <= last && last + Pad(last, align) <= end
      invariant forall x :: h <= x < last && x % align == 0 ==> !Usable(t, x, n)
      decreases end - last
    {
      forall x | last <= x < last + Pad(last, align)
        ensures x % align != 0
      {
        if x % align == 0 {
          PadFirst(last, align, x);
        }
      }
      last := last + Pad(last, align);
      var next := IsBlackListed(t, last, n);
      if next.None? {
        return Some(last);
      }
      forall x | last <= x < next.value && x % align == 0
        ensures !Usable(t, x, n)
      {
        SkippedUnusable(t, last, n, next.value, x);
      }
      last := next.value;
      if last > end {
        forall x | h <= x <= h + remain && x % align == 0
          ensures x < last
        {
          AlignDownLast(h + remain, align, x);
        }
        return None;
      }
      AlignDownLast(h + remain, align, end);
      PadFirst(last, align, end);
    }
  }

  /** A run that starts between the first listed block and where the search stood holds that
      listed block too. */
  lemma SkippedUnusable(t: Tables, h: nat, n: nat, next: nat, x: nat)
    requires Verdict(t, h, n, Some(next)) && h <= x < next
    ensures !Usable(t, x, n)
  {
  }
}
