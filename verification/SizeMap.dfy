/** The table from request sizes in bytes to object sizes in granules, filled on demand. */
module SizeMaps {

  const HBLKSIZE: nat := 4096
  const MAXOBJBYTES: nat := 2048

  /** A granule of 8 or 16 bytes, and the byte that is added to requests, if one is. */
  datatype Config = Config(granule: nat, extra: nat) {
    predicate Valid() {
      (granule == 8 || granule == 16) && extra <= 1
    }

    /** ALLOC_REQUEST_GRANS. */
    function Grans(lb: nat): nat
      requires granule > 0
    {
      (lb + granule - 1 + extra) / granule
    }

    function MaxGranules(): nat
      requires granule > 0
    {
      MAXOBJBYTES / granule
    }

    function BlockGranules(): nat
      requires granule > 0
    {
      HBLKSIZE / granule
    }

    function TinyFreelists(): nat {
      if granule >= 16 then 25 else 33
    }

    /** `lg` granules are enough for a request of `lb` bytes, and no more than allowed. */
    predicate Fits(lb: nat, lg: nat) {
      0 < lg && lb + extra <= lg * granule <= MAXOBJBYTES
    }
  }

  lemma GransFit(c: Config, lb: nat)
    requires c.Valid()
    ensures lb + c.extra <= c.Grans(lb) * c.granule < lb + c.extra + c.granule
    ensures lb + c.extra <= MAXOBJBYTES ==> c.Grans(lb) <= c.MaxGranules()
    ensures lb + c.extra > 0 ==> c.Grans(lb) > 0
  {
  }

  function Even(n: nat): nat {
    n - n % 2
  }

  function EvenUp(n: nat): nat {
    Even(n + 1)
  }

  /** The largest even object size that keeps the number of objects per block. */
  function Widened(c: Config, lg: nat): nat
    requires c.Valid() && 0 < lg <= c.MaxGranules()
  {
    Even(c.BlockGranules() / (c.BlockGranules() / lg))
  }

  lemma Divide(n: nat, d: nat)
    requires d > 0
    ensures (n / d) * d <= n < (n / d) * d + d
  {
  }

  lemma Times(a: int, b: int, k: nat)
    ensures a <= b ==> a * k <= b * k
  {
  }

  lemma DivideMonotone(n: nat, a: nat, b: nat)
    requires 0 < a <= b
    ensures n / b <= n / a
  {
    Divide(n, a);
    Divide(n, b);
    Times(n / a + 1, n / b, a);
    Times(a, b, n / b);
  }

  /** Dividing by the quotient gives at least the divisor. */
  lemma DivideBack(n: nat, lg: nat)
    requires 0 < lg <= n
    ensures n / lg > 0 && lg <= n / (n / lg)
  {
    Divide(n, lg);
    var k := n / lg;
    assert k > 0;
    Divide(n, k);
    Times(n / k + 1, lg, k);
  }

  /** Widening keeps the number of objects in a block, and stays in bounds. */
  lemma WidenedKeeps(c: Config, lg: nat)
    requires c.Valid() && 0 < lg <= c.MaxGranules() && lg % 2 == 0
    ensures lg <= Widened(c, lg) <= c.MaxGranules() && Widened(c, lg) % 2 == 0
    ensures c.BlockGranules() / Widened(c, lg) == c.BlockGranules() / lg
    ensures Fullest(c.BlockGranules(), Widened(c, lg))
  {
    var n, max := c.BlockGranules(), c.MaxGranules();
    hide Fullest;
    BlockMax(c);
    hide Config.BlockGranules;
    hide Config.MaxGranules;
    WidenKeeps(n, max, lg);
  }

  lemma BlockMax(c: Config)
    requires c.Valid()
    ensures var n, max := c.BlockGranules(), c.MaxGranules(); n == 2 * max && n / max == 2 && n / 2 == max
  {
  }

  lemma WidenKeeps(n: nat, max: nat, lg: nat)
    requires 0 < lg <= max && n == 2 * max && n / max == 2 && n / 2 == max && lg % 2 == 0
    ensures n / lg > 0
    ensures var w := Even(n / (n / lg)); lg <= w <= max && w % 2 == 0 && n / w == n / lg && Fullest(n, w)
  {
    hide Fullest;
    var k := n / lg;
    DivideBack(n, lg);
    DivideMonotone(n, lg, max);
    var u := n / k;
    assert u <= max by {
      DivideMonotone(n, 2, k);
    }
    assert u * k <= n by {
      Divide(n, k);
    }
    WidenOne(n, max, lg, k, u);
  }

  lemma WidenOne(n: nat, max: nat, lg: nat, k: nat, u: nat)
    requires 0 < lg <= u <= max && lg % 2 == 0 && k == n / lg && 0 < k && u == n / k && u * k <= n
    ensures lg <= Even(u) <= max && Even(u) % 2 == 0 && n / Even(u) == k && Fullest(n, Even(u))
  {
    hide Fullest;
    KeepsCount(n, lg, k, u, Even(u));
    WidenedFullest(n, k, u, Even(u));
  }

  lemma KeepsCount(n: nat, lg: nat, k: nat, u: nat, w: nat)
    requires 0 < lg <= w <= u && k == n / lg && u * k <= n
    ensures n / w == k
  {
    DivideMonotone(n, lg, w);
    Times(w, u, k);
    AtLeast(n, w, k);
  }

  /** The object size that GC_extend_size_map settles on, given its first choice. */
  function Settled(c: Config, lg: nat): nat
    requires c.Valid() && lg > 0
  {
    Widened(c, if EvenUp(lg) > c.MaxGranules() then c.MaxGranules() else EvenUp(lg))
  }

  /** The even size that the first choice leads to. */
  ghost function Evened(c: Config, lg: nat): nat
    requires c.Valid()
  {
    if lg + lg % 2 > c.MaxGranules() then c.MaxGranules() else lg + lg % 2
  }

  lemma EvenedIs(c: Config, lg: nat)
    requires c.Valid() && lg > 0
    ensures 0 < Evened(c, lg) <= c.MaxGranules() && Evened(c, lg) % 2 == 0
    ensures Settled(c, lg) == Widened(c, Evened(c, lg)) && (lg <= c.MaxGranules() ==> lg <= Evened(c, lg))
  {
    hide Widened;
    assert c.MaxGranules() == 128 || c.MaxGranules() == 256;
    hide Config.MaxGranules;
    assert EvenUp(lg) == lg + lg % 2;
  }

  lemma SettledFits(c: Config, lg: nat, least: nat)
    requires c.Valid() && 0 < least <= lg && least <= c.MaxGranules()
    ensures least <= Settled(c, lg) <= c.MaxGranules() && Settled(c, lg) % 2 == 0
    ensures Evened(c, lg) <= Settled(c, lg)
    ensures c.BlockGranules() / Settled(c, lg) == c.BlockGranules() / Evened(c, lg)
    ensures Fullest(c.BlockGranules(), Settled(c, lg))
  {
    hide Widened;
    hide Fullest;
    hide Settled;
    hide Config.BlockGranules;
    EvenedIs(c, lg);
    WidenedKeeps(c, Evened(c, lg));
    EvenedLeast(c, lg, least);
  }

  lemma EvenedLeast(c: Config, lg: nat, least: nat)
    requires c.Valid() && least <= lg && least <= c.MaxGranules()
    ensures least <= Evened(c, lg)
  {
  }

  lemma WidenedFullest(n: nat, k: nat, u: nat, w: nat)
    requires 0 < k && u == n / k && w == Even(u) && w > 0 && n / w == k
    ensures Fullest(n, w)
  {
    Divide(n, k);
    Divide(n, w + 2);
    Times(u + 1, w + 2, k);
    Times(k, n / (w + 2), w + 2);
  }

  lemma AtLeast(n: nat, w: nat, k: nat)
    requires w > 0 && w * k <= n
    ensures n / w >= k
  {
    Divide(n, w);
    Times(n / w + 1, k, w);
  }

  /** Entries `from` up to and including `to` are `lg`, all others as before. */
  ghost predicate Filled(before: seq<nat>, after: seq<nat>, from: nat, to: int, lg: nat) {
    |after| == |before| && forall j :: 0 <= j < |before| ==> after[j] == if from <= j <= to then lg else before[j]
  }

  /** Two granules more would mean fewer objects in a block of `n` granules. */
  ghost predicate Fullest(n: nat, lg: nat)
    requires lg > 0
  {
    n / (lg + 2) < n / lg
  }

  /** A filled section ends at `n`. */
  ghost predicate EndsAt(s: seq<nat>, n: nat) {
    n < |s| && s[n] != 0 && (n + 1 < |s| ==> s[n + 1] == 0)
  }

  /** A filled section that ends at `n` has a length of at least a quarter of `n`. */
  ghost predicate LongSections(s: seq<nat>) {
    forall n: nat, j: nat :: EndsAt(s, n) && n - n / 4 < j <= n ==> s[j] != 0
  }

  /** Filling keeps sections long: either a quarter is filled at once, or a section is extended. */
  lemma FilledSections(before: seq<nat>, after: seq<nat>, from: nat, low: nat, to: nat, lg: nat)
    requires LongSections(before) && Filled(before, after, low, to, lg) && lg != 0 && from <= low <= to < |before|
    requires before[low] == 0 && forall j :: from <= j < low ==> before[j] != 0
    requires from <= to - to / 4 + 1 || (from > 0 && before[from - 1] != 0)
    ensures LongSections(after)
  {
    forall n: nat, j: nat | EndsAt(after, n) && n - n / 4 < j <= n
      ensures after[j] != 0
    {
      if n > to {
        assert EndsAt(before, n);
      } else if n == to {
        if j < low && j < from {
          assert EndsAt(before, low - 1);
        }
      } else {
        assert n + 1 < low ==> EndsAt(before, n);
      }
    }
  }

  class SizeMap {
    var sizes: array<nat>    // GC_size_map; 0 means not filled yet
    const c: Config

    /** Every filled entry serves its size. */
    ghost predicate Valid()
      reads this, sizes
    {
      && c.Valid() && sizes.Length == MAXOBJBYTES + 1
      && (forall i :: 0 <= i <= MAXOBJBYTES && sizes[i] != 0 ==> c.Fits(i, sizes[i]))
      && (forall i :: 0 <= i <= (c.TinyFreelists() - 1) * c.granule - c.extra ==> sizes[i] != 0)
      && LongSections(sizes[..])
    }

    /** GC_init_size_map. */
    constructor (config: Config)
      requires config.Valid()
      ensures Valid() && c == config && fresh(sizes)
      ensures forall i :: 0 < i <= (c.TinyFreelists() - 1) * c.granule - c.extra ==>
              sizes[i] == c.Grans(i) < c.TinyFreelists()
    {
      c := config;
      sizes := new nat[MAXOBJBYTES + 1](_ => 0);
      new;
      sizes[0] := 1;
      var limit := (c.TinyFreelists() - 1) * c.granule - c.extra;
      var i := 1;
      while i <= limit
        invariant 1 <= i <= limit + 1 && sizes.Length == MAXOBJBYTES + 1 && fresh(sizes)
        invariant sizes[0] == 1
        invariant forall j :: 0 < j < i ==> sizes[j] == c.Grans(j) < c.TinyFreelists() && c.Fits(j, sizes[j])
        invariant forall j :: i <= j <= MAXOBJBYTES ==> sizes[j] == 0
      {
        GransFit(c, i);
        sizes[i] := c.Grans(i);
        i := i + 1;
      }
    }

    /** The first unfilled entry at or after `from`. */
    method FirstEmpty(from: nat, i: nat) returns (low: nat)
      requires sizes.Length == MAXOBJBYTES + 1 && from <= i <= MAXOBJBYTES && sizes[i] == 0
      ensures from <= low <= i && sizes[low] == 0 && forall j :: from <= j < low ==> sizes[j] != 0
    {
      low := from;
      while sizes[low] != 0
        invariant from <= low <= i && forall j :: from <= j < low ==> sizes[j] != 0
        decreases i - low
      {
        low := low + 1;
      }
    }

    /** GC_extend_size_map: fill entry `i`, and its neighbours from `low` on as far as `lg` granules
        go.  The size is at first that of the request or, near other sizes, at most an eighth more;
        then it grows as far as that costs no object in a block. */
    method Extend(i: nat) returns (ghost low: nat, ghost first: nat, ghost lg: nat)
      requires Valid() && i + c.extra <= MAXOBJBYTES && sizes[i] == 0
      modifies sizes
      ensures Valid() && sizes[i] != 0
      ensures low <= i && old(sizes[low]) == 0 && Filled(old(sizes[..]), sizes[..], low, lg * c.granule - c.extra, lg)
      ensures c.Grans(i) <= first <= c.Grans(i) + c.Grans(i) / 8
      ensures var even := if first + first % 2 > c.MaxGranules() then c.MaxGranules() else first + first % 2;
              even <= lg && c.BlockGranules() / lg == c.BlockGranules() / even
      ensures 0 < lg <= c.MaxGranules() && lg % 2 == 0 && Fullest(c.BlockGranules(), lg)
    {
      hide LongSections;
      GransFit(c, i);
      PastTiny(c, i);
      var at, from, lg0 := FirstChoice(i);
      SettledFits(c, lg0, c.Grans(i));
      Enough(c, i, Settled(c, lg0));
      low, first, lg := from, lg0, Settled(c, lg0);
      if sizes[c.Grans(i) * c.granule - c.Grans(i) * c.granule / 8] == 0 {
        Quarter(c, i, at, Settled(c, lg0));
      }
      Fill(from, Settled(c, lg0), i, at);
    }

    /** The lowest entry to fill, looked for from `at` on, and the object size to start from. */
    method FirstChoice(i: nat) returns (ghost at: nat, low: nat, lg: nat)
      requires Valid() && i + c.extra <= MAXOBJBYTES && sizes[i] == 0
      ensures at <= low <= i && sizes[low] == 0 && forall j :: at <= j < low ==> sizes[j] != 0
      ensures var bytes := c.Grans(i) * c.granule;
              if sizes[bytes - bytes / 8] == 0 then at == bytes - bytes / 4 && lg == c.Grans(i)
              else
                && at == bytes - bytes / 8 + 1
                && lg == (if c.Grans(low) + c.Grans(low) / 8 < c.Grans(i) then c.Grans(i)
                          else c.Grans(low) + c.Grans(low) / 8)
      ensures c.Grans(i) <= lg <= c.Grans(i) + c.Grans(i) / 8
    {
      hide Config.Grans;
      hide LongSections;
      var originalLg := c.Grans(i);
      var byteSz := originalLg * c.granule;
      PastTiny(c, i);
      var smaller := byteSz - byteSz / 8;
      if sizes[smaller] == 0 {
        at := byteSz - byteSz / 4;
        low := FirstEmpty(byteSz - byteSz / 4, i);
        lg := originalLg;
      } else {
        at := smaller + 1;
        low := FirstEmpty(smaller + 1, i);
        GransMonotone(c, low, i);
        lg := c.Grans(low);
        lg := lg + lg / 8;
        if lg < originalLg {
          lg := originalLg;
        }
      }
    }

    method Fill(from: nat, lg: nat, i: nat, ghost at: nat)
      requires Valid() && at <= from <= i && 0 < lg <= c.MaxGranules() && i + c.extra <= lg * c.granule
      requires sizes[from] == 0 && forall j :: at <= j < from ==> sizes[j] != 0
      requires var to := lg * c.granule - c.extra; at <= to - to / 4 + 1 || (at > 0 && sizes[at - 1] != 0)
      modifies sizes
      ensures Valid() && sizes[i] != 0
      ensures Filled(old(sizes[..]), sizes[..], from, lg * c.granule - c.extra, lg)
    {
      hide LongSections;
      var byteSz := lg * c.granule - c.extra;
      Largest(c, lg);
      var low := from;
      while low <= byteSz
        invariant from <= low <= byteSz + 1
        invariant Filled(old(sizes[..]), sizes[..], from, low - 1, lg)
      {
        sizes[low] := lg;
        low := low + 1;
      }
      FilledSections(old(sizes[..]), sizes[..], at, from, byteSz, lg);
      FilledFits(c, old(sizes[..]), sizes[..], from, byteSz, lg);
    }
  }

  lemma FilledFits(c: Config, before: seq<nat>, after: seq<nat>, from: nat, to: nat, lg: nat)
    requires c.Valid() && Filled(before, after, from, to, lg) && 0 < lg <= c.MaxGranules()
             && to + c.extra == lg * c.granule
    requires forall j :: 0 <= j < |before| && before[j] != 0 ==> c.Fits(j, before[j])
    ensures forall j :: 0 <= j < |after| && after[j] != 0 ==> c.Fits(j, after[j])
    ensures forall j :: 0 <= j < |after| && before[j] != 0 ==> after[j] != 0
  {
    Largest(c, lg);
  }

  lemma GransMonotone(c: Config, a: nat, b: nat)
    requires c.Valid() && a <= b
    ensures c.Grans(a) <= c.Grans(b) && c.Grans(a) / 8 <= c.Grans(b) / 8
  {
  }

  /** A section that starts three quarters below the size is a quarter of it long. */
  lemma Quarter(c: Config, i: nat, at: nat, lg: nat)
    requires c.Valid() && c.Grans(i) <= lg
    requires at == c.Grans(i) * c.granule - c.Grans(i) * c.granule / 4
    ensures var to := lg * c.granule - c.extra; at <= to - to / 4 + 1
  {
  }

  lemma Enough(c: Config, i: nat, lg: nat)
    requires c.Valid() && c.Grans(i) <= lg
    ensures i + c.extra <= lg * c.granule
  {
  }

  lemma Largest(c: Config, lg: nat)
    requires c.Valid() && lg <= c.MaxGranules()
    ensures lg * c.granule <= MAXOBJBYTES
  {
  }

  /** Sizes that are left out by the initialization are large enough for the steps down. */
  lemma PastTiny(c: Config, i: nat)
    requires c.Valid() && i > (c.TinyFreelists() - 1) * c.granule - c.extra
    ensures var byteSz := c.Grans(i) * c.granule;
            byteSz / 4 <= byteSz && byteSz - byteSz / 4 <= i && byteSz - byteSz / 8 < i
  {
  }
}
