/** Chained hash tables keyed by address, as used for weak links and for finalizers, and the
    finite maps they stand for. */
module ChainTables {
  import opened Prelude

  datatype Entry<V> = Entry(key: nat, value: V)

  /** Bitwise exclusive or. */
  function Xor(a: nat, b: nat): nat {
    if a == 0 && b == 0 then 0 else 2 * Xor(a / 2, b / 2) + (if a % 2 != b % 2 then 1 else 0)
  }

  /** The low bits of `x` for a power of two, as masking gives them. */
  function Masked(x: nat, size: nat): (i: nat)
    requires size > 0
    ensures i < size
  {
    x % size
  }

  function Shifted(x: nat, size: nat): nat
    requires size > 0
  {
    x / size
  }

  /** HASH2. */
  function Hash(addr: nat, logSize: nat): (i: nat)
    ensures i < Pow2(logSize)
  {
    Masked(Xor(addr / 8, Shifted(addr, Pow2(3 + logSize))), Pow2(logSize))
  }

  predicate HasKey<V>(bucket: seq<Entry<V>>, k: nat) {
    exists j :: 0 <= j < |bucket| && bucket[j].key == k
  }

  /** The buckets hold exactly the pairs of `m`: each key once, in the bucket of its hash. */
  ghost predicate Rep<V>(heads: seq<seq<Entry<V>>>, logSize: nat, m: map<nat, V>) {
    && |heads| == Pow2(logSize)
    && (forall i {:trigger heads[i]} :: 0 <= i < |heads| ==> BucketOk(heads[i], i, logSize, m))
    && forall k :: k in m ==> HasKey(heads[Hash(k, logSize)], k)
  }

  /** The buckets stand for some map. */
  ghost predicate Fits<V(!new)>(heads: seq<seq<Entry<V>>>, logSize: nat) {
    exists m: map<nat, V> :: Rep(heads, logSize, m)
  }

  ghost predicate BucketOk<V>(bucket: seq<Entry<V>>, i: nat, logSize: nat, m: map<nat, V>) {
    && (forall j {:trigger bucket[j]} :: 0 <= j < |bucket| ==>
          Hash(bucket[j].key, logSize) == i && bucket[j].key in m && m[bucket[j].key] == bucket[j].value)
    && forall j, l :: 0 <= j < l < |bucket| ==> bucket[j].key != bucket[l].key
  }

  function Removed<V>(heads: seq<seq<Entry<V>>>, i: nat, j: nat): seq<seq<Entry<V>>>
    requires i < |heads| && j < |heads[i]|
  {
    heads[i := Without(heads[i], j)]
  }

  function Pushed<V>(heads: seq<seq<Entry<V>>>, i: nat, e: Entry<V>): seq<seq<Entry<V>>>
    requires i < |heads|
  {
    heads[i := [e] + heads[i]]
  }

  /** Where an entry sits is decided by its key. */
  lemma RepAt<V>(heads: seq<seq<Entry<V>>>, logSize: nat, m: map<nat, V>, i: nat, j: nat)
    requires Rep(heads, logSize, m) && i < |heads| && j < |heads[i]|
    ensures var e := heads[i][j]; Hash(e.key, logSize) == i && e.key in m && m[e.key] == e.value
  {
  }

  lemma RepMissing<V>(heads: seq<seq<Entry<V>>>, logSize: nat, m: map<nat, V>, k: nat)
    requires Rep(heads, logSize, m)
    ensures k in m <==> HasKey(heads[Hash(k, logSize)], k)
  {
  }

  lemma PushBucket<V>(bucket: seq<Entry<V>>, i: nat, logSize: nat, m: map<nat, V>, e: Entry<V>)
    requires BucketOk(bucket, i, logSize, m) && e.key !in m && Hash(e.key, logSize) == i
    ensures BucketOk([e] + bucket, i, logSize, m[e.key := e.value])
  {
  }

  lemma OtherBucket<V>(bucket: seq<Entry<V>>, i: nat, logSize: nat, m: map<nat, V>, to: map<nat, V>)
    requires BucketOk(bucket, i, logSize, m)
    requires forall k :: k in m && Hash(k, logSize) == i ==> k in to && to[k] == m[k]
    ensures BucketOk(bucket, i, logSize, to)
  {
  }

  /** Pushing an entry with a new key adds that key. */
  lemma PushRep<V>(heads: seq<seq<Entry<V>>>, logSize: nat, m: map<nat, V>, e: Entry<V>)
    requires Rep(heads, logSize, m) && e.key !in m
    ensures Rep(Pushed(heads, Hash(e.key, logSize), e), logSize, m[e.key := e.value])
  {
    hide Hash;
    var h := Hash(e.key, logSize);
    var to := m[e.key := e.value];
    var w := Pushed(heads, h, e);
    forall i {:trigger w[i]} | 0 <= i < |w|
      ensures BucketOk(w[i], i, logSize, to)
    {
      assert BucketOk(heads[i], i, logSize, m);
      if i == h {
        PushBucket(heads[i], i, logSize, m, e);
      } else {
        OtherBucket(heads[i], i, logSize, m, to);
      }
    }
    forall k | k in to
      ensures HasKey(w[Hash(k, logSize)], k)
    {
      var i := Hash(k, logSize);
      if k == e.key {
        assert w[i][0].key == k;
      } else {
        var j :| 0 <= j < |heads[i]| && heads[i][j].key == k;
        assert w[i][if i == h then j + 1 else j].key == k;
      }
    }
  }

  lemma WithoutBucket<V>(bucket: seq<Entry<V>>, i: nat, logSize: nat, m: map<nat, V>, j: nat)
    requires BucketOk(bucket, i, logSize, m) && j < |bucket|
    ensures BucketOk(Without(bucket, j), i, logSize, m - {bucket[j].key})
    ensures forall k :: k != bucket[j].key && HasKey(bucket, k) ==> HasKey(Without(bucket, j), k)
  {
    var w := Without(bucket, j);
    forall l {:trigger w[l]} | 0 <= l < |w|
      ensures w[l] == bucket[if l < j then l else l + 1] && w[l].key != bucket[j].key
    {
    }
    forall k | k != bucket[j].key && HasKey(bucket, k)
      ensures HasKey(w, k)
    {
      var l :| 0 <= l < |bucket| && bucket[l].key == k;
      assert w[if l < j then l else l - 1].key == k;
    }
  }

  /** Unlinking an entry removes its key. */
  lemma RemoveRep<V>(heads: seq<seq<Entry<V>>>, logSize: nat, m: map<nat, V>, i: nat, j: nat)
    requires Rep(heads, logSize, m) && i < |heads| && j < |heads[i]|
    ensures Rep(Removed(heads, i, j), logSize, m - {heads[i][j].key})
    ensures heads[i][j].key in m
  {
    hide Hash;
    var k0 := heads[i][j].key;
    var to := m - {k0};
    var w := Removed(heads, i, j);
    RepAt(heads, logSize, m, i, j);
    assert BucketOk(heads[i], i, logSize, m);
    WithoutBucket(heads[i], i, logSize, m, j);
    forall a {:trigger w[a]} | 0 <= a < |w|
      ensures BucketOk(w[a], a, logSize, to)
    {
      assert BucketOk(heads[a], a, logSize, m);
      if a != i {
        OtherBucket(heads[a], a, logSize, m, to);
      }
    }
  }

  /** Overwriting the value of an entry in place. */
  lemma ReplaceRep<V>(heads: seq<seq<Entry<V>>>, logSize: nat, m: map<nat, V>, i: nat, j: nat, v: V)
    requires Rep(heads, logSize, m) && i < |heads| && j < |heads[i]|
    ensures var k := heads[i][j].key;
            Rep(heads[i := heads[i][j := Entry(k, v)]], logSize, m[k := v])
  {
    hide Hash;
    var k := heads[i][j].key;
    var to := m[k := v];
    var w := heads[i := heads[i][j := Entry(k, v)]];
    RepAt(heads, logSize, m, i, j);
    forall a {:trigger w[a]} | 0 <= a < |w|
      ensures BucketOk(w[a], a, logSize, to)
    {
      assert BucketOk(heads[a], a, logSize, m);
      if a != i {
        OtherBucket(heads[a], a, logSize, m, to);
      } else {
        forall l {:trigger w[i][l]} | 0 <= l < |w[i]|
          ensures w[i][l].key == heads[i][l].key && to[w[i][l].key] == w[i][l].value
        {
        }
      }
    }
    forall x | x in to
      ensures HasKey(w[Hash(x, logSize)], x)
    {
      var a := Hash(x, logSize);
      assert x in m;
      var l :| 0 <= l < |heads[a]| && heads[a][l].key == x;
      assert w[a][l].key == x;
    }
  }

  /** The pairs of `m` that an old table has in its first `i` buckets. */
  ghost function Below<V>(m: map<nat, V>, logSize: nat, i: nat): map<nat, V> {
    map k | k in m && Hash(k, logSize) < i :: m[k]
  }

  function Merged<V>(m: map<nat, V>, chain: seq<Entry<V>>): map<nat, V> {
    if chain == [] then m
    else var e := chain[|chain| - 1]; Merged(m, chain[..|chain| - 1])[e.key := e.value]
  }

  lemma MergedMore<V>(m: map<nat, V>, chain: seq<Entry<V>>, j: nat)
    requires j < |chain|
    ensures Merged(m, chain[..j + 1]) == Merged(m, chain[..j])[chain[j].key := chain[j].value]
  {
    assert chain[..j + 1][..j] == chain[..j];
  }

  lemma {:induction false} MergedIs<V>(m: map<nat, V>, chain: seq<Entry<V>>)
    requires forall j, l :: 0 <= j < l < |chain| ==> chain[j].key != chain[l].key
    ensures forall k :: k in Merged(m, chain) <==> k in m || HasKey(chain, k)
    ensures forall j :: 0 <= j < |chain| ==>
              chain[j].key in Merged(m, chain) && Merged(m, chain)[chain[j].key] == chain[j].value
    ensures forall k :: k in m && !HasKey(chain, k) ==> Merged(m, chain)[k] == m[k]
  {
    if chain != [] {
      var init := chain[..|chain| - 1];
      MergedIs(m, init);
      var e := chain[|chain| - 1];
      forall k: nat
        ensures HasKey(chain, k) <==> HasKey(init, k) || k == e.key
      {
        if HasKey(init, k) {
          var j :| 0 <= j < |init| && init[j].key == k;
          assert chain[j].key == k;
        }
      }
    }
  }

  /** The entry at position `j` of chain `i` has not been moved before. */
  lemma NotYet<V>(heads: seq<seq<Entry<V>>>, logSize: nat, m: map<nat, V>, i: nat, j: nat)
    requires Rep(heads, logSize, m) && i < |heads| && j < |heads[i]|
    ensures heads[i][j].key !in Merged(Below(m, logSize, i), heads[i][..j])
  {
    assert BucketOk(heads[i], i, logSize, m);
    RepAt(heads, logSize, m, i, j);
    MergedIs(Below(m, logSize, i), heads[i][..j]);
  }

  lemma ChainDone<V>(heads: seq<seq<Entry<V>>>, logSize: nat, m: map<nat, V>, i: nat)
    requires Rep(heads, logSize, m) && i < |heads|
    ensures Merged(Below(m, logSize, i), heads[i]) == Below(m, logSize, i + 1)
  {
    hide Hash;
    var a, b := Merged(Below(m, logSize, i), heads[i]), Below(m, logSize, i + 1);
    assert BucketOk(heads[i], i, logSize, m);
    MergedIs(Below(m, logSize, i), heads[i]);
    forall k: nat
      ensures k in a <==> k in b
      ensures k in a ==> a[k] == b[k]
    {
      RepMissing(heads, logSize, m, k);
      if HasKey(heads[i], k) {
        var j :| 0 <= j < |heads[i]| && heads[i][j].key == k;
        RepAt(heads, logSize, m, i, j);
      }
    }
  }

  lemma EmptyRep<V>(heads: seq<seq<Entry<V>>>, logSize: nat)
    requires |heads| == Pow2(logSize) && forall i :: 0 <= i < |heads| ==> heads[i] == []
    ensures Rep(heads, logSize, map[])
  {
  }

  lemma RepSome<V>(heads: seq<seq<Entry<V>>>, logSize: nat, m: map<nat, V>)
    requires Rep(heads, logSize, m)
    ensures heads != []
  {
  }

  lemma RepSize<V>(heads: seq<seq<Entry<V>>>, logSize: nat, m: map<nat, V>)
    requires Rep(heads, logSize, m)
    ensures |heads| == Pow2(logSize)
  {
  }

  lemma RepBucket<V>(heads: seq<seq<Entry<V>>>, logSize: nat, m: map<nat, V>, k: nat)
    requires Rep(heads, logSize, m)
    ensures Hash(k, logSize) < |heads|
  {
  }

  lemma BelowNone<V>(m: map<nat, V>, logSize: nat)
    ensures Below(m, logSize, 0) == map[]
  {
  }

  lemma AllBelow<V>(heads: seq<seq<Entry<V>>>, logSize: nat, m: map<nat, V>)
    requires Rep(heads, logSize, m)
    ensures Below(m, logSize, |heads|) == m
  {
  }

  /** A table grows before a registration if it has more entries than buckets. */
  function GrownLog(unallocated: bool, logSize: nat, entries: nat, memory: bool): nat {
    if memory && (unallocated || entries > Pow2(logSize)) then logSize + 1 else logSize
  }

  /** What GC_register_disappearing_link and its relatives report. */
  datatype Status = Success | Duplicate | NoMemory | NotFound

  class ChainTable<V(!new)> {
    var heads: seq<seq<Entry<V>>>   // no buckets: not allocated yet
    var logSize: nat
    var entries: nat
    ghost var content: map<nat, V>

    /** The table stands for the map `content`, and `entries` is its size. */
    ghost predicate Valid()
      reads this
    {
      && entries == |content|
      && (if heads == [] then content == map[] else Rep(heads, logSize, content))
    }

    /** The buckets stand for some map. */
    ghost predicate IsMap()
      reads this
    {
      heads == [] || Fits(heads, logSize)
    }

    constructor ()
      ensures Valid() && content == map[] && heads == []
    {
      heads, logSize, entries, content := [], 0, 0, map[];
    }

    /** Push an entry on the chain of its hash, whatever is there already. */
    method Push(e: Entry<V>)
      requires Hash(e.key, logSize) < |heads|
      modifies this`heads, this`entries, this`content
      ensures heads == Pushed(old(heads), Hash(e.key, logSize), e) && entries == old(entries) + 1
      ensures content == old(content)[e.key := e.value]
      ensures old(Valid()) && e.key !in old(content) ==> Valid()
    {
      hide Hash;
      hide Rep;
      if Valid() && e.key !in content {
        PushRep(heads, logSize, content, e);
      }
      heads := Pushed(heads, Hash(e.key, logSize), e);
      content := content[e.key := e.value];
      assert e.key !in old(content) ==> content.Keys == old(content).Keys + {e.key};
      entries := entries + 1;
    }

    /** Look for a key in the bucket of its hash. */
    method Find(k: nat) returns (i: nat, j: Option<nat>)
      requires Valid() && heads != []
      ensures i == Hash(k, logSize) < |heads|
      ensures j.Some? ==> j.value < |heads[i]| && heads[i][j.value].key == k && k in content
      ensures j.None? ==> k !in content
    {
      hide Hash;
      i := Hash(k, logSize);
      RepMissing(heads, logSize, content, k);
      var n := 0;
      while n < |heads[i]|
        invariant 0 <= n <= |heads[i]|
        invariant forall l :: 0 <= l < n ==> heads[i][l].key != k
      {
        if heads[i][n].key == k {
          return i, Some(n);
        }
        n := n + 1;
      }
      return i, None;
    }

    /** Move one chain of the old table to the new one, in the order of the chain. */
    method MoveChain(i: nat, table: seq<seq<Entry<V>>>, ghost done: map<nat, V>)
      returns (to: seq<seq<Entry<V>>>, ghost doneTo: map<nat, V>)
      requires i < |heads| && Rep(heads, logSize, content) && Rep(table, logSize + 1, done)
      requires done == Below(content, logSize, i)
      ensures Rep(to, logSize + 1, doneTo) && doneTo == Below(content, logSize, i + 1)
    {
      hide Hash;
      hide Rep;
      hide Below;
      to, doneTo := table, done;
      var j := 0;
      while j < |heads[i]|
        invariant 0 <= j <= |heads[i]| && Rep(to, logSize + 1, doneTo)
        invariant doneTo == Merged(done, heads[i][..j])
      {
        var e := heads[i][j];
        NotYet(heads, logSize, content, i, j);
        PushRep(to, logSize + 1, doneTo, e);
        RepBucket(to, logSize + 1, doneTo, e.key);
        MergedMore(done, heads[i], j);
        to := Pushed(to, Hash(e.key, logSize + 1), e);
        doneTo := doneTo[e.key := e.value];
        j := j + 1;
      }
      assert heads[i][..j] == heads[i];
      ChainDone(heads, logSize, content, i);
    }

    /** GC_grow_table: twice as many buckets and the same contents; `memory` says whether the new
        buckets could be allocated. */
    method Grow(memory: bool)
      requires Valid() && (heads == [] ==> memory)
      modifies this`heads, this`logSize
      ensures Valid() && content == old(content) && heads != []
      ensures if memory then logSize == old(logSize) + 1 else heads == old(heads) && logSize == old(logSize)
    {
      hide Hash;
      hide Rep;
      if !memory {
        return;
      }
      var table: seq<seq<Entry<V>>> := seq(Pow2(logSize + 1), _ => []);
      ghost var done := map[];
      EmptyRep(table, logSize + 1);
      BelowNone(content, logSize);
      var i := 0;
      while i < |heads|
        invariant heads == old(heads) && logSize == old(logSize)
        invariant 0 <= i <= |heads| && Rep(table, logSize + 1, done)
        invariant heads != [] ==> done == Below(content, logSize, i)
        invariant heads == [] ==> done == map[]
      {
        table, done := MoveChain(i, table, done);
        i := i + 1;
      }
      if heads != [] {
        AllBelow(heads, logSize, content);
      }
      RepSome(table, logSize + 1, done);
      logSize := logSize + 1;
      heads := table;
    }

    /** The growth test that starts every registration. */
    method Prepare(memory: bool)
      requires Valid() && (heads == [] ==> memory)
      modifies this`heads, this`logSize
      ensures Valid() && content == old(content) && heads != []
      ensures logSize == GrownLog(old(heads) == [], old(logSize), old(entries), memory)
    {
      if heads == [] || entries > Pow2(logSize) {
        Grow(memory);
      }
    }

    /** Give the entry at position `j` of chain `i` another value. */
    method Overwrite(i: nat, j: nat, v: V)
      requires Valid() && i < |heads| && j < |heads[i]|
      modifies this`heads, this`content
      ensures Valid() && heads != [] && content == old(content)[old(heads)[i][j].key := v]
      ensures old(heads)[i][j].key in old(content) && old(content)[old(heads)[i][j].key] == old(heads)[i][j].value
    {
      hide Rep;
      var k := heads[i][j].key;
      RepAt(heads, logSize, content, i, j);
      ReplaceRep(heads, logSize, content, i, j, v);
      heads := heads[i := heads[i][j := Entry(k, v)]];
      content := content[k := v];
      assert content.Keys == old(content).Keys;
    }

    /** GC_register_disappearing_link_inner. */
    method Register(k: nat, v: V, growMemory: bool, memory: bool) returns (s: Status)
      requires Valid() && (heads == [] ==> growMemory)
      modifies this
      ensures Valid()
      ensures s == if k in old(content) then Duplicate else if memory then Success else NoMemory
      ensures content == if s == NoMemory then old(content) else old(content)[k := v]
      ensures logSize == GrownLog(old(heads) == [], old(logSize), old(entries), growMemory)
    {
      hide Hash;
      hide Rep;
      Prepare(growMemory);
      var i, j := Find(k);
      if j.Some? {
        Overwrite(i, j.value, v);
        return Duplicate;
      }
      if !memory {
        return NoMemory;
      }
      Push(Entry(k, v));
      return Success;
    }

    /** The end of a registration for which the out-of-memory handler found memory: the lock was
        free in between, so the table may be another one, and the key is looked for again. */
    method Retry(k: nat, v: V) returns (s: Status, was: Option<V>)
      requires Valid() && heads != []
      modifies this`heads, this`entries, this`content
      ensures Valid() && content == old(content)[k := v]
      ensures s == if k in old(content) then Duplicate else Success
      ensures was == if k in old(content) then Some(old(content)[k]) else None
    {
      hide Hash;
      hide Rep;
      var i, j := Find(k);
      if j.Some? {
        was := Some(heads[i][j.value].value);
        Overwrite(i, j.value, v);
        return Duplicate, was;
      }
      Push(Entry(k, v));
      return Success, None;
    }

    /** Unlink the entry at position `j` of chain `i`. */
    method RemoveAt(i: nat, j: nat)
      requires Valid() && i < |heads| && j < |heads[i]|
      modifies this`heads, this`entries, this`content
      ensures Valid() && heads == Removed(old(heads), i, j) && content == old(content) - {old(heads)[i][j].key}
      ensures var e := old(heads)[i][j]; e.key in old(content) && old(content)[e.key] == e.value
    {
      hide Rep;
      var k := heads[i][j].key;
      RepAt(heads, logSize, content, i, j);
      RemoveRep(heads, logSize, content, i, j);
      heads := Removed(heads, i, j);
      content := content - {k};
      assert content.Keys == old(content).Keys - {k};
      entries := entries - 1;
    }

    /** GC_unregister_disappearing_link_inner: returns the entry that was taken out. */
    method Unregister(k: nat) returns (r: Option<V>)
      requires Valid()
      modifies this
      ensures Valid() && content == old(content) - {k}
      ensures r == if k in old(content) then Some(old(content)[k]) else None
    {
      hide Hash;
      hide Rep;
      if heads == [] {
        return None;
      }
      var i, j := Find(k);
      if j.None? {
        assert content - {k} == content;
        return None;
      }
      r := Some(heads[i][j.value].value);
      RemoveAt(i, j.value);
    }

    /** GC_move_disappearing_link_inner. */
    method Move(k: nat, to: nat) returns (s: Status)
      requires Valid()
      modifies this
      ensures Valid()
      ensures s == if k !in old(content) then NotFound else if k != to && to in old(content) then Duplicate else Success
      ensures content == if s == Success then (old(content) - {k})[to := old(content)[k]] else old(content)
    {
      hide Hash;
      hide Rep;
      if heads == [] {
        return NotFound;
      }
      var i, j := Find(k);
      if j.None? {
        return NotFound;
      }
      RepAt(heads, logSize, content, i, j.value);
      if k == to {
        assert (content - {k})[to := content[k]] == content;
        return Success;
      }
      var i', j' := Find(to);
      if j'.Some? {
        return Duplicate;
      }
      var v := heads[i][j.value].value;
      RemoveRep(heads, logSize, content, i, j.value);
      heads := Removed(heads, i, j.value);
      content := content - {k};
      PushRep(heads, logSize, content, Entry(to, v));
      heads := Pushed(heads, i', Entry(to, v));
      content := content[to := v];
      assert content.Keys == old(content).Keys - {k} + {to};
      return Success;
    }

    /** GC_register_finalizer_inner: no value means remove.  Reports what was registered before,
        unless memory runs out; `known` says whether the object has a header. */
    method Replace(k: nat, v: Option<V>, known: bool, growMemory: bool, memory: bool)
      returns (told: bool, was: Option<V>)
      requires Valid() && (heads == [] ==> growMemory)
      modifies this
      ensures Valid()
      ensures told <==> k in old(content) || v.None? || !known || memory
      ensures was == if k in old(content) then Some(old(content)[k]) else None
      ensures content == if v.None? then old(content) - {k}
                         else if k in old(content) || (known && memory) then old(content)[k := v.value]
                         else old(content)
      ensures logSize == GrownLog(old(heads) == [], old(logSize), old(entries), growMemory)
    {
      hide Hash;
      hide Rep;
      Prepare(growMemory);
      var i, j := Find(k);
      if j.Some? {
        RepAt(heads, logSize, content, i, j.value);
        told, was := true, Some(heads[i][j.value].value);
        if v.None? {
          RemoveAt(i, j.value);
        } else {
          Overwrite(i, j.value, v.value);
        }
        return;
      }
      told, was := v.None? || !known || memory, None;
      if v.None? {
        assert content - {k} == content;
      } else if known && memory {
        Push(Entry(k, v.value));
      }
    }
  }

  /** A key that is in the table already must not be pushed again: then no map fits. */
  lemma PushFits<V(!new)>(heads: seq<seq<Entry<V>>>, logSize: nat, m: map<nat, V>, e: Entry<V>)
    requires Rep(heads, logSize, m)
    ensures Fits(Pushed(heads, Hash(e.key, logSize), e), logSize) <==> e.key !in m
  {
    var h := Hash(e.key, logSize);
    if e.key !in m {
      PushRep(heads, logSize, m, e);
    } else {
      var j :| 0 <= j < |heads[h]| && heads[h][j].key == e.key;
      var w: seq<seq<Entry<V>>> := Pushed(heads, h, e);
      assert w[h][0].key == w[h][j + 1].key;
      forall to: map<nat, V>
        ensures !Rep(w, logSize, to)
      {
        assert !BucketOk(w[h], h, logSize, to);
      }
    }
  }
}
