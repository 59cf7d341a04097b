/** Separate-chaining hash map (HashTable.h). A table is a sequence of
    buckets, each a sequence of key/value entries; a key lives in bucket
    `hash(key) % capacity`. The hash function is a parameter of the table
    (the source uses `std::hash<K>`), and the maximal load factor is kept as
    the exact fraction `loadNum / loadDen` (0.75 = 3/4 by default). */
module HashTables {
  import opened Wrappers

  datatype Entry<K, V> = Entry(key: K, value: V)

  datatype HashTable<!K, V> = HashTable(
    buckets: seq<seq<Entry<K, V>>>,
    count: nat,
    loadNum: nat,
    loadDen: nat,
    hash: K -> nat)

  const DefaultCapacity: nat := 16

  function Capacity<K, V>(h: HashTable<K, V>): nat {
    |h.buckets|
  }

  function BucketIndex<K>(hash: K -> nat, key: K, cap: nat): (i: nat)
    requires cap > 0
    ensures i < cap
  {
    hash(key) % cap
  }

  /** Concatenation of the buckets, first bucket first: the order in which
      `ForEach` and `Rehash` walk the entries. */
  function Flatten<T>(bs: seq<seq<T>>): seq<T> {
    if |bs| == 0 then [] else Flatten(bs[..|bs| - 1]) + bs[|bs| - 1]
  }

  function Entries<K, V>(h: HashTable<K, V>): seq<Entry<K, V>> {
    Flatten(h.buckets)
  }

  ghost predicate DistinctKeys<K, V>(s: seq<Entry<K, V>>) {
    forall i, j :: 0 <= i < j < |s| ==> s[i].key != s[j].key
  }

  /** Every entry sits in the bucket its key hashes to. */
  ghost predicate Placed<K, V>(bs: seq<seq<Entry<K, V>>>, hash: K -> nat, cap: nat)
    requires cap > 0
  {
    forall b, e :: 0 <= b < |bs| && e in bs[b] ==> BucketIndex(hash, e.key, cap) == b
  }

  /** The representation invariant the constructor establishes and every
      mutation keeps: at least one bucket, entries in their hash bucket, no key
      twice in a bucket, and `count` equal to the number of stored entries. */
  ghost predicate Valid<K, V>(h: HashTable<K, V>) {
    && |h.buckets| >= 1
    && h.loadDen >= 1
    && Placed(h.buckets, h.hash, |h.buckets|)
    && (forall b :: 0 <= b < |h.buckets| ==> DistinctKeys(h.buckets[b]))
    && h.count == |Entries(h)|
  }

  /** `count / capacity` does not exceed the maximal load factor. */
  ghost predicate LoadBounded<K, V>(h: HashTable<K, V>) {
    h.count * h.loadDen <= h.loadNum * |h.buckets|
  }

  /** Constructor: a requested capacity of 0 becomes 1; the table is empty. */
  function Create<K(==, !new), V>(hash: K -> nat, capacity: nat := DefaultCapacity,
                           loadNum: nat := 3, loadDen: nat := 4): (h: HashTable<K, V>)
    requires loadDen >= 1
    ensures Valid(h)
    ensures capacity >= 1 ==> Capacity(h) == capacity
    ensures capacity == 0 ==> Capacity(h) == 1
    ensures h.count == 0
    ensures forall k :: Get(h, k) == None
  {
    var cap := if capacity < 1 then 1 else capacity;
    var bs: seq<seq<Entry<K, V>>> := seq(cap, _ => []);
    FlattenEmpty(bs);
    HashTable(bs, 0, loadNum, loadDen, hash)
  }

  /** Position of the first entry of `b` with key `key`, or `|b|` if none. */
  function FindIndex<K(==), V>(b: seq<Entry<K, V>>, key: K): (i: nat)
    ensures i <= |b|
    ensures i < |b| ==> b[i].key == key
    ensures forall j :: 0 <= j < i ==> b[j].key != key
  {
    if |b| == 0 then 0
    else if b[0].key == key then 0
    else 1 + FindIndex(b[1..], key)
  }

  /** `GetPtr` / `Get` / `TryGet`: the value stored under `key`, if any. */
  function Get<K(==), V>(h: HashTable<K, V>, key: K): Option<V> {
    if |h.buckets| == 0 then None
    else
      var b := h.buckets[BucketIndex(h.hash, key, |h.buckets|)];
      var i := FindIndex(b, key);
      if i < |b| then Some(b[i].value) else None
  }

  /** `Contains` / `ContainsKey`. */
  predicate Contains<K(==), V>(h: HashTable<K, V>, key: K) {
    Get(h, key).Some?
  }

  /** `Rehash`: a fresh bucket array of the new capacity (0 becomes 1), filled
      by walking the old entries bucket by bucket; `count` is unchanged. */
  function Rehash<K, V>(h: HashTable<K, V>, newCapacity: nat): (r: HashTable<K, V>)
    ensures Capacity(r) >= 1 && (newCapacity >= 1 ==> Capacity(r) == newCapacity)
    ensures r.count == h.count
  {
    var cap := if newCapacity < 1 then 1 else newCapacity;
    var empty: seq<seq<Entry<K, V>>> := seq(cap, _ => []);
    h.(buckets := Redistribute(Entries(h), empty, h.hash))
  }

  /** Appends each entry of `es`, in order, to the bucket of `nb` its key
      hashes to. */
  function Redistribute<K, V>(es: seq<Entry<K, V>>, nb: seq<seq<Entry<K, V>>>,
                              hash: K -> nat): (r: seq<seq<Entry<K, V>>>)
    requires |nb| > 0
    ensures |r| == |nb|
    decreases |es|
  {
    if |es| == 0 then nb
    else
      var i := BucketIndex(hash, es[0].key, |nb|);
      Redistribute(es[1..], nb[i := nb[i] + [es[0]]], hash)
  }

  /** `MaybeRehashForInsert`: doubles the capacity when one more entry would
      push the load factor above the maximum. */
  function MaybeRehashForInsert<K, V>(h: HashTable<K, V>): HashTable<K, V> {
    var cap := if |h.buckets| == 0 then 1 else |h.buckets|;
    if (h.count + 1) * h.loadDen > h.loadNum * cap then Rehash(h, cap * 2) else h
  }

  /** `Set` / `Add`: replaces the value of a present key in place; otherwise
      grows the table if needed and appends a new entry to the key's bucket. */
  function Set<K(==), V>(h: HashTable<K, V>, key: K, value: V): HashTable<K, V>
    requires Valid(h)
  {
    var bi := BucketIndex(h.hash, key, |h.buckets|);
    var b := h.buckets[bi];
    var i := FindIndex(b, key);
    if i < |b| then
      h.(buckets := h.buckets[bi := b[i := Entry(key, value)]])
    else
      var g := MaybeRehashForInsert(h);
      var gi := BucketIndex(g.hash, key, |g.buckets|);
      g.(buckets := g.buckets[gi := g.buckets[gi] + [Entry(key, value)]], count := g.count + 1)
  }

  /** Swap-with-last-then-pop removal of position `i`. */
  function RemoveAt<T>(b: seq<T>, i: nat): seq<T>
    requires i < |b|
  {
    b[i := b[|b| - 1]][..|b| - 1]
  }

  /** `Remove` / `RemoveKey`: the new table and whether the key was found. */
  function Remove<K(==), V>(h: HashTable<K, V>, key: K): (HashTable<K, V>, bool)
    requires Valid(h)
  {
    var bi := BucketIndex(h.hash, key, |h.buckets|);
    var b := h.buckets[bi];
    var i := FindIndex(b, key);
    if i == |b| then (h, false)
    else
      FlattenMember(h.buckets, b[i]);
      (h.(buckets := h.buckets[bi := RemoveAt(b, i)], count := h.count - 1), true)
  }

  /** `Clear`: empties every bucket, keeps the capacity. */
  function Clear<K, V>(h: HashTable<K, V>): HashTable<K, V> {
    h.(buckets := seq(|h.buckets|, _ => []), count := 0)
  }

  /** `ForEach`: the sequence of entries the callback is applied to. */
  function ForEach<K, V>(h: HashTable<K, V>): seq<Entry<K, V>> {
    Entries(h)
  }

  // ---------------------------------------------------------------------
  // Sequence-of-buckets facts

  lemma {:induction false} FlattenEmpty<T>(bs: seq<seq<T>>)
    requires forall b :: 0 <= b < |bs| ==> bs[b] == []
    ensures Flatten(bs) == []
  {
    if |bs| > 0 {
      FlattenEmpty(bs[..|bs| - 1]);
    }
  }

  lemma {:induction false} FlattenMember<T>(bs: seq<seq<T>>, x: T)
    ensures x in Flatten(bs) <==> exists b :: 0 <= b < |bs| && x in bs[b]
  {
    if |bs| > 0 {
      var pre := bs[..|bs| - 1];
      FlattenMember(pre, x);
      if x in Flatten(pre) {
        var b :| 0 <= b < |pre| && x in pre[b];
        assert bs[b] == pre[b];
      }
      if exists b :: 0 <= b < |bs| && x in bs[b] {
        var b :| 0 <= b < |bs| && x in bs[b];
        if b < |bs| - 1 {
          assert pre[b] == bs[b];
        }
      }
    }
  }

  /** Replacing one bucket changes the flattened multiset exactly as it
      changes that bucket: `D1` and `D2` balance the two sides. */
  lemma {:induction false} FlattenReplace<T>(bs: seq<seq<T>>, i: nat, c: seq<T>, d1: multiset<T>, d2: multiset<T>)
    requires i < |bs|
    requires multiset(c) + d1 == multiset(bs[i]) + d2
    ensures multiset(Flatten(bs[i := c])) + d1 == multiset(Flatten(bs)) + d2
  {
    var n := |bs|;
    var bs' := bs[i := c];
    var pre := bs[..n - 1];
    assert Flatten(bs) == Flatten(pre) + bs[n - 1];
    if i == n - 1 {
      assert bs'[..n - 1] == pre;
      assert Flatten(bs') == Flatten(pre) + c;
      calc {
        multiset(Flatten(bs')) + d1;
        multiset(Flatten(pre)) + (multiset(c) + d1);
        multiset(Flatten(pre)) + (multiset(bs[n - 1]) + d2);
        multiset(Flatten(bs)) + d2;
      }
    } else {
      assert bs'[..n - 1] == pre[i := c];
      assert Flatten(bs') == Flatten(pre[i := c]) + bs[n - 1];
      FlattenReplace(pre, i, c, d1, d2);
      calc {
        multiset(Flatten(bs')) + d1;
        (multiset(Flatten(pre[i := c])) + d1) + multiset(bs[n - 1]);
        (multiset(Flatten(pre)) + d2) + multiset(bs[n - 1]);
        multiset(Flatten(bs)) + d2;
      }
    }
  }

  lemma DistinctConcat<K, V>(a: seq<Entry<K, V>>, b: seq<Entry<K, V>>)
    requires DistinctKeys(a) && DistinctKeys(b)
    requires forall x, y :: x in a && y in b ==> x.key != y.key
    ensures DistinctKeys(a + b)
  {
    var s := a + b;
    forall i, j | 0 <= i < j < |s| ensures s[i].key != s[j].key {
      if j < |a| {
        assert s[i] == a[i] && s[j] == a[j];
      } else if i >= |a| {
        assert s[i] == b[i - |a|] && s[j] == b[j - |a|];
      } else {
        assert s[i] in a && s[j] in b;
      }
    }
  }

  lemma {:induction false} FlattenDistinct<K, V>(bs: seq<seq<Entry<K, V>>>, hash: K -> nat, cap: nat)
    requires cap > 0 && Placed(bs, hash, cap)
    requires forall b :: 0 <= b < |bs| ==> DistinctKeys(bs[b])
    ensures DistinctKeys(Flatten(bs))
  {
    if |bs| > 0 {
      var n := |bs|;
      var pre := bs[..n - 1];
      forall b, e: Entry<K, V> | 0 <= b < |pre| && e in pre[b] ensures BucketIndex(hash, e.key, cap) == b {
        assert pre[b] == bs[b];
      }
      forall b | 0 <= b < |pre| ensures DistinctKeys(pre[b]) {
        assert pre[b] == bs[b];
      }
      FlattenDistinct(pre, hash, cap);
      forall x, y | x in Flatten(pre) && y in bs[n - 1] ensures x.key != y.key {
        FlattenMember(pre, x);
        var b :| 0 <= b < |pre| && x in pre[b];
        assert x in bs[b];
      }
      DistinctConcat(Flatten(pre), bs[n - 1]);
    }
  }

  lemma RemoveAtMultiset<T>(b: seq<T>, i: nat)
    requires i < |b|
    ensures multiset(RemoveAt(b, i)) + multiset{b[i]} == multiset(b)
  {
    var n := |b|;
    if i == n - 1 {
      assert RemoveAt(b, i) == b[..n - 1];
      assert b == b[..n - 1] + [b[n - 1]];
    } else {
      assert RemoveAt(b, i) == b[..i] + [b[n - 1]] + b[i + 1..n - 1];
      assert b == b[..i] + [b[i]] + b[i + 1..n - 1] + [b[n - 1]];
    }
  }

  lemma RemoveAtDistinct<K, V>(b: seq<Entry<K, V>>, i: nat)
    requires i < |b| && DistinctKeys(b)
    ensures DistinctKeys(RemoveAt(b, i))
  {
    var n := |b|;
    var c := RemoveAt(b, i);
    forall p, q | 0 <= p < q < |c| ensures c[p].key != c[q].key {
      var p' := if p == i then n - 1 else p;
      var q' := if q == i then n - 1 else q;
      assert c[p] == b[p'] && c[q] == b[q'];
      assert p' != q';
      if p' < q' {
        assert b[p'].key != b[q'].key;
      } else {
        assert b[q'].key != b[p'].key;
      }
    }
  }

  // ---------------------------------------------------------------------
  // Lookup semantics

  lemma BucketFind<K, V>(b: seq<Entry<K, V>>, k: K, v: V)
    requires DistinctKeys(b)
    ensures (FindIndex(b, k) < |b| && b[FindIndex(b, k)].value == v) <==> Entry(k, v) in b
  {
    var i := FindIndex(b, k);
    if Entry(k, v) in b {
      var j :| 0 <= j < |b| && b[j] == Entry(k, v);
      assert i <= j;
    }
  }

  /** A key maps to a value exactly when that entry is stored. */
  lemma GetIffEntry<K, V>(h: HashTable<K, V>, k: K, v: V)
    requires Valid(h)
    ensures Get(h, k) == Some(v) <==> Entry(k, v) in Entries(h)
  {
    var bi := BucketIndex(h.hash, k, |h.buckets|);
    FlattenMember(h.buckets, Entry(k, v));
    BucketFind(h.buckets[bi], k, v);
    if Entry(k, v) in Entries(h) {
      var b :| 0 <= b < |h.buckets| && Entry(k, v) in h.buckets[b];
      assert b == bi;
    }
  }

  lemma SameEntriesSameGet<K, V>(h1: HashTable<K, V>, h2: HashTable<K, V>, k: K)
    requires Valid(h1) && Valid(h2)
    requires forall v :: Entry(k, v) in Entries(h1) <==> Entry(k, v) in Entries(h2)
    ensures Get(h1, k) == Get(h2, k)
  {
    if Get(h1, k).Some? {
      GetIffEntry(h1, k, Get(h1, k).value);
      GetIffEntry(h2, k, Get(h1, k).value);
    } else if Get(h2, k).Some? {
      GetIffEntry(h2, k, Get(h2, k).value);
      GetIffEntry(h1, k, Get(h2, k).value);
    }
  }

  // ---------------------------------------------------------------------
  // Rehash

  ghost predicate NoKeyOverlap<K, V>(es: seq<Entry<K, V>>, nb: seq<seq<Entry<K, V>>>) {
    forall e, b, x :: e in es && 0 <= b < |nb| && x in nb[b] ==> e.key != x.key
  }

  /** Appending an entry to its own bucket keeps every entry in place. */
  lemma AppendPlaced<K, V>(nb: seq<seq<Entry<K, V>>>, hash: K -> nat, e: Entry<K, V>)
    requires |nb| > 0 && Placed(nb, hash, |nb|)
    ensures var i := BucketIndex(hash, e.key, |nb|);
      Placed(nb[i := nb[i] + [e]], hash, |nb|)
  {
    var i := BucketIndex(hash, e.key, |nb|);
    var nb' := nb[i := nb[i] + [e]];
    forall b, x: Entry<K, V> | 0 <= b < |nb'| && x in nb'[b] ensures BucketIndex(hash, x.key, |nb|) == b {
      if b != i || x != e {
        assert x in nb[b];
      }
    }
  }

  /** Appending an entry whose key is in no bucket keeps keys distinct. */
  lemma AppendDistinct<K, V>(nb: seq<seq<Entry<K, V>>>, i: nat, e: Entry<K, V>, nb': seq<seq<Entry<K, V>>>)
    requires i < |nb| && nb' == nb[i := nb[i] + [e]]
    requires forall b :: 0 <= b < |nb| ==> DistinctKeys(nb[b])
    requires forall x: Entry<K, V> :: x in nb[i] ==> x.key != e.key
    ensures forall b :: 0 <= b < |nb'| ==> DistinctKeys(nb'[b])
  {
    DistinctConcat(nb[i], [e]);
  }

  lemma StepNoOverlap<K, V>(es: seq<Entry<K, V>>, nb: seq<seq<Entry<K, V>>>, i: nat)
    requires |es| > 0 && i < |nb|
    requires DistinctKeys(es) && NoKeyOverlap(es, nb)
    ensures DistinctKeys(es[1..]) && NoKeyOverlap(es[1..], nb[i := nb[i] + [es[0]]])
  {
    var e := es[0];
    var rest := es[1..];
    var nb' := nb[i := nb[i] + [e]];
    forall p, q | 0 <= p < q < |rest| ensures rest[p].key != rest[q].key {
      assert rest[p] == es[p + 1] && rest[q] == es[q + 1];
    }
    forall y: Entry<K, V>, b, x: Entry<K, V> | y in rest && 0 <= b < |nb'| && x in nb'[b]
      ensures y.key != x.key
    {
      var q :| 0 <= q < |rest| && rest[q] == y;
      assert es[q + 1] == y;
      if b != i || x != e {
        assert x in nb[b];
      }
    }
  }

  /** One step of `Redistribute`: the entry moved into its bucket keeps
      every precondition for the rest and adds itself to the contents. */
  lemma RedistributeStep<K, V>(es: seq<Entry<K, V>>, nb: seq<seq<Entry<K, V>>>, hash: K -> nat)
    requires |nb| > 0 && |es| > 0
    requires Placed(nb, hash, |nb|)
    requires forall b :: 0 <= b < |nb| ==> DistinctKeys(nb[b])
    requires DistinctKeys(es) && NoKeyOverlap(es, nb)
    ensures var i := BucketIndex(hash, es[0].key, |nb|);
      var nb' := nb[i := nb[i] + [es[0]]];
      && Placed(nb', hash, |nb'|)
      && (forall b :: 0 <= b < |nb'| ==> DistinctKeys(nb'[b]))
      && DistinctKeys(es[1..]) && NoKeyOverlap(es[1..], nb')
      && multiset(Flatten(nb')) == multiset(Flatten(nb)) + multiset{es[0]}
  {
    var e := es[0];
    var i := BucketIndex(hash, e.key, |nb|);
    var nb' := nb[i := nb[i] + [e]];
    AppendPlaced(nb, hash, e);
    assert e in es;
    assert forall x: Entry<K, V> :: x in nb[i] ==> x.key != e.key;
    AppendDistinct(nb, i, e, nb');
    StepNoOverlap(es, nb, i);
    FlattenReplace(nb, i, nb[i] + [e], multiset{}, multiset{e});
  }

  lemma {:induction false} RedistributeSpec<K, V>(es: seq<Entry<K, V>>, nb: seq<seq<Entry<K, V>>>, hash: K -> nat)
    requires |nb| > 0
    requires Placed(nb, hash, |nb|)
    requires forall b :: 0 <= b < |nb| ==> DistinctKeys(nb[b])
    requires DistinctKeys(es) && NoKeyOverlap(es, nb)
    ensures Placed(Redistribute(es, nb, hash), hash, |nb|)
    ensures forall b :: 0 <= b < |nb| ==> DistinctKeys(Redistribute(es, nb, hash)[b])
    ensures multiset(Flatten(Redistribute(es, nb, hash))) == multiset(Flatten(nb)) + multiset(es)
    decreases |es|
  {
    if |es| > 0 {
      var e := es[0];
      var i := BucketIndex(hash, e.key, |nb|);
      var nb' := nb[i := nb[i] + [e]];
      RedistributeStep(es, nb, hash);
      RedistributeSpec(es[1..], nb', hash);
      assert Redistribute(es, nb, hash) == Redistribute(es[1..], nb', hash);
      assert es == [e] + es[1..];
      assert multiset(es) == multiset{e} + multiset(es[1..]);
    }
  }

  /** `Rehash` keeps exactly the same entries and count, and the invariant. */
  lemma RehashSpec<K, V>(h: HashTable<K, V>, newCapacity: nat)
    requires Valid(h)
    ensures Valid(Rehash(h, newCapacity))
    ensures multiset(Entries(Rehash(h, newCapacity))) == multiset(Entries(h))
    ensures Rehash(h, newCapacity).count == h.count
    ensures forall k :: Get(Rehash(h, newCapacity), k) == Get(h, k)
  {
    var cap := if newCapacity < 1 then 1 else newCapacity;
    var empty: seq<seq<Entry<K, V>>> := seq(cap, _ => []);
    FlattenEmpty(empty);
    FlattenDistinct(h.buckets, h.hash, |h.buckets|);
    RedistributeSpec(Entries(h), empty, h.hash);
    var r := Rehash(h, newCapacity);
    assert |Entries(r)| == |multiset(Entries(r))| == |multiset(Entries(h))| == |Entries(h)|;
    forall k ensures Get(r, k) == Get(h, k) {
      forall v ensures Entry(k, v) in Entries(r) <==> Entry(k, v) in Entries(h) {
        assert Entry(k, v) in multiset(Entries(r)) <==> Entry(k, v) in multiset(Entries(h));
      }
      SameEntriesSameGet(r, h, k);
    }
  }

  lemma MaybeRehashSpec<K, V>(h: HashTable<K, V>)
    requires Valid(h)
    ensures Valid(MaybeRehashForInsert(h))
    ensures multiset(Entries(MaybeRehashForInsert(h))) == multiset(Entries(h))
    ensures MaybeRehashForInsert(h).count == h.count
    ensures forall k :: Get(MaybeRehashForInsert(h), k) == Get(h, k)
  {
    RehashSpec(h, 2 * |h.buckets|);
  }

  // ---------------------------------------------------------------------
  // Set / Remove / Clear / ForEach

  /** Installing a new version `c` of bucket `bi` that keeps entries in
      their hash bucket and keys distinct preserves the invariant; the stored
      entries change exactly as the bucket does. */
  lemma ReplaceBucket<K, V>(h: HashTable<K, V>, bi: nat, c: seq<Entry<K, V>>, cnt: nat,
                            d1: multiset<Entry<K, V>>, d2: multiset<Entry<K, V>>, r: HashTable<K, V>)
    requires Valid(h) && bi < |h.buckets|
    requires r == h.(buckets := h.buckets[bi := c], count := cnt)
    requires forall e :: e in c ==> BucketIndex(h.hash, e.key, |h.buckets|) == bi
    requires DistinctKeys(c)
    requires multiset(c) + d1 == multiset(h.buckets[bi]) + d2
    requires cnt + |d1| == h.count + |d2|
    ensures Valid(r)
    ensures multiset(Entries(r)) + d1 == multiset(Entries(h)) + d2
  {
    forall bb, e | 0 <= bb < |r.buckets| && e in r.buckets[bb]
      ensures BucketIndex(r.hash, e.key, |r.buckets|) == bb
    {
      if bb != bi {
        assert e in h.buckets[bb];
      }
    }
    FlattenReplace(h.buckets, bi, c, d1, d2);
    var mr, mh := multiset(Entries(r)), multiset(Entries(h));
    assert |mr + d1| == |mr| + |d1|;
    assert |mh + d2| == |mh| + |d2|;
    assert |mr| == |Entries(r)| && |mh| == |Entries(h)|;
  }

  /** Two tables whose entries differ only in entries of other keys agree on `k`. */
  lemma AgreeOffKey<K, V>(h1: HashTable<K, V>, h2: HashTable<K, V>,
                          d1: multiset<Entry<K, V>>, d2: multiset<Entry<K, V>>, k: K)
    requires Valid(h1) && Valid(h2)
    requires multiset(Entries(h1)) + d1 == multiset(Entries(h2)) + d2
    requires forall x :: x in d1 ==> x.key != k
    requires forall x :: x in d2 ==> x.key != k
    ensures Get(h1, k) == Get(h2, k)
  {
    forall v ensures Entry(k, v) in Entries(h1) <==> Entry(k, v) in Entries(h2) {
      assert Entry(k, v) in multiset(Entries(h1)) + d1 <==> Entry(k, v) in multiset(Entries(h2)) + d2;
    }
    SameEntriesSameGet(h1, h2, k);
  }

  lemma UpdateAtDistinct<K, V>(b: seq<Entry<K, V>>, i: nat, e: Entry<K, V>)
    requires i < |b| && DistinctKeys(b) && e.key == b[i].key
    ensures DistinctKeys(b[i := e])
    ensures multiset(b[i := e]) + multiset{b[i]} == multiset(b) + multiset{e}
  {
    var c := b[i := e];
    forall x, y | 0 <= x < y < |c| ensures c[x].key != c[y].key {
      assert c[x].key == b[x].key && c[y].key == b[y].key;
    }
    assert b == b[..i] + [b[i]] + b[i + 1..];
    assert c == b[..i] + [e] + b[i + 1..];
  }

  /** Once a key's entry is swapped out, no entry with that key remains. */
  lemma RemoveAtNoKey<K, V>(b: seq<Entry<K, V>>, i: nat)
    requires i < |b| && DistinctKeys(b)
    ensures forall x :: x in RemoveAt(b, i) ==> x.key != b[i].key
  {
    var n := |b|;
    var c := RemoveAt(b, i);
    forall x | x in c ensures x.key != b[i].key {
      var j :| 0 <= j < |c| && c[j] == x;
      var j' := if j == i then n - 1 else j;
      assert c[j] == b[j'] && j' != i;
      if j' < i {
        assert b[j'].key != b[i].key;
      } else {
        assert b[i].key != b[j'].key;
      }
    }
  }

  /** After `Set(k, v)`: `k` maps to `v`, every other key keeps its value, the
      count grows by one exactly when `k` was new, and the invariant holds. */
  lemma SetSpec<K, V>(h: HashTable<K, V>, k: K, v: V)
    requires Valid(h)
    ensures Valid(Set(h, k, v))
    ensures Get(Set(h, k, v), k) == Some(v)
    ensures forall k' :: k' != k ==> Get(Set(h, k, v), k') == Get(h, k')
    ensures Set(h, k, v).count == if Contains(h, k) then h.count else h.count + 1
  {
    var r := Set(h, k, v);
    var bi := BucketIndex(h.hash, k, |h.buckets|);
    var b := h.buckets[bi];
    var i := FindIndex(b, k);
    if i < |b| {
      var c := b[i := Entry(k, v)];
      UpdateAtDistinct(b, i, Entry(k, v));
      forall e: Entry<K, V> | e in c ensures BucketIndex(h.hash, e.key, |h.buckets|) == bi {
        assert e in multiset(c) + multiset{b[i]};
      }
      assert r == h.(buckets := h.buckets[bi := c], count := h.count);
      ReplaceBucket(h, bi, c, h.count, multiset{b[i]}, multiset{Entry(k, v)}, r);
      assert c[i] == Entry(k, v);
      assert Entry(k, v) in r.buckets[bi];
      FlattenMember(r.buckets, Entry(k, v));
      GetIffEntry(r, k, v);
      assert Get(r, k) == Some(v);
      forall k' | k' != k ensures Get(r, k') == Get(h, k') {
        AgreeOffKey(r, h, multiset{b[i]}, multiset{Entry(k, v)}, k');
      }
    } else {
      var g := MaybeRehashForInsert(h);
      MaybeRehashSpec(h);
      var gi := BucketIndex(g.hash, k, |g.buckets|);
      var gb := g.buckets[gi];
      var e := Entry(k, v);
      assert Get(g, k) == None;
      forall x: Entry<K, V> | x in gb ensures x.key != k {
        BucketFind(gb, k, x.value);
      }
      forall x: Entry<K, V>, y: Entry<K, V> | x in gb && y in [e] ensures x.key != y.key { }
      DistinctConcat(gb, [e]);
      forall x: Entry<K, V> | x in gb + [e] ensures BucketIndex(g.hash, x.key, |g.buckets|) == gi {
        if x != e {
          assert x in gb;
        }
      }
      assert r == g.(buckets := g.buckets[gi := gb + [e]], count := g.count + 1);
      ReplaceBucket(g, gi, gb + [e], g.count + 1, multiset{}, multiset{e}, r);
      assert e in r.buckets[gi];
      FlattenMember(r.buckets, e);
      GetIffEntry(r, k, v);
      assert Get(r, k) == Some(v);
      forall k' | k' != k ensures Get(r, k') == Get(h, k') {
        AgreeOffKey(r, g, multiset{}, multiset{e}, k');
      }
    }
  }

  /** Before a new key is stored the capacity doubles exactly when
      `(count + 1) / capacity` exceeds the maximal load factor; updating a
      present key never changes the capacity. */
  lemma SetGrowth<K, V>(h: HashTable<K, V>, k: K, v: V)
    requires Valid(h)
    ensures Contains(h, k) ==> Capacity(Set(h, k, v)) == Capacity(h)
    ensures !Contains(h, k) ==>
      Capacity(Set(h, k, v)) == if (h.count + 1) * h.loadDen > h.loadNum * Capacity(h)
                                then 2 * Capacity(h) else Capacity(h)
  {
    var bi := BucketIndex(h.hash, k, |h.buckets|);
    var i := FindIndex(h.buckets[bi], k);
  }

  /** With a maximal load factor of at least 1/2 (the default is 3/4), no
      `Set` takes the load factor above the maximum. */
  lemma SetKeepsLoadBounded<K, V>(h: HashTable<K, V>, k: K, v: V)
    requires Valid(h) && LoadBounded(h) && h.loadDen <= 2 * h.loadNum
    ensures LoadBounded(Set(h, k, v))
  {
    SetSpec(h, k, v);
    SetGrowth(h, k, v);
    if !Contains(h, k) && (h.count + 1) * h.loadDen > h.loadNum * |h.buckets| {
      DoublingRestoresLoad(h.count, h.loadDen, h.loadNum, |h.buckets|);
    }
  }

  /** Arithmetic core of `SetKeepsLoadBounded`: if `c/cap` is within the
      bound `n/d >= 1/2` but `(c+1)/cap` is not, `(c+1)/(2*cap)` is. */
  lemma DoublingRestoresLoad(c: nat, d: nat, n: nat, cap: nat)
    requires cap >= 1 && d >= 1 && d <= 2 * n
    requires c * d <= n * cap && (c + 1) * d > n * cap
    ensures (c + 1) * d <= n * (2 * cap)
  {
    assert (c + 1) * d == c * d + d;
    assert n * (2 * cap) == 2 * (n * cap);
    if c == 0 {
      assert n * 1 <= n * cap;
    } else {
      assert 1 * d <= c * d;
    }
  }

  /** `Remove(k)` reports whether `k` was present; afterwards `k` is absent,
      other keys keep their values and the count dropped by one if found. */
  lemma RemoveSpec<K, V>(h: HashTable<K, V>, k: K)
    requires Valid(h)
    ensures Remove(h, k).1 == Contains(h, k)
    ensures Valid(Remove(h, k).0)
    ensures Get(Remove(h, k).0, k) == None
    ensures forall k' :: k' != k ==> Get(Remove(h, k).0, k') == Get(h, k')
    ensures Remove(h, k).0.count == if Contains(h, k) then h.count - 1 else h.count
  {
    var bi := BucketIndex(h.hash, k, |h.buckets|);
    var b := h.buckets[bi];
    var i := FindIndex(b, k);
    if i < |b| {
      var r := Remove(h, k).0;
      var c := RemoveAt(b, i);
      RemoveAtMultiset(b, i);
      RemoveAtDistinct(b, i);
      RemoveAtNoKey(b, i);
      forall e: Entry<K, V> | e in c ensures BucketIndex(h.hash, e.key, |h.buckets|) == bi {
        assert e in multiset(c) + multiset{b[i]};
      }
      ReplaceBucket(h, bi, c, h.count - 1, multiset{b[i]}, multiset{}, r);
      assert r.buckets[bi] == c;
      assert FindIndex(c, k) == |c|;
      forall k' | k' != k ensures Get(r, k') == Get(h, k') {
        AgreeOffKey(r, h, multiset{b[i]}, multiset{}, k');
      }
    }
  }

  /** `Clear` leaves an empty table of the same capacity. */
  lemma ClearSpec<K, V>(h: HashTable<K, V>)
    requires Valid(h)
    ensures Valid(Clear(h))
    ensures Clear(h).count == 0 && Capacity(Clear(h)) == Capacity(h)
    ensures forall k :: Get(Clear(h), k) == None
  {
    FlattenEmpty(Clear(h).buckets);
  }

  /** `ForEach` visits every stored entry once: no key twice, as many entries
      as `count`, and exactly the pairs `Get` reports. */
  lemma ForEachSpec<K, V>(h: HashTable<K, V>)
    requires Valid(h)
    ensures DistinctKeys(ForEach(h))
    ensures |ForEach(h)| == h.count
    ensures forall k, v :: Entry(k, v) in ForEach(h) <==> Get(h, k) == Some(v)
  {
    FlattenDistinct(h.buckets, h.hash, |h.buckets|);
    forall k, v ensures Entry(k, v) in ForEach(h) <==> Get(h, k) == Some(v) {
      GetIffEntry(h, k, v);
    }
  }
}
