/** Secondary indexes (Index.h): a map from an index key to the references
    (table slots) of the rows carrying it, in one of two strategies — a hash
    table of reference lists or a B-tree. Both are measured against one
    reference meaning: the log of `(key, ref)` insertions since the last
    `Clear`. Lookups agree exactly with that log; range scans agree with it as
    multisets, and the B-tree strategy additionally returns them in key order. */
module Indexes {
  import opened Wrappers
  import opened Keys
  import H = HashTables
  import B = BTrees

  /** A row reference: the slot of the row in its table. */
  type Ref = nat

  /** The two implementations of the index interface. */
  datatype Index =
    | HashIndex(map_: H.HashTable<Key, seq<Ref>>)
    | BTreeIndex(tree: B.BTree<Ref>)

  const DefaultHashCapacity: nat := 1024

  /** One `Insert(key, ref)` call. */
  datatype Op = Op(key: Key, ref: Ref)

  // ---------------------------------------------------------------------
  // Reference meaning

  /** The refs inserted under `k`, oldest first. */
  function RefsOf(ops: seq<Op>, k: Key): seq<Ref> {
    if |ops| == 0 then []
    else RefsOf(ops[..|ops| - 1], k) + (if ops[|ops| - 1].key == k then [ops[|ops| - 1].ref] else [])
  }

  /** The refs inserted under a key in `[from, to]`, in insertion order. */
  function RangeRefs(ops: seq<Op>, from: Key, to: Key): seq<Ref> {
    if |ops| == 0 then []
    else
      var o := ops[|ops| - 1];
      RangeRefs(ops[..|ops| - 1], from, to) + (if InRange(o.key, from, to) then [o.ref] else [])
  }

  /** What a lookup of `k` should see: nothing for a key never inserted. */
  function Expected(ops: seq<Op>, k: Key): Option<seq<Ref>> {
    if RefsOf(ops, k) == [] then None else Some(RefsOf(ops, k))
  }

  /** The insertions `Build` performs: one per ref, keyed by the selector. */
  function BuildOps(refs: seq<Ref>, keyOf: Ref -> Key): (ops: seq<Op>)
    ensures |ops| == |refs|
    ensures forall i :: 0 <= i < |refs| ==> ops[i] == Op(keyOf(refs[i]), refs[i])
  {
    if |refs| == 0 then [] else [Op(keyOf(refs[0]), refs[0])] + BuildOps(refs[1..], keyOf)
  }

  // ---------------------------------------------------------------------
  // Representation

  ghost predicate Valid(ix: Index) {
    match ix
    case HashIndex(m) => H.Valid(m)
    case BTreeIndex(tr) => B.Valid(tr)
  }

  /** The refs stored under `k`, as the underlying structure holds them. */
  ghost function View(ix: Index, k: Key): Option<seq<Ref>> {
    match ix
    case HashIndex(m) => H.Get(m, k)
    case BTreeIndex(tr) => B.AbsFind(B.InOrder(tr.root), k)
  }

  /** `ix` holds exactly the insertions of `ops`. */
  ghost predicate Models(ix: Index, ops: seq<Op>) {
    Valid(ix) && forall k :: View(ix, k) == Expected(ops, k)
  }

  predicate SameKind(a: Index, b: Index) {
    a.HashIndex? == b.HashIndex?
  }

  // ---------------------------------------------------------------------
  // Operations

  /** `HashIndex(initialCapacity)`: the hash function of the key type is a
      parameter. */
  function NewHashIndex(hash: Key -> nat, initialCapacity: nat := DefaultHashCapacity): (ix: Index)
    ensures ix.HashIndex? && Models(ix, [])
    ensures initialCapacity >= 1 ==> H.Capacity(ix.map_) == initialCapacity
    ensures initialCapacity == 0 ==> H.Capacity(ix.map_) == 1
  {
    HashIndex(H.Create(hash, initialCapacity))
  }

  /** `BTreeIndex(minDegree)`. */
  function NewBTreeIndex(minDegree: nat := B.DefaultMinDegree): (ix: Index)
    ensures ix.BTreeIndex? && Models(ix, [])
    ensures minDegree >= 2 ==> ix.tree.t == minDegree
    ensures minDegree < 2 ==> ix.tree.t == 2
  {
    var tr := B.Create(minDegree);
    assert forall k :: B.AbsFind(B.InOrder(tr.root), k) == None;
    BTreeIndex(tr)
  }

  /** `Clear`: forgets every insertion, keeps the strategy and its sizing. */
  function Clear(ix: Index): (ix': Index)
    ensures SameKind(ix, ix')
    ensures ix.HashIndex? ==> H.Capacity(ix'.map_) == H.Capacity(ix.map_)
    ensures ix.BTreeIndex? ==> ix'.tree.t == ix.tree.t
    ensures Valid(ix) ==> Models(ix', [])
  {
    match ix
    case HashIndex(m) =>
      ClearHash(m);
      HashIndex(H.Clear(m))
    case BTreeIndex(tr) =>
      var tr' := B.Clear(tr);
      assert forall k :: B.AbsFind(B.InOrder(tr'.root), k) == None;
      BTreeIndex(tr')
  }

  lemma ClearHash(m: H.HashTable<Key, seq<Ref>>)
    ensures H.Valid(m) ==> H.Valid(H.Clear(m)) && forall k :: H.Get(H.Clear(m), k) == None
  {
    if H.Valid(m) {
      H.ClearSpec(m);
    }
  }

  /** `Insert(key, ref)`: appends `ref` to the list of `key` (the hash
      strategy creates the list `[ref]` for a new key). */
  function Insert(ix: Index, k: Key, r: Ref): (ix': Index)
    requires Valid(ix)
    ensures Valid(ix') && SameKind(ix, ix')
  {
    match ix
    case HashIndex(m) =>
      var cur := H.Get(m, k);
      var v := if cur.None? then [r] else cur.value + [r];
      H.SetSpec(m, k, v);
      HashIndex(H.Set(m, k, v))
    case BTreeIndex(tr) =>
      B.InsertSpec(tr, k, r);
      BTreeIndex(B.Insert(tr, k, r))
  }

  /** The loop of `Build`: inserts each ref under its selected key, in order. */
  function InsertAll(ix: Index, refs: seq<Ref>, keyOf: Ref -> Key): (ix': Index)
    requires Valid(ix)
    ensures Valid(ix') && SameKind(ix, ix')
    decreases |refs|
  {
    if |refs| == 0 then ix
    else InsertAll(Insert(ix, keyOf(refs[0]), refs[0]), refs[1..], keyOf)
  }

  /** `Build(refs, keySelector)`: `Clear`, then insert every ref. */
  function Build(ix: Index, refs: seq<Ref>, keyOf: Ref -> Key): (ix': Index)
    requires Valid(ix)
    ensures Valid(ix') && SameKind(ix, ix')
  {
    InsertAll(Clear(ix), refs, keyOf)
  }

  /** `FindEquals(key)`: the refs of `key`, empty for an unknown key. */
  function FindEquals(ix: Index, k: Key): seq<Ref>
    requires Valid(ix)
  {
    match ix
    case HashIndex(m) => H.Get(m, k).GetOr([])
    case BTreeIndex(tr) => B.FindEquals(tr, k)
  }

  /** The `ForEach` callback of the hash strategy's `FindRange`, run over the
      entries in bucket order. */
  function Gather(es: seq<H.Entry<Key, seq<Ref>>>, from: Key, to: Key): seq<Ref> {
    if |es| == 0 then []
    else (if InRange(es[0].key, from, to) then es[0].value else []) + Gather(es[1..], from, to)
  }

  /** `FindRange(from, to)`: the refs of every key in `[from, to]`. The hash
      strategy scans the whole table in bucket order; the B-tree walks in key
      order. */
  function FindRange(ix: Index, from: Key, to: Key): seq<Ref>
    requires Valid(ix)
  {
    match ix
    case HashIndex(m) => Gather(H.ForEach(m), from, to)
    case BTreeIndex(tr) => B.FindRange(tr, from, to)
  }

  // ---------------------------------------------------------------------
  // Log facts

  /** The log without the insertions under `k`. */
  function Without(ops: seq<Op>, k: Key): seq<Op> {
    if |ops| == 0 then []
    else
      var o := ops[|ops| - 1];
      var p := Without(ops[..|ops| - 1], k);
      if o.key == k then p else p + [o]
  }

  lemma {:induction false} WithoutMembers(ops: seq<Op>, k: Key)
    ensures forall o :: o in Without(ops, k) <==> o in ops && o.key != k
  {
    if |ops| > 0 {
      var o := ops[|ops| - 1];
      WithoutMembers(ops[..|ops| - 1], k);
      assert ops == ops[..|ops| - 1] + [o];
    }
  }

  lemma {:induction false} RefsOfWithout(ops: seq<Op>, k: Key, q: Key)
    requires q != k
    ensures RefsOf(Without(ops, k), q) == RefsOf(ops, q)
  {
    if |ops| > 0 {
      var o := ops[|ops| - 1];
      var p := Without(ops[..|ops| - 1], k);
      RefsOfWithout(ops[..|ops| - 1], k, q);
      if o.key != k {
        assert (p + [o])[..|p + [o]| - 1] == p;
      }
    }
  }

  /** The in-range refs of `ops` are those of `k` plus those of all other
      keys. */
  ghost predicate SplitsAt(ops: seq<Op>, k: Key, from: Key, to: Key) {
    multiset(RangeRefs(ops, from, to))
      == multiset(if InRange(k, from, to) then RefsOf(ops, k) else [])
         + multiset(RangeRefs(Without(ops, k), from, to))
  }

  lemma {:induction false} RangeRefsSplit(ops: seq<Op>, k: Key, from: Key, to: Key)
    ensures SplitsAt(ops, k, from, to)
  {
    if |ops| > 0 {
      var n := |ops| - 1;
      RangeRefsSplit(ops[..n], k, from, to);
      assert ops == ops[..n] + [ops[n]];
      if ops[n].key == k {
        SplitStepSame(ops[..n], ops[n], k, from, to);
      } else {
        SplitStepOther(ops[..n], ops[n], k, from, to);
      }
    }
  }

  lemma SplitStepSame(pre: seq<Op>, o: Op, k: Key, from: Key, to: Key)
    requires o.key == k && SplitsAt(pre, k, from, to)
    ensures SplitsAt(pre + [o], k, from, to)
  {
    var ops := pre + [o];
    RangeRefsAppend(pre, o, from, to);
    RefsOfAppend(pre, o, k);
    WithoutAppend(pre, o, k);
    var tail: seq<Ref> := if InRange(k, from, to) then [o.ref] else [];
    var here: seq<Ref> := if InRange(k, from, to) then RefsOf(pre, k) else [];
    assert (if InRange(k, from, to) then RefsOf(ops, k) else []) == here + tail;
  }

  lemma SplitStepOther(pre: seq<Op>, o: Op, k: Key, from: Key, to: Key)
    requires o.key != k && SplitsAt(pre, k, from, to)
    ensures SplitsAt(pre + [o], k, from, to)
  {
    RangeRefsAppend(pre, o, from, to);
    RefsOfAppend(pre, o, k);
    WithoutAppend(pre, o, k);
    RangeRefsAppend(Without(pre, k), o, from, to);
  }

  lemma RangeRefsAppend(ops: seq<Op>, o: Op, from: Key, to: Key)
    ensures RangeRefs(ops + [o], from, to)
         == RangeRefs(ops, from, to) + (if InRange(o.key, from, to) then [o.ref] else [])
  {
    assert (ops + [o])[..|ops|] == ops;
  }

  lemma WithoutAppend(ops: seq<Op>, o: Op, k: Key)
    ensures Without(ops + [o], k) == if o.key == k then Without(ops, k) else Without(ops, k) + [o]
  {
    assert (ops + [o])[..|ops|] == ops;
  }

  lemma {:induction false} RefsOfAppend(ops: seq<Op>, o: Op, k: Key)
    ensures RefsOf(ops + [o], k) == RefsOf(ops, k) + (if o.key == k then [o.ref] else [])
  {
    assert (ops + [o])[..|ops|] == ops;
  }

  /** A key occurs in the log exactly when it has refs. */
  lemma {:induction false} RefsOfNonEmpty(ops: seq<Op>, o: Op)
    requires o in ops
    ensures RefsOf(ops, o.key) != []
  {
    var n := |ops| - 1;
    if ops[n] != o {
      assert o in ops[..n];
      RefsOfNonEmpty(ops[..n], o);
    }
  }

  /** Every ref of a range scan comes from an insertion under an in-range key. */
  lemma {:induction false} RangeRefsMember(ops: seq<Op>, from: Key, to: Key, r: Ref)
    requires r in RangeRefs(ops, from, to)
    ensures exists o :: o in ops && o.ref == r && InRange(o.key, from, to)
  {
    var n := |ops| - 1;
    var o := ops[n];
    if r in RangeRefs(ops[..n], from, to) {
      RangeRefsMember(ops[..n], from, to, r);
      var o' :| o' in ops[..n] && o'.ref == r && InRange(o'.key, from, to);
      assert o' in ops;
    } else {
      assert o.ref == r && InRange(o.key, from, to);
    }
  }

  // ---------------------------------------------------------------------
  // Insertion semantics

  /** `Insert` adds exactly one insertion to what the index holds. */
  lemma InsertModels(ix: Index, ops: seq<Op>, k: Key, r: Ref)
    requires Models(ix, ops)
    ensures Models(Insert(ix, k, r), ops + [Op(k, r)])
  {
    if ix.HashIndex? {
      InsertHashModels(ix.map_, ops, k, r);
    } else {
      InsertTreeModels(ix.tree, ops, k, r);
    }
  }

  lemma InsertHashModels(m: H.HashTable<Key, seq<Ref>>, ops: seq<Op>, k: Key, r: Ref)
    requires Models(HashIndex(m), ops)
    ensures Models(Insert(HashIndex(m), k, r), ops + [Op(k, r)])
  {
    var cur := H.Get(m, k);
    var v := if cur.None? then [r] else cur.value + [r];
    H.SetSpec(m, k, v);
    assert View(HashIndex(m), k) == Expected(ops, k);
    assert v == cur.GetOr([]) + [r];
    forall q ensures View(HashIndex(H.Set(m, k, v)), q) == Expected(ops + [Op(k, r)], q) {
      ExpectedAppend(ops, k, r, q);
      assert View(HashIndex(m), q) == Expected(ops, q);
    }
  }

  lemma InsertTreeModels(tr: B.BTree<Ref>, ops: seq<Op>, k: Key, r: Ref)
    requires Models(BTreeIndex(tr), ops)
    ensures Models(Insert(BTreeIndex(tr), k, r), ops + [Op(k, r)])
  {
    var s := B.InOrder(tr.root);
    B.InsertSpec(tr, k, r);
    assert View(BTreeIndex(tr), k) == Expected(ops, k);
    forall q ensures View(BTreeIndex(B.Insert(tr, k, r)), q) == Expected(ops + [Op(k, r)], q) {
      ExpectedAppend(ops, k, r, q);
      B.AbsFindInsert(s, k, r, q);
      assert View(BTreeIndex(tr), q) == Expected(ops, q);
    }
  }

  /** One more insertion under `k` extends the refs of `k` alone. */
  lemma ExpectedAppend(ops: seq<Op>, k: Key, r: Ref, q: Key)
    ensures Expected(ops + [Op(k, r)], q)
         == if q == k then Some(Expected(ops, k).GetOr([]) + [r]) else Expected(ops, q)
  {
    RefsOfAppend(ops, Op(k, r), q);
    if q == k {
      assert Expected(ops, k).GetOr([]) == RefsOf(ops, k);
      assert |RefsOf(ops + [Op(k, r)], k)| > 0;
    } else {
      assert RefsOf(ops + [Op(k, r)], q) == RefsOf(ops, q) + [];
      assert RefsOf(ops, q) + [] == RefsOf(ops, q);
    }
  }

  lemma {:induction false} InsertAllModels(ix: Index, ops: seq<Op>, refs: seq<Ref>, keyOf: Ref -> Key)
    requires Models(ix, ops)
    ensures Models(InsertAll(ix, refs, keyOf), ops + BuildOps(refs, keyOf))
    decreases |refs|
  {
    if |refs| == 0 {
      assert ops + BuildOps(refs, keyOf) == ops;
    } else {
      var o := Op(keyOf(refs[0]), refs[0]);
      InsertModels(ix, ops, o.key, o.ref);
      InsertAllModels(Insert(ix, o.key, o.ref), ops + [o], refs[1..], keyOf);
      assert ops + [o] + BuildOps(refs[1..], keyOf) == ops + BuildOps(refs, keyOf);
    }
  }

  /** After `Build(refs, keyOf)` the index holds exactly one insertion per ref,
      under its selected key, whatever it held before. */
  lemma BuildModels(ix: Index, refs: seq<Ref>, keyOf: Ref -> Key)
    requires Valid(ix)
    ensures Models(Build(ix, refs, keyOf), BuildOps(refs, keyOf))
  {
    InsertAllModels(Clear(ix), [], refs, keyOf);
    assert [] + BuildOps(refs, keyOf) == BuildOps(refs, keyOf);
  }

  // ---------------------------------------------------------------------
  // Lookup semantics

  /** `FindEquals(k)` returns the refs inserted under `k`, oldest first. */
  lemma FindEqualsSpec(ix: Index, ops: seq<Op>, k: Key)
    requires Models(ix, ops)
    ensures FindEquals(ix, k) == RefsOf(ops, k)
  {
    assert View(ix, k) == Expected(ops, k);
    if ix.BTreeIndex? {
      B.FindEqualsSpec(ix.tree, k);
    }
  }

  // ---------------------------------------------------------------------
  // Range semantics

  ghost predicate KeyIn(s: seq<B.Slot<Ref>>, k: Key) {
    exists i :: 0 <= i < |s| && s[i].key == k
  }

  /** `s` lists each key of the log once, with its refs. */
  ghost predicate Tabulates(s: seq<B.Slot<Ref>>, ops: seq<Op>) {
    && (forall i, j :: 0 <= i < j < |s| ==> s[i].key != s[j].key)
    && (forall i :: 0 <= i < |s| ==> s[i].refs == RefsOf(ops, s[i].key))
    && (forall o :: o in ops ==> KeyIn(s, o.key))
  }

  /** Scanning any table of the log yields the in-range insertions, in some
      order. */
  lemma {:induction false} TabulatedRange(s: seq<B.Slot<Ref>>, ops: seq<Op>, from: Key, to: Key)
    requires Tabulates(s, ops)
    ensures multiset(B.AbsRange(s, from, to)) == multiset(RangeRefs(ops, from, to))
    decreases |s|
  {
    if |s| > 0 {
      var k := s[0].key;
      var w := Without(ops, k);
      var s' := s[1..];
      WithoutMembers(ops, k);
      forall i | 0 <= i < |s'| ensures s'[i].refs == RefsOf(w, s'[i].key) {
        assert s'[i] == s[i + 1];
        RefsOfWithout(ops, k, s'[i].key);
      }
      forall o | o in w ensures KeyIn(s', o.key) {
        assert KeyIn(s, o.key);
        var i :| 0 <= i < |s| && s[i].key == o.key;
        assert s'[i - 1] == s[i];
      }
      TabulatedRange(s', w, from, to);
      RangeRefsSplit(ops, k, from, to);
      assert SplitsAt(ops, k, from, to);
    }
  }

  function ToSlots(es: seq<H.Entry<Key, seq<Ref>>>): (s: seq<B.Slot<Ref>>)
    ensures |s| == |es|
    ensures forall i :: 0 <= i < |es| ==> s[i] == B.Slot(es[i].key, es[i].value)
  {
    seq(|es|, i requires 0 <= i < |es| => B.Slot(es[i].key, es[i].value))
  }

  lemma {:induction false} GatherAsRange(es: seq<H.Entry<Key, seq<Ref>>>, from: Key, to: Key)
    ensures Gather(es, from, to) == B.AbsRange(ToSlots(es), from, to)
    decreases |es|
  {
    if |es| > 0 {
      assert ToSlots(es)[1..] == ToSlots(es[1..]);
      GatherAsRange(es[1..], from, to);
    }
  }

  /** The hash table's entries tabulate the log it models. */
  lemma HashTabulates(m: H.HashTable<Key, seq<Ref>>, ops: seq<Op>)
    requires Models(HashIndex(m), ops)
    ensures Tabulates(ToSlots(H.ForEach(m)), ops)
  {
    var es := H.ForEach(m);
    var s := ToSlots(es);
    H.ForEachSpec(m);
    forall i | 0 <= i < |s| ensures s[i].refs == RefsOf(ops, s[i].key) {
      assert es[i] in es;
      assert View(HashIndex(m), es[i].key) == Expected(ops, es[i].key);
    }
    forall o | o in ops ensures KeyIn(s, o.key) {
      RefsOfNonEmpty(ops, o);
      assert View(HashIndex(m), o.key) == Expected(ops, o.key);
      assert H.Entry(o.key, RefsOf(ops, o.key)) in es;
      var i :| 0 <= i < |es| && es[i] == H.Entry(o.key, RefsOf(ops, o.key));
      assert s[i].key == o.key;
    }
  }

  /** In a key-sorted sequence each key is found at its own slot. */
  lemma {:induction false} SortedFindAt(s: seq<B.Slot<Ref>>, i: nat)
    requires B.Sorted(s) && i < |s|
    ensures B.AbsFind(s, s[i].key) == Some(s[i].refs)
    decreases i
  {
    if i > 0 {
      assert B.Sorted(s[1..]) by {
        forall a, b | 0 <= a < b < |s[1..]| ensures Less(s[1..][a].key, s[1..][b].key) {
          assert s[1..][a] == s[a + 1] && s[1..][b] == s[b + 1];
        }
      }
      LessIrreflexive(s[0].key);
      assert s[1..][i - 1] == s[i];
      SortedFindAt(s[1..], i - 1);
    }
  }

  lemma {:induction false} FindSomeKeyIn(s: seq<B.Slot<Ref>>, k: Key)
    requires B.AbsFind(s, k).Some?
    ensures KeyIn(s, k)
    decreases |s|
  {
    if s[0].key != k {
      FindSomeKeyIn(s[1..], k);
      var i :| 0 <= i < |s[1..]| && s[1..][i].key == k;
      assert s[i + 1].key == k;
    }
  }

  /** The B-tree's in-order slots tabulate the log it models. */
  lemma TreeTabulates(tr: B.BTree<Ref>, ops: seq<Op>)
    requires Models(BTreeIndex(tr), ops)
    ensures Tabulates(B.InOrder(tr.root), ops)
  {
    var s := B.InOrder(tr.root);
    forall i, j | 0 <= i < j < |s| ensures s[i].key != s[j].key {
      LessIrreflexive(s[i].key);
    }
    forall i | 0 <= i < |s| ensures s[i].refs == RefsOf(ops, s[i].key) {
      SortedFindAt(s, i);
      assert View(BTreeIndex(tr), s[i].key) == Expected(ops, s[i].key);
    }
    forall o | o in ops ensures KeyIn(s, o.key) {
      RefsOfNonEmpty(ops, o);
      assert View(BTreeIndex(tr), o.key) == Expected(ops, o.key);
      FindSomeKeyIn(s, o.key);
    }
  }

  /** `FindRange(from, to)` returns the refs inserted under a key in
      `[from, to]`, each as often as it was inserted, and nothing when
      `to < from`. */
  lemma FindRangeSpec(ix: Index, ops: seq<Op>, from: Key, to: Key)
    requires Models(ix, ops)
    ensures multiset(FindRange(ix, from, to)) == multiset(RangeRefs(ops, from, to))
  {
    match ix
    case HashIndex(m) =>
      HashTabulates(m, ops);
      GatherAsRange(H.ForEach(m), from, to);
      TabulatedRange(ToSlots(H.ForEach(m)), ops, from, to);
    case BTreeIndex(tr) =>
      TreeTabulates(tr, ops);
      B.FindRangeSpec(tr, from, to);
      TabulatedRange(B.InOrder(tr.root), ops, from, to);
  }

  /** The two strategies are interchangeable: holding the same insertions,
      they return the same `FindEquals` lists and the same `FindRange`
      refs up to order. */
  lemma StrategiesAgree(a: Index, b: Index, ops: seq<Op>, k: Key, from: Key, to: Key)
    requires Models(a, ops) && Models(b, ops)
    ensures FindEquals(a, k) == FindEquals(b, k)
    ensures multiset(FindRange(a, from, to)) == multiset(FindRange(b, from, to))
  {
    FindEqualsSpec(a, ops, k);
    FindEqualsSpec(b, ops, k);
    FindRangeSpec(a, ops, from, to);
    FindRangeSpec(b, ops, from, to);
  }

  // ---------------------------------------------------------------------
  // Key order of range results

  /** Every insertion's ref is one whose selected key it was inserted under,
      as `Build` guarantees. */
  ghost predicate KeyedBy(ops: seq<Op>, keyOf: Ref -> Key) {
    forall o :: o in ops ==> keyOf(o.ref) == o.key
  }

  ghost predicate Ascending(out: seq<Ref>, keyOf: Ref -> Key) {
    forall i, j :: 0 <= i < j < |out| ==> !Less(keyOf(out[j]), keyOf(out[i]))
  }

  lemma BuildKeyed(refs: seq<Ref>, keyOf: Ref -> Key)
    ensures KeyedBy(BuildOps(refs, keyOf), keyOf)
  {
  }

  lemma {:induction false} RefsOfKeyed(ops: seq<Op>, k: Key, keyOf: Ref -> Key, r: Ref)
    requires KeyedBy(ops, keyOf) && r in RefsOf(ops, k)
    ensures keyOf(r) == k
  {
    var n := |ops| - 1;
    if r in RefsOf(ops[..n], k) {
      assert forall o :: o in ops[..n] ==> o in ops;
      RefsOfKeyed(ops[..n], k, keyOf, r);
    } else {
      assert ops[n] in ops;
    }
  }

  lemma {:induction false} AbsRangeMember(s: seq<B.Slot<Ref>>, from: Key, to: Key, r: Ref)
    requires r in B.AbsRange(s, from, to)
    ensures exists i :: 0 <= i < |s| && r in s[i].refs && InRange(s[i].key, from, to)
    decreases |s|
  {
    if !(InRange(s[0].key, from, to) && r in s[0].refs) {
      AbsRangeMember(s[1..], from, to, r);
      var i :| 0 <= i < |s[1..]| && r in s[1..][i].refs && InRange(s[1..][i].key, from, to);
      assert s[i + 1] == s[1..][i];
    }
  }

  /** A range scan over key-sorted slots whose refs carry their slot's key
      returns refs in ascending key order, all within the range. */
  lemma {:induction false} SortedRangeAscending(s: seq<B.Slot<Ref>>, from: Key, to: Key, keyOf: Ref -> Key)
    requires B.Sorted(s)
    requires forall i, r :: 0 <= i < |s| && r in s[i].refs ==> keyOf(r) == s[i].key
    ensures Ascending(B.AbsRange(s, from, to), keyOf)
    decreases |s|
  {
    if |s| > 0 {
      var here := if InRange(s[0].key, from, to) then s[0].refs else [];
      var rest := B.AbsRange(s[1..], from, to);
      var out := here + rest;
      assert B.Sorted(s[1..]) by {
        forall a, b | 0 <= a < b < |s[1..]| ensures Less(s[1..][a].key, s[1..][b].key) {
          assert s[1..][a] == s[a + 1] && s[1..][b] == s[b + 1];
        }
      }
      forall i, r | 0 <= i < |s[1..]| && r in s[1..][i].refs ensures keyOf(r) == s[1..][i].key {
        assert s[1..][i] == s[i + 1];
      }
      SortedRangeAscending(s[1..], from, to, keyOf);
      forall j | 0 <= j < |rest| ensures Less(s[0].key, keyOf(rest[j])) {
        assert rest[j] in rest;
        AbsRangeMember(s[1..], from, to, rest[j]);
        var i :| 0 <= i < |s[1..]| && rest[j] in s[1..][i].refs && InRange(s[1..][i].key, from, to);
        assert s[1..][i] == s[i + 1];
      }
      forall i, j | 0 <= i < j < |out| ensures !Less(keyOf(out[j]), keyOf(out[i])) {
        if j < |here| {
          assert out[i] in s[0].refs && out[j] in s[0].refs;
          LessIrreflexive(s[0].key);
        } else if i < |here| {
          assert out[i] in s[0].refs;
          assert out[j] == rest[j - |here|];
          LessAsymmetric(s[0].key, keyOf(out[j]));
        } else {
          assert out[i] == rest[i - |here|] && out[j] == rest[j - |here|];
        }
      }
    }
  }

  /** Every ref a range scan returns has its selected key in `[from, to]`;
      the B-tree strategy returns them in ascending key order. */
  lemma FindRangeOrdered(ix: Index, ops: seq<Op>, keyOf: Ref -> Key, from: Key, to: Key)
    requires Models(ix, ops) && KeyedBy(ops, keyOf)
    ensures forall r :: r in FindRange(ix, from, to) ==> InRange(keyOf(r), from, to)
    ensures ix.BTreeIndex? ==> Ascending(FindRange(ix, from, to), keyOf)
  {
    var out := FindRange(ix, from, to);
    FindRangeSpec(ix, ops, from, to);
    forall r | r in out ensures InRange(keyOf(r), from, to) {
      assert r in multiset(RangeRefs(ops, from, to));
      RangeRefsMember(ops, from, to, r);
    }
    if ix.BTreeIndex? {
      var tr := ix.tree;
      var s := B.InOrder(tr.root);
      TreeTabulates(tr, ops);
      B.FindRangeSpec(tr, from, to);
      forall i, r | 0 <= i < |s| && r in s[i].refs ensures keyOf(r) == s[i].key {
        RefsOfKeyed(ops, s[i].key, keyOf, r);
      }
      SortedRangeAscending(s, from, to, keyOf);
    }
  }
}
