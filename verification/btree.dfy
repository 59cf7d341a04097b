/** A B-tree multimap from keys to lists of refs, as in `BTree.h`.
    Nodes are immutable values: `InsertNonFull` returns the updated node
    instead of mutating it, and `unique_ptr` children become a sequence of
    child nodes. `keys[i]` and `values[i]` of the source are paired into one
    `Slot`. The meaning of a node is its in-order sequence of slots, and the
    operations are proved against plain functions on that sequence. */
module BTrees {
  import opened Wrappers
  import opened Keys

  /** `keys[i]` of a node together with `values[i]`, the refs stored under it. */
  datatype Slot<R> = Slot(key: Key, refs: seq<R>)

  datatype Node<R> = Node(leaf: bool, slots: seq<Slot<R>>, children: seq<Node<R>>)

  /** `t` is the minimum degree of the source (`t_`). */
  datatype BTree<R> = BTree(t: nat, root: Node<R>)

  const DefaultMinDegree: int := 16

  function EmptyLeaf<R>(): Node<R> {
    Node(true, [], [])
  }

  /** Keys per node are capped at `2t-1` (`MaxKeys`). */
  function MaxKeys(t: nat): nat
    requires t >= 1
  {
    2 * t - 1
  }

  /** The constructor: a requested minimum degree below 2 becomes 2, and the
      root is a single empty leaf. */
  function Create<R>(minDegree: int := DefaultMinDegree): (tr: BTree<R>)
    ensures tr.t >= 2
    ensures minDegree >= 2 ==> tr.t == minDegree
    ensures minDegree < 2 ==> tr.t == 2
    ensures Valid(tr) && InOrder(tr.root) == []
  {
    var t := if minDegree < 2 then 2 else minDegree;
    assert InOrder(EmptyLeaf<R>()) == [];
    BTree(t, EmptyLeaf())
  }

  /** `Clear` replaces the root by an empty leaf and keeps the degree. */
  function Clear<R>(tr: BTree<R>): (r: BTree<R>)
    ensures r.t == tr.t && InOrder(r.root) == []
    ensures tr.t >= 2 ==> Valid(r)
  {
    assert InOrder(EmptyLeaf<R>()) == [];
    tr.(root := EmptyLeaf())
  }

  // ---------------------------------------------------------------------
  // Meaning of a node: its in-order slot sequence

  /** `subs[0] es[0] subs[1] es[1] ... subs[m]` for `m = |es|`; with no
      sub-sequences at all (a leaf) it is `es` itself. */
  ghost function Weave<R>(es: seq<Slot<R>>, subs: seq<seq<Slot<R>>>): seq<Slot<R>>
    decreases |es|
  {
    if |subs| == 0 then es
    else if |es| == 0 then subs[0]
    else subs[0] + [es[0]] + Weave(es[1..], subs[1..])
  }

  ghost function ChildOrders<R>(n: Node<R>): seq<seq<Slot<R>>>
    decreases n, 0
  {
    seq(|n.children|, i requires 0 <= i < |n.children| => InOrder(n.children[i]))
  }

  /** The slots of the subtree rooted at `n`, left to right. */
  ghost function InOrder<R>(n: Node<R>): seq<Slot<R>>
    decreases n, 1
  {
    Weave(n.slots, ChildOrders(n))
  }

  /** Keys strictly ascending along the sequence. */
  ghost predicate Sorted<R>(s: seq<Slot<R>>) {
    forall i, j :: 0 <= i < j < |s| ==> Less(s[i].key, s[j].key)
  }

  ghost predicate Below<R>(s: seq<Slot<R>>, k: Key) {
    forall i :: 0 <= i < |s| ==> Less(s[i].key, k)
  }

  ghost predicate Above<R>(k: Key, s: seq<Slot<R>>) {
    forall i :: 0 <= i < |s| ==> Less(k, s[i].key)
  }

  // ---------------------------------------------------------------------
  // Structural invariants

  /** Node shape for minimum degree `t`: at most `2t-1` keys, no children in
      a leaf and `keys+1` children in an internal node, and every child holds
      at least `t-1` keys and is itself well shaped. Only the root may hold
      fewer than `t-1` keys. */
  ghost predicate Shape<R>(n: Node<R>, t: nat)
    decreases n
  {
    && |n.slots| + 1 <= 2 * t
    && Wired(n)
    && forall i :: 0 <= i < |n.children| ==> t <= |n.children[i].slots| + 1 && Shape(n.children[i], t)
  }

  /** Every leaf of `n` lies exactly `h` levels below it. */
  ghost predicate AtHeight<R>(n: Node<R>, h: nat)
    decreases n
  {
    if n.leaf then h == 0
    else h > 0 && forall i :: 0 <= i < |n.children| ==> AtHeight(n.children[i], h - 1)
  }

  /** Length of the leftmost path. */
  ghost function Depth<R>(n: Node<R>): nat
    decreases n
  {
    if n.leaf || |n.children| == 0 then 0 else 1 + Depth(n.children[0])
  }

  ghost predicate Valid<R>(tr: BTree<R>) {
    && tr.t >= 2
    && Shape(tr.root, tr.t)
    && AtHeight(tr.root, Depth(tr.root))
    && Sorted(InOrder(tr.root))
  }

  ghost function Sum(s: seq<nat>): nat {
    if |s| == 0 then 0 else Sum(s[..|s| - 1]) + s[|s| - 1]
  }

  ghost function ChildSizes<R>(n: Node<R>): seq<nat>
    decreases n, 0
  {
    seq(|n.children|, i requires 0 <= i < |n.children| => Size(n.children[i]))
  }

  /** Number of nodes; the measure that makes `InsertNonFull` terminate. */
  ghost function Size<R>(n: Node<R>): nat
    decreases n, 1
  {
    1 + Sum(ChildSizes(n))
  }

  /** One level of the shape: no children in a leaf, `keys+1` otherwise. */
  ghost predicate Wired<R>(n: Node<R>) {
    && (n.leaf ==> |n.children| == 0)
    && (!n.leaf ==> |n.children| == |n.slots| + 1)
  }

  // ---------------------------------------------------------------------
  // Reference behaviour on the in-order sequence

  /** Insert `r` under `k` into a sorted slot sequence: append to the refs
      of an equal key, otherwise add `Slot(k, [r])` before the first larger key. */
  ghost function AbsInsert<R>(s: seq<Slot<R>>, k: Key, r: R): seq<Slot<R>>
    decreases |s|
  {
    if |s| == 0 then [Slot(k, [r])]
    else if s[0].key == k then [Slot(k, s[0].refs + [r])] + s[1..]
    else if Less(k, s[0].key) then [Slot(k, [r])] + s
    else [s[0]] + AbsInsert(s[1..], k, r)
  }

  /** The refs stored under `k`, if `k` occurs. */
  ghost function AbsFind<R>(s: seq<Slot<R>>, k: Key): Option<seq<R>>
    decreases |s|
  {
    if |s| == 0 then None
    else if s[0].key == k then Some(s[0].refs)
    else AbsFind(s[1..], k)
  }

  /** The refs of every slot whose key lies in `[from, to]`, in sequence order. */
  ghost function AbsRange<R>(s: seq<Slot<R>>, from: Key, to: Key): seq<R>
    decreases |s|
  {
    if |s| == 0 then []
    else (if InRange(s[0].key, from, to) then s[0].refs else []) + AbsRange(s[1..], from, to)
  }

  // ---------------------------------------------------------------------
  // Lemmas about Weave

  /** Cutting the woven sequence at sub-sequence `s`. */
  lemma {:induction false} WeaveAt<R>(e1: seq<Slot<R>>, e2: seq<Slot<R>>,
                                      s1: seq<seq<Slot<R>>>, s: seq<Slot<R>>, s2: seq<seq<Slot<R>>>)
    requires |s1| == |e1| && |s2| == |e2|
    ensures Weave(e1 + e2, s1 + [s] + s2) == Weave(e1, s1 + [[]]) + s + Weave(e2, [[]] + s2)
    decreases |e1|
  {
    if |e1| == 0 {
      assert e1 + e2 == e2 && s1 + [s] + s2 == [s] + s2;
      assert Weave(e1, s1 + [[]]) == [];
      if |e2| > 0 {
        assert ([s] + s2)[1..] == s2 && ([[]] + s2)[1..] == s2;
      }
    } else {
      WeaveAt(e1[1..], e2, s1[1..], s, s2);
      assert (e1 + e2)[1..] == e1[1..] + e2;
      assert (s1 + [s] + s2)[1..] == s1[1..] + [s] + s2;
      assert (s1 + [[]])[1..] == s1[1..] + [[]];
      assert (e1 + e2)[0] == e1[0] && (s1 + [s] + s2)[0] == s1[0] && (s1 + [[]])[0] == s1[0];
    }
  }

  /** Cutting the woven sequence at slot `e`. */
  lemma {:induction false} WeaveJoin<R>(e1: seq<Slot<R>>, e: Slot<R>, e2: seq<Slot<R>>,
                                        s1: seq<seq<Slot<R>>>, s2: seq<seq<Slot<R>>>)
    requires |s1| == |e1| + 1 && |s2| == |e2| + 1
    ensures Weave(e1 + [e] + e2, s1 + s2) == Weave(e1, s1) + [e] + Weave(e2, s2)
    decreases |e1|
  {
    if |e1| == 0 {
      assert e1 + [e] + e2 == [e] + e2;
      assert ([e] + e2)[1..] == e2 && (s1 + s2)[1..] == s2;
    } else {
      WeaveJoin(e1[1..], e, e2, s1[1..], s2);
      assert (e1 + [e] + e2)[1..] == e1[1..] + [e] + e2;
      assert (s1 + s2)[1..] == s1[1..] + s2;
    }
  }

  // ---------------------------------------------------------------------
  // Lemmas about sortedness

  lemma SortedParts<R>(a: seq<Slot<R>>, e: Slot<R>, b: seq<Slot<R>>)
    requires Sorted(a + [e] + b)
    ensures Sorted(a) && Sorted(b) && Below(a, e.key) && Above(e.key, b)
  {
    var s := a + [e] + b;
    assert forall i :: 0 <= i < |a| ==> s[i] == a[i];
    assert s[|a|] == e;
    assert forall i :: 0 <= i < |b| ==> s[|a| + 1 + i] == b[i];
  }

  lemma SortedInfix<R>(a: seq<Slot<R>>, m: seq<Slot<R>>, b: seq<Slot<R>>)
    requires Sorted(a + m + b)
    ensures Sorted(m) && Sorted(a + m) && Sorted(m + b)
  {
    var s := a + m + b;
    assert forall i :: 0 <= i < |a| + |m| ==> (a + m)[i] == s[i];
    assert forall i :: 0 <= i < |m| + |b| ==> (m + b)[i] == s[|a| + i];
    assert forall i :: 0 <= i < |m| ==> m[i] == s[|a| + i];
  }

  lemma SortedCons<R>(e: Slot<R>, s: seq<Slot<R>>)
    requires Sorted(s) && Above(e.key, s)
    ensures Sorted([e] + s)
  {
    var c := [e] + s;
    assert forall i :: 1 <= i < |c| ==> c[i] == s[i - 1];
  }

  lemma BelowTrans<R>(s: seq<Slot<R>>, k1: Key, k2: Key)
    requires Below(s, k1) && Less(k1, k2)
    ensures Below(s, k2)
  {
    forall i | 0 <= i < |s|
      ensures Less(s[i].key, k2)
    {
      LessTransitive(s[i].key, k1, k2);
    }
  }

  lemma AboveTrans<R>(k1: Key, k2: Key, s: seq<Slot<R>>)
    requires Less(k1, k2) && Above(k2, s)
    ensures Above(k1, s)
  {
    forall i | 0 <= i < |s|
      ensures Less(k1, s[i].key)
    {
      LessTransitive(k1, k2, s[i].key);
    }
  }

  /** Everything in a sorted sequence is at most its last element. */
  lemma SortedLastBelow<R>(s: seq<Slot<R>>, k: Key)
    requires Sorted(s) && |s| > 0 && Less(s[|s| - 1].key, k)
    ensures Below(s, k)
  {
    forall i | 0 <= i < |s|
      ensures Less(s[i].key, k)
    {
      if i < |s| - 1 {
        LessTransitive(s[i].key, s[|s| - 1].key, k);
      }
    }
  }

  lemma SortedFirstAbove<R>(k: Key, s: seq<Slot<R>>)
    requires Sorted(s) && |s| > 0 && Less(k, s[0].key)
    ensures Above(k, s)
  {
    forall i | 0 <= i < |s|
      ensures Less(k, s[i].key)
    {
      if i > 0 {
        LessTransitive(k, s[0].key, s[i].key);
      }
    }
  }

  // ---------------------------------------------------------------------
  // Lemmas about the reference behaviour

  /** Slots entirely below `k` are passed over unchanged. */
  lemma {:induction false} AbsInsertLeft<R>(a: seq<Slot<R>>, b: seq<Slot<R>>, k: Key, r: R)
    requires Below(a, k)
    ensures AbsInsert(a + b, k, r) == a + AbsInsert(b, k, r)
    decreases |a|
  {
    if |a| > 0 {
      LessIrreflexive(k);
      LessAsymmetric(a[0].key, k);
      assert (a + b)[0] == a[0] && (a + b)[1..] == a[1..] + b;
      AbsInsertLeft(a[1..], b, k, r);
    } else {
      assert a + b == b;
    }
  }

  /** Slots entirely above `k` stay unchanged behind the insertion point. */
  lemma {:induction false} AbsInsertRight<R>(b: seq<Slot<R>>, c: seq<Slot<R>>, k: Key, r: R)
    requires Above(k, c)
    ensures AbsInsert(b + c, k, r) == AbsInsert(b, k, r) + c
    decreases |b|
  {
    if |b| == 0 {
      assert b + c == c;
      if |c| > 0 {
        LessIrreflexive(k);
      }
    } else {
      var h, tl := b[0], b[1..];
      assert b + c == [h] + (tl + c);
      if h.key == k {
        Regroup([Slot(k, h.refs + [r])], tl, c);
      } else if Less(k, h.key) {
        Regroup([Slot(k, [r])], b, c);
      } else {
        AbsInsertRight(tl, c, k, r);
        Regroup([h], AbsInsert(tl, k, r), c);
      }
    }
  }

  lemma Regroup<R>(a: seq<Slot<R>>, b: seq<Slot<R>>, c: seq<Slot<R>>)
    ensures a + (b + c) == (a + b) + c
  {
  }

  lemma {:induction false} AbsInsertAbove<R>(s: seq<Slot<R>>, k: Key, r: R, lo: Key)
    requires Above(lo, s) && Less(lo, k)
    ensures Above(lo, AbsInsert(s, k, r))
    decreases |s|
  {
    if |s| > 0 && s[0].key != k && !Less(k, s[0].key) {
      AbsInsertAbove(s[1..], k, r, lo);
    }
  }

  /** Inserting keeps a slot sequence strictly sorted. */
  lemma {:induction false} AbsInsertSorted<R>(s: seq<Slot<R>>, k: Key, r: R)
    requires Sorted(s)
    ensures Sorted(AbsInsert(s, k, r))
    decreases |s|
  {
    if |s| > 0 {
      assert s == [s[0]] + [] + s[1..];
      SortedParts([], s[0], s[1..]);
      if s[0].key == k {
        SortedCons(Slot(k, s[0].refs + [r]), s[1..]);
      } else if Less(k, s[0].key) {
        SortedFirstAbove(k, s);
        SortedCons(Slot(k, [r]), s);
      } else {
        LessTotal(k, s[0].key);
        AbsInsertSorted(s[1..], k, r);
        AbsInsertAbove(s[1..], k, r, s[0].key);
        SortedCons(s[0], AbsInsert(s[1..], k, r));
      }
    }
  }

  lemma {:induction false} AboveNotFound<R>(k: Key, s: seq<Slot<R>>)
    requires Above(k, s)
    ensures AbsFind(s, k) == None
    decreases |s|
  {
    if |s| > 0 {
      LessIrreflexive(k);
      AboveNotFound(k, s[1..]);
    }
  }

  lemma {:induction false} BelowNotFound<R>(s: seq<Slot<R>>, k: Key)
    requires Below(s, k)
    ensures AbsFind(s, k) == None
    decreases |s|
  {
    if |s| > 0 {
      LessIrreflexive(k);
      BelowNotFound(s[1..], k);
    }
  }

  /** A prefix that does not hold `k` does not affect the lookup. */
  lemma {:induction false} AbsFindSkip<R>(a: seq<Slot<R>>, b: seq<Slot<R>>, k: Key)
    requires AbsFind(a, k) == None
    ensures AbsFind(a + b, k) == AbsFind(b, k)
    decreases |a|
  {
    if |a| == 0 {
      assert a + b == b;
    } else {
      assert (a + b)[0] == a[0] && (a + b)[1..] == a[1..] + b;
      AbsFindSkip(a[1..], b, k);
    }
  }

  lemma {:induction false} AbsFindStop<R>(a: seq<Slot<R>>, b: seq<Slot<R>>, k: Key)
    requires AbsFind(b, k) == None
    ensures AbsFind(a + b, k) == AbsFind(a, k)
    decreases |a|
  {
    if |a| == 0 {
      assert a + b == b;
    } else {
      assert (a + b)[0] == a[0] && (a + b)[1..] == a[1..] + b;
      AbsFindStop(a[1..], b, k);
    }
  }

  /** After inserting `r` under `k`, the lookup of `k` gains `r` at the end
      of its list and every other key reads as before. */
  lemma {:induction false} AbsFindInsert<R>(s: seq<Slot<R>>, k: Key, r: R, q: Key)
    requires Sorted(s)
    ensures AbsFind(AbsInsert(s, k, r), q)
         == if q == k then Some(AbsFind(s, k).GetOr([]) + [r]) else AbsFind(s, q)
    decreases |s|
  {
    if |s| > 0 {
      assert s == [s[0]] + [] + s[1..];
      SortedParts([], s[0], s[1..]);
      if s[0].key == k {
      } else if Less(k, s[0].key) {
        SortedFirstAbove(k, s);
        AboveNotFound(k, s);
        var c := [Slot(k, [r])] + s;
        assert AbsInsert(s, k, r) == c;
        assert c[0].key == k && c[1..] == s;
        assert AbsFind(s, k).GetOr([]) + [r] == [r];
      } else {
        AbsFindInsert(s[1..], k, r, q);
      }
    } else {
      assert [Slot(k, [r])][1..] == [];
      assert AbsFind(s, k).GetOr([]) + [r] == [r];
    }
  }

  lemma {:induction false} AbsRangeConcat<R>(a: seq<Slot<R>>, b: seq<Slot<R>>, from: Key, to: Key)
    ensures AbsRange(a + b, from, to) == AbsRange(a, from, to) + AbsRange(b, from, to)
    decreases |a|
  {
    if |a| == 0 {
      assert a + b == b;
    } else {
      assert (a + b)[0] == a[0] && (a + b)[1..] == a[1..] + b;
      AbsRangeConcat(a[1..], b, from, to);
    }
  }

  /** Slots all above `to` contribute nothing to a range. */
  lemma {:induction false} AbsRangeAbove<R>(to: Key, s: seq<Slot<R>>, from: Key)
    requires Above(to, s)
    ensures AbsRange(s, from, to) == []
    decreases |s|
  {
    if |s| > 0 {
      AbsRangeAbove(to, s[1..], from);
    }
  }

  /** An inverted range `to < from` selects nothing. */
  lemma {:induction false} AbsRangeInverted<R>(s: seq<Slot<R>>, from: Key, to: Key)
    requires Less(to, from)
    ensures AbsRange(s, from, to) == []
    decreases |s|
  {
    if |s| > 0 {
      if InRange(s[0].key, from, to) {
        LessTotal(to, s[0].key);
        if Less(to, s[0].key) {
        } else if to == s[0].key {
        } else {
          LessTransitive(s[0].key, to, from);
        }
      }
      AbsRangeInverted(s[1..], from, to);
    }
  }

  // ---------------------------------------------------------------------
  // Node operations

  /** `lbIndex`: the first position whose key is not below `key`. On sorted
      keys this is what `std::lower_bound` returns. */
  function LbIndex<R>(slots: seq<Slot<R>>, key: Key): (p: nat)
    ensures p <= |slots|
    ensures forall j :: 0 <= j < p ==> Less(slots[j].key, key)
    ensures p < |slots| ==> !Less(slots[p].key, key)
    decreases |slots|
  {
    if |slots| == 0 || !Less(slots[0].key, key) then 0
    else 1 + LbIndex(slots[1..], key)
  }

  /** Append `r` to the refs of slot `p`. */
  function AppendRef<R>(x: Node<R>, p: nat, r: R): Node<R>
    requires p < |x.slots|
  {
    x.(slots := x.slots[p := Slot(x.slots[p].key, x.slots[p].refs + [r])])
  }

  /** `SplitChild(parent, i)` on a full child `y`: `y` keeps its first `t-1`
      slots (and `t` children), a new right sibling takes the last `t-1`
      (and `t` children) and is linked at `i+1`, and the median moves up
      into the parent at `i`. */
  function SplitChild<R>(x: Node<R>, i: nat, t: nat): Node<R>
    requires t >= 1 && i <= |x.slots| && i < |x.children|
    requires |x.children[i].slots| == MaxKeys(t)
    requires !x.children[i].leaf ==> |x.children[i].children| == 2 * t
  {
    var y := x.children[i];
    var mid := t - 1;
    var left := Node(y.leaf, y.slots[..mid], if y.leaf then y.children else y.children[..mid + 1]);
    var right := Node(y.leaf, y.slots[mid + 1..], if y.leaf then [] else y.children[mid + 1..]);
    Node(x.leaf, x.slots[..i] + [y.slots[mid]] + x.slots[i..], x.children[..i] + [left, right] + x.children[i + 1..])
  }

  /** `InsertNonFull`: insert into a node that has room for one more key.
      An equal key in the node gets `r` appended; a leaf gets a new slot at
      the lower-bound position; otherwise the insert goes down to child `pos`. */
  function InsertNonFull<R>(x: Node<R>, k: Key, r: R, t: nat): Node<R>
    requires t >= 2 && Shape(x, t) && |x.slots| < MaxKeys(t)
    decreases Size(x), 1
  {
    var pos := LbIndex(x.slots, k);
    if pos < |x.slots| && x.slots[pos].key == k then AppendRef(x, pos, r)
    else if x.leaf then x.(slots := x.slots[..pos] + [Slot(k, [r])] + x.slots[pos..])
    else InsertChild(x, pos, k, r, t)
  }

  /** The descent part of `InsertNonFull`: a full child `i` is split first,
      and the median just moved up decides between the two halves, or takes
      `r` itself when it equals `k`. */
  function InsertChild<R>(x: Node<R>, i: nat, k: Key, r: R, t: nat): Node<R>
    requires t >= 2 && Shape(x, t) && |x.slots| < MaxKeys(t) && !x.leaf && i <= |x.slots|
    decreases Size(x), 0
  {
    if |x.children[i].slots| == MaxKeys(t) then
      ChildShape(x, i, t);
      SplitChildShape(x, i, t);
      var x1 := SplitChild(x, i, t);
      if Less(x1.slots[i].key, k) then Descend(x1, i + 1, k, r, t)
      else if x1.slots[i].key == k then AppendRef(x1, i, r)
      else Descend(x1, i, k, r, t)
    else
      ChildShape(x, i, t);
      SizeChild(x, i);
      Descend(x, i, k, r, t)
  }

  /** The recursive call `InsertNonFull(*x.children[i], key, ref)`. */
  function Descend<R>(x: Node<R>, i: nat, k: Key, r: R, t: nat): Node<R>
    requires t >= 2 && Shape(x, t) && !x.leaf && i <= |x.slots|
    requires |x.children[i].slots| < MaxKeys(t)
    decreases Size(x.children[i]), 2
  {
    ChildShape(x, i, t);
    x.(children := x.children[i := InsertNonFull(x.children[i], k, r, t)])
  }

  /** `Insert`: a full root is split under a new root first, so the tree
      grows only at the top. */
  function Insert<R>(tr: BTree<R>, k: Key, r: R): BTree<R>
    requires Valid(tr)
  {
    if |tr.root.slots| == MaxKeys(tr.t) then
      var grown := Node(false, [], [tr.root]);
      GrownShape(tr);
      ChildShape(grown, 0, tr.t);
      SplitChildShape(grown, 0, tr.t);
      tr.(root := InsertNonFull(SplitChild(grown, 0, tr.t), k, r, tr.t))
    else
      tr.(root := InsertNonFull(tr.root, k, r, tr.t))
  }

  /** `FindPtr`: lower-bound descent to the slot holding `k`. */
  function FindPtr<R>(x: Node<R>, k: Key, ghost t: nat): Option<seq<R>>
    requires Shape(x, t)
    decreases x
  {
    var i := LbIndex(x.slots, k);
    if i < |x.slots| && x.slots[i].key == k then Some(x.slots[i].refs)
    else if x.leaf then None
    else FindPtr(x.children[i], k, t)
  }

  /** `FindEquals`: a copy of the refs under `k`, or empty. */
  function FindEquals<R>(tr: BTree<R>, k: Key): seq<R>
    requires Valid(tr)
  {
    FindPtr(tr.root, k, tr.t).GetOr([])
  }

  /** `RangeCollect`: in-order walk that stops at the first key above `to`. */
  function RangeCollect<R>(x: Node<R>, from: Key, to: Key, ghost t: nat): seq<R>
    requires Shape(x, t)
    decreases x, |x.slots| + 1
  {
    RangeFrom(x, 0, from, to, t)
  }

  /** The walk of `RangeCollect` from loop position `i` on. */
  function RangeFrom<R>(x: Node<R>, i: nat, from: Key, to: Key, ghost t: nat): seq<R>
    requires Shape(x, t) && i <= |x.slots|
    decreases x, |x.slots| - i
  {
    if i < |x.slots| then
      var below := if !x.leaf then RangeCollect(x.children[i], from, to, t) else [];
      var here := if InRange(x.slots[i].key, from, to) then x.slots[i].refs else [];
      var rest := if Less(to, x.slots[i].key) then [] else RangeFrom(x, i + 1, from, to, t);
      below + here + rest
    else if !x.leaf then RangeCollect(x.children[|x.slots|], from, to, t)
    else []
  }

  function FindRange<R>(tr: BTree<R>, from: Key, to: Key): seq<R>
    requires Valid(tr)
  {
    RangeCollect(tr.root, from, to, tr.t)
  }

  // ---------------------------------------------------------------------
  // Sizes

  lemma {:induction false} SumPrefix(s: seq<nat>, j: nat)
    requires j <= |s|
    ensures Sum(s[..j]) <= Sum(s)
    decreases |s|
  {
    if j < |s| {
      assert s[..|s| - 1][..j] == s[..j];
      SumPrefix(s[..|s| - 1], j);
    } else {
      assert s[..j] == s;
    }
  }

  lemma {:induction false} SumSuffix(s: seq<nat>, j: nat)
    requires j <= |s|
    ensures Sum(s[j..]) <= Sum(s)
    decreases |s|
  {
    if j < |s| {
      var u := s[..|s| - 1];
      var v := s[j..];
      assert v[..|v| - 1] == u[j..];
      assert v[|v| - 1] == s[|s| - 1];
      SumSuffix(u, j);
    }
  }

  lemma SumElem(s: seq<nat>, i: nat)
    requires i < |s|
    ensures s[i] <= Sum(s)
  {
    var u := s[..i + 1];
    assert u[..|u| - 1] == s[..i];
    SumPrefix(s, i + 1);
  }

  lemma SizeChild<R>(x: Node<R>, i: nat)
    requires i < |x.children|
    ensures Size(x.children[i]) < Size(x)
  {
    SumElem(ChildSizes(x), i);
  }

  /** A node whose children are a slice of `y`'s is no larger than `y`. */
  lemma SizeSlice<R>(y: Node<R>, n: Node<R>, lo: nat, hi: nat)
    requires lo <= hi <= |y.children| && n.children == y.children[lo..hi]
    ensures Size(n) <= Size(y)
  {
    var cs := ChildSizes(y);
    assert ChildSizes(n) == cs[lo..hi];
    assert cs[lo..hi] == cs[..hi][lo..];
    SumSuffix(cs[..hi], lo);
    SumPrefix(cs, hi);
  }

  // ---------------------------------------------------------------------
  // Split

  lemma ChildShape<R>(x: Node<R>, i: nat, t: nat)
    requires Shape(x, t) && i < |x.children|
    ensures Shape(x.children[i], t) && Wired(x.children[i]) && t <= |x.children[i].slots| + 1
  {
  }

  lemma GrownShape<R>(tr: BTree<R>)
    requires Valid(tr) && |tr.root.slots| == MaxKeys(tr.t)
    ensures Shape(Node(false, [], [tr.root]), tr.t)
  {
    var g := Node(false, [], [tr.root]);
    assert g.children[0] == tr.root;
  }

  /** Where `SplitChild` puts the slots and children of the split child. */
  lemma SplitChildParts<R>(x: Node<R>, i: nat, t: nat)
    requires t >= 1 && i <= |x.slots| && i < |x.children|
    requires |x.children[i].slots| == MaxKeys(t) && Wired(x.children[i])
    ensures var r := SplitChild(x, i, t);
      var y := x.children[i];
      && r.slots == x.slots[..i] + [y.slots[t - 1]] + x.slots[i..]
      && r.children == x.children[..i] + [r.children[i], r.children[i + 1]] + x.children[i + 1..]
      && r.children[i].slots == y.slots[..t - 1] && r.children[i + 1].slots == y.slots[t..]
      && r.children[i].leaf == y.leaf && r.children[i + 1].leaf == y.leaf
      && (y.leaf ==> |r.children[i].children| == 0 && |r.children[i + 1].children| == 0)
      && (!y.leaf ==> r.children[i].children == y.children[..t] && r.children[i + 1].children == y.children[t..])
  {
  }

  lemma SplitChildShape<R>(x: Node<R>, i: nat, t: nat)
    requires t >= 2 && Shape(x, t) && !x.leaf && i <= |x.slots|
    requires |x.slots| < MaxKeys(t) && |x.children[i].slots| == MaxKeys(t) && Wired(x.children[i])
    ensures var r := SplitChild(x, i, t);
      var y := x.children[i];
      && Shape(r, t) && !r.leaf && |r.slots| == |x.slots| + 1
      && r.slots == x.slots[..i] + [y.slots[t - 1]] + x.slots[i..]
      && |r.children| == |x.children| + 1
      && r.children[..i] == x.children[..i] && r.children[i + 2..] == x.children[i + 1..]
      && r.children[i].slots == y.slots[..t - 1] && r.children[i + 1].slots == y.slots[t..]
      && r.children[i].leaf == y.leaf && r.children[i + 1].leaf == y.leaf
      && (!y.leaf ==> r.children[i].children == y.children[..t] && r.children[i + 1].children == y.children[t..])
      && Size(r.children[i]) < Size(x) && Size(r.children[i + 1]) < Size(x)
  {
    var r := SplitChild(x, i, t);
    ChildShape(x, i, t);
    SplitChildParts(x, i, t);
    SplitHalvesShape(x, i, t);
    forall j | 0 <= j < |r.children|
      ensures t <= |r.children[j].slots| + 1 && Shape(r.children[j], t)
    {
      if j < i {
        assert r.children[j] == x.children[j];
      } else if j > i + 1 {
        assert r.children[j] == x.children[j - 1];
      }
    }
    assert r.children[..i] == x.children[..i];
    assert r.children[i + 2..] == x.children[i + 1..];
    SplitHalvesSmaller(x, i, t);
  }

  /** The two halves of a split full child are well-formed. */
  lemma SplitHalvesShape<R>(x: Node<R>, i: nat, t: nat)
    requires t >= 2 && Shape(x, t) && !x.leaf && i <= |x.slots|
    requires |x.children[i].slots| == MaxKeys(t) && Wired(x.children[i])
    ensures Shape(SplitChild(x, i, t).children[i], t) && Shape(SplitChild(x, i, t).children[i + 1], t)
  {
    var r := SplitChild(x, i, t);
    var y := x.children[i];
    ChildShape(x, i, t);
    SplitChildParts(x, i, t);
    var left, right := r.children[i], r.children[i + 1];
    assert Shape(left, t) by {
      assert forall j :: 0 <= j < |left.children| ==> left.children[j] == y.children[j];
    }
    assert Shape(right, t) by {
      assert forall j :: 0 <= j < |right.children| ==> right.children[j] == y.children[t + j];
    }
  }

  /** The two halves of a split child are each smaller than the parent. */
  lemma SplitHalvesSmaller<R>(x: Node<R>, i: nat, t: nat)
    requires t >= 2 && !x.leaf && i <= |x.slots| && |x.children| == |x.slots| + 1
    requires |x.children[i].slots| == MaxKeys(t) && Wired(x.children[i])
    ensures Size(SplitChild(x, i, t).children[i]) < Size(x)
    ensures Size(SplitChild(x, i, t).children[i + 1]) < Size(x)
  {
    var r := SplitChild(x, i, t);
    var y := x.children[i];
    SplitChildParts(x, i, t);
    var left, right := r.children[i], r.children[i + 1];
    SizeChild(x, i);
    if y.leaf {
      SizeSlice(y, left, 0, 0);
      SizeSlice(y, right, 0, 0);
    } else {
      SizeSlice(y, left, 0, t);
      SizeSlice(y, right, t, 2 * t);
    }
  }

  // ---------------------------------------------------------------------
  // Decomposing the in-order sequence of a node

  /** Everything left of child `i`. */
  ghost function Before<R>(x: Node<R>, i: nat): seq<Slot<R>>
    requires i <= |x.slots| && |x.children| == |x.slots| + 1
  {
    Weave(x.slots[..i], ChildOrders(x)[..i] + [[]])
  }

  /** Everything right of child `i`. */
  ghost function After<R>(x: Node<R>, i: nat): seq<Slot<R>>
    requires i <= |x.slots| && |x.children| == |x.slots| + 1
  {
    Weave(x.slots[i..], [[]] + ChildOrders(x)[i + 1..])
  }

  lemma ChildDecomp<R>(x: Node<R>, i: nat)
    requires i <= |x.slots| && |x.children| == |x.slots| + 1
    ensures InOrder(x) == Before(x, i) + InOrder(x.children[i]) + After(x, i)
  {
    var co := ChildOrders(x);
    assert x.slots == x.slots[..i] + x.slots[i..];
    assert co == co[..i] + [co[i]] + co[i + 1..];
    WeaveAt(x.slots[..i], x.slots[i..], co[..i], co[i], co[i + 1..]);
  }

  /** Descending into child `i` is justified when `k` lies strictly between
      the keys around it: all of the rest of the node is on the far side of `k`. */
  lemma DescendBounds<R>(x: Node<R>, i: nat, k: Key)
    requires i <= |x.slots| && |x.children| == |x.slots| + 1 && Sorted(InOrder(x))
    requires i == 0 || Less(x.slots[i - 1].key, k)
    requires i == |x.slots| || Less(k, x.slots[i].key)
    ensures InOrder(x) == Before(x, i) + InOrder(x.children[i]) + After(x, i)
    ensures Below(Before(x, i), k) && Above(k, After(x, i))
    ensures Sorted(InOrder(x.children[i]))
  {
    ChildDecomp(x, i);
    var co := ChildOrders(x);
    var b, m, a := Before(x, i), InOrder(x.children[i]), After(x, i);
    SortedInfix(b, m, a);
    if i > 0 {
      var e := x.slots[i - 1];
      assert x.slots[..i] == x.slots[..i - 1] + [e] + [];
      WeaveJoin(x.slots[..i - 1], e, [], co[..i], [[]]);
      var w := Weave(x.slots[..i - 1], co[..i]);
      assert b == w + [e];
      assert InOrder(x) == w + [e] + (m + a);
      SortedParts(w, e, m + a);
      BelowTrans(w, e.key, k);
    }
    if i < |x.slots| {
      var e := x.slots[i];
      var w := Weave(x.slots[i + 1..], co[i + 1..]);
      assert x.slots[i..][1..] == x.slots[i + 1..];
      assert ([[]] + co[i + 1..])[1..] == co[i + 1..];
      assert a == [e] + w;
      assert InOrder(x) == (b + m) + [e] + w;
      SortedParts(b + m, e, w);
      AboveTrans(k, e.key, w);
    }
  }

  /** Everything left of slot `p`. */
  ghost function SlotBefore<R>(x: Node<R>, p: nat): seq<Slot<R>>
    requires p < |x.slots| && Wired(x)
  {
    if x.leaf then x.slots[..p] else Weave(x.slots[..p], ChildOrders(x)[..p + 1])
  }

  /** Everything right of slot `p`. */
  ghost function SlotAfter<R>(x: Node<R>, p: nat): seq<Slot<R>>
    requires p < |x.slots| && Wired(x)
  {
    if x.leaf then x.slots[p + 1..] else Weave(x.slots[p + 1..], ChildOrders(x)[p + 1..])
  }

  lemma SlotDecomp<R>(x: Node<R>, p: nat)
    requires p < |x.slots| && Wired(x)
    ensures InOrder(x) == SlotBefore(x, p) + [x.slots[p]] + SlotAfter(x, p)
  {
    assert x.slots == x.slots[..p] + [x.slots[p]] + x.slots[p + 1..];
    if x.leaf {
      assert ChildOrders(x) == [];
    } else {
      var co := ChildOrders(x);
      assert co == co[..p + 1] + co[p + 1..];
      WeaveJoin(x.slots[..p], x.slots[p], x.slots[p + 1..], co[..p + 1], co[p + 1..]);
    }
  }

  /** A node with the slot sequence `slots` and no children lists exactly those slots. */
  lemma LeafOrder<R>(x: Node<R>)
    requires |x.children| == 0
    ensures InOrder(x) == x.slots
  {
    assert ChildOrders(x) == [];
  }

  // ---------------------------------------------------------------------
  // Each step of InsertNonFull against AbsInsert

  /** Appending to the refs of an existing key is `AbsInsert` of that key. */
  lemma AppendRefSpec<R>(x: Node<R>, p: nat, k: Key, r: R)
    requires p < |x.slots| && Wired(x) && x.slots[p].key == k && Sorted(InOrder(x))
    ensures InOrder(AppendRef(x, p, r)) == AbsInsert(InOrder(x), k, r)
  {
    var x' := AppendRef(x, p, r);
    var e, e' := x.slots[p], x'.slots[p];
    SlotDecomp(x, p);
    SlotDecomp(x', p);
    assert x'.slots[..p] == x.slots[..p] && x'.slots[p + 1..] == x.slots[p + 1..];
    assert ChildOrders(x') == ChildOrders(x);
    var a, b := SlotBefore(x, p), SlotAfter(x, p);
    assert SlotBefore(x', p) == a && SlotAfter(x', p) == b;
    SortedParts(a, e, b);
    AbsInsertLeft(a, [e] + b, k, r);
    assert ([e] + b)[0] == e && ([e] + b)[1..] == b;
    assert AbsInsert([e] + b, k, r) == [e'] + b;
    assert InOrder(x) == a + ([e] + b);
    assert InOrder(x') == a + ([e'] + b);
  }

  lemma AppendRefShape<R>(x: Node<R>, p: nat, r: R, t: nat, h: nat)
    requires p < |x.slots| && Shape(x, t) && AtHeight(x, h)
    ensures Shape(AppendRef(x, p, r), t) && AtHeight(AppendRef(x, p, r), h)
    ensures AppendRef(x, p, r).leaf == x.leaf && |AppendRef(x, p, r).slots| == |x.slots|
  {
    assert AppendRef(x, p, r).children == x.children;
  }

  /** Adding `Slot(k, [r])` at the lower-bound position of a leaf is
      `AbsInsert` of a fresh key. */
  lemma LeafInsertSpec<R>(x: Node<R>, p: nat, k: Key, r: R)
    requires |x.children| == 0 && p <= |x.slots| && Sorted(InOrder(x))
    requires forall j :: 0 <= j < p ==> Less(x.slots[j].key, k)
    requires p == |x.slots| || Less(k, x.slots[p].key)
    ensures InOrder(x.(slots := x.slots[..p] + [Slot(k, [r])] + x.slots[p..])) == AbsInsert(InOrder(x), k, r)
  {
    var x' := x.(slots := x.slots[..p] + [Slot(k, [r])] + x.slots[p..]);
    LeafOrder(x);
    LeafOrder(x');
    var a, b := x.slots[..p], x.slots[p..];
    assert x.slots == a + b;
    assert Below(a, k);
    AbsInsertLeft(a, b, k, r);
    if |b| > 0 {
      LessIrreflexive(k);
      assert b[0] == x.slots[p];
    }
    assert AbsInsert(b, k, r) == [Slot(k, [r])] + b;
  }

  /** Replacing child `i` by one whose sequence is `AbsInsert` of the old
      one is `AbsInsert` on the whole node, when `k` belongs under child `i`. */
  lemma DescendInsert<R>(x: Node<R>, i: nat, k: Key, r: R, c: Node<R>)
    requires i <= |x.slots| && |x.children| == |x.slots| + 1 && Sorted(InOrder(x))
    requires i == 0 || Less(x.slots[i - 1].key, k)
    requires i == |x.slots| || Less(k, x.slots[i].key)
    requires InOrder(c) == AbsInsert(InOrder(x.children[i]), k, r)
    ensures InOrder(x.(children := x.children[i := c])) == AbsInsert(InOrder(x), k, r)
  {
    var x' := x.(children := x.children[i := c]);
    DescendBounds(x, i, k);
    ChildDecomp(x', i);
    var co, co' := ChildOrders(x), ChildOrders(x');
    assert co'[..i] == co[..i] && co'[i + 1..] == co[i + 1..];
    var b, m, a := Before(x, i), InOrder(x.children[i]), After(x, i);
    assert Before(x', i) == b && After(x', i) == a;
    InsertBetween(b, m, a, k, r);
  }

  /** `k` placed between `b` and `a` is inserted into the middle part. */
  lemma InsertBetween<R>(b: seq<Slot<R>>, m: seq<Slot<R>>, a: seq<Slot<R>>, k: Key, r: R)
    requires Below(b, k) && Above(k, a)
    ensures AbsInsert(b + m + a, k, r) == b + AbsInsert(m, k, r) + a
  {
    AbsInsertLeft(b, m + a, k, r);
    AbsInsertRight(m, a, k, r);
    assert b + m + a == b + (m + a);
  }

  /** Inserting slot `e` at `i` while child `i` becomes the two children
      `a`, `b`: the woven sequence gains `a e b` in place of the old child. */
  lemma WeaveSplice<R>(es: seq<Slot<R>>, co: seq<seq<Slot<R>>>, i: nat,
                       a: seq<Slot<R>>, e: Slot<R>, b: seq<Slot<R>>)
    requires |co| == |es| + 1 && i <= |es|
    ensures Weave(es[..i] + [e] + es[i..], co[..i] + [a, b] + co[i + 1..])
         == Weave(es[..i], co[..i] + [[]]) + a + [e] + b + Weave(es[i..], [[]] + co[i + 1..])
  {
    var e1, e2 := es[..i], es[i..];
    var s1, s2 := co[..i], co[i + 1..];
    assert s1 + [a, b] + s2 == (s1 + [a]) + ([b] + s2);
    WeaveJoin(e1, e, e2, s1 + [a], [b] + s2);
    assert e1 + [] == e1 && s1 + [a] + [] == s1 + [a];
    WeaveAt(e1, [], s1, a, []);
    var nil: seq<seq<Slot<R>>> := [];
    assert [] + e2 == e2 && nil + [b] + s2 == [b] + s2 && nil + [[]] == [[]];
    WeaveAt([], e2, nil, b, s2);
  }

  lemma ChildOrdersSplice<R>(x: Node<R>, i: nat, l: Node<R>, r: Node<R>, n: Node<R>)
    requires i < |x.children| && n.children == x.children[..i] + [l, r] + x.children[i + 1..]
    ensures ChildOrders(n) == ChildOrders(x)[..i] + [InOrder(l), InOrder(r)] + ChildOrders(x)[i + 1..]
  {
    var co := ChildOrders(x);
    var want := co[..i] + [InOrder(l), InOrder(r)] + co[i + 1..];
    assert |ChildOrders(n)| == |want|;
    forall j | 0 <= j < |want|
      ensures ChildOrders(n)[j] == want[j]
    {
      if j < i {
        assert n.children[j] == x.children[j];
      } else if j > i + 1 {
        assert n.children[j] == x.children[j - 1];
      }
    }
  }

  /** A full child is its left half, the median and its right half. */
  lemma SplitHalves<R>(y: Node<R>, t: nat, left: Node<R>, right: Node<R>)
    requires t >= 1 && |y.slots| == 2 * t - 1 && Wired(y)
    requires left.slots == y.slots[..t - 1] && right.slots == y.slots[t..]
    requires y.leaf ==> |left.children| == 0 && |right.children| == 0
    requires !y.leaf ==> left.children == y.children[..t] && right.children == y.children[t..]
    ensures InOrder(y) == InOrder(left) + [y.slots[t - 1]] + InOrder(right)
  {
    var med := y.slots[t - 1];
    assert y.slots == y.slots[..t - 1] + [med] + y.slots[t..];
    if y.leaf {
      LeafOrder(y);
      LeafOrder(left);
      LeafOrder(right);
    } else {
      var cy := ChildOrders(y);
      assert ChildOrders(left) == cy[..t];
      assert ChildOrders(right) == cy[t..];
      assert cy == cy[..t] + cy[t..];
      WeaveJoin(y.slots[..t - 1], med, y.slots[t..], cy[..t], cy[t..]);
    }
  }

  /** `SplitChild` moves slots and children around without changing the
      in-order sequence. */
  lemma SplitChildOrder<R>(x: Node<R>, i: nat, t: nat)
    requires t >= 2 && Shape(x, t) && !x.leaf && i <= |x.slots|
    requires |x.slots| < MaxKeys(t) && |x.children[i].slots| == MaxKeys(t) && Wired(x.children[i])
    ensures InOrder(SplitChild(x, i, t)) == InOrder(x)
  {
    SplitChildKeepsOrder(x, i, t);
  }

  /** The reordering argument of `SplitChildOrder`, needing only that the
      parent and the full child are wired. */
  lemma SplitChildKeepsOrder<R>(x: Node<R>, i: nat, t: nat)
    requires t >= 1 && i <= |x.slots| && |x.children| == |x.slots| + 1
    requires |x.children[i].slots| == MaxKeys(t) && Wired(x.children[i])
    ensures InOrder(SplitChild(x, i, t)) == InOrder(x)
  {
    SplitChildParts(x, i, t);
    var r := SplitChild(x, i, t);
    var y := x.children[i];
    var left, right := r.children[i], r.children[i + 1];
    SplitHalves(y, t, left, right);
    ChildDecomp(x, i);
    SpliceOrder(x, i, left, y.slots[t - 1], right, r);
    RegroupMiddle(Before(x, i), InOrder(left), y.slots[t - 1], InOrder(right), After(x, i));
  }

  lemma RegroupMiddle<R>(b: seq<Slot<R>>, l: seq<Slot<R>>, e: Slot<R>, r: seq<Slot<R>>, a: seq<Slot<R>>)
    ensures b + (l + [e] + r) + a == b + l + [e] + r + a
  {
  }

  /** A parent that gains slot `e` at `i` while child `i` becomes `l`, `rt`. */
  lemma SpliceOrder<R>(x: Node<R>, i: nat, l: Node<R>, e: Slot<R>, rt: Node<R>, n: Node<R>)
    requires i <= |x.slots| && |x.children| == |x.slots| + 1
    requires n.slots == x.slots[..i] + [e] + x.slots[i..]
    requires n.children == x.children[..i] + [l, rt] + x.children[i + 1..]
    ensures InOrder(n) == Before(x, i) + InOrder(l) + [e] + InOrder(rt) + After(x, i)
  {
    ChildOrdersSplice(x, i, l, rt, n);
    WeaveSplice(x.slots, ChildOrders(x), i, InOrder(l), e, InOrder(rt));
  }

  lemma SplitChildHeight<R>(x: Node<R>, i: nat, t: nat, h: nat)
    requires t >= 2 && Shape(x, t) && !x.leaf && i <= |x.slots|
    requires |x.slots| < MaxKeys(t) && |x.children[i].slots| == MaxKeys(t) && Wired(x.children[i])
    requires AtHeight(x, h)
    ensures AtHeight(SplitChild(x, i, t), h)
  {
    SplitChildParts(x, i, t);
    var r := SplitChild(x, i, t);
    var y := x.children[i];
    assert AtHeight(y, h - 1);
    forall j | 0 <= j < |r.children|
      ensures AtHeight(r.children[j], h - 1)
    {
      if j < i {
        assert r.children[j] == x.children[j];
      } else if j > i + 1 {
        assert r.children[j] == x.children[j - 1];
      } else if !y.leaf {
        var c := r.children[j];
        assert forall q :: 0 <= q < |c.children| ==> c.children[q] in y.children;
      }
    }
  }

  /** Putting a grown, equally high child back keeps the parent's shape and height. */
  lemma ReplaceChild<R>(x: Node<R>, i: nat, c: Node<R>, t: nat, h: nat)
    requires Shape(x, t) && !x.leaf && i < |x.children|
    requires Shape(c, t) && |x.children[i].slots| <= |c.slots|
    requires h > 0 && AtHeight(x, h) && AtHeight(c, h - 1)
    ensures Shape(x.(children := x.children[i := c]), t)
    ensures AtHeight(x.(children := x.children[i := c]), h)
  {
    var x' := x.(children := x.children[i := c]);
    assert t <= |x.children[i].slots| + 1;
    forall j | 0 <= j < |x'.children|
      ensures t <= |x'.children[j].slots| + 1 && Shape(x'.children[j], t) && AtHeight(x'.children[j], h - 1)
    {
      if j != i {
        assert x'.children[j] == x.children[j];
      }
    }
  }

  // ---------------------------------------------------------------------
  // Insert

  /** `InsertNonFull` on a node with room inserts exactly as `AbsInsert`
      does on its in-order sequence, keeps the shape and the height, and
      adds at most one key to the node itself. */
  lemma {:induction false} InsertNonFullSpec<R>(x: Node<R>, k: Key, r: R, t: nat, h: nat)
    requires t >= 2 && Shape(x, t) && |x.slots| < MaxKeys(t)
    requires Sorted(InOrder(x)) && AtHeight(x, h)
    ensures var y := InsertNonFull(x, k, r, t);
      && InOrder(y) == AbsInsert(InOrder(x), k, r)
      && Shape(y, t) && AtHeight(y, h) && y.leaf == x.leaf
      && |x.slots| <= |y.slots| <= |x.slots| + 1
    decreases Size(x), 2
  {
    var pos := LbIndex(x.slots, k);
    if pos < |x.slots| && x.slots[pos].key == k {
      AppendRefSpec(x, pos, k, r);
      AppendRefShape(x, pos, r, t, h);
    } else {
      if pos < |x.slots| {
        LessTotal(k, x.slots[pos].key);
      }
      if x.leaf {
        LeafInsertSpec(x, pos, k, r);
      } else {
        InsertChildSpec(x, pos, k, r, t, h);
      }
    }
  }

  /** `InsertChild` at the lower-bound position of a key not in the node. */
  lemma {:induction false} InsertChildSpec<R>(x: Node<R>, pos: nat, k: Key, r: R, t: nat, h: nat)
    requires t >= 2 && Shape(x, t) && |x.slots| < MaxKeys(t) && !x.leaf && pos <= |x.slots|
    requires Sorted(InOrder(x)) && AtHeight(x, h)
    requires pos > 0 ==> Less(x.slots[pos - 1].key, k)
    requires pos < |x.slots| ==> Less(k, x.slots[pos].key)
    ensures var y := InsertChild(x, pos, k, r, t);
      && InOrder(y) == AbsInsert(InOrder(x), k, r)
      && Shape(y, t) && AtHeight(y, h) && !y.leaf
      && |x.slots| <= |y.slots| <= |x.slots| + 1
    decreases Size(x), 1
  {
    if |x.children[pos].slots| == MaxKeys(t) {
      InsertSplitSpec(x, pos, k, r, t, h);
    } else {
      ChildShape(x, pos, t);
      SizeChild(x, pos);
      DescendSpec(x, pos, k, r, t, h);
    }
  }

  /** `InsertChild` when child `pos` is full and is split first. */
  lemma {:induction false} InsertSplitSpec<R>(x: Node<R>, pos: nat, k: Key, r: R, t: nat, h: nat)
    requires t >= 2 && Shape(x, t) && |x.slots| < MaxKeys(t) && !x.leaf && pos <= |x.slots|
    requires Sorted(InOrder(x)) && AtHeight(x, h)
    requires pos > 0 ==> Less(x.slots[pos - 1].key, k)
    requires pos < |x.slots| ==> Less(k, x.slots[pos].key)
    requires |x.children[pos].slots| == MaxKeys(t)
    ensures var y := InsertChild(x, pos, k, r, t);
      && InOrder(y) == AbsInsert(InOrder(x), k, r)
      && Shape(y, t) && AtHeight(y, h) && !y.leaf
      && |y.slots| == |x.slots| + 1
    decreases Size(x), 0
  {
    SplitFacts(x, pos, t, h);
    var x1 := SplitChild(x, pos, t);
    var y := InsertChild(x, pos, k, r, t);
    if x1.slots[pos].key == k {
      LessIrreflexive(k);
      assert y == AppendRef(x1, pos, r);
      AppendRefSpec(x1, pos, k, r);
      AppendRefShape(x1, pos, r, t, h);
    } else {
      LessTotal(k, x1.slots[pos].key);
      var j := if Less(x1.slots[pos].key, k) then pos + 1 else pos;
      assert y == Descend(x1, j, k, r, t);
      DescendSpec(x1, j, k, r, t, h);
    }
  }

  /** What the insert needs to know about the node right after a split. */
  lemma SplitFacts<R>(x: Node<R>, pos: nat, t: nat, h: nat)
    requires t >= 2 && Shape(x, t) && |x.slots| < MaxKeys(t) && !x.leaf && pos <= |x.slots|
    requires Sorted(InOrder(x)) && AtHeight(x, h)
    requires |x.children[pos].slots| == MaxKeys(t)
    ensures Wired(x.children[pos])
    ensures var x1 := SplitChild(x, pos, t);
      && Shape(x1, t) && !x1.leaf && |x1.slots| == |x.slots| + 1
      && InOrder(x1) == InOrder(x) && AtHeight(x1, h)
      && (pos > 0 ==> x1.slots[pos - 1] == x.slots[pos - 1])
      && (pos < |x.slots| ==> x1.slots[pos + 1] == x.slots[pos])
      && |x1.children[pos].slots| < MaxKeys(t) && |x1.children[pos + 1].slots| < MaxKeys(t)
      && Size(x1.children[pos]) < Size(x) && Size(x1.children[pos + 1]) < Size(x)
  {
    ChildShape(x, pos, t);
    SplitChildShape(x, pos, t);
    SplitChildOrder(x, pos, t);
    SplitChildHeight(x, pos, t, h);
    InsertedAt(x.slots, pos, x.children[pos].slots[t - 1]);
  }

  /** The neighbours of an element inserted at position `i`. */
  lemma InsertedAt<X>(s: seq<X>, i: nat, e: X)
    requires i <= |s|
    ensures var u := s[..i] + [e] + s[i..];
      && (i > 0 ==> u[i - 1] == s[i - 1])
      && (i < |s| ==> u[i + 1] == s[i])
  {
  }

  /** `Descend` into child `i` when `k` lies between the keys around it. */
  lemma {:induction false} DescendSpec<R>(x: Node<R>, i: nat, k: Key, r: R, t: nat, h: nat)
    requires t >= 2 && Shape(x, t) && !x.leaf && i <= |x.slots|
    requires |x.children[i].slots| < MaxKeys(t)
    requires Sorted(InOrder(x)) && AtHeight(x, h)
    requires i == 0 || Less(x.slots[i - 1].key, k)
    requires i == |x.slots| || Less(k, x.slots[i].key)
    ensures var y := Descend(x, i, k, r, t);
      && InOrder(y) == AbsInsert(InOrder(x), k, r)
      && Shape(y, t) && AtHeight(y, h) && !y.leaf && y.slots == x.slots
    decreases Size(x.children[i]), 3
  {
    var c := x.children[i];
    ChildShape(x, i, t);
    DescendBounds(x, i, k);
    InsertNonFullSpec(c, k, r, t, h - 1);
    var c' := InsertNonFull(c, k, r, t);
    DescendInsert(x, i, k, r, c');
    ReplaceChild(x, i, c', t, h);
  }

  lemma {:induction false} AtHeightDepth<R>(n: Node<R>, h: nat, t: nat)
    requires Shape(n, t) && AtHeight(n, h)
    ensures Depth(n) == h
    decreases n
  {
    if !n.leaf {
      ChildShape(n, 0, t);
      AtHeightDepth(n.children[0], h - 1, t);
    }
  }

  /** `Insert` keeps the tree valid and inserts as `AbsInsert`; the height
      grows by one exactly when the root was full. */
  lemma InsertSpec<R>(tr: BTree<R>, k: Key, r: R)
    requires Valid(tr)
    ensures var tr' := Insert(tr, k, r);
      && Valid(tr') && tr'.t == tr.t
      && InOrder(tr'.root) == AbsInsert(InOrder(tr.root), k, r)
      && Depth(tr'.root) == Depth(tr.root) + (if |tr.root.slots| == MaxKeys(tr.t) then 1 else 0)
  {
    var t, h := tr.t, Depth(tr.root);
    var y;
    if |tr.root.slots| == MaxKeys(t) {
      var grown := Node(false, [], [tr.root]);
      GrownShape(tr);
      assert grown.children[0] == tr.root;
      assert ChildOrders(grown) == [InOrder(tr.root)];
      assert InOrder(grown) == InOrder(tr.root);
      assert AtHeight(grown, h + 1);
      SplitFacts(grown, 0, t, h + 1);
      var nr := SplitChild(grown, 0, t);
      InsertNonFullSpec(nr, k, r, t, h + 1);
      y := InsertNonFull(nr, k, r, t);
      AtHeightDepth(y, h + 1, t);
    } else {
      InsertNonFullSpec(tr.root, k, r, t, h);
      y := InsertNonFull(tr.root, k, r, t);
      AtHeightDepth(y, h, t);
    }
    assert Insert(tr, k, r) == tr.(root := y);
    AbsInsertSorted(InOrder(tr.root), k, r);
  }

  // ---------------------------------------------------------------------
  // Lookup

  /** A key present in the node is found at its slot. */
  lemma FindHere<R>(x: Node<R>, i: nat, k: Key)
    requires i < |x.slots| && Wired(x) && x.slots[i].key == k && Sorted(InOrder(x))
    ensures AbsFind(InOrder(x), k) == Some(x.slots[i].refs)
  {
    SlotDecomp(x, i);
    var p, e, q := SlotBefore(x, i), x.slots[i], SlotAfter(x, i);
    SortedParts(p, e, q);
    BelowNotFound(p, k);
    AbsFindSkip(p, [e] + q, k);
    assert InOrder(x) == p + ([e] + q);
    assert ([e] + q)[0] == e;
  }

  /** A key missing from a leaf at its lower-bound position is absent. */
  lemma FindLeafMiss<R>(x: Node<R>, i: nat, k: Key)
    requires |x.children| == 0 && i <= |x.slots| && Sorted(InOrder(x))
    requires forall j :: 0 <= j < i ==> Less(x.slots[j].key, k)
    requires i == |x.slots| || Less(k, x.slots[i].key)
    ensures AbsFind(InOrder(x), k) == None
  {
    LeafOrder(x);
    var a, b := x.slots[..i], x.slots[i..];
    assert x.slots == a + b + [];
    SortedInfix(a, b, []);
    assert Below(a, k);
    if |b| > 0 {
      assert b[0] == x.slots[i];
      SortedFirstAbove(k, b);
    }
    BelowNotFound(a, k);
    AbsFindSkip(a, b, k);
    if |b| == 0 {
      assert Above(k, b);
    }
    AboveNotFound(k, b);
    assert InOrder(x) == a + b;
  }

  /** Below an internal node the lookup continues in child `i` alone. */
  lemma FindBelow<R>(x: Node<R>, i: nat, k: Key)
    requires i <= |x.slots| && |x.children| == |x.slots| + 1 && Sorted(InOrder(x))
    requires i == 0 || Less(x.slots[i - 1].key, k)
    requires i == |x.slots| || Less(k, x.slots[i].key)
    ensures AbsFind(InOrder(x), k) == AbsFind(InOrder(x.children[i]), k)
    ensures Sorted(InOrder(x.children[i]))
  {
    DescendBounds(x, i, k);
    var b, m, a := Before(x, i), InOrder(x.children[i]), After(x, i);
    BelowNotFound(b, k);
    AbsFindSkip(b, m + a, k);
    AboveNotFound(k, a);
    AbsFindStop(m, a, k);
    assert InOrder(x) == b + (m + a);
  }

  /** `FindPtr` finds exactly the slot of `k` in the in-order sequence. */
  lemma {:induction false} FindPtrSpec<R>(x: Node<R>, k: Key, t: nat)
    requires Shape(x, t) && Sorted(InOrder(x))
    ensures FindPtr(x, k, t) == AbsFind(InOrder(x), k)
    decreases x
  {
    var i := LbIndex(x.slots, k);
    if i < |x.slots| && x.slots[i].key == k {
      FindHere(x, i, k);
    } else {
      if i < |x.slots| {
        LessTotal(k, x.slots[i].key);
      }
      if x.leaf {
        FindLeafMiss(x, i, k);
      } else {
        ChildShape(x, i, t);
        FindBelow(x, i, k);
        FindPtrSpec(x.children[i], k, t);
      }
    }
  }

  /** `FindEquals(k)` returns the refs stored under `k`, or empty. */
  lemma FindEqualsSpec<R>(tr: BTree<R>, k: Key)
    requires Valid(tr)
    ensures FindEquals(tr, k) == AbsFind(InOrder(tr.root), k).GetOr([])
  {
    FindPtrSpec(tr.root, k, tr.t);
  }

  // ---------------------------------------------------------------------
  // Range scan

  /** The in-order sequence from child `i` on. */
  ghost function Suffix<R>(x: Node<R>, i: nat): seq<Slot<R>>
    requires i <= |x.slots| && Wired(x)
  {
    if x.leaf then x.slots[i..] else Weave(x.slots[i..], ChildOrders(x)[i..])
  }

  lemma SuffixStart<R>(x: Node<R>)
    requires Wired(x)
    ensures Suffix(x, 0) == InOrder(x)
  {
    if x.leaf {
      LeafOrder(x);
    } else {
      assert x.slots[0..] == x.slots && ChildOrders(x)[0..] == ChildOrders(x);
    }
  }

  lemma SuffixStep<R>(x: Node<R>, i: nat)
    requires i < |x.slots| && Wired(x)
    ensures Suffix(x, i) == (if x.leaf then [] else InOrder(x.children[i])) + [x.slots[i]] + Suffix(x, i + 1)
  {
    assert x.slots[i..][0] == x.slots[i] && x.slots[i..][1..] == x.slots[i + 1..];
    if !x.leaf {
      var co := ChildOrders(x);
      assert co[i..][0] == co[i] && co[i..][1..] == co[i + 1..];
    }
  }

  lemma SuffixEnd<R>(x: Node<R>)
    requires Wired(x)
    ensures Suffix(x, |x.slots|) == if x.leaf then [] else InOrder(x.children[|x.slots|])
  {
    if !x.leaf {
      var co := ChildOrders(x);
      assert co[|x.slots|..][0] == co[|x.slots|];
    }
  }

  /** `RangeCollect` yields the refs of every key in `[from, to]`, in
      ascending key order. */
  lemma {:induction false} RangeCollectSpec<R>(x: Node<R>, from: Key, to: Key, t: nat)
    requires Shape(x, t) && Sorted(InOrder(x))
    ensures RangeCollect(x, from, to, t) == AbsRange(InOrder(x), from, to)
    decreases x, |x.slots| + 1
  {
    SuffixStart(x);
    RangeFromSpec(x, 0, from, to, t);
  }

  /** One iteration of the `RangeCollect` loop against `AbsRange`. */
  lemma RangeStep<R>(x: Node<R>, i: nat, from: Key, to: Key)
    requires i < |x.slots| && Wired(x) && Sorted(Suffix(x, i))
    ensures var m := if x.leaf then [] else InOrder(x.children[i]);
      var e := x.slots[i];
      && Sorted(m) && Sorted(Suffix(x, i + 1))
      && AbsRange(Suffix(x, i), from, to)
         == AbsRange(m, from, to) + (if InRange(e.key, from, to) then e.refs else [])
            + (if Less(to, e.key) then [] else AbsRange(Suffix(x, i + 1), from, to))
  {
    SuffixStep(x, i);
    var m := if x.leaf then [] else InOrder(x.children[i]);
    RangeThroughSlot(m, x.slots[i], Suffix(x, i + 1), from, to);
  }

  /** A range walk over `m e rest`: the part of `m`, then `e` if in range,
      then `rest` unless `e` is already above `to`. */
  lemma RangeThroughSlot<R>(m: seq<Slot<R>>, e: Slot<R>, rest: seq<Slot<R>>, from: Key, to: Key)
    requires Sorted(m + [e] + rest)
    ensures Sorted(m) && Sorted(rest)
    ensures AbsRange(m + [e] + rest, from, to)
         == AbsRange(m, from, to) + (if InRange(e.key, from, to) then e.refs else [])
            + (if Less(to, e.key) then [] else AbsRange(rest, from, to))
  {
    SortedParts(m, e, rest);
    assert m + [e] + rest == m + ([e] + rest);
    AbsRangeConcat(m, [e] + rest, from, to);
    AbsRangeConcat([e], rest, from, to);
    assert [e][1..] == [];
    if Less(to, e.key) {
      AboveTrans(to, e.key, rest);
      AbsRangeAbove(to, rest, from);
    }
  }

  /** The loop of `RangeCollect` from position `i`, including its early stop
      at the first key above `to`. */
  lemma {:induction false} RangeFromSpec<R>(x: Node<R>, i: nat, from: Key, to: Key, t: nat)
    requires Shape(x, t) && i <= |x.slots| && Sorted(Suffix(x, i))
    ensures RangeFrom(x, i, from, to, t) == AbsRange(Suffix(x, i), from, to)
    decreases x, |x.slots| - i
  {
    if i < |x.slots| {
      RangeStep(x, i, from, to);
      if !x.leaf {
        ChildShape(x, i, t);
        RangeCollectSpec(x.children[i], from, to, t);
      }
      if !Less(to, x.slots[i].key) {
        RangeFromSpec(x, i + 1, from, to, t);
      }
    } else {
      SuffixEnd(x);
      if !x.leaf {
        ChildShape(x, |x.slots|, t);
        RangeCollectSpec(x.children[|x.slots|], from, to, t);
      }
    }
  }

  /** `FindRange(from, to)`: the refs of all keys in `[from, to]` in
      ascending key order, and nothing when `to < from`. */
  lemma FindRangeSpec<R>(tr: BTree<R>, from: Key, to: Key)
    requires Valid(tr)
    ensures FindRange(tr, from, to) == AbsRange(InOrder(tr.root), from, to)
    ensures Less(to, from) ==> FindRange(tr, from, to) == []
  {
    RangeCollectSpec(tr.root, from, to, tr.t);
    if Less(to, from) {
      AbsRangeInverted(InOrder(tr.root), from, to);
    }
  }
}
