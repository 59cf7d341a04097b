/** What the `Find*` queries return right after `BuildIndexes`: the ids of
    exactly the live rows whose attribute equals the key (in slot order), or
    lies in the range (as a multiset; in ascending key order for the B-tree
    indexes). */
module QueryProperties {
  import opened Wrappers
  import opened Keys
  import opened DbErrors
  import opened Records
  import opened Databases
  import T = Tables
  import I = Indexes

  // ---------------------------------------------------------------------
  // Reference answers

  /** The ids of the rows whose key is `k`, in row order. */
  function MatchingIds<R>(rows: seq<R>, key: R -> Key, k: Key, idOf: R -> int): seq<int> {
    if |rows| == 0 then []
    else
      var last := rows[|rows| - 1];
      MatchingIds(rows[..|rows| - 1], key, k, idOf) + (if key(last) == k then [idOf(last)] else [])
  }

  /** The ids of the rows whose key lies in `[from, to]`, in row order. */
  function InRangeIds<R>(rows: seq<R>, key: R -> Key, from: Key, to: Key, idOf: R -> int): seq<int> {
    if |rows| == 0 then []
    else
      var last := rows[|rows| - 1];
      InRangeIds(rows[..|rows| - 1], key, from, to, idOf) + (if InRange(key(last), from, to) then [idOf(last)] else [])
  }

  // ---------------------------------------------------------------------
  // Slots and ids

  ghost predicate AllAlive<R>(t: T.Table<R>, slots: seq<T.Slot>) {
    forall i :: 0 <= i < |slots| ==> T.IsAliveSlot(t, slots[i])
  }

  /** The rows in the given slots. */
  function RowsAt<R>(t: T.Table<R>, slots: seq<T.Slot>): seq<R>
    requires |t.records| == |t.alive| && AllAlive(t, slots)
  {
    seq(|slots|, i requires 0 <= i < |slots| => t.records[slots[i]])
  }

  function IdsAt<R>(t: T.Table<R>, slots: seq<T.Slot>): seq<int>
    requires |t.records| == |t.alive| && AllAlive(t, slots)
  {
    seq(|slots|, i requires 0 <= i < |slots| => t.idOf(t.records[slots[i]]))
  }

  /** `SlotsToIds` fails exactly when some slot is dead, always with the
      dead-slot message, and otherwise maps each slot to its row's id in
      order. */
  lemma {:induction false} SlotsToIdsSpec<R>(t: T.Table<R>, slots: seq<T.Slot>)
    requires |t.records| == |t.alive|
    ensures SlotsToIds(t, slots).Ok? <==> AllAlive(t, slots)
    ensures SlotsToIds(t, slots).Ok? ==> SlotsToIds(t, slots).value == IdsAt(t, slots)
    ensures SlotsToIds(t, slots).Err? ==> SlotsToIds(t, slots) == Err(Runtime("GetRowBySlot: slot is not alive"))
  {
    if |slots| > 0 {
      var n := |slots| - 1;
      var pre := slots[..n];
      SlotsToIdsSpec(t, pre);
      assert forall i :: 0 <= i < n ==> pre[i] == slots[i];
      if AllAlive(t, slots) {
        assert AllAlive(t, pre);
        assert IdsAt(t, slots) == IdsAt(t, pre) + [t.idOf(t.records[slots[n]])];
      } else if AllAlive(t, pre) {
        assert !T.IsAliveSlot(t, slots[n]);
      }
    }
  }

  lemma AllAliveSlice<R>(t: T.Table<R>, s: seq<T.Slot>, lo: nat, hi: nat)
    requires AllAlive(t, s) && lo <= hi <= |s|
    ensures AllAlive(t, s[lo..hi])
  {
    forall j | 0 <= j < hi - lo ensures T.IsAliveSlot(t, s[lo..hi][j]) {
      assert s[lo..hi][j] == s[lo + j];
    }
  }

  lemma IdsAtAppend<R>(t: T.Table<R>, a: seq<T.Slot>, b: seq<T.Slot>)
    requires |t.records| == |t.alive| && AllAlive(t, a) && AllAlive(t, b)
    ensures AllAlive(t, a + b) && IdsAt(t, a + b) == IdsAt(t, a) + IdsAt(t, b)
  {
    assert forall i :: 0 <= i < |a + b| ==> (a + b)[i] == if i < |a| then a[i] else b[i - |a|];
  }

  /** Dropping the same element from two permutations of each other leaves
      permutations. */
  lemma MultisetDrop(a: seq<T.Slot>, b: seq<T.Slot>, i: nat)
    requires multiset(a) == multiset(b) && |a| > 0 && i < |b| && b[i] == a[|a| - 1]
    ensures multiset(a[..|a| - 1]) == multiset(b[..i] + b[i + 1..])
  {
    var n := |a| - 1;
    var x := a[n];
    assert a == a[..n] + [x];
    assert b == b[..i] + [x] + b[i + 1..];
    assert multiset(a[..n]) == multiset(a) - multiset{x};
    assert multiset(b[..i] + b[i + 1..]) == multiset(b) - multiset{x};
  }

  /** The id of a slot taken out of the middle of a list. */
  lemma IdsAtDrop<R>(t: T.Table<R>, b: seq<T.Slot>, i: nat)
    requires |t.records| == |t.alive| && AllAlive(t, b) && i < |b|
    ensures AllAlive(t, b[..i] + b[i + 1..])
    ensures multiset(IdsAt(t, b))
         == multiset(IdsAt(t, b[..i] + b[i + 1..])) + multiset{t.idOf(t.records[b[i]])}
  {
    AllAliveSlice(t, b, 0, i);
    AllAliveSlice(t, b, i, i + 1);
    AllAliveSlice(t, b, i + 1, |b|);
    assert b[..i] == b[0..i] && b[i + 1..] == b[i + 1..|b|];
    assert b == b[0..i] + b[i..i + 1] + b[i + 1..|b|];
    assert b[i..i + 1] == [b[i]];
    IdsAtAppend(t, b[..i], b[i + 1..]);
    IdsAtAppend(t, b[..i], [b[i]]);
    IdsAtAppend(t, b[..i] + [b[i]], b[i + 1..]);
  }

  /** Slot lists that are permutations of each other give ids that are. */
  lemma {:induction false} IdsAtPermutation<R>(t: T.Table<R>, a: seq<T.Slot>, b: seq<T.Slot>)
    requires |t.records| == |t.alive| && AllAlive(t, a) && AllAlive(t, b)
    requires multiset(a) == multiset(b)
    ensures multiset(IdsAt(t, a)) == multiset(IdsAt(t, b))
    decreases |a|
  {
    if |a| == 0 {
      assert |b| == |multiset(b)| == 0;
    } else {
      var n := |a| - 1;
      assert a[n] in multiset(b);
      var i :| 0 <= i < |b| && b[i] == a[n];
      MultisetDrop(a, b, i);
      IdsAtDrop(t, b, i);
      IdsAtDrop(t, a, n);
      assert a[..n] + a[n + 1..] == a[..n];
      IdsAtPermutation(t, a[..n], b[..i] + b[i + 1..]);
    }
  }

  // ---------------------------------------------------------------------
  // From the insertion log to ids

  lemma {:induction false} BuildOpsSnoc(refs: seq<I.Ref>, keyOf: I.Ref -> Key)
    requires |refs| > 0
    ensures I.BuildOps(refs, keyOf)
         == I.BuildOps(refs[..|refs| - 1], keyOf) + [I.Op(keyOf(refs[|refs| - 1]), refs[|refs| - 1])]
    decreases |refs|
  {
    var n := |refs| - 1;
    if n == 0 {
      assert refs[..n] == [];
    } else {
      var tl, init := refs[1..], refs[..n];
      var first, last := I.Op(keyOf(refs[0]), refs[0]), I.Op(keyOf(refs[n]), refs[n]);
      assert tl[..|tl| - 1] == init[1..] && init[0] == refs[0] && tl[|tl| - 1] == refs[n];
      calc {
        I.BuildOps(refs, keyOf);
        [first] + I.BuildOps(tl, keyOf);
        { BuildOpsSnoc(tl, keyOf); }
        [first] + (I.BuildOps(init[1..], keyOf) + [last]);
        ([first] + I.BuildOps(init[1..], keyOf)) + [last];
        I.BuildOps(init, keyOf) + [last];
      }
    }
  }

  /** The last slot's contribution to a lookup of `k`. */
  lemma EqualsStep<R>(t: T.Table<R>, slots: seq<T.Slot>, key: R -> Key, k: Key)
    requires |t.records| == |t.alive| && AllAlive(t, slots) && |slots| > 0
    ensures var n := |slots| - 1;
      I.RefsOf(I.BuildOps(slots, Selector(t, key)), k)
        == I.RefsOf(I.BuildOps(slots[..n], Selector(t, key)), k)
           + (if key(t.records[slots[n]]) == k then [slots[n]] else [])
  {
    var sel := Selector(t, key);
    var n := |slots| - 1;
    assert sel(slots[n]) == key(t.records[slots[n]]);
    BuildOpsSnoc(slots, sel);
    I.RefsOfAppend(I.BuildOps(slots[..n], sel), I.Op(sel(slots[n]), slots[n]), k);
  }

  lemma RangeStep<R>(t: T.Table<R>, slots: seq<T.Slot>, key: R -> Key, from: Key, to: Key)
    requires |t.records| == |t.alive| && AllAlive(t, slots) && |slots| > 0
    ensures var n := |slots| - 1;
      I.RangeRefs(I.BuildOps(slots, Selector(t, key)), from, to)
        == I.RangeRefs(I.BuildOps(slots[..n], Selector(t, key)), from, to)
           + (if InRange(key(t.records[slots[n]]), from, to) then [slots[n]] else [])
  {
    var sel := Selector(t, key);
    var n := |slots| - 1;
    assert sel(slots[n]) == key(t.records[slots[n]]);
    BuildOpsSnoc(slots, sel);
    I.RangeRefsAppend(I.BuildOps(slots[..n], sel), I.Op(sel(slots[n]), slots[n]), from, to);
  }

  /** The rows of a slot list are the rows of its prefix and then the last
      slot's row. */
  lemma RowsAtSnoc<R>(t: T.Table<R>, slots: seq<T.Slot>)
    requires |t.records| == |t.alive| && AllAlive(t, slots) && |slots| > 0
    ensures AllAlive(t, slots[..|slots| - 1])
    ensures RowsAt(t, slots)[..|slots| - 1] == RowsAt(t, slots[..|slots| - 1])
    ensures RowsAt(t, slots)[|slots| - 1] == t.records[slots[|slots| - 1]]
  {
    AllAliveSlice(t, slots, 0, |slots| - 1);
    assert slots[..|slots| - 1] == slots[0..|slots| - 1];
  }

  /** The refs a lookup of `k` sees after building over alive slots are the
      slots whose row has key `k`, so their ids are the matching ids. */
  lemma {:induction false} EqualsAsIds<R>(t: T.Table<R>, slots: seq<T.Slot>, key: R -> Key, k: Key)
    requires |t.records| == |t.alive| && AllAlive(t, slots)
    ensures AllAlive(t, I.RefsOf(I.BuildOps(slots, Selector(t, key)), k))
    ensures IdsAt(t, I.RefsOf(I.BuildOps(slots, Selector(t, key)), k))
         == MatchingIds(RowsAt(t, slots), key, k, t.idOf)
  {
    if |slots| > 0 {
      var n := |slots| - 1;
      var pre := slots[..n];
      var row := t.records[slots[n]];
      RowsAtSnoc(t, slots);
      EqualsAsIds(t, pre, key, k);
      EqualsStep(t, slots, key, k);
      var here: seq<T.Slot> := if key(row) == k then [slots[n]] else [];
      assert AllAlive(t, here);
      IdsAtAppend(t, I.RefsOf(I.BuildOps(pre, Selector(t, key)), k), here);
      assert IdsAt(t, here) == if key(row) == k then [t.idOf(row)] else [];
    }
  }

  /** Likewise for a range scan: the in-range slots, so the in-range ids. */
  lemma {:induction false} RangeAsIds<R>(t: T.Table<R>, slots: seq<T.Slot>, key: R -> Key, from: Key, to: Key)
    requires |t.records| == |t.alive| && AllAlive(t, slots)
    ensures AllAlive(t, I.RangeRefs(I.BuildOps(slots, Selector(t, key)), from, to))
    ensures IdsAt(t, I.RangeRefs(I.BuildOps(slots, Selector(t, key)), from, to))
         == InRangeIds(RowsAt(t, slots), key, from, to, t.idOf)
  {
    if |slots| > 0 {
      var n := |slots| - 1;
      var pre := slots[..n];
      var row := t.records[slots[n]];
      RowsAtSnoc(t, slots);
      RangeAsIds(t, pre, key, from, to);
      RangeStep(t, slots, key, from, to);
      var here: seq<T.Slot> := if InRange(key(row), from, to) then [slots[n]] else [];
      assert AllAlive(t, here);
      IdsAtAppend(t, I.RangeRefs(I.BuildOps(pre, Selector(t, key)), from, to), here);
      assert IdsAt(t, here) == if InRange(key(row), from, to) then [t.idOf(row)] else [];
    }
  }

  lemma AliveSlotsAsRows<R>(t: T.Table<R>)
    requires T.Valid(t)
    ensures AllAlive(t, T.AliveSlots(t.alive))
    ensures RowsAt(t, T.AliveSlots(t.alive)) == T.AliveRows(t)
  {
    T.AliveSlotsSpec(t.alive);
    var slots := T.AliveSlots(t.alive);
    assert forall i :: 0 <= i < |slots| ==> slots[i] in slots;
  }

  // ---------------------------------------------------------------------
  // One index, rebuilt

  /** An equality lookup on a freshly rebuilt index, mapped to ids, gives the
      ids of exactly the live rows with that key, in slot order. */
  lemma FindEqualsAfterRebuild<R>(t: T.Table<R>, ix: I.Index, key: R -> Key, k: Key)
    requires T.Valid(t) && I.Valid(ix)
    ensures SlotsToIds(t, I.FindEquals(Rebuild(ix, t, key), k)) == Ok(MatchingIds(T.AliveRows(t), key, k, t.idOf))
  {
    var slots := T.AliveSlots(t.alive);
    var sel := Selector(t, key);
    AliveSlotsAsRows(t);
    I.BuildModels(ix, slots, sel);
    I.FindEqualsSpec(Rebuild(ix, t, key), I.BuildOps(slots, sel), k);
    EqualsAsIds(t, slots, key, k);
    SlotsToIdsSpec(t, I.RefsOf(I.BuildOps(slots, sel), k));
  }

  /** A range lookup on a freshly rebuilt index, mapped to ids, never fails,
      gives the ids of exactly the live rows with a key in `[from, to]`, and
      on a B-tree lists them in ascending key order. */
  lemma FindRangeAfterRebuild<R>(t: T.Table<R>, ix: I.Index, key: R -> Key, from: Key, to: Key)
    requires T.Valid(t) && I.Valid(ix)
    ensures SlotsToIds(t, I.FindRange(Rebuild(ix, t, key), from, to)).Ok?
    ensures var ids := SlotsToIds(t, I.FindRange(Rebuild(ix, t, key), from, to)).value;
      && multiset(ids) == multiset(InRangeIds(T.AliveRows(t), key, from, to, t.idOf))
      && forall i :: 0 <= i < |ids| ==> T.ContainsId(t, ids[i])
    ensures var ids := SlotsToIds(t, I.FindRange(Rebuild(ix, t, key), from, to)).value;
      ix.BTreeIndex? ==>
        forall i, j :: 0 <= i < j < |ids| ==> !Less(key(T.RowById(t, ids[j])), key(T.RowById(t, ids[i])))
  {
    var slots := T.AliveSlots(t.alive);
    var sel := Selector(t, key);
    var ix' := Rebuild(ix, t, key);
    var ops := I.BuildOps(slots, sel);
    var out := I.FindRange(ix', from, to);
    AliveSlotsAsRows(t);
    I.BuildModels(ix, slots, sel);
    I.FindRangeSpec(ix', ops, from, to);
    RangeAsIds(t, slots, key, from, to);
    var expected := I.RangeRefs(ops, from, to);
    assert AllAlive(t, out) by {
      forall i | 0 <= i < |out| ensures T.IsAliveSlot(t, out[i]) {
        assert out[i] in multiset(expected);
        var j :| 0 <= j < |expected| && expected[j] == out[i];
      }
    }
    SlotsToIdsSpec(t, out);
    IdsAtPermutation(t, out, expected);
    var ids := IdsAt(t, out);
    forall i | 0 <= i < |ids| ensures T.ContainsId(t, ids[i]) && T.RowById(t, ids[i]) == t.records[out[i]] {
      T.RowByIdOfSlot(t, out[i]);
    }
    if ix.BTreeIndex? {
      I.BuildKeyed(slots, sel);
      I.FindRangeOrdered(ix', ops, sel, from, to);
    }
  }

  // ---------------------------------------------------------------------
  // The database's queries

  lemma AddressQueries(db: Database, city: string, fromId: int, toId: int)
    requires Valid(db)
    ensures var db' := BuildIndexes(db);
      FindAddressIdsByCity(db', city)
        == Ok(MatchingIds(T.AliveRows(db.addresses), AddressCityKey, StrKey(city), AddressId))
    ensures var db' := BuildIndexes(db);
      var r := FindAddressIdsByIdRange(db', fromId, toId);
      && r.Ok?
      && multiset(r.value)
         == multiset(InRangeIds(T.AliveRows(db.addresses), AddressIdKey, IntKey(fromId), IntKey(toId), AddressId))
      && (forall i :: 0 <= i < |r.value| ==> T.ContainsId(db.addresses, r.value[i]))
      && forall i, j :: 0 <= i < j < |r.value| ==>
           T.RowById(db.addresses, r.value[i]).id <= T.RowById(db.addresses, r.value[j]).id
  {
    FindEqualsAfterRebuild(db.addresses, db.ix.addressesByCity, AddressCityKey, StrKey(city));
    FindRangeAfterRebuild(db.addresses, db.ix.addressesById, AddressIdKey, IntKey(fromId), IntKey(toId));
  }

  lemma DepartmentQueries(db: Database, name: string, addressId: int)
    requires Valid(db)
    ensures var db' := BuildIndexes(db);
      FindDepartmentIdsByName(db', name)
        == Ok(MatchingIds(T.AliveRows(db.departments), DepartmentNameKey, StrKey(name), DepartmentId))
    ensures var db' := BuildIndexes(db);
      FindDepartmentIdsByAddressId(db', addressId)
        == Ok(MatchingIds(T.AliveRows(db.departments), DepartmentAddressKey, IntKey(addressId), DepartmentId))
  {
    FindEqualsAfterRebuild(db.departments, db.ix.departmentsByName, DepartmentNameKey, StrKey(name));
    FindEqualsAfterRebuild(db.departments, db.ix.departmentsByAddressId, DepartmentAddressKey, IntKey(addressId));
  }

  lemma EmployeeQueries(db: Database, fullName: string, y1: int, y2: int, deptId: int)
    requires Valid(db)
    ensures var db' := BuildIndexes(db);
      FindEmployeeIdsByFullName(db', fullName)
        == Ok(MatchingIds(T.AliveRows(db.employees), EmployeeFullNameKey, StrKey(fullName), EmployeeId))
    ensures var db' := BuildIndexes(db);
      FindEmployeeIdsByDeptId(db', deptId)
        == Ok(MatchingIds(T.AliveRows(db.employees), EmployeeDeptKey, IntKey(deptId), EmployeeId))
    ensures var db' := BuildIndexes(db);
      var r := FindEmployeeIdsByBirthYearRange(db', y1, y2);
      && r.Ok?
      && multiset(r.value)
         == multiset(InRangeIds(T.AliveRows(db.employees), EmployeeBirthYearKey, IntKey(y1), IntKey(y2), EmployeeId))
      && (forall i :: 0 <= i < |r.value| ==> T.ContainsId(db.employees, r.value[i]))
      && forall i, j :: 0 <= i < j < |r.value| ==>
           T.RowById(db.employees, r.value[i]).birthYear <= T.RowById(db.employees, r.value[j]).birthYear
  {
    FindEqualsAfterRebuild(db.employees, db.ix.employeesByFullName, EmployeeFullNameKey, StrKey(fullName));
    FindEqualsAfterRebuild(db.employees, db.ix.employeesByDeptId, EmployeeDeptKey, IntKey(deptId));
    FindRangeAfterRebuild(db.employees, db.ix.employeesByBirthYear, EmployeeBirthYearKey, IntKey(y1), IntKey(y2));
  }

  /** The ids, in row order, of the employees whose last, first and middle
      names are exactly the given ones. */
  function NamedIds(rows: seq<Employee>, last: string, first: string, middle: string): seq<int> {
    if |rows| == 0 then []
    else
      var e := rows[|rows| - 1];
      NamedIds(rows[..|rows| - 1], last, first, middle)
        + (if (e.last, e.first, e.middle) == (last, first, middle) then [e.id] else [])
  }

  /** No last or first name contains a space. */
  ghost predicate SpaceFreeNames(rows: seq<Employee>) {
    forall i :: 0 <= i < |rows| ==> NoSpace(rows[i].last) && NoSpace(rows[i].first)
  }

  /** When no last or first name contains a space, matching the full name is
      matching all three name parts. */
  lemma {:induction false} FullNameMatchesParts(rows: seq<Employee>, last: string, first: string, middle: string)
    requires SpaceFreeNames(rows) && NoSpace(last) && NoSpace(first)
    ensures MatchingIds(rows, EmployeeFullNameKey, StrKey(last + " " + first + " " + middle), EmployeeId)
         == NamedIds(rows, last, first, middle)
    decreases |rows|
  {
    if |rows| > 0 {
      var n := |rows| - 1;
      assert SpaceFreeNames(rows[..n]) by {
        forall i | 0 <= i < n ensures NoSpace(rows[..n][i].last) && NoSpace(rows[..n][i].first) {
          assert rows[..n][i] == rows[i];
        }
      }
      FullNameMatchesParts(rows[..n], last, first, middle);
      FullNameInjective(rows[n], Employee(0, last, first, middle, 0, 0));
    }
  }

  /** The full-name query for "last first middle" returns exactly the live
      employees with those three name parts, provided no last or first name
      contains a space. */
  lemma FullNameQuery(db: Database, last: string, first: string, middle: string)
    requires Valid(db) && SpaceFreeNames(T.AliveRows(db.employees)) && NoSpace(last) && NoSpace(first)
    ensures FindEmployeeIdsByFullName(BuildIndexes(db), last + " " + first + " " + middle)
         == Ok(NamedIds(T.AliveRows(db.employees), last, first, middle))
  {
    var q := last + " " + first + " " + middle;
    FindEqualsAfterRebuild(db.employees, db.ix.employeesByFullName, EmployeeFullNameKey, StrKey(q));
    FullNameMatchesParts(T.AliveRows(db.employees), last, first, middle);
  }

  lemma SupplierQueries(db: Database, name: string, city: string)
    requires Valid(db)
    ensures var db' := BuildIndexes(db);
      FindSupplierIdsByName(db', name)
        == Ok(MatchingIds(T.AliveRows(db.suppliers), SupplierNameKey, StrKey(name), SupplierId))
    ensures var db' := BuildIndexes(db);
      FindSupplierIdsByCity(db', city)
        == Ok(MatchingIds(T.AliveRows(db.suppliers), SupplierCityKey, StrKey(city), SupplierId))
  {
    FindEqualsAfterRebuild(db.suppliers, db.ix.suppliersByName, SupplierNameKey, StrKey(name));
    FindEqualsAfterRebuild(db.suppliers, db.ix.suppliersByCity, SupplierCityKey, StrKey(city));
  }

  lemma ProductQueries(db: Database, name: string, supplierId: int)
    requires Valid(db)
    ensures var db' := BuildIndexes(db);
      FindProductIdsByName(db', name)
        == Ok(MatchingIds(T.AliveRows(db.products), ProductNameKey, StrKey(name), ProductId))
    ensures var db' := BuildIndexes(db);
      FindProductIdsByDefaultSupplierId(db', supplierId)
        == Ok(MatchingIds(T.AliveRows(db.products), ProductSupplierKey, IntKey(supplierId), ProductId))
  {
    FindEqualsAfterRebuild(db.products, db.ix.productsByName, ProductNameKey, StrKey(name));
    FindEqualsAfterRebuild(db.products, db.ix.productsByDefaultSupplierId, ProductSupplierKey, IntKey(supplierId));
  }

  lemma PurchaseQueries(db: Database, from: string, to: string, supplierId: int, productId: int, deptId: int)
    requires Valid(db)
    ensures var db' := BuildIndexes(db);
      FindPurchaseIdsBySupplierId(db', supplierId)
        == Ok(MatchingIds(T.AliveRows(db.purchases), PurchaseSupplierKey, IntKey(supplierId), PurchaseId))
    ensures var db' := BuildIndexes(db);
      FindPurchaseIdsByProductId(db', productId)
        == Ok(MatchingIds(T.AliveRows(db.purchases), PurchaseProductKey, IntKey(productId), PurchaseId))
    ensures var db' := BuildIndexes(db);
      FindPurchaseIdsByDeptId(db', deptId)
        == Ok(MatchingIds(T.AliveRows(db.purchases), PurchaseDeptKey, IntKey(deptId), PurchaseId))
    ensures var db' := BuildIndexes(db);
      var r := FindPurchaseIdsByDateRange(db', from, to);
      && r.Ok?
      && multiset(r.value)
         == multiset(InRangeIds(T.AliveRows(db.purchases), PurchaseDateKey, StrKey(from), StrKey(to), PurchaseId))
      && (forall i :: 0 <= i < |r.value| ==> T.ContainsId(db.purchases, r.value[i]))
      && forall i, j :: 0 <= i < j < |r.value| ==>
           !StrLess(T.RowById(db.purchases, r.value[j]).date, T.RowById(db.purchases, r.value[i]).date)
  {
    FindEqualsAfterRebuild(db.purchases, db.ix.purchasesBySupplierId, PurchaseSupplierKey, IntKey(supplierId));
    FindEqualsAfterRebuild(db.purchases, db.ix.purchasesByProductId, PurchaseProductKey, IntKey(productId));
    FindEqualsAfterRebuild(db.purchases, db.ix.purchasesByDeptId, PurchaseDeptKey, IntKey(deptId));
    PurchaseDateQuery(db, from, to);
  }

  lemma PurchaseDateQuery(db: Database, from: string, to: string)
    requires Valid(db)
    ensures var db' := BuildIndexes(db);
      var r := FindPurchaseIdsByDateRange(db', from, to);
      && r.Ok?
      && multiset(r.value)
         == multiset(InRangeIds(T.AliveRows(db.purchases), PurchaseDateKey, StrKey(from), StrKey(to), PurchaseId))
      && (forall i :: 0 <= i < |r.value| ==> T.ContainsId(db.purchases, r.value[i]))
      && forall i, j :: 0 <= i < j < |r.value| ==>
           !StrLess(T.RowById(db.purchases, r.value[j]).date, T.RowById(db.purchases, r.value[i]).date)
  {
    FindRangeAfterRebuild(db.purchases, db.ix.purchasesByDate, PurchaseDateKey, StrKey(from), StrKey(to));
  }
}
