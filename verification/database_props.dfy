/** Properties of the database: what each validator and guard detects, the
    load order, referential integrity after a load and across deletes, and
    what the `Find*` queries return right after `BuildIndexes`. */
module DatabaseProperties {
  import opened Wrappers
  import opened Keys
  import opened DbErrors
  import opened Records
  import opened Databases
  import T = Tables
  import I = Indexes
  import H = HashTables

  // ---------------------------------------------------------------------
  // Row scans

  /** The scan reports the error of the first row that has one, and nothing
      when no row does. */
  lemma {:induction false} FirstErrorSpec<R>(rows: seq<R>, check: (R, int) -> Option<ConstraintError>, i: nat)
    ensures FirstError(rows, check, i).None? <==> forall k :: i <= k < |rows| ==> check(rows[k], k).None?
    ensures FirstError(rows, check, i).Some? ==>
              exists k :: i <= k < |rows| && FirstError(rows, check, i) == check(rows[k], k)
                && forall j :: i <= j < k ==> check(rows[j], j).None?
    decreases |rows| - i
  {
    if i < |rows| && check(rows[i], i).None? {
      FirstErrorSpec(rows, check, i + 1);
      if FirstError(rows, check, i).Some? {
        var k :| i + 1 <= k < |rows| && FirstError(rows, check, i + 1) == check(rows[k], k)
                 && forall j :: i + 1 <= j < k ==> check(rows[j], j).None?;
        assert forall j :: i <= j < k ==> check(rows[j], j).None?;
      }
    }
  }

  /** Row `k`'s name already appeared at an earlier alive index. */
  ghost predicate RepeatAt<R>(rows: seq<R>, name: R -> string, k: int)
    requires 0 <= k < |rows|
  {
    exists j :: 0 <= j < k && name(rows[j]) == name(rows[k])
  }

  /** Row `k` is the first row from `i` on whose name repeats. */
  ghost predicate FirstRepeat<R>(rows: seq<R>, name: R -> string, i: nat, k: int) {
    && i <= k < |rows| && RepeatAt(rows, name, k)
    && forall j :: i <= j < k ==> !RepeatAt(rows, name, j)
  }

  ghost predicate NoRepeatFrom<R>(rows: seq<R>, name: R -> string, i: nat) {
    forall k :: i <= k < |rows| ==> !RepeatAt(rows, name, k)
  }

  ghost predicate DistinctNames<R>(rows: seq<R>, name: R -> string) {
    forall i, j :: 0 <= i < j < |rows| ==> name(rows[i]) != name(rows[j])
  }

  /** The `seen` set of the unique-name scan after `i` rows. */
  ghost predicate SeenExactly<R>(seen: H.HashTable<string, int>, rows: seq<R>, name: R -> string, i: nat) {
    && H.Valid(seen)
    && i <= |rows|
    && forall n :: H.Contains(seen, n) <==> exists j :: 0 <= j < i && name(rows[j]) == n
  }

  /** Adding a fresh name to `seen` accounts for one more row. */
  lemma SeenStep<R>(seen: H.HashTable<string, int>, rows: seq<R>, name: R -> string, i: nat, id: int)
    requires SeenExactly(seen, rows, name, i) && i < |rows|
    ensures SeenExactly(H.Set(seen, name(rows[i]), id), rows, name, i + 1)
  {
    var n := name(rows[i]);
    var seen' := H.Set(seen, n, id);
    H.SetSpec(seen, n, id);
    forall m ensures H.Contains(seen', m) <==> exists j :: 0 <= j < i + 1 && name(rows[j]) == m {
      if m == n {
        assert H.Get(seen', n).Some?;
        assert name(rows[i]) == m;
      } else {
        SeenOther(seen, seen', rows, name, i, m);
      }
    }
  }

  lemma SeenOther<R>(seen: H.HashTable<string, int>, seen': H.HashTable<string, int>,
                     rows: seq<R>, name: R -> string, i: nat, m: string)
    requires SeenExactly(seen, rows, name, i) && i < |rows| && m != name(rows[i])
    requires H.Get(seen', m) == H.Get(seen, m)
    ensures H.Contains(seen', m) <==> exists j :: 0 <= j < i + 1 && name(rows[j]) == m
  {
    assert H.Contains(seen, m) <==> exists j :: 0 <= j < i && name(rows[j]) == m;
    if exists j :: 0 <= j < i + 1 && name(rows[j]) == m {
      var j :| 0 <= j < i + 1 && name(rows[j]) == m;
      assert j < i;
    }
    if H.Contains(seen', m) {
      var j :| 0 <= j < i && name(rows[j]) == m;
      assert 0 <= j < i + 1;
    }
  }

  lemma {:induction false} ScanUniqueSpec<R>(table: string, rows: seq<R>, name: R -> string, idOf: R -> int,
                                            i: nat, seen: H.HashTable<string, int>)
    requires SeenExactly(seen, rows, name, i)
    ensures ScanUnique(table, rows, name, idOf, i, seen).None? <==> NoRepeatFrom(rows, name, i)
    ensures ScanUnique(table, rows, name, idOf, i, seen).Some? ==>
              exists k :: FirstRepeat(rows, name, i, k)
                && ScanUnique(table, rows, name, idOf, i, seen).value == Unique(table, "name", name(rows[k]), k)
    decreases |rows| - i
  {
    if i < |rows| {
      var n := name(rows[i]);
      if H.Contains(seen, n) {
        assert RepeatAt(rows, name, i);
        assert FirstRepeat(rows, name, i, i);
      } else {
        assert !RepeatAt(rows, name, i);
        SeenStep(seen, rows, name, i, idOf(rows[i]));
        var seen' := H.Set(seen, n, idOf(rows[i]));
        ScanUniqueSpec(table, rows, name, idOf, i + 1, seen');
        if ScanUnique(table, rows, name, idOf, i, seen).Some? {
          var k :| FirstRepeat(rows, name, i + 1, k)
                   && ScanUnique(table, rows, name, idOf, i + 1, seen').value == Unique(table, "name", name(rows[k]), k);
          assert FirstRepeat(rows, name, i, k);
        }
      }
    }
  }

  /** A unique-name validator reports `Unique(table, "name", value, i)` for
      the first alive row `i` whose name appeared before, and nothing exactly
      when the names are pairwise distinct. */
  lemma ValidateUniqueNamesSpec<R>(table: string, t: T.Table<R>, name: R -> string,
                                   capacity: nat, keyHash: Key -> nat)
    requires |t.records| == |t.alive|
    ensures ValidateUniqueNames(table, t, name, capacity, keyHash).None? <==> DistinctNames(T.AliveRows(t), name)
    ensures ValidateUniqueNames(table, t, name, capacity, keyHash).Some? ==>
              exists k :: FirstRepeat(T.AliveRows(t), name, 0, k)
                && ValidateUniqueNames(table, t, name, capacity, keyHash).value
                   == Unique(table, "name", name(T.AliveRows(t)[k]), k)
  {
    var rows := T.AliveRows(t);
    var seen: H.HashTable<string, int> := H.Create((s: string) => keyHash(StrKey(s)), capacity);
    ScanUniqueSpec(table, rows, name, t.idOf, 0, seen);
    if !DistinctNames(rows, name) {
      var i, j :| 0 <= i < j < |rows| && name(rows[i]) == name(rows[j]);
      assert RepeatAt(rows, name, j);
    }
  }

  /** Every reference of the rows resolves to a live id of the target. */
  ghost predicate Resolves<R, S>(rows: seq<R>, ref: R -> int, target: T.Table<S>) {
    forall i :: 0 <= i < |rows| ==> T.ContainsId(target, ref(rows[i]))
  }

  /** Row `k` is the first whose reference does not resolve. */
  ghost predicate FirstUnresolved<R, S>(rows: seq<R>, ref: R -> int, target: T.Table<S>, k: int) {
    && 0 <= k < |rows| && !T.ContainsId(target, ref(rows[k]))
    && forall j :: 0 <= j < k ==> T.ContainsId(target, ref(rows[j]))
  }

  /** A foreign-key validator reports `ForeignKey(table, field, value,
      refTable, "id", i)` for the first alive row `i` whose reference is not a
      live id of the target, and nothing exactly when every reference
      resolves. */
  lemma FkScanSpec<R, S>(table: string, field: string, refTable: string, rows: seq<R>,
                         ref: R -> int, target: T.Table<S>)
    ensures FirstError(rows, FkCheck(table, field, refTable, ref, target), 0).None? <==> Resolves(rows, ref, target)
    ensures FirstError(rows, FkCheck(table, field, refTable, ref, target), 0).Some? ==>
              exists k :: FirstUnresolved(rows, ref, target, k)
                && FirstError(rows, FkCheck(table, field, refTable, ref, target), 0).value
                   == ForeignKey(table, field, IntToString(ref(rows[k])), refTable, "id", k)
  {
    FirstErrorSpec(rows, FkCheck(table, field, refTable, ref, target), 0);
  }

  /** The three references of a purchase resolve. */
  ghost predicate PurchaseResolves(db: Database, p: Purchase) {
    && T.ContainsId(db.departments, p.deptId)
    && T.ContainsId(db.suppliers, p.supplierId)
    && T.ContainsId(db.products, p.productId)
  }

  /** The error the purchase at alive index `k` raises: its department if
      that is missing, else its supplier, else its product. */
  function PurchaseFkError(db: Database, p: Purchase, k: int): ConstraintError {
    if !T.ContainsId(db.departments, p.deptId) then
      ForeignKey("purchases", "dept_id", IntToString(p.deptId), "departments", "id", k)
    else if !T.ContainsId(db.suppliers, p.supplierId) then
      ForeignKey("purchases", "supplier_id", IntToString(p.supplierId), "suppliers", "id", k)
    else
      ForeignKey("purchases", "product_id", IntToString(p.productId), "products", "id", k)
  }

  lemma PurchaseCheckSpec(db: Database, p: Purchase, k: int)
    ensures PurchaseCheck(db)(p, k).None? <==> PurchaseResolves(db, p)
    ensures PurchaseCheck(db)(p, k).Some? ==> PurchaseCheck(db)(p, k).value == PurchaseFkError(db, p, k)
  {
    var dept := FkCheck("purchases", "dept_id", "departments", PurchaseDept, db.departments)(p, k);
    var sup := FkCheck("purchases", "supplier_id", "suppliers", PurchaseSupplier, db.suppliers)(p, k);
    var prod := FkCheck("purchases", "product_id", "products", PurchaseProduct, db.products)(p, k);
    assert PurchaseCheck(db)(p, k) == if dept.Some? then dept else if sup.Some? then sup else prod;
    assert dept.None? <==> T.ContainsId(db.departments, p.deptId);
    assert sup.None? <==> T.ContainsId(db.suppliers, p.supplierId);
    assert prod.None? <==> T.ContainsId(db.products, p.productId);
  }

  ghost predicate FirstBadPurchase(db: Database, rows: seq<Purchase>, k: int) {
    && 0 <= k < |rows| && !PurchaseResolves(db, rows[k])
    && forall j :: 0 <= j < k ==> PurchaseResolves(db, rows[j])
  }

  /** The purchase validator reports the first alive purchase with an
      unresolved reference, checking department, then supplier, then
      product. */
  lemma ValidatePurchasesFkSpec(db: Database)
    requires TablesValid(db)
    ensures ValidatePurchasesFk(db).None? <==>
              forall i :: 0 <= i < |T.AliveRows(db.purchases)| ==> PurchaseResolves(db, T.AliveRows(db.purchases)[i])
    ensures ValidatePurchasesFk(db).Some? ==>
              exists k :: FirstBadPurchase(db, T.AliveRows(db.purchases), k)
                && ValidatePurchasesFk(db).value == PurchaseFkError(db, T.AliveRows(db.purchases)[k], k)
  {
    var rows := T.AliveRows(db.purchases);
    var check := PurchaseCheck(db);
    FirstErrorSpec(rows, check, 0);
    forall k | 0 <= k < |rows| ensures check(rows[k], k).None? <==> PurchaseResolves(db, rows[k]) {
      PurchaseCheckSpec(db, rows[k], k);
    }
    if ValidatePurchasesFk(db).Some? {
      var k :| 0 <= k < |rows| && FirstError(rows, check, 0) == check(rows[k], k)
               && forall j :: 0 <= j < k ==> check(rows[j], j).None?;
      PurchaseCheckSpec(db, rows[k], k);
      assert FirstBadPurchase(db, rows, k);
    }
  }

  // ---------------------------------------------------------------------
  // Integrity

  /** Department, supplier and product names are unique among live rows. */
  ghost predicate UniqueNames(db: Database)
    requires TablesValid(db)
  {
    && DistinctNames(T.AliveRows(db.departments), DepartmentName)
    && DistinctNames(T.AliveRows(db.suppliers), SupplierName)
    && DistinctNames(T.AliveRows(db.products), ProductName)
  }

  /** Every foreign key of every live row names a live row. */
  ghost predicate ForeignKeysHold(db: Database)
    requires TablesValid(db)
  {
    && Resolves(T.AliveRows(db.departments), DepartmentAddress, db.addresses)
    && Resolves(T.AliveRows(db.employees), EmployeeDept, db.departments)
    && Resolves(T.AliveRows(db.products), ProductSupplier, db.suppliers)
    && Resolves(T.AliveRows(db.purchases), PurchaseDept, db.departments)
    && Resolves(T.AliveRows(db.purchases), PurchaseSupplier, db.suppliers)
    && Resolves(T.AliveRows(db.purchases), PurchaseProduct, db.products)
  }

  /** Each validator passes exactly when its part of the integrity
      predicates holds. */
  lemma ValidatorsPassIff(db: Database)
    requires TablesValid(db)
    ensures ValidateUniqueSupplierNames(db).None? <==> DistinctNames(T.AliveRows(db.suppliers), SupplierName)
    ensures ValidateUniqueProductNames(db).None? <==> DistinctNames(T.AliveRows(db.products), ProductName)
    ensures ValidateUniqueDepartmentNames(db).None? <==> DistinctNames(T.AliveRows(db.departments), DepartmentName)
    ensures ValidateProductsDefaultSupplierFk(db).None? <==>
              Resolves(T.AliveRows(db.products), ProductSupplier, db.suppliers)
    ensures ValidateDepartmentsAddressFk(db).None? <==>
              Resolves(T.AliveRows(db.departments), DepartmentAddress, db.addresses)
    ensures ValidateEmployeesDeptFk(db).None? <==>
              Resolves(T.AliveRows(db.employees), EmployeeDept, db.departments)
    ensures ValidatePurchasesFk(db).None? <==>
              && Resolves(T.AliveRows(db.purchases), PurchaseDept, db.departments)
              && Resolves(T.AliveRows(db.purchases), PurchaseSupplier, db.suppliers)
              && Resolves(T.AliveRows(db.purchases), PurchaseProduct, db.products)
  {
    ValidateUniqueNamesSpec("suppliers", db.suppliers, SupplierName, 256, db.hashes.key);
    ValidateUniqueNamesSpec("products", db.products, ProductName, 512, db.hashes.key);
    ValidateUniqueNamesSpec("departments", db.departments, DepartmentName, 128, db.hashes.key);
    FkScanSpec("products", "default_supplier_id", "suppliers", T.AliveRows(db.products),
               ProductSupplier, db.suppliers);
    FkScanSpec("departments", "address_id", "addresses", T.AliveRows(db.departments),
               DepartmentAddress, db.addresses);
    FkScanSpec("employees", "dept_id", "departments", T.AliveRows(db.employees),
               EmployeeDept, db.departments);
    ValidatePurchasesFkSpec(db);
  }

  // ---------------------------------------------------------------------
  // Load

  /** All six tables loaded up front. */
  function LoadAllTables(files: Files, hashes: Hashes): (db: Database)
    ensures Valid(db)
  {
    WithPurchases(WithEmployees(WithDepartments(LoadFirstTables(files, hashes), files), files), files)
  }

  /** The first `Some` of a list, in order. */
  function FirstSome<E>(s: seq<Option<E>>): Option<E>
  {
    if |s| == 0 then None
    else if s[0].Some? then s[0]
    else FirstSome(s[1..])
  }

  /** `FirstSome` is none exactly when every entry is none, and otherwise the
      earliest entry that is some. */
  lemma {:induction false} FirstSomeSpec<E>(s: seq<Option<E>>)
    ensures FirstSome(s).None? <==> forall i :: 0 <= i < |s| ==> s[i].None?
    ensures FirstSome(s).Some? ==>
              exists i :: 0 <= i < |s| && s[i] == FirstSome(s) && forall j :: 0 <= j < i ==> s[j].None?
  {
    if |s| > 0 && s[0].None? {
      FirstSomeSpec(s[1..]);
      assert forall i :: 1 <= i < |s| ==> s[i] == s[1..][i - 1];
      if FirstSome(s).Some? {
        var i :| 0 <= i < |s| - 1 && s[1..][i] == FirstSome(s) && forall j :: 0 <= j < i ==> s[1..][j].None?;
        assert s[i + 1] == FirstSome(s) && forall j :: 0 <= j < i + 1 ==> s[j].None?;
      }
    }
  }

  lemma FirstSomeCons<E>(x: Option<E>, s: seq<Option<E>>)
    ensures FirstSome([x] + s) == if x.Some? then x else FirstSome(s)
  {
    assert ([x] + s)[1..] == s;
  }

  lemma FirstSomeOfSeven<E>(a: Option<E>, b: Option<E>, c: Option<E>, d: Option<E>,
                            e: Option<E>, f: Option<E>, g: Option<E>)
    ensures FirstSome([a, b, c, d, e, f, g])
         == if a.Some? then a else if b.Some? then b else if c.Some? then c
            else if d.Some? then d else if e.Some? then e else if f.Some? then f else g
  {
    FirstSomeCons(g, []);
    FirstSomeCons(f, [g]);
    FirstSomeCons(e, [f, g]);
    FirstSomeCons(d, [e, f, g]);
    FirstSomeCons(c, [d, e, f, g]);
    FirstSomeCons(b, [c, d, e, f, g]);
    FirstSomeCons(a, [b, c, d, e, f, g]);
    assert [a, b, c, d, e, f, g] == [a] + [b, c, d, e, f, g];
  }

  /** The seven checks in the order the load runs them. */
  function LoadChecks(db: Database): seq<Option<ConstraintError>>
    requires TablesValid(db)
  {
    [ValidateUniqueSupplierNames(db), ValidateUniqueProductNames(db),
     ValidateProductsDefaultSupplierFk(db), ValidateUniqueDepartmentNames(db),
     ValidateDepartmentsAddressFk(db), ValidateEmployeesDeptFk(db), ValidatePurchasesFk(db)]
  }

  /** The checks of the first stage read only the first three tables. */
  lemma FirstStageChecks(a: Database, b: Database)
    requires TablesValid(a) && TablesValid(b)
    requires a.suppliers == b.suppliers && a.products == b.products && a.hashes == b.hashes
    ensures ValidateUniqueSupplierNames(a) == ValidateUniqueSupplierNames(b)
    ensures ValidateUniqueProductNames(a) == ValidateUniqueProductNames(b)
    ensures ValidateProductsDefaultSupplierFk(a) == ValidateProductsDefaultSupplierFk(b)
  {
  }

  lemma SecondStageChecks(a: Database, b: Database)
    requires TablesValid(a) && TablesValid(b)
    requires a.departments == b.departments && a.addresses == b.addresses && a.hashes == b.hashes
    ensures ValidateUniqueDepartmentNames(a) == ValidateUniqueDepartmentNames(b)
    ensures ValidateDepartmentsAddressFk(a) == ValidateDepartmentsAddressFk(b)
  {
  }

  lemma ThirdStageChecks(a: Database, b: Database)
    requires TablesValid(a) && TablesValid(b)
    requires a.departments == b.departments && a.employees == b.employees
    ensures ValidateEmployeesDeptFk(a) == ValidateEmployeesDeptFk(b)
  {
  }

  /** The staged load behaves as loading every table and then running the
      seven checks in order: the first failing check is the result, and when
      none fails the indexes are built over the loaded tables. Each check
      reads only tables loaded before it, so staging changes nothing but the
      work saved. */
  lemma LoadOrder(files: Files, hashes: Hashes)
    ensures var db := LoadAllTables(files, hashes);
      var first := FirstSome(LoadChecks(db));
      LoadFromFiles(files, hashes) == if first.Some? then Err(first.value) else Ok(BuildIndexes(db))
  {
    var db := LoadAllTables(files, hashes);
    var db1 := LoadFirstTables(files, hashes);
    var db2 := WithDepartments(db1, files);
    var db3 := WithEmployees(db2, files);
    FirstStageChecks(db1, db);
    SecondStageChecks(db2, db);
    ThirdStageChecks(db3, db);
    FirstSomeOfSeven(ValidateUniqueSupplierNames(db), ValidateUniqueProductNames(db),
                     ValidateProductsDefaultSupplierFk(db), ValidateUniqueDepartmentNames(db),
                     ValidateDepartmentsAddressFk(db), ValidateEmployeesDeptFk(db), ValidatePurchasesFk(db));
  }

  /** A successful load yields unique names and resolving foreign keys. */
  lemma LoadIntegrity(files: Files, hashes: Hashes)
    requires LoadFromFiles(files, hashes).Ok?
    ensures var db := LoadFromFiles(files, hashes).value;
      Valid(db) && UniqueNames(db) && ForeignKeysHold(db)
  {
    var db := LoadAllTables(files, hashes);
    LoadOrder(files, hashes);
    ValidatorsPassIff(db);
    FirstSomeOfSeven(ValidateUniqueSupplierNames(db), ValidateUniqueProductNames(db),
                     ValidateProductsDefaultSupplierFk(db), ValidateUniqueDepartmentNames(db),
                     ValidateDepartmentsAddressFk(db), ValidateEmployeesDeptFk(db), ValidatePurchasesFk(db));
  }

  /** Each check reports only the kind of violation it looks for. */
  lemma CheckKinds(db: Database)
    requires TablesValid(db)
    ensures ValidateUniqueSupplierNames(db).Some? ==> ValidateUniqueSupplierNames(db).value.kind == UniqueViolation
    ensures ValidateUniqueProductNames(db).Some? ==> ValidateUniqueProductNames(db).value.kind == UniqueViolation
    ensures ValidateUniqueDepartmentNames(db).Some? ==> ValidateUniqueDepartmentNames(db).value.kind == UniqueViolation
    ensures ValidateProductsDefaultSupplierFk(db).Some? ==>
              ValidateProductsDefaultSupplierFk(db).value.kind == ForeignKeyViolation
    ensures ValidateDepartmentsAddressFk(db).Some? ==> ValidateDepartmentsAddressFk(db).value.kind == ForeignKeyViolation
    ensures ValidateEmployeesDeptFk(db).Some? ==> ValidateEmployeesDeptFk(db).value.kind == ForeignKeyViolation
    ensures ValidatePurchasesFk(db).Some? ==> ValidatePurchasesFk(db).value.kind == ForeignKeyViolation
  {
    UniqueCheckKinds(db);
    FkCheckKinds(db);
  }

  lemma UniqueCheckKinds(db: Database)
    requires TablesValid(db)
    ensures ValidateUniqueSupplierNames(db).Some? ==> ValidateUniqueSupplierNames(db).value.kind == UniqueViolation
    ensures ValidateUniqueProductNames(db).Some? ==> ValidateUniqueProductNames(db).value.kind == UniqueViolation
    ensures ValidateUniqueDepartmentNames(db).Some? ==> ValidateUniqueDepartmentNames(db).value.kind == UniqueViolation
  {
    ValidateUniqueNamesSpec("suppliers", db.suppliers, SupplierName, 256, db.hashes.key);
    ValidateUniqueNamesSpec("products", db.products, ProductName, 512, db.hashes.key);
    ValidateUniqueNamesSpec("departments", db.departments, DepartmentName, 128, db.hashes.key);
  }

  lemma FkCheckKinds(db: Database)
    requires TablesValid(db)
    ensures ValidateProductsDefaultSupplierFk(db).Some? ==>
              ValidateProductsDefaultSupplierFk(db).value.kind == ForeignKeyViolation
    ensures ValidateDepartmentsAddressFk(db).Some? ==> ValidateDepartmentsAddressFk(db).value.kind == ForeignKeyViolation
    ensures ValidateEmployeesDeptFk(db).Some? ==> ValidateEmployeesDeptFk(db).value.kind == ForeignKeyViolation
    ensures ValidatePurchasesFk(db).Some? ==> ValidatePurchasesFk(db).value.kind == ForeignKeyViolation
  {
    FkScanSpec("products", "default_supplier_id", "suppliers", T.AliveRows(db.products),
               ProductSupplier, db.suppliers);
    FkScanSpec("departments", "address_id", "addresses", T.AliveRows(db.departments),
               DepartmentAddress, db.addresses);
    FkScanSpec("employees", "dept_id", "departments", T.AliveRows(db.employees),
               EmployeeDept, db.departments);
    ValidatePurchasesFkSpec(db);
  }

  /** A failed load reports a uniqueness or a foreign-key violation: never a
      duplicate primary key, since duplicate ids are skipped while loading. */
  lemma LoadErrorKinds(files: Files, hashes: Hashes)
    requires LoadFromFiles(files, hashes).Err?
    ensures LoadFromFiles(files, hashes).error.kind in {UniqueViolation, ForeignKeyViolation}
  {
    var db := LoadAllTables(files, hashes);
    LoadOrder(files, hashes);
    CheckKinds(db);
    FirstSomeOfSeven(ValidateUniqueSupplierNames(db), ValidateUniqueProductNames(db),
                     ValidateProductsDefaultSupplierFk(db), ValidateUniqueDepartmentNames(db),
                     ValidateDepartmentsAddressFk(db), ValidateEmployeesDeptFk(db), ValidatePurchasesFk(db));
  }

  // ---------------------------------------------------------------------
  // Deletes

  /** Some live row references `id`. */
  ghost predicate Blocks<R>(rows: seq<R>, ref: R -> int, id: int) {
    exists i :: 0 <= i < |rows| && ref(rows[i]) == id
  }

  /** Row `k` is the first live row referencing `id`. */
  ghost predicate FirstBlocker<R>(rows: seq<R>, ref: R -> int, id: int, k: int) {
    && 0 <= k < |rows| && ref(rows[k]) == id
    && forall j :: 0 <= j < k ==> ref(rows[j]) != id
  }

  /** A restrict guard fires exactly when a live row references the id, and
      reports the first such row at its alive index. */
  lemma GuardSpec<R>(t: T.Table<R>, table: string, field: string, refTable: string, ref: R -> int, id: int)
    requires |t.records| == |t.alive|
    ensures Guard(t, table, field, refTable, ref, id).None? <==> !Blocks(T.AliveRows(t), ref, id)
    ensures Guard(t, table, field, refTable, ref, id).Some? ==>
              exists k :: FirstBlocker(T.AliveRows(t), ref, id, k)
                && Guard(t, table, field, refTable, ref, id).value
                   == Restrict(table, field, IntToString(id), refTable, "id", k)
  {
    var rows := T.AliveRows(t);
    var check := RestrictCheck(table, field, refTable, ref, id);
    FirstErrorSpec(rows, check, 0);
    assert forall k :: 0 <= k < |rows| ==> (check(rows[k], k).None? <==> ref(rows[k]) != id);
  }

  /** A successful delete of `id`: one live row fewer, exactly `id` gone. */
  ghost predicate DeletedOne<R>(before: T.Table<R>, after: T.Table<R>, id: int)
    requires |before.records| == |before.alive|
  {
    && T.Valid(after)
    && T.GetRowCount(after) == T.GetRowCount(before) - 1
    && T.Ids(after) == T.Ids(before) - {id}
  }

  lemma DeleteFound<R>(t: T.Table<R>, id: int)
    requires T.Valid(t)
    ensures T.DeleteById(t, id).1 <==> T.ContainsId(t, id)
    ensures T.DeleteById(t, id).1 ==> DeletedOne(t, T.DeleteById(t, id).0, id)
    ensures T.Valid(T.DeleteById(t, id).0) && T.DeleteById(t, id).0.idOf == t.idOf
  {
    T.DeleteSpec(t, id);
    T.DeleteIds(t, id);
  }

  /** References that avoid the deleted id still resolve. */
  lemma ResolvesAfterTargetDelete<R, S>(rows: seq<R>, ref: R -> int, target: T.Table<S>, id: int)
    requires T.Valid(target) && Resolves(rows, ref, target) && !Blocks(rows, ref, id)
    ensures Resolves(rows, ref, T.DeleteById(target, id).0)
  {
    T.DeleteSpec(target, id);
  }

  /** Deleting from the referencing table keeps its references resolving. */
  lemma ResolvesAfterSourceDelete<R, S>(t: T.Table<R>, ref: R -> int, target: T.Table<S>, id: int)
    requires T.Valid(t) && Resolves(T.AliveRows(t), ref, target)
    ensures T.Valid(T.DeleteById(t, id).0)
    ensures Resolves(T.AliveRows(T.DeleteById(t, id).0), ref, target)
  {
    var rows := T.AliveRows(t);
    var rows' := T.AliveRows(T.DeleteById(t, id).0);
    T.DeleteSpec(t, id);
    T.DeleteKeepsRows(t, id);
    forall i | 0 <= i < |rows'| ensures T.ContainsId(target, ref(rows'[i])) {
      var j :| 0 <= j < |rows| && rows[j] == rows'[i];
    }
  }

  /** `DeleteDepartment`: a live employee of the department blocks first,
      then a live purchase; unblocked, a missing id is a runtime error and an
      existing one is deleted from the departments table alone. Foreign keys
      that held before still hold. */
  lemma DeleteDepartmentSpec(db: Database, id: int)
    requires Valid(db)
    ensures var r := DeleteDepartment(db, id);
      var emps := T.AliveRows(db.employees);
      var purs := T.AliveRows(db.purchases);
      && (Blocks(emps, EmployeeDept, id) ==>
            exists k :: FirstBlocker(emps, EmployeeDept, id, k)
              && r == Err(Constraint(Restrict("employees", "dept_id", IntToString(id), "departments", "id", k))))
      && (!Blocks(emps, EmployeeDept, id) && Blocks(purs, PurchaseDept, id) ==>
            exists k :: FirstBlocker(purs, PurchaseDept, id, k)
              && r == Err(Constraint(Restrict("purchases", "dept_id", IntToString(id), "departments", "id", k))))
      && (!Blocks(emps, EmployeeDept, id) && !Blocks(purs, PurchaseDept, id) ==>
            if T.ContainsId(db.departments, id) then r.Ok?
            else r == Err(Runtime("Department not found: id=" + IntToString(id))))
    ensures var r := DeleteDepartment(db, id);
      r.Ok? ==> Valid(r.value) && r.value == db.(departments := r.value.departments)
                && DeletedOne(db.departments, r.value.departments, id)
    ensures var r := DeleteDepartment(db, id);
      r.Ok? && ForeignKeysHold(db) ==> ForeignKeysHold(r.value)
  {
    GuardSpec(db.employees, "employees", "dept_id", "departments", EmployeeDept, id);
    GuardSpec(db.purchases, "purchases", "dept_id", "departments", PurchaseDept, id);
    DeleteFound(db.departments, id);
    if DeleteDepartment(db, id).Ok? && ForeignKeysHold(db) {
      ResolvesAfterSourceDelete(db.departments, DepartmentAddress, db.addresses, id);
      ResolvesAfterTargetDelete(T.AliveRows(db.employees), EmployeeDept, db.departments, id);
      ResolvesAfterTargetDelete(T.AliveRows(db.purchases), PurchaseDept, db.departments, id);
    }
  }

  /** `DeleteSupplier`: a product defaulting to the supplier blocks first,
      then a purchase from it. */
  lemma DeleteSupplierSpec(db: Database, id: int)
    requires Valid(db)
    ensures var r := DeleteSupplier(db, id);
      var prods := T.AliveRows(db.products);
      var purs := T.AliveRows(db.purchases);
      && (Blocks(prods, ProductSupplier, id) ==>
            exists k :: FirstBlocker(prods, ProductSupplier, id, k)
              && r == Err(Constraint(Restrict("products", "default_supplier_id", IntToString(id), "suppliers", "id", k))))
      && (!Blocks(prods, ProductSupplier, id) && Blocks(purs, PurchaseSupplier, id) ==>
            exists k :: FirstBlocker(purs, PurchaseSupplier, id, k)
              && r == Err(Constraint(Restrict("purchases", "supplier_id", IntToString(id), "suppliers", "id", k))))
      && (!Blocks(prods, ProductSupplier, id) && !Blocks(purs, PurchaseSupplier, id) ==>
            if T.ContainsId(db.suppliers, id) then r.Ok?
            else r == Err(Runtime("Supplier not found: id=" + IntToString(id))))
    ensures var r := DeleteSupplier(db, id);
      r.Ok? ==> Valid(r.value) && r.value == db.(suppliers := r.value.suppliers)
                && DeletedOne(db.suppliers, r.value.suppliers, id)
    ensures var r := DeleteSupplier(db, id);
      r.Ok? && ForeignKeysHold(db) ==> ForeignKeysHold(r.value)
  {
    GuardSpec(db.products, "products", "default_supplier_id", "suppliers", ProductSupplier, id);
    GuardSpec(db.purchases, "purchases", "supplier_id", "suppliers", PurchaseSupplier, id);
    DeleteFound(db.suppliers, id);
    if DeleteSupplier(db, id).Ok? && ForeignKeysHold(db) {
      ResolvesAfterTargetDelete(T.AliveRows(db.products), ProductSupplier, db.suppliers, id);
      ResolvesAfterTargetDelete(T.AliveRows(db.purchases), PurchaseSupplier, db.suppliers, id);
    }
  }

  /** `DeleteProduct`: a purchase of the product blocks. */
  lemma DeleteProductSpec(db: Database, id: int)
    requires Valid(db)
    ensures var r := DeleteProduct(db, id);
      var purs := T.AliveRows(db.purchases);
      && (Blocks(purs, PurchaseProduct, id) ==>
            exists k :: FirstBlocker(purs, PurchaseProduct, id, k)
              && r == Err(Constraint(Restrict("purchases", "product_id", IntToString(id), "products", "id", k))))
      && (!Blocks(purs, PurchaseProduct, id) ==>
            if T.ContainsId(db.products, id) then r.Ok?
            else r == Err(Runtime("Product not found: id=" + IntToString(id))))
    ensures var r := DeleteProduct(db, id);
      r.Ok? ==> Valid(r.value) && r.value == db.(products := r.value.products)
                && DeletedOne(db.products, r.value.products, id)
    ensures var r := DeleteProduct(db, id);
      r.Ok? && ForeignKeysHold(db) ==> ForeignKeysHold(r.value)
  {
    GuardSpec(db.purchases, "purchases", "product_id", "products", PurchaseProduct, id);
    DeleteFound(db.products, id);
    if DeleteProduct(db, id).Ok? && ForeignKeysHold(db) {
      ResolvesAfterSourceDelete(db.products, ProductSupplier, db.suppliers, id);
      ResolvesAfterTargetDelete(T.AliveRows(db.purchases), PurchaseProduct, db.products, id);
    }
  }

  /** `DeleteAddress`: a department at the address blocks. */
  lemma DeleteAddressSpec(db: Database, id: int)
    requires Valid(db)
    ensures var r := DeleteAddress(db, id);
      var deps := T.AliveRows(db.departments);
      && (Blocks(deps, DepartmentAddress, id) ==>
            exists k :: FirstBlocker(deps, DepartmentAddress, id, k)
              && r == Err(Constraint(Restrict("departments", "address_id", IntToString(id), "addresses", "id", k))))
      && (!Blocks(deps, DepartmentAddress, id) ==>
            if T.ContainsId(db.addresses, id) then r.Ok?
            else r == Err(Runtime("Address not found: id=" + IntToString(id))))
    ensures var r := DeleteAddress(db, id);
      r.Ok? ==> Valid(r.value) && r.value == db.(addresses := r.value.addresses)
                && DeletedOne(db.addresses, r.value.addresses, id)
    ensures var r := DeleteAddress(db, id);
      r.Ok? && ForeignKeysHold(db) ==> ForeignKeysHold(r.value)
  {
    GuardSpec(db.departments, "departments", "address_id", "addresses", DepartmentAddress, id);
    DeleteFound(db.addresses, id);
    if DeleteAddress(db, id).Ok? && ForeignKeysHold(db) {
      ResolvesAfterTargetDelete(T.AliveRows(db.departments), DepartmentAddress, db.addresses, id);
    }
  }

  /** `DeleteEmployee`: unguarded. */
  lemma DeleteEmployeeSpec(db: Database, id: int)
    requires Valid(db)
    ensures var r := DeleteEmployee(db, id);
      if T.ContainsId(db.employees, id) then r.Ok?
      else r == Err(Runtime("Employee not found: id=" + IntToString(id)))
    ensures var r := DeleteEmployee(db, id);
      r.Ok? ==> Valid(r.value) && r.value == db.(employees := r.value.employees)
                && DeletedOne(db.employees, r.value.employees, id)
    ensures var r := DeleteEmployee(db, id);
      r.Ok? && ForeignKeysHold(db) ==> ForeignKeysHold(r.value)
  {
    DeleteFound(db.employees, id);
    if DeleteEmployee(db, id).Ok? && ForeignKeysHold(db) {
      ResolvesAfterSourceDelete(db.employees, EmployeeDept, db.departments, id);
    }
  }

  /** `DeletePurchase`: unguarded. */
  lemma DeletePurchaseSpec(db: Database, id: int)
    requires Valid(db)
    ensures var r := DeletePurchase(db, id);
      if T.ContainsId(db.purchases, id) then r.Ok?
      else r == Err(Runtime("Purchase not found: id=" + IntToString(id)))
    ensures var r := DeletePurchase(db, id);
      r.Ok? ==> Valid(r.value) && r.value == db.(purchases := r.value.purchases)
                && DeletedOne(db.purchases, r.value.purchases, id)
    ensures var r := DeletePurchase(db, id);
      r.Ok? && ForeignKeysHold(db) ==> ForeignKeysHold(r.value)
  {
    DeleteFound(db.purchases, id);
    if DeletePurchase(db, id).Ok? && ForeignKeysHold(db) {
      ResolvesAfterSourceDelete(db.purchases, PurchaseDept, db.departments, id);
      ResolvesAfterSourceDelete(db.purchases, PurchaseSupplier, db.suppliers, id);
      ResolvesAfterSourceDelete(db.purchases, PurchaseProduct, db.products, id);
    }
  }
}
