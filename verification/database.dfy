/** The database (Database.h): six tables, fifteen secondary indexes over
    them, a staged bulk load that validates name uniqueness and foreign keys
    in a fixed order, restrict-on-delete removal, and `Find*` queries that map
    index results (slots) back to row ids. Exceptions become `Result`s; the
    hash functions of the key types are parameters. */
module Databases {
  import opened Wrappers
  import opened Keys
  import opened DbErrors
  import opened Records
  import T = Tables
  import I = Indexes
  import H = HashTables

  /** The hash functions standing in for `std::hash` of index keys and of
      integer ids. */
  datatype Hashes = Hashes(key: Key -> nat, id: int -> nat)

  /** The secondary indexes, with the strategy each uses. */
  datatype IndexSet = IndexSet(
    addressesByCity: I.Index,
    addressesById: I.Index,
    departmentsByName: I.Index,
    departmentsByAddressId: I.Index,
    employeesByFullName: I.Index,
    employeesByBirthYear: I.Index,
    employeesByDeptId: I.Index,
    suppliersByName: I.Index,
    suppliersByCity: I.Index,
    productsByName: I.Index,
    productsByDefaultSupplierId: I.Index,
    purchasesByDate: I.Index,
    purchasesBySupplierId: I.Index,
    purchasesByProductId: I.Index,
    purchasesByDeptId: I.Index)

  datatype Database = Database(
    addresses: T.Table<Address>,
    departments: T.Table<Department>,
    employees: T.Table<Employee>,
    suppliers: T.Table<Supplier>,
    products: T.Table<Product>,
    purchases: T.Table<Purchase>,
    ix: IndexSet,
    hashes: Hashes)

  /** The parsed content of the six files; `None` for a file that cannot be
      opened. */
  datatype Files = Files(
    addresses: Option<seq<Address>>,
    departments: Option<seq<Department>>,
    employees: Option<seq<Employee>>,
    suppliers: Option<seq<Supplier>>,
    products: Option<seq<Product>>,
    purchases: Option<seq<Purchase>>)

  // ---------------------------------------------------------------------
  // Ids and index keys of the records

  function AddressId(a: Address): int { a.id }
  function DepartmentId(d: Department): int { d.id }
  function EmployeeId(e: Employee): int { e.id }
  function SupplierId(s: Supplier): int { s.id }
  function ProductId(p: Product): int { p.id }
  function PurchaseId(p: Purchase): int { p.id }

  function AddressCityKey(a: Address): Key { StrKey(a.city) }
  function AddressIdKey(a: Address): Key { IntKey(a.id) }
  function DepartmentNameKey(d: Department): Key { StrKey(d.name) }
  function DepartmentAddressKey(d: Department): Key { IntKey(d.addressId) }
  function EmployeeFullNameKey(e: Employee): Key { StrKey(e.FullName()) }
  function EmployeeBirthYearKey(e: Employee): Key { IntKey(e.birthYear) }
  function EmployeeDeptKey(e: Employee): Key { IntKey(e.deptId) }
  function SupplierNameKey(s: Supplier): Key { StrKey(s.name) }
  function SupplierCityKey(s: Supplier): Key { StrKey(s.city) }
  function ProductNameKey(p: Product): Key { StrKey(p.name) }
  function ProductSupplierKey(p: Product): Key { IntKey(p.defaultSupplierId) }
  function PurchaseDateKey(p: Purchase): Key { StrKey(p.date) }
  function PurchaseSupplierKey(p: Purchase): Key { IntKey(p.supplierId) }
  function PurchaseProductKey(p: Purchase): Key { IntKey(p.productId) }
  function PurchaseDeptKey(p: Purchase): Key { IntKey(p.deptId) }

  // ---------------------------------------------------------------------
  // State and invariant

  /** The indexes of a fresh database, with the source's strategies and
      initial sizes. */
  function EmptyIndexes(keyHash: Key -> nat): IndexSet {
    IndexSet(
      I.NewHashIndex(keyHash, 512), I.NewBTreeIndex(16),
      I.NewHashIndex(keyHash, 256), I.NewHashIndex(keyHash, 256),
      I.NewHashIndex(keyHash, 1024), I.NewBTreeIndex(16), I.NewHashIndex(keyHash, 1024),
      I.NewHashIndex(keyHash, 1024), I.NewHashIndex(keyHash, 512),
      I.NewHashIndex(keyHash, 1024), I.NewHashIndex(keyHash, 1024),
      I.NewBTreeIndex(16), I.NewHashIndex(keyHash, 2048), I.NewHashIndex(keyHash, 2048),
      I.NewHashIndex(keyHash, 2048))
  }

  /** Every index is well formed, and the three range indexes are B-trees. */
  ghost predicate IndexesValid(ix: IndexSet) {
    && I.Valid(ix.addressesByCity) && I.Valid(ix.addressesById)
    && I.Valid(ix.departmentsByName) && I.Valid(ix.departmentsByAddressId)
    && I.Valid(ix.employeesByFullName) && I.Valid(ix.employeesByBirthYear)
    && I.Valid(ix.employeesByDeptId)
    && I.Valid(ix.suppliersByName) && I.Valid(ix.suppliersByCity)
    && I.Valid(ix.productsByName) && I.Valid(ix.productsByDefaultSupplierId)
    && I.Valid(ix.purchasesByDate) && I.Valid(ix.purchasesBySupplierId)
    && I.Valid(ix.purchasesByProductId) && I.Valid(ix.purchasesByDeptId)
    && ix.addressesById.BTreeIndex? && ix.employeesByBirthYear.BTreeIndex?
    && ix.purchasesByDate.BTreeIndex?
  }

  ghost predicate TablesValid(db: Database) {
    && T.Valid(db.addresses) && T.Valid(db.departments) && T.Valid(db.employees)
    && T.Valid(db.suppliers) && T.Valid(db.products) && T.Valid(db.purchases)
    && db.addresses.idOf == AddressId && db.departments.idOf == DepartmentId
    && db.employees.idOf == EmployeeId && db.suppliers.idOf == SupplierId
    && db.products.idOf == ProductId && db.purchases.idOf == PurchaseId
  }

  ghost predicate Valid(db: Database) {
    TablesValid(db) && IndexesValid(db.ix)
  }

  // ---------------------------------------------------------------------
  // Indexes

  /** The key selector handed to `Build`: the key of the row in a slot. Only
      alive slots are ever passed, so the fallback is never used. */
  function Selector<R>(t: T.Table<R>, key: R -> Key): I.Ref -> Key {
    (s: I.Ref) => if s < |t.records| then key(t.records[s]) else IntKey(0)
  }

  /** Rebuilds one index from the alive slots of its table. */
  function Rebuild<R>(ix: I.Index, t: T.Table<R>, key: R -> Key): (ix': I.Index)
    requires I.Valid(ix)
    ensures I.Valid(ix') && I.SameKind(ix, ix')
  {
    I.Build(ix, T.AliveSlots(t.alive), Selector(t, key))
  }

  /** `BuildIndexes`: every index rebuilt from the current live rows. */
  function BuildIndexes(db: Database): (db': Database)
    requires Valid(db)
    ensures Valid(db')
  {
    var ix := db.ix;
    db.(ix := IndexSet(
      Rebuild(ix.addressesByCity, db.addresses, AddressCityKey),
      Rebuild(ix.addressesById, db.addresses, AddressIdKey),
      Rebuild(ix.departmentsByName, db.departments, DepartmentNameKey),
      Rebuild(ix.departmentsByAddressId, db.departments, DepartmentAddressKey),
      Rebuild(ix.employeesByFullName, db.employees, EmployeeFullNameKey),
      Rebuild(ix.employeesByBirthYear, db.employees, EmployeeBirthYearKey),
      Rebuild(ix.employeesByDeptId, db.employees, EmployeeDeptKey),
      Rebuild(ix.suppliersByName, db.suppliers, SupplierNameKey),
      Rebuild(ix.suppliersByCity, db.suppliers, SupplierCityKey),
      Rebuild(ix.productsByName, db.products, ProductNameKey),
      Rebuild(ix.productsByDefaultSupplierId, db.products, ProductSupplierKey),
      Rebuild(ix.purchasesByDate, db.purchases, PurchaseDateKey),
      Rebuild(ix.purchasesBySupplierId, db.purchases, PurchaseSupplierKey),
      Rebuild(ix.purchasesByProductId, db.purchases, PurchaseProductKey),
      Rebuild(ix.purchasesByDeptId, db.purchases, PurchaseDeptKey)))
  }

  // ---------------------------------------------------------------------
  // Queries

  /** `SlotsToIds`: the id of the row in each slot, in order; the first dead
      slot fails as `GetRowBySlot` does. */
  function SlotsToIds<R>(t: T.Table<R>, slots: seq<T.Slot>): Result<seq<int>, Failure>
    requires |t.records| == |t.alive|
  {
    if |slots| == 0 then Ok([])
    else
      match SlotsToIds(t, slots[..|slots| - 1])
      case Err(e) => Err(e)
      case Ok(ids) =>
        match T.GetRowBySlot(t, slots[|slots| - 1])
        case Err(e) => Err(e)
        case Ok(row) => Ok(ids + [t.idOf(row)])
  }

  function FindAddressIdsByCity(db: Database, city: string): Result<seq<int>, Failure>
    requires Valid(db)
  {
    SlotsToIds(db.addresses, I.FindEquals(db.ix.addressesByCity, StrKey(city)))
  }

  function FindAddressIdsByIdRange(db: Database, fromId: int, toId: int): Result<seq<int>, Failure>
    requires Valid(db)
  {
    SlotsToIds(db.addresses, I.FindRange(db.ix.addressesById, IntKey(fromId), IntKey(toId)))
  }

  function FindDepartmentIdsByName(db: Database, name: string): Result<seq<int>, Failure>
    requires Valid(db)
  {
    SlotsToIds(db.departments, I.FindEquals(db.ix.departmentsByName, StrKey(name)))
  }

  function FindDepartmentIdsByAddressId(db: Database, addressId: int): Result<seq<int>, Failure>
    requires Valid(db)
  {
    SlotsToIds(db.departments, I.FindEquals(db.ix.departmentsByAddressId, IntKey(addressId)))
  }

  function FindEmployeeIdsByFullName(db: Database, fullName: string): Result<seq<int>, Failure>
    requires Valid(db)
  {
    SlotsToIds(db.employees, I.FindEquals(db.ix.employeesByFullName, StrKey(fullName)))
  }

  function FindEmployeeIdsByBirthYearRange(db: Database, y1: int, y2: int): Result<seq<int>, Failure>
    requires Valid(db)
  {
    SlotsToIds(db.employees, I.FindRange(db.ix.employeesByBirthYear, IntKey(y1), IntKey(y2)))
  }

  function FindEmployeeIdsByDeptId(db: Database, deptId: int): Result<seq<int>, Failure>
    requires Valid(db)
  {
    SlotsToIds(db.employees, I.FindEquals(db.ix.employeesByDeptId, IntKey(deptId)))
  }

  function FindSupplierIdsByName(db: Database, name: string): Result<seq<int>, Failure>
    requires Valid(db)
  {
    SlotsToIds(db.suppliers, I.FindEquals(db.ix.suppliersByName, StrKey(name)))
  }

  function FindSupplierIdsByCity(db: Database, city: string): Result<seq<int>, Failure>
    requires Valid(db)
  {
    SlotsToIds(db.suppliers, I.FindEquals(db.ix.suppliersByCity, StrKey(city)))
  }

  function FindProductIdsByName(db: Database, name: string): Result<seq<int>, Failure>
    requires Valid(db)
  {
    SlotsToIds(db.products, I.FindEquals(db.ix.productsByName, StrKey(name)))
  }

  function FindProductIdsByDefaultSupplierId(db: Database, supplierId: int): Result<seq<int>, Failure>
    requires Valid(db)
  {
    SlotsToIds(db.products, I.FindEquals(db.ix.productsByDefaultSupplierId, IntKey(supplierId)))
  }

  function FindPurchaseIdsByDateRange(db: Database, from: string, to: string): Result<seq<int>, Failure>
    requires Valid(db)
  {
    SlotsToIds(db.purchases, I.FindRange(db.ix.purchasesByDate, StrKey(from), StrKey(to)))
  }

  function FindPurchaseIdsBySupplierId(db: Database, supplierId: int): Result<seq<int>, Failure>
    requires Valid(db)
  {
    SlotsToIds(db.purchases, I.FindEquals(db.ix.purchasesBySupplierId, IntKey(supplierId)))
  }

  function FindPurchaseIdsByProductId(db: Database, productId: int): Result<seq<int>, Failure>
    requires Valid(db)
  {
    SlotsToIds(db.purchases, I.FindEquals(db.ix.purchasesByProductId, IntKey(productId)))
  }

  function FindPurchaseIdsByDeptId(db: Database, deptId: int): Result<seq<int>, Failure>
    requires Valid(db)
  {
    SlotsToIds(db.purchases, I.FindEquals(db.ix.purchasesByDeptId, IntKey(deptId)))
  }

  // ---------------------------------------------------------------------
  // Row scans

  /** The `for (i = 0; i < GetRowCount(); ++i)` loop over `GetRow(i)` that
      throws the first error a row raises: the first error `check` reports,
      scanning from alive index `i`. */
  function FirstError<R>(rows: seq<R>, check: (R, int) -> Option<ConstraintError>, i: nat): Option<ConstraintError>
    decreases |rows| - i
  {
    if i >= |rows| then None
    else if check(rows[i], i).Some? then check(rows[i], i)
    else FirstError(rows, check, i + 1)
  }

  /** The unique-name loop: a hash set of the names seen so far (mapped to
      their row's id); the first name already seen is a `Unique` error at its
      alive index. */
  function ScanUnique<R>(table: string, rows: seq<R>, name: R -> string, idOf: R -> int,
                         i: nat, seen: H.HashTable<string, int>): Option<ConstraintError>
    requires H.Valid(seen)
    decreases |rows| - i
  {
    if i >= |rows| then None
    else if H.Contains(seen, name(rows[i])) then Some(Unique(table, "name", name(rows[i]), i))
    else
      H.SetSpec(seen, name(rows[i]), idOf(rows[i]));
      ScanUnique(table, rows, name, idOf, i + 1, H.Set(seen, name(rows[i]), idOf(rows[i])))
  }

  function ValidateUniqueNames<R>(table: string, t: T.Table<R>, name: R -> string,
                                  capacity: nat, keyHash: Key -> nat): Option<ConstraintError>
    requires |t.records| == |t.alive|
  {
    ScanUnique(table, T.AliveRows(t), name, t.idOf, 0, H.Create((s: string) => keyHash(StrKey(s)), capacity))
  }

  function DepartmentName(d: Department): string { d.name }
  function SupplierName(s: Supplier): string { s.name }
  function ProductName(p: Product): string { p.name }

  /** `ValidateUniqueDepartmentNames`. */
  function ValidateUniqueDepartmentNames(db: Database): Option<ConstraintError>
    requires TablesValid(db)
  {
    ValidateUniqueNames("departments", db.departments, DepartmentName, 128, db.hashes.key)
  }

  /** `ValidateUniqueSupplierNames`. */
  function ValidateUniqueSupplierNames(db: Database): Option<ConstraintError>
    requires TablesValid(db)
  {
    ValidateUniqueNames("suppliers", db.suppliers, SupplierName, 256, db.hashes.key)
  }

  /** `ValidateUniqueProductNames`. */
  function ValidateUniqueProductNames(db: Database): Option<ConstraintError>
    requires TablesValid(db)
  {
    ValidateUniqueNames("products", db.products, ProductName, 512, db.hashes.key)
  }

  /** The check of one foreign-key column: a row whose reference is not a live
      id of the target table is a `ForeignKey` error naming the referencing
      table and field. */
  function FkCheck<R, S>(table: string, field: string, refTable: string, ref: R -> int,
                         target: T.Table<S>): (R, int) -> Option<ConstraintError>
  {
    (r: R, i: int) =>
      if T.ContainsId(target, ref(r)) then None
      else Some(ForeignKey(table, field, IntToString(ref(r)), refTable, "id", i))
  }

  function DepartmentAddress(d: Department): int { d.addressId }
  function EmployeeDept(e: Employee): int { e.deptId }
  function ProductSupplier(p: Product): int { p.defaultSupplierId }
  function PurchaseDept(p: Purchase): int { p.deptId }
  function PurchaseSupplier(p: Purchase): int { p.supplierId }
  function PurchaseProduct(p: Purchase): int { p.productId }

  /** `ValidateDepartmentsAddressFk`. */
  function ValidateDepartmentsAddressFk(db: Database): Option<ConstraintError>
    requires TablesValid(db)
  {
    FirstError(T.AliveRows(db.departments),
               FkCheck("departments", "address_id", "addresses", DepartmentAddress, db.addresses), 0)
  }

  /** `ValidateEmployeesDeptFk`. */
  function ValidateEmployeesDeptFk(db: Database): Option<ConstraintError>
    requires TablesValid(db)
  {
    FirstError(T.AliveRows(db.employees),
               FkCheck("employees", "dept_id", "departments", EmployeeDept, db.departments), 0)
  }

  /** `ValidateProductsDefaultSupplierFk`. */
  function ValidateProductsDefaultSupplierFk(db: Database): Option<ConstraintError>
    requires TablesValid(db)
  {
    FirstError(T.AliveRows(db.products),
               FkCheck("products", "default_supplier_id", "suppliers", ProductSupplier, db.suppliers), 0)
  }

  /** The three foreign keys of one purchase, department first, then
      supplier, then product. */
  function PurchaseCheck(db: Database): (Purchase, int) -> Option<ConstraintError> {
    (p: Purchase, i: int) =>
      var dept := FkCheck("purchases", "dept_id", "departments", PurchaseDept, db.departments)(p, i);
      var sup := FkCheck("purchases", "supplier_id", "suppliers", PurchaseSupplier, db.suppliers)(p, i);
      var prod := FkCheck("purchases", "product_id", "products", PurchaseProduct, db.products)(p, i);
      if dept.Some? then dept else if sup.Some? then sup else prod
  }

  /** `ValidatePurchasesFk`. */
  function ValidatePurchasesFk(db: Database): Option<ConstraintError>
    requires TablesValid(db)
  {
    FirstError(T.AliveRows(db.purchases), PurchaseCheck(db), 0)
  }

  // ---------------------------------------------------------------------
  // Load

  /** A database with empty tables (each named "table", as a default
      constructed `Table`) and fresh indexes. */
  function EmptyDatabase(hashes: Hashes): (db: Database)
    ensures Valid(db)
  {
    Database(
      T.Empty("table", AddressId, hashes.id), T.Empty("table", DepartmentId, hashes.id),
      T.Empty("table", EmployeeId, hashes.id), T.Empty("table", SupplierId, hashes.id),
      T.Empty("table", ProductId, hashes.id), T.Empty("table", PurchaseId, hashes.id),
      EmptyIndexes(hashes.key), hashes)
  }

  /** The first stage of the load: addresses, suppliers and products. */
  function LoadFirstTables(files: Files, hashes: Hashes): (db: Database)
    ensures Valid(db) && db.hashes == hashes
  {
    EmptyDatabase(hashes).(
      addresses := T.LoadFromFile(files.addresses, "addresses", AddressId, hashes.id),
      suppliers := T.LoadFromFile(files.suppliers, "suppliers", SupplierId, hashes.id),
      products := T.LoadFromFile(files.products, "products", ProductId, hashes.id))
  }

  function WithDepartments(db: Database, files: Files): (db': Database)
    requires Valid(db)
    ensures Valid(db') && db' == db.(departments := db'.departments)
  {
    db.(departments := T.LoadFromFile(files.departments, "departments", DepartmentId, db.hashes.id))
  }

  function WithEmployees(db: Database, files: Files): (db': Database)
    requires Valid(db)
    ensures Valid(db') && db' == db.(employees := db'.employees)
  {
    db.(employees := T.LoadFromFile(files.employees, "employees", EmployeeId, db.hashes.id))
  }

  function WithPurchases(db: Database, files: Files): (db': Database)
    requires Valid(db)
    ensures Valid(db') && db' == db.(purchases := db'.purchases)
  {
    db.(purchases := T.LoadFromFile(files.purchases, "purchases", PurchaseId, db.hashes.id))
  }

  /** `LoadFromFiles`: addresses, suppliers and products are loaded and
      their checks run; then departments, then employees, then purchases,
      each followed by its checks; the first failing check aborts the load;
      finally the indexes are built. */
  function LoadFromFiles(files: Files, hashes: Hashes): (r: Result<Database, ConstraintError>)
    ensures r.Ok? ==> Valid(r.value)
  {
    var db1 := LoadFirstTables(files, hashes);
    if ValidateUniqueSupplierNames(db1).Some? then Err(ValidateUniqueSupplierNames(db1).value)
    else if ValidateUniqueProductNames(db1).Some? then Err(ValidateUniqueProductNames(db1).value)
    else if ValidateProductsDefaultSupplierFk(db1).Some? then Err(ValidateProductsDefaultSupplierFk(db1).value)
    else
      var db2 := WithDepartments(db1, files);
      if ValidateUniqueDepartmentNames(db2).Some? then Err(ValidateUniqueDepartmentNames(db2).value)
      else if ValidateDepartmentsAddressFk(db2).Some? then Err(ValidateDepartmentsAddressFk(db2).value)
      else
        var db3 := WithEmployees(db2, files);
        if ValidateEmployeesDeptFk(db3).Some? then Err(ValidateEmployeesDeptFk(db3).value)
        else
          var db4 := WithPurchases(db3, files);
          if ValidatePurchasesFk(db4).Some? then Err(ValidatePurchasesFk(db4).value)
          else Ok(BuildIndexes(db4))
  }

  // ---------------------------------------------------------------------
  // Deletes

  /** One restrict guard: the first live row of the referencing table whose
      column holds `id` blocks the delete with a `Restrict` error at its alive
      index. */
  function RestrictCheck<R>(table: string, field: string, refTable: string, ref: R -> int,
                            id: int): (R, int) -> Option<ConstraintError>
  {
    (r: R, i: int) =>
      if ref(r) == id then Some(Restrict(table, field, IntToString(id), refTable, "id", i)) else None
  }

  function Guard<R>(t: T.Table<R>, table: string, field: string, refTable: string,
                    ref: R -> int, id: int): Option<ConstraintError>
    requires |t.records| == |t.alive|
  {
    FirstError(T.AliveRows(t), RestrictCheck(table, field, refTable, ref, id), 0)
  }

  /** `DeleteDepartment`: blocked by a live employee, then by a live purchase,
      of that department. */
  function DeleteDepartment(db: Database, deptId: int): Result<Database, Failure>
    requires Valid(db)
  {
    var g1 := Guard(db.employees, "employees", "dept_id", "departments", EmployeeDept, deptId);
    var g2 := Guard(db.purchases, "purchases", "dept_id", "departments", PurchaseDept, deptId);
    if g1.Some? then Err(Constraint(g1.value))
    else if g2.Some? then Err(Constraint(g2.value))
    else
      var (t, found) := T.DeleteById(db.departments, deptId);
      if !found then Err(Runtime("Department not found: id=" + IntToString(deptId)))
      else Ok(db.(departments := t))
  }

  /** `DeleteSupplier`: blocked by a product defaulting to it, then by a
      purchase from it. */
  function DeleteSupplier(db: Database, supplierId: int): Result<Database, Failure>
    requires Valid(db)
  {
    var g1 := Guard(db.products, "products", "default_supplier_id", "suppliers", ProductSupplier, supplierId);
    var g2 := Guard(db.purchases, "purchases", "supplier_id", "suppliers", PurchaseSupplier, supplierId);
    if g1.Some? then Err(Constraint(g1.value))
    else if g2.Some? then Err(Constraint(g2.value))
    else
      var (t, found) := T.DeleteById(db.suppliers, supplierId);
      if !found then Err(Runtime("Supplier not found: id=" + IntToString(supplierId)))
      else Ok(db.(suppliers := t))
  }

  /** `DeleteProduct`: blocked by a purchase of it. */
  function DeleteProduct(db: Database, productId: int): Result<Database, Failure>
    requires Valid(db)
  {
    var g := Guard(db.purchases, "purchases", "product_id", "products", PurchaseProduct, productId);
    if g.Some? then Err(Constraint(g.value))
    else
      var (t, found) := T.DeleteById(db.products, productId);
      if !found then Err(Runtime("Product not found: id=" + IntToString(productId)))
      else Ok(db.(products := t))
  }

  /** `DeleteAddress`: blocked by a department at it. */
  function DeleteAddress(db: Database, addressId: int): Result<Database, Failure>
    requires Valid(db)
  {
    var g := Guard(db.departments, "departments", "address_id", "addresses", DepartmentAddress, addressId);
    if g.Some? then Err(Constraint(g.value))
    else
      var (t, found) := T.DeleteById(db.addresses, addressId);
      if !found then Err(Runtime("Address not found: id=" + IntToString(addressId)))
      else Ok(db.(addresses := t))
  }

  /** `DeleteEmployee`: nothing references employees. */
  function DeleteEmployee(db: Database, employeeId: int): Result<Database, Failure>
    requires Valid(db)
  {
    var (t, found) := T.DeleteById(db.employees, employeeId);
    if !found then Err(Runtime("Employee not found: id=" + IntToString(employeeId)))
    else Ok(db.(employees := t))
  }

  /** `DeletePurchase`: nothing references purchases. */
  function DeletePurchase(db: Database, purchaseId: int): Result<Database, Failure>
    requires Valid(db)
  {
    var (t, found) := T.DeleteById(db.purchases, purchaseId);
    if !found then Err(Runtime("Purchase not found: id=" + IntToString(purchaseId)))
    else Ok(db.(purchases := t))
  }
}
