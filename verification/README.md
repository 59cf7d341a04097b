# LazyDB storage core in Dafny

LazyDB is a small in-memory database of six related tables: addresses, departments, employees, suppliers, products and purchases.

- **Tables.** Each table is loaded from a CSV file into a `Table`. A `Table` is a vector of record slots with an alive flag per slot, a free list of dead slots, and a primary-key hash table from id to slot.
- **Loading.** Unique-name and foreign-key constraints are validated in a fixed order while the tables load. The first violation aborts the load with a `DbConstraintError`.
- **Indexes.** Fifteen secondary indexes are built over the alive slots. Equality-only indexes are a `HashIndex` over the project's own chained `HashTable`. Range-capable indexes are a `BTreeIndex` over the project's own `BTree`.
- **Queries.** The `Find*` queries look slots up in an index and map them back to record ids.
- **Deletes.** A delete first checks RESTRICT rules, i.e. that no alive row refers to the row being deleted, and only then removes it.

This project models that core functionally, as immutable datatypes and pure functions, and proves what each operation computes.

The modules follow the headers:

| module | file | models |
|---|---|---|
| `Wrappers` | `wrappers.dfy` | `Option` / `Result` |
| `Keys` | `keys.dfy` | the key type of every index (integer or string) and its strict order (`operator<`) |
| `HashTables` | `hashtable.dfy` | `HashTable.h`: separate chaining, load-factor-driven doubling |
| `BTrees` | `btree.dfy` | `BTree.h`: CLRS-style B-tree with pre-emptive splitting; each key holds a list of refs |
| `Indexes` | `index.dfy` | `Index.h`: the `IIndex` interface and its hash and B-tree implementations |
| `Tables` | `table.dfy` | `Table.h`: slots, alive flags, free list, primary-key index |
| `DbErrors` | `dberrors.dfy` | `DbErrors.h`: constraint kinds, their tags, the error messages (as they read when the factory's arguments are evaluated left to right; see Findings), and `std::to_string` on `int` |
| `Records` | `records.dfy` | the accessors of the six record classes and `Employee::GetFullName` |
| `Databases` | `database.dfy` | `Database.h`: loading, validators, index building, queries, RESTRICT deletes |
| `DatabaseProperties` | `database_props.dfy` | what loading, the validators and the deletes guarantee |
| `QueryProperties` | `queries.dfy` | what the `Find*` queries return after `BuildIndexes` |

Each structure's abstract meaning:

- **Hash table:** the multiset of its entries.
- **B-tree:** the in-order sequence of its (key, refs) slots.
- **Index:** the sequence of insert operations it has seen. The `Models` relation connects an index to that sequence.
- **Table:** its alive rows in slot order.

Queries are specified against reference definitions computed directly from the alive rows: `MatchingIds` and `InRangeIds`.

The hash function `std::hash` is a parameter. Each hash table stores its function, and the database receives one hash for keys and one for ids.

## Model

| member | source | states |
|---|---|---|
| `HashTables.Create` | HashTable.h:19-26 | a new table is valid and empty; it has exactly the requested number of buckets when that number is positive, and exactly one bucket for a request of 0 |
| `HashTables.BucketIndex` | HashTable.h:126-128 | the bucket chosen for a key is always a valid bucket number |
| `HashTables.FindIndex` | HashTable.h:49-65 | the bucket scan stops at the first entry with the key, or at the end when no entry has it |
| `HashTables.Rehash` | HashTable.h:143-155 | rehashing sets the bucket count to the requested positive capacity and keeps the element count |
| `HashTables.GetIffEntry` | HashTable.h:42-46 | `Get` returns a value exactly when that key/value pair is stored in some bucket |
| `HashTables.RehashSpec` | HashTable.h:143-155 | rehashing keeps the table valid, moves every entry exactly once (same multiset of entries) and changes no lookup |
| `HashTables.MaybeRehashSpec` | HashTable.h:130-140 | the pre-insert growth step keeps validity, the entries, the count and every lookup |
| `HashTables.SetSpec` | HashTable.h:67-77 | after `Set`, the key maps to the new value and every other key's lookup is unchanged; the count grows by one exactly when the key was new |
| `HashTables.SetGrowth` | HashTable.h:130-140 | overwriting never resizes; inserting a new key doubles the capacity exactly when (count+1)/capacity would exceed the load factor |
| `HashTables.SetKeepsLoadBounded` | HashTable.h:130-140 | if the load factor is at least 1/2 and the load is within it before a `Set`, it is still within it afterwards |
| `HashTables.DoublingRestoresLoad` | HashTable.h:130-140 | one doubling is enough to bring an over-full table back under a load factor of at least 1/2 |
| `HashTables.RemoveSpec` | HashTable.h:79-91 | `Remove` reports whether the key was present, removes it, leaves every other key's lookup alone, and lowers the count by one only when it removed something |
| `HashTables.ClearSpec` | HashTable.h:33-36 | clearing keeps the capacity and leaves a valid table in which every lookup misses |
| `HashTables.ForEachSpec` | HashTable.h:93-100 | iteration visits each stored pair exactly once: its pairs are exactly the successful lookups, there are `count` of them and no key repeats |
| `BTrees.Create` | BTree.h:14-21 | a new tree is valid and empty; its minimum degree is the requested one, or 2 when the request is below 2 |
| `BTrees.Clear` | BTree.h:22-24 | clearing keeps the minimum degree and empties the tree |
| `BTrees.LbIndex` | BTree.h:66-71 | the lower-bound position: every key before it is smaller than the search key, and the key at it (if any) is not |
| `BTrees.SplitChildShape` | BTree.h:73-102 | splitting a full child moves its median key up into the parent at position i and leaves two well-formed halves of t-1 keys each (children divided the same way) |
| `BTrees.InsertNonFullSpec` | BTree.h:105-137 | inserting into a non-full node inserts into its sorted in-order key sequence, keeps every node's fill and height bounds, and adds at most one key to that node |
| `BTrees.InsertSpec` | BTree.h:26-34 | `Insert` keeps the tree valid and inserts the (key, ref) pair into the sorted in-order sequence: a new key gets a new slot, an existing key gets the ref appended; the height grows by one exactly when the root was full |
| `BTrees.AbsFindInsert` | BTree.h:26-40 | looking a key up after an insert gives the old refs plus the new ref for that key, and the old answer for every other key |
| `BTrees.FindPtrSpec` | BTree.h:139-146 | the descending search finds exactly the refs that the in-order sequence holds for the key |
| `BTrees.FindEqualsSpec` | BTree.h:36-40 | `FindEquals` returns the refs stored for the key, or nothing when the key is absent |
| `BTrees.RangeCollectSpec` | BTree.h:148-171 | the pruned in-order walk collects, in key order, the refs of exactly the slots whose keys lie in [from, to] |
| `BTrees.FindRangeSpec` | BTree.h:42-46 | `FindRange` returns the refs of the in-order slots in [from, to], in key order; an inverted range gives nothing |
| `BTrees.AbsRangeInverted` | BTree.h:148-171 | when to < from no key lies in the range |
| `Indexes.NewHashIndex` | Index.h:28 | a new hash index records no inserts; it has the requested bucket count, or one bucket for a request of 0 |
| `Indexes.NewBTreeIndex` | Index.h:76-77 | a new B-tree index records no inserts; its minimum degree is the requested one, or 2 when the request is below 2 |
| `Indexes.Clear` | Index.h:30-32 | clearing keeps the kind of index and its capacity or degree, and afterwards it records no inserts |
| `Indexes.ClearHash` | Index.h:30-32 | clearing the underlying hash map leaves no key mapped |
| `Indexes.Insert` | Index.h:43-50 | inserting keeps the index valid and of the same kind |
| `Indexes.InsertAll` | Index.h:34-41 | inserting a list of refs keeps the index valid and of the same kind |
| `Indexes.Build` | Index.h:34-41 | `Build` clears the index and then inserts every ref under its key; the result is valid and of the same kind |
| `Indexes.InsertModels` | Index.h:43-50 | an index that reflects a list of inserts, after one more `Insert`, reflects the list extended by that insert (hash: refs appended under the key; B-tree: `InsertSpec`) |
| `Indexes.BuildModels` | Index.h:34-41 | after `Build` the index reflects exactly the inserts of the given refs, in order, each under its key |
| `Indexes.FindEqualsSpec` | Index.h:52-56 | `FindEquals` returns the refs inserted under the key, in insertion order |
| `Indexes.FindRangeSpec` | Index.h:58-67 | `FindRange` returns, as a multiset, the refs inserted under keys in [from, to], for both implementations (a hash index scans every bucket) |
| `Indexes.StrategiesAgree` | Index.h:10-23 | a hash index and a B-tree index that saw the same inserts answer every equality query identically and every range query with the same multiset |
| `Indexes.FindRangeOrdered` | Index.h:99-101 | every ref a range query returns has its key in [from, to]; a B-tree index returns them in ascending key order |
| `Keys.LessTotal` | BTree.h:66-71 | the key order the B-tree compares with is total: two different keys are always ordered one way |
| `Keys.LessTransitive` | BTree.h:66-71 | that key order is transitive |
| `Keys.StrLessTotal` | BTree.h:66-71 | lexicographic string order is total on distinct strings |
| `Keys.StrLessTransitive` | BTree.h:66-71 | lexicographic string order is transitive |
| `Tables.Empty` | Table.h:24-26 | a default table with a given name is valid and has no rows and no ids |
| `Tables.LoadFromFile` | Table.h:22-48 | loading yields a valid table with the given name and id getter; a missing file yields a table with no rows and no ids, and otherwise the ids are exactly those of the file's rows (a repeated id kept once) |
| `Tables.InsertAll` | Table.h:38-46 | inserting the parsed rows one by one keeps the table valid, its name and its id getter |
| `Tables.InsertAllIds` | Table.h:38-46 | after loading, the ids are exactly the ids of the loaded rows; a repeated id is kept once |
| `Tables.InsertSpec` | Table.h:139-157 | an existing id leaves the table unchanged; a new row goes into the most recently freed slot, which leaves the free list, or else into one new slot appended at the end; it gets a primary-key entry, the alive count grows by one, and no other slot and no other key changes |
| `Tables.InsertIds` | Table.h:139-157 | inserting adds the row's id to the table's ids |
| `Tables.DeleteSpec` | Table.h:71-88 | deletion reports whether the id existed; if it did, its slot is marked dead and pushed on the free list, the count drops by one, the id is gone and nothing else changes; otherwise the table is unchanged |
| `Tables.DeleteIds` | Table.h:71-88 | deletion removes exactly that id from the table's ids |
| `Tables.DeleteKeepsRows` | Table.h:71-88 | deletion introduces no new alive row |
| `Tables.DeleteThenInsertReusesSlot` | Table.h:139-157 | a row inserted right after a delete lands in the freed slot |
| `Tables.TwoDeletesTwoInsertsLifo` | Table.h:139-157 | reuse is last-freed-first over several steps: after deleting `a` and then `b`, inserting two new ids puts the first in `b`'s slot and the second in `a`'s, and the record array and free list are as before the deletes |
| `Tables.UpdateSpec` | Table.h:90-102 | an update succeeds exactly when the id exists and the new row has the same id; it then replaces just that slot's record, and otherwise changes nothing |
| `Tables.ContainsIdIff` | Table.h:63-65 | `ContainsId` holds exactly for the ids of the alive rows |
| `Tables.GetRowBySlot` | Table.h:110-116 | a slot read succeeds exactly on an alive slot and returns that slot's record; a dead slot is an error |
| `Tables.GetAliveSlots` | Table.h:118-125 | the loop returns exactly the alive slot numbers in ascending order |
| `Tables.AliveSlotsSpec` | Table.h:118-125 | the alive slot list is strictly ascending and holds exactly the slots whose flag is set |
| `Tables.AliveSlotsCount` | Table.h:51 | the row count equals the number of alive slots |
| `Tables.AliveIndexToSlot` | Table.h:159-168 | the loop maps the k-th alive row to its slot; for an index past the last row it returns slot 0 |
| `Tables.GetRow` | Table.h:53-61 | `GetRow(k)` returns the k-th alive row; for an index past the last row it returns the record in slot 0 |
| `Tables.RowByIdOfSlot` | Table.h:135 | the record in an alive slot is found again through the primary-key index by its own id |
| `DbErrors.ToStringInjective` | DbErrors.h:11-20 | the tags of two constraint kinds are equal exactly when the kinds are |
| `DbErrors.MakeError` | DbErrors.h:25-33 | an error keeps the kind, message, table, field and row index it is built with |
| `DbErrors.MakeErrorDefaults` | DbErrors.h:25 | table and field default to empty and the row index to -1 |
| `DbErrors.PkDuplicate` | DbErrors.h:35-41 | a primary-key duplicate error has the PK kind and the given table, field and row, and its message names the table, the field and the value |
| `DbErrors.Unique` | DbErrors.h:43-49 | a UNIQUE error has the unique kind and the given table, field and row, and its message names the table, the field and the value |
| `DbErrors.ForeignKey` | DbErrors.h:50-58 | an FK error has the foreign-key kind and the referring table, field and row, and its message names the value and both the referring and the referenced table and field |
| `DbErrors.Restrict` | DbErrors.h:59-67 | a RESTRICT error has the restrict kind and the referring table, field and row, and its message names the value and both the referring and the referenced table and field |
| `DbErrors.JoinMentions` | DbErrors.h:35-66 | every piece of a message chained with `operator+` occurs in the message |
| `DbErrors.PkDuplicateAsWritten` | DbErrors.h:35-41 | with left-to-right argument evaluation the factory as written builds exactly the `PkDuplicate` error |
| `DbErrors.UniqueAsWritten` | DbErrors.h:43-49 | with left-to-right argument evaluation the factory as written builds exactly the `Unique` error |
| `DbErrors.ForeignKeyAsWritten` | DbErrors.h:50-58 | with left-to-right argument evaluation the factory as written builds exactly the `ForeignKey` error |
| `DbErrors.RestrictAsWritten` | DbErrors.h:59-67 | with left-to-right argument evaluation the factory as written builds exactly the `Restrict` error |
| `DbErrors.RightToLeftLosesContext` | DbErrors.h:35-66 | with right-to-left argument evaluation every factory's message is the same for any table and field; a duplicate id 7 in `employees.id` reads "PK duplicate: .=7", which does not name the table |
| `DbErrors.DigitChar` | Database.h:171 | a digit value becomes the decimal character of that value |
| `DbErrors.NatToString` | Database.h:171 | a natural number prints as a non-empty string of decimal digits |
| `DbErrors.NatToStringValue` | Database.h:171 | reading the printed digits back gives the number |
| `DbErrors.IntToStringRoundTrip` | Database.h:189 | printing an id (with a leading minus when negative) and parsing it back gives the id, so the id in a message identifies the id |
| `Records.FullNameInjective` | model/Employee.cpp:23-25 | when last and first names contain no space, two employees have the same full name exactly when they have the same three name parts (the step `QueryProperties.FullNameQuery` rests on) |
| `Databases.Rebuild` | Database.h:135-162 | rebuilding one index over a table's alive slots keeps it valid and of the same kind |
| `Databases.BuildIndexes` | Database.h:135-162 | rebuilding all fifteen indexes keeps the database valid |
| `Databases.EmptyDatabase` | Database.h:23 | a default database is valid |
| `Databases.LoadFirstTables` | Database.h:23-32 | loading addresses, suppliers and products gives a valid database |
| `Databases.WithDepartments` | Database.h:37-39 | loading departments keeps the database valid and changes no other table |
| `Databases.WithEmployees` | Database.h:44-46 | loading employees keeps the database valid and changes no other table |
| `Databases.WithPurchases` | Database.h:50-52 | loading purchases keeps the database valid and changes no other table |
| `Databases.LoadFromFiles` | Database.h:20-57 | a successful load yields a valid database |
| `DatabaseProperties.FirstErrorSpec` | Database.h:350-363 | a validator scan passes exactly when every row passes, and otherwise reports the first failing row's error |
| `DatabaseProperties.ScanUniqueSpec` | Database.h:314-324 | the seen-names scan passes exactly when no name repeats, and otherwise reports a UNIQUE error on the first row whose name occurred earlier |
| `DatabaseProperties.ValidateUniqueNamesSpec` | Database.h:314-348 | a unique-name validator passes exactly when the alive rows' names are pairwise distinct; otherwise it names the first repeat's value and row |
| `DatabaseProperties.FkScanSpec` | Database.h:350-393 | a foreign-key validator passes exactly when every alive row's reference is a live id of the target table; otherwise it reports an FK error for the first unresolved row |
| `DatabaseProperties.PurchaseCheckSpec` | Database.h:395-424 | a purchase passes exactly when its department, supplier and product all exist; otherwise the error is for the first of these (in that order) that is missing |
| `DatabaseProperties.ValidatePurchasesFkSpec` | Database.h:395-424 | the purchase validator passes exactly when every purchase resolves, and otherwise reports the first failing purchase |
| `DatabaseProperties.ValidatorsPassIff` | Database.h:314-424 | each of the seven validators passes exactly when its uniqueness or referential-integrity property holds |
| `DatabaseProperties.CheckKinds` | Database.h:314-424 | each validator fails only with its own kind of error: the three name checks with UNIQUE, the four reference checks with FK |
| `DatabaseProperties.LoadAllTables` | Database.h:20-52 | loading all six tables without the checks gives a valid database |
| `DatabaseProperties.FirstSomeSpec` | Database.h:33-54 | the first error of a list of checks: none exactly when every check passes, otherwise the earliest failing one |
| `DatabaseProperties.LoadOrder` | Database.h:20-57 | a load fails with the first error in the source's validation order, and otherwise returns the fully indexed database |
| `DatabaseProperties.LoadIntegrity` | Database.h:20-57 | a loaded database is valid, has unique department, supplier and product names, and satisfies every foreign key |
| `DatabaseProperties.LoadErrorKinds` | Database.h:20-57 | a failed load reports a UNIQUE or FK error and nothing else |
| `DatabaseProperties.GuardSpec` | Database.h:165-191 | a RESTRICT guard passes exactly when no alive row refers to the id; otherwise it reports the first referring row |
| `DatabaseProperties.ResolvesAfterTargetDelete` | Database.h:165-191 | deleting a row that nothing refers to leaves every foreign key into its table resolved |
| `DatabaseProperties.DeleteDepartmentSpec` | Database.h:165-191 | employees referring to the department block the delete first, then purchases; unblocked, it succeeds exactly when the department exists (otherwise "Department not found"); success removes just that row and preserves referential integrity |
| `DatabaseProperties.DeleteSupplierSpec` | Database.h:193-219 | products, then purchases, block a supplier delete; unblocked, it succeeds exactly when the supplier exists; success removes just that row and preserves referential integrity |
| `DatabaseProperties.DeleteProductSpec` | Database.h:221-236 | purchases block a product delete; unblocked, it succeeds exactly when the product exists; success removes just that row and preserves referential integrity |
| `DatabaseProperties.DeleteAddressSpec` | Database.h:238-253 | departments block an address delete; unblocked, it succeeds exactly when the address exists; success removes just that row and preserves referential integrity |
| `DatabaseProperties.DeleteEmployeeSpec` | Database.h:255-259 | an employee delete succeeds exactly when the employee exists (otherwise "Employee not found"), removes just that row and preserves referential integrity |
| `DatabaseProperties.DeletePurchaseSpec` | Database.h:261-265 | a purchase delete succeeds exactly when the purchase exists, removes just that row and preserves referential integrity |
| `QueryProperties.SlotsToIdsSpec` | Database.h:269-278 | mapping slots to ids succeeds exactly when every slot is alive, giving the ids of those rows in order; a dead slot gives the slot-read error |
| `QueryProperties.FindEqualsAfterRebuild` | Database.h:135-162 | after an index is rebuilt, an equality query returns exactly the ids of the alive rows with that key, in slot order |
| `QueryProperties.FindRangeAfterRebuild` | Database.h:135-162 | after a rebuild, a range query succeeds with exactly the ids of the alive rows whose key is in the range (as a multiset), all live; a B-tree index returns them in ascending key order |
| `QueryProperties.AddressQueries` | Database.h:78-83 | after `BuildIndexes`, the address queries by city and by id range return exactly the matching addresses' ids, the range query in ascending id order |
| `QueryProperties.DepartmentQueries` | Database.h:86-91 | after `BuildIndexes`, the department queries by name and by address id return exactly the matching departments' ids |
| `QueryProperties.EmployeeQueries` | Database.h:94-102 | after `BuildIndexes`, the employee queries by full name and department return exactly the matching ids, and the birth-year range query returns them in ascending birth-year order |
| `QueryProperties.FullNameMatchesParts` | model/Employee.cpp:23-25 | when no last or first name contains a space, the rows whose full-name key equals "last first middle" are exactly the rows with those three name parts, in the same order |
| `QueryProperties.FullNameQuery` | Database.h:94-96 | after `BuildIndexes`, the full-name query for "last first middle" returns exactly the ids of the live employees with those three name parts, in slot order, when no last or first name contains a space |
| `QueryProperties.SupplierQueries` | Database.h:105-110 | after `BuildIndexes`, the supplier queries by name and by city return exactly the matching suppliers' ids |
| `QueryProperties.ProductQueries` | Database.h:113-118 | after `BuildIndexes`, the product queries by name and by default supplier return exactly the matching products' ids |
| `QueryProperties.PurchaseDateQuery` | Database.h:121-123 | after `BuildIndexes`, the purchase date range query succeeds with exactly the alive purchases dated in the range, all live, in ascending date order |
| `QueryProperties.PurchaseQueries` | Database.h:121-132 | after `BuildIndexes`, the purchase queries by supplier, product and department return exactly the matching ids, and the date range query returns them in ascending date order |

## Left out

- File reading and CSV parsing (`Table::LoadFromFile` reading lines, skipping blank lines, the `FromCSV` parsers in the record `.cpp` files): a table file is given as an already parsed `Option<seq<Record>>`, with `None` for a file that cannot be opened. Parse errors, which the source lets escape as exceptions, are not modelled.
- The `rowIndexForError` and `throwOnPkDuplicate` arguments of `InsertInternal`: the source ignores them. A repeated id is skipped silently, as in the source.
- `std::hash`: its values are opaque, so each hash table takes its hash function as a parameter. Every property holds for any hash function.
- The `double` load factor: it is an exact fraction `loadNum/loadDen`, default 3/4, and the growth test `(count+1)/capacity > maxLoad` is the same comparison after cross-multiplying. That holds only while the rounded `double` quotient decides the comparison as the exact one would. For 3/4 this is so below 2^52 buckets, where a ratio other than 3/4 differs from it by more than the rounding error.
- Integer widths: `size_t` slots, counts and capacities are `nat`. The `int` ids, birth years and `(int)i` row-index casts (for example `Database.h:173`) are unbounded `int`, and so is the `size_t` degree that `BTreeIndex` narrows to the `int` degree of `BTree`. No operation of the core relies on wrap-around. Only more than 2^31 rows, or ids at the limits of `int`, would behave differently.
- Pointers and `unique_ptr` ownership in the B-tree: nodes are an immutable recursive datatype, and splits return new nodes.
- The quantity and unit price of a purchase: no operation of the core reads them.
- The default constructors of the record classes, the field getters of `Database` (`Addresses()` and the like) and the `TryGet`/`RemoveKey` aliases of the hash table: they only expose or rename what is modelled.
- The GUI (`gui_main.cpp`).
- `Table::UpdateById` does not update the secondary indexes, and neither does any delete. The query lemmas are stated for a database right after `BuildIndexes`. After a later delete, a stale index can yield a dead slot, and the model states only that `SlotsToIds` then reports the slot-read error (`QueryProperties.SlotsToIdsSpec`).
- DbErrors.PkDuplicate: the load never raises this error, because a duplicate id is skipped. It is modelled for completeness, and `LoadErrorKinds` proves it never escapes a load.
- Fifteen secondary indexes are modelled, as the code declares them (`Database.h:281-304`).
- Tables.GetRow: for an index past the last row it requires at least one record slot. The source then reads `records_[0]`, which is undefined behaviour on an empty vector.

## Findings

| source | as written | input that shows it | evidently intended | confidence | as-written member | corrected member |
|---|---|---|---|---|---|---|
| DbErrors.h:35-66 | each factory builds the message from `table` and `field` in the same constructor call that moves both into by-value parameters, and C++ leaves the order of parameter initialisation unspecified | `PrimaryKeyDuplicate("employees", "id", "7", 3)` with right-to-left initialisation, as GCC commonly does: the message reads "PK duplicate: .=7" | the message names the table and field, "PK duplicate: employees.id=7" (likewise for `Unique`, `ForeignKey` and `Restrict`) | medium: depends on the compiler; not executed | `DbErrors.RightToLeftLosesContext` (over `PkDuplicateAsWritten` and the other three) | `DbErrors.PkDuplicate`, `DbErrors.Unique`, `DbErrors.ForeignKey`, `DbErrors.Restrict` |
