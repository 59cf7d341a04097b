/** Row storage (Table.h). Rows live in slots of a dense record array; each
    slot has an alive flag, freed slots are kept on a LIFO free list for
    reuse, and a hash table maps each live row's id to its slot. A table is
    an immutable value and every mutation returns the new table. */
module Tables {
  import opened Wrappers
  import opened DbErrors
  import H = HashTables

  /** Index into the record array. */
  type Slot = nat

  datatype Table<!T> = Table(
    name: string,
    records: seq<T>,
    alive: seq<bool>,
    freeList: seq<Slot>,
    aliveCount: nat,
    pk: H.HashTable<int, Slot>,
    idOf: T -> int)

  /** Initial capacity of the primary-key hash table. */
  const PkCapacity: nat := 1024

  // ---------------------------------------------------------------------
  // Alive slots

  /** The alive slots in ascending order. */
  function AliveSlots(alive: seq<bool>): seq<Slot> {
    if |alive| == 0 then []
    else AliveSlots(alive[..|alive| - 1]) + (if alive[|alive| - 1] then [|alive| - 1] else [])
  }

  ghost predicate StrictlyAscending(s: seq<nat>) {
    forall i, j :: 0 <= i < j < |s| ==> s[i] < s[j]
  }

  /** The rows of the alive slots, in slot order: what `GetRow(0..count-1)`
      walks through. */
  function AliveRows<T>(t: Table<T>): seq<T>
    requires |t.records| == |t.alive|
  {
    var slots := AliveSlots(t.alive);
    AliveSlotsSpec(t.alive);
    seq(|slots|, i requires 0 <= i < |slots| => t.records[slots[i]])
  }

  /** The ids of the live rows. */
  ghost function Ids<T>(t: Table<T>): set<int>
    requires |t.records| == |t.alive|
  {
    var slots := AliveSlots(t.alive);
    AliveSlotsSpec(t.alive);
    set i | 0 <= i < |slots| :: t.idOf(t.records[slots[i]])
  }

  // ---------------------------------------------------------------------
  // Invariant

  /** Every id in the primary-key index points at an alive slot holding a
      row with that id. */
  ghost predicate PkSound<T>(t: Table<T>)
    requires |t.records| == |t.alive|
  {
    forall id :: H.Get(t.pk, id).Some? ==>
      var s := H.Get(t.pk, id).value;
      s < |t.alive| && t.alive[s] && t.idOf(t.records[s]) == id
  }

  /** Every alive slot is indexed under its row's id. */
  ghost predicate PkComplete<T>(t: Table<T>)
    requires |t.records| == |t.alive|
  {
    forall s :: 0 <= s < |t.alive| && t.alive[s] ==> H.Get(t.pk, t.idOf(t.records[s])) == Some(s)
  }

  /** The free list holds each dead slot exactly once, and nothing else. */
  ghost predicate FreeListExact<T>(t: Table<T>) {
    && (forall i, j :: 0 <= i < j < |t.freeList| ==> t.freeList[i] != t.freeList[j])
    && (forall i :: 0 <= i < |t.freeList| ==> t.freeList[i] < |t.alive| && !t.alive[t.freeList[i]])
    && (forall s :: 0 <= s < |t.alive| && !t.alive[s] ==> s in t.freeList)
  }

  /** The table invariant: the primary-key index is a bijection between live
      ids and alive slots, the count is the number of alive slots, and the
      free list is exactly the dead slots. */
  ghost predicate Valid<T>(t: Table<T>) {
    && |t.records| == |t.alive|
    && H.Valid(t.pk)
    && PkSound(t)
    && PkComplete(t)
    && t.aliveCount == |AliveSlots(t.alive)|
    && FreeListExact(t)
  }

  // ---------------------------------------------------------------------
  // Operations

  /** A table with no rows (the default constructor, named by
      `LoadFromFile`). */
  function Empty<T>(name: string, idOf: T -> int, idHash: int -> nat): (t: Table<T>)
    ensures Valid(t) && t.name == name
    ensures t.aliveCount == 0 && Ids(t) == {}
  {
    Table(name, [], [], [], 0, H.Create(idHash, PkCapacity), idOf)
  }

  function GetRowCount<T>(t: Table<T>): nat {
    t.aliveCount
  }

  predicate ContainsId<T>(t: Table<T>, id: int) {
    H.Contains(t.pk, id)
  }

  predicate IsAliveSlot<T>(t: Table<T>, s: Slot) {
    s < |t.alive| && t.alive[s]
  }

  /** The live row holding an id, through the primary-key index. */
  function RowById<T>(t: Table<T>, id: int): T
    requires Valid(t) && ContainsId(t, id)
  {
    t.records[H.Get(t.pk, id).value]
  }

  /** `GetRowBySlot`: the row of an alive slot; a dead or out-of-range slot is
      a runtime error. */
  function GetRowBySlot<T>(t: Table<T>, s: Slot): (r: Result<T, Failure>)
    requires |t.records| == |t.alive|
    ensures r.Ok? <==> IsAliveSlot(t, s)
    ensures r.Ok? ==> r.value == t.records[s]
  {
    if !IsAliveSlot(t, s) then Err(Runtime("GetRowBySlot: slot is not alive"))
    else Ok(t.records[s])
  }

  /** `InsertInternal` (and `Insert`): a row whose id is already indexed is
      skipped silently; otherwise it takes the most recently freed slot, or a
      new slot at the end. The source's row-index and throw-flag parameters
      do not influence the outcome. */
  function InsertInternal<T>(t: Table<T>, row: T): Table<T>
    requires Valid(t)
  {
    var id := t.idOf(row);
    if H.Contains(t.pk, id) then t
    else if |t.freeList| > 0 then
      var slot := t.freeList[|t.freeList| - 1];
      t.(records := t.records[slot := row], alive := t.alive[slot := true],
         freeList := t.freeList[..|t.freeList| - 1],
         pk := H.Set(t.pk, id, slot), aliveCount := t.aliveCount + 1)
    else
      var slot := |t.records|;
      t.(records := t.records + [row], alive := t.alive + [true],
         pk := H.Set(t.pk, id, slot), aliveCount := t.aliveCount + 1)
  }

  /** `DeleteById`: marks the row's slot dead, frees it and unindexes the id;
      `false` for an unknown id. An id indexed at a dead slot would only be
      unindexed (this cannot happen in a valid table). */
  function DeleteById<T>(t: Table<T>, id: int): (Table<T>, bool)
    requires Valid(t)
  {
    match H.Get<int, Slot>(t.pk, id)
    case None => (t, false)
    case Some(slot) =>
      if slot >= |t.alive| || !t.alive[slot] then (t.(pk := H.Remove(t.pk, id).0), false)
      else
        AliveCountPositive(t.alive, slot);
        (t.(alive := t.alive[slot := false], aliveCount := t.aliveCount - 1,
            freeList := t.freeList + [slot], pk := H.Remove(t.pk, id).0), true)
  }

  /** `UpdateById`: replaces the row of a live id, provided the new row keeps
      the id; `false` otherwise. */
  function UpdateById<T>(t: Table<T>, id: int, newRow: T): (Table<T>, bool)
    requires Valid(t)
  {
    match H.Get<int, Slot>(t.pk, id)
    case None => (t, false)
    case Some(slot) =>
      if slot >= |t.alive| || !t.alive[slot] then (t, false)
      else if t.idOf(newRow) != id then (t, false)
      else (t.(records := t.records[slot := newRow]), true)
  }

  /** The reading loop of `LoadFromFile`: each parsed row in file order. */
  function InsertAll<T>(t: Table<T>, rows: seq<T>): (t': Table<T>)
    requires Valid(t)
    ensures Valid(t') && t'.name == t.name && t'.idOf == t.idOf
    decreases |rows|
  {
    if |rows| == 0 then t
    else
      InsertValid(t, rows[0]);
      InsertAll(InsertInternal(t, rows[0]), rows[1..])
  }

  /** `LoadFromFile`: `None` stands for a file that cannot be opened, which
      gives an empty table; otherwise the parsed rows are inserted in order. */
  function LoadFromFile<T>(file: Option<seq<T>>, name: string, idOf: T -> int,
                           idHash: int -> nat): (t: Table<T>)
    ensures Valid(t) && t.name == name && t.idOf == idOf
    ensures file.None? ==> GetRowCount(t) == 0 && Ids(t) == {}
    ensures file.Some? ==> Ids(t) == set r | r in file.value :: idOf(r)
  {
    match file
    case None => Empty(name, idOf, idHash)
    case Some(rows) =>
      InsertAllIds(Empty(name, idOf, idHash), rows);
      InsertAll(Empty(name, idOf, idHash), rows)
  }

  /** `GetAliveSlots`: the alive slots in ascending order. */
  method GetAliveSlots<T>(t: Table<T>) returns (slots: seq<Slot>)
    ensures slots == AliveSlots(t.alive)
  {
    slots := [];
    var i := 0;
    while i < |t.alive|
      invariant i <= |t.alive|
      invariant slots == AliveSlots(t.alive[..i])
    {
      assert t.alive[..i + 1][..i] == t.alive[..i];
      if t.alive[i] {
        slots := slots + [i];
      }
      i := i + 1;
    }
    assert t.alive[..|t.alive|] == t.alive;
  }

  /** `AliveIndexToSlot`: the slot of the `aliveIndex`-th alive row, or 0
      when there are not that many rows. */
  method AliveIndexToSlot(alive: seq<bool>, aliveIndex: nat) returns (slot: Slot)
    ensures aliveIndex < |AliveSlots(alive)| ==> slot == AliveSlots(alive)[aliveIndex]
    ensures aliveIndex >= |AliveSlots(alive)| ==> slot == 0
  {
    var count := 0;
    var s := 0;
    while s < |alive|
      invariant s <= |alive|
      invariant count == |AliveSlots(alive[..s])| && count <= aliveIndex
    {
      AliveSlotsPrefix(alive, s + 1);
      assert alive[..s + 1][..s] == alive[..s];
      if alive[s] {
        if count == aliveIndex {
          assert AliveSlots(alive[..s + 1]) == AliveSlots(alive[..s]) + [s];
          return s;
        }
        count := count + 1;
      }
      s := s + 1;
    }
    assert alive[..s] == alive;
    return 0;
  }

  /** `GetRow(aliveIndex)`: the `aliveIndex`-th live row in slot order; past
      the last live row it reads slot 0, as the source does. */
  method GetRow<T>(t: Table<T>, aliveIndex: nat) returns (row: T)
    requires Valid(t) && (aliveIndex < GetRowCount(t) || |t.records| > 0)
    ensures aliveIndex < GetRowCount(t) ==> row == AliveRows(t)[aliveIndex]
    ensures aliveIndex >= GetRowCount(t) ==> row == t.records[0]
  {
    var slot := AliveIndexToSlot(t.alive, aliveIndex);
    AliveSlotsSpec(t.alive);
    if aliveIndex < GetRowCount(t) {
      assert AliveSlots(t.alive)[aliveIndex] in AliveSlots(t.alive);
    }
    row := t.records[slot];
  }

  // ---------------------------------------------------------------------
  // Alive-slot facts

  lemma AliveSlotsAppend(alive: seq<bool>, b: bool)
    ensures AliveSlots(alive + [b]) == AliveSlots(alive) + (if b then [|alive|] else [])
  {
    assert (alive + [b])[..|alive|] == alive;
  }

  /** `AliveSlots` lists exactly the alive slots, each once, ascending. */
  lemma {:induction false} AliveSlotsSpec(alive: seq<bool>)
    ensures StrictlyAscending(AliveSlots(alive))
    ensures forall s :: s in AliveSlots(alive) <==> 0 <= s < |alive| && alive[s]
    ensures forall i :: 0 <= i < |AliveSlots(alive)| ==> AliveSlots(alive)[i] < |alive|
    ensures |AliveSlots(alive)| <= |alive|
  {
    if |alive| > 0 {
      var n := |alive| - 1;
      var pre := alive[..n];
      AliveSlotsSpec(pre);
      var p := AliveSlots(pre);
      assert AliveSlots(alive) == p + (if alive[n] then [n] else []);
      if alive[n] {
        AscendingSnoc(p, n);
      }
      forall s
        ensures s in AliveSlots(alive) <==> 0 <= s < |alive| && alive[s]
      {
        if 0 <= s < n {
          assert pre[s] == alive[s];
        }
      }
    }
  }

  lemma AscendingSnoc(p: seq<nat>, n: nat)
    requires StrictlyAscending(p) && forall i :: 0 <= i < |p| ==> p[i] < n
    ensures StrictlyAscending(p + [n])
  {
    var q := p + [n];
    forall i, j | 0 <= i < j < |q|
      ensures q[i] < q[j]
    {
      assert q[i] == p[i];
      if j < |p| {
        assert q[j] == p[j];
      }
    }
  }

  lemma {:induction false} AliveSlotsPrefix(alive: seq<bool>, j: nat)
    requires j <= |alive|
    ensures AliveSlots(alive[..j]) <= AliveSlots(alive)
    decreases |alive| - j
  {
    if j < |alive| {
      AliveSlotsPrefix(alive, j + 1);
      var n := |alive[..j + 1]| - 1;
      assert alive[..j + 1][..n] == alive[..j];
    } else {
      assert alive[..j] == alive;
    }
  }

  /** Flipping one flag changes the number of alive slots by that flag. */
  lemma {:induction false} AliveCountUpdate(alive: seq<bool>, s: nat, b: bool)
    requires s < |alive|
    ensures |AliveSlots(alive[s := b])|
         == |AliveSlots(alive)| - (if alive[s] then 1 else 0) + (if b then 1 else 0)
  {
    var n := |alive| - 1;
    var a' := alive[s := b];
    assert a'[..n] == if s == n then alive[..n] else alive[..n][s := b];
    if s < n {
      AliveCountUpdate(alive[..n], s, b);
    }
  }

  lemma AliveCountPositive(alive: seq<bool>, s: nat)
    requires s < |alive| && alive[s]
    ensures |AliveSlots(alive)| >= 1
  {
    AliveSlotsSpec(alive);
    assert s in AliveSlots(alive);
  }

  // ---------------------------------------------------------------------
  // Ids

  /** A live id is exactly one the primary-key index contains. */
  lemma ContainsIdIff<T>(t: Table<T>, id: int)
    requires Valid(t)
    ensures ContainsId(t, id) <==> id in Ids(t)
  {
    var slots := AliveSlots(t.alive);
    AliveSlotsSpec(t.alive);
    if ContainsId(t, id) {
      var s := H.Get(t.pk, id).value;
      assert s in slots;
      var i :| 0 <= i < |slots| && slots[i] == s;
      assert t.idOf(t.records[slots[i]]) == id;
    }
    if id in Ids(t) {
      var i :| 0 <= i < |slots| && t.idOf(t.records[slots[i]]) == id;
      assert slots[i] in slots;
    }
  }

  // ---------------------------------------------------------------------
  // Insert

  /** `InsertInternal` keeps the invariant. A row whose id is live changes
      nothing. Otherwise the row lands in the last freed slot (LIFO), which is
      popped off the free list, or in a new slot at the end, which grows the
      record array by one; its id maps to that slot, the count grows by one,
      and every other slot and id is as before. */
  lemma InsertSpec<T>(t: Table<T>, row: T)
    requires Valid(t)
    ensures var t' := InsertInternal(t, row);
      var id := t.idOf(row);
      var slot := if |t.freeList| > 0 then t.freeList[|t.freeList| - 1] else |t.records|;
      && Valid(t')
      && t'.name == t.name && t'.idOf == t.idOf
      && (ContainsId(t, id) ==> t' == t)
      && (!ContainsId(t, id) ==>
            && H.Get(t'.pk, id) == Some(slot)
            && slot < |t'.records| && t'.records[slot] == row && t'.alive[slot]
            && GetRowCount(t') == GetRowCount(t) + 1
            && t'.freeList == (if |t.freeList| > 0 then t.freeList[..|t.freeList| - 1] else t.freeList)
            && |t'.records| == (if |t.freeList| > 0 then |t.records| else |t.records| + 1)
            && (forall s :: 0 <= s < |t.records| && s != slot ==>
                  t'.records[s] == t.records[s] && t'.alive[s] == t.alive[s])
            && (forall x :: x != id ==> H.Get(t'.pk, x) == H.Get(t.pk, x)))
  {
    var id := t.idOf(row);
    if !ContainsId(t, id) {
      H.SetSpec(t.pk, id, if |t.freeList| > 0 then t.freeList[|t.freeList| - 1] else |t.records|);
      if |t.freeList| > 0 {
        InsertReuse(t, row);
      } else {
        InsertAppend(t, row);
      }
    }
  }

  lemma InsertReuse<T>(t: Table<T>, row: T)
    requires Valid(t) && !ContainsId(t, t.idOf(row)) && |t.freeList| > 0
    ensures Valid(InsertInternal(t, row))
  {
    var slot := t.freeList[|t.freeList| - 1];
    H.SetSpec(t.pk, t.idOf(row), slot);
    ReuseKeepsPk(t, row);
    ReuseKeepsFreeList(t, row);
    AliveCountUpdate(t.alive, slot, true);
  }

  lemma ReuseKeepsPk<T>(t: Table<T>, row: T)
    requires Valid(t) && !ContainsId(t, t.idOf(row)) && |t.freeList| > 0
    ensures |InsertInternal(t, row).records| == |InsertInternal(t, row).alive|
    ensures PkSound(InsertInternal(t, row)) && PkComplete(InsertInternal(t, row))
  {
    var id := t.idOf(row);
    var slot := t.freeList[|t.freeList| - 1];
    var t' := InsertInternal(t, row);
    H.SetSpec(t.pk, id, slot);
    assert t'.records == t.records[slot := row] && t'.alive == t.alive[slot := true];
    assert !t.alive[slot];
    forall x | H.Get(t'.pk, x).Some?
      ensures var s := H.Get(t'.pk, x).value;
        s < |t'.alive| && t'.alive[s] && t'.idOf(t'.records[s]) == x
    {
      if x != id {
        assert H.Get(t.pk, x) == H.Get(t'.pk, x);
      }
    }
    forall s | 0 <= s < |t'.alive| && t'.alive[s]
      ensures H.Get(t'.pk, t'.idOf(t'.records[s])) == Some(s)
    {
      if s != slot {
        assert H.Get(t.pk, t.idOf(t.records[s])) == Some(s);
      }
    }
  }

  lemma ReuseKeepsFreeList<T>(t: Table<T>, row: T)
    requires Valid(t) && !ContainsId(t, t.idOf(row)) && |t.freeList| > 0
    ensures FreeListExact(InsertInternal(t, row))
  {
    var n := |t.freeList| - 1;
    var slot := t.freeList[n];
    var t' := InsertInternal(t, row);
    assert t'.alive == t.alive[slot := true] && t'.freeList == t.freeList[..n];
    forall s | 0 <= s < |t'.alive| && !t'.alive[s] ensures s in t'.freeList {
      assert s in t.freeList;
      var i :| 0 <= i < |t.freeList| && t.freeList[i] == s;
      assert i != n;
      assert t'.freeList[i] == s;
    }
  }

  lemma InsertAppend<T>(t: Table<T>, row: T)
    requires Valid(t) && !ContainsId(t, t.idOf(row)) && |t.freeList| == 0
    ensures Valid(InsertInternal(t, row))
  {
    var id := t.idOf(row);
    var slot := |t.records|;
    var t' := InsertInternal(t, row);
    H.SetSpec(t.pk, id, slot);
    assert t'.records == t.records + [row] && t'.alive == t.alive + [true];
    forall x | H.Get(t'.pk, x).Some?
      ensures var s := H.Get(t'.pk, x).value;
        s < |t'.alive| && t'.alive[s] && t'.idOf(t'.records[s]) == x
    {
      if x != id {
        assert H.Get(t.pk, x) == H.Get(t'.pk, x);
      }
    }
    forall s | 0 <= s < |t'.alive| && t'.alive[s]
      ensures H.Get(t'.pk, t'.idOf(t'.records[s])) == Some(s)
    {
      if s != slot {
        assert t'.records[s] == t.records[s];
        assert H.Get(t.pk, t.idOf(t.records[s])) == Some(s);
      }
    }
    AliveSlotsAppend(t.alive, true);
    forall s | 0 <= s < |t'.alive| && !t'.alive[s] ensures s in t'.freeList {
      assert s < |t.alive| && !t.alive[s];
    }
  }

  /** The part of `InsertSpec` a fold over many inserts needs. */
  lemma InsertValid<T>(t: Table<T>, row: T)
    requires Valid(t)
    ensures var t' := InsertInternal(t, row);
      Valid(t') && t'.name == t.name && t'.idOf == t.idOf
  {
    InsertSpec(t, row);
  }

  /** Inserting a row adds its id to the live ids. */
  lemma InsertIds<T>(t: Table<T>, row: T)
    requires Valid(t)
    ensures Ids(InsertInternal(t, row)) == Ids(t) + {t.idOf(row)}
  {
    var t' := InsertInternal(t, row);
    var id := t.idOf(row);
    InsertSpec(t, row);
    forall x ensures x in Ids(t') <==> x in Ids(t) + {id} {
      ContainsIdIff(t, x);
      ContainsIdIff(t', x);
      if x != id {
        assert H.Get(t'.pk, x) == H.Get(t.pk, x) || t' == t;
      }
    }
  }

  /** Loading keeps the first row of each id (the others are skipped): the
      live ids are those already present plus the ids of all loaded rows. */
  lemma {:induction false} InsertAllIds<T>(t: Table<T>, rows: seq<T>)
    requires Valid(t)
    ensures InsertAll(t, rows).idOf == t.idOf && InsertAll(t, rows).name == t.name
    ensures Ids(InsertAll(t, rows)) == Ids(t) + (set r | r in rows :: t.idOf(r))
    decreases |rows|
  {
    if |rows| > 0 {
      InsertValid(t, rows[0]);
      InsertIds(t, rows[0]);
      InsertAllIds(InsertInternal(t, rows[0]), rows[1..]);
      assert forall r :: r in rows <==> r == rows[0] || r in rows[1..];
    }
  }

  // ---------------------------------------------------------------------
  // Delete and update

  /** `DeleteById` keeps the invariant and reports whether the id was live.
      An unknown id changes nothing. A live id's slot turns dead and goes to
      the end of the free list, the count drops by one, the id is no longer
      indexed, and all other slots, rows and ids are as before. */
  lemma DeleteSpec<T>(t: Table<T>, id: int)
    requires Valid(t)
    ensures var (t', found) := DeleteById(t, id);
      && Valid(t')
      && t'.name == t.name && t'.idOf == t.idOf && t'.records == t.records
      && found == ContainsId(t, id)
      && (!found ==> t' == t)
      && (found ==>
            var slot := H.Get(t.pk, id).value;
            && slot < |t.alive| && t.alive[slot] && !t'.alive[slot]
            && t'.freeList == t.freeList + [slot]
            && GetRowCount(t') == GetRowCount(t) - 1
            && !ContainsId(t', id)
            && (forall s :: 0 <= s < |t.alive| && s != slot ==> t'.alive[s] == t.alive[s])
            && (forall x :: x != id ==> H.Get(t'.pk, x) == H.Get(t.pk, x)))
  {
    if ContainsId(t, id) {
      var slot := H.Get(t.pk, id).value;
      H.RemoveSpec(t.pk, id);
      DeleteFoundValid(t, id);
      AliveCountUpdate(t.alive, slot, false);
    }
  }

  /** Deleting a live id keeps the table invariant. */
  lemma DeleteFoundValid<T>(t: Table<T>, id: int)
    requires Valid(t) && ContainsId(t, id)
    ensures Valid(DeleteById(t, id).0)
  {
    var slot := H.Get(t.pk, id).value;
    H.RemoveSpec(t.pk, id);
    DeleteKeepsPkSound(t, id);
    DeleteKeepsPkComplete(t, id);
    DeleteKeepsFreeList(t, id);
    AliveCountUpdate(t.alive, slot, false);
  }

  lemma DeleteKeepsPkSound<T>(t: Table<T>, id: int)
    requires Valid(t) && ContainsId(t, id)
    ensures |DeleteById(t, id).0.records| == |DeleteById(t, id).0.alive|
    ensures PkSound(DeleteById(t, id).0)
  {
    var t' := DeleteById(t, id).0;
    H.RemoveSpec(t.pk, id);
    forall x | H.Get(t'.pk, x).Some?
      ensures var s := H.Get(t'.pk, x).value;
        s < |t'.alive| && t'.alive[s] && t'.idOf(t'.records[s]) == x
    {
      assert H.Get(t.pk, x) == H.Get(t'.pk, x);
    }
  }

  lemma DeleteKeepsPkComplete<T>(t: Table<T>, id: int)
    requires Valid(t) && ContainsId(t, id)
    ensures |DeleteById(t, id).0.records| == |DeleteById(t, id).0.alive|
    ensures PkComplete(DeleteById(t, id).0)
  {
    var slot := H.Get(t.pk, id).value;
    var t' := DeleteById(t, id).0;
    H.RemoveSpec(t.pk, id);
    forall s | 0 <= s < |t'.alive| && t'.alive[s]
      ensures H.Get(t'.pk, t'.idOf(t'.records[s])) == Some(s)
    {
      assert H.Get(t.pk, t.idOf(t.records[s])) == Some(s);
    }
  }

  lemma DeleteKeepsFreeList<T>(t: Table<T>, id: int)
    requires Valid(t) && ContainsId(t, id)
    ensures FreeListExact(DeleteById(t, id).0)
  {
    var slot := H.Get(t.pk, id).value;
    var t' := DeleteById(t, id).0;
    assert t'.alive == t.alive[slot := false] && t'.freeList == t.freeList + [slot];
    forall i, j | 0 <= i < j < |t'.freeList| ensures t'.freeList[i] != t'.freeList[j] {
      if j == |t.freeList| {
        assert t.freeList[i] in t.freeList;
      }
    }
  }

  /** Deleting a live id removes exactly that id from the live ids. */
  lemma DeleteIds<T>(t: Table<T>, id: int)
    requires Valid(t)
    ensures Ids(DeleteById(t, id).0) == Ids(t) - {id}
  {
    var t' := DeleteById(t, id).0;
    DeleteSpec(t, id);
    forall x ensures x in Ids(t') <==> x in Ids(t) - {id} {
      ContainsIdIff(t, x);
      ContainsIdIff(t', x);
    }
  }

  /** Slots are reused last-freed-first: a row with a non-live id inserted
      right after a delete takes the slot the delete freed. */
  lemma DeleteThenInsertReusesSlot<T>(t: Table<T>, id: int, row: T)
    requires Valid(t) && ContainsId(t, id)
    requires t.idOf(row) == id || !ContainsId(t, t.idOf(row))
    ensures Valid(DeleteById(t, id).0)
    ensures var t' := InsertInternal(DeleteById(t, id).0, row);
      && H.Get(t'.pk, t.idOf(row)) == H.Get(t.pk, id)
      && t'.records[H.Get(t.pk, id).value] == row
  {
    var slot := H.Get(t.pk, id).value;
    var d := DeleteById(t, id).0;
    DeleteSpec(t, id);
    assert !ContainsId(d, t.idOf(row));
    assert d.freeList[|d.freeList| - 1] == slot;
    H.SetSpec(d.pk, t.idOf(row), slot);
  }

  /** Reuse is last-freed-first over several steps: after deleting `a` and
      then `b`, two inserts of new ids take `b`'s slot and then `a`'s, and the
      record array and free list are back to their old size and contents. */
  lemma TwoDeletesTwoInsertsLifo<T>(t: Table<T>, a: int, b: int, x: T, y: T)
    requires Valid(t) && ContainsId(t, a) && ContainsId(t, b) && a != b
    requires !ContainsId(t, t.idOf(x)) && !ContainsId(t, t.idOf(y)) && t.idOf(x) != t.idOf(y)
    ensures var t1 := DeleteById(t, a).0;
      Valid(t1) &&
      var t2 := DeleteById(t1, b).0;
      Valid(t2) &&
      var t3 := InsertInternal(t2, x);
      Valid(t3) &&
      var t4 := InsertInternal(t3, y);
      && H.Get(t4.pk, t.idOf(x)) == H.Get(t.pk, b)
      && H.Get(t4.pk, t.idOf(y)) == H.Get(t.pk, a)
      && |t4.records| == |t.records| && t4.freeList == t.freeList
  {
    TwoDeletes(t, a, b, t.idOf(x), t.idOf(y));
    var t2 := DeleteById(DeleteById(t, a).0, b).0;
    var t3 := InsertInternal(t2, x);
    InsertPops(t2, x);
    InsertPops(t3, y);
    PopTwice(t2.freeList);
  }

  /** Deleting two live ids pushes their slots in order and unmaps both ids. */
  lemma TwoDeletes<T>(t: Table<T>, a: int, b: int, u: int, v: int)
    requires Valid(t) && ContainsId(t, a) && ContainsId(t, b) && a != b
    requires !ContainsId(t, u) && !ContainsId(t, v)
    ensures var t1 := DeleteById(t, a).0;
      Valid(t1) &&
      var t2 := DeleteById(t1, b).0;
      && Valid(t2)
      && t2.freeList == t.freeList + [H.Get(t.pk, a).value, H.Get(t.pk, b).value]
      && |t2.records| == |t.records| && t2.idOf == t.idOf
      && !ContainsId(t2, u) && !ContainsId(t2, v)
  {
    var t1 := DeleteById(t, a).0;
    DeletePushes(t, a);
    DeletePushes(t1, b);
    SnocTwice(t.freeList, H.Get(t.pk, a).value, H.Get(t.pk, b).value);
    assert u != a && u != b && v != a && v != b;
  }

  lemma SnocTwice<X>(s: seq<X>, p: X, q: X)
    ensures s + [p] + [q] == s + [p, q]
  {
  }

  /** One delete of a live id, seen from the free list and the PK index. */
  lemma DeletePushes<T>(t: Table<T>, id: int)
    requires Valid(t) && ContainsId(t, id)
    ensures var t' := DeleteById(t, id).0;
      && Valid(t') && t'.idOf == t.idOf && |t'.records| == |t.records|
      && t'.freeList == t.freeList + [H.Get(t.pk, id).value]
      && !ContainsId(t', id)
      && (forall x :: x != id ==> H.Get(t'.pk, x) == H.Get(t.pk, x))
  {
    DeleteSpec(t, id);
  }

  lemma PopTwice<X>(s: seq<X>)
    requires |s| >= 2
    ensures var p := s[..|s| - 1];
      p[..|p| - 1] == s[..|s| - 2] && p[|p| - 1] == s[|s| - 2]
  {
  }

  /** One insert of a new id while a slot is free, seen from the free list
      and the PK index. */
  lemma InsertPops<T>(t: Table<T>, row: T)
    requires Valid(t) && |t.freeList| > 0 && !ContainsId(t, t.idOf(row))
    ensures var t' := InsertInternal(t, row);
      && Valid(t') && t'.idOf == t.idOf && |t'.records| == |t.records|
      && t'.freeList == t.freeList[..|t.freeList| - 1]
      && H.Get(t'.pk, t.idOf(row)) == Some(t.freeList[|t.freeList| - 1])
      && (forall x :: x != t.idOf(row) ==> H.Get(t'.pk, x) == H.Get(t.pk, x))
  {
    InsertSpec(t, row);
  }

  /** `UpdateById` succeeds exactly for a live id and a new row with the same
      id; it then replaces that slot's row and nothing else. */
  lemma UpdateSpec<T>(t: Table<T>, id: int, newRow: T)
    requires Valid(t)
    ensures var (t', ok) := UpdateById(t, id, newRow);
      && Valid(t')
      && (ok <==> ContainsId(t, id) && t.idOf(newRow) == id)
      && (!ok ==> t' == t)
      && (ok ==> t' == t.(records := t.records[H.Get(t.pk, id).value := newRow]))
  {
    var (t', ok) := UpdateById(t, id, newRow);
    if ok {
      var slot := H.Get(t.pk, id).value;
      forall x | H.Get(t'.pk, x).Some?
        ensures var s := H.Get(t'.pk, x).value;
          s < |t'.alive| && t'.alive[s] && t'.idOf(t'.records[s]) == x
      {
        assert H.Get(t.pk, x).Some?;
      }
      forall s | 0 <= s < |t'.alive| && t'.alive[s]
        ensures H.Get(t'.pk, t'.idOf(t'.records[s])) == Some(s)
      {
        assert H.Get(t.pk, t.idOf(t.records[s])) == Some(s);
      }
    }
  }

  // ---------------------------------------------------------------------
  // Enumeration

  /** In a valid table there are exactly `GetRowCount` alive slots, and they
      are the slots `IsAliveSlot` accepts, ascending. */
  lemma AliveSlotsCount<T>(t: Table<T>)
    requires Valid(t)
    ensures |AliveSlots(t.alive)| == GetRowCount(t)
    ensures StrictlyAscending(AliveSlots(t.alive))
    ensures forall s :: s in AliveSlots(t.alive) <==> IsAliveSlot(t, s)
  {
    AliveSlotsSpec(t.alive);
  }

  /** The primary-key index finds the row of every alive slot by its id. */
  lemma RowByIdOfSlot<T>(t: Table<T>, s: Slot)
    requires Valid(t) && IsAliveSlot(t, s)
    ensures ContainsId(t, t.idOf(t.records[s])) && RowById(t, t.idOf(t.records[s])) == t.records[s]
  {
  }

  /** Deleting never brings a row to life: every live row afterwards was live
      before. */
  lemma DeleteKeepsRows<T>(t: Table<T>, id: int)
    requires Valid(t)
    ensures forall i :: 0 <= i < |AliveRows(DeleteById(t, id).0)| ==>
              AliveRows(DeleteById(t, id).0)[i] in AliveRows(t)
  {
    var t' := DeleteById(t, id).0;
    DeleteSpec(t, id);
    AliveSlotsSpec(t.alive);
    AliveSlotsSpec(t'.alive);
    forall i | 0 <= i < |AliveRows(t')| ensures AliveRows(t')[i] in AliveRows(t) {
      var s := AliveSlots(t'.alive)[i];
      assert s in AliveSlots(t'.alive);
      assert s in AliveSlots(t.alive);
      var j :| 0 <= j < |AliveSlots(t.alive)| && AliveSlots(t.alive)[j] == s;
      assert AliveRows(t)[j] == t.records[s];
    }
  }
}
