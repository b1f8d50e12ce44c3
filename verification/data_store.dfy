/** The employee record store: an ordered in-memory list of records mirrored
    under one key of a key-value storage. The module-level list is threaded
    explicitly as a `Store` value; the storage, the JSON codec, the fresh-id
    source and the seed dataset are parameters. */
module DataStore {
  import opened Common

  /** A record: field name to field value. Object spread is the
      right-biased map union `+`. */
  type Record = map<string, string>

  const StorageKey: string := "employee_management_data"
  const IdField: string := "id"

  /** One call made on the key-value storage. */
  datatype StorageOp = SetItem(key: string, value: string) | RemoveItem(key: string) | ClearAll

  /** The key-value storage: its slots and every call made on it so far. */
  datatype Backing = Backing(slots: map<string, string>, log: seq<StorageOp>)

  function Set(b: Backing, key: string, value: string): Backing {
    Backing(b.slots[key := value], b.log + [SetItem(key, value)])
  }

  function Remove(b: Backing, key: string): Backing {
    Backing(b.slots - {key}, b.log + [RemoveItem(key)])
  }

  function Clear(b: Backing): Backing {
    Backing(map[], b.log + [ClearAll])
  }

  /** `getItem(key)`: the slot's value, if any. */
  function Get(b: Backing, key: string): Option<string> {
    if key in b.slots then Some(b.slots[key]) else None
  }

  /** `JSON.stringify` and `JSON.parse` on lists of records; `parse` is
      `None` where the source's `JSON.parse` throws. */
  datatype Codec = Codec(serialize: seq<Record> -> string, parse: string -> Option<seq<Record>>)

  /** What the JSON pair guarantees: a serialised list parses back to itself,
      and the serialisation of a list is never the empty string. */
  ghost predicate ValidCodec(c: Codec) {
    forall es: seq<Record> {:trigger c.serialize(es)} ::
      c.parse(c.serialize(es)) == Some(es) && c.serialize(es) != ""
  }

  /** The in-memory list and the storage it is mirrored to. */
  datatype Store = Store(employees: seq<Record>, backing: Backing)

  /** The storage holds text that parses to exactly the in-memory list. */
  ghost predicate Mirrors(s: Store, c: Codec) {
    StorageKey in s.backing.slots && c.parse(s.backing.slots[StorageKey]) == Some(s.employees)
  }

  /** The storage holds the serialisation of exactly the in-memory list. */
  predicate Persisted(s: Store, c: Codec) {
    StorageKey in s.backing.slots && s.backing.slots[StorageKey] == c.serialize(s.employees)
  }

  lemma PersistedMirrors(s: Store, c: Codec)
    requires ValidCodec(c) && Persisted(s, c)
    ensures Mirrors(s, c)
  {
    assert c.parse(c.serialize(s.employees)) == Some(s.employees);
  }

  /** `r.id === id`: a record without an `id` never matches a string. */
  predicate HasId(r: Record, id: string) {
    IdField in r && r[IdField] == id
  }

  /** No two records carry the same `id`. */
  predicate UniqueIds(es: seq<Record>) {
    forall i, j | 0 <= i < j < |es| && IdField in es[i] && IdField in es[j] ::
      es[i][IdField] != es[j][IdField]
  }

  /** `id` is carried by no record. */
  predicate FreshId(es: seq<Record>, id: string) {
    forall i | 0 <= i < |es| :: !HasId(es[i], id)
  }

  // ---------------------------------------------------------------------
  // Loading

  /** `loadEmployees()` and the module's initial list: the stored list when
      the slot holds non-empty text that parses (no write); the seed after
      removing the slot when the text does not parse; the seed when the slot
      is missing or empty; the seed is written back in both of the latter. */
  function Load(b: Backing, seed: seq<Record>, c: Codec): (s: Store)
    ensures Get(b, StorageKey).Some? && Get(b, StorageKey).value != ""
            && c.parse(Get(b, StorageKey).value).Some? ==>
      s.employees == c.parse(Get(b, StorageKey).value).value && s.backing == b
    ensures Get(b, StorageKey).Some? && Get(b, StorageKey).value != ""
            && c.parse(Get(b, StorageKey).value).None? ==>
      s.employees == seed
      && s.backing.log == b.log + [RemoveItem(StorageKey), SetItem(StorageKey, c.serialize(seed))]
      && StorageKey in s.backing.slots && s.backing.slots[StorageKey] == c.serialize(seed)
    ensures (Get(b, StorageKey).None? || Get(b, StorageKey).value == "") ==>
      s.employees == seed && s.backing.log == b.log + [SetItem(StorageKey, c.serialize(seed))]
      && StorageKey in s.backing.slots && s.backing.slots[StorageKey] == c.serialize(seed)
    ensures s.backing.slots.Keys == b.slots.Keys + {StorageKey}
    ensures forall k | k in b.slots && k != StorageKey :: s.backing.slots[k] == b.slots[k]
  {
    var stored := Get(b, StorageKey);
    if stored.Some? && stored.value != "" && c.parse(stored.value).Some? then
      Store(c.parse(stored.value).value, b)
    else
      var cleaned := if stored.Some? && stored.value != "" then Remove(b, StorageKey) else b;
      Store(seed, Set(cleaned, StorageKey, c.serialize(seed)))
  }

  /** Whatever the storage held, the loaded list is mirrored to it. */
  lemma LoadMirrors(b: Backing, seed: seq<Record>, c: Codec)
    requires ValidCodec(c)
    ensures Mirrors(Load(b, seed, c), c)
  {
    var s := Load(b, seed, c);
    if s.backing != b {
      assert s.backing.slots[StorageKey] == c.serialize(seed);
      assert c.parse(c.serialize(seed)) == Some(seed);
    }
  }

  /** Loading again from the storage a load left behind yields the same list
      and makes no further call on the storage. */
  lemma ReloadIsStable(b: Backing, seed: seq<Record>, c: Codec)
    requires ValidCodec(c)
    ensures Load(Load(b, seed, c).backing, seed, c) == Load(b, seed, c)
  {
    var s := Load(b, seed, c);
    LoadMirrors(b, seed, c);
    assert s.backing.slots[StorageKey] != "" by {
      if s.backing != b {
        assert s.backing.slots[StorageKey] == c.serialize(seed);
      }
    }
  }

  /** Reloading a store whose list is mirrored gives back that list, with no
      call on the storage: what a mutation persisted survives a reload. */
  lemma ReloadRestores(s: Store, seed: seq<Record>, c: Codec)
    requires ValidCodec(c) && Persisted(s, c)
    ensures Load(s.backing, seed, c) == s
  {
    assert c.parse(c.serialize(s.employees)) == Some(s.employees);
  }

  /** `__TEST_ONLY__resetStore()`: the storage is cleared, then the list is
      loaded, which writes and yields the seed. */
  function ResetStore(s: Store, seed: seq<Record>, c: Codec): (r: Store)
    ensures r.employees == seed
    ensures r.backing.slots == map[StorageKey := c.serialize(seed)]
    ensures r.backing.log == s.backing.log + [ClearAll, SetItem(StorageKey, c.serialize(seed))]
    ensures Persisted(r, c)
  {
    Load(Clear(s.backing), seed, c)
  }

  /** `getEmployees()`: a copy of the list. */
  function GetEmployees(s: Store): seq<Record> {
    s.employees
  }

  // ---------------------------------------------------------------------
  // Lookup

  /** The position of the first record carrying `id`. */
  function FindIndex(es: seq<Record>, id: string): (r: Option<nat>)
    ensures r.Some? ==> r.value < |es| && HasId(es[r.value], id)
    ensures r.Some? ==> forall j | 0 <= j < r.value :: !HasId(es[j], id)
    ensures r.None? <==> FreshId(es, id)
    decreases |es|
  {
    if es == [] then None
    else if HasId(es[0], id) then Some(0)
    else match FindIndex(es[1..], id)
      case None => None
      case Some(i) => Some(i + 1)
  }

  /** `getEmployeeById(id)`: the first record carrying `id`, or nothing. */
  function GetEmployeeById(s: Store, id: string): (r: Option<Record>)
    ensures r.None? <==> FreshId(s.employees, id)
    ensures r.Some? ==> exists i | 0 <= i < |s.employees| ::
      s.employees[i] == r.value && HasId(r.value, id)
      && forall j | 0 <= j < i :: !HasId(s.employees[j], id)
  {
    match FindIndex(s.employees, id)
    case None => None
    case Some(i) => Some(s.employees[i])
  }

  /** With unique ids, the record carrying `id` at any position is the one
      found. */
  lemma GetEmployeeByIdUnique(s: Store, i: nat, id: string)
    requires UniqueIds(s.employees)
    requires i < |s.employees| && HasId(s.employees[i], id)
    ensures GetEmployeeById(s, id) == Some(s.employees[i])
  {
    var k := FindIndex(s.employees, id).value;
    assert k <= i;
    assert s.employees[k][IdField] == s.employees[i][IdField];
  }

  // ---------------------------------------------------------------------
  // Adding

  /** The list after `addEmployee` and the record it returns. */
  datatype Added = Added(store: Store, record: Record)

  /** `addEmployee(data)` with `freshId` as the generated id: the caller's
      fields are spread after the id, the record is appended, and the whole
      list is written. */
  function AddEmployee(s: Store, data: Record, freshId: string, c: Codec): (r: Added)
    ensures r.store.employees == s.employees + [r.record]
    ensures forall k | k in data :: k in r.record && r.record[k] == data[k]
    ensures r.record.Keys == data.Keys + {IdField}
    ensures IdField !in data ==> r.record[IdField] == freshId
    ensures r.store.backing.log == s.backing.log + [SetItem(StorageKey, c.serialize(r.store.employees))]
    ensures Persisted(r.store, c)
  {
    var record := map[IdField := freshId] + data;
    var employees := s.employees + [record];
    Added(Store(employees, Set(s.backing, StorageKey, c.serialize(employees))), record)
  }

  /** A fresh generated id and caller data without an `id` keep the ids
      unique, and the new record is what a lookup by its id returns. */
  lemma AddKeepsIdsUnique(s: Store, data: Record, freshId: string, c: Codec)
    requires UniqueIds(s.employees) && FreshId(s.employees, freshId) && IdField !in data
    ensures UniqueIds(AddEmployee(s, data, freshId, c).store.employees)
    ensures GetEmployeeById(AddEmployee(s, data, freshId, c).store, freshId)
         == Some(AddEmployee(s, data, freshId, c).record)
  {
    var r := AddEmployee(s, data, freshId, c);
    var es := r.store.employees;
    forall i, j | 0 <= i < j < |es| && IdField in es[i] && IdField in es[j]
      ensures es[i][IdField] != es[j][IdField]
    {
      if j == |es| - 1 {
        assert !HasId(s.employees[i], freshId);
      } else {
        assert es[i] == s.employees[i] && es[j] == s.employees[j];
      }
    }
    GetEmployeeByIdUnique(r.store, |es| - 1, freshId);
  }

  /** An `id` in the caller's data wins over the generated one, so a caller
      can add a second record with an id already in the list. */
  lemma AddWithCallerIdDuplicates(c: Codec)
    ensures var s := Store([map[IdField := "1"]], Backing(map[], []));
      && UniqueIds(s.employees)
      && FreshId(s.employees, "2")
      && !UniqueIds(AddEmployee(s, map[IdField := "1"], "2", c).store.employees)
  {
    var s := Store([map[IdField := "1"]], Backing(map[], []));
    var es := AddEmployee(s, map[IdField := "1"], "2", c).store.employees;
    assert es[0][IdField] == es[1][IdField];
  }

  // ---------------------------------------------------------------------
  // Updating

  /** Every record carrying `id` merged with `upd`; the others as they were. */
  function MergeMatching(es: seq<Record>, id: string, upd: Record): (r: seq<Record>)
    ensures |r| == |es|
    ensures forall i | 0 <= i < |es| && !HasId(es[i], id) :: r[i] == es[i]
    ensures forall i | 0 <= i < |es| && HasId(es[i], id) ::
      r[i].Keys == es[i].Keys + upd.Keys
      && (forall k | k in upd :: r[i][k] == upd[k])
      && (forall k | k in es[i] && k !in upd :: r[i][k] == es[i][k])
  {
    seq(|es|, i requires 0 <= i < |es| => if HasId(es[i], id) then es[i] + upd else es[i])
  }

  /** The position of the last record carrying `id`. */
  function FindLastIndex(es: seq<Record>, id: string): (r: Option<nat>)
    ensures r.Some? ==> r.value < |es| && HasId(es[r.value], id)
    ensures r.Some? ==> forall j | r.value < j < |es| :: !HasId(es[j], id)
    ensures r.None? <==> FreshId(es, id)
    decreases |es|
  {
    if es == [] then None
    else if HasId(es[|es| - 1], id) then Some(|es| - 1)
    else FindLastIndex(es[..|es| - 1], id)
  }

  /** The list after `updateEmployee` and the merged record it returns. */
  datatype Updated = Updated(store: Store, record: Option<Record>)

  /** `updateEmployee(id, upd)`: every record carrying `id` becomes
      `{...record, ...upd}`; the last merged record is returned, and the list
      is written only when some record matched. */
  function UpdateEmployee(s: Store, id: string, upd: Record, c: Codec): (r: Updated)
    ensures r.store.employees == MergeMatching(s.employees, id, upd)
    ensures r.record.None? <==> FreshId(s.employees, id)
    ensures r.record.None? ==> r.store == s
    ensures r.record.Some? ==> exists i | 0 <= i < |s.employees| ::
      HasId(s.employees[i], id) && r.record.value == s.employees[i] + upd
      && r.store.employees[i] == r.record.value
    ensures r.record.Some? ==>
      FindLastIndex(s.employees, id).Some?
      && r.record.value == s.employees[FindLastIndex(s.employees, id).value] + upd
    ensures r.record.Some? ==>
      r.store.backing.log == s.backing.log + [SetItem(StorageKey, c.serialize(r.store.employees))]
      && Persisted(r.store, c)
  {
    var employees := MergeMatching(s.employees, id, upd);
    match FindLastIndex(s.employees, id)
    case None => Updated(s, None)
    case Some(i) =>
      Updated(Store(employees, Set(s.backing, StorageKey, c.serialize(employees))),
              Some(s.employees[i] + upd))
  }

  /** An update without an `id` field leaves every record's id as it was,
      so unique ids stay unique and the updated record is found by its id. */
  lemma UpdateKeepsIds(s: Store, id: string, upd: Record, c: Codec)
    requires IdField !in upd
    ensures var es' := UpdateEmployee(s, id, upd, c).store.employees;
      forall i | 0 <= i < |s.employees| ::
        (IdField in es'[i] <==> IdField in s.employees[i])
        && (IdField in es'[i] ==> es'[i][IdField] == s.employees[i][IdField])
    ensures UniqueIds(s.employees) ==> UniqueIds(UpdateEmployee(s, id, upd, c).store.employees)
    ensures UniqueIds(s.employees) ==>
      GetEmployeeById(UpdateEmployee(s, id, upd, c).store, id) == UpdateEmployee(s, id, upd, c).record
  {
    var r := UpdateEmployee(s, id, upd, c);
    if UniqueIds(s.employees) && r.record.Some? {
      var i :| 0 <= i < |s.employees| && HasId(s.employees[i], id)
        && r.record.value == s.employees[i] + upd && r.store.employees[i] == r.record.value;
      GetEmployeeByIdUnique(r.store, i, id);
    }
  }

  /** An `id` in the update rewrites the record's id: updating record "1"
      with id "2" in a list that already has a "2" duplicates it. */
  lemma UpdateWithIdDuplicates(c: Codec)
    ensures var s := Store([map[IdField := "1"], map[IdField := "2"]], Backing(map[], []));
      && UniqueIds(s.employees)
      && !UniqueIds(UpdateEmployee(s, "1", map[IdField := "2"], c).store.employees)
  {
    var s := Store([map[IdField := "1"], map[IdField := "2"]], Backing(map[], []));
    var es := UpdateEmployee(s, "1", map[IdField := "2"], c).store.employees;
    assert HasId(s.employees[0], "1") && !HasId(s.employees[1], "1");
    assert es[0][IdField] == es[1][IdField];
  }

  // ---------------------------------------------------------------------
  // Deleting

  /** `es.filter(r => r.id !== id)`. */
  function Without(es: seq<Record>, id: string): (r: seq<Record>)
    ensures |r| <= |es|
    ensures FreshId(r, id)
    ensures |r| == |es| <==> FreshId(es, id)
    ensures forall x | x in r :: x in es
    ensures forall i | 0 <= i < |es| && !HasId(es[i], id) :: es[i] in r
    decreases |es|
  {
    if es == [] then []
    else if HasId(es[0], id) then Without(es[1..], id)
    else [es[0]] + Without(es[1..], id)
  }

  /** Filtering distributes over concatenation: the survivors keep their
      relative order. */
  lemma {:induction false} WithoutAppend(a: seq<Record>, b: seq<Record>, id: string)
    ensures Without(a + b, id) == Without(a, id) + Without(b, id)
    decreases |a|
  {
    if a != [] {
      assert (a + b)[0] == a[0];
      assert (a + b)[1..] == a[1..] + b;
      WithoutAppend(a[1..], b, id);
      if !HasId(a[0], id) {
        assert Without(a + b, id) == [a[0]] + (Without(a[1..], id) + Without(b, id));
      }
    } else {
      assert a + b == b;
    }
  }

  /** A list in which no record carries `id` is left as it is. */
  lemma {:induction false} WithoutFresh(es: seq<Record>, id: string)
    requires FreshId(es, id)
    ensures Without(es, id) == es
    decreases |es|
  {
    if es != [] {
      WithoutFresh(es[1..], id);
    }
  }

  /** The list after `deleteEmployee` and whether a record was removed. */
  datatype Deleted = Deleted(store: Store, removed: bool)

  /** `deleteEmployee(id)`: the records carrying `id` are dropped; the list is
      written, and true returned, only when one was. */
  function DeleteEmployee(s: Store, id: string, c: Codec): (r: Deleted)
    ensures r.removed <==> !FreshId(s.employees, id)
    ensures FreshId(r.store.employees, id)
    ensures r.store.employees == Without(s.employees, id)
    ensures !r.removed ==> r.store == s
    ensures r.removed ==>
      r.store.backing.log == s.backing.log + [SetItem(StorageKey, c.serialize(r.store.employees))]
      && Persisted(r.store, c)
  {
    var employees := Without(s.employees, id);
    if |employees| < |s.employees| then
      Deleted(Store(employees, Set(s.backing, StorageKey, c.serialize(employees))), true)
    else
      WithoutFresh(s.employees, id);
      Deleted(s, false)
  }

  /** After a delete the id is not found, and a second delete of the same id
      reports false and changes nothing. */
  lemma DeleteThenGet(s: Store, id: string, c: Codec)
    ensures GetEmployeeById(DeleteEmployee(s, id, c).store, id).None?
    ensures var d := DeleteEmployee(s, id, c).store;
      DeleteEmployee(d, id, c) == Deleted(d, false)
  {
  }

  /** With unique ids, a successful delete removes exactly one record, and
      the records before and after it keep their order. */
  lemma DeleteRemovesOne(s: Store, i: nat, id: string, c: Codec)
    requires UniqueIds(s.employees)
    requires i < |s.employees| && HasId(s.employees[i], id)
    ensures DeleteEmployee(s, id, c).store.employees == s.employees[..i] + s.employees[i + 1..]
  {
    var es := s.employees;
    var pre, post := es[..i], es[i + 1..];
    assert es == pre + ([es[i]] + post);
    forall j | 0 <= j < |pre| ensures !HasId(pre[j], id) {
      assert pre[j] == es[j];
    }
    forall j | 0 <= j < |post| ensures !HasId(post[j], id) {
      assert post[j] == es[i + 1 + j];
    }
    WithoutAppend(pre, [es[i]] + post, id);
    WithoutAppend([es[i]], post, id);
    WithoutFresh(pre, id);
    WithoutFresh(post, id);
  }

  // ---------------------------------------------------------------------
  // The mirror as an invariant

  /** One call on the store. */
  datatype Op =
    | Add(data: Record, freshId: string)
    | Update(id: string, upd: Record)
    | Delete(id: string)
    | Reset

  function Apply(s: Store, op: Op, seed: seq<Record>, c: Codec): Store {
    match op
    case Add(data, freshId) => AddEmployee(s, data, freshId, c).store
    case Update(id, upd) => UpdateEmployee(s, id, upd, c).store
    case Delete(id) => DeleteEmployee(s, id, c).store
    case Reset => ResetStore(s, seed, c)
  }

  function ApplyAll(s: Store, ops: seq<Op>, seed: seq<Record>, c: Codec): Store
    decreases |ops|
  {
    if ops == [] then s else ApplyAll(Apply(s, ops[0], seed, c), ops[1..], seed, c)
  }

  /** From the initial load on, through any sequence of calls, the storage
      holds text that parses to exactly the in-memory list. */
  lemma {:induction false} StoreStaysMirrored(s: Store, ops: seq<Op>, seed: seq<Record>, c: Codec)
    requires ValidCodec(c) && Mirrors(s, c)
    ensures Mirrors(ApplyAll(s, ops, seed, c), c)
    decreases |ops|
  {
    if ops != [] {
      var s' := Apply(s, ops[0], seed, c);
      match ops[0] {
        case Add(data, freshId) => PersistedMirrors(s', c);
        case Update(id, upd) =>
          if UpdateEmployee(s, id, upd, c).record.Some? { PersistedMirrors(s', c); }
        case Delete(id) =>
          if DeleteEmployee(s, id, c).removed { PersistedMirrors(s', c); }
        case Reset => PersistedMirrors(s', c);
      }
      StoreStaysMirrored(s', ops[1..], seed, c);
    }
  }
}
