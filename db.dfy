/**
 * The two browser-database tables the program's services read and write
 * (src/services/db.js), each as an in-memory sequence of records kept in
 * primary-key order, with the auto-increment key counter beside it.
 * Timestamps (`Date.now()`) are parameters.
 */
module Db {
  import opened Wrappers

  // ---- textures: ++id, name, category, filename, dataUrl, createdAt ----

  /** What the texture manager stores for one image. */
  datatype Texture = Texture(name: string, category: string, filename: string, dataUrl: string)

  /** A stored texture: `{ ...texture, createdAt }` under its generated key. */
  datatype TextureRecord = TextureRecord(id: int, texture: Texture, createdAt: int)

  /**
   * `a` comes no later than `b` in `orderBy('createdAt').reverse()`: newer first, and
   * among equal stamps the higher key first (an index orders equal keys by primary key,
   * and `reverse` reverses both).
   */
  predicate NoOlder(a: TextureRecord, b: TextureRecord) {
    a.createdAt > b.createdAt || (a.createdAt == b.createdAt && a.id >= b.id)
  }

  predicate NewestFirstOrder(s: seq<TextureRecord>) {
    forall i, j :: 0 <= i < j < |s| ==> NoOlder(s[i], s[j])
  }

  /** Places `x` into a list already in newest-first order, before the first record it is no older than. */
  function Insert(x: TextureRecord, s: seq<TextureRecord>): (r: seq<TextureRecord>)
    ensures multiset(r) == multiset(s) + multiset{x}
    decreases |s|
  {
    if s == [] then [x]
    else if NoOlder(x, s[0]) then [x] + s
    else
      assert s == [s[0]] + s[1..];
      [s[0]] + Insert(x, s[1..])
  }

  /** A list headed by `a` is in order when its tail is and `a` is no older than any of it. */
  lemma ConsOrdered(a: TextureRecord, t: seq<TextureRecord>)
    requires NewestFirstOrder(t)
    requires forall j :: 0 <= j < |t| ==> NoOlder(a, t[j])
    ensures NewestFirstOrder([a] + t)
  {
    var r := [a] + t;
    forall i, j | 0 <= i < j < |r| ensures NoOlder(r[i], r[j]) {
      assert r[j] == t[j - 1];
      if i > 0 {
        assert r[i] == t[i - 1];
      }
    }
  }

  /** Inserting keeps a newest-first list in order. */
  lemma {:induction false} InsertKeepsOrder(x: TextureRecord, s: seq<TextureRecord>)
    requires NewestFirstOrder(s)
    ensures NewestFirstOrder(Insert(x, s))
    decreases |s|
  {
    if s == [] {
    } else if NoOlder(x, s[0]) {
      forall j | 0 <= j < |s| ensures NoOlder(x, s[j]) {
        if j > 0 {
          assert NoOlder(s[0], s[j]);
        }
      }
      ConsOrdered(x, s);
    } else {
      var tail := s[1..];
      InsertKeepsOrder(x, tail);
      var t := Insert(x, tail);
      forall j | 0 <= j < |t| ensures NoOlder(s[0], t[j]) {
        assert t[j] in multiset(t);
        if t[j] != x {
          assert t[j] in multiset(tail);
          var k :| 0 <= k < |tail| && tail[k] == t[j];
          assert s[k + 1] == t[j];
        }
      }
      ConsOrdered(s[0], t);
    }
  }

  /** The order `getAll` returns the textures in. */
  function NewestFirst(rows: seq<TextureRecord>): (r: seq<TextureRecord>)
    ensures multiset(r) == multiset(rows)
    ensures NewestFirstOrder(r)
    decreases |rows|
  {
    if rows == [] then []
    else
      assert rows == [rows[0]] + rows[1..];
      InsertKeepsOrder(rows[0], NewestFirst(rows[1..]));
      Insert(rows[0], NewestFirst(rows[1..]))
  }

  /** Keys strictly increase along the table, and all lie below the counter. */
  predicate TextureKeysOrdered(rows: seq<TextureRecord>, nextId: int) {
    && (forall i, j :: 0 <= i < j < |rows| ==> rows[i].id < rows[j].id)
    && (forall i :: 0 <= i < |rows| ==> rows[i].id < nextId)
  }

  class TextureTable {
    var rows: seq<TextureRecord>
    var nextId: int

    ghost predicate Valid()
      reads this
    {
      TextureKeysOrdered(rows, nextId)
    }

    constructor ()
      ensures Valid() && rows == [] && nextId == 1
    {
      rows := [];
      nextId := 1;
    }

    /** `add(texture)`: stores the texture stamped `now` under the next key and returns the key. */
    method Add(t: Texture, now: int) returns (id: int)
      requires Valid()
      modifies this
      ensures Valid()
      ensures id == old(nextId) && nextId == old(nextId) + 1
      ensures rows == old(rows) + [TextureRecord(id, t, now)]
    {
      id := nextId;
      rows := rows + [TextureRecord(id, t, now)];
      nextId := nextId + 1;
    }

    /** `getAll()`: every stored texture, newest first. */
    method GetAll() returns (r: seq<TextureRecord>)
      ensures multiset(r) == multiset(rows)
      ensures NewestFirstOrder(r)
    {
      r := NewestFirst(rows);
    }
  }

  // ---- vendorSpecs: ++id, key, value, updatedAt ----

  datatype SpecRecord = SpecRecord(id: int, key: string, value: string, updatedAt: int)

  /** The vendor-spec table's records and its key counter, as one value. */
  datatype SpecTable = SpecTable(rows: seq<SpecRecord>, nextId: int)

  /** `getAll`'s `forEach`: each record in turn overwrites its key, so the last one wins. */
  function SpecMap(rows: seq<SpecRecord>): map<string, string>
    decreases |rows|
  {
    if rows == [] then map[]
    else SpecMap(rows[..|rows| - 1])[rows[|rows| - 1].key := rows[|rows| - 1].value]
  }

  /**
   * A key is in the map exactly when some record has it, and it maps to the value of
   * the last record with that key.
   */
  lemma {:induction false} SpecMapLastWins(rows: seq<SpecRecord>, k: string)
    ensures k in SpecMap(rows) <==> exists i :: 0 <= i < |rows| && rows[i].key == k
    ensures forall i :: 0 <= i < |rows| && rows[i].key == k && (forall j :: i < j < |rows| ==> rows[j].key != k) ==>
      k in SpecMap(rows) && SpecMap(rows)[k] == rows[i].value
    decreases |rows|
  {
    if rows != [] {
      var n := |rows|;
      var front := rows[..n - 1];
      SpecMapLastWins(front, k);
      assert forall i :: 0 <= i < n - 1 ==> front[i] == rows[i];
      if rows[n - 1].key != k && exists i :: 0 <= i < n && rows[i].key == k {
        var i :| 0 <= i < n && rows[i].key == k;
        assert front[i].key == k;
      }
    }
  }

  /** `where('key').equals(key).first()`: the first record with the key, if any. */
  function FirstWithKey(rows: seq<SpecRecord>, key: string): (r: Option<nat>)
    ensures r.Some? ==> r.value < |rows| && rows[r.value].key == key && forall j :: 0 <= j < r.value ==> rows[j].key != key
    ensures r.None? ==> forall j :: 0 <= j < |rows| ==> rows[j].key != key
    decreases |rows|
  {
    if rows == [] then None
    else if rows[0].key == key then Some(0)
    else match FirstWithKey(rows[1..], key)
      case Some(i) => Some(i + 1)
      case None => None
  }

  /** `set(key, value)`: updates the first record with the key in place, or adds a record. */
  function Upsert(t: SpecTable, key: string, value: string, now: int): SpecTable
  {
    match FirstWithKey(t.rows, key)
    case Some(i) => SpecTable(t.rows[i := t.rows[i].(value := value, updatedAt := now)], t.nextId)
    case None => SpecTable(t.rows + [SpecRecord(t.nextId, key, value, now)], t.nextId + 1)
  }

  /** No two records share a key. */
  predicate UniqueKeys(rows: seq<SpecRecord>) {
    forall i, j :: 0 <= i < j < |rows| ==> rows[i].key != rows[j].key
  }

  /**
   * An existing key keeps the record count and updates that record's value only; a new
   * key adds exactly one record, under the next key, at the end.
   */
  lemma UpsertShape(t: SpecTable, key: string, value: string, now: int)
    ensures (exists i :: 0 <= i < |t.rows| && t.rows[i].key == key) ==>
      var u := Upsert(t, key, value, now);
      && |u.rows| == |t.rows| && u.nextId == t.nextId
      && exists i :: 0 <= i < |t.rows| && t.rows[i].key == key
           && u.rows[i] == t.rows[i].(value := value, updatedAt := now)
           && forall j :: 0 <= j < |t.rows| && j != i ==> u.rows[j] == t.rows[j]
    ensures (forall i :: 0 <= i < |t.rows| ==> t.rows[i].key != key) ==>
      Upsert(t, key, value, now) == SpecTable(t.rows + [SpecRecord(t.nextId, key, value, now)], t.nextId + 1)
  {
    var f := FirstWithKey(t.rows, key);
    if f.Some? {
      var u := Upsert(t, key, value, now);
      assert u.rows[f.value] == t.rows[f.value].(value := value, updatedAt := now);
    }
  }

  /** Overwriting one record of a table with unique keys overwrites that key in the map. */
  lemma {:induction false} SpecMapOverwrite(rows: seq<SpecRecord>, i: nat, r: SpecRecord)
    requires i < |rows| && UniqueKeys(rows) && r.key == rows[i].key
    ensures SpecMap(rows[i := r]) == SpecMap(rows)[r.key := r.value]
    decreases |rows|
  {
    var n := |rows|;
    var rows' := rows[i := r];
    assert rows'[..n - 1] == if i < n - 1 then rows[..n - 1][i := r] else rows[..n - 1];
    if i < n - 1 {
      SpecMapOverwrite(rows[..n - 1], i, r);
      assert rows[n - 1].key != r.key;
    }
  }

  /**
   * On a table without duplicate keys, after `set(k, v)` the map read back has `k`
   * bound to `v` and every other key as before, and the keys stay unique.
   */
  lemma UpsertThenGet(t: SpecTable, key: string, value: string, now: int)
    requires UniqueKeys(t.rows)
    ensures SpecMap(Upsert(t, key, value, now).rows) == SpecMap(t.rows)[key := value]
    ensures UniqueKeys(Upsert(t, key, value, now).rows)
  {
    match FirstWithKey(t.rows, key)
    case Some(i) =>
      SpecMapOverwrite(t.rows, i, t.rows[i].(value := value, updatedAt := now));
    case None =>
      var rows' := t.rows + [SpecRecord(t.nextId, key, value, now)];
      assert rows'[..|rows'| - 1] == t.rows;
  }

  /**
   * Why uniqueness matters: with two records for one key, `set` updates the first one
   * while the map read back takes the last, so the new value is not seen.
   */
  lemma DuplicateKeyHidesSet()
    ensures var t := SpecTable([SpecRecord(1, "k", "a", 0), SpecRecord(2, "k", "b", 0)], 3);
      SpecMap(Upsert(t, "k", "c", 1).rows)["k"] == "b"
  {
    var t := SpecTable([SpecRecord(1, "k", "a", 0), SpecRecord(2, "k", "b", 0)], 3);
    var rows' := Upsert(t, "k", "c", 1).rows;
    assert rows' == [SpecRecord(1, "k", "c", 1), SpecRecord(2, "k", "b", 0)];
    assert rows'[..1] == [SpecRecord(1, "k", "c", 1)];
  }

  /**
   * `setAll(specs)` as a sequential fold of `set` over `Object.entries(specs)`; each `set`
   * reads the clock itself, so entry `i` is stamped `stamps[i]`.
   */
  function SetAllTable(t: SpecTable, entries: seq<(string, string)>, stamps: seq<int>): SpecTable
    requires |stamps| == |entries|
    decreases |entries|
  {
    if entries == [] then t
    else SetAllTable(Upsert(t, entries[0].0, entries[0].1, stamps[0]), entries[1..], stamps[1..])
  }

  /** The entries as a map, a later entry overriding an earlier one. */
  function EntriesMap(entries: seq<(string, string)>): map<string, string>
    decreases |entries|
  {
    if entries == [] then map[] else map[entries[0].0 := entries[0].1] + EntriesMap(entries[1..])
  }

  /** Binding `k` first and merging `rest` afterwards is merging `{k: v, ...rest}`. */
  lemma MergeAfterUpdate(m: map<string, string>, k: string, v: string, rest: map<string, string>)
    ensures m[k := v] + rest == m + (map[k := v] + rest)
  {
  }

  /**
   * After `setAll(m)` on a table without duplicate keys, the map read back is the old one
   * with every key of `m` bound to its value in `m`; the keys stay unique.
   */
  lemma {:induction false} SetAllThenGet(t: SpecTable, entries: seq<(string, string)>, stamps: seq<int>)
    requires UniqueKeys(t.rows) && |stamps| == |entries|
    ensures SpecMap(SetAllTable(t, entries, stamps).rows) == SpecMap(t.rows) + EntriesMap(entries)
    ensures UniqueKeys(SetAllTable(t, entries, stamps).rows)
    decreases |entries|
  {
    if entries != [] {
      var (k, v) := entries[0];
      var t' := Upsert(t, k, v, stamps[0]);
      UpsertThenGet(t, k, v, stamps[0]);
      SetAllThenGet(t', entries[1..], stamps[1..]);
      MergeAfterUpdate(SpecMap(t.rows), k, v, EntriesMap(entries[1..]));
    }
  }

  /** The keys of the entries are pairwise different, as those of a JavaScript object are. */
  predicate DistinctKeys(entries: seq<(string, string)>) {
    forall i, j :: 0 <= i < j < |entries| ==> entries[i].0 != entries[j].0
  }

  /** With distinct keys every entry is found in the map, and nothing else is. */
  lemma {:induction false} EntriesMapSpec(entries: seq<(string, string)>)
    requires DistinctKeys(entries)
    ensures forall i :: 0 <= i < |entries| ==> entries[i].0 in EntriesMap(entries) && EntriesMap(entries)[entries[i].0] == entries[i].1
    ensures forall k :: k in EntriesMap(entries) ==> exists i :: 0 <= i < |entries| && entries[i].0 == k
    decreases |entries|
  {
    if entries != [] {
      EntriesMapSpec(entries[1..]);
      forall k | k in EntriesMap(entries) ensures exists i :: 0 <= i < |entries| && entries[i].0 == k {
        if k != entries[0].0 {
          var i :| 0 <= i < |entries[1..]| && entries[1..][i].0 == k;
          assert entries[i + 1].0 == k;
        }
      }
      forall i | 0 <= i < |entries| ensures entries[i].0 in EntriesMap(entries) && EntriesMap(entries)[entries[i].0] == entries[i].1 {
        if i > 0 {
          assert entries[i] == entries[1..][i - 1];
        }
      }
    }
  }

  /** With distinct keys, two orders of the same entries give the same map. */
  lemma EntriesMapOrderIrrelevant(e1: seq<(string, string)>, e2: seq<(string, string)>)
    requires DistinctKeys(e1) && DistinctKeys(e2)
    requires multiset(e1) == multiset(e2)
    ensures EntriesMap(e1) == EntriesMap(e2)
  {
    EntriesMapSpec(e1);
    EntriesMapSpec(e2);
    forall k | k in EntriesMap(e1) ensures k in EntriesMap(e2) && EntriesMap(e1)[k] == EntriesMap(e2)[k] {
      var i :| 0 <= i < |e1| && e1[i].0 == k;
      assert e1[i] in multiset(e2);
      var j :| 0 <= j < |e2| && e2[j] == e1[i];
    }
    forall k | k in EntriesMap(e2) ensures k in EntriesMap(e1) {
      var j :| 0 <= j < |e2| && e2[j].0 == k;
      assert e2[j] in multiset(e1);
      var i :| 0 <= i < |e1| && e1[i] == e2[j];
    }
  }

  /**
   * With distinct keys, the order of `Object.entries` and the stamps do not change the map
   * `getAll` reads back after `setAll` on a table without duplicate keys. (The ids of newly
   * added records do follow the entry order.)
   */
  lemma SetAllOrderIrrelevant(t: SpecTable, e1: seq<(string, string)>, s1: seq<int>, e2: seq<(string, string)>, s2: seq<int>)
    requires UniqueKeys(t.rows) && |s1| == |e1| && |s2| == |e2|
    requires DistinctKeys(e1) && DistinctKeys(e2)
    requires multiset(e1) == multiset(e2)
    ensures SpecMap(SetAllTable(t, e1, s1).rows) == SpecMap(SetAllTable(t, e2, s2).rows)
  {
    SetAllThenGet(t, e1, s1);
    SetAllThenGet(t, e2, s2);
    EntriesMapOrderIrrelevant(e1, e2);
  }

  /** Keys strictly increase along the table, and all lie below the counter. */
  predicate SpecKeysOrdered(rows: seq<SpecRecord>, nextId: int) {
    && (forall i, j :: 0 <= i < j < |rows| ==> rows[i].id < rows[j].id)
    && (forall i :: 0 <= i < |rows| ==> rows[i].id < nextId)
  }

  /** `set` keeps the primary keys in order below the counter. */
  lemma UpsertKeepsKeysOrdered(t: SpecTable, key: string, value: string, now: int)
    requires SpecKeysOrdered(t.rows, t.nextId)
    ensures var u := Upsert(t, key, value, now); SpecKeysOrdered(u.rows, u.nextId)
  {
    var u := Upsert(t, key, value, now);
    match FirstWithKey(t.rows, key)
    case Some(i) =>
      assert forall j :: 0 <= j < |u.rows| ==> u.rows[j].id == t.rows[j].id;
    case None =>
      assert forall j :: 0 <= j < |t.rows| ==> u.rows[j] == t.rows[j];
  }

  class VendorSpecTable {
    var rows: seq<SpecRecord>
    var nextId: int

    /** Primary keys in order below the counter; the sequential `set` never duplicates a key. */
    ghost predicate Valid()
      reads this
    {
      SpecKeysOrdered(rows, nextId) && UniqueKeys(rows)
    }

    constructor ()
      ensures Valid() && rows == [] && nextId == 1
    {
      rows := [];
      nextId := 1;
    }

    /** `getAll()`: the records folded into a map; the last record with a key wins. */
    method GetAll() returns (m: map<string, string>)
      ensures m == SpecMap(rows)
      ensures forall k :: k in m <==> exists i :: 0 <= i < |rows| && rows[i].key == k
      ensures forall i :: 0 <= i < |rows| && (forall j :: i < j < |rows| ==> rows[j].key != rows[i].key) ==>
        rows[i].key in m && m[rows[i].key] == rows[i].value
    {
      m := map[];
      var i := 0;
      while i < |rows|
        invariant 0 <= i <= |rows|
        invariant m == SpecMap(rows[..i])
      {
        assert rows[..i + 1][..i] == rows[..i];
        m := m[rows[i].key := rows[i].value];
        i := i + 1;
      }
      assert rows[..i] == rows;
      forall k ensures k in m <==> exists i :: 0 <= i < |rows| && rows[i].key == k {
        SpecMapLastWins(rows, k);
      }
      forall i | 0 <= i < |rows| && (forall j :: i < j < |rows| ==> rows[j].key != rows[i].key)
        ensures rows[i].key in m && m[rows[i].key] == rows[i].value
      {
        SpecMapLastWins(rows, rows[i].key);
      }
    }

    /** `set(key, value)` stamped `now`. */
    method Set(key: string, value: string, now: int)
      requires Valid()
      modifies this
      ensures Valid()
      ensures SpecTable(rows, nextId) == Upsert(SpecTable(old(rows), old(nextId)), key, value, now)
      ensures SpecMap(rows) == SpecMap(old(rows))[key := value]
    {
      ghost var u := Upsert(SpecTable(rows, nextId), key, value, now);
      UpsertThenGet(SpecTable(rows, nextId), key, value, now);
      UpsertKeepsKeysOrdered(SpecTable(rows, nextId), key, value, now);
      var existing := FirstWithKey(rows, key);
      if existing.Some? {
        var i := existing.value;
        rows := rows[i := rows[i].(value := value, updatedAt := now)];
      } else {
        rows := rows + [SpecRecord(nextId, key, value, now)];
        nextId := nextId + 1;
      }
      assert SpecTable(rows, nextId) == u;
    }

    /** `setAll(specs)`: `set` for each entry in turn, the `i`-th stamped `stamps[i]`. */
    method SetAll(entries: seq<(string, string)>, stamps: seq<int>)
      requires Valid() && |stamps| == |entries|
      modifies this
      ensures Valid()
      ensures SpecTable(rows, nextId) == SetAllTable(SpecTable(old(rows), old(nextId)), entries, stamps)
      ensures SpecMap(rows) == SpecMap(old(rows)) + EntriesMap(entries)
    {
      SetAllThenGet(SpecTable(rows, nextId), entries, stamps);
      var i := 0;
      while i < |entries|
        invariant 0 <= i <= |entries|
        invariant Valid()
        invariant SetAllTable(SpecTable(rows, nextId), entries[i..], stamps[i..]) == SetAllTable(SpecTable(old(rows), old(nextId)), entries, stamps)
      {
        assert entries[i..][1..] == entries[i + 1..];
        assert stamps[i..][1..] == stamps[i + 1..];
        Set(entries[i].0, entries[i].1, stamps[i]);
        i := i + 1;
      }
    }
  }
}
