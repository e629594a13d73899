/**
 * A database table whose rows carry a text key (a week key) and a payload,
 * with the two statements an upsert issues: `UPDATE ... WHERE key = k` and
 * `INSERT`. `ToMap` reads the rows in order into a dictionary, a later row
 * overwriting an earlier one with the same key, exactly as the `for` loops
 * that build `Record<string, ...>` objects from query results do.
 */
module Table {
  import opened Wrappers

  datatype Row<V> = Row(key: string, value: V)

  /** The `unique()` constraint on the key column. */
  predicate UniqueKeys<V>(rows: seq<Row<V>>) {
    forall i, j :: 0 <= i < j < |rows| ==> rows[i].key != rows[j].key
  }

  /** The keys of the first `n` rows. */
  function KeysOfFirst<V>(rows: seq<Row<V>>, n: nat): set<string>
    requires n <= |rows|
  {
    set i | 0 <= i < n :: rows[i].key
  }

  function KeysOf<V>(rows: seq<Row<V>>): set<string> {
    KeysOfFirst(rows, |rows|)
  }

  lemma KeysOfFirstStep<V>(rows: seq<Row<V>>, n: nat)
    requires 0 < n <= |rows|
    ensures KeysOfFirst(rows, n) == KeysOfFirst(rows, n - 1) + {rows[n - 1].key}
  {
  }

  /** The position of the first row at or after `from` whose key is `k`. */
  function FindFrom<V>(rows: seq<Row<V>>, k: string, from: nat): (r: Option<nat>)
    requires from <= |rows|
    ensures r.Some? ==> from <= r.value < |rows| && rows[r.value].key == k
    ensures r.Some? ==> forall j :: from <= j < r.value ==> rows[j].key != k
    ensures r.None? ==> forall j :: from <= j < |rows| ==> rows[j].key != k
    decreases |rows| - from
  {
    if from == |rows| then None
    else if rows[from].key == k then Some(from)
    else FindFrom(rows, k, from + 1)
  }

  /** `SELECT ... WHERE key = k` and take `result[0]`: the payload of the first matching row. */
  function Select<V>(rows: seq<Row<V>>, k: string): (r: Option<V>)
    ensures r.None? <==> k !in KeysOf(rows)
    ensures r.Some? ==> exists i :: 0 <= i < |rows| && rows[i] == Row(k, r.value)
  {
    match FindFrom(rows, k, 0)
    case None => None
    case Some(i) => assert rows[i] == Row(k, rows[i].value); Some(rows[i].value)
  }

  /** `UPDATE ... SET value = v WHERE key = k`: every matching row takes the new payload. */
  function UpdateWhere<V>(rows: seq<Row<V>>, k: string, v: V): (r: seq<Row<V>>)
    ensures |r| == |rows|
    ensures forall i :: 0 <= i < |rows| ==> r[i] == if rows[i].key == k then Row(k, v) else rows[i]
  {
    seq(|rows|, i requires 0 <= i < |rows| => if rows[i].key == k then Row(k, v) else rows[i])
  }

  /** The dictionary built from the first `n` rows, in order. */
  function MapOfFirst<V>(rows: seq<Row<V>>, n: nat): map<string, V>
    requires n <= |rows|
  {
    if n == 0 then map[] else MapOfFirst(rows, n - 1)[rows[n - 1].key := rows[n - 1].value]
  }

  /** The dictionary built from all rows: `for (const r of result) out[r.key] = r.value`. */
  function ToMap<V>(rows: seq<Row<V>>): map<string, V> {
    MapOfFirst(rows, |rows|)
  }

  /** The dictionary has exactly the keys of the rows read. */
  lemma {:induction false} MapOfFirstKeys<V>(rows: seq<Row<V>>, n: nat)
    requires n <= |rows|
    ensures MapOfFirst(rows, n).Keys == KeysOfFirst(rows, n)
  {
    if n > 0 {
      MapOfFirstKeys(rows, n - 1);
      KeysOfFirstStep(rows, n);
    }
  }

  /** With unique keys, each of the first `n` rows is found in the dictionary with its own payload. */
  lemma {:induction false} MapOfFirstAt<V>(rows: seq<Row<V>>, n: nat, i: nat)
    requires UniqueKeys(rows)
    requires i < n <= |rows|
    ensures rows[i].key in MapOfFirst(rows, n)
    ensures MapOfFirst(rows, n)[rows[i].key] == rows[i].value
  {
    if i < n - 1 {
      MapOfFirstAt(rows, n - 1, i);
    }
  }

  /** Dictionary and first-row lookup agree when keys are unique. */
  lemma SelectIsToMap<V>(rows: seq<Row<V>>, k: string)
    requires UniqueKeys(rows)
    ensures k in ToMap(rows) <==> Select(rows, k).Some?
    ensures k in ToMap(rows) ==> Select(rows, k) == Some(ToMap(rows)[k])
  {
    MapOfFirstKeys(rows, |rows|);
    if Select(rows, k).Some? {
      var i :| 0 <= i < |rows| && rows[i] == Row(k, Select(rows, k).value);
      MapOfFirstAt(rows, |rows|, i);
    }
  }

  /** One dictionary entry per row: a table with unique keys and its dictionary have the same size. */
  lemma {:induction false} MapOfFirstSize<V>(rows: seq<Row<V>>, n: nat)
    requires UniqueKeys(rows)
    requires n <= |rows|
    ensures |MapOfFirst(rows, n)| == n
  {
    if n > 0 {
      MapOfFirstSize(rows, n - 1);
      MapOfFirstKeys(rows, n - 1);
      assert rows[n - 1].key !in KeysOfFirst(rows, n - 1);
    }
  }

  /** Appending a row does not change what the earlier rows read into. */
  lemma {:induction false} MapOfFirstAppend<V>(rows: seq<Row<V>>, r: Row<V>, n: nat)
    requires n <= |rows|
    ensures MapOfFirst(rows + [r], n) == MapOfFirst(rows, n)
  {
    if n > 0 {
      MapOfFirstAppend(rows, r, n - 1);
      assert (rows + [r])[n - 1] == rows[n - 1];
    }
  }

  /** The INSERT branch of an upsert: the new row's payload is what the key now reads. */
  lemma InsertSpec<V>(rows: seq<Row<V>>, k: string, v: V)
    ensures ToMap(rows + [Row(k, v)]) == ToMap(rows)[k := v]
    ensures KeysOf(rows + [Row(k, v)]) == KeysOf(rows) + {k}
    ensures k !in KeysOf(rows) && UniqueKeys(rows) ==> UniqueKeys(rows + [Row(k, v)])
  {
    MapOfFirstAppend(rows, Row(k, v), |rows|);
    var r := rows + [Row(k, v)];
    forall x | x in KeysOf(r) ensures x in KeysOf(rows) + {k} {
      var i :| 0 <= i < |r| && r[i].key == x;
      if i < |rows| { assert r[i] == rows[i]; }
    }
    forall x | x in KeysOf(rows) ensures x in KeysOf(r) {
      var i :| 0 <= i < |rows| && rows[i].key == x;
      assert r[i] == rows[i];
    }
    assert r[|rows|].key == k;
    if k !in KeysOf(rows) && UniqueKeys(rows) {
      forall i, j | 0 <= i < j < |r| ensures r[i].key != r[j].key {
        if j == |rows| {
          assert r[i] == rows[i];
          assert rows[i].key in KeysOf(rows);
        } else {
          assert r[i] == rows[i] && r[j] == rows[j];
        }
      }
    }
  }

  /** Reading the first `n` rows after `UPDATE ... WHERE key = k`. */
  lemma {:induction false} MapOfFirstUpdate<V>(rows: seq<Row<V>>, k: string, v: V, n: nat)
    requires n <= |rows|
    ensures MapOfFirst(UpdateWhere(rows, k, v), n)
            == if k in KeysOfFirst(rows, n) then MapOfFirst(rows, n)[k := v] else MapOfFirst(rows, n)
  {
    if n > 0 {
      MapOfFirstUpdate(rows, k, v, n - 1);
      KeysOfFirstStep(rows, n);
    }
  }

  /** The UPDATE branch of an upsert: when a row for `k` exists, the key now reads `v` and nothing else changes. */
  lemma UpdateSpec<V>(rows: seq<Row<V>>, k: string, v: V)
    requires k in KeysOf(rows)
    ensures ToMap(UpdateWhere(rows, k, v)) == ToMap(rows)[k := v]
    ensures KeysOf(UpdateWhere(rows, k, v)) == KeysOf(rows)
    ensures UniqueKeys(rows) ==> UniqueKeys(UpdateWhere(rows, k, v))
  {
    MapOfFirstUpdate(rows, k, v, |rows|);
    var r := UpdateWhere(rows, k, v);
    forall x | x in KeysOf(r) ensures x in KeysOf(rows) {
      var i :| 0 <= i < |r| && r[i].key == x;
    }
    forall x | x in KeysOf(rows) ensures x in KeysOf(r) {
      var i :| 0 <= i < |rows| && rows[i].key == x;
      assert r[i].key == x;
    }
  }

  /**
   * The upsert every save issues: select the rows for `k`; if there are
   * any, `UPDATE ... WHERE key = k`, otherwise `INSERT` a new row.
   */
  function Upsert<V>(rows: seq<Row<V>>, k: string, v: V): seq<Row<V>> {
    if Select(rows, k).Some? then UpdateWhere(rows, k, v) else rows + [Row(k, v)]
  }

  /** After an upsert the key reads the new payload, every other key reads as before, and uniqueness is kept. */
  lemma UpsertSpec<V>(rows: seq<Row<V>>, k: string, v: V)
    ensures ToMap(Upsert(rows, k, v)) == ToMap(rows)[k := v]
    ensures KeysOf(Upsert(rows, k, v)) == KeysOf(rows) + {k}
    ensures UniqueKeys(rows) ==> UniqueKeys(Upsert(rows, k, v))
  {
    if Select(rows, k).Some? {
      UpdateSpec(rows, k, v);
    } else {
      InsertSpec(rows, k, v);
    }
  }

  /** The first-row lookup after an upsert: `k` finds the new payload, any other key what it found before. */
  lemma SelectAfterUpsert<V>(rows: seq<Row<V>>, k: string, v: V, q: string)
    requires UniqueKeys(rows)
    ensures Select(Upsert(rows, k, v), q) == if q == k then Some(v) else Select(rows, q)
  {
    var r := Upsert(rows, k, v);
    UpsertSpec(rows, k, v);
    SelectIsToMap(rows, q);
    SelectIsToMap(r, q);
  }

  /**
   * The one key that an assignment into a `{}` literal does not store:
   * `out["__proto__"] = v` runs the inherited `__proto__` setter, which
   * replaces the object's prototype (or ignores `v` when it is not an
   * object) and adds no own property, so `res.json` never sends it.
   */
  const ProtoKey := "__proto__"

  /** Removing a key the new entry does not touch commutes with adding the entry. */
  lemma DropAfterAdd<V>(m: map<string, V>, k: string, v: V)
    ensures k != ProtoKey ==> m[k := v] - {ProtoKey} == (m - {ProtoKey})[k := v]
    ensures k == ProtoKey ==> m[k := v] - {ProtoKey} == m - {ProtoKey}
  {
  }

  /** Leaving out `__proto__` loses one entry exactly when the dictionary has that key. */
  lemma DropSize<V>(m: map<string, V>)
    ensures |m - {ProtoKey}| + (if ProtoKey in m then 1 else 0) == |m|
  {
    assert (m - {ProtoKey}).Keys == m.Keys - {ProtoKey};
    if ProtoKey in m {
      assert m.Keys == (m.Keys - {ProtoKey}) + {ProtoKey};
    } else {
      assert m.Keys - {ProtoKey} == m.Keys;
    }
  }

  /**
   * `const out = {}; for (const r of result) out[r.key] = r.value; return out;`:
   * the rows' dictionary, except that a row keyed `__proto__` leaves no entry.
   */
  method Collect<V>(rows: seq<Row<V>>) returns (out: map<string, V>)
    ensures out == ToMap(rows) - {ProtoKey}
    ensures out.Keys == KeysOf(rows) - {ProtoKey}
    ensures UniqueKeys(rows) ==> forall i :: 0 <= i < |rows| && rows[i].key != ProtoKey ==> out[rows[i].key] == rows[i].value
  {
    out := map[];
    for i := 0 to |rows|
      invariant out == MapOfFirst(rows, i) - {ProtoKey}
    {
      DropAfterAdd(MapOfFirst(rows, i), rows[i].key, rows[i].value);
      if rows[i].key != ProtoKey {
        out := out[rows[i].key := rows[i].value];
      }
    }
    MapOfFirstKeys(rows, |rows|);
    if UniqueKeys(rows) {
      forall i | 0 <= i < |rows| && rows[i].key != ProtoKey ensures out[rows[i].key] == rows[i].value {
        MapOfFirstAt(rows, |rows|, i);
      }
    }
  }

  /**
   * The same loop into a dictionary without a prototype
   * (`Object.create(null)` or a `Map`): every row's key is kept, with the
   * payload of its last row.
   */
  method CollectAll<V>(rows: seq<Row<V>>) returns (out: map<string, V>)
    ensures out == ToMap(rows)
    ensures out.Keys == KeysOf(rows)
    ensures UniqueKeys(rows) ==> forall i :: 0 <= i < |rows| ==> out[rows[i].key] == rows[i].value
  {
    out := map[];
    for i := 0 to |rows|
      invariant out == MapOfFirst(rows, i)
    {
      out := out[rows[i].key := rows[i].value];
    }
    MapOfFirstKeys(rows, |rows|);
    if UniqueKeys(rows) {
      forall i | 0 <= i < |rows| ensures out[rows[i].key] == rows[i].value {
        MapOfFirstAt(rows, |rows|, i);
      }
    }
  }
}
