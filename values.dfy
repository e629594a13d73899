/**
 * The JavaScript values that travel through the system: request bodies,
 * stored JSON blobs and the messages exchanged with the embedded document.
 */
module Values {
  import opened Numerals

  /** A JSON value, plus `undefined` for a property that is not there. Numbers are integers here. */
  datatype Value =
    | Undefined
    | Null
    | Bool(b: bool)
    | Num(n: int)
    | Str(s: string)
    | Arr(items: seq<Value>)
    | Obj(fields: map<string, Value>)

  /** JavaScript truthiness: `if (v)`, `!v`. */
  predicate Truthy(v: Value) {
    match v
    case Undefined => false
    case Null => false
    case Bool(b) => b
    case Num(n) => n != 0
    case Str(s) => s != ""
    case Arr(_) => true
    case Obj(_) => true
  }

  /** `typeof v === "object"` (which holds for `null` as well). */
  predicate IsObject(v: Value) {
    v.Null? || v.Arr? || v.Obj?
  }

  /** `v?.name` for a named data property: `undefined` unless `v` is an object that has it. */
  function Get(v: Value, name: string): (r: Value)
    ensures v.Obj? && name in v.fields ==> r == v.fields[name]
    ensures r != Undefined ==> v.Obj? && name in v.fields && r == v.fields[name]
  {
    if v.Obj? && name in v.fields then v.fields[name] else Undefined
  }

  /** `a || b`. */
  function Or(a: Value, b: Value): (r: Value)
    ensures Truthy(a) ==> r == a
    ensures !Truthy(a) ==> r == b
  {
    if Truthy(a) then a else b
  }

  /** `a ?? b`. */
  function Nullish(a: Value, b: Value): (r: Value)
    ensures (a.Undefined? || a.Null?) ==> r == b
    ensures !(a.Undefined? || a.Null?) ==> r == a
  {
    if a.Undefined? || a.Null? then b else a
  }

  /** An object literal with no properties: `{}`. */
  const EmptyObject: Value := Obj(map[])

  /** `Object.entries(v)` as a dictionary, for a non-null object: an array is keyed by its decimal indices. */
  function Entries(v: Value): map<string, Value>
    requires v.Obj? || v.Arr?
  {
    if v.Obj? then v.fields else IndexEntries(v.items)
  }

  /** The entries of an array: index `i`, spelled in decimal, maps to the `i`-th item. */
  function IndexEntries(items: seq<Value>): map<string, Value> {
    FirstEntries(items, |items|)
  }

  /** The entries of the first `n` items of an array. */
  function FirstEntries(items: seq<Value>, n: nat): map<string, Value>
    requires n <= |items|
  {
    if n == 0 then map[] else FirstEntries(items, n - 1)[NatToString(n - 1) := items[n - 1]]
  }

  /** The decimal spellings of `0 .. n - 1`. */
  function IndexKeys(n: nat): set<string> {
    set i | 0 <= i < n :: NatToString(i)
  }

  lemma IndexKeysStep(n: nat)
    requires n > 0
    ensures IndexKeys(n) == IndexKeys(n - 1) + {NatToString(n - 1)}
  {
  }

  lemma {:induction false} FirstEntriesSpec(items: seq<Value>, n: nat)
    requires n <= |items|
    ensures FirstEntries(items, n).Keys == IndexKeys(n)
    ensures forall i :: 0 <= i < n ==> FirstEntries(items, n)[NatToString(i)] == items[i]
  {
    if n > 0 {
      FirstEntriesSpec(items, n - 1);
      IndexKeysStep(n);
      forall i | 0 <= i < n - 1
        ensures FirstEntries(items, n)[NatToString(i)] == items[i]
      {
        if NatToString(i) == NatToString(n - 1) { NatToStringInjective(i, n - 1); }
      }
    }
  }

  /** `Object.entries` of an array has one key per index, and each index gives back its item. */
  lemma IndexEntriesSpec(items: seq<Value>)
    ensures IndexEntries(items).Keys == IndexKeys(|items|)
    ensures forall i :: 0 <= i < |items| ==> IndexEntries(items)[NatToString(i)] == items[i]
  {
    FirstEntriesSpec(items, |items|);
  }
}
