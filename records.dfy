/** The records the scheduling board keeps in browser storage: JSON objects
    whose fields hold strings or numbers. Field access follows JavaScript: a
    field that is missing, or holds a number where a string is expected, does
    not compare equal to any string. */
module Records {

  import opened Wrappers

  /** The values the forms put into records: strings (names, colours, dates,
      times, ids, timestamps), numbers (prices), and `undefined` (the colour of
      a template that has none). */
  datatype Value = Str(s: string) | Num(n: real) | Undefined

  /** The field names the board's code reads and writes. */
  datatype Field = Id | CreatedAt | Name | Color | Price | Service | Client | Date | Start | End

  /** A stored object: field name to value. */
  type Record = map<Field, Value>

  /** `r[key]` when that field holds a string. */
  function StrField(r: Record, key: Field): Option<string> {
    if key in r && r[key].Str? then Some(r[key].s) else None
  }

  /** `r.id === id`. */
  predicate HasId(r: Record, id: string): (h: bool)
    ensures h <==> StrField(r, Id) == Some(id)
  {
    Id in r && r[Id] == Str(id)
  }

  /** JavaScript truthiness of a stored value: the empty string and zero are falsy. */
  predicate Truthy(v: Value) {
    match v
    case Str(s) => s != ""
    case Num(n) => n != 0.0
    case Undefined => false
  }

  /** `undefined`, `""` and `0` are the falsy values a record can hold. */
  lemma TruthyValues(v: Value)
    ensures Truthy(v) ==> !v.Undefined?
    ensures v.Str? ==> (Truthy(v) <==> |v.s| > 0)
    ensures v.Num? ==> (Truthy(v) <==> v.n != 0.0)
  {
  }

  /** No field holds `undefined`, as in every object `JSON.parse` returns. */
  predicate JsonClean(r: Record) {
    forall k :: k in r ==> r[k] != Undefined
  }

  /** The record `JSON.parse(JSON.stringify(r))` gives back: the fields
      holding `undefined` are dropped and every other field is kept. */
  function Stored(r: Record): (t: Record)
    ensures forall k :: k in t <==> k in r && r[k] != Undefined
    ensures forall k :: k in t ==> t[k] == r[k]
    ensures JsonClean(t)
  {
    map k | k in r && r[k] != Undefined :: r[k]
  }

  /** Saving and reading back keeps every string field, and so every id. */
  lemma StoredStrField(r: Record, key: Field)
    ensures StrField(Stored(r), key) == StrField(r, key)
    ensures forall id :: HasId(Stored(r), id) <==> HasId(r, id)
  {
  }

  /** A record without `undefined` fields is saved unchanged. */
  lemma StoredOfClean(r: Record)
    requires JsonClean(r)
    ensures Stored(r) == r
  {
  }

  /** A list of records saved and read back. */
  function StoredList(s: seq<Record>): (t: seq<Record>)
    ensures |t| == |s|
    ensures forall i :: 0 <= i < |s| ==> t[i] == Stored(s[i])
  {
    if s == [] then [] else [Stored(s[0])] + StoredList(s[1..])
  }

  /** Saving a list saves each record on its own. */
  lemma StoredListConcat(a: seq<Record>, b: seq<Record>)
    ensures StoredList(a + b) == StoredList(a) + StoredList(b)
  {
    assert forall i :: 0 <= i < |a + b| ==> StoredList(a + b)[i] == (StoredList(a) + StoredList(b))[i];
  }

  /** A list read back from storage is saved unchanged. */
  lemma StoredListOfClean(s: seq<Record>)
    requires forall i :: 0 <= i < |s| ==> JsonClean(s[i])
    ensures StoredList(s) == s
  {
    forall i | 0 <= i < |s| ensures StoredList(s)[i] == s[i] {
      StoredOfClean(s[i]);
    }
  }

  /** Saving a list with one record replaced, when the list was read back
      from storage, changes only that record, to its saved form. */
  lemma StoredListUpdate(s: seq<Record>, i: int, r: Record)
    requires forall j :: 0 <= j < |s| ==> JsonClean(s[j])
    requires 0 <= i < |s|
    ensures StoredList(s[i := r]) == s[i := Stored(r)]
  {
    forall j | 0 <= j < |s| && j != i ensures StoredList(s[i := r])[j] == s[j] {
      StoredOfClean(s[j]);
    }
  }
}
