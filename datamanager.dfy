/** The record store of dataManager.js: create, read, update and delete over
    two ordered lists of records, the appointments ("events") and the service
    templates, each kept under its own browser-storage key. Browser storage
    together with its JSON encoding is a map from key to the list of records
    saved under that key. Ids and timestamps, which the source draws from the
    clock and a random generator, are parameters. */
module DataManager {

  import opened Wrappers
  import opened Records
  import opened JsString

  const EventsKey: string := "glowSchedule_events"
  const TemplatesKey: string := "glowSchedule_serviceTemplates"

  // ---------------------------------------------------------------------
  // The list operations shared by both kinds of record
  // ---------------------------------------------------------------------

  /** `{ id, ...data, createdAt }`: the generated id first, so that an id in
      `data` wins over it, and the timestamp last, so that it always wins. */
  function NewRecord(id: string, data: Record, createdAt: string): (r: Record)
    ensures r.Keys == data.Keys + {Id, CreatedAt}
    ensures r[CreatedAt] == Str(createdAt)
    ensures r[Id] == if Id in data then data[Id] else Str(id)
    ensures forall k :: k in data && k != CreatedAt ==> r[k] == data[k]
  {
    map[Id := Str(id)] + data + map[CreatedAt := Str(createdAt)]
  }

  /** `{ ...current, ...updates }`: every field of `updates` overwrites, every
      other field of `current` is kept. */
  function Merge(current: Record, updates: Record): (r: Record)
    ensures r.Keys == current.Keys + updates.Keys
    ensures forall k :: k in updates ==> r[k] == updates[k]
    ensures forall k :: k in current && k !in updates ==> r[k] == current[k]
  {
    current + updates
  }

  /** Position `i` holds the first record of `s` whose id is `id`. */
  predicate FirstMatch(s: seq<Record>, id: string, i: int) {
    0 <= i < |s| && HasId(s[i], id) && forall j :: 0 <= j < i ==> !HasId(s[j], id)
  }

  /** `s.findIndex(e => e.id === id)`: the first position with that id, or -1. */
  function FindIndex(s: seq<Record>, id: string): (i: int)
    ensures -1 <= i < |s|
    ensures i == -1 <==> forall j :: 0 <= j < |s| ==> !HasId(s[j], id)
    ensures i != -1 ==> FirstMatch(s, id, i)
  {
    if s == [] then -1
    else if HasId(s[0], id) then 0
    else
      var k := FindIndex(s[1..], id);
      if k == -1 then -1 else k + 1
  }

  /** `s.find(e => e.id === id) || null`. */
  function FindById(s: seq<Record>, id: string): (r: Option<Record>)
    ensures r.None? <==> forall j :: 0 <= j < |s| ==> !HasId(s[j], id)
    ensures r.Some? ==> exists i :: FirstMatch(s, id, i) && r.value == s[i]
  {
    var i := FindIndex(s, id);
    if i == -1 then None else Some(s[i])
  }

  /** The body of `updateEvent`/`updateTemplate`: `None` for an unknown id;
      otherwise the list with its first record of that id merged with
      `updates`, and that merged record. */
  function UpdateById(s: seq<Record>, id: string, updates: Record): (r: Option<(seq<Record>, Record)>)
    ensures r.None? <==> forall j :: 0 <= j < |s| ==> !HasId(s[j], id)
    ensures r.Some? ==> |r.value.0| == |s|
    ensures r.Some? ==> exists i :: FirstMatch(s, id, i)
                         && r.value.1 == Merge(s[i], updates) && r.value.0 == s[i := r.value.1]
  {
    var i := FindIndex(s, id);
    if i == -1 then None
    else
      var updated := Merge(s[i], updates);
      Some((s[i := updated], updated))
  }

  /** `s.filter(e => e.id !== id)`. */
  function RemoveById(s: seq<Record>, id: string): (r: seq<Record>)
    ensures |r| <= |s|
    ensures forall j :: 0 <= j < |r| ==> !HasId(r[j], id)
  {
    if s == [] then []
    else (if HasId(s[0], id) then [] else [s[0]]) + RemoveById(s[1..], id)
  }

  /** The records kept are exactly those of the list without that id. */
  lemma {:induction false} RemoveByIdKeeps(s: seq<Record>, id: string, x: Record)
    ensures x in RemoveById(s, id) <==> x in s && !HasId(x, id)
  {
    if s != [] {
      RemoveByIdKeeps(s[1..], id, x);
      assert x in s <==> x == s[0] || x in s[1..];
    }
  }

  /** Filtering distributes over concatenation, so the kept records stay in
      their original order. */
  lemma {:induction false} RemoveByIdConcat(a: seq<Record>, b: seq<Record>, id: string)
    ensures RemoveById(a + b, id) == RemoveById(a, id) + RemoveById(b, id)
  {
    if a == [] {
      assert a + b == b;
    } else {
      var c := a + b;
      assert c[0] == a[0] && c[1..] == a[1..] + b;
      RemoveByIdConcat(a[1..], b, id);
      var h := if HasId(a[0], id) then [] else [a[0]];
      calc {
        RemoveById(c, id);
        h + RemoveById(c[1..], id);
        h + (RemoveById(a[1..], id) + RemoveById(b, id));
        (h + RemoveById(a[1..], id)) + RemoveById(b, id);
        RemoveById(a, id) + RemoveById(b, id);
      }
    }
  }

  /** A list without that id is left as it is. */
  lemma {:induction false} RemoveByIdAbsent(s: seq<Record>, id: string)
    requires forall j :: 0 <= j < |s| ==> !HasId(s[j], id)
    ensures RemoveById(s, id) == s
  {
    if s != [] {
      RemoveByIdAbsent(s[1..], id);
      assert s == [s[0]] + s[1..];
    }
  }

  /** Deleting twice leaves the same list as deleting once. */
  lemma RemoveByIdIdempotent(s: seq<Record>, id: string)
    ensures RemoveById(RemoveById(s, id), id) == RemoveById(s, id)
  {
    RemoveByIdAbsent(RemoveById(s, id), id);
  }

  /** A record created under a fresh id is what a lookup of that id finds,
      and a deleted id is found no more. */
  lemma CreatedIsFound(s: seq<Record>, id: string, data: Record, createdAt: string)
    requires Id !in data
    requires forall j :: 0 <= j < |s| ==> !HasId(s[j], id)
    ensures FindById(s + [NewRecord(id, data, createdAt)], id) == Some(NewRecord(id, data, createdAt))
    ensures FindById(RemoveById(s + [NewRecord(id, data, createdAt)], id), id) == None
  {
    var s' := s + [NewRecord(id, data, createdAt)];
    assert HasId(s'[|s|], id);
    assert forall j :: 0 <= j < |s| ==> s'[j] == s[j];
    assert FirstMatch(s', id, |s|);
  }

  /** No two records share a string id. */
  predicate UniqueIds(s: seq<Record>) {
    forall i, j :: 0 <= i < |s| && 0 <= j < |s| && i != j && StrField(s[i], Id).Some?
                   ==> StrField(s[i], Id) != StrField(s[j], Id)
  }

  /** Saving a list keeps its ids, so it keeps them unique. */
  lemma StoredKeepsUniqueIds(s: seq<Record>)
    ensures UniqueIds(StoredList(s)) <==> UniqueIds(s)
  {
    forall i | 0 <= i < |s| ensures StrField(StoredList(s)[i], Id) == StrField(s[i], Id) {
      StoredStrField(s[i], Id);
    }
  }

  /** With an id not yet in use and no id among the caller's fields, a
      created record keeps the ids unique. */
  lemma CreateKeepsUniqueIds(s: seq<Record>, id: string, data: Record, createdAt: string)
    requires UniqueIds(s) && Id !in data
    requires forall j :: 0 <= j < |s| ==> !HasId(s[j], id)
    ensures UniqueIds(s + [NewRecord(id, data, createdAt)])
  {
    var s' := s + [NewRecord(id, data, createdAt)];
    forall i, j | 0 <= i < |s'| && 0 <= j < |s'| && i != j && StrField(s'[i], Id).Some?
      ensures StrField(s'[i], Id) != StrField(s'[j], Id)
    {
      if i < |s| && j < |s| {
        assert s'[i] == s[i] && s'[j] == s[j];
      } else if i < |s| {
        assert s'[i] == s[i] && !HasId(s[i], id);
      } else {
        assert s'[j] == s[j] && !HasId(s[j], id);
      }
    }
  }

  /** Updates that do not carry an id keep the ids unique. */
  lemma UpdateKeepsUniqueIds(s: seq<Record>, id: string, updates: Record)
    requires UniqueIds(s) && Id !in updates
    requires UpdateById(s, id, updates).Some?
    ensures UniqueIds(UpdateById(s, id, updates).value.0)
  {
    var k := FindIndex(s, id);
    var s' := UpdateById(s, id, updates).value.0;
    assert s' == s[k := Merge(s[k], updates)];
    assert StrField(s'[k], Id) == StrField(s[k], Id);
    forall i, j | 0 <= i < |s'| && 0 <= j < |s'| && i != j && StrField(s'[i], Id).Some?
      ensures StrField(s'[i], Id) != StrField(s'[j], Id)
    {
      assert StrField(s'[i], Id) == StrField(s[i], Id);
      assert StrField(s'[j], Id) == StrField(s[j], Id);
    }
  }

  // ---------------------------------------------------------------------
  // Template lookup by name
  // ---------------------------------------------------------------------

  /** The three outcomes of `getTemplateByName`: a template, `null`, or the
      TypeError thrown when `t.name.toLowerCase()` meets a template whose
      name is not a string. */
  datatype NameLookup = Found(template: Record) | NotFound | NameTypeError

  /** `t.name` is a string, so `t.name.toLowerCase()` can be evaluated. */
  predicate NameReadable(t: Record) {
    StrField(t, Name).Some?
  }

  /** `t.name.toLowerCase() === query.trim().toLowerCase()`: only the query
      is trimmed. */
  predicate NameMatches(t: Record, query: string): (m: bool)
    ensures m ==> NameReadable(t) && |StrField(t, Name).value| == |Trim(query)|
    ensures StrField(t, Name) == Some(Trim(query)) ==> m
  {
    NameReadable(t) && ToLower(StrField(t, Name).value) == ToLower(Trim(query))
  }

  /** Every template before position `i` has a readable name that does not
      match, so `find` reaches position `i`. */
  predicate PassedBefore(s: seq<Record>, query: string, i: int)
    requires 0 <= i <= |s|
  {
    forall j :: 0 <= j < i ==> NameReadable(s[j]) && !NameMatches(s[j], query)
  }

  /** Where `find` stops: the first template whose name is unreadable or
      matches, or `|s|` when it runs off the end. */
  function NameIndex(s: seq<Record>, query: string): (i: int)
    ensures 0 <= i <= |s| && PassedBefore(s, query, i)
    ensures i < |s| ==> !NameReadable(s[i]) || NameMatches(s[i], query)
  {
    if s == [] then 0
    else if !NameReadable(s[0]) || NameMatches(s[0], query) then 0
    else NameIndex(s[1..], query) + 1
  }

  /** `s.find(t => t.name.toLowerCase() === query.trim().toLowerCase()) || null`. */
  function FindByName(s: seq<Record>, query: string): (r: NameLookup)
    ensures r.NotFound? <==> PassedBefore(s, query, |s|)
    ensures r.Found? ==> exists i :: 0 <= i < |s| && PassedBefore(s, query, i)
                          && NameMatches(s[i], query) && r.template == s[i]
    ensures r.NameTypeError? ==> exists i :: 0 <= i < |s| && PassedBefore(s, query, i)
                                  && !NameReadable(s[i])
  {
    var i := NameIndex(s, query);
    if i == |s| then NotFound
    else if !NameReadable(s[i]) then NameTypeError
    else Found(s[i])
  }

  /** A stored name with white space at its start is never found, whatever
      the query: the query is trimmed but the stored name is not. */
  lemma LeadingSpaceNeverMatches(t: Record, query: string)
    requires NameReadable(t)
    requires StrField(t, Name).value != [] && IsWhiteSpace(StrField(t, Name).value[0])
    ensures !NameMatches(t, query)
  {
    var name := StrField(t, Name).value;
    var q := Trim(query);
    LowerCharKeepsWhiteSpace(name[0]);
    if q != [] {
      LowerCharKeepsWhiteSpace(q[0]);
      assert ToLower(name)[0] != ToLower(q)[0];
    }
  }

  /** White space around the query does not change the lookup. */
  lemma PaddedQueryFindsTheSame(s: seq<Record>, p: string, query: string, q: string)
    requires AllWhiteSpace(p) && AllWhiteSpace(q)
    ensures FindByName(s, p + query + q) == FindByName(s, query)
  {
    TrimIgnoresPadding(p, query, q);
    assert forall t :: NameMatches(t, p + query + q) <==> NameMatches(t, query);
    FindByNameRespectsMatches(s, p + query + q, query);
  }

  lemma FindByNameRespectsMatches(s: seq<Record>, q1: string, q2: string)
    requires forall t :: NameMatches(t, q1) <==> NameMatches(t, q2)
    ensures FindByName(s, q1) == FindByName(s, q2)
  {
    NameIndexRespectsMatches(s, q1, q2);
  }

  lemma {:induction false} NameIndexRespectsMatches(s: seq<Record>, q1: string, q2: string)
    requires forall t :: NameMatches(t, q1) <==> NameMatches(t, q2)
    ensures NameIndex(s, q1) == NameIndex(s, q2)
  {
    if s != [] {
      NameIndexRespectsMatches(s[1..], q1, q2);
    }
  }

  /** Lower-casing the query does not change the lookup. */
  lemma LowerCasedQueryFindsTheSame(s: seq<Record>, query: string)
    ensures FindByName(s, ToLower(query)) == FindByName(s, query)
  {
    forall t ensures NameMatches(t, ToLower(query)) <==> NameMatches(t, query) {
      LowerOfTrimmedLower(query);
    }
    FindByNameRespectsMatches(s, ToLower(query), query);
  }

  lemma LowerOfTrimmedLower(query: string)
    ensures ToLower(Trim(ToLower(query))) == ToLower(Trim(query))
  {
    TrimOfLowered(query);
    ToLowerIdempotent(Trim(query));
  }

  /** Filtering a list read back from storage keeps it free of
      `undefined`. */
  lemma RemoveByIdClean(s: seq<Record>, id: string)
    requires forall j :: 0 <= j < |s| ==> JsonClean(s[j])
    ensures forall j :: 0 <= j < |RemoveById(s, id)| ==> JsonClean(RemoveById(s, id)[j])
  {
    var r := RemoveById(s, id);
    forall j | 0 <= j < |r| ensures JsonClean(r[j]) {
      RemoveByIdKeeps(s, id, r[j]);
    }
  }

  // ---------------------------------------------------------------------
  // The store
  // ---------------------------------------------------------------------

  /** Every list in browser storage is as `JSON.parse` gives it back: no
      field holds `undefined`. */
  predicate CleanStorage(storage: map<string, seq<Record>>) {
    forall key, i :: key in storage && 0 <= i < |storage[key]| ==> JsonClean(storage[key][i])
  }

  /** Browser storage as the store sees it, with the exported functions of
      dataManager.js as its methods. */
  class Store {

    /** The list saved under each storage key, as `JSON.parse` reads it
        back. */
    var storage: map<string, seq<Record>>

    /** The stored lists hold no `undefined` field. */
    predicate Valid()
      reads this
    {
      CleanStorage(storage)
    }

    constructor (initial: map<string, seq<Record>>)
      requires CleanStorage(initial)
      ensures storage == initial && Valid()
    {
      storage := initial;
    }

    /** A list read back from storage holds no `undefined` field. */
    lemma LoadIsClean(key: string)
      requires Valid()
      ensures forall i :: 0 <= i < |Load(key)| ==> JsonClean(Load(key)[i])
    {
    }

    /** What `JSON.parse(localStorage.getItem(key))` gives, or `[]` when
        nothing is stored under the key. */
    function Load(key: string): (records: seq<Record>)
      reads this
      ensures key !in storage ==> records == []
      ensures key in storage ==> records == storage[key]
    {
      if key in storage then storage[key] else []
    }

    function Events(): seq<Record>
      reads this
    {
      Load(EventsKey)
    }

    function Templates(): seq<Record>
      reads this
    {
      Load(TemplatesKey)
    }

    // -- events ----------------------------------------------------------

    /** The empty list when nothing is stored, otherwise the last list saved. */
    method GetEvents() returns (events: seq<Record>)
      ensures EventsKey !in storage ==> events == []
      ensures EventsKey in storage ==> events == storage[EventsKey]
    {
      events := Events();
    }

    /** Saves the list as JSON: fields holding `undefined` are not stored. */
    method SaveEvents(events: seq<Record>)
      modifies this
      requires Valid()
      ensures storage == old(storage)[EventsKey := StoredList(events)]
      ensures Events() == StoredList(events) && Templates() == old(Templates())
      ensures Valid()
    {
      storage := storage[EventsKey := StoredList(events)];
    }

    /** Appends the new record, saves, and returns the new record as built
        in memory. */
    method CreateEvent(data: Record, id: string, createdAt: string) returns (created: Record)
      requires Valid()
      modifies this
      ensures created == NewRecord(id, data, createdAt)
      ensures Events() == old(Events()) + [Stored(created)]
      ensures storage == old(storage)[EventsKey := StoredList(old(Events()) + [created])]
      ensures Templates() == old(Templates()) && Valid()
    {
      var events := GetEvents();
      LoadIsClean(EventsKey);
      StoredListConcat(events, [NewRecord(id, data, createdAt)]);
      StoredListOfClean(events);
      created := NewRecord(id, data, createdAt);
      events := events + [created];
      SaveEvents(events);
    }

    /** Merges `updates` into the first event with that id, saves, and
        returns the merged record as built in memory; `None` and no change to
        the storage when there is none. */
    method UpdateEvent(id: string, updates: Record) returns (updated: Option<Record>)
      requires Valid()
      modifies this
      ensures updated.None? <==> UpdateById(old(Events()), id, updates).None?
      ensures updated.None? ==> storage == old(storage)
      ensures updated.Some? ==> var u := UpdateById(old(Events()), id, updates).value;
                                u.1 == updated.value && storage == old(storage)[EventsKey := StoredList(u.0)]
      ensures updated.Some? ==>
                exists i :: && FirstMatch(old(Events()), id, i)
                            && updated.value == Merge(old(Events())[i], updates)
                            && Events() == old(Events())[i := Stored(updated.value)]
      ensures |Events()| == |old(Events())|
      ensures Templates() == old(Templates()) && Valid()
    {
      var events := GetEvents();
      LoadIsClean(EventsKey);
      var index := FindIndex(events, id);
      if index == -1 {
        return None;
      }
      var merged := Merge(events[index], updates);
      StoredListUpdate(events, index, merged);
      assert FirstMatch(old(Events()), id, index);
      events := events[index := merged];
      SaveEvents(events);
      updated := Some(merged);
    }

    /** Removes every event with that id; always returns true. */
    method DeleteEvent(id: string) returns (ok: bool)
      requires Valid()
      modifies this
      ensures ok
      ensures Events() == RemoveById(old(Events()), id)
      ensures storage == old(storage)[EventsKey := Events()]
      ensures Templates() == old(Templates()) && Valid()
    {
      var events := GetEvents();
      LoadIsClean(EventsKey);
      RemoveByIdClean(events, id);
      StoredListOfClean(RemoveById(events, id));
      events := RemoveById(events, id);
      SaveEvents(events);
      ok := true;
    }

    method GetEventById(id: string) returns (event: Option<Record>)
      ensures event.None? <==> forall j :: 0 <= j < |Events()| ==> !HasId(Events()[j], id)
      ensures event.Some? ==> exists i :: FirstMatch(Events(), id, i) && event.value == Events()[i]
    {
      var events := GetEvents();
      assert events == Events();
      event := FindById(events, id);
    }

    // -- templates -------------------------------------------------------

    /** The empty list when nothing is stored, otherwise the last list saved. */
    method GetTemplates() returns (templates: seq<Record>)
      ensures TemplatesKey !in storage ==> templates == []
      ensures TemplatesKey in storage ==> templates == storage[TemplatesKey]
    {
      templates := Templates();
    }

    method SaveTemplates(templates: seq<Record>)
      modifies this
      requires Valid()
      ensures storage == old(storage)[TemplatesKey := StoredList(templates)]
      ensures Templates() == StoredList(templates) && Events() == old(Events())
      ensures Valid()
    {
      storage := storage[TemplatesKey := StoredList(templates)];
    }

    method CreateTemplate(data: Record, id: string, createdAt: string) returns (created: Record)
      requires Valid()
      modifies this
      ensures created == NewRecord(id, data, createdAt)
      ensures Templates() == old(Templates()) + [Stored(created)]
      ensures storage == old(storage)[TemplatesKey := StoredList(old(Templates()) + [created])]
      ensures Events() == old(Events()) && Valid()
    {
      var templates := GetTemplates();
      LoadIsClean(TemplatesKey);
      StoredListConcat(templates, [NewRecord(id, data, createdAt)]);
      StoredListOfClean(templates);
      created := NewRecord(id, data, createdAt);
      templates := templates + [created];
      SaveTemplates(templates);
    }

    method UpdateTemplate(id: string, updates: Record) returns (updated: Option<Record>)
      requires Valid()
      modifies this
      ensures updated.None? <==> UpdateById(old(Templates()), id, updates).None?
      ensures updated.None? ==> storage == old(storage)
      ensures updated.Some? ==> var u := UpdateById(old(Templates()), id, updates).value;
                                u.1 == updated.value && storage == old(storage)[TemplatesKey := StoredList(u.0)]
      ensures updated.Some? ==>
                exists i :: && FirstMatch(old(Templates()), id, i)
                            && updated.value == Merge(old(Templates())[i], updates)
                            && Templates() == old(Templates())[i := Stored(updated.value)]
      ensures |Templates()| == |old(Templates())|
      ensures Events() == old(Events()) && Valid()
    {
      var templates := GetTemplates();
      LoadIsClean(TemplatesKey);
      var index := FindIndex(templates, id);
      if index == -1 {
        return None;
      }
      var merged := Merge(templates[index], updates);
      StoredListUpdate(templates, index, merged);
      assert FirstMatch(old(Templates()), id, index);
      templates := templates[index := merged];
      SaveTemplates(templates);
      updated := Some(merged);
    }

    method DeleteTemplate(id: string) returns (ok: bool)
      requires Valid()
      modifies this
      ensures ok
      ensures Templates() == RemoveById(old(Templates()), id)
      ensures storage == old(storage)[TemplatesKey := Templates()]
      ensures Events() == old(Events()) && Valid()
    {
      var templates := GetTemplates();
      LoadIsClean(TemplatesKey);
      RemoveByIdClean(templates, id);
      StoredListOfClean(RemoveById(templates, id));
      templates := RemoveById(templates, id);
      SaveTemplates(templates);
      ok := true;
    }

    method GetTemplateById(id: string) returns (template: Option<Record>)
      ensures template.None? <==> forall j :: 0 <= j < |Templates()| ==> !HasId(Templates()[j], id)
      ensures template.Some? ==> exists i :: FirstMatch(Templates(), id, i) && template.value == Templates()[i]
    {
      var templates := GetTemplates();
      assert templates == Templates();
      template := FindById(templates, id);
    }

    method GetTemplateByName(name: string) returns (found: NameLookup)
      ensures found.NotFound? <==> PassedBefore(Templates(), name, |Templates()|)
      ensures found.Found? ==> exists i :: 0 <= i < |Templates()| && PassedBefore(Templates(), name, i)
                                && NameMatches(Templates()[i], name) && found.template == Templates()[i]
      ensures found.NameTypeError? ==> exists i :: 0 <= i < |Templates()| && PassedBefore(Templates(), name, i)
                                        && !NameReadable(Templates()[i])
    {
      var templates := GetTemplates();
      found := FindByName(templates, name);
    }
  }
}
