/** The appointment form's submit handler in events.js: check the required
    fields, refuse a slot that is taken, take the colour of a service
    template with the same name, then update the appointment being edited or
    create a new one. The module-level `editingEventId` is a parameter. */
module EventForm {

  import opened Wrappers
  import opened Records
  import opened JsString
  import opened DataManager
  import opened Conflict
  import Grid

  /** The raw inputs of the form: service, colour, client, the price as
      `parseFloat` gives it (NaN as `None`), date, start and end. */
  datatype FormInput = FormInput(service: string, color: string, client: string, price: Option<real>,
                                 date: string, start: string, end: string)

  /** The constants the handler reads from the form: the service and client
      names trimmed, everything else as typed. */
  datatype FormValues = FormValues(service: string, color: string, client: string, price: Option<real>,
                                   date: string, start: string, end: string)

  /** The outcome of a submit: a required field missing (nothing saved), the
      slot taken (nothing saved), the template lookup throwing (nothing saved),
      or the record to save. */
  datatype Decision = Incomplete | Occupied | LookupFailed | Save(data: Record)

  /** `editingEventId` is truthy. */
  predicate Editing(editing: Option<string>): (e: bool)
    ensures e ==> editing.Some? && |editing.value| > 0
    ensures editing == None || editing == Some("") ==> !e
  {
    editing.Some? && editing.value != ""
  }

  /** Reading the form: only the service and client names are trimmed. */
  function ReadForm(form: FormInput): (v: FormValues)
    ensures v.service == Trim(form.service) && v.client == Trim(form.client)
    ensures v.color == form.color && v.price == form.price && v.date == form.date
            && v.start == form.start && v.end == form.end
  {
    FormValues(Trim(form.service), form.color, Trim(form.client), form.price, form.date, form.start, form.end)
  }

  /** `serviceName && client && !isNaN(price) && date && start && end`. */
  predicate Complete(v: FormValues): (c: bool)
    ensures c ==> v.price.Some?
  {
    v.service != "" && v.client != "" && v.price.Some? && v.date != "" && v.start != "" && v.end != ""
  }

  /** A form read from its inputs is complete exactly when the service and
      client names are not all white space, the price is a number, and the
      date and both times are filled in. */
  lemma CompleteOfRead(form: FormInput)
    ensures Complete(ReadForm(form)) <==>
              && !AllWhiteSpace(form.service) && !AllWhiteSpace(form.client) && form.price.Some?
              && form.date != "" && form.start != "" && form.end != ""
  {
    TrimEmptyIffWhiteSpace(form.service);
    TrimEmptyIffWhiteSpace(form.client);
  }

  /** The fields of `eventData` other than the colour. */
  function FormFields(v: FormValues): (fields: Record)
    requires v.price.Some?
    ensures StrField(fields, Date) == Some(v.date)
    ensures StrField(fields, Start) == Some(v.start) && StrField(fields, End) == Some(v.end)
    ensures StrField(fields, Service) == Some(v.service) && StrField(fields, Client) == Some(v.client)
    ensures fields.Keys == {Service, Client, Price, Date, Start, End}
    ensures fields[Price] == Num(v.price.value)
  {
    map[Service := Str(v.service), Client := Str(v.client), Price := Num(v.price.value),
        Date := Str(v.date), Start := Str(v.start), End := Str(v.end)]
  }

  /** The record to save holds the values read from the form: service,
      client, price, date and times, and neither an id nor a timestamp. */
  predicate Carries(data: Record, v: FormValues) {
    && StrField(data, Service) == Some(v.service) && StrField(data, Client) == Some(v.client)
    && v.price.Some? && Price in data && data[Price] == Num(v.price.value)
    && StrField(data, Date) == Some(v.date) && StrField(data, Start) == Some(v.start) && StrField(data, End) == Some(v.end)
    && Id !in data && CreatedAt !in data
  }

  /** The `eventData` object; its `color` is `undefined` for a matching
      template without a colour. */
  function EventData(v: FormValues, color: Value): (data: Record)
    requires v.price.Some?
    ensures Carries(data, v)
    ensures data.Keys == {Service, Color, Client, Price, Date, Start, End}
    ensures data[Color] == color
  {
    FormFields(v)[Color := color]
  }

  /** `template ? template.color : eventColor`: reading a missing `color`
      gives `undefined`. */
  function FinalColor(template: NameLookup, formColor: string): (c: Value)
    requires !template.NameTypeError?
    ensures template.Found? && Color in template.template ==> c == template.template[Color]
    ensures template.Found? && Color !in template.template ==> c == Undefined
    ensures template.NotFound? ==> c == Str(formColor)
  {
    match template
    case Found(t) => if Color in t then t[Color] else Undefined
    case _ => Str(formColor)
  }

  /** The decision of the submit handler on the values read from the form,
      given the stored events and templates. */
  function Decide(v: FormValues, editing: Option<string>, events: seq<Record>, templates: seq<Record>): (d: Decision)
    ensures !Complete(v) ==> d.Incomplete?
    ensures Complete(v) && !IsTimeSlotFree(events, v.date, v.start, v.end, editing) ==> d.Occupied?
    ensures Complete(v) && IsTimeSlotFree(events, v.date, v.start, v.end, editing) ==>
              (d.LookupFailed? <==> FindByName(templates, v.service).NameTypeError?)
    ensures (Complete(v) && IsTimeSlotFree(events, v.date, v.start, v.end, editing)
             && !FindByName(templates, v.service).NameTypeError?) ==> d.Save?
    ensures d.Save? ==> Complete(v) && IsTimeSlotFree(events, v.date, v.start, v.end, editing)
    ensures d.Save? ==> Carries(d.data, v)
  {
    if !Complete(v) then Incomplete
    else if !IsTimeSlotFree(events, v.date, v.start, v.end, editing) then Occupied
    else
      var template := FindByName(templates, v.service);
      if template.NameTypeError? then LookupFailed
      else Save(EventData(v, FinalColor(template, v.color)))
  }

  /** The submit handler's decision on the raw form. */
  function SubmitDecision(form: FormInput, editing: Option<string>, events: seq<Record>, templates: seq<Record>): (d: Decision)
    ensures (|| Trim(form.service) == "" || Trim(form.client) == "" || form.price.None?
             || form.date == "" || form.start == "" || form.end == "") ==> d.Incomplete?
    ensures Complete(ReadForm(form)) && !IsTimeSlotFree(events, form.date, form.start, form.end, editing) ==> d.Occupied?
    ensures Complete(ReadForm(form)) && IsTimeSlotFree(events, form.date, form.start, form.end, editing) ==>
              (d.LookupFailed? <==> FindByName(templates, Trim(form.service)).NameTypeError?)
    ensures (Complete(ReadForm(form)) && IsTimeSlotFree(events, form.date, form.start, form.end, editing)
             && !FindByName(templates, Trim(form.service)).NameTypeError?) ==> d.Save?
    ensures d.Save? ==> IsTimeSlotFree(events, form.date, form.start, form.end, editing)
                        && Carries(d.data, ReadForm(form))
  {
    Decide(ReadForm(form), editing, events, templates)
  }

  /** The saved colour is the colour of the template named like the service
      when there is one, and the form's colour otherwise. */
  lemma TemplateColorWins(v: FormValues, editing: Option<string>, events: seq<Record>, templates: seq<Record>)
    requires Decide(v, editing, events, templates).Save?
    ensures var data := Decide(v, editing, events, templates).data;
            match FindByName(templates, v.service)
            case Found(t) => Color in data && data[Color] == if Color in t then t[Color] else Undefined
            case _ => Color in data && data[Color] == Str(v.color)
  {
    var template := FindByName(templates, v.service);
    assert Decide(v, editing, events, templates).data == EventData(v, FinalColor(template, v.color));
  }

  /** The submit handler acting on the store: a refused submit saves nothing;
      otherwise the appointment being edited is updated, or a new one is
      created with the fresh `id` and timestamp. */
  method Submit(store: Store, form: FormInput, editing: Option<string>, id: string, createdAt: string) returns (d: Decision)
    requires store.Valid()
    modifies store
    ensures d == SubmitDecision(form, editing, old(store.Events()), old(store.Templates()))
    ensures !d.Save? ==> store.storage == old(store.storage)
    ensures d.Save? && Editing(editing) ==>
              match UpdateById(old(store.Events()), editing.value, d.data)
              case None => store.storage == old(store.storage)
              case Some(u) => store.storage == old(store.storage)[EventsKey := StoredList(u.0)]
    ensures d.Save? && !Editing(editing) ==>
              store.storage == old(store.storage)[EventsKey := StoredList(old(store.Events()) + [NewRecord(id, d.data, createdAt)])]
    ensures Editing(editing) ==> |store.Events()| == |old(store.Events())|
    ensures store.Valid()
  {
    var v := ReadForm(form);
    d := SubmitValues(store, v, editing, id, createdAt);
  }

  /** The submit handler after reading the form. */
  method SubmitValues(store: Store, v: FormValues, editing: Option<string>, id: string, createdAt: string) returns (d: Decision)
    requires store.Valid()
    modifies store
    ensures d == Decide(v, editing, old(store.Events()), old(store.Templates()))
    ensures !d.Save? ==> store.storage == old(store.storage)
    ensures d.Save? && Editing(editing) ==>
              match UpdateById(old(store.Events()), editing.value, d.data)
              case None => store.storage == old(store.storage)
              case Some(u) => store.storage == old(store.storage)[EventsKey := StoredList(u.0)]
    ensures d.Save? && !Editing(editing) ==>
              store.storage == old(store.storage)[EventsKey := StoredList(old(store.Events()) + [NewRecord(id, d.data, createdAt)])]
    ensures Editing(editing) ==> |store.Events()| == |old(store.Events())|
    ensures store.Valid()
  {
    if !Complete(v) {
      return Incomplete;
    }
    var events := store.GetEvents();
    var isFree := IsTimeSlotFree(events, v.date, v.start, v.end, editing);
    if !isFree {
      return Occupied;
    }
    var template := store.GetTemplateByName(v.service);
    assert template == FindByName(store.Templates(), v.service);
    if template.NameTypeError? {
      return LookupFailed;
    }
    var eventData := EventData(v, FinalColor(template, v.color));
    d := Save(eventData);
    if Editing(editing) {
      var _ := store.UpdateEvent(editing.value, eventData);
    } else {
      var _ := store.CreateEvent(eventData, id, createdAt);
    }
  }

  /** Creating through the form keeps the board free of overlapping
      appointments. */
  lemma CreateKeepsNoClashes(events: seq<Record>, templates: seq<Record>, v: FormValues, id: string, createdAt: string)
    requires NoClashes(events)
    requires Decide(v, None, events, templates).Save?
    ensures NoClashes(StoredList(events + [NewRecord(id, Decide(v, None, events, templates).data, createdAt)]))
  {
    var n := NewRecord(id, Decide(v, None, events, templates).data, createdAt);
    assert StrField(n, Date) == Some(v.date);
    assert StrField(n, Start) == Some(v.start) && StrField(n, End) == Some(v.end);
    AppendFreeKeepsNoClashes(events, n);
    StoredKeepsNoClashes(events + [n]);
  }

  /** Editing through the form keeps the board free of overlapping
      appointments, provided ids are unique. */
  lemma UpdateKeepsNoClashes(events: seq<Record>, templates: seq<Record>, v: FormValues, id: string)
    requires NoClashes(events) && UniqueIds(events) && id != ""
    requires Decide(v, Some(id), events, templates).Save?
    requires UpdateById(events, id, Decide(v, Some(id), events, templates).data).Some?
    ensures NoClashes(StoredList(UpdateById(events, id, Decide(v, Some(id), events, templates).data).value.0))
  {
    var data := Decide(v, Some(id), events, templates).data;
    var k := FindIndex(events, id);
    var m := Merge(events[k], data);
    assert UpdateById(events, id, data).value.0 == events[k := m];
    assert StrField(m, Date) == Some(v.date);
    assert StrField(m, Start) == Some(v.start) && StrField(m, End) == Some(v.end);
    ReplaceFreeKeepsNoClashes(events, k, m, id);
    StoredKeepsNoClashes(events[k := m]);
  }

  /** A matching template without a colour gives `color: undefined`, which
      overwrites the colour of the appointment being edited and is then not
      saved: the stored appointment, new or edited, has no colour and is
      drawn in the default one. */
  lemma ColourlessTemplateClearsColour(v: FormValues, editing: Option<string>, events: seq<Record>, templates: seq<Record>,
                                       current: Record, id: string, createdAt: string)
    requires Decide(v, editing, events, templates).Save?
    requires FindByName(templates, v.service).Found? && Color !in FindByName(templates, v.service).template
    ensures var data := Decide(v, editing, events, templates).data;
            && Color !in Stored(Merge(current, data)) && Color !in Stored(NewRecord(id, data, createdAt))
            && Grid.Background(Stored(Merge(current, data))) == Str(Grid.DefaultColor)
  {
    TemplateColorWins(v, editing, events, templates);
  }

  /** A "Manicure" service template, as `createTemplate` stores it. */
  const Manicure: Record := NewRecord("t1", map[Name := Str("Manicure"), Color := Str("#f8c8dc"), Price := Num(15.0)], "t0")

  /** The template is found by its own name. */
  lemma ManicureFound()
    ensures FindByName([Manicure], "Manicure") == Found(Manicure)
  {
    TrimUnpadded("Manicure");
    assert NameMatches(Manicure, "Manicure");
  }

  /** A Monday 09:00 to 10:00 appointment for that service is saved in the
      template's colour, not the form's. */
  lemma ManicureSaved()
    ensures var d := Decide(FormValues("Manicure", "#000000", "Ana", Some(15.0), "2024-05-06", "09:00", "10:00"),
                            None, [], [Manicure]);
            d.Save? && d.data[Color] == Str("#f8c8dc")
  {
    var v := FormValues("Manicure", "#000000", "Ana", Some(15.0), "2024-05-06", "09:00", "10:00");
    assert Complete(v);
    assert IsTimeSlotFree([], v.date, v.start, v.end, None);
    ManicureFound();
    assert FinalColor(Found(Manicure), v.color) == Str("#f8c8dc");
  }

  /** A 09:30 to 10:30 appointment is refused once the 09:00 to 10:00 one is
      stored on the same day. */
  lemma ManicureOverlapRefused(data: Record)
    requires StrField(data, Date) == Some("2024-05-06")
    requires StrField(data, Start) == Some("09:00") && StrField(data, End) == Some("10:00")
    ensures Decide(FormValues("Manicure", "#000000", "Rita", Some(15.0), "2024-05-06", "09:30", "10:30"),
                   None, [NewRecord("e1", data, "t2")], [Manicure]) == Occupied
  {
    var v := FormValues("Manicure", "#000000", "Rita", Some(15.0), "2024-05-06", "09:30", "10:30");
    var stored := NewRecord("e1", data, "t2");
    assert Complete(v);
    StoredKeepsFields(data, stored);
    ManicureClocks();
    assert Conflicts(stored, v.date, v.start, v.end, None);
    assert [stored][0] == stored;
  }

  /** Storing keeps the example's date and times. */
  lemma StoredKeepsFields(data: Record, stored: Record)
    requires StrField(data, Date) == Some("2024-05-06")
    requires StrField(data, Start) == Some("09:00") && StrField(data, End) == Some("10:00")
    requires stored == NewRecord("e1", data, "t2")
    ensures StrField(stored, Date) == Some("2024-05-06")
    ensures StrField(stored, Start) == Some("09:00") && StrField(stored, End) == Some("10:00")
  {
  }

  /** The four clock readings of the example. */
  lemma ManicureClocks()
    ensures ClockMinutes("09:00") == Some(540) && ClockMinutes("09:30") == Some(570)
    ensures ClockMinutes("10:00") == Some(600) && ClockMinutes("10:30") == Some(630)
  {
    ClockOfDigits('0', '9', '0', '0');
    ClockOfDigits('0', '9', '3', '0');
    ClockOfDigits('1', '0', '0', '0');
    ClockOfDigits('1', '0', '3', '0');
  }
}
