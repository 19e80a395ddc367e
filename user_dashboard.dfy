/**
 * The encoder's dashboard: a newest-first copy of the patient list kept
 * current by the live channel (new records prepended), and the add form
 * whose guard refuses a blank name before any request and which resets
 * after a successful add.
 */
module UserDashboard {
  import opened Wrappers
  import opened Lists
  import opened Records

  /** The options of the add form's selects, in the order the dashboard lists them. */
  const EncoderPriorities: seq<string> := ["None", "PWD", "Senior Citizen", "Pregnant"]
  const EncoderCubicles: seq<string> :=
    ["Cubicle 1", "Cubicle 2", "Cubicle 3", "Cubicle 4", "Cubicle 5", "MCC", "MENTAL", "MESRU", "DENTAL"]

  // ---------------------------------------------------------------- live updates

  /** `newPatient`: the record goes in front; the rest follow unchanged. */
  function OnNewPatient(list: seq<Patient>, p: Patient): (r: seq<Patient>)
    ensures |r| == |list| + 1 && r[0] == p && r[1..] == list
    ensures NewestFirst(list) && (forall q :: q in list ==> q.createdAt < p.createdAt) ==> NewestFirst(r)
  {
    [p] + list
  }

  /** The `socket.on` handlers: the three patient events, and nothing else, change the list. */
  function Apply(list: seq<Patient>, e: Event): (r: seq<Patient>)
    ensures !(e.NewPatient? || e.UpdatePatient? || e.RemovePatient?) ==> r == list
    ensures e.NewPatient? ==> |r| == |list| + 1 && r[0] == e.patient
    ensures e.UpdatePatient? ==> |r| == |list|
    ensures e.RemovePatient? ==> forall q :: q in r <==> q in list && q.id != e.patientId
  {
    match e
    case NewPatient(p) => OnNewPatient(list, p)
    case UpdatePatient(p) => ReplaceKey(list, PatientKey, p)
    case RemovePatient(id) => RemoveKey(list, PatientKey, id)
    case _ => list
  }

  function ApplyAll(list: seq<Patient>, events: seq<Event>): seq<Patient>
    decreases |events|
  {
    if events == [] then list else ApplyAll(Apply(list, events[0]), events[1..])
  }

  /** What the encoder's list keeps: the store's records, each once, newest first. */
  predicate Mirrors(list: seq<Patient>, store: map<Id, Patient>)
  {
    Keyed(store) && ListsStore(list, store) && NewestFirst(list)
  }

  /** The server stamps every new record later than every stored one, so it is the newest. */
  lemma NewIsNewest(list: seq<Patient>, store: map<Id, Patient>, p: Patient)
    requires ListsStore(list, store) && NewestFirst(list)
    requires forall id :: id in store ==> store[id].createdAt < p.createdAt
    ensures NewestFirst(OnNewPatient(list, p))
  {
    forall q | q in list ensures q.createdAt < p.createdAt {
      var i :| 0 <= i < |list| && list[i] == q;
      assert q.id in store;
    }
  }

  lemma TracksNew(list: seq<Patient>, store: map<Id, Patient>, p: Patient)
    requires Mirrors(list, store) && PatientStep(store, NewPatient(p), store[p.id := p])
    ensures Mirrors(OnNewPatient(list, p), store[p.id := p])
  {
    NewIsNewest(list, store, p);
    PrependListsStore(list, store, p);
    assert OnNewPatient(list, p) == [p] + list;
  }

  /** An update keeps `createdAt`, so the list stays newest first. */
  lemma UpdateNewestFirst(list: seq<Patient>, store: map<Id, Patient>, p: Patient)
    requires Keyed(store) && ListsStore(list, store) && NewestFirst(list)
    requires p.id in store && store[p.id].createdAt == p.createdAt
    ensures NewestFirst(ReplaceKey(list, PatientKey, p))
  {
    var r := ReplaceKey(list, PatientKey, p);
    forall i | 0 <= i < |list| ensures r[i].createdAt == list[i].createdAt {
      if list[i].id == p.id {
        assert store[p.id] == list[i];
      }
    }
  }

  lemma TracksUpdate(list: seq<Patient>, store: map<Id, Patient>, p: Patient)
    requires Mirrors(list, store) && PatientStep(store, Event.UpdatePatient(p), store[p.id := p])
    ensures Mirrors(ReplaceKey(list, PatientKey, p), store[p.id := p])
  {
    ReplaceListsStore(list, store, p);
    UpdateNewestFirst(list, store, p);
  }

  lemma TracksRemove(list: seq<Patient>, store: map<Id, Patient>, id: Id)
    requires Mirrors(list, store)
    ensures Mirrors(RemoveKey(list, PatientKey, id), store - {id})
  {
    RemoveListsStore(list, store, id);
    RemoveKeyPairwise(list, PatientKey, id, (p: Patient, q: Patient) => p.createdAt > q.createdAt);
  }

  /**
   * A newest-first list that mirrors the store stays so after any event the
   * server emits: prepending works because every new record is the newest.
   */
  lemma TracksStore(list: seq<Patient>, store: map<Id, Patient>, e: Event, store': map<Id, Patient>)
    requires Mirrors(list, store) && PatientStep(store, e, store')
    ensures Mirrors(Apply(list, e), store')
  {
    match e
    case NewPatient(p) => TracksNew(list, store, p);
    case UpdatePatient(p) => TracksUpdate(list, store, p);
    case RemovePatient(id) => TracksRemove(list, store, id);
    case _ =>
  }

  /** Replaying the server's event log keeps the list equal to the store and newest first. */
  lemma {:induction false} TracksLog(list: seq<Patient>, stores: seq<map<Id, Patient>>, events: seq<Event>)
    requires Replays(stores, events) && Mirrors(list, stores[0])
    ensures Mirrors(ApplyAll(list, events), stores[|events|])
    decreases |events|
  {
    if events != [] {
      TracksStore(list, stores[0], events[0], stores[1]);
      assert Replays(stores[1..], events[1..]);
      TracksLog(Apply(list, events[0]), stores[1..], events[1..]);
    }
  }

  // ---------------------------------------------------------------- the add form

  /** The characters `String.prototype.trim` removes: white space and line terminators. */
  predicate IsWhitespace(c: char)
  {
    || ('\U{9}' <= c <= '\U{D}') || c == ' ' || c == '\U{A0}' || c == '\U{1680}'
    || ('\U{2000}' <= c <= '\U{200A}') || c == '\U{2028}' || c == '\U{2029}'
    || c == '\U{202F}' || c == '\U{205F}' || c == '\U{3000}' || c == '\U{FEFF}'
  }

  function TrimStart(s: string): (r: string)
    ensures |r| <= |s| && r == s[|s| - |r|..]
    ensures r == [] || !IsWhitespace(r[0])
    ensures forall i :: 0 <= i < |s| - |r| ==> IsWhitespace(s[i])
  {
    if s != [] && IsWhitespace(s[0]) then TrimStart(s[1..]) else s
  }

  function TrimEnd(s: string): (r: string)
    ensures |r| <= |s| && r == s[..|r|]
    ensures r == [] || !IsWhitespace(r[|r| - 1])
    ensures forall i :: |r| <= i < |s| ==> IsWhitespace(s[i])
  {
    if s != [] && IsWhitespace(s[|s| - 1]) then TrimEnd(s[..|s| - 1]) else s
  }

  /** `s.trim()`. */
  function Trim(s: string): (r: string)
    ensures |r| <= |s|
    ensures r == [] || (!IsWhitespace(r[0]) && !IsWhitespace(r[|r| - 1]))
    ensures (forall i :: 0 <= i < |s| ==> !IsWhitespace(s[i])) ==> r == s
  {
    TrimEnd(TrimStart(s))
  }

  /** A name trims to nothing exactly when it is all white space. */
  lemma TrimEmpty(s: string)
    ensures Trim(s) == "" <==> forall i :: 0 <= i < |s| ==> IsWhitespace(s[i])
  {
    var t := TrimStart(s);
    assert t != [] ==> t[0] == s[|s| - |t|];
    if !forall i :: 0 <= i < |s| ==> IsWhitespace(s[i]) {
      var k :| 0 <= k < |s| && !IsWhitespace(s[k]);
      assert k >= |s| - |t|;
      assert t[k - (|s| - |t|)] == s[k];
    }
  }

  /** The add form's state. */
  datatype Form = Form(name: string, priority: string, cubicle: string)

  const InitialForm: Form := Form("", "None", "Cubicle 1")

  /**
   * `handleAddPatient`'s guard: a name that trims to nothing is refused before
   * any request; otherwise the form is sent as typed (the name untrimmed).
   */
  function SubmitRequest(f: Form): (r: Option<AddRequest>)
    ensures r.None? <==> Trim(f.name) == ""
    ensures r.Some? ==> r.value == AddRequest(f.name, f.priority, f.cubicle)
  {
    if Trim(f.name) == "" then None else Some(AddRequest(f.name, f.priority, f.cubicle))
  }

  /** The form after the request: reset when the add succeeded, kept when it failed. */
  function AfterAdd(f: Form, succeeded: bool): (r: Form)
    ensures succeeded ==> r == InitialForm
    ensures !succeeded ==> r == f
  {
    if succeeded then InitialForm else f
  }

  /** The selects offer only values of the schema's enums. */
  lemma OptionsInSchema(priority: string, cubicle: string)
    requires priority in EncoderPriorities && cubicle in EncoderCubicles
    ensures priority in Priorities && cubicle in Cubicles
  {
    assert EncoderCubicles == Cubicles;
    assert EncoderPriorities == [Priorities[0], Priorities[1], Priorities[3], Priorities[2]];
  }

  /** A request the guard lets through, with select-chosen values, passes both server checks. */
  lemma SubmittedFormIsAccepted(f: Form)
    requires f.priority in EncoderPriorities && f.cubicle in EncoderCubicles
    requires SubmitRequest(f).Some?
    ensures !MissingField(SubmitRequest(f).value) && SchemaAccepts(SubmitRequest(f).value)
  {
    var req := AddRequest(f.name, f.priority, f.cubicle);
    assert SubmitRequest(f).value == req;
    OptionsInSchema(f.priority, f.cubicle);
    assert f.name != "" by {
      assert Trim("") == "";
    }
    assert SchemaAccepts(req);
  }

  /** After a successful add the form is blank again, so a second click sends nothing. */
  lemma ResetFormIsRefused(f: Form)
    ensures SubmitRequest(AfterAdd(f, true)).None?
  {
    assert Trim("") == "";
  }

  /** A name of spaces only is refused, although the server itself would store it. */
  lemma BlankNameRefusedOnlyByClient()
    ensures SubmitRequest(Form("  ", "None", "Cubicle 1")).None?
    ensures !MissingField(AddRequest("  ", "None", "Cubicle 1"))
    ensures SchemaAccepts(AddRequest("  ", "None", "Cubicle 1"))
  {
    assert "  "[1..] == " " && " "[1..] == "";
    assert TrimStart("  ") == "";
  }
}
