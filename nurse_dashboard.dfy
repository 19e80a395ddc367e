/**
 * The nurse dashboard: a local copy of the patient list kept current by the
 * live channel (new records appended at the end), the cubicle / name filter
 * and `createdAt` sort it displays, and the edit form whose request body
 * never carries a status.
 */
module NurseDashboard {
  import opened Wrappers
  import opened Lists
  import opened Records

  /** The cubicle filter's "All" option. */
  const SelectAll: string := "all"

  /** The options of the edit form's selects, in the order the dashboard lists them. */
  const NursePriorities: seq<string> := ["None", "PWD", "Senior Citizen", "Pregnant"]
  const NurseCubicles: seq<string> :=
    ["Cubicle 1", "Cubicle 2", "Cubicle 3", "Cubicle 4", "Cubicle 5", "MCC", "MENTAL", "MESRU", "DENTAL"]

  // ---------------------------------------------------------------- live updates

  /** The `socket.on` handlers: the three patient events, and nothing else, change the list. */
  function Apply(list: seq<Patient>, e: Event): (r: seq<Patient>)
    ensures !(e.NewPatient? || e.UpdatePatient? || e.RemovePatient?) ==> r == list
    ensures e.NewPatient? ==> |r| == |list| + 1 && r[|list|] == e.patient
    ensures e.UpdatePatient? ==> |r| == |list|
    ensures e.RemovePatient? ==> forall q :: q in r <==> q in list && q.id != e.patientId
  {
    match e
    case NewPatient(p) => Append(list, p)
    case UpdatePatient(p) => ReplaceKey(list, PatientKey, p)
    case RemovePatient(id) => RemoveKey(list, PatientKey, id)
    case _ => list
  }

  function ApplyAll(list: seq<Patient>, events: seq<Event>): seq<Patient>
    decreases |events|
  {
    if events == [] then list else ApplyAll(Apply(list, events[0]), events[1..])
  }

  /** A list that mirrors the store still mirrors it after any event the server emits. */
  lemma TracksStore(list: seq<Patient>, store: map<Id, Patient>, e: Event, store': map<Id, Patient>)
    requires Keyed(store) && ListsStore(list, store) && PatientStep(store, e, store')
    ensures Keyed(store') && ListsStore(Apply(list, e), store')
  {
    match e
    case NewPatient(p) => AppendListsStore(list, store, p);
    case UpdatePatient(p) => ReplaceListsStore(list, store, p);
    case RemovePatient(id) => RemoveListsStore(list, store, id);
    case _ =>
  }

  /** Replaying the server's event log keeps the list equal to the store, however long the log. */
  lemma {:induction false} TracksLog(list: seq<Patient>, stores: seq<map<Id, Patient>>, events: seq<Event>)
    requires Replays(stores, events) && Keyed(stores[0]) && ListsStore(list, stores[0])
    ensures ListsStore(ApplyAll(list, events), stores[|events|])
    decreases |events|
  {
    if events != [] {
      TracksStore(list, stores[0], events[0], stores[1]);
      assert Replays(stores[1..], events[1..]);
      TracksLog(Apply(list, events[0]), stores[1..], events[1..]);
    }
  }

  // ---------------------------------------------------------------- search and filter

  /** `toLowerCase` on the letters A to Z. */
  function LowerChar(c: char): (r: char)
    ensures 'A' <= c <= 'Z' ==> 'a' <= r <= 'z' && r as int - c as int == 32
    ensures !('A' <= c <= 'Z') ==> r == c
  {
    if 'A' <= c <= 'Z' then (c as int + 32) as char else c
  }

  function Lower(s: string): (r: string)
    ensures |r| == |s| && forall i :: 0 <= i < |s| ==> r[i] == LowerChar(s[i])
  {
    seq(|s|, i requires 0 <= i < |s| => LowerChar(s[i]))
  }

  predicate StartsWith(s: string, prefix: string)
  {
    |prefix| <= |s| && s[..|prefix|] == prefix
  }

  /** `s.includes(sub)`: `sub` starts at some position of `s`. */
  predicate Includes(s: string, sub: string)
    ensures |sub| > |s| ==> !Includes(s, sub)
    ensures s == sub ==> Includes(s, sub)
    decreases |s|
  {
    StartsWith(s, sub) || (s != [] && Includes(s[1..], sub))
  }

  /** `sub` occurs in `s` starting at position `i`. */
  predicate OccursAt(s: string, sub: string, i: int)
  {
    0 <= i <= |s| - |sub| && s[i..i + |sub|] == sub
  }

  /** `Includes` agrees with the occurrence of `sub` as a contiguous slice of `s`. */
  lemma {:induction false} IncludesIff(s: string, sub: string)
    ensures Includes(s, sub) <==> exists i :: OccursAt(s, sub, i)
    decreases |s|
  {
    if StartsWith(s, sub) {
      assert OccursAt(s, sub, 0);
    } else if s == [] {
      assert forall i :: !OccursAt(s, sub, i);
    } else {
      IncludesIff(s[1..], sub);
      if Includes(s[1..], sub) {
        var i :| OccursAt(s[1..], sub, i);
        assert s[i + 1..i + 1 + |sub|] == s[1..][i..i + |sub|];
        assert OccursAt(s, sub, i + 1);
      }
      if i :| OccursAt(s, sub, i) {
        assert i != 0;
        assert s[1..][i - 1..i - 1 + |sub|] == s[i..i + |sub|];
        assert OccursAt(s[1..], sub, i - 1);
      }
    }
  }

  /** An empty query occurs in every name. */
  lemma IncludesEmpty(s: string)
    ensures Includes(s, "")
  {
    assert StartsWith(s, "");
  }

  /** The entries the two filters let through: the selected cubicle, and the query in the name. */
  predicate Matches(selected: string, query: string, p: Patient)
  {
    (selected == SelectAll || p.cubicle == selected) && Includes(Lower(p.name), Lower(query))
  }

  predicate SortedByCreated(s: seq<Patient>)
  {
    forall i, j :: 0 <= i < j < |s| ==> s[i].createdAt <= s[j].createdAt
  }

  /** Puts `p` before the first entry that is not older than it. */
  function Insert(p: Patient, s: seq<Patient>): (r: seq<Patient>)
    requires SortedByCreated(s)
    ensures |r| == |s| + 1
    ensures forall q :: q in r <==> q == p || q in s
    ensures SortedByCreated(r)
  {
    if s == [] || p.createdAt <= s[0].createdAt then [p] + s
    else
      assert SortedByCreated(s[1..]);
      var t := Insert(p, s[1..]);
      assert forall q :: q in t ==> s[0].createdAt <= q.createdAt;
      [s[0]] + t
  }

  lemma {:induction false} InsertMultiset(p: Patient, s: seq<Patient>)
    requires SortedByCreated(s)
    ensures multiset(Insert(p, s)) == multiset(s) + multiset{p}
    decreases |s|
  {
    if s != [] && p.createdAt > s[0].createdAt {
      assert SortedByCreated(s[1..]);
      InsertMultiset(p, s[1..]);
      assert s == [s[0]] + s[1..];
    }
  }

  /** `sort((a, b) => a.createdAt - b.createdAt)`, as an insertion sort. */
  function SortByCreated(s: seq<Patient>): (r: seq<Patient>)
    ensures |r| == |s|
    ensures forall q :: q in r <==> q in s
    ensures SortedByCreated(r)
  {
    if s == [] then [] else Insert(s[0], SortByCreated(s[1..]))
  }

  lemma {:induction false} SortMultiset(s: seq<Patient>)
    ensures multiset(SortByCreated(s)) == multiset(s)
  {
    if s != [] {
      SortMultiset(s[1..]);
      InsertMultiset(s[0], SortByCreated(s[1..]));
      assert s == [s[0]] + s[1..];
    }
  }

  /** The rows the dashboard shows: filtered by cubicle, then by name, then oldest first. */
  function FilteredPatients(list: seq<Patient>, selected: string, query: string): (r: seq<Patient>)
    ensures forall q :: q in r <==> q in list && Matches(selected, query, q)
    ensures SortedByCreated(r)
  {
    var byCubicle := Filter(list, (p: Patient) => selected == SelectAll || p.cubicle == selected);
    SortByCreated(Filter(byCubicle, (p: Patient) => Includes(Lower(p.name), Lower(query))))
  }

  /** The rows are a permutation of the matching entries: each kept as often as it occurs. */
  lemma FilteredPermutation(list: seq<Patient>, selected: string, query: string)
    ensures forall q :: multiset(FilteredPatients(list, selected, query))[q] ==
                        if Matches(selected, query, q) then multiset(list)[q] else 0
  {
    var cubicleKeep := (p: Patient) => selected == SelectAll || p.cubicle == selected;
    var nameKeep := (p: Patient) => Includes(Lower(p.name), Lower(query));
    var byCubicle := Filter(list, cubicleKeep);
    var byName := Filter(byCubicle, nameKeep);
    FilterMultiset(list, cubicleKeep);
    FilterMultiset(byCubicle, nameKeep);
    SortMultiset(byName);
    assert FilteredPatients(list, selected, query) == SortByCreated(byName);
  }

  /** With "All" selected and an empty query nothing is dropped. */
  lemma ShowAll(list: seq<Patient>)
    ensures multiset(FilteredPatients(list, SelectAll, "")) == multiset(list)
  {
    FilteredPermutation(list, SelectAll, "");
    forall q ensures Matches(SelectAll, "", q) {
      IncludesEmpty(Lower(q.name));
    }
    assert forall q :: multiset(FilteredPatients(list, SelectAll, ""))[q] == multiset(list)[q];
  }

  /** Two sorted arrangements of the same entries with distinct `createdAt` start alike. */
  lemma SortedHeads(a: seq<Patient>, b: seq<Patient>)
    requires a != [] && SortedByCreated(a) && SortedByCreated(b) && multiset(a) == multiset(b)
    requires forall i, j :: 0 <= i < j < |a| ==> a[i].createdAt != a[j].createdAt
    ensures b != [] && a[0] == b[0]
  {
    assert a[0] in multiset(b);
    assert b[0] in multiset(a);
    var i :| 0 <= i < |b| && b[i] == a[0];
    var j :| 0 <= j < |a| && a[j] == b[0];
    assert b[0].createdAt <= a[0].createdAt <= b[0].createdAt;
    assert a[j].createdAt == a[0].createdAt;
    assert j == 0;
  }

  lemma TailsAlike(a: seq<Patient>, b: seq<Patient>)
    requires a != [] && b != [] && a[0] == b[0] && multiset(a) == multiset(b)
    ensures multiset(a[1..]) == multiset(b[1..])
  {
    assert a == [a[0]] + a[1..] && b == [b[0]] + b[1..];
    assert multiset(a[1..]) == multiset(a) - multiset{a[0]};
    assert multiset(b[1..]) == multiset(b) - multiset{b[0]};
  }

  /** Over a list with distinct `createdAt`, the rows are the only sorted order of the matches. */
  lemma {:induction false} SortedIsUnique(a: seq<Patient>, b: seq<Patient>)
    requires SortedByCreated(a) && SortedByCreated(b) && multiset(a) == multiset(b)
    requires forall i, j :: 0 <= i < j < |a| ==> a[i].createdAt != a[j].createdAt
    ensures a == b
    decreases |a|
  {
    if a == [] {
      assert |b| == |multiset(b)| == 0;
    } else {
      SortedHeads(a, b);
      TailsAlike(a, b);
      assert SortedByCreated(a[1..]) && SortedByCreated(b[1..]);
      SortedIsUnique(a[1..], b[1..]);
      assert a == [a[0]] + a[1..] && b == [b[0]] + b[1..];
    }
  }

  // ---------------------------------------------------------------- editing

  /** The edit form's state. */
  datatype EditData = EditData(name: string, priority: string, cubicle: string)

  /** The row's Edit button copies the record's three editable fields into the form. */
  function StartEdit(p: Patient): (d: EditData)
    ensures d.name == p.name && d.priority == p.priority && d.cubicle == p.cubicle
  {
    EditData(p.name, p.priority, p.cubicle)
  }

  datatype EditField = NameField | PriorityField | CubicleField

  /** `handleEditChange`: one field takes the input's value, the others are kept. */
  function EditChange(d: EditData, field: EditField, value: string): (r: EditData)
    ensures r.name == (if field == NameField then value else d.name)
    ensures r.priority == (if field == PriorityField then value else d.priority)
    ensures r.cubicle == (if field == CubicleField then value else d.cubicle)
  {
    match field
    case NameField => d.(name := value)
    case PriorityField => d.(priority := value)
    case CubicleField => d.(cubicle := value)
  }

  /** The `PUT` request of `saveEdit`: nothing without a row being edited, and never a status. */
  function SaveEdit(editing: Option<Patient>, d: EditData): (r: Option<(Id, PatientUpdate)>)
    ensures r.None? <==> editing.None?
    ensures r.Some? ==> r.value.0 == editing.value.id && r.value.1.status.None?
    ensures r.Some? ==> r.value.1.name == Some(d.name) && r.value.1.priority == Some(d.priority) &&
                        r.value.1.cubicle == Some(d.cubicle)
  {
    match editing
    case None => None
    case Some(p) => Some((p.id, PatientUpdate(Some(d.name), Some(d.priority), Some(d.cubicle), None)))
  }

  /** Saving an edit keeps the record's id, status and arrival time and writes the form's fields. */
  lemma SaveEditKeepsStatus(p: Patient, d: EditData)
    ensures var u := SaveEdit(Some(p), d).value.1;
            ApplyUpdate(p, u) == Patient(p.id, d.name, d.priority, d.cubicle, p.status, p.createdAt)
  {
  }

  /** Saving an untouched form leaves the record as it was. */
  lemma UntouchedEditIsIdentity(p: Patient)
    ensures ApplyUpdate(p, SaveEdit(Some(p), StartEdit(p)).value.1) == p
  {
  }

  /** The selects offer exactly the schema's values, so an edit made through them stays in the schema. */
  lemma SelectsMatchSchema(d: EditData, field: EditField, value: string)
    requires d.priority in Priorities && d.cubicle in Cubicles
    requires field == PriorityField ==> value in NursePriorities
    requires field == CubicleField ==> value in NurseCubicles
    ensures var r := EditChange(d, field, value); r.priority in Priorities && r.cubicle in Cubicles
  {
  }
}
