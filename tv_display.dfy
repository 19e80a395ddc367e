/**
 * The public TV board: the fetched queue grouped by cubicle into at most
 * three entries each, the cubicles shown in the catalog's fixed order, and
 * the pass that decides whether the alert sound plays.
 */
module TvDisplay {
  import opened Records
  import opened Lists

  /** The group of a patient with no cubicle. */
  const Unassigned: string := "Unassigned"
  /** The most entries a group keeps. */
  const GroupCap: nat := 3
  /** The board's layout order; not the schema's order. */
  const CubicleOrder: seq<string> :=
    ["Cubicle 1", "Cubicle 2", "Cubicle 3", "Cubicle 4", "Cubicle 5", "MCC", "MESRU", "MENTAL", "DENTAL"]

  /** `patient.cubicle || "Unassigned"`. */
  function GroupKey(p: Patient): string
  {
    if p.cubicle == "" then Unassigned else p.cubicle
  }

  /**
   * Every record lands in a named group: its own cubicle when it has one, and
   * "Unassigned" for a blank cubicle (or one literally called so).
   */
  lemma GroupKeyNames(p: Patient)
    ensures GroupKey(p) != ""
    ensures p.cubicle != "" ==> GroupKey(p) == p.cubicle
    ensures GroupKey(p) == Unassigned <==> p.cubicle == "" || p.cubicle == Unassigned
  {
  }

  /** The patients of group `c`, in queue order. */
  function OfGroup(queue: seq<Patient>, c: string): (r: seq<Patient>)
    ensures forall p :: p in r <==> p in queue && GroupKey(p) == c
  {
    Filter(queue, p => GroupKey(p) == c)
  }

  /**
   * What the board keeps for group `c`: the last `GroupCap` patients of `c`
   * in queue order, the last one first.
   */
  function Board(queue: seq<Patient>, c: string): seq<Patient>
  {
    Take(Reverse(OfGroup(queue, c)), GroupCap)
  }

  /** A group is the last min(3, n) of its n patients in queue order, reversed. */
  lemma BoardShape(queue: seq<Patient>, c: string)
    ensures |Board(queue, c)| == Min(GroupCap, |OfGroup(queue, c)|)
    ensures forall i :: 0 <= i < |Board(queue, c)| ==>
      Board(queue, c)[i] == OfGroup(queue, c)[|OfGroup(queue, c)| - 1 - i]
  {
  }

  /** Nothing is invented or moved across cubicles. */
  lemma BoardMembers(queue: seq<Patient>, c: string)
    ensures forall p :: p in Board(queue, c) ==> p in queue && GroupKey(p) == c
  {
    var f, b := OfGroup(queue, c), Board(queue, c);
    BoardShape(queue, c);
    forall p | p in b ensures p in f {
      var i :| 0 <= i < |b| && b[i] == p;
      assert p == f[|f| - 1 - i];
    }
  }

  lemma OfGroupSnoc(s: seq<Patient>, p: Patient, c: string)
    ensures OfGroup(s + [p], c) == OfGroup(s, c) + (if GroupKey(p) == c then [p] else [])
  {
    FilterConcat(s, [p], q => GroupKey(q) == c);
    assert [p][1..] == [];
  }

  /** One step of the reduce: `unshift` into the group, then `slice(0, 3)`. */
  lemma BoardSnoc(s: seq<Patient>, p: Patient, c: string)
    ensures Board(s + [p], c) == if GroupKey(p) == c then Take([p] + Board(s, c), GroupCap) else Board(s, c)
  {
    var f := OfGroup(s, c);
    OfGroupSnoc(s, p, c);
    if GroupKey(p) == c {
      calc {
        Board(s + [p], c);
        Take(Reverse(f + [p]), GroupCap);
        { ReverseSnoc(f, p); }
        Take([p] + Reverse(f), GroupCap);
        { TakeCons(p, Reverse(f), GroupCap); }
        Take([p] + Board(s, c), GroupCap);
      }
    } else {
      assert OfGroup(s + [p], c) == f + [];
      assert f + [] == f;
    }
  }

  /** `groups` is the board of the queue prefix `s`: one non-empty group per key that occurs. */
  ghost predicate GroupsOf(groups: map<string, seq<Patient>>, s: seq<Patient>)
  {
    && (forall c :: c in groups <==> OfGroup(s, c) != [])
    && (forall c :: c in groups ==> groups[c] == Board(s, c))
  }

  /** The group a key has so far (`acc[cubicle] || []`). */
  function GroupOr(groups: map<string, seq<Patient>>, c: string): seq<Patient>
  {
    if c in groups then groups[c] else []
  }

  /** One step of the reduce: `unshift` the patient into its group, then keep the first three. */
  function AddToGroups(groups: map<string, seq<Patient>>, p: Patient): (r: map<string, seq<Patient>>)
  {
    groups[GroupKey(p) := Take([p] + GroupOr(groups, GroupKey(p)), GroupCap)]
  }

  /**
   * One step changes only the patient's own group: that group gains the key
   * if it was missing, now starts with the patient, holds at most three, and
   * continues with the old group's first entries.
   */
  lemma AddToGroupsShape(groups: map<string, seq<Patient>>, p: Patient)
    ensures AddToGroups(groups, p).Keys == groups.Keys + {GroupKey(p)}
    ensures forall c :: c in groups && c != GroupKey(p) ==> AddToGroups(groups, p)[c] == groups[c]
    ensures var g := AddToGroups(groups, p)[GroupKey(p)];
      && 0 < |g| <= GroupCap && g[0] == p
      && |g| - 1 <= |GroupOr(groups, GroupKey(p))|
      && g[1..] == GroupOr(groups, GroupKey(p))[..|g| - 1]
  {
    var old_g := GroupOr(groups, GroupKey(p));
    var g := AddToGroups(groups, p)[GroupKey(p)];
    assert g == Take([p] + old_g, GroupCap);
    assert g[1..] == ([p] + old_g)[1..|g|];
  }

  /** After the step a key has a group exactly when it occurs in the longer prefix. */
  lemma StepKeys(groups: map<string, seq<Patient>>, s: seq<Patient>, p: Patient)
    requires forall c :: c in groups <==> OfGroup(s, c) != []
    ensures forall c :: c in AddToGroups(groups, p) <==> OfGroup(s + [p], c) != []
  {
    forall k ensures k in AddToGroups(groups, p) <==> OfGroup(s + [p], k) != [] {
      OfGroupSnoc(s, p, k);
      if k == GroupKey(p) {
        assert p in OfGroup(s + [p], k);
      }
    }
  }

  /** After the step every group is the board of the longer prefix. */
  lemma StepBoards(groups: map<string, seq<Patient>>, s: seq<Patient>, p: Patient)
    requires GroupsOf(groups, s)
    ensures forall c :: c in AddToGroups(groups, p) ==> AddToGroups(groups, p)[c] == Board(s + [p], c)
  {
    var groups' := AddToGroups(groups, p);
    forall k | k in groups' ensures groups'[k] == Board(s + [p], k) {
      BoardSnoc(s, p, k);
      if k == GroupKey(p) && k !in groups {
        OfGroupSnoc(s, p, k);
      }
    }
  }

  lemma GroupStep(groups: map<string, seq<Patient>>, s: seq<Patient>, p: Patient)
    requires GroupsOf(groups, s)
    ensures GroupsOf(AddToGroups(groups, p), s + [p])
  {
    StepKeys(groups, s, p);
    StepBoards(groups, s, p);
  }

  /** The accumulator after the reduce has visited `s`. */
  function Reduced(s: seq<Patient>): map<string, seq<Patient>>
  {
    if s == [] then map[] else AddToGroups(Reduced(s[..|s| - 1]), s[|s| - 1])
  }

  /** The accumulator holds one non-empty group per key that occurs, and that group is its board. */
  lemma {:induction false} ReducedIsBoards(s: seq<Patient>)
    ensures GroupsOf(Reduced(s), s)
  {
    if s != [] {
      var t, p := s[..|s| - 1], s[|s| - 1];
      assert Reduced(s) == AddToGroups(Reduced(t), p);
      ReducedIsBoards(t);
      GroupStep(Reduced(t), t, p);
      assert t + [p] == s;
    }
  }

  /** `queue.reduce(...)` building `groupedQueue`. */
  method GroupQueue(queue: seq<Patient>) returns (groups: map<string, seq<Patient>>)
    ensures forall c :: c in groups <==> OfGroup(queue, c) != []
    ensures forall c :: c in groups ==> groups[c] == Board(queue, c)
  {
    groups := map[];
    for i := 0 to |queue|
      invariant groups == Reduced(queue[..i])
    {
      var p := queue[i];
      var c := GroupKey(p);
      var g := if c in groups then groups[c] else [];
      g := [p] + g;
      if |g| > GroupCap {
        g := g[..GroupCap];
      }
      assert queue[..i + 1][..i] == queue[..i];
      groups := groups[c := g];
    }
    assert queue[..|queue|] == queue;
    ReducedIsBoards(queue);
  }

  predicate Shown(groups: map<string, seq<Patient>>, c: string)
  {
    c in groups && |groups[c]| > 0
  }

  /** The catalog entries of `order` whose group is non-empty, in `order`'s order. */
  function ShownIn(order: seq<string>, groups: map<string, seq<Patient>>): (r: seq<string>)
    requires Distinct(order)
    ensures forall c :: c in r <==> c in order && Shown(groups, c)
    ensures forall i, j :: 0 <= i < j < |r| ==> IndexOf(order, r[i]) < IndexOf(order, r[j])
  {
    if order == [] then []
    else
      var rest := ShownIn(order[1..], groups);
      IndexOfTail(order, rest);
      (if Shown(groups, order[0]) then [order[0]] else []) + rest
  }

  /** Positions in a distinct sequence shift by one when its head is dropped. */
  lemma IndexOfTail(order: seq<string>, rest: seq<string>)
    requires order != [] && Distinct(order)
    requires forall c :: c in rest ==> c in order[1..]
    ensures forall c :: c in rest ==> c in order && IndexOf(order, c) == 1 + IndexOf(order[1..], c)
  {
    forall c | c in rest ensures c in order && IndexOf(order, c) == 1 + IndexOf(order[1..], c) {
      var k :| 0 <= k < |order[1..]| && order[1..][k] == c;
      assert order[k + 1] == c;
    }
  }

  /** `cubiclesWithPatients`. */
  function DisplayedCubicles(groups: map<string, seq<Patient>>): (r: seq<string>)
    ensures forall c :: c in r <==> c in CubicleOrder && Shown(groups, c)
    ensures forall i, j :: 0 <= i < j < |r| ==> IndexOf(CubicleOrder, r[i]) < IndexOf(CubicleOrder, r[j])
    ensures Unassigned !in r
  {
    ShownIn(CubicleOrder, groups)
  }

  /** The name on the first row of a shown group. */
  function FirstName(groups: map<string, seq<Patient>>, c: string): string
    requires Shown(groups, c)
  {
    groups[c][0].name
  }

  /** A shown cubicle whose first row has a (non-empty) name. */
  predicate HasFirst(groups: map<string, seq<Patient>>, c: string)
  {
    Shown(groups, c) && FirstName(groups, c) != ""
  }

  /** A shown cubicle whose first name differs from the remembered one. */
  predicate Changed(groups: map<string, seq<Patient>>, previous: map<string, string>, c: string)
  {
    HasFirst(groups, c) && (c !in previous || previous[c] != FirstName(groups, c))
  }

  /**
   * `remembered` is `previous` with the first name of every cubicle of
   * `done` that has one.
   */
  ghost predicate RemembersFirst(groups: map<string, seq<Patient>>, previous: map<string, string>,
                                 done: seq<string>, remembered: map<string, string>)
  {
    && (forall c :: c in done && HasFirst(groups, c) ==> c in remembered && remembered[c] == FirstName(groups, c))
    && (forall c :: !(c in done && HasFirst(groups, c)) ==>
          (c in remembered <==> c in previous) && (c in previous ==> remembered[c] == previous[c]))
  }

  lemma RemembersStep(groups: map<string, seq<Patient>>, previous: map<string, string>,
                      done: seq<string>, c: string, remembered: map<string, string>)
    requires RemembersFirst(groups, previous, done, remembered)
    ensures HasFirst(groups, c) ==>
      RemembersFirst(groups, previous, done + [c], remembered[c := FirstName(groups, c)])
    ensures !Changed(groups, previous, c) ==> RemembersFirst(groups, previous, done + [c], remembered)
  {
  }

  /**
   * The `forEach` over the shown cubicles: `previous` is the remembered first
   * name per cubicle as the render saw it, `remembered` the value after the
   * queued updates, `alert` whether the sound plays.
   */
  method AlertPass(groups: map<string, seq<Patient>>, shown: seq<string>, previous: map<string, string>)
    returns (alert: bool, remembered: map<string, string>)
    requires forall i :: 0 <= i < |shown| ==> Shown(groups, shown[i])
    ensures alert <==> exists c :: c in shown && Changed(groups, previous, c)
    ensures RemembersFirst(groups, previous, shown, remembered)
  {
    alert, remembered := false, previous;
    for i := 0 to |shown|
      invariant alert <==> exists j :: 0 <= j < i && Changed(groups, previous, shown[j])
      invariant RemembersFirst(groups, previous, shown[..i], remembered)
    {
      var c := shown[i];
      assert shown[..i + 1] == shown[..i] + [c];
      RemembersStep(groups, previous, shown[..i], c, remembered);
      var first := groups[c][0].name;
      if first != "" && (c !in previous || previous[c] != first) {
        alert := true;
        remembered := remembered[c := first];
      }
    }
    assert shown[..|shown|] == shown;
    assert alert ==> exists c :: c in shown && Changed(groups, previous, c);
  }

  /** The change-detection effect, run over `cubiclesWithPatients`. */
  method AlertEffect(groups: map<string, seq<Patient>>, previous: map<string, string>)
    returns (alert: bool, remembered: map<string, string>)
    ensures alert <==> exists c :: c in DisplayedCubicles(groups) && Changed(groups, previous, c)
    ensures RemembersFirst(groups, previous, DisplayedCubicles(groups), remembered)
  {
    var shown := DisplayedCubicles(groups);
    assert forall i :: 0 <= i < |shown| ==> Shown(groups, shown[i]) by {
      assert forall i :: 0 <= i < |shown| ==> shown[i] in shown;
    }
    alert, remembered := AlertPass(groups, shown, previous);
  }

  /** No group holds more than three patients. */
  lemma BoardCapped(queue: seq<Patient>, c: string)
    ensures |Board(queue, c)| <= GroupCap
  {
  }

  lemma OfGroupNewestFirst(queue: seq<Patient>, c: string)
    requires NewestFirst(queue)
    ensures NewestFirst(OfGroup(queue, c))
  {
    FilterNewestFirst(queue, p => GroupKey(p) == c);
  }

  /** Fed the newest-first queue, each group lists its patients oldest first. */
  lemma BoardOldestFirst(queue: seq<Patient>, c: string)
    requires NewestFirst(queue)
    ensures forall i, j :: 0 <= i < j < |Board(queue, c)| ==> Board(queue, c)[i].createdAt < Board(queue, c)[j].createdAt
  {
    var f, b := OfGroup(queue, c), Board(queue, c);
    BoardShape(queue, c);
    OfGroupNewestFirst(queue, c);
    forall i, j | 0 <= i < j < |b| ensures b[i].createdAt < b[j].createdAt {
      assert b[i] == f[|f| - 1 - i] && b[j] == f[|f| - 1 - j];
    }
  }

  /**
   * Fed the newest-first queue, each group holds its earliest-created
   * patients: the patients of the cubicle that the group drops (the first
   * n - |group| in queue order) are all newer than every patient it keeps.
   */
  lemma BoardKeepsEarliest(queue: seq<Patient>, c: string)
    requires NewestFirst(queue)
    ensures forall i, k :: 0 <= i < |Board(queue, c)| && 0 <= k < |OfGroup(queue, c)| - |Board(queue, c)| ==>
      Board(queue, c)[i].createdAt < OfGroup(queue, c)[k].createdAt
  {
    var f, b := OfGroup(queue, c), Board(queue, c);
    BoardShape(queue, c);
    OfGroupNewestFirst(queue, c);
    forall i, k | 0 <= i < |b| && 0 <= k < |f| - |b| ensures b[i].createdAt < f[k].createdAt {
      assert b[i] == f[|f| - 1 - i];
    }
  }
}
