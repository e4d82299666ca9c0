/** `POST /assignments`: an admin asks for every respondent to evaluate
    every target with one template for one month; the backend creates a
    PENDING assignment for each pair not yet planned.

    The existence check runs in a session that does not flush pending
    inserts before a query; they reach the store only at the commit that
    ends the request. So the check only sees the assignments stored before
    the request: the planner below checks every pair against that
    snapshot. */
module Assignments {
  import opened Domain
  import Seqs

  /** The request body: template, respondent ids, optional target ids, month. */
  datatype AssignmentRequest = AssignmentRequest(
    templateId: string,
    respondentIds: seq<string>,
    targetIds: Option<seq<string>>,
    month: string)

  /** The stored assignments after the call, and the `count` it returns. */
  datatype Created = Created(assignments: seq<Assignment>, count: nat)

  /** True when the request names at least one target. */
  predicate HasTargets(targetIds: Option<seq<string>>) {
    targetIds.Some? && |targetIds.value| > 0
  }

  /** The per-respondent target loop: the given ids, or one absent target
      when the request names none. */
  function Targets(targetIds: Option<seq<string>>): seq<Option<string>> {
    if HasTargets(targetIds) then seq(|targetIds.value|, i requires 0 <= i < |targetIds.value| => Some(targetIds.value[i]))
    else [None]
  }

  /** A target the backend treats as missing: absent, or the empty string. */
  predicate Falsy(t: Option<string>) {
    t.None? || t.value == ""
  }

  /** A missing target means self-evaluation: the respondent is the target. */
  function FinalTarget(respondent: string, t: Option<string>): string {
    if Falsy(t) then respondent else t.value
  }

  /** The pairs one respondent contributes, in loop order. */
  function Row(respondent: string, ts: seq<Option<string>>): seq<(string, string)> {
    seq(|ts|, j requires 0 <= j < |ts| => (respondent, FinalTarget(respondent, ts[j])))
  }

  /** The candidate (respondent, target) pairs in the order the nested loop
      visits them. */
  function Pairs(rs: seq<string>, ts: seq<Option<string>>): seq<(string, string)>
    decreases |rs|
  {
    if rs == [] then [] else Row(rs[0], ts) + Pairs(rs[1..], ts)
  }

  lemma RowSound(respondent: string, ts: seq<Option<string>>)
    ensures |Row(respondent, ts)| == |ts|
    ensures forall t :: t in ts ==> (respondent, FinalTarget(respondent, t)) in Row(respondent, ts)
    ensures forall p :: p in Row(respondent, ts) ==>
      p.0 == respondent && exists t :: t in ts && p.1 == FinalTarget(respondent, t)
  {
    var row := Row(respondent, ts);
    forall t | t in ts
      ensures (respondent, FinalTarget(respondent, t)) in row
    {
      var j :| 0 <= j < |ts| && ts[j] == t;
      assert row[j] == (respondent, FinalTarget(respondent, t));
    }
  }

  /** The candidates are the Cartesian product of respondents and final
      targets, one entry per loop iteration. */
  lemma {:induction false} PairsSound(rs: seq<string>, ts: seq<Option<string>>)
    ensures |Pairs(rs, ts)| == |rs| * |ts|
    ensures forall r, t :: r in rs && t in ts ==> (r, FinalTarget(r, t)) in Pairs(rs, ts)
    ensures forall p :: p in Pairs(rs, ts) ==> p.0 in rs && exists t :: t in ts && p.1 == FinalTarget(p.0, t)
    decreases |rs|
  {
    if rs != [] {
      PairsSound(rs[1..], ts);
      RowSound(rs[0], ts);
      assert |rs| * |ts| == |ts| + (|rs| - 1) * |ts|;
      assert forall r :: r in rs ==> r == rs[0] || r in rs[1..];
      assert forall r :: r in rs[1..] ==> r in rs;
    }
  }

  function KeyFor(templateId: string, month: string, p: (string, string)): Key {
    Key(templateId, p.0, p.1, month)
  }

  /** The assignments the loop adds, checking each pair against the
      pre-request snapshot only. The k-th new assignment gets id `mint(k)`. */
  function Planned(snapshot: set<Key>, templateId: string, month: string, assigner: string,
                   ps: seq<(string, string)>, mint: nat -> string, k: nat): seq<Assignment>
    decreases |ps|
  {
    if ps == [] then []
    else if KeyFor(templateId, month, ps[0]) in snapshot then
      Planned(snapshot, templateId, month, assigner, ps[1..], mint, k)
    else
      [Assignment(mint(k), templateId, assigner, ps[0].0, ps[0].1, month, Pending)]
      + Planned(snapshot, templateId, month, assigner, ps[1..], mint, k + 1)
  }

  /** What the loop adds: PENDING assignments for the request's template,
      month and assigner, one per candidate pair whose key the snapshot
      lacks, and only those. */
  lemma {:induction false} PlannedSound(snapshot: set<Key>, templateId: string, month: string, assigner: string,
                                        ps: seq<(string, string)>, mint: nat -> string, k: nat)
    ensures var added := Planned(snapshot, templateId, month, assigner, ps, mint, k);
      && |added| <= |ps|
      && (forall a :: a in added ==>
            && a.templateId == templateId && a.month == month
            && a.assignerId == assigner && a.status == Pending
            && (a.respondentId, a.targetId) in ps
            && KeyOf(a) !in snapshot)
      && (forall p :: p in ps && KeyFor(templateId, month, p) !in snapshot ==>
            KeyFor(templateId, month, p) in KeySet(added))
    decreases |ps|
  {
    if ps != [] {
      var key := KeyFor(templateId, month, ps[0]);
      if key in snapshot {
        PlannedSound(snapshot, templateId, month, assigner, ps[1..], mint, k);
      } else {
        PlannedSound(snapshot, templateId, month, assigner, ps[1..], mint, k + 1);
        var a := Assignment(mint(k), templateId, assigner, ps[0].0, ps[0].1, month, Pending);
        var rest := Planned(snapshot, templateId, month, assigner, ps[1..], mint, k + 1);
        KeySetAppend([a], rest);
        assert KeyOf(a) == key;
        assert KeySet([a]) == {key};
      }
    }
  }

  /** The candidate pairs whose key the snapshot lacks, each occurrence kept
      and in loop order. */
  function Missing(snapshot: set<Key>, templateId: string, month: string,
                   ps: seq<(string, string)>): seq<(string, string)>
    decreases |ps|
  {
    if ps == [] then []
    else (if KeyFor(templateId, month, ps[0]) in snapshot then [] else [ps[0]])
         + Missing(snapshot, templateId, month, ps[1..])
  }

  /** `Missing` is the query filter "key not in the snapshot" applied to
      the candidates. */
  lemma {:induction false} MissingIsFilter(snapshot: set<Key>, templateId: string, month: string,
                                           ps: seq<(string, string)>)
    ensures Missing(snapshot, templateId, month, ps)
         == Seqs.Filter(ps, (p: (string, string)) => KeyFor(templateId, month, p) !in snapshot)
    decreases |ps|
  {
    if ps != [] {
      MissingIsFilter(snapshot, templateId, month, ps[1..]);
    }
  }

  /** The loop adds exactly one row per loop iteration whose key the
      snapshot lacks, repeats included: the i-th row added is the i-th such
      pair, with the i-th id minted. */
  lemma {:induction false} PlannedIsMissing(snapshot: set<Key>, templateId: string, month: string, assigner: string,
                                            ps: seq<(string, string)>, mint: nat -> string, k: nat)
    ensures var added := Planned(snapshot, templateId, month, assigner, ps, mint, k);
            var q := Missing(snapshot, templateId, month, ps);
            && |added| == |q|
            && forall i :: 0 <= i < |q| ==>
                 added[i] == Assignment(mint(k + i), templateId, assigner, q[i].0, q[i].1, month, Pending)
    decreases |ps|
  {
    if ps != [] {
      var key := KeyFor(templateId, month, ps[0]);
      if key in snapshot {
        PlannedIsMissing(snapshot, templateId, month, assigner, ps[1..], mint, k);
      } else {
        PlannedIsMissing(snapshot, templateId, month, assigner, ps[1..], mint, k + 1);
        var a := Assignment(mint(k), templateId, assigner, ps[0].0, ps[0].1, month, Pending);
        var rest := Planned(snapshot, templateId, month, assigner, ps[1..], mint, k + 1);
        var q := Missing(snapshot, templateId, month, ps);
        var q' := Missing(snapshot, templateId, month, ps[1..]);
        assert Planned(snapshot, templateId, month, assigner, ps, mint, k) == [a] + rest;
        assert q == [ps[0]] + q';
        forall i | 0 <= i < |q|
          ensures ([a] + rest)[i] == Assignment(mint(k + i), templateId, assigner, q[i].0, q[i].1, month, Pending)
        {
          if i > 0 {
            assert q[i] == q'[i - 1];
            assert ([a] + rest)[i] == rest[i - 1];
            assert k + i == (k + 1) + (i - 1);
          }
        }
      }
    }
  }

  /** The rows the loop adds, placed after the stored ones. */
  lemma StoredAfter(existing: seq<Assignment>, templateId: string, month: string, assigner: string,
                    ps: seq<(string, string)>, mint: nat -> string)
    ensures var added := Planned(KeySet(existing), templateId, month, assigner, ps, mint, 0);
            var q := Missing(KeySet(existing), templateId, month, ps);
            && |added| == |q|
            && forall i :: 0 <= i < |q| ==>
                 (existing + added)[|existing| + i] == Assignment(mint(i), templateId, assigner, q[i].0, q[i].1, month, Pending)
  {
    var added := Planned(KeySet(existing), templateId, month, assigner, ps, mint, 0);
    PlannedIsMissing(KeySet(existing), templateId, month, assigner, ps, mint, 0);
    var q := Missing(KeySet(existing), templateId, month, ps);
    forall i | 0 <= i < |q|
      ensures (existing + added)[|existing| + i] == Assignment(mint(i), templateId, assigner, q[i].0, q[i].1, month, Pending)
    {
      assert (existing + added)[|existing| + i] == added[i];
      assert 0 + i == i;
    }
  }

  /** `create_assignments` as written. */
  function CreateAssignments(caller: User, req: AssignmentRequest, existing: seq<Assignment>,
                             mint: nat -> string): (r: Result<Created>)
    ensures caller.role != Admin <==> r == Err(Forbidden)
    ensures r.Ok? ==> existing <= r.value.assignments
    ensures r.Ok? ==> r.value.count == |r.value.assignments| - |existing|
    ensures r.Ok? ==> r.value.count <= |req.respondentIds| * (if HasTargets(req.targetIds) then |req.targetIds.value| else 1)
    ensures r.Ok? ==> forall a :: a in r.value.assignments[|existing|..] ==>
      && a.templateId == req.templateId && a.month == req.month
      && a.assignerId == caller.id && a.status == Pending
      && a.respondentId in req.respondentIds
      && exists t :: t in Targets(req.targetIds) && a.targetId == FinalTarget(a.respondentId, t)
    ensures r.Ok? && !HasTargets(req.targetIds) ==>
      forall a :: a in r.value.assignments[|existing|..] ==> a.targetId == a.respondentId
    ensures r.Ok? ==> forall rid, t :: rid in req.respondentIds && t in Targets(req.targetIds) ==>
      (Key(req.templateId, rid, FinalTarget(rid, t), req.month) in KeySet(r.value.assignments[|existing|..])
       <==> Key(req.templateId, rid, FinalTarget(rid, t), req.month) !in KeySet(existing))
    ensures r.Ok? ==>
      var q := Missing(KeySet(existing), req.templateId, req.month, Pairs(req.respondentIds, Targets(req.targetIds)));
      && r.value.count == |q|
      && forall i :: 0 <= i < |q| ==>
           r.value.assignments[|existing| + i]
           == Assignment(mint(i), req.templateId, caller.id, q[i].0, q[i].1, req.month, Pending)
  {
    if caller.role != Admin then Err(Forbidden)
    else
      var ts := Targets(req.targetIds);
      var ps := Pairs(req.respondentIds, ts);
      var added := Planned(KeySet(existing), req.templateId, req.month, caller.id, ps, mint, 0);
      PairsSound(req.respondentIds, ts);
      PlannedSound(KeySet(existing), req.templateId, req.month, caller.id, ps, mint, 0);
      var all := existing + added;
      assert all[|existing|..] == added;
      StoredAfter(existing, req.templateId, req.month, caller.id, ps, mint);
      assert forall x :: x in KeySet(added) ==> x !in KeySet(existing);
      Ok(Created(all, |added|))
  }

  lemma {:induction false} PlannedNothingWhenAllStored(snapshot: set<Key>, templateId: string, month: string,
                                                       assigner: string, ps: seq<(string, string)>,
                                                       mint: nat -> string, k: nat)
    requires forall p :: p in ps ==> KeyFor(templateId, month, p) in snapshot
    ensures Planned(snapshot, templateId, month, assigner, ps, mint, k) == []
    decreases |ps|
  {
    if ps != [] {
      assert ps[0] in ps;
      PlannedNothingWhenAllStored(snapshot, templateId, month, assigner, ps[1..], mint, k);
    }
  }

  /** Re-sending the same request against the state it produced creates
      nothing and leaves the stored assignments as they are. */
  lemma CreateIsIdempotent(caller: User, req: AssignmentRequest, existing: seq<Assignment>,
                           mint: nat -> string, mint': nat -> string)
    requires caller.role == Admin
    ensures var first := CreateAssignments(caller, req, existing, mint).value.assignments;
            CreateAssignments(caller, req, first, mint') == Ok(Created(first, 0))
  {
    var first := CreateAssignments(caller, req, existing, mint).value.assignments;
    var ps := Pairs(req.respondentIds, Targets(req.targetIds));
    PairsSound(req.respondentIds, Targets(req.targetIds));
    KeySetAppend(existing, first[|existing|..]);
    assert existing + first[|existing|..] == first;
    forall p | p in ps
      ensures KeyFor(req.templateId, req.month, p) in KeySet(first)
    {
      var t :| t in Targets(req.targetIds) && p.1 == FinalTarget(p.0, t);
    }
    var again := Planned(KeySet(first), req.templateId, req.month, caller.id, ps, mint', 0);
    PlannedNothingWhenAllStored(KeySet(first), req.templateId, req.month, caller.id, ps, mint', 0);
    assert first + again == first;
  }

  /** With no target ids, or with an empty-string target id, every
      respondent ends up with a self-evaluation for the template and month. */
  lemma SelfEvaluationFallback(caller: User, req: AssignmentRequest, existing: seq<Assignment>,
                               mint: nat -> string)
    requires caller.role == Admin
    requires !HasTargets(req.targetIds) || "" in req.targetIds.value
    ensures forall rid :: rid in req.respondentIds ==>
      Key(req.templateId, rid, rid, req.month) in KeySet(CreateAssignments(caller, req, existing, mint).value.assignments)
  {
    var all := CreateAssignments(caller, req, existing, mint).value.assignments;
    KeySetAppend(existing, all[|existing|..]);
    assert existing + all[|existing|..] == all;
    var t: Option<string>;
    if HasTargets(req.targetIds) {
      var j :| 0 <= j < |req.targetIds.value| && req.targetIds.value[j] == "";
      t := Some("");
      assert Targets(req.targetIds)[j] == t;
    } else {
      t := None;
      assert Targets(req.targetIds)[0] == t;
    }
    assert t in Targets(req.targetIds);
    forall rid | rid in req.respondentIds
      ensures Key(req.templateId, rid, rid, req.month) in KeySet(all)
    {
      assert FinalTarget(rid, t) == rid;
    }
  }

  /** A request with no repeated respondent, no repeated target and no
      empty-string target: its candidate pairs are pairwise distinct. */
  predicate DistinctRequest(req: AssignmentRequest) {
    && Seqs.NoDup(req.respondentIds)
    && (req.targetIds.Some? ==> Seqs.NoDup(req.targetIds.value) && "" !in req.targetIds.value)
  }

  /** A request whose candidate pairs, one per loop iteration, are
      pairwise distinct. */
  predicate DistinctPairs(req: AssignmentRequest) {
    Seqs.NoDup(Pairs(req.respondentIds, Targets(req.targetIds)))
  }

  /** Different targets in the loop resolve to different final targets. */
  ghost predicate TargetsResolveApart(ts: seq<Option<string>>) {
    forall r, i, j :: 0 <= i < j < |ts| ==> FinalTarget(r, ts[i]) != FinalTarget(r, ts[j])
  }

  lemma DistinctRequestTargets(req: AssignmentRequest)
    requires DistinctRequest(req)
    ensures TargetsResolveApart(Targets(req.targetIds))
  {
  }

  lemma {:induction false} PairsNoDup(rs: seq<string>, ts: seq<Option<string>>)
    requires Seqs.NoDup(rs) && TargetsResolveApart(ts)
    ensures Seqs.NoDup(Pairs(rs, ts))
    decreases |rs|
  {
    if rs != [] {
      Seqs.NoDupTail(rs);
      PairsNoDup(rs[1..], ts);
      var row := Row(rs[0], ts);
      var rest := Pairs(rs[1..], ts);
      RowSound(rs[0], ts);
      PairsSound(rs[1..], ts);
      forall i, j | 0 <= i < j < |row|
        ensures row[i] != row[j]
      {
        assert row[i].1 == FinalTarget(rs[0], ts[i]);
        assert row[j].1 == FinalTarget(rs[0], ts[j]);
      }
      Seqs.NoDupAppend(row, rest);
    }
  }

  /** No repeated respondent, no repeated target and no empty-string
      target is enough for distinct candidate pairs. */
  lemma DistinctRequestPairs(req: AssignmentRequest)
    requires DistinctRequest(req)
    ensures DistinctPairs(req)
  {
    DistinctRequestTargets(req);
    PairsNoDup(req.respondentIds, Targets(req.targetIds));
  }

  lemma {:induction false} PlannedKeysUnique(snapshot: set<Key>, templateId: string, month: string, assigner: string,
                                             ps: seq<(string, string)>, mint: nat -> string, k: nat)
    requires Seqs.NoDup(ps)
    ensures UniqueKeys(Planned(snapshot, templateId, month, assigner, ps, mint, k))
    decreases |ps|
  {
    if ps != [] {
      Seqs.NoDupTail(ps);
      var key := KeyFor(templateId, month, ps[0]);
      if key in snapshot {
        PlannedKeysUnique(snapshot, templateId, month, assigner, ps[1..], mint, k);
      } else {
        PlannedKeysUnique(snapshot, templateId, month, assigner, ps[1..], mint, k + 1);
        PlannedSound(snapshot, templateId, month, assigner, ps[1..], mint, k + 1);
        var a := Assignment(mint(k), templateId, assigner, ps[0].0, ps[0].1, month, Pending);
        var rest := Planned(snapshot, templateId, month, assigner, ps[1..], mint, k + 1);
        forall x | x in KeySet(rest)
          ensures x != key
        {
          var b :| b in rest && KeyOf(b) == x;
          assert (b.respondentId, b.targetId) in ps[1..];
        }
        assert KeyOf(a) == key;
        assert KeySet([a]) == {key};
        UniqueKeysAppend([a], rest);
      }
    }
  }

  /** A request whose candidate pairs are distinct keeps the stored
      assignments free of duplicate keys. */
  lemma CreatePreservesUniqueKeys(caller: User, req: AssignmentRequest, existing: seq<Assignment>,
                                  mint: nat -> string)
    requires caller.role == Admin
    requires UniqueKeys(existing)
    requires DistinctPairs(req)
    ensures UniqueKeys(CreateAssignments(caller, req, existing, mint).value.assignments)
  {
    var ps := Pairs(req.respondentIds, Targets(req.targetIds));
    var added := Planned(KeySet(existing), req.templateId, req.month, caller.id, ps, mint, 0);
    PlannedKeysUnique(KeySet(existing), req.templateId, req.month, caller.id, ps, mint, 0);
    PlannedSound(KeySet(existing), req.templateId, req.month, caller.id, ps, mint, 0);
    UniqueKeysAppend(existing, added);
  }

  /** Because the existence check only sees the pre-request snapshot, a
      respondent id sent twice is planned twice. */
  lemma RepeatedRespondentPlannedTwice(caller: User, mint: nat -> string)
    requires caller.role == Admin
    ensures var r := CreateAssignments(caller, AssignmentRequest("t", ["p", "p"], None, "2024-01"), [], mint);
            r.value.count == 2 && !UniqueKeys(r.value.assignments)
  {
    var req := AssignmentRequest("t", ["p", "p"], None, "2024-01");
    var ps := Pairs(req.respondentIds, Targets(req.targetIds));
    assert Targets(req.targetIds) == [None];
    assert ps == [("p", "p"), ("p", "p")];
    var none: seq<Assignment> := [];
    assert KeySet(none) == {};
    var a0 := Assignment(mint(0), "t", caller.id, "p", "p", "2024-01", Pending);
    var a1 := Assignment(mint(1), "t", caller.id, "p", "p", "2024-01", Pending);
    assert ps[1..] == [("p", "p")] && ps[1..][1..] == [];
    assert Planned({}, "t", "2024-01", caller.id, ps[1..], mint, 1) == [a1];
    assert Planned({}, "t", "2024-01", caller.id, ps, mint, 0) == [a0, a1];
    var all := CreateAssignments(caller, req, none, mint).value.assignments;
    assert all == [a0, a1];
    assert KeyOf(all[0]) == KeyOf(all[1]);
  }

  /** An empty-string target resolves to the respondent, so a request naming
      both "" and the respondent itself plans the same self-evaluation twice. */
  lemma EmptyTargetCollidesWithSelf(caller: User, mint: nat -> string)
    requires caller.role == Admin
    ensures var r := CreateAssignments(caller, AssignmentRequest("t", ["p"], Some(["", "p"]), "2024-01"), [], mint);
            r.value.count == 2 && !UniqueKeys(r.value.assignments)
  {
    var req := AssignmentRequest("t", ["p"], Some(["", "p"]), "2024-01");
    var ps := Pairs(req.respondentIds, Targets(req.targetIds));
    assert Targets(req.targetIds) == [Some(""), Some("p")];
    assert ps == [("p", "p"), ("p", "p")];
    var none: seq<Assignment> := [];
    assert KeySet(none) == {};
    var a0 := Assignment(mint(0), "t", caller.id, "p", "p", "2024-01", Pending);
    var a1 := Assignment(mint(1), "t", caller.id, "p", "p", "2024-01", Pending);
    assert ps[1..] == [("p", "p")] && ps[1..][1..] == [];
    assert Planned({}, "t", "2024-01", caller.id, ps[1..], mint, 1) == [a1];
    assert Planned({}, "t", "2024-01", caller.id, ps, mint, 0) == [a0, a1];
    var all := CreateAssignments(caller, req, none, mint).value.assignments;
    assert all == [a0, a1];
    assert KeyOf(all[0]) == KeyOf(all[1]);
  }

  /** The planner with the de-duplication the uniqueness of assignments
      calls for: a pair is also skipped when an earlier pair of the same
      request already produced its key. `seen` starts as the snapshot. */
  function PlannedDeduped(seen: set<Key>, templateId: string, month: string, assigner: string,
                          ps: seq<(string, string)>, mint: nat -> string, k: nat): (added: seq<Assignment>)
    ensures |added| <= |ps|
    ensures forall a :: a in added ==>
      && a.templateId == templateId && a.month == month
      && a.assignerId == assigner && a.status == Pending
      && (a.respondentId, a.targetId) in ps
      && KeyOf(a) !in seen
    ensures forall p :: p in ps ==> KeyFor(templateId, month, p) in seen + KeySet(added)
    ensures UniqueKeys(added)
    decreases |ps|
  {
    if ps == [] then []
    else
      var key := KeyFor(templateId, month, ps[0]);
      if key in seen then
        PlannedDeduped(seen, templateId, month, assigner, ps[1..], mint, k)
      else
        var a := Assignment(mint(k), templateId, assigner, ps[0].0, ps[0].1, month, Pending);
        var rest := PlannedDeduped(seen + {key}, templateId, month, assigner, ps[1..], mint, k + 1);
        KeySetAppend([a], rest);
        assert KeyOf(a) == key;
        assert KeySet([a]) == {key};
        UniqueKeysAppend([a], rest);
        [a] + rest
  }

  /** `create_assignments` with the corrected planner: whatever the request,
      no key is stored twice if none was before. */
  function CreateAssignmentsDeduped(caller: User, req: AssignmentRequest, existing: seq<Assignment>,
                                    mint: nat -> string): (r: Result<Created>)
    ensures caller.role != Admin <==> r == Err(Forbidden)
    ensures r.Ok? ==> existing <= r.value.assignments
    ensures r.Ok? ==> r.value.count == |r.value.assignments| - |existing|
    ensures r.Ok? ==> r.value.count <= |req.respondentIds| * (if HasTargets(req.targetIds) then |req.targetIds.value| else 1)
    ensures r.Ok? ==> forall a :: a in r.value.assignments[|existing|..] ==>
      && a.templateId == req.templateId && a.month == req.month
      && a.assignerId == caller.id && a.status == Pending
      && a.respondentId in req.respondentIds
      && KeyOf(a) !in KeySet(existing)
      && exists t :: t in Targets(req.targetIds) && a.targetId == FinalTarget(a.respondentId, t)
    ensures r.Ok? ==> forall rid, t :: rid in req.respondentIds && t in Targets(req.targetIds) ==>
      Key(req.templateId, rid, FinalTarget(rid, t), req.month) in KeySet(r.value.assignments)
    ensures r.Ok? && UniqueKeys(existing) ==> UniqueKeys(r.value.assignments)
  {
    if caller.role != Admin then Err(Forbidden)
    else
      var ts := Targets(req.targetIds);
      var ps := Pairs(req.respondentIds, ts);
      var added := PlannedDeduped(KeySet(existing), req.templateId, req.month, caller.id, ps, mint, 0);
      PairsSound(req.respondentIds, ts);
      var all := existing + added;
      assert all[|existing|..] == added;
      KeySetAppend(existing, added);
      assert UniqueKeys(existing) ==> UniqueKeys(all) by {
        if UniqueKeys(existing) {
          UniqueKeysAppend(existing, added);
        }
      }
      Ok(Created(all, |added|))
  }

  lemma {:induction false} PlannedDedupedAgrees(snapshot: set<Key>, extra: set<Key>, templateId: string, month: string,
                                                assigner: string, ps: seq<(string, string)>, mint: nat -> string, k: nat)
    requires Seqs.NoDup(ps)
    requires forall p :: p in ps ==> KeyFor(templateId, month, p) !in extra
    ensures PlannedDeduped(snapshot + extra, templateId, month, assigner, ps, mint, k)
         == Planned(snapshot, templateId, month, assigner, ps, mint, k)
    decreases |ps|
  {
    if ps != [] {
      Seqs.NoDupTail(ps);
      var key := KeyFor(templateId, month, ps[0]);
      assert ps[0] in ps;
      if key in snapshot {
        PlannedDedupedAgrees(snapshot, extra, templateId, month, assigner, ps[1..], mint, k);
      } else {
        forall p | p in ps[1..]
          ensures KeyFor(templateId, month, p) !in extra + {key}
        {
          assert p != ps[0];
        }
        assert snapshot + extra + {key} == snapshot + (extra + {key});
        PlannedDedupedAgrees(snapshot, extra + {key}, templateId, month, assigner, ps[1..], mint, k + 1);
      }
    }
  }

  /** On a request whose candidate pairs are distinct, the corrected
      planner behaves exactly as the code as written. */
  lemma DedupedAgreesOnDistinctRequests(caller: User, req: AssignmentRequest, existing: seq<Assignment>,
                                        mint: nat -> string)
    requires DistinctPairs(req)
    ensures CreateAssignmentsDeduped(caller, req, existing, mint) == CreateAssignments(caller, req, existing, mint)
  {
    if caller.role == Admin {
      var ps := Pairs(req.respondentIds, Targets(req.targetIds));
      assert KeySet(existing) + {} == KeySet(existing);
      PlannedDedupedAgrees(KeySet(existing), {}, req.templateId, req.month, caller.id, ps, mint, 0);
    }
  }

  lemma {:induction false} PairsAppend(a: seq<string>, b: seq<string>, ts: seq<Option<string>>)
    ensures Pairs(a + b, ts) == Pairs(a, ts) + Pairs(b, ts)
    decreases |a|
  {
    if a != [] {
      assert (a + b)[0] == a[0];
      assert (a + b)[1..] == a[1..] + b;
      PairsAppend(a[1..], b, ts);
    } else {
      assert a + b == b;
    }
  }

  /** Appending one pair to the loop appends at most one assignment, whose
      id is the next one minted. */
  lemma {:induction false} PlannedSnoc(snapshot: set<Key>, templateId: string, month: string, assigner: string,
                                       ps: seq<(string, string)>, p: (string, string), mint: nat -> string, k: nat)
    ensures var before := Planned(snapshot, templateId, month, assigner, ps, mint, k);
            Planned(snapshot, templateId, month, assigner, ps + [p], mint, k)
            == before + (if KeyFor(templateId, month, p) in snapshot then []
                         else [Assignment(mint(k + |before|), templateId, assigner, p.0, p.1, month, Pending)])
    decreases |ps|
  {
    var tail := if KeyFor(templateId, month, p) in snapshot then []
                else [Assignment(mint(k + |Planned(snapshot, templateId, month, assigner, ps, mint, k)|), templateId, assigner, p.0, p.1, month, Pending)];
    if ps == [] {
      assert ps + [p] == [p];
      assert [p][1..] == [];
    } else {
      var qs := ps + [p];
      assert qs[0] == ps[0];
      assert qs[1..] == ps[1..] + [p];
      var key := KeyFor(templateId, month, ps[0]);
      if key in snapshot {
        PlannedSnoc(snapshot, templateId, month, assigner, ps[1..], p, mint, k);
        assert Planned(snapshot, templateId, month, assigner, qs, mint, k)
            == Planned(snapshot, templateId, month, assigner, ps[1..] + [p], mint, k);
        assert Planned(snapshot, templateId, month, assigner, ps, mint, k)
            == Planned(snapshot, templateId, month, assigner, ps[1..], mint, k);
      } else {
        var a := Assignment(mint(k), templateId, assigner, ps[0].0, ps[0].1, month, Pending);
        var rest := Planned(snapshot, templateId, month, assigner, ps[1..], mint, k + 1);
        PlannedSnoc(snapshot, templateId, month, assigner, ps[1..], p, mint, k + 1);
        assert Planned(snapshot, templateId, month, assigner, qs, mint, k)
            == [a] + Planned(snapshot, templateId, month, assigner, ps[1..] + [p], mint, k + 1);
        assert Planned(snapshot, templateId, month, assigner, ps, mint, k) == [a] + rest;
        assert ([a] + rest) + tail == [a] + (rest + tail);
      }
    }
  }

  /** The route's nested loop as the code runs it: for each respondent and
      each target, resolve the final target, look the key up in the
      pre-request snapshot, and append a new PENDING assignment when it is
      absent. */
  method CreateAssignmentsLoop(caller: User, req: AssignmentRequest, existing: seq<Assignment>,
                               mint: nat -> string) returns (r: Result<Created>)
    ensures r == CreateAssignments(caller, req, existing, mint)
  {
    if caller.role != Admin {
      return Err(Forbidden);
    }
    var snapshot := KeySet(existing);
    var targets := Targets(req.targetIds);
    var added: seq<Assignment> := [];
    ghost var visited: seq<(string, string)> := [];
    var i := 0;
    while i < |req.respondentIds|
      invariant 0 <= i <= |req.respondentIds|
      invariant visited == Pairs(req.respondentIds[..i], targets)
      invariant added == Planned(snapshot, req.templateId, req.month, caller.id, visited, mint, 0)
    {
      var rid := req.respondentIds[i];
      var j := 0;
      while j < |targets|
        invariant 0 <= j <= |targets|
        invariant visited == Pairs(req.respondentIds[..i], targets) + Row(rid, targets)[..j]
        invariant added == Planned(snapshot, req.templateId, req.month, caller.id, visited, mint, 0)
      {
        var finalTarget := FinalTarget(rid, targets[j]);
        PlannedSnoc(snapshot, req.templateId, req.month, caller.id, visited, (rid, finalTarget), mint, 0);
        if Key(req.templateId, rid, finalTarget, req.month) !in snapshot {
          added := added + [Assignment(mint(|added|), req.templateId, caller.id, rid, finalTarget, req.month, Pending)];
        }
        assert Row(rid, targets)[..j + 1] == Row(rid, targets)[..j] + [(rid, finalTarget)];
        visited := visited + [(rid, finalTarget)];
        j := j + 1;
      }
      assert req.respondentIds[..i + 1] == req.respondentIds[..i] + [rid];
      PairsAppend(req.respondentIds[..i], [rid], targets);
      assert Pairs([rid], targets) == Row(rid, targets) + Pairs([rid][1..], targets);
      assert Row(rid, targets)[..|targets|] == Row(rid, targets);
      i := i + 1;
    }
    assert req.respondentIds[..i] == req.respondentIds;
    r := Ok(Created(existing + added, |added|));
  }
}
