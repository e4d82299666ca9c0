/** The backend as a state machine over (users, assignments, responses):
    each request either plans assignments or submits a response, and the
    listing routes read the resulting state. */
module Platform {
  import opened Domain
  import Assignments
  import Submission
  import Visibility

  datatype State = State(users: seq<User>, assignments: seq<Assignment>, responses: seq<Response>)

  /** A state-changing request. `mint`, `id` and `date` supply the random
      ids and the clock reading the backend would draw. */
  datatype Request =
    | Assign(caller: User, req: Assignments.AssignmentRequest, mint: nat -> string)
    | Submit(caller: User, sub: Submission.SurveySubmit, id: string, date: nat)

  /** Which assignment planner handles `POST /assignments`: the code as
      written, or the corrected one that also skips keys planned earlier in
      the same request. */
  datatype Planner = AsWritten | Deduped

  function Plan(planner: Planner, caller: User, req: Assignments.AssignmentRequest,
                existing: seq<Assignment>, mint: nat -> string): Result<Assignments.Created>
  {
    match planner
    case AsWritten => Assignments.CreateAssignments(caller, req, existing, mint)
    case Deduped => Assignments.CreateAssignmentsDeduped(caller, req, existing, mint)
  }

  /** One request. A forbidden request changes nothing; a planning request
      only appends assignments; a submission appends exactly its response
      and keeps the number of assignments. */
  function Step(planner: Planner, s: State, q: Request): (t: State)
    ensures t.users == s.users
    ensures q.Assign? && q.caller.role != Admin ==> t == s
    ensures q.Assign? ==> t.responses == s.responses && s.assignments <= t.assignments
    ensures q.Submit? ==>
      && t.responses == s.responses + [Submission.SubmitResponse(q.caller, q.sub, s.assignments, s.responses, q.id, q.date).response]
      && |t.assignments| == |s.assignments|
  {
    match q
    case Assign(caller, req, mint) =>
      (match Plan(planner, caller, req, s.assignments, mint)
       case Err(_) => s
       case Ok(c) => s.(assignments := c.assignments))
    case Submit(caller, sub, id, date) =>
      var r := Submission.SubmitResponse(caller, sub, s.assignments, s.responses, id, date);
      s.(assignments := r.assignments, responses := r.responses)
  }

  function Run(planner: Planner, s: State, qs: seq<Request>): State
    decreases |qs|
  {
    if qs == [] then s else Run(planner, Step(planner, s, qs[0]), qs[1..])
  }

  /** `b` is `a`, possibly moved on to COMPLETED. */
  predicate Evolves(a: Assignment, b: Assignment) {
    b == a || b == a.(status := Completed)
  }

  /** `t` is a later state of `s`: the users are the same, no response is
      removed or changed, and every assignment of `s` is still in its place
      with only its status possibly moved on to COMPLETED. */
  predicate Extends(s: State, t: State) {
    && t.users == s.users
    && s.responses <= t.responses
    && |s.assignments| <= |t.assignments|
    && forall i :: 0 <= i < |s.assignments| ==> Evolves(s.assignments[i], t.assignments[i])
  }

  lemma StepExtends(planner: Planner, s: State, q: Request)
    ensures Extends(s, Step(planner, s, q))
  {
  }

  lemma ExtendsTransitive(s: State, t: State, u: State)
    requires Extends(s, t) && Extends(t, u)
    ensures Extends(s, u)
  {
  }

  /** Over any run of requests nothing stored is lost: assignments keep
      their place and key, a COMPLETED assignment never returns to
      PENDING, and responses are only appended. */
  lemma {:induction false} RunExtends(planner: Planner, s: State, qs: seq<Request>)
    ensures Extends(s, Run(planner, s, qs))
    decreases |qs|
  {
    if qs != [] {
      StepExtends(planner, s, qs[0]);
      RunExtends(planner, Step(planner, s, qs[0]), qs[1..]);
      ExtendsTransitive(s, Step(planner, s, qs[0]), Run(planner, s, qs));
    }
  }

  /** A planning request whose candidate pairs are distinct; every
      submission qualifies. */
  predicate Distinct(q: Request) {
    q.Assign? ==> Assignments.DistinctPairs(q.req)
  }

  lemma SubmitKeepsKeys(caller: User, sub: Submission.SurveySubmit, assignments: seq<Assignment>,
                        responses: seq<Response>, id: string, date: nat)
    ensures var r := Submission.SubmitResponse(caller, sub, assignments, responses, id, date);
            KeySet(r.assignments) == KeySet(assignments)
            && (UniqueKeys(assignments) ==> UniqueKeys(r.assignments))
  {
    var r := Submission.SubmitResponse(caller, sub, assignments, responses, id, date);
    assert forall i :: 0 <= i < |assignments| ==> KeyOf(r.assignments[i]) == KeyOf(assignments[i]);
    forall k | k in KeySet(r.assignments)
      ensures k in KeySet(assignments)
    {
      var b :| b in r.assignments && KeyOf(b) == k;
      var i :| 0 <= i < |r.assignments| && r.assignments[i] == b;
      assert assignments[i] in assignments;
    }
    forall k | k in KeySet(assignments)
      ensures k in KeySet(r.assignments)
    {
      var b :| b in assignments && KeyOf(b) == k;
      var i :| 0 <= i < |assignments| && assignments[i] == b;
      assert r.assignments[i] in r.assignments;
    }
  }

  /** With unique keys, a submission completes every assignment it fulfils:
      the caller is left with nothing PENDING for that template, target
      and month. */
  lemma SubmitCompletesMatchingAssignment(caller: User, sub: Submission.SurveySubmit, assignments: seq<Assignment>,
                                          responses: seq<Response>, id: string, date: nat)
    requires UniqueKeys(assignments)
    ensures var r := Submission.SubmitResponse(caller, sub, assignments, responses, id, date);
            forall i :: 0 <= i < |assignments| && KeyOf(assignments[i]) == Submission.SubmitKey(caller, sub) ==>
              r.assignments[i].status == Completed
  {
  }

  /** No run stores two assignments with the same key when it starts from
      unique keys and either uses the corrected planner or sends only
      distinct planning requests. */
  lemma {:induction false} RunKeepsKeysUnique(planner: Planner, s: State, qs: seq<Request>)
    requires UniqueKeys(s.assignments)
    requires planner == AsWritten ==> forall i :: 0 <= i < |qs| ==> Distinct(qs[i])
    ensures UniqueKeys(Run(planner, s, qs).assignments)
    decreases |qs|
  {
    if qs != [] {
      var q := qs[0];
      match q {
        case Assign(caller, req, mint) =>
          if caller.role == Admin && planner == AsWritten {
            assert Distinct(qs[0]);
            Assignments.CreatePreservesUniqueKeys(caller, req, s.assignments, mint);
          }
        case Submit(caller, sub, id, date) =>
          SubmitKeepsKeys(caller, sub, s.assignments, s.responses, id, date);
      }
      assert forall i :: 0 <= i < |qs[1..]| ==> qs[1..][i] == qs[i + 1];
      RunKeepsKeysUnique(planner, Step(planner, s, q), qs[1..]);
    }
  }

  /** Read-your-writes: the response a user submits is among the responses
      `GET /responses` shows that user. */
  lemma SubmittedResponseVisibleToAuthor(planner: Planner, s: State, caller: User, sub: Submission.SurveySubmit,
                                         id: string, date: nat)
    ensures var t := Step(planner, s, Submit(caller, sub, id, date));
            Submission.SubmitResponse(caller, sub, s.assignments, s.responses, id, date).response
              in Visibility.GetResponses(caller, t.responses)
  {
  }

  /** Every assignment an admin plans shows up in `GET /assignments` for
      its respondent. */
  lemma PlannedAssignmentVisibleToRespondent(planner: Planner, s: State, caller: User,
                                             req: Assignments.AssignmentRequest, mint: nat -> string, respondent: User)
    requires caller.role == Admin
    ensures var t := Step(planner, s, Assign(caller, req, mint));
            forall a :: a in t.assignments[|s.assignments|..] && a.respondentId == respondent.id ==>
              a in Visibility.GetAssignments(respondent, t.assignments)
  {
  }
}
