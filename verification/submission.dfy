/** `POST /responses`: any signed-in user submits a response; the backend
    stores it and marks the caller's matching assignment as completed. */
module Submission {
  import opened Domain

  /** The request body. The score is whatever the client computed. */
  datatype SurveySubmit = SurveySubmit(
    templateId: string,
    targetPlayerId: string,
    month: string,
    answers: map<string, int>,
    weightedScore: real)

  /** The stored assignments and responses after the call, and the stored
      response the route returns. */
  datatype Submitted = Submitted(assignments: seq<Assignment>, responses: seq<Response>, response: Response)

  /** The key of the assignment a submission fulfils: the caller is the
      respondent. */
  function SubmitKey(caller: User, sub: SurveySubmit): Key {
    Key(sub.templateId, caller.id, sub.targetPlayerId, sub.month)
  }

  /** Position `i` holds the earliest assignment with key `k`. */
  predicate IsFirstMatch(s: seq<Assignment>, i: int, k: Key) {
    && 0 <= i < |s|
    && KeyOf(s[i]) == k
    && forall j :: 0 <= j < i ==> KeyOf(s[j]) != k
  }

  /** The position of the first assignment with key `k`, the row an
      unordered `.first()` returns when rows come back in storage order. */
  function FirstMatch(s: seq<Assignment>, k: Key): (r: Option<nat>)
    ensures r.Some? ==> IsFirstMatch(s, r.value, k)
    ensures r.None? <==> k !in KeySet(s)
    decreases |s|
  {
    if s == [] then None
    else if KeyOf(s[0]) == k then
      assert s[0] in s;
      Some(0)
    else
      var tail := FirstMatch(s[1..], k);
      assert s == [s[0]] + s[1..];
      KeySetAppend([s[0]], s[1..]);
      assert KeySet([s[0]]) == {KeyOf(s[0])};
      match tail
      case None => None
      case Some(i) => Some(i + 1)
  }

  /** `submit_response`. `id` and `date` stand for the random id and the
      clock reading the backend takes. */
  function SubmitResponse(caller: User, sub: SurveySubmit, assignments: seq<Assignment>,
                          responses: seq<Response>, id: string, date: nat): (r: Submitted)
    ensures r.responses == responses + [r.response]
    ensures && r.response.id == id && r.response.date == date
            && r.response.userId == caller.id
            && r.response.templateId == sub.templateId
            && r.response.targetPlayerId == sub.targetPlayerId
            && r.response.month == sub.month
            && r.response.answers == sub.answers
            && r.response.weightedScore == sub.weightedScore
    ensures |r.assignments| == |assignments|
    ensures forall i :: 0 <= i < |assignments| ==>
      r.assignments[i] == assignments[i]
      || (KeyOf(assignments[i]) == SubmitKey(caller, sub) && r.assignments[i] == assignments[i].(status := Completed))
    ensures forall i, j :: 0 <= i < |assignments| && 0 <= j < |assignments| && i != j && r.assignments[i] != assignments[i] ==>
      r.assignments[j] == assignments[j]
    ensures forall i :: 0 <= i < |assignments| && assignments[i].status == Completed ==>
      r.assignments[i].status == Completed
    ensures forall i :: IsFirstMatch(assignments, i, SubmitKey(caller, sub)) ==>
      r.assignments[i].status == Completed
    ensures forall i :: 0 <= i < |assignments| && r.assignments[i] != assignments[i] ==>
      IsFirstMatch(assignments, i, SubmitKey(caller, sub))
  {
    var response := Response(id, sub.templateId, caller.id, sub.targetPlayerId, sub.month, date, sub.answers, sub.weightedScore);
    var updated :=
      match FirstMatch(assignments, SubmitKey(caller, sub))
      case None => assignments
      case Some(i) => assignments[i := assignments[i].(status := Completed)];
    Submitted(updated, responses + [response], response)
  }
}
