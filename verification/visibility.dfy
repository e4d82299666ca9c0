/** Role-based read filters of the three listing routes. */
module Visibility {
  import opened Domain
  import Seqs

  /** `GET /users`: an admin sees every user, a trainer sees themself and
      the users coached by them, anyone else sees only themself. */
  function ListUsers(caller: User, users: seq<User>): (r: seq<User>)
    ensures caller.role == Admin ==> r == users
    ensures caller.role == Trainer ==>
      forall u :: u in r <==> u in users && (u.trainerId == Some(caller.id) || u.id == caller.id)
    ensures caller.role == Trainer ==> |r| <= |users|
    ensures caller.role == Trainer ==>
      forall u :: multiset(r)[u] ==
        if u.trainerId == Some(caller.id) || u.id == caller.id then multiset(users)[u] else 0
    ensures caller.role == Player || caller.role == Guardian ==> r == [caller]
  {
    match caller.role
    case Admin => users
    case Trainer => Seqs.Filter(users, (u: User) => u.trainerId == Some(caller.id) || u.id == caller.id)
    case _ => [caller]
  }

  /** `GET /assignments`: an admin sees all, anyone else the assignments
      they have to answer. */
  function GetAssignments(caller: User, assignments: seq<Assignment>): (r: seq<Assignment>)
    ensures caller.role == Admin ==> r == assignments
    ensures caller.role != Admin ==>
      forall a :: a in r <==> a in assignments && a.respondentId == caller.id
    ensures caller.role != Admin ==>
      forall a :: multiset(r)[a] == if a.respondentId == caller.id then multiset(assignments)[a] else 0
  {
    if caller.role == Admin then assignments
    else Seqs.Filter(assignments, (a: Assignment) => a.respondentId == caller.id)
  }

  /** `GET /responses`: an admin sees all, anyone else the responses they
      wrote or that are about them. */
  function GetResponses(caller: User, responses: seq<Response>): (r: seq<Response>)
    ensures caller.role == Admin ==> r == responses
    ensures caller.role != Admin ==>
      forall x :: x in r <==> x in responses && (x.userId == caller.id || x.targetPlayerId == caller.id)
    ensures caller.role != Admin ==>
      forall x :: multiset(r)[x] ==
        if x.userId == caller.id || x.targetPlayerId == caller.id then multiset(responses)[x] else 0
  {
    if caller.role == Admin then responses
    else Seqs.Filter(responses, (x: Response) => x.userId == caller.id || x.targetPlayerId == caller.id)
  }
}
