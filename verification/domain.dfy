/** Record shapes of the evaluation backend: users with a role, survey
    assignments with a two-state status, and stored survey responses.
    Persistence is replaced by plain sequences of these records. */
module Domain {

  datatype Option<+T> = None | Some(value: T)

  /** The four roles a user can hold. */
  datatype Role = Admin | Player | Guardian | Trainer

  /** A user account. The password hash is not modelled. */
  datatype User = User(
    id: string,
    name: string,
    email: string,
    mobile: string,
    role: Role,
    avatar: Option<string>,
    trainerId: Option<string>,
    playerId: Option<string>)

  /** Assignment status. The backend only ever writes these two values. */
  datatype Status = Pending | Completed

  /** A planned obligation: the respondent must evaluate the target with the
      template for the month. */
  datatype Assignment = Assignment(
    id: string,
    templateId: string,
    assignerId: string,
    respondentId: string,
    targetId: string,
    month: string,
    status: Status)

  /** A stored submission. The score is the client's value, kept verbatim;
      the date is the clock reading taken at submission. */
  datatype Response = Response(
    id: string,
    templateId: string,
    userId: string,
    targetPlayerId: string,
    month: string,
    date: nat,
    answers: map<string, int>,
    weightedScore: real)

  /** The tuple that identifies "the same piece of work". */
  datatype Key = Key(templateId: string, respondentId: string, targetId: string, month: string)

  function KeyOf(a: Assignment): Key {
    Key(a.templateId, a.respondentId, a.targetId, a.month)
  }

  /** The keys of all assignments in a collection. */
  function KeySet(s: seq<Assignment>): set<Key> {
    set a | a in s :: KeyOf(a)
  }

  /** At most one assignment per key. */
  predicate UniqueKeys(s: seq<Assignment>) {
    forall i, j :: 0 <= i < j < |s| ==> KeyOf(s[i]) != KeyOf(s[j])
  }

  /** The only error the modelled routes raise: HTTP 403 "Admin only". */
  datatype Error = Forbidden

  datatype Result<+T> = Ok(value: T) | Err(error: Error)

  lemma KeySetAppend(a: seq<Assignment>, b: seq<Assignment>)
    ensures KeySet(a + b) == KeySet(a) + KeySet(b)
  {
  }

  /** Two key-unique collections with no key in common stay key-unique when
      concatenated. */
  lemma UniqueKeysAppend(a: seq<Assignment>, b: seq<Assignment>)
    requires UniqueKeys(a) && UniqueKeys(b)
    requires KeySet(a) !! KeySet(b)
    ensures UniqueKeys(a + b)
  {
    var s := a + b;
    forall i, j | 0 <= i < j < |s|
      ensures KeyOf(s[i]) != KeyOf(s[j])
    {
      if j < |a| {
        assert s[i] == a[i] && s[j] == a[j];
      } else if i >= |a| {
        assert s[i] == b[i - |a|] && s[j] == b[j - |a|];
      } else {
        assert s[i] == a[i] && s[j] == b[j - |a|];
        assert KeyOf(a[i]) in KeySet(a);
        assert KeyOf(b[j - |a|]) in KeySet(b);
      }
    }
  }
}
