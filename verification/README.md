# FootPulse backend: assignment planning, submission and visibility

This project models the part of the FootPulse evaluation backend
(`main.py`) that carries real logic: how an admin's bulk request becomes
survey assignments, how a submitted survey response completes the caller's
assignment, and which users, assignments and responses each role may list.
The database is replaced by immutable sequences of records. Each route
becomes a pure function from the stored records, the caller and the
request body to the new records.

- `Domain` holds the records. `User` carries a `Role` (ADMIN, PLAYER,
  GUARDIAN, TRAINER). `Assignment` has a two-valued `Status`
  (PENDING, COMPLETED). `Response` is the stored submission. `Key` is the
  (template, respondent, target, month) tuple that identifies a piece of
  work.
- `Assignments` models `POST /assignments`. The session does not flush
  pending inserts before a query (main.py:25); they are written only by
  the commit at the end of the route (main.py:300). So the duplicate check
  only sees the assignments stored before the request. The planner therefore checks each candidate pair
  against that snapshot. `CreateAssignmentsDeduped` is the corrected
  planner described under Findings.
- `Submission` models `POST /responses`. The response is always appended.
  The first stored assignment with the caller's key is set to COMPLETED.
- `Visibility` models the role filters of `GET /users`,
  `GET /assignments` and `GET /responses`.
- `Platform` chains requests into runs over (users, assignments,
  responses). A run can use the planner as written or the corrected one.
  The users never change in a run, because `create_user` is left out.
  It proves that nothing stored is lost or reverted, when keys stay unique,
  and that a caller can read back what they wrote.

The model follows the code. Where the code falls short of what was
evidently intended, or behaves in a way a reader might not expect:

- At most one assignment per (template, respondent, target, month) is
  intended. The code can store two within one request (see Findings).
- The backend stores the client's float score unchecked (main.py:75,
  main.py:154).
- An empty respondent list creates nothing. An empty or missing target
  list creates one self-evaluation per respondent (main.py:276,
  main.py:280).
- `GET /responses` filters only by author or target (main.py:305-310).

Parameters stand in for the randomness and the clock. `mint(k)` is the id
of the k-th assignment a request creates, in place of `os.urandom`. The
response's `id` and `date` are parameters too. The float score is carried
as a `real` and stored unchanged.

## Model

| member | source | states |
|---|---|---|
| Assignments.PairsSound | main.py:276-280 | The candidate list has exactly (number of respondents) × (number of targets) entries. Every respondent is paired with the final target of every target. Every entry is such a pair. |
| Assignments.PlannedSound | main.py:278-298 | Each planned assignment carries the template, month, assigner and PENDING. Its pair is a candidate, and its key is missing from the pre-request snapshot. Every candidate whose key is missing from the snapshot is planned. |
| Assignments.PlannedIsMissing | main.py:278-298 | The added rows are, in order and with repeats, exactly the candidate pairs whose key the snapshot lacks, and the i-th gets the i-th minted id. |
| Assignments.MissingIsFilter | main.py:281-287 | The pairs the loop adds a row for are exactly the candidates kept by the filter "the existence query finds no stored row", in order and with repeats. |
| Assignments.CreateAssignments | main.py:270-301 | A non-admin caller gets 403 and nothing is stored. For an admin, the stored assignments keep the old ones as a prefix. `count` is the number added, at most len(respondent_ids) × max(1, len(target_ids)). Each new assignment carries the request's template and month, the caller as assigner, and PENDING. Its respondent is a requested one and its target is the final target of a requested target. With no target ids, every target is the respondent. A requested (respondent, target) key is added iff it was not stored before. It adds one row per loop iteration whose key the snapshot lacks, repeated pairs included: the i-th new row is the i-th such pair with id mint(i), and `count` is the number of such iterations. |
| Assignments.PlannedSnoc | main.py:281-298 | One more loop iteration adds at most one assignment. It is added exactly when the pair's key is missing from the snapshot, and it takes the next minted id. |
| Assignments.CreateAssignmentsLoop | main.py:270-301 | The route's nested loop, run step by step over respondents and then targets, returns exactly the result of `CreateAssignments`. |
| Assignments.PlannedNothingWhenAllStored | main.py:281-287 | When every candidate key is already stored, the loop adds nothing. |
| Assignments.CreateIsIdempotent | main.py:281-298 | Re-sending the same request against the state it produced adds nothing: `count` is 0 and the stored assignments are unchanged. |
| Assignments.SelfEvaluationFallback | main.py:276-280 | With no target ids, or with an empty-string target id, every respondent ends up with a stored self-evaluation (target = respondent) for the template and month. |
| Assignments.DistinctRequestTargets | main.py:276-280 | Distinct, non-empty target ids resolve to distinct final targets for any respondent. |
| Assignments.PairsNoDup | main.py:278-280 | Distinct respondents and targets that resolve apart yield pairwise distinct candidate pairs. |
| Assignments.DistinctRequestPairs | main.py:276-280 | A request that repeats no respondent, repeats no target and names no empty-string target has pairwise distinct candidate pairs. |
| Assignments.PlannedKeysUnique | main.py:281-298 | Distinct candidate pairs never give two planned assignments the same key. |
| Assignments.CreatePreservesUniqueKeys | main.py:278-298 | Suppose the stored assignments have unique keys, and the request's candidate pairs (one per loop iteration) are pairwise distinct. Then the stored keys stay unique. |
| Assignments.RepeatedRespondentPlannedTwice | main.py:281-286 | As written, respondent ids ["p", "p"] with no targets create two assignments with the same key. |
| Assignments.EmptyTargetCollidesWithSelf | main.py:280-286 | As written, respondent "p" with target ids ["", "p"] creates two assignments with the same key. |
| Assignments.PlannedDeduped | main.py:278-298 | The corrected loop adds only keys unseen so far, the snapshot or earlier in the request. Its additions have unique keys. Every candidate key ends up seen. |
| Assignments.CreateAssignmentsDeduped | main.py:270-301 | Same 403, prefix, count bound and per-assignment fields as the code. Every requested key is stored afterwards. No new key was stored before. Unique keys stay unique for every request. |
| Assignments.PlannedDedupedAgrees | main.py:278-298 | On distinct candidate pairs, the corrected loop plans exactly what the loop as written plans. |
| Assignments.DedupedAgreesOnDistinctRequests | main.py:270-301 | On a request whose candidate pairs (one per loop iteration) are pairwise distinct, the corrected route returns exactly what the code returns. |
| Submission.FirstMatch | main.py:326-331 | It returns the earliest stored assignment with the key, or nothing exactly when no assignment has that key. |
| Submission.SubmitResponse | main.py:313-336 | Exactly one response is appended. It is authored by the caller and copies the template, target, month, answers and score verbatim. The assignment count is unchanged. Every assignment is either untouched or has the caller's key and moves to COMPLETED. At most one assignment changes. A COMPLETED assignment stays COMPLETED. The earliest assignment with the caller's key becomes COMPLETED. The only assignment that can change is the earliest one with the caller's key. A later duplicate is never touched, even when the earliest one is already COMPLETED. |
| Visibility.ListUsers | main.py:216-224 | An admin sees every user. A trainer sees exactly the stored users that the trainer coaches, plus the trainer, each with its stored multiplicity. A player or guardian sees only themself. |
| Visibility.GetAssignments | main.py:262-268 | An admin sees every assignment. Anyone else sees exactly the stored assignments whose respondent they are, with their multiplicities. |
| Visibility.GetResponses | main.py:303-311 | An admin sees every response. Anyone else sees exactly the stored responses they wrote or that are about them, with their multiplicities. |
| Platform.Step | main.py:270-336 | One request of the running backend. The users never change. A non-admin planning request changes nothing. A planning request keeps the responses and only appends assignments. A submission appends exactly its response and keeps the number of assignments. |
| Platform.StepExtends | main.py:270-336 | One request keeps the users, keeps the responses as a prefix, and keeps every assignment in place with only its status possibly moved to COMPLETED. |
| Platform.RunExtends | main.py:270-336 | Over any run nothing stored is lost. No assignment's key changes. COMPLETED never returns to PENDING. Responses are only appended. |
| Platform.SubmitKeepsKeys | main.py:326-334 | A submission leaves the set of stored keys unchanged, and so keeps unique keys unique. |
| Platform.SubmitCompletesMatchingAssignment | main.py:326-333 | With unique keys, every assignment the submission fulfils becomes COMPLETED. |
| Platform.RunKeepsKeysUnique | main.py:270-336 | A run from unique keys keeps them unique. This needs the corrected planner, or else only planning requests whose candidate pairs are pairwise distinct. |
| Platform.SubmittedResponseVisibleToAuthor | main.py:303-325 | The stored response is among those `GET /responses` shows its author. |
| Platform.PlannedAssignmentVisibleToRespondent | main.py:262-301 | Every assignment an admin creates appears in `GET /assignments` for its respondent. |

## Left out

- Password hashing, JWT tokens, login and `get_current_user` (main.py:80-124, 203-214): cryptographic foreign calls. The caller is a given `User`.
- The SQLAlchemy engine, sessions, `create_all`, commits and `get_db` (main.py:22-26, 77, 106-111): persistence plumbing, replaced by sequences in and out. A commit is atomic and its failures are not modelled.
- Random ids and avatar URLs from `os.urandom` (main.py:231, 239, 289, 316): these are parameters (`mint`, `id`). The model does not assume the ids are unique.
- The `datetime.utcnow` timestamp (main.py:73, 323): a `date` parameter.
- The float `weighted_score` (main.py:75, 154): carried as a `real` and passed through unchanged. Float rounding is not modelled, because the backend does no arithmetic on it.
- Row order of unordered queries: `.first()` and `.all()` are taken to return rows in storage order. SQL gives no such promise without ORDER BY.
- The `map_*` converters, CORS and FastAPI wiring, `list_templates`, `seed_data`, `create_user` and `admin_reset_password` (main.py:96-104, 157-200, 226-260, 338-361): field copying and I/O, with no logic beyond an admin check.
- The survey scoring engine and the analytics aggregation (trend, comparison, radar, growth): they run in front-end code that is not part of this model. The backend stores the client's score verbatim.
- Assignment deletion: no route in main.py deletes assignments.
- Concurrent requests. Each request has its own session (main.py:106-111), and FastAPI runs the sync handlers on a thread pool. `Platform.Run` instead applies requests as atomic steps, one after another. Two overlapping `POST /assignments` calls can both run the existence query (main.py:281-286) before either commits (main.py:300). Both then store the same key, whichever planner runs.
- Platform.RunKeepsKeysUnique: promises unique keys only for requests applied one after another, because concurrency is not modelled.
- Assignments.CreateAssignmentsDeduped: its unique-keys clause covers one request against a fixed snapshot. It says nothing about overlapping requests.

## Findings

| source | as written | input that shows it | evidently intended | confidence | as-written member | corrected member |
|---|---|---|---|---|---|---|
| main.py:281-286 | The duplicate check runs in a session that does not flush pending inserts before a query (main.py:25). It therefore misses assignments added earlier in the same request. | respondent_ids ["p", "p"] with no target_ids; or respondent "p" with target_ids ["", "p"]. Each creates two PENDING assignments with one (template, respondent, target, month) key. | At most one assignment per (template, respondent, target, month). | medium, not executed | Assignments.RepeatedRespondentPlannedTwice | Assignments.CreateAssignmentsDeduped |

The as-written planner is `Assignments.CreateAssignments`. The
counterexamples above are `Assignments.RepeatedRespondentPlannedTwice` and
`Assignments.EmptyTargetCollidesWithSelf`. The corrected planner keeps
keys unique for every request when requests run one after another. `Assignments.DedupedAgreesOnDistinctRequests`
proves it agrees with the code whenever the request's candidate pairs are
distinct. `Platform` runs with either planner.
