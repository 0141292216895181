# Trivia store: repository, service and HTTP decisions in Dafny

This project models the core of a small CRUD service for trivia records. Facts
are question/answer pairs; the older variant stores name-only trivia items. The
core has three layers, and each is modelled as pure functions over immutable
values:

- **In-memory repository** (`inmem.dfy`, module `InMem`). The state is an
  ordered list of records, the set of ids ever handed out, and the id counter.
  `Insert` accepts a positive caller id that has not been used yet, or
  auto-assigns one. Auto-assignment bumps the counter and then skips used
  values. `Update` overwrites the first record with the same id in place.
  `DeleteByID` removes the first record with the id and keeps the order of the
  rest. It never takes the id out of the used set, so a deleted id is never
  issued again. Records are generic, `Record<P>`: an `id` plus an opaque
  payload.
- **Application service** (`service.dfy`, module `Service`). Save, List,
  Update and Remove are compositions of repository steps. Update is the
  update-or-create operation: a repository `Update`, then on `NotFound` an
  `Insert` of the same record, reported as created. The fact service and the
  trivia service differ only in their error texts. The `Domain` parameter
  (`Facts` or `Trivias`) fixes those texts, including the trivia service's
  "could not update task".
- **HTTP decisions** (`http.dfy`, module `Http`, plus one module per handler
  file: `FactlistHttp`, `TrivialistHttp`, `TriviaHttp`). `writeError` is a
  total map from an error to a status code, using the codes of section 15 of
  RFC 9110. Each handler's flow is modelled: parse the path id, decode the
  body, call the service, then pick 200/201/204 or an error.
- **Shared definitions.** `errors.dfy` (module `Errors`) holds the error kinds
  and result wrappers. `entities.dfy` (module `Entities`) holds the payloads
  and the request bodies.
- **Whole-system statements.** `scenarios.dfy` (module `Scenarios`) states
  request sequences, stated through the fact transport.

Inputs from outside the core become parameters:

- Integer parsing of the `:id` path segment is an `Option<int>`.
- JSON decoding of a request body is a `Decoded<T>` value: the decoded request,
  or the decoder's error text.
- Time values are an opaque `Instant`.

Each repository call is one atomic transition. The service's update-or-create
is two separate transitions, as in the source.

Deviations from the code as written:

- The repository's `exists` map is never initialised in its constructor
  (`pkg/inmem/inmem.go:18`), so Go would panic on the first insert. The model
  starts from an empty used set instead.
- `pkg/trivia/http.go` does not compile:
  - `NewServer` has no return.
  - The two `way.Param` calls at lines 85 and 111 are malformed.

  Only the decision logic of its handlers is modelled. Path-id parsing is taken
  as an input there, as everywhere else. Its remove and update handlers make
  the same decisions as the trivialist ones, so `TrivialistHttp` models both
  files.
- The trivialist transport calls a `Service` whose implementation is not part
  of this model. It is modelled against the trivia service (`Domain =
  Trivias`).
- Both error sentinel sets say "trivia not found" and "trivia already exists".
  That includes the fact ones in `pkg/fact.go`. The model keeps these texts.
- The model treats the not-found and already-exists sentinels as one value
  per kind. That is the value the repository returns, the value the services
  compare against, and the value `writeError` switches on. In the files as
  written they are distinct values:
  - The repository in `pkg/inmem/inmem.go` is the trivia one. It returns the
    root package's `ErrTriviaNotFound` and `ErrTriviaAlreadyExists`
    (`trivia.go:10-11`).
  - The fact service compares against `pkg.ErrFactNotFound`
    (`pkg/factlist/service.go:46,61`). The trivia service compares against
    `pkg.ErrTriviaNotFound` (`pkg/trivia/service.go:46,61`).
  - The fact repository that `cmd/main.go:42` constructs,
    `inmem.NewFactRepository`, is not part of this model.

  The fact transport's tests assume the sentinels match: a PUT to an unknown
  id answers 201 (`pkg/factlist/http_test.go:101-107`). With distinct values,
  that PUT would answer 500 "could not update fact: trivia not found", and a
  DELETE of an absent id would answer 500 instead of 404.
- Two behaviours of the code are easy to miss; the model follows the code:
  - An explicit id is checked against the set of ids ever used, not only
    against live records. So an id that was deleted cannot be inserted again.
    An update-or-create on such an id fails with a wrapped error (status 500),
    not 409.
  - A PUT whose path id is 0 or negative, and matches no live record, is
    stored under a fresh auto-assigned id. The 201 answer carries that new id
    (`Scenarios.UpdateNonPositiveIdAutoAssigns`).

## Model

| member | source | states |
|---|---|---|
| InMem.Skip | pkg/inmem/inmem.go:36-38 | the skip loop ends on a value at or above its start that is not used, and every value it passed over is used |
| InMem.NextId | pkg/inmem/inmem.go:35-39 | the auto-assigned id is the least value strictly above the counter that is not in the used set |
| InMem.AllocateId | pkg/inmem/inmem.go:35-38 | the increment-then-skip loop, written with a mutable counter, terminates and yields that least fresh value above the counter |
| InMem.IndexOf | pkg/inmem/inmem.go:68-74 | the front-to-back scan finds the first record with the id, or reports that no record has it |
| InMem.Insert | pkg/inmem/inmem.go:21-43 | a positive id that is already used gives AlreadyExists and no change; a fresh positive id is appended and marked used, and the counter is untouched; an id of 0 or less gets the least fresh value above the counter, and the counter moves to it |
| InMem.FindAll | pkg/inmem/inmem.go:45-50 | never fails; returns the live records in order |
| InMem.FindByID | pkg/inmem/inmem.go:52-62 | returns the first record with the id; fails with NotFound exactly when no record has it |
| InMem.Update | pkg/inmem/inmem.go:64-75 | overwrites the first matching record at its index; nothing else in the list changes, nor the used set or counter; an absent id gives NotFound and no change |
| InMem.DeleteByID | pkg/inmem/inmem.go:77-88 | removes exactly the first matching record and keeps the others in order; the used set and counter are kept; an absent id gives NotFound and no change |
| InMem.EmptyValid | pkg/inmem/inmem.go:17-19 | a fresh repository satisfies the invariant: unique live ids, all of them used, used ids positive, counter non-negative |
| InMem.InsertPreservesValid | pkg/inmem/inmem.go:21-43 | Insert keeps the invariant, and every id it accepts or assigns is positive |
| InMem.UpdatePreservesValid | pkg/inmem/inmem.go:64-75 | Update keeps the invariant |
| InMem.DeletePreservesValid | pkg/inmem/inmem.go:77-88 | DeleteByID keeps the invariant |
| InMem.InsertThenFind | pkg/inmem/inmem.go:21-62 | after a successful Insert, FindByID of the resulting id returns the inserted record |
| InMem.UpdateThenFind | pkg/inmem/inmem.go:52-75 | after an Update of a live id, FindByID of that id returns the new record |
| InMem.RunPreservesValid | pkg/inmem/inmem.go:21-88 | any sequence of Insert/Update/DeleteByID from a valid store keeps the invariant (proof by induction on the sequence) |
| InMem.ReachableIsValid | pkg/inmem/inmem.go:17-88 | in every store reachable from the fresh repository, live ids are pairwise distinct and all in the used set |
| InMem.RunKeepsUsed | pkg/inmem/inmem.go:77-88 | no sequence of operations shrinks the used set or lowers the counter |
| InMem.DeletedIdRetired | pkg/inmem/inmem.go:25-28 | after a successful delete, whatever follows, inserting that id explicitly fails with AlreadyExists, and auto-assignment never returns it |
| Errors.Wrap | pkg/factlist/service.go:31 | a wrapped error is opaque; its text is the context, a colon and a space, then the cause's text |
| Errors.MessageTexts | pkg/fact.go:9-12 | the texts of the sentinels and of the non-numeric id errors in both domains |
| Service.Save | pkg/factlist/service.go:29-34 | fails exactly when a positive caller id is already used, with the wrapped text "could not save …: trivia already exists" and no change; on success returns the input's payload with the caller's positive id or a fresh one, appended to the list; the id joins the used set, and the counter moves to it only when it was auto-assigned |
| Service.List | pkg/factlist/service.go:36-42 | returns the repository's records in order |
| Service.Update | pkg/factlist/service.go:44-57 | a live id is replaced in place and reported as not created; an absent, positive, unused id is inserted under that id and reported as created; an absent id that is already used fails with the wrapped "could not create …" text and no change; an absent id of 0 or less is created under a fresh id |
| Service.Remove | pkg/factlist/service.go:59-67 | an absent id gives the raw NotFound and no change; otherwise the first matching record is removed |
| Service.CreateCollisionText | pkg/trivia/service.go:49 | the collision text of update-or-create is "could not create <noun>: trivia already exists" |
| Service.SaveErrorsAreWrapped | pkg/trivia/service.go:29-34 | a failed Save returns only an opaque wrapped error, never a raw sentinel, and changes nothing |
| Service.SavedIdIsPositive | pkg/factlist/service_test.go:14-29 | in a valid store a saved record always has a positive id |
| Service.UpdateExistingReplaces | pkg/factlist/service_test.go:77-102 | updating a live id returns created = false; every record with that id becomes the new record, creation time included; the length, the other records, the used set and the counter stay the same |
| Service.UpdateMissingCreatesOrFails | pkg/trivia/service.go:44-52 | updating an id that is not live either creates it (created = true, and a positive caller id is kept) or, exactly when the id is already used, fails with a wrapped error and no change |
| Service.RemoveErrors | pkg/trivia/service.go:59-66 | Remove fails exactly when the id is absent, and then with the unwrapped NotFound |
| Service.RemoveThenAbsent | pkg/factlist/service.go:59-67 | after a successful Remove the id is no longer live, the list is one shorter, and a second Remove or a FindByID gives NotFound |
| Service.SaveThenRemoveRestores | pkg/factlist/service_test.go:60-75 | saving a record and then removing the id it received leaves List exactly as it was before |
| Service.SaveAllThenList | pkg/factlist/service_test.go:31-58 | after saving n payloads, List shows the old records followed by the new ones in save order, each with a positive id and its payload |
| Http.StatusOf | pkg/trivia/http.go:137-154 | every error maps to one of 400, 404, 405, 409 or 500 |
| Http.StatusClassification | pkg/factlist/http.go:176-193 | 404 exactly for NotFound or ResourceNotFound; 409 exactly for AlreadyExists; 400 exactly for the non-numeric id or any invalid body; 405 exactly for MethodNotAllowed; 500 exactly for a wrapped error, whatever it wraps |
| Http.WriteError | pkg/trivialist/http.go:171-191 | the error object carries the mapped status and the error's own text: "invalid request body: " plus the cause, "<noun> id must be numeric", or a wrapped error's text |
| Http.HandleSave | pkg/factlist/http.go:78-92 | a bad body is a 400 with no change; otherwise the record is saved with id 0, so the answer is always 200 with a freshly assigned id and the payload |
| Http.HandleList | pkg/factlist/http.go:103-116 | 200 with one entry per stored record, in order, and no change |
| Http.HandleRemove | pkg/factlist/http.go:119-133 | a non-numeric id is a 400 with no service call; an absent id is a 404 "trivia not found"; otherwise a 204 with no body, and the first matching record is removed |
| Http.HandleUpdate | pkg/factlist/http.go:148-173 | a non-numeric id is a 400 whatever the body; then a bad body is a 400; the record carries the path id; a live id answers 200 and the record replaces the first match in place, with the used set and counter kept; an unused positive id answers 201 and is appended; a used but absent id answers 500 with no change; an id of 0 or less answers 201 under a fresh id, and the store is the one the auto-assigning insert leaves |
| Http.HandleSaveBare | pkg/trivia/http.go:44-58 | a bad body is a bare 400 with no body and no change; otherwise 200 with a fresh id and the payload, and the store is the one the repository insert leaves |
| Http.HandleListBare | pkg/trivia/http.go:68-80 | 200 with the stored records in order |
| FactlistHttp.HandleSaveFact | pkg/factlist/http.go:78-92 | the saved fact is built from question and answer only: the creation time is zero and the id is auto-assigned; the store is the one the auto-assigning insert leaves (appended, id marked used, counter moved to it) |
| FactlistHttp.HandleListFact | pkg/factlist/http.go:103-116 | the answer is 200 with exactly the stored facts in order (an empty array for an empty store) |
| FactlistHttp.HandleRemoveFact | pkg/factlist/http.go:119-133 | non-numeric id → 400 "fact id must be numeric", no change; absent id → 404, no change; otherwise 204, and exactly the first fact with that id is removed, with the others in order and the used set and counter kept |
| FactlistHttp.HandleUpdateFact | pkg/factlist/http.go:148-173 | id before body; the path id and the request's fields (creation time included) form the record; 200 on replace, with the record stored at the first match; 201 on create, with the record appended and its id marked used; 500 on a deleted id, with no change; an id of 0 or less with no live match answers 201 under a fresh id, with the store the auto-assigning insert leaves |
| TrivialistHttp.HandleSaveTrivia | pkg/trivialist/http.go:76-90 | the saved item is built from the name only: the creation time is zero and the id is auto-assigned; the store is the one the auto-assigning insert leaves |
| TrivialistHttp.HandleListTrivia | pkg/trivialist/http.go:100-113 | 200 with exactly the stored items in order |
| TrivialistHttp.HandleRemoveTrivia | pkg/trivialist/http.go:116-129 | non-numeric id → 400 "trivia id must be numeric" before any service call; absent → 404; otherwise 204, and exactly the first item with that id is removed, with the used set and counter kept (pkg/trivia/http.go:84-96 makes the same decisions) |
| TrivialistHttp.HandleUpdateTrivia | pkg/trivialist/http.go:143-168 | id before body; path id used; 200 on replace, with the record stored at the first match; 201 on create, with the record appended; 500 on a deleted id, with no change; an id of 0 or less with no live match answers 201 under a fresh id, with the store the insert leaves (pkg/trivia/http.go:110-134 makes the same decisions) |
| TriviaHttp.HandleSaveTrivia | pkg/trivia/http.go:44-58 | a bad body is a bare 400; the item is built from the name only, gets a fresh id and is inserted into the store |
| TriviaHttp.HandleListTrivia | pkg/trivia/http.go:68-80 | 200 with the stored items in order |
| Scenarios.GapFill | pkg/inmem/inmem.go:25-40 | with explicit ids 1, 2, 3 taken, the next auto-assigned id is 4; with 4 also taken it is 5 |
| Scenarios.CreateListDeleteList | pkg/factlist/http.go:66-133 | POST gives 200 and a positive id; GET lists exactly that fact; DELETE gives 204 with no body; GET then gives 200 and an empty array |
| Scenarios.UpdateHandlerCases | pkg/factlist/http_test.go:81-178 | with one saved fact (id 1): PUT /fact/1 gives 200 and a replaced fact; PUT /fact/1337 gives 201 and id 1337; a non-numeric id gives 400 even with a bad body; a bad body gives 400 "invalid request body: …" |
| Scenarios.UpdateNonPositiveIdAutoAssigns | pkg/factlist/service.go:44-51 | a PUT with a path id of 0 or less and no live match answers 201 with a different, positive id |
| Scenarios.ServeIsRepositoryRun | pkg/factlist/http.go:66-173 | each handled request changes the repository by at most one repository operation |
| Scenarios.ServeAllPreservesValid | pkg/factlist/http.go:16-45 | no sequence of requests to the fact server breaks the repository invariant (proof by induction on the requests) |
| Scenarios.PutAfterDelete | pkg/factlist/service.go:46-50 | after a fact is deleted, a PUT to its id answers 500 with the wrapped collision text and changes nothing |

## Left out

- Locking: the read/write mutex of the repository. Each repository call is one atomic step. The race between the two steps of update-or-create is not modelled; the steps are simply sequential.
- JSON encoding and decoding, including timestamp formatting and the key-casing quirks of the update request and response. The decode outcome is an input.
- `strconv.ParseInt` and `way.Param`: the parsed path id is an input `Option<int>`.
- Routing: the route table, the not-found fallback and the PUT patterns without a leading slash. `ResourceNotFound` and `MethodNotAllowed` appear only in the status mapping.
- Response headers, including `Content-Type` being set after `WriteHeader(201)`.
- Logging middleware and the `logging.go` decorators. They only record and forward, and they read the wall clock.
- Process bootstrap (`cmd/main.go`) and `context.Context`, which the core never inspects.
- Integer width: ids and the counter are unbounded integers. The 64-bit wrap-around of the counter is not modelled.
- Path-id range: in the code, `strconv.ParseInt(…, 10, 64)` rejects a path segment outside the 64-bit range as a parse failure, so the handler answers 400 "<noun> id must be numeric". The model's `Option<int>` input also admits `Some(n)` values outside 64 bits, which the code never produces. An out-of-range segment corresponds to the input `None`, which the model answers with the same 400.
- The alias that `FindAll` returns to the internal slice. The model returns a value.
- Service.List: its wrapped "could not list all …" error is written out but cannot arise, because the in-memory `FindAll` never fails.
- Service.Update: its "could not update fact"/"could not update task" branch is written out but cannot arise, because the in-memory `Update` fails only with NotFound.
- Service.Remove: likewise, its "could not remove …" branch cannot arise with the in-memory repository.
