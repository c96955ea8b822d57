# Task resource: a functional model

This project models the task-management resource of a Go web backend. Users create,
list, fetch, delete and change the status of tasks scoped to their account. Three
layers are modelled:

- the request adapter (`TaskRequest` and its conversion into a domain task),
- the persistence gateway (`taskRepository`) over the `tasks` table,
- the HTTP handlers (`TaskController`).

The thin service layer forwards every call unchanged, so the handlers call the
repository directly.

The table is an abstract store `Store(rows: map<nat, Row>, nextId)`: a map from id to
row, plus the next id the table's sequence will issue. `Save` is an insert with no
condition. The four other repository operations each apply a `Cond` over the table
(`id`, `user_id`, `deleted_date IS NULL`), as the Go code states it. A driver failure is a `fault` parameter of each call. `time.Now()` is a `now`
parameter. The handlers parse the path id with `ParseUint64`, a value-level definition; `ParseUint` is the digit loop of `strconv.ParseUint`, proved to agree with it on every string. Instants are whole seconds since the Unix epoch. Go's zero `time.Time` is
`ZeroTime` (-62135596800). Each handler is a pure function from (path id string,
decoded body, authenticated user, store) to an `Exchange`: the HTTP status, the
payload and the new store.

Files:

- `basics.dfy`: `u64`, `i64`, `Time`, `Option`, Go's `(value, err)` pair as `Fallible`, and `Body` (a decoded body or a rejection).
- `domain.dfy`: `Task`, `User`, the status literals `NEW`, `IN_PROGRESS` and `DONE`.
- `requests.dfy`: `TaskRequest` and `ToDomainModel`.
- `task_repository.dfy`: `Row`, `Store`, the mappers, `Cond`/`Find`, and the five repository operations.
- `task_controller.dfy`: the status whitelist, base-10 `uint64` parsing of the path id, and the five handlers.
- `task_scenarios.dfy`: properties across several requests, such as create-then-get, update-then-get and delete-then-get, plus the soft-delete visibility rule.

## Model

| member | source | states |
|---|---|---|
| Requests.ToDomainModel | internal/infra/http/requests/task_request.go:15-26 | never fails; title and description copied; deadline absent exactly when the request's deadline is 0, otherwise equal to that epoch second; id, user id, status and dates left at their zero values |
| Requests.DeadlineRoundTrip | internal/infra/http/requests/task_request.go:16-20 | reading the converted deadline back as epoch seconds (0 when absent) returns the request's deadline |
| TaskRepository.MapModelToDomain | internal/infra/database/task_repository.go:69-95 | row to task is inverted by task to row: mapping the result back gives the original row |
| TaskRepository.DomainModelRoundTrip | internal/infra/database/task_repository.go:69-95 | `MapDomainToModel` (lines 69-81) followed by `MapModelToDomain`: task to row and back is the identity, since every field is copied |
| TaskRepository.MapModelToDomainCollection | internal/infra/database/task_repository.go:97-103 | same length; element i is the mapped row i, so order is preserved |
| TaskRepository.Find | internal/infra/database/task_repository.go:58-60 | a query returns exactly the rows meeting its condition, each once; the ascending id order is the model's choice, since the query asks for no order |
| TaskRepository.Save | internal/infra/database/task_repository.go:44-54 | on success the input is stored under a fresh id (the sequence's next id when the input id is 0, the input id otherwise) with creation and update date `now` and no other row changed, the stored task is returned, and the sequence advances by one exactly when it issued the id; on error the zero task is returned and no row changes; success exactly when there is no driver failure and the id is free |
| TaskRepository.GetByUserId | internal/infra/database/task_repository.go:56-67 | fails only on a driver failure; lists exactly the rows with that user id and no deletion date, each once and mapped; the ascending id order is the model's choice |
| TaskRepository.GetByID | internal/infra/database/task_repository.go:107-114 | succeeds exactly when a row with that id and no deletion date exists and returns it mapped; otherwise the zero task and an error, which is "no more rows" unless the driver failed |
| TaskRepository.DeleteByID | internal/infra/database/task_repository.go:118-124 | without a driver failure, always succeeds and removes the row with that id, soft-deleted or not; nothing else changes |
| TaskRepository.UpdateStatus | internal/infra/database/task_repository.go:128-138 | without a driver failure, always succeeds; only the status of the row with that id changes, whether or not the row is soft-deleted, and its update date is kept; a missing id changes nothing |
| TaskController.IsValidTaskStatus | internal/infra/http/controllers/task_controller.go:160-167 | true exactly for NEW, IN_PROGRESS and DONE |
| TaskController.ParseUint | internal/infra/http/controllers/task_controller.go:73 | `ParseUint64`, the parse every handler applies to the path id (lines 73, 99 and 122), is proved equal on every string to strconv's digit loop: the loop with its overflow checks accepts exactly the non-empty all-digit strings whose value fits in 64 bits and returns that value; a syntax error returns 0, a range error returns 2^64-1 and happens only when some digit prefix exceeds 64 bits |
| TaskController.FormatThenParse | internal/infra/http/controllers/task_controller.go:73 | every 64-bit id written in decimal parses back to itself |
| TaskController.Save | internal/infra/http/controllers/task_controller.go:27-50 | a rejected body is 400 with the store untouched; otherwise the stored task belongs to the caller and is NEW whatever the body said, with the body's title and description, no deadline when the body's deadline is 0 and that epoch second otherwise; 201 exactly when the store accepts the insert, and 500 on any store error |
| TaskController.GetForUser | internal/infra/http/controllers/task_controller.go:52-67 | 500 exactly on a store error; otherwise 200 listing exactly the caller's live tasks, each once; a 500 carries an error; the store never changes |
| TaskController.GetByID | internal/infra/http/controllers/task_controller.go:70-93 | 400 on an id that is not a base-10 uint64; 200 exactly when a live task has that id, with that task; 500 with an error otherwise, a missing task included; the store never changes |
| TaskController.DeleteByID | internal/infra/http/controllers/task_controller.go:96-116 | 400 on a malformed id and 500 with an error on a store error, both with the store untouched; otherwise 200 and the row with that id is gone |
| TaskController.UpdateStatus | internal/infra/http/controllers/task_controller.go:119-157 | checks the id, then the body, then the whitelist; each refusal is 400 with the store untouched; then, once every check has passed, 500 with the store untouched on a store error; 200 exactly when all checks pass and the store succeeds, with only that row's status changed |
| TaskScenarios.SoftDeletedInvisible | internal/infra/database/task_repository.go:107-114 | a row with a deletion date is fetched by id as an error and is never listed for its owner |
| TaskScenarios.DeleteReachesSoftDeleted | internal/infra/database/task_repository.go:118-124 | delete ignores the deletion date: a soft-deleted row is physically removed |
| TaskScenarios.NoOwnershipCheck | internal/infra/http/controllers/task_controller.go:96-157 | delete and status change reach any task by its id, whoever owns it |
| TaskScenarios.CreateThenGet | internal/infra/http/controllers/task_controller.go:27-93 | fetching the id returned by a 201 yields 200 with the same task |
| TaskScenarios.UpdateThenGet | internal/infra/http/controllers/task_controller.go:119-157 | after a successful status change of a live task, fetching it shows the new status |
| TaskScenarios.IllegalStatusLeavesStore | internal/infra/http/controllers/task_controller.go:140-145 | a status outside the whitelist is 400 with the illegal status named, and the store is unchanged, even when the store would have failed |
| TaskScenarios.DeleteThenGet | internal/infra/http/controllers/task_controller.go:96-116 | after a successful delete, fetching the same id is 500 |
| TaskScenarios.CreateWithoutDeadline | internal/infra/http/controllers/task_controller.go:36-48 | creating `{"title":"Write spec","deadline":0}` as user 7 gives 201 with a NEW task owned by user 7 and no deadline |

## Left out

- The `domain` package is not part of this model. `Task` and `User` are inferred from the repository's mappers and the handlers' use of `user.Id`. The status literals come from the handler's error message at `task_controller.go:141`.
- `requests.Bind` is not part of this model. Its verdict is the handler's `Body` parameter: `Rejected` stands for any decoding failure or failed `validate:"required"` check on the title. An accepted body is assumed to have passed validation and is converted with `ToDomainModel`.
- `resources.TaskDto` conversion is not part of this model. Payloads carry the domain task itself.
- Response writing is left out. This covers the JSON envelopes, the literal confirmation texts (modelled as `TaskDeleted` / `StatusChanged`) and the error message texts (modelled as `Failure` values).
- Routing, `chi.URLParam`, logging and the `r.Context()` user lookup are I/O plumbing. The path id and the user are parameters.
- The database's own behaviour is modelled only as far as the query conditions in the code. Any failure is a `fault` parameter. The order of `All` is modelled as ascending id, because the code requests no order.
- TaskRepository.Save: gives `CreatedDate` and `UpdatedDate` the same `now`, while the code calls `time.Now()` twice. Timestamp precision and time zones of `time.Unix` are not modelled.
- TaskRepository.Save: when the sequence passes 2^64-1, the model reports `IdsExhausted`. The real limit depends on the table's schema, which this code does not define.
- Go's `nil` slice for an empty list and on a failed list read is modelled as the empty sequence.
- `internal/app/task_service.go` declares an empty interface with no behaviour. It is treated as a pass-through: each handler calls the repository operation of the same meaning, and `GetForUser` calls `GetByUserId`.
- Concurrent requests and the store's last-write-wins races are not modelled. Each handler is one atomic step on the store.
- Deletion looks meant to be a soft delete, since the table has `deleted_date` and every read filters on it. The code deletes the row outright with no `deleted_date` condition, and the model follows the code (see `TaskScenarios.DeleteReachesSoftDeleted`).
