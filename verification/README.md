# Task store model

A Dafny model of the task-tracking service's core: the repository primitives
over the task collection (`MyTaskRepository`) and the service rules above them
(`TaskService`). The collection is an immutable `seq<MyTask>` in store order;
every state-changing operation is a pure function that returns the new store
together with its answer (`Option<MyTask>` where the source returns `MyTask?`);
the read-only operations return just their answer.

Modules, one per component:

- `Wrappers` — `Option`, standing for the source's nullable results.
- `TaskModel` — the `MyTask` record (`TaskId`, `Description`, `Done`), the
  `Store`, its key set `Ids`, the key-uniqueness invariant `UniqueIds`, and
  `FirstMatch` (the first record with a given key, as `FirstOrDefaultAsync`
  returns it).
- `Repository` — list, first-match lookup, append, and overwrite-by-key.
- `Service` — id assignment on create (largest id plus one, or 1 on an empty
  store) and the read-modify-write that sets a task's `Done` flag.
- `History` — any sequence of create and toggle requests replayed from an
  empty store, and the exact listing it produces.
- `IdOverflow` — id assignment with the source's 32-bit keys (see Findings).

Lookup returns the first record with the key in store order
(`FirstOrDefaultAsync`); nothing checks that a description is non-empty (the
`required` modifier on `Description` only demands that a value be supplied).

## Model

| member | source | states |
|---|---|---|
| Repository.FindIndex | Repository/MyTaskRepository.cs:14-15 | None exactly when no record has the key; otherwise the position of the first record with that key |
| Repository.GetTasks | Repository/MyTaskRepository.cs:12 | the listing is every stored record, in store order, nothing added or dropped |
| Repository.GetTaskById | Repository/MyTaskRepository.cs:14-15 | absent exactly when the key is not stored; otherwise the first record carrying the key |
| Repository.GetTaskByIdUnique | Repository/MyTaskRepository.cs:14-15 | on a store with unique keys, lookup yields `t` if and only if `t` is stored and has the key |
| Repository.CreateTask | Repository/MyTaskRepository.cs:17-22 | appends the task at the end and returns it unchanged; length grows by one, the key set gains exactly the new key, key uniqueness is kept |
| Repository.CreateThenFind | Repository/MyTaskRepository.cs:12-21 | after appending a task with a fresh key the listing contains it and lookup by its key returns it |
| Repository.UpdateTask | Repository/MyTaskRepository.cs:24-37 | unknown key: absent and store unchanged; known key: the first matching record becomes the argument (key kept, `Done` and `Description` overwritten) and is returned; every record with another key, the length and the key set are unchanged, so uniqueness is kept |
| Repository.ReplaceKeepsIds | Repository/MyTaskRepository.cs:32-33 | overwriting a record's fields while keeping its key changes neither the key set nor key uniqueness |
| Repository.UpdateIdempotent | Repository/MyTaskRepository.cs:32-34 | updating twice with the same argument gives the same store and answer as updating once |
| Service.MaxId | Service/TaskService.cs:31 | the result bounds every stored key and is itself a stored key |
| Service.NextId | Service/TaskService.cs:31 | 1 on an empty store; otherwise one more than a stored key and greater than every stored key, hence not in the key set |
| Service.GetTasks | Service/TaskService.cs:10 | delegates to the repository listing; same records with the same multiplicities as the store |
| Service.GetTaskById | Service/TaskService.cs:12-13 | delegates to the repository lookup; absent exactly when the key is not stored, otherwise a stored record with that key |
| Service.CreateTask | Service/TaskService.cs:28-41 | the new task is pending, has the caller's description and the id max + 1 (one more than a stored id and greater than every stored id, so fresh; 1 on an empty store); the store grows by exactly that task at the end and key uniqueness is kept |
| Service.ToggleTaskStatus | Service/TaskService.cs:15-26 | unknown key: absent and store unchanged; known key: the first matching record gets `Done == done` with key and description kept, is returned and is the only record changed; length, key set and key uniqueness are kept |
| Service.ToggleThenFetch | Service/TaskService.cs:15-26 | a lookup right after a toggle returns the toggled record, whose flag is the requested one |
| Service.ToggleIdempotent | Service/TaskService.cs:15-26 | toggling twice to the same value gives the same store and answer as toggling once |
| Service.ToggleRevert | Service/TaskService.cs:23-25 | toggling to any value and then back to the previous value restores the store exactly |
| History.SequentialNextId | Service/TaskService.cs:31 | on a store numbered 1..n in order, the next id is n + 1 |
| History.ReplayListing | Service/TaskService.cs:15-41 | after any creates and toggles from an empty store the listing has one task per create, ids 1..K in creation order, each with its description and the flag of its latest toggle issued after its creation (false if none) |
| History.SequentialIdsFromEmpty | Service/TaskService.cs:31-38 | N creates from an empty store give ids 1..N in order, each pending with its own description |
| History.BuyMilkScenario | Service/TaskService.cs:15-41 | creating "buy milk" on an empty store gives the one-task store with task 1, pending; marking id 1 done in that store yields the store and answer with that task done; marking id 99 on an empty store finds nothing and changes nothing |
| IdOverflow.NextIdUnchecked | Service/TaskService.cs:31 | the 32-bit id rule stays in the 32-bit range, agrees with the unbounded rule while the largest key is below the 32-bit maximum, and wraps to the 32-bit minimum at that maximum |
| IdOverflow.UncheckedNextIdCollides | Service/TaskService.cs:31 | for a store with unique keys holding both 32-bit extremes, the 32-bit rule returns a key already in use while the unbounded rule does not |

## Findings

| source | as written | input that shows it | evidently intended | confidence | as-written member | corrected member |
|---|---|---|---|---|---|---|
| Service/TaskService.cs:31 | `tasks.Max(t => t.TaskId) + 1` in 32-bit `int`, which wraps in unchecked C# arithmetic (the compiler default) | a store with keys -2147483648 and 2147483647 (the first reached by one create past the second): the next id is -2147483648, already taken | the new id is not in use | medium, not executed (a project-level checked-arithmetic setting would turn the wrap into an exception instead) | IdOverflow.UncheckedNextIdCollides | Service.NextId |

## Left out

- Process wiring (`Program.cs`: dependency injection, CORS, OpenAPI, HTTPS redirection): configuration with no logic to state.
- HTTP routes (`Routes/TaskRoutes.cs`): the absent answer becomes 404 and a create becomes 201 with location `/tasks/{id}`; these are framework translations of the service's answers and are not modelled.
- The storage engine (`Data/TaskDbContext.cs`, change tracking, `SaveChanges`): the store is an abstract sequence; storage failures are not modelled.
- Repository.CreateTask: requires the key to be fresh, because what the storage engine does with a duplicate key is not visible in this code; with unbounded ids the service always satisfies it (`Service.NextId`); with the source's 32-bit ids it does not (see Findings), and what the storage engine then does is not modelled. A zero key, which the storage engine's key-generation convention replaces by a key of its own choosing, is stored as 0 here; the service never passes 0, since its ids start at 1.
- Entity aliasing: the source mutates the tracked record returned by lookup before calling update; the model reads a value, changes it and writes it back, which gives the same observable result.
- async/await and concurrency: operations are sequential steps; the non-atomic read-max-then-insert race between concurrent creates is not modelled.
- Service.NextId: ids are unbounded integers, so the 32-bit wrap of `max + 1` at 2147483647 appears only in `IdOverflow` (see Findings).
- Service.CreateTask: "an id greater than every existing id" holds only with unbounded ids; with the source's 32-bit ids it fails once 2147483647 is stored, as `IdOverflow.UncheckedNextIdCollides` shows.
- History.SequentialNextId: n + 1 holds only with unbounded ids; at n = 2147483647 the source's 32-bit rule yields -2147483648 (`IdOverflow.NextIdUnchecked`).
- History.ReplayListing: ids 1..K hold in the source only while K < 2^31; the model's ids are unbounded (`IdOverflow`). It also relies on the listing being in insertion order (below).
- History.SequentialIdsFromEmpty: ids 1..N hold in the source only while N < 2^31; the 2^31-th create gets -2147483648 there (`IdOverflow`). It also relies on the listing being in insertion order (below).
- Listing order: the code leaves the order of `ToList()` to the storage engine; the model assumes records are listed in insertion order (there is no deletion path), and the positional statements of `History.ReplayListing` and `History.SequentialIdsFromEmpty` depend on that assumption. Lookup by key and the id rule do not depend on order.
- The `TaskCurrentStatus` enum (`Model/Task.cs:5-10`): nothing uses it.
