# Task service model

A Dafny model of the task store behind the training project's REST API:
the `Task` JPA entity and its lifecycle hooks, the `TaskDTO` and its
bean-validation constraints, the Spring Data `TaskRepository` queries, and
`TaskService` with its Spring cache annotations written out as explicit
steps.

- `wrappers.dfy`: `Option`, standing for a nullable Java reference.
- `entity.dfy` (module `Entity`):
  - the two enums;
  - `TaskRow`, the field values of a `Task`;
  - `Persistable`, the column constraints of the `tasks` table;
  - class `Task`, whose `OnCreate` and `OnUpdate` hooks set its fields in place. Each hook is proved against a pure function, `Created` and `Updated`.
- `dto.dfy` (module `Dto`):
  - `TaskDto`;
  - `Valid`, the `@NotBlank` / `@Size` constraints. `@NotBlank` is Hibernate Validator's "not null and not empty after `String.trim`", and trim drops every character up to U+0020.
- `repository.dfy` (module `Repository`):
  - the `tasks` table as a map from primary key to row;
  - the inherited CRUD;
  - the three derived queries, as functions on the table;
  - lemmas about what each query returns.
- `service.dfy` (module `Service`):
  - `mapToDTO` and `mapToEntity`;
  - class `TaskService`, holding the table, its IDENTITY counter, the `"tasks"` cache (id to DTO) and the `"tasksByStatus"` cache (status to list of DTOs).

   The class invariant `Valid()` has two parts:
   - the store is well formed: keys come from the counter, each row carries its own key, and every row meets the column constraints;
   - every cached entry equals what the store would give now.

   Every operation preserves it. Each write operation is split in two:
   - an uncached method modelling the Java method body;
   - the cache advice around it.

### Cache steps

- `@Cacheable`: a hit returns the cached value and makes no repository call. A miss runs the body and stores its result.
- `@CachePut`: runs the body, then stores its result.
- `@CacheEvict(allEntries = true)`: clears the cache after a normal return.

Since `beforeInvocation` is false, a body that ends in `ResourceNotFoundException` or a constraint violation touches neither cache. A ghost counter, `repositoryCalls`, records the repository calls made by the methods (`GetTaskById`, `GetTasksByStatus`, `Save` and the three writes), so a contract can say whether one happened. The three table-only reads, `GetAllTasks`, `SearchTasksByTitle` and `GetTaskCount`, are functions and are not counted.

### Modelling choices

- **Clock.** The clock is a parameter. `onCreate` calls `LocalDateTime.now()` twice, so `createdAt` and `updatedAt` may differ; `CreateTask` takes both readings as parameters.
- **`save`.** An entity without an id is persisted: the pre-persist hook runs and the row gets the next IDENTITY value. An entity with an id is merged: the pre-update hook runs and the row is overwritten, except `created_at`, which is `updatable = false`. A row that breaks a column constraint is refused with `ConstraintViolation` and nothing is stored. `updateTask` reaches this when the DTO has no status or priority, because validation does not require them and `onUpdate` applies no defaults.
- **Query order.** Queries list rows in ascending id order, since SQL leaves the natural order open. `OrderByCreatedAtDesc` is a stable sort by `createdAt`, newest first.
- **Ignore-case search.** `ContainingIgnoreCase` upper-cases ASCII letters on both sides and matches the search string literally.
- **Cache expiry.** The 600-second TTL becomes `Expire`, which may drop any cache entries at any time.

## Model

| member | source | states |
|---|---|---|
| Entity.StatusValues | src/main/java/com/devops/training/entity/Task.java:67-72 | TaskStatus has exactly four distinct values, TODO, IN_PROGRESS, COMPLETED and CANCELLED, and every status is one of them |
| Entity.PriorityValues | src/main/java/com/devops/training/entity/Task.java:74-79 | TaskPriority has exactly four distinct values, LOW, MEDIUM, HIGH and CRITICAL, and every priority is one of them |
| Entity.CreatedDefaults | src/main/java/com/devops/training/entity/Task.java:53-59 | after onCreate, status and priority are set: a missing status becomes TODO and a missing priority becomes MEDIUM, and values already set are kept |
| Entity.CreatedTimestamps | src/main/java/com/devops/training/entity/Task.java:50-52 | onCreate sets createdAt and updatedAt from the two clock readings and leaves id, title, description and dueDate alone; createdAt <= updatedAt when the clock does not run backwards |
| Entity.UpdatedTouchesOnlyUpdatedAt | src/main/java/com/devops/training/entity/Task.java:62-65 | onUpdate sets updatedAt and changes nothing else: no status or priority default is re-applied and createdAt is kept |
| Entity.Task.FromRow | src/main/java/com/devops/training/entity/Task.java:15-45 | the all-arguments constructor builds an object whose fields are exactly the given values |
| Entity.Task.OnCreate | src/main/java/com/devops/training/entity/Task.java:49-60 | the hook's in-place assignments leave the object equal to Created of its previous fields |
| Entity.Task.OnUpdate | src/main/java/com/devops/training/entity/Task.java:62-65 | the hook changes only the updatedAt field, leaving the object equal to Updated of its previous fields |
| Dto.TrimLeading | src/main/java/com/devops/training/dto/TaskDTO.java:20 | the result is a suffix of the input that does not start with a trimmable character, and everything dropped is trimmable |
| Dto.TrimTrailing | src/main/java/com/devops/training/dto/TaskDTO.java:20 | the result is a prefix of the input that does not end with a trimmable character, and everything dropped is trimmable |
| Dto.TrimEmptyIffAllTrimmed | src/main/java/com/devops/training/dto/TaskDTO.java:20 | a string trims to empty exactly when every character in it is at most U+0020 |
| Dto.ValidTitleIff | src/main/java/com/devops/training/dto/TaskDTO.java:20-22 | a title is valid iff it is present, contains a character above U+0020, and is 3 to 200 characters long |
| Dto.BlankTitleInvalid | src/main/java/com/devops/training/dto/TaskDTO.java:20-21 | a title of 3 to 200 characters that are all whitespace is still invalid: the length rule does not override @NotBlank |
| Dto.ValidDescriptionIff | src/main/java/com/devops/training/dto/TaskDTO.java:24-25 | a description is valid iff it is absent or at most 1000 characters long |
| Dto.ValidityIgnoresOtherFields | src/main/java/com/devops/training/dto/TaskDTO.java:16-36 | two DTOs with the same title and description are equally valid: id, status, priority and the three timestamps carry no constraint |
| Dto.ValidFitsColumns | src/main/java/com/devops/training/entity/Task.java:24-28 | a valid DTO's title is present and fits the 200-character column, and its description fits the 1000-character column |
| Repository.AscendingKeys | src/main/java/com/devops/training/entity/Task.java:20-22 | lists every key exactly once, strictly increasing |
| Repository.MatchingKeys | src/main/java/com/devops/training/repository/TaskRepository.java:13-17 | keeps exactly the listed keys whose row satisfies the query condition, in their given order |
| Repository.FindWhereMembers | src/main/java/com/devops/training/repository/TaskRepository.java:13-17 | a derived query returns a row iff the row is stored and satisfies the condition |
| Repository.FindWhereAscending | src/main/java/com/devops/training/repository/TaskRepository.java:13-17 | in a derived query's result, ids are present and strictly increasing, so no row appears twice |
| Repository.FindAll | src/main/java/com/devops/training/repository/TaskRepository.java:11 | findAll returns one row per stored key, and a row is in the result iff it is stored |
| Repository.CrudIsMapAccess | src/main/java/com/devops/training/repository/TaskRepository.java:11 | existsById holds iff findById finds a row; deleteById removes only that key; count drops by one iff the key was present |
| Repository.FindByStatusExact | src/main/java/com/devops/training/repository/TaskRepository.java:13 | findByStatus(s) returns exactly the stored tasks with status s, each once, in ascending id order |
| Repository.InsertByCreatedAt | src/main/java/com/devops/training/repository/TaskRepository.java:17 | inserting into a newest-first list keeps it newest first and adds exactly that row |
| Repository.SortNewestFirst | src/main/java/com/devops/training/repository/TaskRepository.java:17 | the result is a permutation of the input, ordered newest createdAt first |
| Repository.FindByStatusOrderByCreatedAtDesc | src/main/java/com/devops/training/repository/TaskRepository.java:17 | the result is a permutation of findByStatus(s), ordered newest createdAt first |
| Repository.OrderedByCreatedAtMembers | src/main/java/com/devops/training/repository/TaskRepository.java:17 | the ordered query returns a row iff the row is stored with status s, the same tasks as findByStatus |
| Repository.StampedNewestFirst | src/main/java/com/devops/training/repository/TaskRepository.java:17 | for rows that all have a createdAt, newest-first order is exactly non-increasing createdAt |
| Repository.CreatedAtNonIncreasing | src/main/java/com/devops/training/repository/TaskRepository.java:17 | when every stored row has a createdAt, the ordered query lists createdAt non-increasing |
| Repository.UpperCase | src/main/java/com/devops/training/repository/TaskRepository.java:15 | keeps the length and leaves no ASCII lower-case letter: each one becomes its capital, and every other character is kept |
| Repository.UpperCaseIdempotent | src/main/java/com/devops/training/repository/TaskRepository.java:15 | upper-casing an upper-cased string changes nothing |
| Repository.ContainsIff | src/main/java/com/devops/training/repository/TaskRepository.java:15 | the recursive substring test holds iff the search string occurs at some position |
| Repository.ContainsIgnoreCaseIff | src/main/java/com/devops/training/repository/TaskRepository.java:15 | the ignore-case test holds iff some window of the title equals the search string, letter for letter, up to ASCII case |
| Repository.FindByTitleExact | src/main/java/com/devops/training/repository/TaskRepository.java:15 | findByTitleContainingIgnoreCase(f) returns exactly the stored tasks whose title contains f up to ASCII case; a task without a title never matches |
| Service.MapToDtos | src/main/java/com/devops/training/service/TaskService.java:38-40 | the mapped list has one DTO per row, and holds a DTO exactly when the input holds the row that DTO describes |
| Service.MapToDtoInjective | src/main/java/com/devops/training/service/TaskService.java:103-114 | mapToDTO copies all eight fields: two entities with the same DTO are equal |
| Service.MapToEntityRecoversClientFields | src/main/java/com/devops/training/service/TaskService.java:116-124 | mapToEntity(mapToDTO(t)) is t with id, createdAt and updatedAt cleared: the five client fields survive the round trip |
| Service.MapToEntityIgnoresServerFields | src/main/java/com/devops/training/service/TaskService.java:116-124 | mapToEntity ignores any id and timestamps the client sends |
| Service.RowOf | src/main/java/com/devops/training/service/TaskService.java:103-114 | RowOf is a right inverse of mapToDTO |
| Service.OverwrittenSplitsFields | src/main/java/com/devops/training/service/TaskService.java:77-81 | the five setters take from the DTO exactly what mapToEntity takes, and keep the stored id, createdAt and updatedAt |
| Service.TasksByStatusExact | src/main/java/com/devops/training/service/TaskService.java:43-50 | getTasksByStatus's list holds exactly the DTOs of the stored tasks with that status, with createdAt non-increasing |
| Service.WriteKeepsTasksCacheCoherent | src/main/java/com/devops/training/service/TaskService.java:69 | storing a row and caching its DTO under the same key keeps every "tasks" entry equal to the DTO of its stored row |
| Service.TaskService.constructor | src/main/java/com/devops/training/service/TaskService.java:23-25 | an empty table, an IDENTITY counter at 1 and two empty caches satisfy the invariant |
| Service.TaskService.SetClientFields | src/main/java/com/devops/training/service/TaskService.java:77-81 | the setters overwrite exactly title, description, status, priority and dueDate, absent values included |
| Service.TaskService.Persist | src/main/java/com/devops/training/service/TaskService.java:64 | a new entity gets the pre-persist hook and is stored under the next IDENTITY value, and the counter advances; a row breaking a column constraint is refused and nothing changes |
| Service.TaskService.Merge | src/main/java/com/devops/training/service/TaskService.java:83 | a stored entity gets the pre-update hook and overwrites its row except the stored createdAt; a row breaking a column constraint is refused and nothing changes |
| Service.TaskService.Save | src/main/java/com/devops/training/repository/TaskRepository.java:11 | save persists an entity without an id and merges one with an id, keeping the store invariant, and counts as one repository call |
| Service.TaskService.GetTaskById | src/main/java/com/devops/training/service/TaskService.java:27-33 | returns the stored task's DTO, or NotFound when the id is absent. A cache hit returns the cached DTO with no repository call; a miss makes one call and caches an Ok result under id; NotFound caches nothing |
| Service.TaskService.GetAllTasks | src/main/java/com/devops/training/service/TaskService.java:35-41 | one DTO per stored task, each being the DTO of a stored row; reads only the table, never a cache |
| Service.TaskService.GetTasksByStatus | src/main/java/com/devops/training/service/TaskService.java:43-50 | returns the DTOs of the ordered status query. A cache hit returns the cached list, makes no repository call and leaves the cache unchanged; a miss makes one call and caches the list under the status |
| Service.TaskService.SearchTasksByTitle | src/main/java/com/devops/training/service/TaskService.java:52-57 | the DTOs of exactly the stored tasks whose title contains the search string up to ASCII case; reads only the table |
| Service.TaskService.GetTaskCount | src/main/java/com/devops/training/service/TaskService.java:98-100 | the count equals the length of getAllTasks; reads only the table |
| Service.TaskService.CreateTaskUncached | src/main/java/com/devops/training/service/TaskService.java:61-67 | stores mapToEntity(dto), after the pre-persist hook, under a fresh id (any id in the input is ignored), and returns the DTO of the stored row |
| Service.TaskService.CreateTask | src/main/java/com/devops/training/service/TaskService.java:59-67 | on a valid DTO it always succeeds: inserts under a fresh id, caches the returned DTO under that id, empties "tasksByStatus", and keeps the invariant |
| Service.TaskService.UpdateTaskUncached | src/main/java/com/devops/training/service/TaskService.java:71-86 | NotFound when the id is absent; otherwise the five client fields are overwritten and updatedAt refreshed, with id and createdAt kept. A missing status or priority is refused by the NOT NULL columns; on error the table is unchanged |
| Service.TaskService.UpdateTask | src/main/java/com/devops/training/service/TaskService.java:69-86 | success writes the updated row, caches its DTO under id and empties "tasksByStatus"; any error leaves the table and both caches unchanged; the invariant is kept |
| Service.TaskService.DeleteTask | src/main/java/com/devops/training/service/TaskService.java:88-96 | NotFound leaves the table and both caches unchanged; success removes exactly that id and empties both caches entirely |
| Service.TaskService.Expire | src/main/java/com/devops/training/config/RedisConfig.java:39-40 | dropping any set of cache entries, as the TTL does, keeps the invariant and changes nothing else |

## Left out

- Logging: every `log.info` call is omitted.
- Transactions: `@Transactional` and its rollback are omitted; each operation is atomic in the model.
- Proxy order: the cache advice is assumed to wrap the transactional body, so a failure at commit reaches it before any cache write.
- Service.TaskService.UpdateTask: the pre-update hook is applied inside `save`. In JPA, `@PreUpdate` fires at flush, which for this code is at commit, after `mapToDTO` has run. The DTO returned and cached there may therefore carry the previous `updatedAt`. The model's cached DTO carries the new one, and its coherence invariant relies on that.
- Service.TaskService.UpdateTask: the model applies the pre-update hook on every merge. Hibernate fires it only when a field has changed.
- Service.TaskService.GetAllTasks, Service.TaskService.SearchTasksByTitle, Service.TaskService.GetTaskCount: each makes one repository call (`findAll`, `findByTitleContainingIgnoreCase`, `count`), which `repositoryCalls` does not record, because these reads are modelled as functions of the table.
- Real time: the clock is a parameter, and the TTL is modelled only as `Expire`, which evicts entries without any notion of elapsed time.
- Concurrency: races between request threads are omitted; the model is single-threaded.
- The id counter: it is an unbounded integer. `Long` overflow of the IDENTITY value is not modelled.
- Lengths: string lengths count Dafny characters. Java counts UTF-16 code units, and the database may count characters differently.
- Case folding: `ContainingIgnoreCase` upper-cases ASCII letters only. Full Unicode case mapping is omitted. `%` and `_` in the search string are matched literally.
- Query order: results are ordered by ascending id. SQL leaves the order without ORDER BY unspecified; among rows with equal `createdAt`, the ordered query keeps id order.
- Controllers: `TaskController` and `HealthController` are not part of this model. HTTP routing, status codes and response envelopes are omitted. The only part kept is that `@Valid` makes DTO validity a precondition of create and update.
- `ApiResponse` and `ResourceNotFoundException` are not part of this model. The exception becomes the `NotFound` error.
- Redis: the connection, serializers and cache manager in `RedisConfig` are omitted. Cache values are DTOs, not JSON.
- Infrastructure failures: a database or Redis outage is not modelled.
