/**
 * TaskService: the task operations behind the REST API, with the Spring
 * cache annotations written out as explicit steps.
 *
 *  - @Cacheable: on a hit return the cached value and skip the body;
 *    on a miss run the body and store its result.
 *  - @CachePut: run the body, then store its result.
 *  - @CacheEvict(allEntries = true): clear the named cache once the body
 *    has returned normally.
 *
 * A body that ends in an error touches neither cache. The class invariant
 * Valid() says that every cached entry is exactly what the table would
 * give now.
 */
module Service {
  import opened Wrappers
  import opened Entity
  import opened Dto
  import opened Repository

  /** ResourceNotFoundException, and the database refusing a row that breaks a column constraint. */
  datatype Error = NotFound(id: int) | ConstraintViolation

  datatype Result<T> = Ok(value: T) | Err(error: Error)

  /** mapToDTO: all eight fields of the entity. */
  function MapToDto(t: TaskRow): TaskDto {
    TaskDto(t.id, t.title, t.description, t.status, t.priority, t.createdAt, t.updatedAt, t.dueDate)
  }

  /** mapToEntity: the five client-settable fields; id and both timestamps stay null. */
  function MapToEntity(d: TaskDto): TaskRow {
    TaskRow(None, d.title, d.description, d.status, d.priority, None, None, d.dueDate)
  }

  /** mapToDTO loses nothing: two entities with the same DTO are the same. */
  lemma MapToDtoInjective(a: TaskRow, b: TaskRow)
    ensures MapToDto(a) == MapToDto(b) ==> a == b
  {
  }

  /** Mapping a stored task back to an entity recovers it except for the three store-owned fields. */
  lemma MapToEntityRecoversClientFields(t: TaskRow)
    ensures MapToEntity(MapToDto(t)) == t.(id := None, createdAt := None, updatedAt := None)
  {
  }

  /** mapToEntity ignores the id and the timestamps a client may send. */
  lemma MapToEntityIgnoresServerFields(a: TaskDto, b: TaskDto)
    requires a.title == b.title && a.description == b.description && a.dueDate == b.dueDate
    requires a.status == b.status && a.priority == b.priority
    ensures MapToEntity(a) == MapToEntity(b)
  {
  }

  /** A stored entity after updateTask's five setters: the client-settable fields come from the DTO. */
  function Overwritten(t: TaskRow, d: TaskDto): TaskRow {
    t.(title := d.title, description := d.description, status := d.status,
       priority := d.priority, dueDate := d.dueDate)
  }

  /**
   * The setters take from the DTO exactly what mapToEntity takes, and keep
   * the id and both timestamps of the stored entity.
   */
  lemma OverwrittenSplitsFields(t: TaskRow, d: TaskDto)
    ensures Overwritten(t, d).(id := None, createdAt := None, updatedAt := None) == MapToEntity(d)
    ensures Overwritten(t, d).id == t.id
    ensures Overwritten(t, d).createdAt == t.createdAt && Overwritten(t, d).updatedAt == t.updatedAt
  {
  }

  /** The entity a DTO describes: the inverse of mapToDTO. */
  function RowOf(d: TaskDto): (t: TaskRow)
    ensures MapToDto(t) == d
  {
    TaskRow(d.id, d.title, d.description, d.status, d.priority, d.createdAt, d.updatedAt, d.dueDate)
  }

  /**
   * `stream().map(this::mapToDTO)`: position by position the DTO of each
   * row, so the list holds a DTO exactly when the input holds the row that
   * DTO describes.
   */
  function MapToDtos(rows: seq<TaskRow>): (ds: seq<TaskDto>)
    ensures |ds| == |rows| && forall i :: 0 <= i < |rows| ==> ds[i] == MapToDto(rows[i])
    ensures forall d :: d in ds <==> RowOf(d) in rows
  {
    var ds := seq(|rows|, i requires 0 <= i < |rows| => MapToDto(rows[i]));
    assert forall d :: d in ds <==> RowOf(d) in rows by {
      forall d ensures d in ds <==> RowOf(d) in rows {
        if d in ds {
          var i :| 0 <= i < |ds| && ds[i] == d;
          assert RowOf(d) == rows[i];
        }
        if RowOf(d) in rows {
          var i :| 0 <= i < |rows| && rows[i] == RowOf(d);
          assert ds[i] == d;
        }
      }
    }
    ds
  }

  /**
   * What getTasksByStatus computes from the table: the DTOs of exactly the
   * stored tasks with that status, createdAt non-increasing.
   */
  lemma TasksByStatusExact(table: Table, s: TaskStatus)
    requires forall k :: k in table ==> table[k].createdAt.Some?
    ensures var r := MapToDtos(FindByStatusOrderByCreatedAtDesc(table, s));
      && (forall d :: d in r <==> RowOf(d) in table.Values && d.status == Some(s))
      && (forall i, j :: 0 <= i < j < |r| ==>
            r[i].createdAt.Some? && r[j].createdAt.Some? && r[i].createdAt.value >= r[j].createdAt.value)
  {
    var rows := FindByStatusOrderByCreatedAtDesc(table, s);
    OrderedByCreatedAtMembers(table, s);
    forall t | t in table.Values ensures t.createdAt.Some? {
      var k :| k in table && table[k] == t;
    }
    CreatedAtNonIncreasing(table, s);
    assert CreatedAtDescending(rows);
  }

  /** Every entry of the "tasks" cache is the DTO of the row stored under its key. */
  ghost predicate TasksCacheCoherent(cache: map<int, TaskDto>, table: Table) {
    forall k :: k in cache ==> k in table && cache[k] == MapToDto(table[k])
  }

  /** Writing a row and caching its DTO under the same key keeps the "tasks" cache coherent. */
  lemma WriteKeepsTasksCacheCoherent(cache: map<int, TaskDto>, table: Table, id: int, row: TaskRow)
    requires TasksCacheCoherent(cache, table)
    ensures TasksCacheCoherent(cache[id := MapToDto(row)], table[id := row])
  {
  }

  /** Every entry of the "tasksByStatus" cache is what getTasksByStatus would compute now. */
  ghost predicate StatusCacheCoherent(cache: map<TaskStatus, seq<TaskDto>>, table: Table) {
    forall s :: s in cache ==> cache[s] == MapToDtos(FindByStatusOrderByCreatedAtDesc(table, s))
  }

  class TaskService {
    /** The `tasks` table and its IDENTITY counter. */
    var table: Table
    var nextId: int
    /** The "tasks" cache, keyed by id. */
    var tasksCache: map<int, TaskDto>
    /** The "tasksByStatus" cache, keyed by status. */
    var statusCache: map<TaskStatus, seq<TaskDto>>
    /** The number of repository calls made so far. */
    ghost var repositoryCalls: nat

    /** Keys come from the counter, rows carry their key, and every row meets the column constraints. */
    ghost predicate StoreValid()
      reads this`table, this`nextId
    {
      && 1 <= nextId
      && (forall k :: k in table ==> 1 <= k < nextId)
      && KeyedById(table)
      && (forall k :: k in table ==> Persistable(table[k]))
    }

    /** Every cached entry is what the table would give now. */
    ghost predicate CachesCoherent()
      reads this`table, this`tasksCache, this`statusCache
    {
      && TasksCacheCoherent(tasksCache, table)
      && StatusCacheCoherent(statusCache, table)
    }

    ghost predicate Valid()
      reads this`table, this`nextId, this`tasksCache, this`statusCache
    {
      StoreValid() && CachesCoherent()
    }

    /** An empty table and empty caches. */
    constructor ()
      ensures Valid()
      ensures table == map[] && nextId == 1
      ensures tasksCache == map[] && statusCache == map[] && repositoryCalls == 0
    {
      table := map[];
      nextId := 1;
      tasksCache := map[];
      statusCache := map[];
      repositoryCalls := 0;
    }

    /** updateTask's five setters on the loaded entity. */
    static method SetClientFields(task: Task, dto: TaskDto)
      modifies task`title, task`description, task`status, task`priority, task`dueDate
      ensures task.Snapshot() == Overwritten(old(task.Snapshot()), dto)
    {
      task.title := dto.title;
      task.description := dto.description;
      task.status := dto.status;
      task.priority := dto.priority;
      task.dueDate := dto.dueDate;
    }

    /**
     * EntityManager.persist of a new entity: the pre-persist hook runs and
     * the row is inserted under the next IDENTITY value. A row that breaks
     * a column constraint is refused and nothing is stored.
     */
    method Persist(task: Task, createdNow: Timestamp, updatedNow: Timestamp) returns (r: Result<Task>)
      requires StoreValid()
      requires task.id.None?
      modifies this`table, this`nextId, task
      ensures StoreValid()
      ensures r.Ok? ==> r.value == task
      ensures var row := Created(old(task.Snapshot()), createdNow, updatedNow).(id := Some(old(nextId)));
        if Persistable(row) then
          r.Ok? && task.Snapshot() == row && table == old(table)[old(nextId) := row] && nextId == old(nextId) + 1
        else
          r == Err(ConstraintViolation) && table == old(table) && nextId == old(nextId)
    {
      task.OnCreate(createdNow, updatedNow);
      var row := task.Snapshot().(id := Some(nextId));
      if Persistable(row) {
        task.id := Some(nextId);
        table := table[nextId := row];
        nextId := nextId + 1;
        r := Ok(task);
      } else {
        r := Err(ConstraintViolation);
      }
    }

    /**
     * EntityManager.merge of a stored entity: the pre-update hook runs and
     * the row is overwritten, except created_at, which is not updatable.
     * A row that breaks a column constraint is refused and nothing is stored.
     */
    method Merge(task: Task, now: Timestamp) returns (r: Result<Task>)
      requires StoreValid()
      requires task.id.Some? && task.id.value in table
      modifies this`table, task`updatedAt
      ensures StoreValid()
      ensures r.Ok? ==> r.value == task
      ensures var id := task.id.value;
        var row := Updated(old(task.Snapshot()), now);
        var written := row.(createdAt := old(table)[id].createdAt);
        if Persistable(written) then
          r.Ok? && task.Snapshot() == row && table == old(table)[id := written]
        else
          r == Err(ConstraintViolation) && table == old(table)
    {
      var id := task.id.value;
      task.OnUpdate(now);
      var written := task.Snapshot().(createdAt := table[id].createdAt);
      if Persistable(written) {
        table := table[id := written];
        r := Ok(task);
      } else {
        r := Err(ConstraintViolation);
      }
    }

    /**
     * The repository's save: an entity without an id is persisted, one
     * with an id is merged. A merge reads the clock once, as `updatedNow`.
     */
    method Save(task: Task, createdNow: Timestamp, updatedNow: Timestamp) returns (r: Result<Task>)
      requires StoreValid()
      requires task.id.Some? ==> task.id.value in table
      modifies this`table, this`nextId, this`repositoryCalls, task
      ensures StoreValid()
      ensures repositoryCalls == old(repositoryCalls) + 1
      ensures r.Ok? ==> r.value == task
      ensures old(task.id).None? ==>
        var row := Created(old(task.Snapshot()), createdNow, updatedNow).(id := Some(old(nextId)));
        if Persistable(row) then
          r.Ok? && task.Snapshot() == row && table == old(table)[old(nextId) := row] && nextId == old(nextId) + 1
        else
          r == Err(ConstraintViolation) && table == old(table) && nextId == old(nextId)
      ensures old(task.id).Some? ==>
        var id := old(task.id).value;
        var row := Updated(old(task.Snapshot()), updatedNow);
        var written := row.(createdAt := old(table)[id].createdAt);
        && nextId == old(nextId)
        && if Persistable(written) then
             r.Ok? && task.Snapshot() == row && table == old(table)[id := written]
           else
             r == Err(ConstraintViolation) && table == old(table)
    {
      repositoryCalls := repositoryCalls + 1;
      if task.id.None? {
        r := Persist(task, createdNow, updatedNow);
      } else {
        r := Merge(task, updatedNow);
      }
    }

    /** getTaskById, under @Cacheable("tasks", key = id). */
    method GetTaskById(id: int) returns (r: Result<TaskDto>)
      requires Valid()
      modifies this`tasksCache, this`repositoryCalls
      ensures Valid()
      ensures r == if id in table then Ok(MapToDto(table[id])) else Err(NotFound(id))
      ensures id in old(tasksCache) ==>
        && r == Ok(old(tasksCache)[id])
        && tasksCache == old(tasksCache)
        && repositoryCalls == old(repositoryCalls)
      ensures id !in old(tasksCache) ==>
        && repositoryCalls == old(repositoryCalls) + 1
        && tasksCache == if r.Ok? then old(tasksCache)[id := r.value] else old(tasksCache)
    {
      if id in tasksCache {
        return Ok(tasksCache[id]);
      }
      repositoryCalls := repositoryCalls + 1;
      var found := FindById(table, id);
      if found.None? {
        return Err(NotFound(id));
      }
      var dto := MapToDto(found.value);
      tasksCache := tasksCache[id := dto];
      r := Ok(dto);
    }

    /** getAllTasks: one DTO per stored task; no cache is involved. */
    function GetAllTasks(): (r: seq<TaskDto>)
      reads this`table
      ensures |r| == |table|
      ensures forall d :: d in r <==> RowOf(d) in table.Values
    {
      MapToDtos(FindAll(table))
    }

    /** getTasksByStatus, under @Cacheable("tasksByStatus", key = status). */
    method GetTasksByStatus(status: TaskStatus) returns (r: seq<TaskDto>)
      requires Valid()
      modifies this`statusCache, this`repositoryCalls
      ensures Valid()
      ensures r == MapToDtos(FindByStatusOrderByCreatedAtDesc(table, status))
      ensures status in old(statusCache) ==>
        && r == old(statusCache)[status]
        && statusCache == old(statusCache) && repositoryCalls == old(repositoryCalls)
      ensures status !in old(statusCache) ==>
        statusCache == old(statusCache)[status := r] && repositoryCalls == old(repositoryCalls) + 1
    {
      if status in statusCache {
        return statusCache[status];
      }
      repositoryCalls := repositoryCalls + 1;
      r := MapToDtos(FindByStatusOrderByCreatedAtDesc(table, status));
      statusCache := statusCache[status := r];
    }

    /** searchTasksByTitle: the DTOs of the tasks whose title contains `f` up to case; no cache is involved. */
    function SearchTasksByTitle(f: string): (r: seq<TaskDto>)
      reads this`table
      ensures forall d :: d in r <==>
        RowOf(d) in table.Values && d.title.Some? && exists i :: MatchesIgnoreCaseAt(d.title.value, f, i)
    {
      FindByTitleExact(table, f);
      MapToDtos(FindByTitleContainingIgnoreCase(table, f))
    }

    /** getTaskCount: the number of stored tasks, which is the length of getAllTasks. */
    function GetTaskCount(): (n: nat)
      reads this`table
      ensures n == |GetAllTasks()|
    {
      Count(table)
    }

    /** The body of createTask, without its cache advice. */
    method CreateTaskUncached(dto: TaskDto, createdNow: Timestamp, updatedNow: Timestamp) returns (r: Result<TaskDto>)
      requires StoreValid()
      requires Dto.Valid(dto)
      modifies this`table, this`nextId, this`repositoryCalls
      ensures StoreValid()
      ensures repositoryCalls == old(repositoryCalls) + 1
      ensures var id := old(nextId);
        var row := Created(MapToEntity(dto), createdNow, updatedNow).(id := Some(id));
        && id !in old(table)
        && table == old(table)[id := row]
        && nextId == id + 1
        && r == Ok(MapToDto(row))
    {
      assert nextId !in table;
      ValidFitsColumns(dto);
      var task := new Task.FromRow(MapToEntity(dto));
      var saved := Save(task, createdNow, updatedNow);
      r := Ok(MapToDto(saved.value.Snapshot()));
    }

    /**
     * createTask, under @CachePut("tasks", key = result.id) and
     * @CacheEvict("tasksByStatus", allEntries). The controller has checked
     * the DTO; the pre-persist hook reads the clock twice.
     */
    method CreateTask(dto: TaskDto, createdNow: Timestamp, updatedNow: Timestamp) returns (r: Result<TaskDto>)
      requires Valid()
      requires Dto.Valid(dto)
      modifies this`table, this`nextId, this`repositoryCalls, this`tasksCache, this`statusCache
      ensures Valid()
      ensures r.Ok?
      ensures var id := old(nextId);
        && id !in old(table)
        && table == old(table)[id := Created(MapToEntity(dto), createdNow, updatedNow).(id := Some(id))]
        && r.value == MapToDto(table[id])
        && tasksCache == old(tasksCache)[id := r.value]
        && statusCache == map[]
        && nextId == id + 1
    {
      ghost var row := Created(MapToEntity(dto), createdNow, updatedNow).(id := Some(nextId));
      r := CreateTaskUncached(dto, createdNow, updatedNow);
      WriteKeepsTasksCacheCoherent(tasksCache, old(table), old(nextId), row);
      tasksCache := tasksCache[r.value.id.value := r.value];
      statusCache := map[];
    }

    /**
     * The body of updateTask, without its cache advice. The five
     * client-settable fields are overwritten, absent values included; the
     * pre-update hook applies no defaults, so an absent status or priority
     * is refused by the NOT NULL columns.
     */
    method UpdateTaskUncached(id: int, dto: TaskDto, now: Timestamp) returns (r: Result<TaskDto>)
      requires StoreValid()
      requires Dto.Valid(dto)
      modifies this`table, this`nextId, this`repositoryCalls
      ensures StoreValid()
      ensures nextId == old(nextId)
      ensures id !in old(table) ==> r == Err(NotFound(id)) && table == old(table)
      ensures id in old(table) ==>
        var row := Updated(Overwritten(old(table)[id], dto), now);
        if dto.status.Some? && dto.priority.Some? then
          r == Ok(MapToDto(row)) && table == old(table)[id := row]
        else
          r == Err(ConstraintViolation) && table == old(table)
    {
      ValidFitsColumns(dto);
      repositoryCalls := repositoryCalls + 1;
      var found := FindById(table, id);
      if found.None? {
        return Err(NotFound(id));
      }
      assert found.value == table[id] && found.value.id == Some(id);
      var existingTask := new Task.FromRow(found.value);
      SetClientFields(existingTask, dto);
      ghost var row := Updated(Overwritten(found.value, dto), now);
      assert Persistable(row) <==> dto.status.Some? && dto.priority.Some?;
      var saved := Save(existingTask, now, now);
      if saved.Err? {
        return Err(saved.error);
      }
      r := Ok(MapToDto(saved.value.Snapshot()));
    }

    /** updateTask, under @CachePut("tasks", key = id) and @CacheEvict("tasksByStatus", allEntries). */
    method UpdateTask(id: int, dto: TaskDto, now: Timestamp) returns (r: Result<TaskDto>)
      requires Valid()
      requires Dto.Valid(dto)
      modifies this`table, this`nextId, this`repositoryCalls, this`tasksCache, this`statusCache
      ensures Valid()
      ensures nextId == old(nextId)
      ensures id !in old(table) ==> r == Err(NotFound(id))
      ensures id in old(table) && (dto.status.None? || dto.priority.None?) ==> r == Err(ConstraintViolation)
      ensures r.Err? ==>
        table == old(table) && tasksCache == old(tasksCache) && statusCache == old(statusCache)
      ensures id in old(table) && dto.status.Some? && dto.priority.Some? ==>
        var row := Updated(Overwritten(old(table)[id], dto), now);
        && table == old(table)[id := row]
        && r == Ok(MapToDto(row))
        && tasksCache == old(tasksCache)[id := r.value]
        && statusCache == map[]
    {
      r := UpdateTaskUncached(id, dto, now);
      if r.Ok? {
        WriteKeepsTasksCacheCoherent(tasksCache, old(table), id, Updated(Overwritten(old(table)[id], dto), now));
        tasksCache := tasksCache[id := r.value];
        statusCache := map[];
      }
    }

    /** deleteTask, under @CacheEvict({"tasks", "tasksByStatus"}, allEntries). */
    method DeleteTask(id: int) returns (r: Result<()>)
      requires Valid()
      modifies this`table, this`tasksCache, this`statusCache, this`repositoryCalls
      ensures Valid()
      ensures id !in old(table) ==>
        && r == Err(NotFound(id))
        && table == old(table) && tasksCache == old(tasksCache) && statusCache == old(statusCache)
      ensures id in old(table) ==>
        && r == Ok(())
        && table == old(table) - {id}
        && tasksCache == map[] && statusCache == map[]
    {
      repositoryCalls := repositoryCalls + 1;
      if !ExistsById(table, id) {
        return Err(NotFound(id));
      }
      repositoryCalls := repositoryCalls + 1;
      table := DeleteById(table, id);
      tasksCache := map[];
      statusCache := map[];
      r := Ok(());
    }

    /** Entries leaving the caches when their time-to-live runs out: any of them, at any time. */
    method Expire(ids: set<int>, statuses: set<TaskStatus>)
      requires Valid()
      modifies this`tasksCache, this`statusCache
      ensures Valid()
      ensures tasksCache == old(tasksCache) - ids && statusCache == old(statusCache) - statuses
    {
      tasksCache := tasksCache - ids;
      statusCache := statusCache - statuses;
    }
  }
}
