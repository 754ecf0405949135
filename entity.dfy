/**
 * The Task entity: its two enums, its persisted columns and their
 * constraints, and the two JPA lifecycle hooks that stamp the timestamps
 * and fill in the default status and priority.
 */
module Entity {
  import opened Wrappers

  /** A LocalDateTime, as an instant read from the clock. */
  type Timestamp = int

  datatype TaskStatus = Todo | InProgress | Completed | Cancelled

  datatype TaskPriority = Low | Medium | High | Critical

  const AllStatuses: seq<TaskStatus> := [Todo, InProgress, Completed, Cancelled]
  const AllPriorities: seq<TaskPriority> := [Low, Medium, High, Critical]

  /** The status enum has exactly four distinct values. */
  lemma StatusValues()
    ensures forall s: TaskStatus :: s in AllStatuses
    ensures |AllStatuses| == 4
    ensures forall i, j :: 0 <= i < j < |AllStatuses| ==> AllStatuses[i] != AllStatuses[j]
  {
    forall s: TaskStatus ensures s in AllStatuses {
      match s
      case Todo => assert AllStatuses[0] == s;
      case InProgress => assert AllStatuses[1] == s;
      case Completed => assert AllStatuses[2] == s;
      case Cancelled => assert AllStatuses[3] == s;
    }
  }

  /** The priority enum has exactly four distinct values. */
  lemma PriorityValues()
    ensures forall p: TaskPriority :: p in AllPriorities
    ensures |AllPriorities| == 4
    ensures forall i, j :: 0 <= i < j < |AllPriorities| ==> AllPriorities[i] != AllPriorities[j]
  {
    forall p: TaskPriority ensures p in AllPriorities {
      match p
      case Low => assert AllPriorities[0] == p;
      case Medium => assert AllPriorities[1] == p;
      case High => assert AllPriorities[2] == p;
      case Critical => assert AllPriorities[3] == p;
    }
  }

  /**
   * The field values of one Task object. Every field of the Java class is
   * a reference and may be null; once persisted, this is one row of the
   * `tasks` table.
   */
  datatype TaskRow = TaskRow(
    id: Option<int>,
    title: Option<string>,
    description: Option<string>,
    status: Option<TaskStatus>,
    priority: Option<TaskPriority>,
    createdAt: Option<Timestamp>,
    updatedAt: Option<Timestamp>,
    dueDate: Option<Timestamp>)

  const TitleColumnLength := 200
  const DescriptionColumnLength := 1000

  /**
   * The column constraints of the `tasks` table: title NOT NULL and at most
   * 200 characters, description at most 1000, status, priority and
   * created_at NOT NULL. The database refuses a row that breaks one.
   */
  predicate Persistable(r: TaskRow) {
    && r.title.Some? && |r.title.value| <= TitleColumnLength
    && (r.description.Some? ==> |r.description.value| <= DescriptionColumnLength)
    && r.status.Some?
    && r.priority.Some?
    && r.createdAt.Some?
  }

  /** The entity after the pre-persist hook, which read the clock twice. */
  function Created(r: TaskRow, createdNow: Timestamp, updatedNow: Timestamp): TaskRow {
    r.(createdAt := Some(createdNow),
       updatedAt := Some(updatedNow),
       status := if r.status.None? then Some(Todo) else r.status,
       priority := if r.priority.None? then Some(Medium) else r.priority)
  }

  /** The entity after the pre-update hook. */
  function Updated(r: TaskRow, now: Timestamp): TaskRow {
    r.(updatedAt := Some(now))
  }

  /** Creation fills a missing status with TODO and a missing priority with MEDIUM, and keeps set ones. */
  lemma CreatedDefaults(r: TaskRow, createdNow: Timestamp, updatedNow: Timestamp)
    ensures var c := Created(r, createdNow, updatedNow);
      && c.status.Some? && c.priority.Some?
      && (r.status.None? ==> c.status == Some(Todo))
      && (r.status.Some? ==> c.status == r.status)
      && (r.priority.None? ==> c.priority == Some(Medium))
      && (r.priority.Some? ==> c.priority == r.priority)
  {
  }

  /**
   * Creation stamps both timestamps from the clock and touches no
   * client-set field; createdAt <= updatedAt when the clock does not run
   * backwards between the two readings.
   */
  lemma CreatedTimestamps(r: TaskRow, createdNow: Timestamp, updatedNow: Timestamp)
    ensures var c := Created(r, createdNow, updatedNow);
      && c.createdAt == Some(createdNow) && c.updatedAt == Some(updatedNow)
      && (createdNow <= updatedNow ==> c.createdAt.value <= c.updatedAt.value)
      && c.id == r.id && c.title == r.title && c.description == r.description && c.dueDate == r.dueDate
  {
  }

  /** The update hook refreshes updatedAt only: no default is re-applied and createdAt is kept. */
  lemma UpdatedTouchesOnlyUpdatedAt(r: TaskRow, now: Timestamp)
    ensures Updated(r, now).updatedAt == Some(now)
    ensures Updated(r, now).(updatedAt := r.updatedAt) == r
    ensures Updated(r, now).status == r.status && Updated(r, now).priority == r.priority
    ensures Updated(r, now).createdAt == r.createdAt
  {
  }

  /** A Task object: a JPA entity whose fields are set in place. */
  class Task {
    var id: Option<int>
    var title: Option<string>
    var description: Option<string>
    var status: Option<TaskStatus>
    var priority: Option<TaskPriority>
    var createdAt: Option<Timestamp>
    var updatedAt: Option<Timestamp>
    var dueDate: Option<Timestamp>

    /** The field values of this object. */
    function Snapshot(): TaskRow
      reads this
    {
      TaskRow(id, title, description, status, priority, createdAt, updatedAt, dueDate)
    }

    /** The all-arguments constructor. */
    constructor FromRow(r: TaskRow)
      ensures Snapshot() == r
    {
      id := r.id;
      title := r.title;
      description := r.description;
      status := r.status;
      priority := r.priority;
      createdAt := r.createdAt;
      updatedAt := r.updatedAt;
      dueDate := r.dueDate;
    }

    /** The pre-persist hook. */
    method OnCreate(createdNow: Timestamp, updatedNow: Timestamp)
      modifies this
      ensures Snapshot() == Created(old(Snapshot()), createdNow, updatedNow)
    {
      createdAt := Some(createdNow);
      updatedAt := Some(updatedNow);
      if status.None? {
        status := Some(Todo);
      }
      if priority.None? {
        priority := Some(Medium);
      }
    }

    /** The pre-update hook. */
    method OnUpdate(now: Timestamp)
      modifies this`updatedAt
      ensures Snapshot() == Updated(old(Snapshot()), now)
    {
      updatedAt := Some(now);
    }
  }
}
