/** The tracker's schema: one record type per model, tables with auto-increment
    primary keys, and the store holding every table together with the foreign-key
    integrity the database enforces. Timestamps are integers (seconds or day numbers)
    supplied by the caller. */
module Models {
  import opened Wrappers
  import opened Status
  import opened Text
  import opened Ordering

  type UserId = nat
  type Id = nat

  /** A goal: the owner and deadline are required, the description may be null. */
  datatype Goal = Goal(
    user: UserId,
    name: string,
    description: Option<string>,
    deadline: int,
    createdAt: int,
    status: GoalStatus)
  {
    /** `Goal.__str__`. */
    function ToString(): string
    {
      name
    }
  }

  /** A stage of one goal; unlike a goal's, its deadline may be null. */
  datatype GoalStage = GoalStage(
    goal: Id,
    stageName: string,
    description: Option<string>,
    deadline: Option<int>,
    createdAt: int,
    status: GoalStatus)

  /** A habit; `createdOn` is the calendar day of its creation timestamp. */
  datatype Habit = Habit(
    user: UserId,
    name: string,
    description: Option<string>,
    monthGoal: Option<string>,
    createdOn: int)
  {
    /** `Habit.__str__`. */
    function ToString(): string
    {
      name
    }
  }

  /** One submitted day outcome of a habit (`HabitDayCompletion`). */
  datatype Completion = Completion(user: UserId, habit: Id, completeDate: int, status: DayStatus)

  /** A commentary with its two many-to-many links. */
  datatype Commentary = Commentary(
    user: UserId,
    goals: set<Id>,
    habits: set<Id>,
    text: string,
    createdAt: int)

  /** A table: rows by primary key, and the key the next insert receives. Keys
      start at 1 and are never reused. */
  datatype Table<V> = Table(rows: map<Id, V>, next: Id) {
    predicate Valid()
    {
      next >= 1 && forall id :: id in rows ==> 1 <= id < next
    }

    /** Saves a new row under a fresh primary key. */
    function Insert(v: V): (r: (Table<V>, Id))
      requires Valid()
      ensures r.0.Valid()
      ensures r.1 >= 1 && r.1 !in rows
      ensures r.0.rows == rows[r.1 := v]
    {
      (Table(rows[next := v], next + 1), next)
    }
  }

  function EmptyTable<V>(): (t: Table<V>)
    ensures t.Valid() && t.rows == map[]
  {
    Table(map[], 1)
  }

  datatype Store = Store(
    users: set<UserId>,
    goals: Table<Goal>,
    stages: Table<GoalStage>,
    habits: Table<Habit>,
    completions: Table<Completion>,
    commentaries: Table<Commentary>)

  /** Every foreign key names an existing row: goals, habits and commentaries belong
      to existing users, stages to existing goals, completions to existing habits and
      users, and commentary links name existing goals and habits. */
  predicate Valid(s: Store)
  {
    && s.goals.Valid() && s.stages.Valid() && s.habits.Valid()
    && s.completions.Valid() && s.commentaries.Valid()
    && (forall id :: id in s.goals.rows ==> s.goals.rows[id].user in s.users)
    && (forall id :: id in s.stages.rows ==> s.stages.rows[id].goal in s.goals.rows)
    && (forall id :: id in s.habits.rows ==> s.habits.rows[id].user in s.users)
    && (forall id :: id in s.completions.rows ==>
          s.completions.rows[id].habit in s.habits.rows && s.completions.rows[id].user in s.users)
    && (forall id :: id in s.commentaries.rows ==>
          && s.commentaries.rows[id].user in s.users
          && s.commentaries.rows[id].goals <= s.goals.rows.Keys
          && s.commentaries.rows[id].habits <= s.habits.rows.Keys)
  }

  function EmptyStore(users: set<UserId>): (s: Store)
    ensures Valid(s)
    ensures s.users == users
    ensures s.goals.rows == map[] && s.habits.rows == map[]
  {
    Store(users, EmptyTable(), EmptyTable(), EmptyTable(), EmptyTable(), EmptyTable())
  }

  // ---------------------------------------------------------------------------
  // GoalStage.Meta.ordering = ["-status", "deadline"]

  /** Where a null deadline goes in an ascending sort depends on the database:
      first on SQLite and MySQL, last on PostgreSQL and Oracle. */
  predicate DeadlineLeq(a: Option<int>, b: Option<int>, nullsFirst: bool)
  {
    match (a, b)
    case (None, None) => true
    case (None, Some(_)) => nullsFirst
    case (Some(_), None) => !nullsFirst
    case (Some(x), Some(y)) => x <= y
  }

  /** Stage `a` may be listed before stage `b`: a larger stored status string comes
      first, and equal statuses go by deadline, earliest first. */
  predicate StageLeq(a: GoalStage, b: GoalStage, nullsFirst: bool)
  {
    StrLess(Code(b.status), Code(a.status))
    || (a.status == b.status && DeadlineLeq(a.deadline, b.deadline, nullsFirst))
  }

  /** Position of a status when sorting by its stored string, descending:
      "completed" > "active" > "abandoned". */
  function StatusRank(s: GoalStatus): int
  {
    match s
    case Completed => 0
    case Active => 1
    case Abandoned => 2
  }

  /** Descending string order of the stored status values is the order of
      `StatusRank`. */
  lemma StatusStringOrder(a: GoalStatus, b: GoalStatus)
    ensures StrLess(Code(b), Code(a)) <==> StatusRank(a) < StatusRank(b)
  {
    assert StrLess("active", "completed");
    assert StrLess("abandoned", "completed");
    assert StrLess("abandoned", "active") by {
      assert "abandoned"[1..] == "bandoned" && "active"[1..] == "ctive";
    }
    assert !StrLess("active", "abandoned") by {
      assert "abandoned"[1..] == "bandoned" && "active"[1..] == "ctive";
    }
  }

  /** The three sort columns of a stage: status rank, null-deadline rank, deadline. */
  function StageKey(st: GoalStage, nullsFirst: bool): (k: seq<int>)
    ensures |k| == 3
  {
    var nullRank := if st.deadline.None? then (if nullsFirst then 0 else 1) else (if nullsFirst then 1 else 0);
    [StatusRank(st.status), nullRank, if st.deadline.Some? then st.deadline.value else 0]
  }

  /** Comparing the integer sort columns is the same as the `ORDER BY -status,
      deadline` order. */
  lemma StageKeyOrder(a: GoalStage, b: GoalStage, nullsFirst: bool)
    ensures LexLeq(StageKey(a, nullsFirst), StageKey(b, nullsFirst)) <==> StageLeq(a, b, nullsFirst)
  {
    StatusStringOrder(a.status, b.status);
    LexLeqThreeColumns(StageKey(a, nullsFirst), StageKey(b, nullsFirst));
    assert StatusRank(a.status) == StatusRank(b.status) <==> a.status == b.status;
  }

  lemma LexLeqThreeColumns(a: seq<int>, b: seq<int>)
    requires |a| == 3 && |b| == 3
    ensures LexLeq(a, b) <==>
      a[0] < b[0] || (a[0] == b[0] && (a[1] < b[1] || (a[1] == b[1] && a[2] <= b[2])))
  {
    var a1, b1 := a[1..], b[1..];
    var a2, b2 := a1[1..], b1[1..];
    assert a2 == [a[2]] && b2 == [b[2]];
    assert LexLeq(a2[1..], b2[1..]) by { assert a2[1..] == []; }
    assert LexLeq(a2, b2) <==> a[2] <= b[2];
    assert LexLeq(a1, b1) <==> a[1] < b[1] || (a[1] == b[1] && a[2] <= b[2]);
  }
}
