/** The request handlers that change the store, each a function from the store
    before the request to the store after it (or to the error the request ends
    with). The requesting user and the current time are parameters. */
module Actions {
  import opened Wrappers
  import opened Status
  import opened Text
  import opened Models
  import opened Queries
  import opened Stats

  // ---------------------------------------------------------------------------
  // Creation

  /** `GoalCreateView.form_valid`: the form supplies name, description and deadline,
      the view makes the requesting user the owner, and the status takes its
      default. */
  function CreateGoal(s: Store, user: UserId, name: string, description: Option<string>,
                      deadline: int, now: int): (r: (Store, Id))
    requires Valid(s) && user in s.users
    ensures Valid(r.0)
    ensures r.1 !in s.goals.rows
    ensures r.0.goals.rows == s.goals.rows[r.1 := Goal(user, name, description, deadline, now, Active)]
    ensures r.0 == s.(goals := r.0.goals)
  {
    var (goals, id) := s.goals.Insert(Goal(user, name, description, deadline, now, DefaultStatus));
    (s.(goals := goals), id)
  }

  /** A new goal shows up in its owner's list and active list and nowhere else; the
      owner's dashboard gains one active goal. */
  lemma {:induction false} CreateGoalListed(s: Store, user: UserId, name: string, description: Option<string>,
                                            deadline: int, now: int, other: UserId)
    requires Valid(s) && user in s.users
    ensures var (s', id) := CreateGoal(s, user, name, description, deadline, now);
      && OwnedGoals(s', user) == OwnedGoals(s, user) + {id}
      && GoalsWithStatus(s', user, Active) == GoalsWithStatus(s, user, Active) + {id}
      && Index(s', user).activeGoals == Index(s, user).activeGoals + 1
      && Index(s', user).totalGoals == Index(s, user).totalGoals + 1
      && Index(s', user).completedGoals == Index(s, user).completedGoals
      && (other != user ==> OwnedGoals(s', other) == OwnedGoals(s, other))
  {
    var (s', id) := CreateGoal(s, user, name, description, deadline, now);
    assert OwnedGoals(s', user) == OwnedGoals(s, user) + {id};
    assert GoalsWithStatus(s', user, Active) == GoalsWithStatus(s, user, Active) + {id};
    assert GoalsWithStatus(s', user, Completed) == GoalsWithStatus(s, user, Completed);
    assert id !in OwnedGoals(s, user) && id !in GoalsWithStatus(s, user, Active);
  }

  /** `GoalStageCreateView.form_valid`: the stage is attached to the goal id taken
      from the URL, which the view does not look up; the database's foreign-key
      constraint rejects an id that names no goal. */
  function CreateStage(s: Store, goal: Id, stageName: string, description: Option<string>,
                       deadline: Option<int>, now: int): (r: Result<(Store, Id)>)
    requires Valid(s)
    ensures r.Failure? <==> goal !in s.goals.rows
    ensures r.Failure? ==> r.error == IntegrityError
    ensures r.Success? ==>
      var (s', id) := r.value;
      && Valid(s')
      && id !in s.stages.rows
      && s'.stages.rows == s.stages.rows[id := GoalStage(goal, stageName, description, deadline, now, Active)]
      && s' == s.(stages := s'.stages)
  {
    if goal !in s.goals.rows then
      Failure(IntegrityError)
    else
      var (stages, id) := s.stages.Insert(GoalStage(goal, stageName, description, deadline, now, DefaultStatus));
      Success((s.(stages := stages), id))
  }

  /** A new stage joins exactly its goal's stage list. */
  lemma CreateStageListed(s: Store, goal: Id, stageName: string, description: Option<string>,
                          deadline: Option<int>, now: int, other: Id)
    requires Valid(s) && goal in s.goals.rows
    ensures var (s', id) := CreateStage(s, goal, stageName, description, deadline, now).value;
      && StagesOf(s', goal) == StagesOf(s, goal) + {id}
      && (other != goal ==> StagesOf(s', other) == StagesOf(s, other))
  {
  }

  /** `HabitCreateView.form_valid`: the requesting user becomes the owner. */
  function CreateHabit(s: Store, user: UserId, name: string, description: Option<string>,
                       monthGoal: Option<string>, today: int): (r: (Store, Id))
    requires Valid(s) && user in s.users
    ensures Valid(r.0)
    ensures r.1 !in s.habits.rows
    ensures r.0.habits.rows == s.habits.rows[r.1 := Habit(user, name, description, monthGoal, today)]
    ensures r.0 == s.(habits := r.0.habits)
  {
    var (habits, id) := s.habits.Insert(Habit(user, name, description, monthGoal, today));
    (s.(habits := habits), id)
  }

  // ---------------------------------------------------------------------------
  // Status toggles

  datatype ToggleKind = CompletedToggle | AbandonedToggle

  function ApplyToggle(kind: ToggleKind, st: GoalStatus): GoalStatus
  {
    match kind
    case CompletedToggle => ToggleCompleted(st)
    case AbandonedToggle => ToggleAbandoned(st)
  }

  /** `goal_toggle_status` and `goal_toggle_status_abandoned`: the goal is looked up
      by primary key alone (a missing one is a 404), and only its status changes. */
  function ToggleGoal(s: Store, pk: Id, kind: ToggleKind): (r: Result<Store>)
    ensures r.Failure? <==> pk !in s.goals.rows
    ensures r.Failure? ==> r.error == NotFound
    ensures r.Success? ==>
      var g := s.goals.rows[pk];
      && r.value == s.(goals := r.value.goals)
      && r.value.goals.next == s.goals.next
      && r.value.goals.rows.Keys == s.goals.rows.Keys
      && (forall id :: id in s.goals.rows && id != pk ==> r.value.goals.rows[id] == s.goals.rows[id])
      && r.value.goals.rows[pk].(status := g.status) == g
      && r.value.goals.rows[pk].status == ApplyToggle(kind, g.status)
    ensures r.Success? && Valid(s) ==> Valid(r.value)
  {
    if pk !in s.goals.rows then
      Failure(NotFound)
    else
      var g := s.goals.rows[pk];
      Success(s.(goals := s.goals.(rows := s.goals.rows[pk := g.(status := ApplyToggle(kind, g.status))])))
  }

  /** `goal_stage_toggle_status` and `goal_stage_toggle_status_abandoned`: the stage
      is looked up by its own primary key (the goal id of the URL only picks the
      page to return to), and only its status changes. */
  function ToggleStage(s: Store, pk: Id, kind: ToggleKind): (r: Result<Store>)
    ensures r.Failure? <==> pk !in s.stages.rows
    ensures r.Failure? ==> r.error == NotFound
    ensures r.Success? ==>
      var st := s.stages.rows[pk];
      && r.value == s.(stages := r.value.stages)
      && r.value.stages.next == s.stages.next
      && r.value.stages.rows.Keys == s.stages.rows.Keys
      && (forall id :: id in s.stages.rows && id != pk ==> r.value.stages.rows[id] == s.stages.rows[id])
      && r.value.stages.rows[pk].(status := st.status) == st
      && r.value.stages.rows[pk].status == ApplyToggle(kind, st.status)
    ensures r.Success? && Valid(s) ==> Valid(r.value)
  {
    if pk !in s.stages.rows then
      Failure(NotFound)
    else
      var st := s.stages.rows[pk];
      Success(s.(stages := s.stages.(rows := s.stages.rows[pk := st.(status := ApplyToggle(kind, st.status))])))
  }

  /** Toggling a goal never changes whose lists it is in, nor any dashboard's goal
      total; it moves the goal from the list of its old status to the list of its
      new one. */
  lemma {:induction false} ToggleGoalMovesBetweenLists(s: Store, pk: Id, kind: ToggleKind, user: UserId)
    requires pk in s.goals.rows
    ensures var s' := ToggleGoal(s, pk, kind).value;
      var before := s.goals.rows[pk].status;
      var after := ApplyToggle(kind, before);
      && OwnedGoals(s', user) == OwnedGoals(s, user)
      && Index(s', user).totalGoals == Index(s, user).totalGoals
      && (s.goals.rows[pk].user == user ==>
            && GoalsWithStatus(s', user, after) == GoalsWithStatus(s, user, after) + {pk}
            && GoalsWithStatus(s', user, before) == GoalsWithStatus(s, user, before) - {pk})
  {
    var s' := ToggleGoal(s, pk, kind).value;
    assert OwnedGoals(s', user) == OwnedGoals(s, user);
  }

  /** On a goal that is not abandoned, two "completed" toggles give back the very
      same store; on one that is not completed, so do two "abandoned" toggles. */
  lemma ToggleGoalTwiceRestores(s: Store, pk: Id, kind: ToggleKind)
    requires pk in s.goals.rows
    requires kind == CompletedToggle ==> s.goals.rows[pk].status != Abandoned
    requires kind == AbandonedToggle ==> s.goals.rows[pk].status != Completed
    ensures ToggleGoal(ToggleGoal(s, pk, kind).value, pk, kind) == Success(s)
  {
    var s2 := ToggleGoal(ToggleGoal(s, pk, kind).value, pk, kind).value;
    assert s2.goals.rows == s.goals.rows;
  }

  // ---------------------------------------------------------------------------
  // Habit day completion

  /** `after` is `before` with one more row `c` under a key `before` did not use. */
  ghost predicate AddsOneRow(before: map<Id, Completion>, after: map<Id, Completion>, c: Completion)
  {
    exists id: Id :: id !in before && after == before[id := c]
  }

  /** `HabitDetailView.post`: a missing habit is a 404; an invalid `status` saves
      nothing; a valid one saves one more record by the requesting user for this
      habit dated today, whatever records already exist. */
  function PostCompletion(s: Store, user: UserId, habit: Id, submitted: string, today: int): (r: Result<Store>)
    requires Valid(s) && user in s.users
    ensures r.Failure? <==> habit !in s.habits.rows
    ensures r.Failure? ==> r.error == NotFound
    ensures r.Success? ==> Valid(r.value)
    ensures r.Success? && ParseDay(submitted).None? ==> r.value == s
    ensures r.Success? && ParseDay(submitted).Some? ==>
      && r.value == s.(completions := r.value.completions)
      && AddsOneRow(s.completions.rows, r.value.completions.rows,
                    Completion(user, habit, today, ParseDay(submitted).value))
  {
    if habit !in s.habits.rows then
      Failure(NotFound)
    else
      match ParseDay(submitted)
      case None => Success(s)
      case Some(d) =>
        var (completions, id) := s.completions.Insert(Completion(user, habit, today, d));
        Success(s.(completions := completions))
  }

  /** The records of a habit with a given outcome, after one more record is saved
      under a fresh key. */
  lemma {:induction false} CompletionsAfterInsert(s: Store, s': Store, id: Id, c: Completion, habit: Id, d: DayStatus)
    requires id !in s.completions.rows
    requires s'.completions.rows == s.completions.rows[id := c]
    ensures c.habit == habit && c.status == d ==>
      |CompletionsWith(s', habit, d)| == |CompletionsWith(s, habit, d)| + 1
    ensures !(c.habit == habit && c.status == d) ==>
      |CompletionsWith(s', habit, d)| == |CompletionsWith(s, habit, d)|
  {
    if c.habit == habit && c.status == d {
      assert CompletionsWith(s', habit, d) == CompletionsWith(s, habit, d) + {id};
    } else {
      assert CompletionsWith(s', habit, d) == CompletionsWith(s, habit, d);
    }
  }

  /** A valid post raises the habit's count for the submitted outcome by one and
      lowers its ignored days by one; the day total stays. */
  lemma {:induction false} PostCompletionStats(s: Store, user: UserId, habit: Id, d: DayStatus, today: int, day: int)
    requires Valid(s) && user in s.users && habit in s.habits.rows
    ensures var before := HabitDetail(s, habit, day).value;
      var after := HabitDetail(PostCompletion(s, user, habit, DayCode(d), today).value, habit, day).value;
      && after.totalDays == before.totalDays
      && after.ignoredDays == before.ignoredDays - 1
      && after.completedDays == before.completedDays + (if d == DayCompleted then 1 else 0)
      && after.notCompletedDays == before.notCompletedDays + (if d == DayNotCompleted then 1 else 0)
  {
    ParseDayCode(d);
    var s' := PostCompletion(s, user, habit, DayCode(d), today).value;
    var id := s.completions.next;
    var c := Completion(user, habit, today, d);
    assert s'.completions.rows == s.completions.rows[id := c];
    assert s'.habits == s.habits;
    CompletionsAfterInsert(s, s', id, c, habit, DayCompleted);
    CompletionsAfterInsert(s, s', id, c, habit, DayNotCompleted);
  }

  /** Posting "completed" twice on the day a habit is created counts two completed
      days out of one: ignored days go negative and progress reaches 200. */
  lemma SameDayRepostOvercounts(s: Store, user: UserId, habit: Id, today: int)
    requires Valid(s) && user in s.users && habit in s.habits.rows
    requires s.habits.rows[habit].createdOn == today
    requires forall id :: id in s.completions.rows ==> s.completions.rows[id].habit != habit
    ensures var s1 := PostCompletion(s, user, habit, "completed", today).value;
      var s2 := PostCompletion(s1, user, habit, "completed", today).value;
      HabitDetail(s2, habit, today) == Success(HabitStats(1, 2, 0, -1, 200.0, true))
  {
    NewHabitScenario(s, habit, today);
    assert DayCode(DayCompleted) == "completed";
    PostCompletionStats(s, user, habit, DayCompleted, today, today);
    var s1 := PostCompletion(s, user, habit, "completed", today).value;
    PostCompletionStats(s1, user, habit, DayCompleted, today, today);
    var s2 := PostCompletion(s1, user, habit, "completed", today).value;
    var id := s1.completions.next;
    assert id in s2.completions.rows && s2.completions.rows[id].completeDate == today;
  }

  // ---------------------------------------------------------------------------
  // Commentary

  /** What a commentary is written on: the goal or habit of the URL. */
  datatype Target = OnGoal(goal: Id) | OnHabit(habit: Id)

  predicate TargetExists(s: Store, t: Target)
  {
    match t
    case OnGoal(g) => g in s.goals.rows
    case OnHabit(h) => h in s.habits.rows
  }

  /** `CommentaryGoalCreateView.form_valid` and `CommentaryHabitCreateView.form_valid`:
      the form strips surrounding whitespace from the text, a text left empty fails
      the form and saves nothing; otherwise the target is fetched
      with `objects.get` (an uncaught exception when it is missing, before anything
      is saved), and the commentary is saved with the requesting user as author and
      linked to that one target. */
  function CreateCommentary(s: Store, user: UserId, target: Target, text: string, now: int): (r: Result<(Store, Id)>)
    requires Valid(s) && user in s.users
    ensures IsBlank(text) ==> r == Failure(InvalidForm)
    ensures !IsBlank(text) && !TargetExists(s, target) ==> r == Failure(DoesNotExist)
    ensures r.Success? <==> !IsBlank(text) && TargetExists(s, target)
    ensures r.Success? ==>
      var (s', id) := r.value;
      && Valid(s')
      && id !in s.commentaries.rows
      && s' == s.(commentaries := s'.commentaries)
      && s'.commentaries.rows.Keys == s.commentaries.rows.Keys + {id}
      && (forall k :: k in s.commentaries.rows ==> s'.commentaries.rows[k] == s.commentaries.rows[k])
      && s'.commentaries.rows[id].user == user
      && s'.commentaries.rows[id].text == Strip(text)
      && IsStripOf(s'.commentaries.rows[id].text, text)
      && s'.commentaries.rows[id].createdAt == now
  {
    if IsBlank(text) then
      Failure(InvalidForm)
    else if !TargetExists(s, target) then
      Failure(DoesNotExist)
    else
      var links := match target
        case OnGoal(g) => Commentary(user, {g}, {}, Strip(text), now)
        case OnHabit(h) => Commentary(user, {}, {h}, Strip(text), now);
      var (commentaries, id) := s.commentaries.Insert(links);
      Success((s.(commentaries := commentaries), id))
  }

  /** The commentaries shown on a goal's or habit's detail page. */
  function CommentariesOf(s: Store, t: Target): set<Id>
  {
    match t
    case OnGoal(g) => set id | id in s.commentaries.rows && g in s.commentaries.rows[id].goals
    case OnHabit(h) => set id | id in s.commentaries.rows && h in s.commentaries.rows[id].habits
  }

  /** A created commentary is linked to exactly one goal or habit, the target, and
      appears on the target's page and on no other page. */
  lemma {:induction false} CommentaryOnExactlyOneTarget(s: Store, user: UserId, target: Target, text: string,
                                                        now: int, other: Target)
    requires Valid(s) && user in s.users
    requires CreateCommentary(s, user, target, text, now).Success?
    ensures var (s', id) := CreateCommentary(s, user, target, text, now).value;
      var c := s'.commentaries.rows[id];
      && |c.goals| + |c.habits| == 1
      && (target.OnGoal? ==> c.goals == {target.goal})
      && (target.OnHabit? ==> c.habits == {target.habit})
      && CommentariesOf(s', target) == CommentariesOf(s, target) + {id}
      && (other != target ==> CommentariesOf(s', other) == CommentariesOf(s, other))
  {
    var (s', id) := CreateCommentary(s, user, target, text, now).value;
    var c := s'.commentaries.rows[id];
    assert c.goals == (if target.OnGoal? then {target.goal} else {});
    assert c.habits == (if target.OnHabit? then {target.habit} else {});
    assert CommentariesOf(s', target) == CommentariesOf(s, target) + {id};
    if other != target {
      assert CommentariesOf(s', other) == CommentariesOf(s, other);
    }
  }

  // ---------------------------------------------------------------------------
  // Deletion and its cascades

  /** `GoalDeleteView`: a missing goal is a 404; the goal's stages go with it
      (`on_delete=CASCADE`) and commentaries lose their link to it. */
  function DeleteGoal(s: Store, pk: Id): (r: Result<Store>)
    requires Valid(s)
    ensures r.Failure? <==> pk !in s.goals.rows
    ensures r.Failure? ==> r.error == NotFound
    ensures r.Success? ==>
      var s' := r.value;
      && Valid(s')
      && s'.users == s.users && s'.habits == s.habits && s'.completions == s.completions
      && s'.goals.rows.Keys == s.goals.rows.Keys - {pk}
      && (forall id :: id in s'.goals.rows ==> s'.goals.rows[id] == s.goals.rows[id])
      && (forall id :: id in s.stages.rows ==> (id in s'.stages.rows <==> s.stages.rows[id].goal != pk))
      && (forall id :: id in s'.stages.rows ==> id in s.stages.rows && s'.stages.rows[id] == s.stages.rows[id])
      && s'.commentaries.rows.Keys == s.commentaries.rows.Keys
      && (forall id :: id in s.commentaries.rows ==>
            s'.commentaries.rows[id] == s.commentaries.rows[id].(goals := s.commentaries.rows[id].goals - {pk}))
  {
    if pk !in s.goals.rows then
      Failure(NotFound)
    else
      Success(Store(
        s.users,
        s.goals.(rows := s.goals.rows - {pk}),
        s.stages.(rows := map id | id in s.stages.rows && s.stages.rows[id].goal != pk :: s.stages.rows[id]),
        s.habits,
        s.completions,
        s.commentaries.(rows := map id | id in s.commentaries.rows ::
          s.commentaries.rows[id].(goals := s.commentaries.rows[id].goals - {pk}))))
  }

  /** `HabitDeleteView`: a missing habit is a 404; the habit's completion records go
      with it and commentaries lose their link to it. */
  function DeleteHabit(s: Store, pk: Id): (r: Result<Store>)
    requires Valid(s)
    ensures r.Failure? <==> pk !in s.habits.rows
    ensures r.Failure? ==> r.error == NotFound
    ensures r.Success? ==>
      var s' := r.value;
      && Valid(s')
      && s'.users == s.users && s'.goals == s.goals && s'.stages == s.stages
      && s'.habits.rows.Keys == s.habits.rows.Keys - {pk}
      && (forall id :: id in s'.habits.rows ==> s'.habits.rows[id] == s.habits.rows[id])
      && (forall id :: id in s.completions.rows ==> (id in s'.completions.rows <==> s.completions.rows[id].habit != pk))
      && (forall id :: id in s'.completions.rows ==> id in s.completions.rows && s'.completions.rows[id] == s.completions.rows[id])
      && s'.commentaries.rows.Keys == s.commentaries.rows.Keys
      && (forall id :: id in s.commentaries.rows ==>
            s'.commentaries.rows[id] == s.commentaries.rows[id].(habits := s.commentaries.rows[id].habits - {pk}))
  {
    if pk !in s.habits.rows then
      Failure(NotFound)
    else
      Success(Store(
        s.users,
        s.goals,
        s.stages,
        s.habits.(rows := s.habits.rows - {pk}),
        s.completions.(rows := map id | id in s.completions.rows && s.completions.rows[id].habit != pk :: s.completions.rows[id]),
        s.commentaries.(rows := map id | id in s.commentaries.rows ::
          s.commentaries.rows[id].(habits := s.commentaries.rows[id].habits - {pk}))))
  }

  /** Deleting a user account: every goal, habit, completion record and commentary
      it owns is deleted, then the stages of its goals and the records of its
      habits, and the surviving commentaries lose their links to deleted rows. */
  function DeleteUser(s: Store, user: UserId): (r: Store)
    requires Valid(s)
    ensures Valid(r)
    ensures r.users == s.users - {user}
    ensures OwnedGoals(r, user) == {} && OwnedHabits(r, user) == {}
    ensures forall id :: id in r.commentaries.rows ==> r.commentaries.rows[id].user != user
    ensures forall id :: id in r.completions.rows ==> r.completions.rows[id].user != user
    ensures forall id :: id in s.goals.rows && s.goals.rows[id].user != user ==>
      id in r.goals.rows && r.goals.rows[id] == s.goals.rows[id]
    ensures forall id :: id in s.habits.rows && s.habits.rows[id].user != user ==>
      id in r.habits.rows && r.habits.rows[id] == s.habits.rows[id]
    ensures forall id :: id in r.goals.rows ==> id in s.goals.rows && r.goals.rows[id] == s.goals.rows[id]
    ensures forall id :: id in r.habits.rows ==> id in s.habits.rows && r.habits.rows[id] == s.habits.rows[id]
    ensures forall id :: id in r.stages.rows ==> id in s.stages.rows && r.stages.rows[id] == s.stages.rows[id]
    ensures forall id :: id in s.stages.rows && s.goals.rows[s.stages.rows[id].goal].user != user ==>
      id in r.stages.rows
    ensures forall id :: id in s.completions.rows && s.completions.rows[id].user != user
                         && s.habits.rows[s.completions.rows[id].habit].user != user ==>
      id in r.completions.rows && r.completions.rows[id] == s.completions.rows[id]
    ensures forall id :: id in r.completions.rows ==>
      id in s.completions.rows && r.completions.rows[id] == s.completions.rows[id]
    ensures forall id :: id in s.commentaries.rows && s.commentaries.rows[id].user != user ==>
      var c := s.commentaries.rows[id];
      id in r.commentaries.rows
      && r.commentaries.rows[id] == c.(goals := c.goals * r.goals.rows.Keys, habits := c.habits * r.habits.rows.Keys)
    ensures forall id :: id in r.commentaries.rows ==> id in s.commentaries.rows
  {
    var goals := map id | id in s.goals.rows && s.goals.rows[id].user != user :: s.goals.rows[id];
    var habits := map id | id in s.habits.rows && s.habits.rows[id].user != user :: s.habits.rows[id];
    var stages := map id | id in s.stages.rows && s.stages.rows[id].goal in goals :: s.stages.rows[id];
    var completions := map id | id in s.completions.rows && s.completions.rows[id].habit in habits
                                && s.completions.rows[id].user != user :: s.completions.rows[id];
    var commentaries := map id | id in s.commentaries.rows && s.commentaries.rows[id].user != user ::
      s.commentaries.rows[id].(goals := s.commentaries.rows[id].goals * goals.Keys,
                               habits := s.commentaries.rows[id].habits * habits.Keys);
    Store(
      s.users - {user},
      s.goals.(rows := goals),
      s.stages.(rows := stages),
      s.habits.(rows := habits),
      s.completions.(rows := completions),
      s.commentaries.(rows := commentaries))
  }
}
