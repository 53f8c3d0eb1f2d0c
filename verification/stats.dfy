/** The derived numbers of the dashboard (`index`) and of the habit detail page.
    Counts are integers; percentages are exact reals (the displayed values round
    them). */
module Stats {
  import opened Wrappers
  import opened Status
  import opened Models
  import opened Queries

  /** `count / total * 100` for a positive total. */
  function Percent(count: nat, total: nat): (p: real)
    requires total > 0
    ensures p * total as real == 100.0 * count as real
    ensures count <= total ==> 0.0 <= p <= 100.0
  {
    var q := count as real / total as real;
    assert q * total as real == count as real;
    q * 100.0
  }

  /** Shares of parts that add up to the whole add up to 100. */
  lemma PercentsAddUp(a: nat, b: nat, c: nat, total: nat)
    requires total > 0 && a + b + c == total
    ensures Percent(a, total) + Percent(b, total) + Percent(c, total) == 100.0
  {
    var t := total as real;
    assert a as real + b as real + c as real == t;
    SharesOfWhole(a as real, b as real, c as real, t);
  }

  lemma SharesOfWhole(x: real, y: real, z: real, t: real)
    requires t > 0.0 && x + y + z == t
    ensures x / t * 100.0 + y / t * 100.0 + z / t * 100.0 == 100.0
  {
  }

  /** The user's goal count per status adds up to their goal count. */
  lemma {:induction false} StatusCountsAddUp(s: Store, user: UserId)
    ensures |GoalsWithStatus(s, user, Active)| + |GoalsWithStatus(s, user, Completed)|
            + |GoalsWithStatus(s, user, Abandoned)| == |OwnedGoals(s, user)|
  {
    StatusListsPartition(s, user);
    var a, c, b := GoalsWithStatus(s, user, Active), GoalsWithStatus(s, user, Completed),
                   GoalsWithStatus(s, user, Abandoned);
    assert |a + c| == |a| + |c|;
    assert (a + c) !! b;
    assert |(a + c) + b| == |a + c| + |b|;
  }

  datatype Dashboard = Dashboard(
    activeGoals: nat,
    completedGoals: nat,
    abandonedGoals: nat,
    totalGoals: nat,
    activePercent: real,
    completedPercent: real,
    abandonedPercent: real,
    habits: nat)

  /** Counts, shares and habit count of one user's dashboard. */
  predicate DashboardOf(s: Store, user: UserId, d: Dashboard)
  {
    && d.activeGoals == |GoalsWithStatus(s, user, Active)|
    && d.completedGoals == |GoalsWithStatus(s, user, Completed)|
    && d.abandonedGoals == |GoalsWithStatus(s, user, Abandoned)|
    && d.totalGoals == |OwnedGoals(s, user)|
    && d.habits == |OwnedHabits(s, user)|
  }

  /** `index` as written: the three shares divide by the goal total with no guard,
      so a user with no goals gets a division-by-zero fault instead of a page. */
  function IndexAsWritten(s: Store, user: UserId): (r: Result<Dashboard>)
    ensures r.Failure? <==> OwnedGoals(s, user) == {}
    ensures r.Failure? ==> r.error == ZeroDivision
    ensures r.Success? ==> DashboardOf(s, user, r.value)
    ensures r.Success? ==> r.value.activeGoals + r.value.completedGoals + r.value.abandonedGoals == r.value.totalGoals
    ensures r.Success? ==> r.value.activePercent + r.value.completedPercent + r.value.abandonedPercent == 100.0
  {
    var active := |GoalsWithStatus(s, user, Active)|;
    var completed := |GoalsWithStatus(s, user, Completed)|;
    var abandoned := |GoalsWithStatus(s, user, Abandoned)|;
    var total := |OwnedGoals(s, user)|;
    if total == 0 then
      Failure(ZeroDivision)
    else
      StatusCountsAddUp(s, user);
      PercentsAddUp(active, completed, abandoned, total);
      Success(Dashboard(active, completed, abandoned, total,
        Percent(active, total), Percent(completed, total), Percent(abandoned, total),
        |OwnedHabits(s, user)|))
  }

  /** A freshly registered user, who owns no goal yet, cannot open the dashboard. */
  lemma NewUserDashboardFaults(user: UserId)
    ensures IndexAsWritten(EmptyStore({user}), user) == Failure(ZeroDivision)
  {
    assert OwnedGoals(EmptyStore({user}), user) == {};
  }

  /** The dashboard with the guard the habit detail page already uses: with no goals
      every share is 0; otherwise it is exactly the unguarded dashboard. */
  function Index(s: Store, user: UserId): (r: Dashboard)
    ensures DashboardOf(s, user, r)
    ensures r.activeGoals + r.completedGoals + r.abandonedGoals == r.totalGoals
    ensures r.totalGoals == 0 ==> r.activePercent == r.completedPercent == r.abandonedPercent == 0.0
    ensures r.totalGoals > 0 ==> r.activePercent + r.completedPercent + r.abandonedPercent == 100.0
    ensures IndexAsWritten(s, user).Success? ==> IndexAsWritten(s, user).value == r
  {
    match IndexAsWritten(s, user)
    case Success(d) => d
    case Failure(_) =>
      StatusCountsAddUp(s, user);
      Dashboard(0, 0, 0, 0, 0.0, 0.0, 0.0, |OwnedHabits(s, user)|)
  }

  /** One goal of each status gives three equal shares of one third each. */
  lemma ThreeGoalsScenario(s: Store, user: UserId)
    requires |GoalsWithStatus(s, user, Active)| == 1
    requires |GoalsWithStatus(s, user, Completed)| == 1
    requires |GoalsWithStatus(s, user, Abandoned)| == 1
    ensures Index(s, user).totalGoals == 3
    ensures Index(s, user).activePercent == Index(s, user).completedPercent
            == Index(s, user).abandonedPercent == 100.0 / 3.0
  {
    StatusCountsAddUp(s, user);
    var d := Index(s, user);
    assert d.activePercent * 3.0 == 100.0;
    assert d.completedPercent * 3.0 == 100.0;
    assert d.abandonedPercent * 3.0 == 100.0;
  }

  // ---------------------------------------------------------------------------
  // Habit detail

  /** The completion records of a habit with the given outcome, whoever posted them
      and for whichever date. */
  function CompletionsWith(s: Store, habit: Id, status: DayStatus): set<Id>
  {
    set id | id in s.completions.rows && s.completions.rows[id].habit == habit
                && s.completions.rows[id].status == status
  }

  datatype HabitStats = HabitStats(
    totalDays: int,
    completedDays: nat,
    notCompletedDays: nat,
    ignoredDays: int,
    progressPercent: real,
    recordedToday: bool)

  /** `round(100 * (completed / total), 2) if total else 0`, without the rounding. */
  function Progress(completed: nat, totalDays: int): (p: real)
    ensures totalDays != 0 ==> p * totalDays as real == 100.0 * completed as real
    ensures totalDays == 0 ==> p == 0.0
  {
    if totalDays != 0 then
      var q := completed as real / totalDays as real;
      assert q * totalDays as real == completed as real;
      100.0 * q
    else
      0.0
  }

  /** `HabitDetailView.get_context_data` for the habit with primary key `habit` on
      day `today`: days since creation counting the creation day, completed and
      not-completed record counts, the remaining "ignored" days, the progress share
      and whether a record for today exists. A missing habit is a 404. */
  function HabitDetail(s: Store, habit: Id, today: int): (r: Result<HabitStats>)
    ensures r.Failure? <==> habit !in s.habits.rows
    ensures r.Failure? ==> r.error == NotFound
    ensures r.Success? ==>
      var h := s.habits.rows[habit];
      && r.value.totalDays - 1 == today - h.createdOn
      && (h.createdOn <= today ==> r.value.totalDays >= 1)
      && r.value.completedDays == |CompletionsWith(s, habit, DayCompleted)|
      && r.value.notCompletedDays == |CompletionsWith(s, habit, DayNotCompleted)|
      && r.value.ignoredDays + r.value.completedDays + r.value.notCompletedDays == r.value.totalDays
      && (r.value.totalDays != 0 ==> r.value.progressPercent * r.value.totalDays as real == 100.0 * r.value.completedDays as real)
      && (r.value.totalDays == 0 ==> r.value.progressPercent == 0.0)
      && (r.value.recordedToday <==>
            exists id :: (id in s.completions.rows && s.completions.rows[id].habit == habit
                          && s.completions.rows[id].completeDate == today))
  {
    if habit !in s.habits.rows then
      Failure(NotFound)
    else
      var h := s.habits.rows[habit];
      var total := (today - h.createdOn) + 1;
      var completed := |CompletionsWith(s, habit, DayCompleted)|;
      var notCompleted := |CompletionsWith(s, habit, DayNotCompleted)|;
      var today' :=
        exists id :: (id in s.completions.rows && s.completions.rows[id].habit == habit
                      && s.completions.rows[id].completeDate == today);
      Success(HabitStats(total, completed, notCompleted, total - (completed + notCompleted),
        Progress(completed, total), today'))
  }

  /** A habit created today with no records: one day, none completed or missed,
      one ignored, progress 0. */
  lemma NewHabitScenario(s: Store, habit: Id, today: int)
    requires habit in s.habits.rows && s.habits.rows[habit].createdOn == today
    requires forall id :: id in s.completions.rows ==> s.completions.rows[id].habit != habit
    ensures HabitDetail(s, habit, today) == Success(HabitStats(1, 0, 0, 1, 0.0, false))
  {
    assert CompletionsWith(s, habit, DayCompleted) == {};
    assert CompletionsWith(s, habit, DayNotCompleted) == {};
  }

  /** The habit's records carry distinct dates, none before the habit's creation day
      nor after `today`: the one-record-per-day shape the detail page's "today"
      form presumes. */
  ghost predicate OneRecordPerDay(s: Store, habit: Id, today: int)
    requires habit in s.habits.rows
  {
    && (forall id :: id in s.completions.rows && s.completions.rows[id].habit == habit ==>
          s.habits.rows[habit].createdOn <= s.completions.rows[id].completeDate <= today)
    && (forall i, j ::
          (i in s.completions.rows && j in s.completions.rows && i != j
           && s.completions.rows[i].habit == habit && s.completions.rows[j].habit == habit) ==>
          s.completions.rows[i].completeDate != s.completions.rows[j].completeDate)
  }

  /** Records with distinct dates in `lo..hi` number at most the days of that range. */
  lemma {:induction false} DistinctDatesBound(rows: map<Id, Completion>, ids: set<Id>, lo: int, hi: int)
    requires ids <= rows.Keys
    requires forall id :: id in ids ==> lo <= rows[id].completeDate <= hi
    requires forall i, j :: i in ids && j in ids && i != j ==> rows[i].completeDate != rows[j].completeDate
    ensures |ids| <= if hi < lo then 0 else hi - lo + 1
    decreases hi - lo
  {
    if hi < lo {
      assert ids == {};
    } else {
      var top := set id | id in ids && rows[id].completeDate == hi;
      var rest := ids - top;
      AtMostOneOnADay(rows, ids, top, hi);
      forall id | id in rest
        ensures lo <= rows[id].completeDate <= hi - 1
      {
        assert id !in top;
      }
      DistinctDatesBound(rows, rest, lo, hi - 1);
      assert ids == rest + top;
      assert |ids| == |rest| + |top|;
    }
  }

  lemma AtMostOneOnADay(rows: map<Id, Completion>, ids: set<Id>, top: set<Id>, day: int)
    requires ids <= rows.Keys
    requires forall i, j :: i in ids && j in ids && i != j ==> rows[i].completeDate != rows[j].completeDate
    requires top == set id | id in ids && rows[id].completeDate == day
    ensures |top| <= 1
  {
    if a :| a in top {
      assert top == {a};
    } else {
      assert top == {};
    }
  }

  /** With at most one record per day since creation, ignored days are never
      negative and progress never exceeds 100. */
  lemma {:induction false} OneRecordPerDayBoundsProgress(s: Store, habit: Id, today: int)
    requires habit in s.habits.rows && s.habits.rows[habit].createdOn <= today
    requires OneRecordPerDay(s, habit, today)
    ensures HabitDetail(s, habit, today).value.ignoredDays >= 0
    ensures 0.0 <= HabitDetail(s, habit, today).value.progressPercent <= 100.0
  {
    var st := HabitDetail(s, habit, today).value;
    RecordsFitInDays(s, habit, today);
    ShareOfWholeAtMost100(st.progressPercent, st.completedDays, st.totalDays);
  }

  lemma {:induction false} RecordsFitInDays(s: Store, habit: Id, today: int)
    requires habit in s.habits.rows && s.habits.rows[habit].createdOn <= today
    requires OneRecordPerDay(s, habit, today)
    ensures |CompletionsWith(s, habit, DayCompleted)| + |CompletionsWith(s, habit, DayNotCompleted)|
            <= today - s.habits.rows[habit].createdOn + 1
  {
    var rows := s.completions.rows;
    var c := CompletionsWith(s, habit, DayCompleted);
    var n := CompletionsWith(s, habit, DayNotCompleted);
    var all := c + n;
    assert c !! n;
    assert |all| == |c| + |n|;
    forall id | id in all
      ensures s.habits.rows[habit].createdOn <= rows[id].completeDate <= today
    {
      assert rows[id].habit == habit;
    }
    forall i, j | i in all && j in all && i != j
      ensures rows[i].completeDate != rows[j].completeDate
    {
      assert rows[i].habit == habit && rows[j].habit == habit;
    }
    DistinctDatesBound(rows, all, s.habits.rows[habit].createdOn, today);
  }

  lemma ShareOfWholeAtMost100(p: real, part: nat, whole: int)
    requires 0 < whole && part <= whole
    requires p * whole as real == 100.0 * part as real
    ensures 0.0 <= p <= 100.0
  {
    if p > 100.0 {
      assert p * whole as real > 100.0 * whole as real;
    }
  }
}
