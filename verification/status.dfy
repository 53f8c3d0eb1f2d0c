/** The status fields of the tracker: the three-valued status of goals and goal
    stages, the two toggle actions that change it, and the outcome recorded for a
    habit day. */
module Status {
  import opened Wrappers

  /** `Goal.STATUS_CHOICES` and `GoalStage.STATUS_CHOICES` (the same three choices). */
  datatype GoalStatus = Active | Completed | Abandoned

  /** The value stored in the `status` CharField. */
  function Code(s: GoalStatus): string
  {
    match s
    case Active => "active"
    case Completed => "completed"
    case Abandoned => "abandoned"
  }

  /** The `default="active"` of both status fields. */
  const DefaultStatus: GoalStatus := Active

  /** Reads a stored status value back; any string outside the choices is rejected. */
  function Parse(code: string): (r: Option<GoalStatus>)
    ensures r.Some? ==> Code(r.value) == code
    ensures r.None? ==> forall s: GoalStatus :: Code(s) != code
  {
    if code == "active" then Some(Active)
    else if code == "completed" then Some(Completed)
    else if code == "abandoned" then Some(Abandoned)
    else None
  }

  /** Every status survives being stored and read back. */
  lemma ParseCode(s: GoalStatus)
    ensures Parse(Code(s)) == Some(s)
  {
  }

  /** The "completed" toggle of `goal_toggle_status` and `goal_stage_toggle_status`:
      an active record becomes completed, any other becomes active. */
  function ToggleCompleted(s: GoalStatus): (r: GoalStatus)
    ensures r != s
    ensures r != Abandoned
    ensures r == Completed <==> s == Active
  {
    if s == Active then Completed else Active
  }

  /** The "abandoned" toggle of `goal_toggle_status_abandoned` and
      `goal_stage_toggle_status_abandoned`: an abandoned record becomes active, any
      other becomes abandoned. */
  function ToggleAbandoned(s: GoalStatus): (r: GoalStatus)
    ensures r != s
    ensures r != Completed
    ensures r == Active <==> s == Abandoned
  {
    if s == Abandoned then Active else Abandoned
  }

  /** Toggling "completed" twice restores the status exactly when it was not
      abandoned; an abandoned record ends up completed, not abandoned. */
  lemma ToggleCompletedTwice(s: GoalStatus)
    ensures ToggleCompleted(ToggleCompleted(s)) == s <==> s != Abandoned
    ensures s == Abandoned ==> ToggleCompleted(ToggleCompleted(s)) == Completed
    ensures ToggleCompleted(ToggleCompleted(s)) == Active <==> s == Active
  {
  }

  /** Toggling "abandoned" twice restores the status exactly when it was not
      completed; a completed record ends up active, not completed. */
  lemma ToggleAbandonedTwice(s: GoalStatus)
    ensures ToggleAbandoned(ToggleAbandoned(s)) == s <==> s != Completed
    ensures s == Completed ==> ToggleAbandoned(ToggleAbandoned(s)) == Active
    ensures ToggleAbandoned(ToggleAbandoned(s)) == Abandoned <==> s == Abandoned
  {
  }

  /** After one toggle a record only alternates between two values, so three
      toggles of one kind act as one. */
  lemma ToggleThriceIsOnce(s: GoalStatus)
    ensures ToggleCompleted(ToggleCompleted(ToggleCompleted(s))) == ToggleCompleted(s)
    ensures ToggleAbandoned(ToggleAbandoned(ToggleAbandoned(s))) == ToggleAbandoned(s)
  {
  }

  /** A new record starts active; one "completed" toggle makes it completed, one
      "abandoned" toggle makes it abandoned, and from there a "completed" toggle
      makes it active again. */
  lemma ToggleScenario()
    ensures ToggleCompleted(DefaultStatus) == Completed
    ensures ToggleAbandoned(DefaultStatus) == Abandoned
    ensures ToggleAbandoned(ToggleCompleted(DefaultStatus)) == Abandoned
    ensures ToggleCompleted(ToggleAbandoned(ToggleCompleted(DefaultStatus))) == Active
  {
  }

  /** The outcome of one `HabitDayCompletion` record, as the habit detail view
      counts them. */
  datatype DayStatus = DayCompleted | DayNotCompleted

  function DayCode(d: DayStatus): string
  {
    match d
    case DayCompleted => "completed"
    case DayNotCompleted => "not_completed"
  }

  /** Validation of the submitted day-completion `status` field. */
  function ParseDay(code: string): (r: Option<DayStatus>)
    ensures r.Some? ==> DayCode(r.value) == code
    ensures r.None? ==> forall d: DayStatus :: DayCode(d) != code
  {
    if code == "completed" then Some(DayCompleted)
    else if code == "not_completed" then Some(DayNotCompleted)
    else None
  }

  lemma ParseDayCode(d: DayStatus)
    ensures ParseDay(DayCode(d)) == Some(d)
  {
  }
}
