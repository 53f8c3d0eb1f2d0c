# Goal and habit tracker — a Dafny model

This project models the logic of a Django goal- and habit-tracking application.
A user owns goals, habits and commentaries. A goal has stages. A habit has daily
completion records. The model covers:

- the three-valued status of goals and goal stages and the two toggle actions
  that change it;
- the per-user list queries, including the case-insensitive name search and the
  stage display ordering;
- the dashboard counts and shares, and the habit detail statistics;
- the record-creating and record-deleting request handlers, with the delete
  cascades.

The database is an immutable `Store` of tables. Each table maps auto-increment
primary keys to records. Every request handler is a pure function from the store
before the request to the store after it, or to the error the request ends with.
The requesting user, "now" and "today" are explicit parameters. Timestamps are
integers; a habit keeps only the day number of its creation.

Modules:

- `Wrappers`: `Option`, `Result` and the error kinds.
- `Text`: ASCII case folding, substring search, whitespace stripping, string order.
- `Status`: status values, stored codes, toggles.
- `Ordering`: lexicographic sort keys and an insertion sort.
- `Models`: records, tables, the store, foreign-key integrity and the stage ordering.
- `Queries`: the list views.
- `Stats`: the dashboard and habit detail numbers.
- `Actions`: creation, toggles, completion posts, commentaries and deletion.

Some schema rules hold by construction. A goal's deadline is an `int` and a
stage's is an `Option<int>`, so a goal needs a deadline and a stage does not. A
status is a value of the three-valued `GoalStatus` type, so it cannot be anything
else, and new goals and stages start at `DefaultStatus`, which is active.
`Goal.ToString` and `Habit.ToString` model `__str__` and return the name.

Facts the model makes explicit:

- A toggle looks its record up by primary key only. There is no owner check, so
  `ToggleGoal` and `ToggleStage` take no user.
- The stage toggles ignore the goal id in the URL except for the redirect.
- Two "completed" toggles from abandoned end at completed
  (abandoned → active → completed), not at active or abandoned.
- The name search of the goal list drops the list's creation-time ordering. The
  search branch filters the class-level queryset, which has no ordering.
- Each valid completion post appends a new record; there is no update of today's
  record. This assumes the completion table has no uniqueness constraint on
  (habit, date); its model is not part of the source. Posting "completed" twice on a habit's first day gives 2 completed days
  out of 1, −1 ignored days and 200 % progress (`SameDayRepostOvercounts`). With at
  most one record per day, ignored days stay non-negative and progress stays at
  most 100 (`OneRecordPerDayBoundsProgress`).
- The habit statistics count every completion record of the habit, whoever
  posted it.
- A commentary on a missing goal or habit is an uncaught `DoesNotExist`
  exception, not a 404. Nothing is saved in that case.
- A stage on a missing goal id is rejected by the foreign-key constraint.

## Model

| member | source | states |
|---|---|---|
| Status.Parse | tracker/models.py:20-30 | choice validation: a submitted status string is accepted as one of the three `STATUS_CHOICES` exactly when it is that choice's code; any other string is refused |
| Status.ParseCode | tracker/models.py:26-30 | every status survives being stored and read back |
| Status.ToggleCompleted | tracker/views.py:154-162 | the result always differs from the input, is never abandoned, and is completed exactly when the input was active |
| Status.ToggleAbandoned | tracker/views.py:165-174 | the result always differs from the input, is never completed, and is active exactly when the input was abandoned |
| Status.ToggleCompletedTwice | tracker/views.py:157-160 | two completed-toggles restore the status iff it was not abandoned; from abandoned they end at completed; they end at active iff the start was active |
| Status.ToggleAbandonedTwice | tracker/views.py:168-171 | two abandoned-toggles restore the status iff it was not completed; from completed they end at active |
| Status.ToggleThriceIsOnce | tracker/views.py:154-174 | three toggles of one kind have the effect of one |
| Status.ToggleScenario | tests/test_views.py:134-162 | a default (active) record becomes completed after one completed-toggle and abandoned after one abandoned-toggle; completed → abandoned → active along the scenario |
| Status.ParseDay | tracker/views.py:350-361 | a submitted day status is accepted exactly when it is "completed" or "not_completed" |
| Status.ParseDayCode | tracker/views.py:382-386 | every day outcome survives being submitted and validated |
| Text.Contains | tracker/views.py:95-97 | the scan answers true exactly when the needle occurs at some offset of the text |
| Text.ContainsIgnoringCase | tracker/views.py:95-97 | `icontains` holds exactly when the lower-cased query occurs in the lower-cased name |
| Text.EmptyQueryMatchesEverything | tracker/views.py:94-100 | an empty search text matches every name |
| Text.NameMatchesItself | tests/test_views.py:91-110 | a name always matches itself as a search text |
| Text.StrLess | tracker/models.py:59-60 | string order is irreflexive, and the empty string precedes exactly the non-empty strings |
| Text.StrLessIsLexicographic | tracker/models.py:59-60 | the string order behind `ORDER BY status` is exactly the lexicographic order: a proper prefix first, otherwise the smaller character at the first difference |
| Text.StrLessTotal | tracker/models.py:59-60 | the string order is a strict total order: of two different strings exactly one precedes the other, and no string precedes itself |
| Text.Strip | tracker/models.py:87 | the form's `str.strip()` of the commentary text: the result is the text with only whitespace (Python's `str.isspace` set) removed before and after it, it neither starts nor ends with whitespace, and it is empty exactly when the text is all whitespace |
| Text.StripUnique | tracker/models.py:87 | the stripped form of a text is unique, so the strip contract fixes the saved text |
| Ordering.Sort | tracker/models.py:59-60 | the result is a permutation of the input ids in non-decreasing key order |
| Models.Valid | tracker/models.py:10-86 | foreign-key integrity: every goal and habit belongs to a user, every stage to a goal, every completion record to a habit and a user, every commentary to a user and links only existing goals and habits; every store action keeps it |
| Models.Goal.ToString | tracker/models.py:32-33 | a goal displays as its name |
| Models.Habit.ToString | tracker/models.py:75-76 | a habit displays as its name |
| Models.StatusStringOrder | tracker/models.py:59-60 | descending string order of the stored status values is completed, active, abandoned |
| Models.StageKeyOrder | tracker/models.py:59-60 | comparing the integer sort columns of two stages agrees with `ORDER BY -status, deadline` |
| Queries.SortByCreation | tracker/views.py:77 | the ids come out as a permutation of the input, ordered by creation time |
| Queries.GoalList | tracker/views.py:89-100 | the result lists each of the caller's goals whose name contains the search text (ignoring case) exactly once, and nothing else; without a search it is ordered by creation time |
| Queries.GoalStatusList | tracker/views.py:110-136 | the result lists exactly the caller's goals with the given status, each once |
| Queries.HabitList | tracker/views.py:296-307 | the result lists each of the caller's habits whose name contains the search text exactly once, and nothing else |
| Queries.GoalStages | tracker/views.py:194 | the result lists each stage of the goal exactly once, in `-status, deadline` order |
| Queries.SortedByStageKey | tracker/models.py:59-60 | ids sorted by their stage sort keys are in `-status, deadline` order |
| Queries.StatusListsPartition | tracker/views.py:110-136 | the three status lists are pairwise disjoint and together hold every goal the user owns |
| Queries.SearchNarrowsList | tracker/views.py:94-100 | a search returns a subset of the user's rows; an absent or empty search text returns all of them |
| Queries.SearchFindsDisplayedName | tracker/models.py:32-33 | searching for a goal's own name finds it, and each found goal's `__str__` contains the search text |
| Queries.ListsOfDifferentUsersDisjoint | tracker/views.py:95-100 | two different users' lists never share a row |
| Stats.Percent | tracker/views.py:43-51 | share × total = 100 × count, and a count within the total gives a share within 0..100 |
| Stats.PercentsAddUp | tracker/views.py:43-51 | the shares of counts that add up to the total add up to 100 |
| Stats.StatusCountsAddUp | tracker/views.py:32-41 | active + completed + abandoned counts equal the user's goal total |
| Stats.IndexAsWritten | tracker/views.py:29-68 | the dashboard fails with a division by zero exactly when the user owns no goal; otherwise the counts are the user's and add up, and the shares add up to 100 |
| Stats.NewUserDashboardFaults | tracker/views.py:41-45 | a user with no goals gets a division-by-zero fault |
| Stats.Index | tracker/views.py:32-65 | with no goals every share is 0; otherwise the result equals the unguarded dashboard and its shares add up to 100 |
| Stats.ThreeGoalsScenario | tracker/views.py:43-51 | one goal of each status gives a total of 3 and three equal shares of 100/3 |
| Stats.Progress | tracker/views.py:373-375 | progress × days = 100 × completed for a non-zero day count, and 0 otherwise |
| Stats.HabitDetail | tracker/views.py:343-377 | 404 iff the habit is missing; days = today − creation day + 1 (≥ 1 once created); ignored + completed + not-completed = days; progress as above; "recorded today" iff a record of the habit is dated today |
| Stats.NewHabitScenario | tracker/views.py:348-375 | a habit created today with no records shows 1 day, 0 completed, 0 not completed, 1 ignored, progress 0 |
| Stats.DistinctDatesBound | tracker/views.py:348-361 | records with pairwise distinct dates within a range are no more than the days in that range |
| Stats.RecordsFitInDays | tracker/views.py:348-367 | with at most one record per day since creation, completed + not-completed ≤ total days |
| Stats.OneRecordPerDayBoundsProgress | tracker/views.py:363-375 | with at most one record per day since creation, ignored days ≥ 0 and 0 ≤ progress ≤ 100 |
| Actions.CreateGoal | tracker/views.py:183-185 | the store stays consistent; exactly one goal is added under a fresh key, owned by the caller and active; nothing else changes |
| Actions.CreateGoalListed | tracker/views.py:183-185 | the new goal joins exactly its owner's goal list and active list; the owner's dashboard gains one active goal and one in total |
| Actions.CreateStage | tracker/views.py:205-207 | a missing goal id is an integrity error; otherwise exactly one active stage of that goal is added under a fresh key and nothing else changes |
| Actions.CreateStageListed | tracker/views.py:205-207 | the new stage joins exactly its goal's stage list |
| Actions.CreateHabit | tracker/views.py:316-318 | the store stays consistent; exactly one habit owned by the caller is added under a fresh key; nothing else changes |
| Actions.ToggleGoal | tracker/views.py:154-174 | 404 iff the key is missing; otherwise only the status field of that one goal changes, to the toggled value, and integrity is kept |
| Actions.ToggleStage | tracker/views.py:241-276 | 404 iff the key is missing; otherwise only the status field of that one stage changes, to the toggled value, and integrity is kept |
| Actions.ToggleGoalMovesBetweenLists | tracker/views.py:154-174 | a toggle keeps every user's goal list and total, and moves the goal from its old status list to its new one |
| Actions.ToggleGoalTwiceRestores | tracker/views.py:154-174 | two completed-toggles on a non-abandoned goal, or two abandoned-toggles on a non-completed one, give back the same store |
| Actions.PostCompletion | tracker/views.py:379-393 | 404 iff the habit is missing; an invalid status changes nothing; a valid one adds exactly one record (caller, habit, today, status) under a fresh key and nothing else |
| Actions.CompletionsAfterInsert | tracker/views.py:383-387 | one more record raises exactly the count of its own habit and outcome by one |
| Actions.PostCompletionStats | tracker/views.py:350-387 | a valid post raises the submitted outcome's count by one, lowers ignored days by one and keeps the day total |
| Actions.SameDayRepostOvercounts | tracker/views.py:383-387 | two "completed" posts on a new habit's first day give 1 day, 2 completed, −1 ignored and 200 % progress |
| Actions.CreateCommentary | tracker/views.py:406-449 | a text that is all whitespace (`IsBlank`) fails the required-field check; a missing target then raises DoesNotExist; otherwise one commentary by the caller holding the stripped text is added under a fresh key and nothing else changes |
| Actions.CommentaryOnExactlyOneTarget | tracker/views.py:406-449 | the new commentary is linked to exactly one goal or habit, the target, and shows up on that page only |
| Actions.DeleteGoal | tracker/models.py:37-41 | 404 iff missing; otherwise the goal and exactly its stages go, commentaries lose only the link to it, the rest is unchanged, and integrity is kept |
| Actions.DeleteHabit | tracker/views.py:321-324 | 404 iff missing; otherwise the habit and exactly its records go, commentaries lose only the link to it, the rest is unchanged, and integrity is kept |
| Actions.DeleteUser | tracker/models.py:10-86 | integrity is kept; nothing owned by the user remains; exactly the other users' goals and habits stay, unchanged; exactly the stages of surviving goals stay; other users' completion records on surviving habits stay unchanged; other users' commentaries stay, losing only their links to deleted goals and habits |

## Left out

- Request and response handling, redirects, templates, flash messages,
  pagination (5 per page) and the assembly of context dictionaries are framework
  plumbing.
- Authentication (`login_required`, `LoginRequiredMixin`) is not modelled. The
  requesting user is a parameter, and `user in s.users` stands for "logged in".
- Stats.Percent: the dashboard share is an exact real. Rounding to 1 decimal is
  display only.
- Stats.Progress: habit progress is an exact real. Rounding to 2 decimals is
  display only.
- The clock, time zones and `auto_now_add` timestamps are parameters.
- The `HabitDayCompletion` model is not part of the source. It is abstracted as
  (user, habit, date, outcome), with the two outcomes the detail view counts. Its
  rows are assumed to cascade with their habit and their user. No uniqueness
  constraint on (habit, complete_date) is assumed; with one, a second post for
  the same day would fail with an integrity error instead of adding a record.
- `completion_status_today` is reduced to "a record for today exists". The update
  form built from it is plumbing.
- The unused `Habit.completion_status` JSON field is dropped.
- The commentary listings of the detail pages are reduced to `CommentariesOf`.
- `GoalUpdateView`, `GoalStageUpdateView` and `HabitUpdateView` are not modelled.
  They edit all fields through Django's generic model forms.
- `GoalStageDeleteView` is not modelled. It deletes one row; no other row
  depends on a stage.
- Form validation is not modelled beyond two checks: the stripped, required
  commentary text and the choice of day status. Field lengths (255) and required names belong to
  Django's generated forms. `tracker/forms.py` is not part of this model.
- URL routing (`tracker/urls.py`) and the admin configuration are not part of
  this model.
- Stage ordering: where rows with a null deadline sort depends on the database
  engine. `GoalStages` takes this as the `nullsFirst` flag. Stages with equal keys
  come out in an arbitrary order.
- Unordered querysets (the status lists, the habit list, the goal search) are
  returned in an arbitrary order.
- Case-insensitive search folds ASCII letters only.
- Actions.CreateCommentary: the commentary forms are not part of the source; the
  model assumes a Django form `CharField` (strip, then required). Its check that
  refuses a text holding a null character is not modelled.
- The code has no owner check on toggles, and its completion post never updates
  an existing record for today. The model has neither.

## Findings

| source | as written | input that shows it | evidently intended | confidence | as-written member | corrected member |
|---|---|---|---|---|---|---|
| tracker/views.py:43-51 | the three shares divide by the user's goal total with no guard | a user who owns no goal, such as a newly registered account, opening the dashboard | shares of 0 when there are no goals, as the habit progress guard in the same file does | high; not executed | Stats.IndexAsWritten (shown by Stats.NewUserDashboardFaults) | Stats.Index |
