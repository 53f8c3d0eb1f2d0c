/** The list views' querysets: every list keeps only the requesting user's rows; the
    general goal and habit lists may add a case-insensitive name search, and the
    status lists an exact status. The goal detail view lists a goal's stages in the
    stage ordering. */
module Queries {
  import opened Wrappers
  import opened Status
  import opened Text
  import opened Ordering
  import opened Models

  /** `if name:` — a search is applied only for a present, non-empty `name`. */
  predicate NameFilterApplies(name: Option<string>)
  {
    name.Some? && |name.value| > 0
  }

  /** The name condition of a general list for one row. */
  predicate NameMatches(rowName: string, name: Option<string>)
  {
    !NameFilterApplies(name) || ContainsIgnoringCase(rowName, name.value)
  }

  function OwnedGoals(s: Store, user: UserId): set<Id>
  {
    set id | id in s.goals.rows && s.goals.rows[id].user == user
  }

  function MatchingGoals(s: Store, user: UserId, name: Option<string>): set<Id>
  {
    set id | id in s.goals.rows && s.goals.rows[id].user == user && NameMatches(s.goals.rows[id].name, name)
  }

  function GoalsWithStatus(s: Store, user: UserId, status: GoalStatus): set<Id>
  {
    set id | id in s.goals.rows && s.goals.rows[id].user == user && s.goals.rows[id].status == status
  }

  function OwnedHabits(s: Store, user: UserId): set<Id>
  {
    set id | id in s.habits.rows && s.habits.rows[id].user == user
  }

  function MatchingHabits(s: Store, user: UserId, name: Option<string>): set<Id>
  {
    set id | id in s.habits.rows && s.habits.rows[id].user == user && NameMatches(s.habits.rows[id].name, name)
  }

  function StagesOf(s: Store, goal: Id): set<Id>
  {
    set id | id in s.stages.rows && s.stages.rows[id].goal == goal
  }

  predicate Distinct(ids: seq<Id>)
  {
    forall i, j :: 0 <= i < j < |ids| ==> ids[i] != ids[j]
  }

  /** A sequence holding every element of a set exactly once has no repeats. */
  lemma MultisetOfSetDistinct(ids: seq<Id>, rows: set<Id>)
    requires multiset(ids) == multiset(rows)
    ensures Distinct(ids)
    ensures forall id :: id in ids <==> id in rows
  {
    forall id
      ensures id in ids <==> id in rows
    {
      assert id in ids <==> id in multiset(ids);
    }
    forall i, j | 0 <= i < j < |ids|
      ensures ids[i] != ids[j]
    {
      var x := ids[j];
      assert ids == ids[..j] + [x] + ids[j + 1..];
      assert multiset(ids)[x] == multiset(ids[..j])[x] + 1 + multiset(ids[j + 1..])[x];
      assert multiset(rows)[x] <= 1;
      assert x !in ids[..j];
      assert ids[i] in ids[..j];
    }
  }

  /** The rows of an unordered queryset, in the order the database happens to yield
      them. */
  method Enumerate(rows: set<Id>) returns (ids: seq<Id>)
    ensures multiset(ids) == multiset(rows)
    ensures Distinct(ids)
  {
    ids := [];
    var rest := rows;
    while rest != {}
      invariant rest <= rows
      invariant multiset(ids) + multiset(rest) == multiset(rows)
      decreases |rest|
    {
      var id :| id in rest;
      assert multiset(rest) == multiset(rest - {id}) + multiset{id};
      ids := ids + [id];
      rest := rest - {id};
    }
    MultisetOfSetDistinct(ids, rows);
  }

  /** Sorts goal ids by creation time (the `ordering = ["created_at"]` of the list). */
  method SortByCreation(s: Store, rows: set<Id>, ids: seq<Id>) returns (sorted: seq<Id>)
    requires rows <= s.goals.rows.Keys
    requires multiset(ids) == multiset(rows)
    ensures multiset(sorted) == multiset(rows)
    ensures forall i, j :: 0 <= i < j < |sorted| ==>
      sorted[i] in s.goals.rows && sorted[j] in s.goals.rows
      && s.goals.rows[sorted[i]].createdAt <= s.goals.rows[sorted[j]].createdAt
  {
    var key := map id | id in rows :: [s.goals.rows[id].createdAt];
    forall i | 0 <= i < |ids|
      ensures ids[i] in key && |key[ids[i]]| == 1
    {
      assert ids[i] in multiset(ids);
    }
    sorted := Sort(ids, key, 1);
    forall i, j | 0 <= i < j < |sorted|
      ensures s.goals.rows[sorted[i]].createdAt <= s.goals.rows[sorted[j]].createdAt
    {
      var a, b := key[sorted[i]], key[sorted[j]];
      assert LexLeq(a, b);
      assert a[1..] == [] && b[1..] == [];
    }
  }

  /** `GoalListView.get_queryset`: the user's goals, restricted to names containing
      the search text when one is given. Only the unfiltered branch keeps the view's
      creation-time ordering; the search branch filters the class-level queryset,
      which has none. */
  method GoalList(s: Store, user: UserId, name: Option<string>) returns (ids: seq<Id>)
    ensures Distinct(ids)
    ensures forall id :: id in ids <==>
      id in s.goals.rows && s.goals.rows[id].user == user
      && (NameFilterApplies(name) ==> ContainsIgnoringCase(s.goals.rows[id].name, name.value))
    ensures !NameFilterApplies(name) ==> forall i, j :: 0 <= i < j < |ids| ==>
      ids[i] in s.goals.rows && ids[j] in s.goals.rows
      && s.goals.rows[ids[i]].createdAt <= s.goals.rows[ids[j]].createdAt
  {
    var rows := MatchingGoals(s, user, name);
    ids := Enumerate(rows);
    if !NameFilterApplies(name) {
      ids := SortByCreation(s, rows, ids);
    }
    MultisetOfSetDistinct(ids, rows);
  }

  /** `GoalActiveListView`, `GoalCompletedListView` and `GoalAbandonedListView`:
      exactly the user's goals with the given status, in no particular order. */
  method GoalStatusList(s: Store, user: UserId, status: GoalStatus) returns (ids: seq<Id>)
    ensures Distinct(ids)
    ensures forall id :: id in ids <==>
      id in s.goals.rows && s.goals.rows[id].user == user && s.goals.rows[id].status == status
  {
    var rows := GoalsWithStatus(s, user, status);
    ids := Enumerate(rows);
    MultisetOfSetDistinct(ids, rows);
  }

  /** `HabitListView.get_queryset`: the user's habits, restricted to names containing
      the search text when one is given; the view sets no ordering. */
  method HabitList(s: Store, user: UserId, name: Option<string>) returns (ids: seq<Id>)
    ensures Distinct(ids)
    ensures forall id :: id in ids <==>
      id in s.habits.rows && s.habits.rows[id].user == user
      && (NameFilterApplies(name) ==> ContainsIgnoringCase(s.habits.rows[id].name, name.value))
  {
    var rows := MatchingHabits(s, user, name);
    ids := Enumerate(rows);
    MultisetOfSetDistinct(ids, rows);
  }

  /** `goal.stages.all()` in the goal detail view: the goal's stages in the
      `GoalStage.Meta.ordering`. */
  method GoalStages(s: Store, goal: Id, nullsFirst: bool) returns (ids: seq<Id>)
    ensures Distinct(ids)
    ensures forall id :: id in ids <==> id in s.stages.rows && s.stages.rows[id].goal == goal
    ensures forall i, j :: 0 <= i < j < |ids| ==>
      ids[i] in s.stages.rows && ids[j] in s.stages.rows
      && StageLeq(s.stages.rows[ids[i]], s.stages.rows[ids[j]], nullsFirst)
  {
    var rows := StagesOf(s, goal);
    var unsorted := Enumerate(rows);
    var key := map id | id in rows :: StageKey(s.stages.rows[id], nullsFirst);
    forall i | 0 <= i < |unsorted|
      ensures unsorted[i] in key && |key[unsorted[i]]| == 3
    {
      assert unsorted[i] in multiset(unsorted);
    }
    ids := Sort(unsorted, key, 3);
    MultisetOfSetDistinct(ids, rows);
    SortedByStageKey(s, ids, key, nullsFirst);
  }

  /** Ids sorted by their stage keys are in `StageLeq` order. */
  lemma SortedByStageKey(s: Store, ids: seq<Id>, key: map<Id, seq<int>>, nullsFirst: bool)
    requires forall id :: id in ids ==> id in s.stages.rows
    requires forall id :: id in ids ==> id in key && key[id] == StageKey(s.stages.rows[id], nullsFirst)
    requires Sorted(ids, key)
    ensures forall i, j :: 0 <= i < j < |ids| ==>
      ids[i] in s.stages.rows && ids[j] in s.stages.rows
      && StageLeq(s.stages.rows[ids[i]], s.stages.rows[ids[j]], nullsFirst)
  {
    forall i, j | 0 <= i < j < |ids|
      ensures StageLeq(s.stages.rows[ids[i]], s.stages.rows[ids[j]], nullsFirst)
    {
      var a, b := ids[i], ids[j];
      assert a in ids && b in ids;
      assert LexLeq(key[a], key[b]);
      StageKeyOrder(s.stages.rows[a], s.stages.rows[b], nullsFirst);
    }
  }

  // ---------------------------------------------------------------------------
  // Relations between the lists

  /** The three status lists split the user's goals: they are pairwise disjoint and
      together hold every goal the user owns. */
  lemma StatusListsPartition(s: Store, user: UserId)
    ensures GoalsWithStatus(s, user, Active) + GoalsWithStatus(s, user, Completed)
            + GoalsWithStatus(s, user, Abandoned) == OwnedGoals(s, user)
    ensures GoalsWithStatus(s, user, Active) !! GoalsWithStatus(s, user, Completed)
    ensures GoalsWithStatus(s, user, Active) !! GoalsWithStatus(s, user, Abandoned)
    ensures GoalsWithStatus(s, user, Completed) !! GoalsWithStatus(s, user, Abandoned)
  {
  }

  /** A search only narrows the list, and no search (absent or empty text) is the
      plain list of the user's rows. */
  lemma SearchNarrowsList(s: Store, user: UserId, name: Option<string>)
    ensures MatchingGoals(s, user, name) <= OwnedGoals(s, user)
    ensures MatchingHabits(s, user, name) <= OwnedHabits(s, user)
    ensures !NameFilterApplies(name) ==> MatchingGoals(s, user, name) == OwnedGoals(s, user)
    ensures !NameFilterApplies(name) ==> MatchingHabits(s, user, name) == OwnedHabits(s, user)
  {
  }

  /** Searching for a goal's exact name, in any case, finds it among its owner's
      goals; and every goal found by a search displays (via `__str__`) a name that
      contains the search text. */
  lemma {:induction false} SearchFindsDisplayedName(s: Store, id: Id, name: Option<string>)
    requires id in s.goals.rows
    ensures name == Some(s.goals.rows[id].name) ==> id in MatchingGoals(s, s.goals.rows[id].user, name)
    ensures id in MatchingGoals(s, s.goals.rows[id].user, name) && NameFilterApplies(name) ==>
      ContainsIgnoringCase(s.goals.rows[id].ToString(), name.value)
  {
    NameMatchesItself(s.goals.rows[id].name);
  }

  /** Two different users' lists never share a row. */
  lemma ListsOfDifferentUsersDisjoint(s: Store, u1: UserId, u2: UserId, n1: Option<string>, n2: Option<string>)
    requires u1 != u2
    ensures MatchingGoals(s, u1, n1) !! MatchingGoals(s, u2, n2)
    ensures MatchingHabits(s, u1, n1) !! MatchingHabits(s, u2, n2)
  {
  }
}
