# Workout log calendar page — Dafny model

This project models the client-side core of a personal workout log. The
calendar page (`src/pages/Index.tsx`) keeps the session's workouts in memory.
Selecting a calendar day opens that day's workout read-only, or a new empty
draft in edit mode. Each edit of the open workout's exercise list builds a
new list and a new open workout from the old ones. The draft can copy the name and exercises of the latest earlier workout, and a
save commits the open workout into the session's list by identifier.

Files:

- `workouts.dfy` (module `Workouts`): the `Exercise` and `Workout` records,
  the editable fields of an exercise, and a predicate saying that no two
  entries of a list share a key (an identifier or a day).
- `store.dfy` (module `WorkoutStore`): the queries and updates over the
  workout list. These are lookup by day (`find`), the latest workout before a
  day (`filter`, a stable sort latest first, then the head), the save by
  identifier (`filter` then append), and the three most recent workouts.
- `exercise_list.dfy` (module `ExerciseList`): the exercise-list editor.
  It appends a blank exercise, sets one field of the exercises with an
  identifier, deletes by identifier, and copies exercises under new
  identifiers.
- `index_page.dfy` (module `IndexPage`): the page as a class `WorkoutPage`.
  Its fields are the React state `workouts`, `currentWorkout` (`current`),
  `selectedDate`, `isEditing` and `isWorkoutDialogOpen` (`dialogOpen`). There
  is one method per handler, each one atomic transition. Two client methods
  walk through a session: create, fill in, save, reopen, rename and save again.

Abstractions:

- A calendar day is an integer day number (`Day`). The `yyyy-MM-dd` key
  compares like it.
- Identifiers are opaque strings, passed in by the caller. This stands for
  `Date.now()` and `Math.random()`. Lemmas that need new identifiers say so in
  their `requires`. The handlers themselves do not demand it, just as the
  source does not.
- Weight is a `real`. Sets and repetitions are `int`, because `parseInt` can
  yield negative numbers.

Behaviour of the page worth knowing:

- The cancel button (lines 411-416) leaves edit mode. It closes the dialog
  only when the open workout has no stored entry with its identifier. It does
  not discard the edits made to the open workout: `current` keeps them and the
  dialog keeps showing them. The stored entry is untouched.
- `find` returns the first stored entry with the day, not the last written.
  The save appends the saved workout at the end. So when two entries share a
  day, the lookup returns the older one (`WorkoutStore.UpsertKeepsSharedDay`).
- The save matches by identifier only, so on its own it lets two workouts
  share a day. The page's handlers never create that situation from the
  initial empty list. `WorkoutPage.Valid` holds one workout per identifier
  and one per day, and every handler preserves it. The day of a new draft has
  no stored workout, and a draft keeps its day until it is saved.
- `selectedDate` starts as today and is only ever set to a defined day. The
  `!selectedDate` guard of `copyPreviousWorkout` therefore never fires, and
  the model keeps `selectedDate` as a plain `Day`.
- `Array.prototype.sort` is stable (since ECMAScript 2019), so after the
  sort latest first the workouts on one day keep their stored order. The previous workout before a day is therefore the first stored of
  the workouts on its day, the same one the lookup by day finds
  (`WorkoutStore.PreviousBefore`).
- Opening a workout from the recent list does not change `selectedDate`.
  A later copy still looks for workouts before the previously selected day
  (`WorkoutPage.OpenRecent`).

## Model

| member | source | states |
|---|---|---|
| `Workouts.Get` | src/pages/Index.tsx:14-21 | reading a field gives a value of the type the `Exercise` interface declares for it |
| `Workouts.Set` | src/pages/Index.tsx:108 | `{ ...ex, [field]: value }` keeps the identifier, gives the field the new value and leaves every other field as it was |
| `WorkoutStore.FindByDate` | src/pages/Index.tsx:40-43 | the lookup finds nothing exactly when no stored workout has the day; a found workout is stored and has the day |
| `WorkoutStore.FindByDateIsFirst` | src/pages/Index.tsx:40-43 | the lookup returns the first stored workout with the day |
| `WorkoutStore.FindByDateHeadsDay` | src/pages/Index.tsx:40-43 | the lookup by a day returns the first of the stored workouts on that day, and nothing when there is none |
| `WorkoutStore.FindByDateInUniqueStore` | src/pages/Index.tsx:40-43 | in a list with one workout per day, looking up a stored workout's day returns that workout |
| `WorkoutStore.DatedBefore` | src/pages/Index.tsx:47 | the filter keeps exactly the stored workouts dated before the day |
| `WorkoutStore.InsertByDate` | src/pages/Index.tsx:48 | inserting into a list sorted latest first keeps it sorted and adds exactly the one entry |
| `WorkoutStore.SortByDateDesc` | src/pages/Index.tsx:48 | the sort by `b.date - a.date` orders latest first and is a permutation of its input |
| `WorkoutStore.InsertKeepsDayOrder` | src/pages/Index.tsx:48 | insertion keeps the workouts of every day in their order, the inserted one going in front of the others on its day |
| `WorkoutStore.SortKeepsDayOrder` | src/pages/Index.tsx:48 | the sort is stable: the workouts of every day keep their stored order |
| `WorkoutStore.BeforeKeepsDayOrder` | src/pages/Index.tsx:47 | the filter by an earlier day keeps every earlier day's workouts, in stored order |
| `WorkoutStore.PreviousBefore` | src/pages/Index.tsx:45-50 | there is no previous workout exactly when nothing is stored before the day; otherwise it is a stored workout before the day, dated no earlier than any other stored workout before the day, and the first stored of the workouts on its day, as the lookup by that day finds |
| `WorkoutStore.RemoveId` | src/pages/Index.tsx:78 | the filter keeps exactly the stored workouts with another identifier |
| `WorkoutStore.HasId` | src/pages/Index.tsx:413 | the lookup by identifier finds something exactly when some stored workout carries the identifier, which is exactly when the save's filter would drop an entry |
| `WorkoutStore.RemoveIdAppend` | src/pages/Index.tsx:78 | the filter works entry by entry over concatenation, so the kept entries keep their relative order |
| `WorkoutStore.RemoveAbsentId` | src/pages/Index.tsx:78 | filtering out an identifier nobody carries leaves the list unchanged |
| `WorkoutStore.RemoveIdKeepsUnique` | src/pages/Index.tsx:78 | the filter keeps any key unique that was unique before |
| `WorkoutStore.Upsert` | src/pages/Index.tsx:75-82 | after a save the saved workout is last, no other entry carries its identifier, every entry with another identifier is still there, and nothing new besides the saved workout appears |
| `WorkoutStore.UpsertTwice` | src/pages/Index.tsx:78-79 | two saves under one identifier leave what the second save alone leaves: one record, with the later contents |
| `WorkoutStore.UpsertThenFindByDate` | src/pages/Index.tsx:75-82 | after saving a workout whose day no entry with another identifier has, the lookup by that day returns exactly the saved workout |
| `WorkoutStore.UpsertKeepsUnique` | src/pages/Index.tsx:78-79 | a save keeps identifiers unique; when no entry with another identifier is on the saved workout's day, it also keeps days unique and leaves no such entry |
| `WorkoutStore.UpsertKeepsSharedDay` | src/pages/Index.tsx:78-79 | the save matches by identifier only: two workouts with different identifiers on one day are both kept, and the lookup by that day returns the older one |
| `WorkoutStore.UpsertBehindSharedDay` | src/pages/Index.tsx:78-79 | saving a workout on a day where a workout with another identifier is stored leaves the lookup by that day finding a previously stored workout with another identifier, never the saved one |
| `WorkoutStore.UpsertSameIdOtherDay` | src/pages/Index.tsx:78-79 | a workout saved under the identifier of a stored workout on another day replaces it, leaving that day empty |
| `WorkoutStore.InsertKeepsUnique` | src/pages/Index.tsx:201 | inserting an entry with a new key into a sorted list keeps keys unique |
| `WorkoutStore.SortKeepsUnique` | src/pages/Index.tsx:201 | sorting keeps the same entries and keeps keys unique |
| `WorkoutStore.Recent` | src/pages/Index.tsx:200-202 | the recent list has three entries (all when fewer are stored), sorted latest first, all stored, and no stored workout left out is later than one shown |
| `WorkoutStore.RecentKeepsDayOrder` | src/pages/Index.tsx:200-202 | of the workouts on one day, the recent list shows the first stored ones, in stored order |
| `WorkoutStore.SortOfThreeDays` | src/pages/Index.tsx:48 | workouts on days 1, 5 and 3 are sorted as 5, 3, 1 |
| `WorkoutStore.RecentOfThreeDays` | src/pages/Index.tsx:200-202 | workouts on days 1, 5 and 3 are listed as 5, 3, 1 |
| `ExerciseList.AddExercise` | src/pages/Index.tsx:84-100 | appending keeps the earlier exercises and adds one last exercise with the given identifier, empty name and notes, and zero sets, repetitions and weight |
| `ExerciseList.UpdateExercise` | src/pages/Index.tsx:102-111 | the list keeps its length, order and identifiers; exercises with another identifier are unchanged; those with the identifier get the value in that field and keep every other field |
| `ExerciseList.UpdateTwice` | src/pages/Index.tsx:102-111 | of two updates of one field of one exercise, the later wins |
| `ExerciseList.DeleteExercise` | src/pages/Index.tsx:129-136 | deletion keeps exactly the exercises with another identifier |
| `ExerciseList.DeleteAppend` | src/pages/Index.tsx:134 | deletion works exercise by exercise over concatenation, so the remaining exercises keep their order |
| `ExerciseList.DeleteAbsent` | src/pages/Index.tsx:134 | deleting an identifier no exercise carries leaves the list unchanged |
| `ExerciseList.AddThenDelete` | src/pages/Index.tsx:84-136 | adding an exercise under a new identifier and then deleting that identifier restores the list |
| `ExerciseList.CopyExercises` | src/pages/Index.tsx:122-125 | the copy has the source's length; the i-th copy has the i-th new identifier and every other field of the i-th source exercise |
| `ExerciseList.CopyIdsAreFresh` | src/pages/Index.tsx:122-125 | with new identifiers not used by the source, the copies share no identifier with the source, and distinct new identifiers give distinct copies |
| `ExerciseList.EditsKeepIdsUnique` | src/pages/Index.tsx:84-136 | appending under a new identifier, updating and deleting keep exercise identifiers unique within the workout |
| `ExerciseList.DeleteKeepsIdsUnique` | src/pages/Index.tsx:134 | deletion keeps exercise identifiers unique |
| `IndexPage.WorkoutPage.constructor` | src/pages/Index.tsx:31-36 | the page starts with today selected, no workouts, nothing open and not editing |
| `IndexPage.WorkoutPage.HandleDateSelect` | src/pages/Index.tsx:52-73 | an undefined day changes nothing; otherwise the day is selected, the dialog opens, and the open workout is the stored one for the day (read-only) or the draft `{new id, 'Новая тренировка', day, []}` (editing); the store is unchanged |
| `IndexPage.WorkoutPage.SaveWorkout` | src/pages/Index.tsx:75-82 | with an open workout, the store becomes the save of it and the dialog and edit mode close; without one nothing changes; one workout per identifier and per day is kept |
| `IndexPage.WorkoutPage.AddExercise` | src/pages/Index.tsx:84-100 | the open workout gets the blank exercise appended and nothing else changes; no-op without an open workout |
| `IndexPage.WorkoutPage.UpdateExercise` | src/pages/Index.tsx:102-111 | the open workout's exercise list is updated and its identifier, name and day are untouched; no-op without an open workout |
| `IndexPage.WorkoutPage.DeleteExercise` | src/pages/Index.tsx:129-136 | the open workout's exercises with the identifier are removed and nothing else changes; no-op without an open workout |
| `IndexPage.WorkoutPage.CopyPreviousWorkout` | src/pages/Index.tsx:113-127 | with an open workout and a previous workout before the selected day, the open workout takes its name and a copy of its exercises under the new identifiers, keeping its own identifier and day; otherwise nothing changes; the store is never touched |
| `IndexPage.WorkoutPage.Cancel` | src/pages/Index.tsx:411-416 | leaves edit mode and closes the dialog exactly when the open workout's identifier is not stored; the open workout keeps its edits |
| `IndexPage.WorkoutPage.StartEditing` | src/pages/Index.tsx:268-276 | the edit button of the open dialog enters edit mode |
| `IndexPage.WorkoutPage.RenameWorkout` | src/pages/Index.tsx:285-291 | the name field renames the open workout and changes nothing else |
| `IndexPage.WorkoutPage.CloseDialog` | src/pages/Index.tsx:261 | dismissing the dialog closes it and leaves edit mode as it was |
| `IndexPage.WorkoutPage.ShowRecent` | src/pages/Index.tsx:200-202 | the store itself is reordered by the sort latest first, and the card shows the recent list of the store as it was |
| `IndexPage.WorkoutPage.OpenRecent` | src/pages/Index.tsx:207-211 | clicking a recent entry opens it read-only, with the selected day unchanged |

## Left out

- `backend/workouts/index.py` (HTTP event dispatch and PostgreSQL calls), `src/utils/apiService.ts` (HTTP client) and `src/utils/vkUtils.ts` (identity bridge) are not part of this model. They are I/O and foreign calls, and the page never calls them.
- Rendering, tabs (`activeTab`), the calendar's highlighting and the dialog layout are not modelled. The calendar's `hasWorkout` highlight (line 180) is `FindByDate(...).Some?`.
- Date formatting and parsing with date-fns, and the time-zone effects of comparing `new Date(w.date)` with the picked `Date` (lines 38, 47-48), are not modelled. A day is an integer.
- Parsing numeric input (`parseInt(...) || 0` at lines 356 and 366, `parseFloat(...) || 0` at line 376) is not modelled. The handlers receive the already-coerced number, and weight is a `real`, not a floating-point number.
- Identifier generation with `Date.now()` and `Math.random()` (lines 63, 88, 124) is not modelled. Identifiers are parameters, and nothing guarantees they are new. `WorkoutStore.UpsertSameIdOtherDay` shows what a collision does on save.
- `updateExercise` with the field `id` (allowed by `keyof Exercise`) is not modelled. No caller uses it.
- UI guards are not modelled: the copy button shows only when editing and a previous workout exists, and the add and delete buttons show only when editing. The handlers are modelled as written, with only their own guards.
- Two handlers require an open workout, and one requires an open dialog. `Cancel` and `RenameWorkout` need an open workout: their controls are rendered only inside `currentWorkout && …`, and the cancel handler dereferences it. `StartEditing` needs the open dialog, because its button is rendered inside the dialog.
- The recent card renders (and sorts) only when the store is non-empty. Sorting an empty list changes nothing, so `ShowRecent` has no such guard.
- React's asynchronous state batching is not modelled. Each handler is one atomic transition.
