/** The calendar page's state and its handlers. The page holds the session's
    workouts, the workout open in the dialog, the selected day, and whether the
    dialog is open and in edit mode; each handler is one atomic transition. */
module IndexPage {
  import opened Workouts
  import opened WorkoutStore
  import ExerciseList

  /** The name a new draft gets. */
  const DraftName: string := "Новая тренировка"

  class WorkoutPage {
    var workouts: seq<Workout>
    var current: Option<Workout>
    var selectedDate: Day
    var isEditing: bool
    var dialogOpen: bool

    /** The handlers keep one workout per identifier and one per day in the
        store, and the open workout never shares its day with another stored
        workout; the dialog and edit mode always have a workout to show. */
    ghost predicate Valid()
      reads this
    {
      && KeysUnique(workouts, IdOf)
      && KeysUnique(workouts, DateOf)
      && (current.Some? ==> NoOtherOnDay(workouts, current.value))
      && (isEditing || dialogOpen ==> current.Some?)
    }

    /** The page as first shown: today selected, nothing stored, nothing open. */
    constructor (today: Day)
      ensures Valid()
      ensures workouts == [] && current == None && selectedDate == today
      ensures !isEditing && !dialogOpen
    {
      workouts := [];
      current := None;
      selectedDate := today;
      isEditing := false;
      dialogOpen := false;
    }

    /** `handleDateSelect`: selecting a day opens its stored workout read-only,
        or a new empty draft with the identifier `draftId` in edit mode.
        Clearing the selection does nothing. */
    method HandleDateSelect(date: Option<Day>, draftId: Id)
      requires Valid()
      modifies this
      ensures Valid()
      ensures date.None? ==> unchanged(this)
      ensures date.Some? ==>
        && workouts == old(workouts)
        && selectedDate == date.value
        && dialogOpen
        && match FindByDate(old(workouts), date.value)
           case Some(w) => current == Some(w) && !isEditing
           case None => current == Some(Workout(draftId, DraftName, date.value, [])) && isEditing
    {
      if date.None? {
        return;
      }
      var d := date.value;
      selectedDate := d;
      var found := FindByDate(workouts, d);
      if found.Some? {
        forall v | v in workouts && v.date == found.value.date ensures v.id == found.value.id {
          UniqueKeyIdentifies(workouts, DateOf, v, found.value);
        }
        current := found;
        isEditing := false;
      } else {
        current := Some(Workout(draftId, DraftName, d, []));
        isEditing := true;
      }
      dialogOpen := true;
    }

    /** `saveWorkout`: commits the open workout into the store, replacing any
        entry with its identifier, and closes the dialog. Without an open
        workout nothing happens. */
    method SaveWorkout()
      requires Valid()
      modifies this
      ensures Valid()
      ensures old(current).None? ==> unchanged(this)
      ensures old(current).Some? ==>
        && workouts == Upsert(old(workouts), old(current).value)
        && current == old(current) && selectedDate == old(selectedDate)
        && !dialogOpen && !isEditing
    {
      if current.None? {
        return;
      }
      UpsertKeepsUnique(workouts, current.value);
      workouts := Upsert(workouts, current.value);
      dialogOpen := false;
      isEditing := false;
    }

    /** `addExercise`: appends a blank exercise with identifier `exerciseId`
        to the open workout. */
    method AddExercise(exerciseId: Id)
      requires Valid()
      modifies this`current
      ensures Valid()
      ensures old(current).None? ==> current == old(current)
      ensures old(current).Some? ==>
        var w := old(current).value;
        current == Some(w.(exercises := ExerciseList.AddExercise(w.exercises, exerciseId)))
    {
      if current.None? {
        return;
      }
      var w := current.value;
      current := Some(w.(exercises := ExerciseList.AddExercise(w.exercises, exerciseId)));
    }

    /** `updateExercise`: sets field `f` of the open workout's exercises
        carrying `exerciseId` to `v`. */
    method UpdateExercise(exerciseId: Id, f: Field, v: Value)
      requires Valid() && Fits(f, v)
      modifies this`current
      ensures Valid()
      ensures old(current).None? ==> current == old(current)
      ensures old(current).Some? ==>
        var w := old(current).value;
        current == Some(w.(exercises := ExerciseList.UpdateExercise(w.exercises, exerciseId, f, v)))
    {
      if current.None? {
        return;
      }
      var w := current.value;
      current := Some(w.(exercises := ExerciseList.UpdateExercise(w.exercises, exerciseId, f, v)));
    }

    /** `deleteExercise`: removes the open workout's exercises carrying `exerciseId`. */
    method DeleteExercise(exerciseId: Id)
      requires Valid()
      modifies this`current
      ensures Valid()
      ensures old(current).None? ==> current == old(current)
      ensures old(current).Some? ==>
        var w := old(current).value;
        current == Some(w.(exercises := ExerciseList.DeleteExercise(w.exercises, exerciseId)))
    {
      if current.None? {
        return;
      }
      var w := current.value;
      current := Some(w.(exercises := ExerciseList.DeleteExercise(w.exercises, exerciseId)));
    }

    /** `copyPreviousWorkout`: gives the open workout the name and exercises of
        the latest stored workout before the selected day, the i-th copied
        exercise getting identifier `newId(i)`; the open workout keeps its own
        identifier and day, and the store is untouched. Without an open
        workout or an earlier stored workout nothing happens. */
    method CopyPreviousWorkout(newId: nat -> Id)
      requires Valid()
      modifies this`current
      ensures Valid()
      ensures old(current).None? ==> current == old(current)
      ensures old(current).Some? ==>
        var w := old(current).value;
        match PreviousBefore(workouts, selectedDate)
        case None => current == old(current)
        case Some(p) => current == Some(w.(name := p.name, exercises := ExerciseList.CopyExercises(p.exercises, newId)))
    {
      if current.None? {
        return;
      }
      var previous := PreviousBefore(workouts, selectedDate);
      if previous.None? {
        return;
      }
      var w := current.value;
      var p := previous.value;
      current := Some(w.(name := p.name, exercises := ExerciseList.CopyExercises(p.exercises, newId)));
    }

    /** The cancel button: leaves edit mode, and closes the dialog only when the
        open workout was never saved. The open workout keeps its edits. */
    method Cancel()
      requires Valid() && current.Some?
      modifies this`isEditing, this`dialogOpen
      ensures Valid()
      ensures !isEditing
      ensures dialogOpen == (old(dialogOpen) && HasId(workouts, current.value.id))
    {
      isEditing := false;
      if !HasId(workouts, current.value.id) {
        dialogOpen := false;
      }
    }

    /** The edit button of the open dialog: enters edit mode. */
    method StartEditing()
      requires Valid() && dialogOpen
      modifies this`isEditing
      ensures Valid() && isEditing
    {
      isEditing := true;
    }

    /** The name field of the open dialog: renames the open workout. */
    method RenameWorkout(name: string)
      requires Valid() && current.Some?
      modifies this`current
      ensures Valid()
      ensures current == Some(old(current).value.(name := name))
    {
      current := Some(current.value.(name := name));
    }

    /** Dismissing the dialog closes it and leaves edit mode as it was. */
    method CloseDialog()
      requires Valid()
      modifies this`dialogOpen
      ensures Valid() && !dialogOpen
    {
      dialogOpen := false;
    }

    /** The "recent workouts" card: sorts the store itself latest first and
        shows its first three entries. */
    method ShowRecent() returns (recent: seq<Workout>)
      requires Valid()
      modifies this`workouts
      ensures Valid()
      ensures workouts == SortByDateDesc(old(workouts))
      ensures recent == Recent(old(workouts))
    {
      SortKeepsUnique(workouts, IdOf);
      SortKeepsUnique(workouts, DateOf);
      recent := Recent(workouts);
      workouts := SortByDateDesc(workouts);
    }

    /** Clicking an entry of the recent card opens it read-only; the selected
        day stays what it was. */
    method OpenRecent(w: Workout)
      requires Valid() && w in workouts
      modifies this`current, this`isEditing, this`dialogOpen
      ensures Valid()
      ensures current == Some(w) && !isEditing && dialogOpen
    {
      forall v | v in workouts && v.date == w.date ensures v.id == w.id {
        UniqueKeyIdentifies(workouts, DateOf, v, w);
      }
      current := Some(w);
      isEditing := false;
      dialogOpen := true;
    }
  }

  /** A session from an empty store: select a day, add an exercise, fill in its
      sets, repetitions and weight, and save; the day then shows that workout. */
  method NewWorkoutSession(today: Day, day: Day) returns (page: WorkoutPage)
  {
    page := new WorkoutPage(today);
    page.HandleDateSelect(Some(day), "draft");
    assert page.current == Some(Workout("draft", DraftName, day, [])) && page.isEditing;
    page.AddExercise("bench");
    var blank := Exercise("bench", "", 0, 0, 0.0, "");
    assert page.current.value.exercises == [blank];
    page.UpdateExercise("bench", Sets, Count(3));
    assert ExerciseList.UpdateExercise([blank], "bench", Sets, Count(3)) == [blank.(sets := 3)];
    page.UpdateExercise("bench", Reps, Count(10));
    assert ExerciseList.UpdateExercise([blank.(sets := 3)], "bench", Reps, Count(10)) == [blank.(sets := 3, reps := 10)];
    page.UpdateExercise("bench", Weight, Amount(20.5));
    var filled := Exercise("bench", "", 3, 10, 20.5, "");
    assert ExerciseList.UpdateExercise([blank.(sets := 3, reps := 10)], "bench", Weight, Amount(20.5)) == [filled];
    var saved := Workout("draft", DraftName, day, [filled]);
    assert page.current == Some(saved);
    page.SaveWorkout();
    assert page.workouts == [saved];
    assert FindByDate(page.workouts, day) == Some(saved);
  }

  /** Reopening a saved day, renaming and saving again keeps a single record,
      with the new name. */
  method RenameSavedWorkout(page: WorkoutPage, saved: Workout)
    requires page.Valid() && page.workouts == [saved]
    modifies page
  {
    page.HandleDateSelect(Some(saved.date), "unused");
    assert page.current == Some(saved) && !page.isEditing;
    page.StartEditing();
    page.RenameWorkout("Legs");
    assert RemoveId([saved], saved.id) == [];
    page.SaveWorkout();
    assert page.workouts == [saved.(name := "Legs")];
  }
}
