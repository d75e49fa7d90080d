/** The exercise-list editor of the open workout: append a blank exercise,
    change one field of an exercise, delete an exercise, and copy another
    workout's exercises under new identifiers. Each builds a new list. */
module ExerciseList {
  import opened Workouts

  function Ids(es: seq<Exercise>): set<Id> {
    set e | e in es :: e.id
  }

  /** `addExercise`: appends an exercise with the given identifier, an empty
      name and notes, and zero sets, repetitions and weight. */
  function AddExercise(es: seq<Exercise>, id: Id): (r: seq<Exercise>)
    ensures |r| == |es| + 1 && r[..|es|] == es
    ensures r[|es|].id == id
    ensures forall f :: Get(r[|es|], f) == (if f == Name || f == Notes then Text("") else if f == Weight then Amount(0.0) else Count(0))
  {
    es + [Exercise(id, "", 0, 0, 0.0, "")]
  }

  /** `updateExercise`: every exercise carrying `id` gets `v` in field `f`;
      nothing else changes, and the list keeps its length and order. */
  function UpdateExercise(es: seq<Exercise>, id: Id, f: Field, v: Value): (r: seq<Exercise>)
    requires Fits(f, v)
    ensures |r| == |es|
    ensures forall i :: 0 <= i < |es| ==> r[i].id == es[i].id
    ensures forall i :: 0 <= i < |es| && es[i].id != id ==> r[i] == es[i]
    ensures forall i :: 0 <= i < |es| && es[i].id == id ==>
              Get(r[i], f) == v && forall g :: g != f ==> Get(r[i], g) == Get(es[i], g)
  {
    if es == [] then []
    else
      var head := if es[0].id == id then Set(es[0], f, v) else es[0];
      var r := [head] + UpdateExercise(es[1..], id, f, v);
      assert forall i :: 1 <= i < |es| ==> es[i] == es[1..][i - 1];
      r
  }

  /** Of two updates of one field of one exercise, the later one wins. */
  lemma {:induction false} UpdateTwice(es: seq<Exercise>, id: Id, f: Field, v: Value, w: Value)
    requires Fits(f, v) && Fits(f, w)
    ensures UpdateExercise(UpdateExercise(es, id, f, v), id, f, w) == UpdateExercise(es, id, f, w)
  {
    if es != [] {
      UpdateTwice(es[1..], id, f, v, w);
      var e := es[0];
      if e.id == id {
        var once := Set(Set(e, f, v), f, w);
        assert once == Set(e, f, w) by {
          assert forall g :: Get(once, g) == Get(Set(e, f, w), g);
          SameFieldsIffEqualUpToId(once, Set(e, f, w));
        }
      }
    }
  }

  /** `deleteExercise`: the exercises not carrying `id`, in their order. */
  function DeleteExercise(es: seq<Exercise>, id: Id): (r: seq<Exercise>)
    ensures forall e :: e in r <==> e in es && e.id != id
    ensures |r| <= |es|
  {
    if es == [] then []
    else if es[0].id == id then DeleteExercise(es[1..], id)
    else [es[0]] + DeleteExercise(es[1..], id)
  }

  /** Deletion works exercise by exercise, keeping the order of the rest. */
  lemma {:induction false} DeleteAppend(a: seq<Exercise>, b: seq<Exercise>, id: Id)
    ensures DeleteExercise(a + b, id) == DeleteExercise(a, id) + DeleteExercise(b, id)
  {
    if a == [] {
      assert a + b == b;
    } else {
      assert (a + b)[0] == a[0] && (a + b)[1..] == a[1..] + b;
      DeleteAppend(a[1..], b, id);
    }
  }

  /** Deleting an identifier no exercise carries changes nothing. */
  lemma {:induction false} DeleteAbsent(es: seq<Exercise>, id: Id)
    requires id !in Ids(es)
    ensures DeleteExercise(es, id) == es
  {
    if es != [] {
      assert es[0] in es;
      assert Ids(es[1..]) <= Ids(es) by {
        forall e | e in es[1..] ensures e in es { }
      }
      DeleteAbsent(es[1..], id);
    }
  }

  /** Adding an exercise under a new identifier and deleting that identifier
      restores the list. */
  lemma AddThenDelete(es: seq<Exercise>, id: Id)
    requires id !in Ids(es)
    ensures DeleteExercise(AddExercise(es, id), id) == es
  {
    var blank := AddExercise(es, id)[|es|];
    assert AddExercise(es, id) == es + [blank];
    DeleteAppend(es, [blank], id);
    DeleteAbsent(es, id);
  }

  /** `copyPreviousWorkout`'s exercises: the source's exercises in order, each
      with every field kept and the identifier `newId(i)` at position `i`. */
  function CopyExercises(src: seq<Exercise>, newId: nat -> Id): (r: seq<Exercise>)
    ensures |r| == |src|
    ensures forall i :: 0 <= i < |src| ==> r[i].id == newId(i) && SameFields(r[i], src[i])
  {
    seq(|src|, i requires 0 <= i < |src| => src[i].(id := newId(i)))
  }

  /** With identifiers the source does not use, the copies share no identifier
      with the source, and distinct identifiers make the copies' distinct. */
  lemma CopyIdsAreFresh(src: seq<Exercise>, newId: nat -> Id)
    requires forall i :: 0 <= i < |src| ==> newId(i) !in Ids(src)
    ensures Ids(CopyExercises(src, newId)) !! Ids(src)
    ensures (forall i, j :: 0 <= i < j < |src| ==> newId(i) != newId(j)) ==> KeysUnique(CopyExercises(src, newId), ExerciseIdOf)
  {
    var r := CopyExercises(src, newId);
    forall e | e in r ensures e.id !in Ids(src) {
      var i :| 0 <= i < |r| && r[i] == e;
    }
  }

  /** The editor keeps exercise identifiers unique: appending under a new
      identifier, updating a field and deleting all do. */
  lemma EditsKeepIdsUnique(es: seq<Exercise>, id: Id, f: Field, v: Value)
    requires KeysUnique(es, ExerciseIdOf) && Fits(f, v)
    ensures id !in Ids(es) ==> KeysUnique(AddExercise(es, id), ExerciseIdOf)
    ensures KeysUnique(UpdateExercise(es, id, f, v), ExerciseIdOf)
    ensures KeysUnique(DeleteExercise(es, id), ExerciseIdOf)
  {
    if id !in Ids(es) {
      var r := AddExercise(es, id);
      forall i, j | 0 <= i < j < |r| ensures r[i].id != r[j].id {
        assert r[i] == es[i];
        if j == |es| {
          assert es[i] in es;
        } else {
          assert r[j] == es[j];
        }
      }
    }
    DeleteKeepsIdsUnique(es, id);
  }

  lemma {:induction false} DeleteKeepsIdsUnique(es: seq<Exercise>, id: Id)
    requires KeysUnique(es, ExerciseIdOf)
    ensures KeysUnique(DeleteExercise(es, id), ExerciseIdOf)
  {
    if es != [] {
      var tail := es[1..];
      KeysUniqueSplit(es, ExerciseIdOf);
      DeleteKeepsIdsUnique(tail, id);
      if es[0].id != id {
        KeysUniqueCons(es[0], DeleteExercise(tail, id), ExerciseIdOf);
      }
    }
  }
}
