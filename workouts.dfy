/** The records of the workout log: an exercise is one movement with its sets,
    repetitions, weight and notes; a workout is a named, dated list of them.
    Calendar days are an ordered key (a day number); identifiers are opaque text. */
module Workouts {

  datatype Option<+T> = None | Some(value: T)

  type Id = string

  /** A calendar day, as the `yyyy-MM-dd` key the page compares. */
  type Day = int

  /** Weight is a decimal number of kilograms. */
  type Kilograms = real

  datatype Exercise = Exercise(
    id: Id,
    name: string,
    sets: int,
    reps: int,
    weight: Kilograms,
    notes: string)

  datatype Workout = Workout(id: Id, name: string, date: Day, exercises: seq<Exercise>)

  /** The fields of an exercise that the editor changes one at a time. */
  datatype Field = Name | Sets | Reps | Weight | Notes

  /** A field's value: text for names and notes, a count for sets and
      repetitions, an amount for the weight. */
  datatype Value = Text(text: string) | Count(count: int) | Amount(amount: Kilograms)

  /** The value of `v` has the type the exercise record declares for `f`. */
  predicate Fits(f: Field, v: Value) {
    match f
    case Name => v.Text?
    case Notes => v.Text?
    case Sets => v.Count?
    case Reps => v.Count?
    case Weight => v.Amount?
  }

  function Get(e: Exercise, f: Field): (v: Value)
    ensures Fits(f, v)
  {
    match f
    case Name => Text(e.name)
    case Sets => Count(e.sets)
    case Reps => Count(e.reps)
    case Weight => Amount(e.weight)
    case Notes => Text(e.notes)
  }

  /** `{ ...e, [f]: v }`: the exercise with one field replaced. */
  function Set(e: Exercise, f: Field, v: Value): (r: Exercise)
    requires Fits(f, v)
    ensures r.id == e.id
    ensures Get(r, f) == v
    ensures forall g :: g != f ==> Get(r, g) == Get(e, g)
  {
    match f
    case Name => e.(name := v.text)
    case Sets => e.(sets := v.count)
    case Reps => e.(reps := v.count)
    case Weight => e.(weight := v.amount)
    case Notes => e.(notes := v.text)
  }

  /** Two exercises agree on every field but possibly the identifier. */
  predicate SameFields(a: Exercise, b: Exercise) {
    forall f :: Get(a, f) == Get(b, f)
  }

  lemma SameFieldsIffEqualUpToId(a: Exercise, b: Exercise)
    ensures SameFields(a, b) <==> a == b.(id := a.id)
  {
    if SameFields(a, b) {
      assert Get(a, Name) == Get(b, Name);
      assert Get(a, Sets) == Get(b, Sets);
      assert Get(a, Reps) == Get(b, Reps);
      assert Get(a, Weight) == Get(b, Weight);
      assert Get(a, Notes) == Get(b, Notes);
    }
  }

  function IdOf(w: Workout): Id { w.id }

  function DateOf(w: Workout): Day { w.date }

  function ExerciseIdOf(e: Exercise): Id { e.id }

  /** No two entries of `ws` share a key. */
  ghost predicate KeysUnique<T, K>(ws: seq<T>, key: T -> K) {
    forall i, j :: 0 <= i < j < |ws| ==> key(ws[i]) != key(ws[j])
  }

  /** Every entry with the key of `w` is `w` itself. */
  lemma {:induction false} UniqueKeyIdentifies<T, K>(ws: seq<T>, key: T -> K, v: T, w: T)
    requires KeysUnique(ws, key)
    requires v in ws && w in ws && key(v) == key(w)
    ensures v == w
  {
    var i :| 0 <= i < |ws| && ws[i] == v;
    var j :| 0 <= j < |ws| && ws[j] == w;
  }

  /** Different entries of `ws` have different keys. */
  lemma {:induction false} DistinctEntriesDistinctKeys<T, K>(ws: seq<T>, key: T -> K, v: T, w: T)
    requires KeysUnique(ws, key)
    requires v in ws && w in ws && v != w
    ensures key(v) != key(w)
  {
    var i :| 0 <= i < |ws| && ws[i] == v;
    var j :| 0 <= j < |ws| && ws[j] == w;
    if i < j {
      assert key(ws[i]) != key(ws[j]);
    } else {
      assert key(ws[j]) != key(ws[i]);
    }
  }

  /** Dropping the first entry keeps keys unique, and no later entry has its key. */
  lemma KeysUniqueSplit<T, K>(ws: seq<T>, key: T -> K)
    requires ws != [] && KeysUnique(ws, key)
    ensures KeysUnique(ws[1..], key)
    ensures forall v :: v in ws[1..] ==> key(v) != key(ws[0])
  {
    var tail := ws[1..];
    forall i, j | 0 <= i < j < |tail| ensures key(tail[i]) != key(tail[j]) {
      assert tail[i] == ws[i + 1] && tail[j] == ws[j + 1];
    }
    forall v | v in tail ensures key(v) != key(ws[0]) {
      var k :| 0 <= k < |tail| && tail[k] == v;
      assert ws[k + 1] == v;
    }
  }

  lemma KeysUniqueCons<T, K>(w: T, ws: seq<T>, key: T -> K)
    requires KeysUnique(ws, key)
    requires forall v :: v in ws ==> key(v) != key(w)
    ensures KeysUnique([w] + ws, key)
  {
    var s := [w] + ws;
    forall i, j | 0 <= i < j < |s| ensures key(s[i]) != key(s[j]) {
      if i == 0 {
        assert s[j] == ws[j - 1];
      } else {
        assert s[i] == ws[i - 1] && s[j] == ws[j - 1];
      }
    }
  }

  lemma KeysUniqueSnoc<T, K>(ws: seq<T>, w: T, key: T -> K)
    requires KeysUnique(ws, key)
    requires forall v :: v in ws ==> key(v) != key(w)
    ensures KeysUnique(ws + [w], key)
  {
    var s := ws + [w];
    forall i, j | 0 <= i < j < |s| ensures key(s[i]) != key(s[j]) {
      assert s[i] == ws[i];
      if j < |ws| {
        assert s[j] == ws[j];
      } else {
        assert s[j] == w;
      }
    }
  }
}
