/**
 * The exercise service: the exercise table's finders, save, and the
 * cascading delete that first removes the exercise's link rows.
 */
module ExerciseService {
  import opened Entities
  import opened Repository
  import opened Persistence
  import opened WorkoutService

  /** The exercise stored under `k` as the repository hands it out, with its related muscle ids. */
  function LoadExercise(t: Tables, k: int): Exercise
    requires k in t.exercises
  {
    Exercise(Some(k), t.exercises[k].name, t.exercises[k].description, MuscleIdsOf(t.exerciseMuscles, k))
  }

  /** The exercise as `save` returns it: with the key it was written under. */
  function SavedExercise(t: Tables, exercise: Exercise): Exercise
  {
    exercise.(id := Some(SaveKey(t.exercises.Keys, exercise.id, t.nextId)))
  }

  /** `save`: upsert the exercise row and make its muscle set the stored relation of that exercise. */
  function AfterSaveExercise(t: Tables, exercise: Exercise): Tables
  {
    var k := SaveKey(t.exercises.Keys, exercise.id, t.nextId);
    t.(exercises := t.exercises[k := ExerciseRow(exercise.name, exercise.description)],
       exerciseMuscles := WithMuscles(t.exerciseMuscles, k, exercise.muscles),
       nextId := NextIdAfterSave(t.exercises.Keys, exercise.id, t.nextId))
  }

  /**
   * `deleteByExerciseId`, then `deleteById` on the exercise table, which
   * also drops the exercise's rows of the join table it owns.
   */
  function AfterDeleteExercise(t: Tables, id: int): Tables
  {
    t.(links := DeleteByExerciseId(t.links, id),
       exercises := t.exercises - {id},
       exerciseMuscles := WithoutExercise(t.exerciseMuscles, id))
  }

  /**
   * Saving an exercise keeps the store consistent exactly when every muscle
   * it names is stored. Reading the returned id back yields exactly the
   * saved exercise, muscles included. Workouts, link rows and the other
   * exercises are untouched.
   */
  lemma SaveExerciseRoundTrip(t: Tables, exercise: Exercise)
    requires Consistent(t)
    ensures var t' := AfterSaveExercise(t, exercise);
      var saved := SavedExercise(t, exercise);
      && (Consistent(t') <==> exercise.muscles <= t.muscles.Keys)
      && saved.id.Some? && saved.id.value in t'.exercises
      && LoadExercise(t', saved.id.value) == saved
      && (exercise.id.Some? && exercise.id.value in t.exercises ==> saved.id == exercise.id)
      && (!(exercise.id.Some? && exercise.id.value in t.exercises) ==> saved.id.value !in t.exercises)
      && t'.links == t.links && t'.workouts == t.workouts
      && forall k :: k in t.exercises && Some(k) != saved.id ==> LoadExercise(t', k) == LoadExercise(t, k)
  {
    var k := SaveKey(t.exercises.Keys, exercise.id, t.nextId);
    forall other | other in t.exercises && other != k
      ensures LoadExercise(AfterSaveExercise(t, exercise), other) == LoadExercise(t, other)
    {
      MuscleIdsOfWithMuscles(t.exerciseMuscles, k, exercise.muscles, other);
    }
    MuscleIdsOfWithMuscles(t.exerciseMuscles, k, exercise.muscles, k);
    if !(exercise.muscles <= t.muscles.Keys) {
      var m :| m in exercise.muscles && m !in t.muscles;
      assert (k, m) in AfterSaveExercise(t, exercise).exerciseMuscles;
    }
  }

  /**
   * The read-modify-write of `updateExercise`: saving the loaded exercise
   * with a new name and description changes that row's two columns and
   * nothing else, so its id, its muscles and every link row stay.
   */
  lemma UpdateLoadedExercise(t: Tables, id: int, name: string, description: string)
    requires Consistent(t)
    requires id in t.exercises
    ensures AfterSaveExercise(t, LoadExercise(t, id).(name := name, description := description))
         == t.(exercises := t.exercises[id := ExerciseRow(name, description)])
  {
    WithMusclesOfItself(t.exerciseMuscles, id);
  }

  /**
   * The cascade of `deleteExercise`: afterwards the exercise is gone, no link
   * row references it and the store is consistent; workouts are untouched,
   * each workout keeps exactly its rows of other exercises, and its details
   * still succeed, with a subset of the records they had before.
   */
  lemma DeleteExerciseCascades(t: Tables, id: int)
    requires Consistent(t)
    ensures var t' := AfterDeleteExercise(t, id);
      && Consistent(t')
      && id !in t'.exercises
      && (forall l :: l in t'.links ==> l.exerciseId != id)
      && t'.workouts == t.workouts
      && forall w :: FindByWorkoutId(t'.links, w) == Filter(FindByWorkoutId(t.links, w), NotOfExercise(id))
  {
    DeleteExerciseKeepsConsistency(t, id);
    var t' := AfterDeleteExercise(t, id);
    forall w ensures FindByWorkoutId(t'.links, w) == Filter(FindByWorkoutId(t.links, w), NotOfExercise(id)) {
      FilterCommute(t.links, NotOfExercise(id), OfWorkout(w));
    }
  }

  lemma DeleteExerciseKeepsConsistency(t: Tables, id: int)
    requires Consistent(t)
    ensures var t' := AfterDeleteExercise(t, id);
      && Consistent(t')
      && id !in t'.exercises
      && (forall l :: l in t'.links ==> l.exerciseId != id)
  {
    var t' := AfterDeleteExercise(t, id);
    FilterKeepsLinkIdsUnique(t.links, NotOfExercise(id));
    assert forall l :: l in t'.links ==> l in t.links && l.exerciseId != id;
    assert ReferentialIntegrity(t'.links, t'.workouts.Keys, t'.exercises.Keys);
    assert forall p :: p in t'.exerciseMuscles ==> p in t.exerciseMuscles && p.0 != id;
  }

  /**
   * After `deleteExercise`, the details of a stored workout succeed and show
   * a subset of the records they showed: one for each of the workout's link
   * rows of another exercise.
   */
  lemma DetailsAfterDeleteExercise(t: Tables, id: int, workoutId: int)
    requires Consistent(t)
    requires workoutId in t.workouts
    ensures var before := Details(t, workoutId);
      var after := Details(AfterDeleteExercise(t, id), workoutId);
      && before.Ok? && after.Ok?
      && after.value.details == before.value.details
      && |after.value.exercises| <= |before.value.exercises|
      && (forall x :: x in after.value.exercises ==> x in before.value.exercises)
      && |after.value.exercises| == |set l | l in t.links && l.workoutId == workoutId && l.exerciseId != id|
  {
    var t' := AfterDeleteExercise(t, id);
    DeleteExerciseCascades(t, id);
    var rows := FindByWorkoutId(t.links, workoutId);
    FlattenOfSelection(rows, NotOfExercise(id), t.exercises, t'.exercises);
    CountAfterDeleteExercise(t, id, workoutId);
  }

  /** The workout's link rows left by `deleteExercise` are exactly its rows of other exercises. */
  lemma CountAfterDeleteExercise(t: Tables, id: int, workoutId: int)
    requires Consistent(t)
    requires workoutId in t.workouts
    ensures var after := Details(AfterDeleteExercise(t, id), workoutId);
      after.Ok? && |after.value.exercises| == |set l | l in t.links && l.workoutId == workoutId && l.exerciseId != id|
  {
    DeleteExerciseKeepsConsistency(t, id);
    DetailsCountsLinkRows(AfterDeleteExercise(t, id), workoutId);
    RowsOfWorkoutAfterDeleteByExercise(t.links, id, workoutId);
  }

  lemma RowsOfWorkoutAfterDeleteByExercise(links: seq<WorkoutExercise>, id: int, workoutId: int)
    ensures (set l | l in DeleteByExerciseId(links, id) && l.workoutId == workoutId)
         == (set l | l in links && l.workoutId == workoutId && l.exerciseId != id)
  {
  }

  /** `findAllExercises`: every stored exercise, and nothing else. */
  method FindAllExercises(db: Store) returns (r: set<Exercise>)
    requires db.Valid()
    ensures forall k :: k in db.exercises ==> LoadExercise(db.State(), k) in r
    ensures forall e :: e in r ==> e.id.Some? && e.id.value in db.exercises && LoadExercise(db.State(), e.id.value) == e
  {
    r := set k | k in db.exercises :: LoadExercise(db.State(), k);
  }

  /** `findExerciseById`: present exactly when the id is stored, and then that exercise. */
  method FindExerciseById(db: Store, id: int) returns (r: Option<Exercise>)
    requires db.Valid()
    ensures r.Some? <==> id in db.exercises
    ensures r.Some? ==> r.value.id == Some(id) && r.value == LoadExercise(db.State(), id)
  {
    r := if id in db.exercises then Some(LoadExercise(db.State(), id)) else None;
  }

  /**
   * `saveExercise`: upsert into the exercise table and its muscle relation.
   * The database refuses a muscle set that names a muscle it does not
   * store, and nothing changes.
   */
  method SaveExercise(db: Store, exercise: Exercise) returns (r: Result<Exercise>)
    requires db.Valid()
    modifies db
    ensures db.Valid()
    ensures r.Err? <==> !(exercise.muscles <= old(db.muscles).Keys)
    ensures r.Err? ==> r.error == ConstraintViolation && db.State() == old(db.State())
    ensures r.Ok? ==> r.value == SavedExercise(old(db.State()), exercise)
    ensures r.Ok? ==> db.State() == AfterSaveExercise(old(db.State()), exercise)
  {
    SaveExerciseRoundTrip(db.State(), exercise);
    if !(exercise.muscles <= db.muscles.Keys) {
      return Err(ConstraintViolation);
    }
    var k := SaveKey(db.exercises.Keys, exercise.id, db.nextId);
    db.exerciseMuscles := WithMuscles(db.exerciseMuscles, k, exercise.muscles);
    db.exercises, db.nextId :=
      db.exercises[k := ExerciseRow(exercise.name, exercise.description)],
      NextIdAfterSave(db.exercises.Keys, exercise.id, db.nextId);
    r := Ok(exercise.(id := Some(k)));
  }

  /** `deleteExercise`: first the exercise's link rows, then the exercise itself. */
  method DeleteExercise(db: Store, id: int)
    requires db.Valid()
    modifies db
    ensures db.Valid()
    ensures db.State() == AfterDeleteExercise(old(db.State()), id)
  {
    DeleteExerciseCascades(db.State(), id);
    db.links := DeleteByExerciseId(db.links, id);
    db.exercises, db.exerciseMuscles := db.exercises - {id}, WithoutExercise(db.exerciseMuscles, id);
  }
}
