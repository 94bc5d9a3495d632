/** The exercise controller's logic: lookup with not-found, create, and the read-modify-write update. */
module ExerciseController {
  import opened Entities
  import opened Persistence
  import ExerciseService

  /** `getExerciseById`: the stored exercise, or not-found. */
  method GetExerciseById(db: Store, id: int) returns (r: Result<Exercise>)
    requires db.Valid()
    ensures r.Ok? <==> id in db.exercises
    ensures r.Ok? ==> r.value == ExerciseService.LoadExercise(db.State(), id)
    ensures r.Err? ==> r.error == ExerciseNotFound
  {
    var found := ExerciseService.FindExerciseById(db, id);
    if found.None? {
      return Err(ExerciseNotFound);
    }
    r := Ok(found.value);
  }

  /**
   * `addExercise`: returns the exercise as stored, with the posted name and
   * description; a muscle set naming an unstored muscle is refused.
   */
  method AddExercise(db: Store, exercise: Exercise) returns (r: Result<Exercise>)
    requires db.Valid()
    modifies db
    ensures db.Valid()
    ensures r.Err? <==> !(exercise.muscles <= old(db.muscles).Keys)
    ensures r.Err? ==> r.error == ConstraintViolation && db.State() == old(db.State())
    ensures r.Ok? ==>
      && r.value.name == exercise.name && r.value.description == exercise.description
      && r.value.muscles == exercise.muscles
      && r.value.id.Some? && r.value.id.value in db.exercises
      && ExerciseService.LoadExercise(db.State(), r.value.id.value) == r.value
      && db.State() == ExerciseService.AfterSaveExercise(old(db.State()), exercise)
  {
    ExerciseService.SaveExerciseRoundTrip(db.State(), exercise);
    r := ExerciseService.SaveExercise(db, exercise);
  }

  /**
   * `updateExercise`: not-found and no save when the id is absent; otherwise
   * only the name and description change, the id, the muscles and every
   * link row stay.
   */
  method UpdateExercise(db: Store, id: int, exerciseDetails: Exercise) returns (r: Result<Exercise>)
    requires db.Valid()
    modifies db
    ensures db.Valid()
    ensures id !in old(db.exercises) ==> r == Err(ExerciseNotFound) && db.State() == old(db.State())
    ensures id in old(db.exercises) ==>
      && r == Ok(ExerciseService.LoadExercise(old(db.State()), id).(name := exerciseDetails.name,
                                                                  description := exerciseDetails.description))
      && r.value.id == Some(id)
      && db.State() == old(db.State()).(exercises := old(db.exercises)[id := ExerciseRow(exerciseDetails.name, exerciseDetails.description)])
  {
    var found := ExerciseService.FindExerciseById(db, id);
    if found.None? {
      return Err(ExerciseNotFound);
    }
    var exercise := found.value.(name := exerciseDetails.name, description := exerciseDetails.description);
    ExerciseService.UpdateLoadedExercise(db.State(), id, exerciseDetails.name, exerciseDetails.description);
    assert exercise.muscles <= db.muscles.Keys;
    r := ExerciseService.SaveExercise(db, exercise);
  }
}
