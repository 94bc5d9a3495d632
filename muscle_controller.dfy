/** The muscle controller's logic: lookup with not-found, create, and the read-modify-write update. */
module MuscleController {
  import opened Entities
  import opened Persistence
  import MuscleService

  /** `getMuscleById`: the stored muscle, or not-found. */
  method GetMuscleById(db: Store, id: int) returns (r: Result<Muscle>)
    requires db.Valid()
    ensures r.Ok? <==> id in db.muscles
    ensures r.Ok? ==> r.value == db.muscles[id]
    ensures r.Err? ==> r.error == MuscleNotFound
  {
    var found := MuscleService.FindMuscleById(db, id);
    if found.None? {
      return Err(MuscleNotFound);
    }
    r := Ok(found.value);
  }

  /** `addMuscle`: returns the muscle as stored. */
  method AddMuscle(db: Store, muscle: Muscle) returns (saved: Muscle)
    requires db.Valid()
    modifies db
    ensures db.Valid()
    ensures saved.name == muscle.name && saved.description == muscle.description
    ensures saved.id.Some? && saved.id.value in db.muscles && db.muscles[saved.id.value] == saved
    ensures db.State() == MuscleService.AfterSaveMuscle(old(db.State()), muscle)
  {
    MuscleService.SaveMuscleRoundTrip(db.State(), muscle);
    saved := MuscleService.SaveMuscle(db, muscle);
  }

  /**
   * `updateMuscle`: not-found and no save when the id is absent; otherwise
   * only the name and description change, the id and the muscle's place in
   * the exercise relation stay.
   */
  method UpdateMuscle(db: Store, id: int, muscleDetails: Muscle) returns (r: Result<Muscle>)
    requires db.Valid()
    modifies db
    ensures db.Valid()
    ensures id !in old(db.muscles) ==> r == Err(MuscleNotFound) && db.State() == old(db.State())
    ensures id in old(db.muscles) ==>
      && r == Ok(old(db.muscles)[id].(name := muscleDetails.name, description := muscleDetails.description))
      && r.value.id == Some(id)
      && db.State() == old(db.State()).(muscles := old(db.muscles)[id := r.value])
  {
    var found := MuscleService.FindMuscleById(db, id);
    if found.None? {
      return Err(MuscleNotFound);
    }
    var muscle := found.value.(name := muscleDetails.name, description := muscleDetails.description);
    var saved := MuscleService.SaveMuscle(db, muscle);
    r := Ok(saved);
  }
}
