/**
 * The workout controller's logic: owner stamping on creation, lookup with
 * not-found, the read-modify-write update and the delete. The caller's user
 * id, which the controller takes from the bearer token, is a parameter.
 */
module WorkoutController {
  import opened Entities
  import opened Persistence
  import WorkoutService

  /** The workout `addWorkout` saves: the posted one with the caller as owner, whatever the body said. */
  function Stamped(workout: Workout, callerUserId: int): Workout
  {
    workout.(ownerUserId := Some(callerUserId))
  }

  /**
   * A workout created by one user is listed for that user and for no other,
   * whatever owner the posted body named.
   */
  lemma AddedWorkoutListedForOwnerOnly(t: Tables, workout: Workout, callerUserId: int, otherUserId: int)
    requires Consistent(t)
    ensures var stamped := Stamped(workout, callerUserId);
      var t' := WorkoutService.AfterSaveWorkout(t, stamped);
      var saved := WorkoutService.SavedWorkout(t, stamped);
      && saved in WorkoutService.WorkoutsOwnedBy(t'.workouts, callerUserId)
      && (otherUserId != callerUserId ==> saved !in WorkoutService.WorkoutsOwnedBy(t'.workouts, otherUserId))
  {
    var stamped := Stamped(workout, callerUserId);
    WorkoutService.SaveWorkoutKeepsConsistency(t, stamped);
  }

  /** `getWorkoutById`: the stored workout, or not-found. */
  method GetWorkoutById(db: Store, id: int) returns (r: Result<Workout>)
    requires db.Valid()
    ensures r.Ok? <==> id in db.workouts
    ensures r.Ok? ==> r.value == db.workouts[id]
    ensures r.Err? ==> r.error == WorkoutNotFound
  {
    var found := WorkoutService.FindWorkoutById(db, id);
    if found.None? {
      return Err(WorkoutNotFound);
    }
    r := Ok(found.value);
  }

  /** `addWorkout`: the owner is set to the caller before saving. */
  method AddWorkout(db: Store, workout: Workout, callerUserId: int) returns (saved: Workout)
    requires db.Valid()
    modifies db
    ensures db.Valid()
    ensures saved.ownerUserId == Some(callerUserId)
    ensures saved == WorkoutService.SavedWorkout(old(db.State()), Stamped(workout, callerUserId))
    ensures db.State() == WorkoutService.AfterSaveWorkout(old(db.State()), Stamped(workout, callerUserId))
  {
    var owned := workout.(ownerUserId := Some(callerUserId));
    saved := WorkoutService.SaveWorkout(db, owned);
  }

  /** `deleteWorkout`: exactly the service's cascade. */
  method DeleteWorkout(db: Store, id: int)
    requires db.Valid()
    modifies db
    ensures db.Valid()
    ensures db.State() == WorkoutService.AfterDeleteWorkout(old(db.State()), id)
  {
    WorkoutService.DeleteWorkout(db, id);
  }

  /**
   * `updateWorkout`: not-found and no save when the id is absent; otherwise
   * the stored workout with the body's name and description, its type, id
   * and owner kept, written back in place.
   */
  method UpdateWorkout(db: Store, id: int, workoutDetails: Workout) returns (r: Result<Workout>)
    requires db.Valid()
    modifies db
    ensures db.Valid()
    ensures id !in old(db.workouts) ==> r == Err(WorkoutNotFound) && db.State() == old(db.State())
    ensures id in old(db.workouts) ==>
      && r == Ok(old(db.workouts)[id].(name := workoutDetails.name, description := workoutDetails.description))
      && r.value.id == Some(id)
      && db.State() == old(db.State()).(workouts := old(db.workouts)[id := r.value])
  {
    var found := WorkoutService.FindWorkoutById(db, id);
    if found.None? {
      return Err(WorkoutNotFound);
    }
    var workout := found.value.(name := workoutDetails.name, description := workoutDetails.description);
    var saved := WorkoutService.SaveWorkout(db, workout);
    r := Ok(saved);
  }
}
