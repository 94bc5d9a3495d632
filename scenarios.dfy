/**
 * End-to-end runs of the controllers and services on a fresh store, with
 * the expected results proved as postconditions.
 */
module Scenarios {
  import opened Entities
  import opened Persistence
  import ExerciseController
  import WorkoutController
  import WorkoutService

  /** The controller test: posting an exercise returns it with the posted name and description. */
  method PostExercise() returns (saved: Exercise)
    ensures saved.name == "Test Exercise" && saved.description == "Test Description"
    ensures saved.id.Some?
  {
    var db := new Store();
    var r := ExerciseController.AddExercise(db, Exercise(None, "Test Exercise", "Test Description", {}));
    saved := r.value;
  }

  /**
   * Create the exercise "Squat" and the workout "Leg Day" as user 7, add the
   * squat with 3 series of 10 reps, 60 rest, weight 80: the details show the
   * workout and that one entry.
   */
  method LegDay() returns (details: Result<WorkoutDetails>)
    ensures details.Ok?
    ensures details.value.details.name == "Leg Day"
    ensures details.value.details.ownerUserId == Some(7)
    ensures |details.value.exercises| == 1
    ensures var entry := details.value.exercises[0];
      && entry.name == "Squat"
      && entry.series == 3 && entry.reps == 10 && entry.rest == 60 && entry.weight == 80
  {
    var db := new Store();
    var added := ExerciseController.AddExercise(db, Exercise(None, "Squat", "", {}));
    var squat := added.value;
    var legDay := WorkoutController.AddWorkout(db, Workout(None, "Leg Day", "", "", None), 7);
    var request := AddExerciseToWorkoutRequest(legDay.id.value, squat.id.value, 3, 10, 60, 80);
    var link := WorkoutService.AddExerciseToWorkout(db, request);
    details := WorkoutService.GetWorkoutDetails(db, legDay.id.value);
  }
}
