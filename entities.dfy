/**
 * The records of the trainer application: the persisted entities, the
 * request bodies and the read-models the services return.
 *
 * An entity whose id the store assigns carries `id: Option<int>`: a body
 * posted by a client may carry no id (`None`, Java's `null`), and every
 * stored record carries `Some(k)` for its own key `k`.
 */
module Entities {

  datatype Option<T> = None | Some(value: T)

  /** The failures the services and controllers raise. */
  datatype Error =
    | WorkoutNotFound       // EntityNotFoundException / RuntimeException "Workout not found"
    | ExerciseNotFound      // "Exercise not found"
    | MuscleNotFound        // "Muscle not found"
    | UsernameAlreadyTaken  // IllegalStateException "Username already taken"
    | DanglingReference     // a link row whose exercise is not stored
    | ConstraintViolation   // the database refuses a write that breaks a foreign key of the exercise-muscle relation

  datatype Result<T> = Ok(value: T) | Err(error: Error)

  /** A workout. `ownerUserId` is the owner that the controller stamps on creation. */
  datatype Workout = Workout(
    id: Option<int>,
    name: string,
    description: string,
    workoutType: string,
    ownerUserId: Option<int>)

  /**
   * An exercise as the repository hands it out: its row plus the ids of the
   * muscles it is related to (the owning side of the many-to-many relation).
   */
  datatype Exercise = Exercise(
    id: Option<int>,
    name: string,
    description: string,
    muscles: set<int>)

  /** The exercise table's own columns; the muscle relation is a separate table. */
  datatype ExerciseRow = ExerciseRow(name: string, description: string)

  /** A muscle; its side of the relation is the inverse one and is never written through it. */
  datatype Muscle = Muscle(id: Option<int>, name: string, description: string)

  /** A registered user; `password` holds the encoder's output. */
  datatype User = User(id: Option<int>, username: string, password: string, email: string)

  /** A link row: one exercise inside one workout with its four training parameters. */
  datatype WorkoutExercise = WorkoutExercise(
    id: int,
    workoutId: int,
    exerciseId: int,
    series: int,
    reps: int,
    rest: int,
    weight: int)

  /** One flattened entry of the workout-details read-model. */
  datatype SimplifiedExercise = SimplifiedExercise(
    id: int,
    name: string,
    description: string,
    series: int,
    reps: int,
    rest: int,
    weight: int)

  /** The workout-details read-model: the workout itself and its flattened link rows. */
  datatype WorkoutDetails = WorkoutDetails(details: Workout, exercises: seq<SimplifiedExercise>)

  datatype AddExerciseToWorkoutRequest = AddExerciseToWorkoutRequest(
    workoutId: int,
    exerciseId: int,
    series: int,
    reps: int,
    rest: int,
    weight: int)

  datatype RegistrationRequest = RegistrationRequest(username: string, password: string, email: string)
}
