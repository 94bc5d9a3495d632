# Trainer app: the workout / exercise / link-row store

This project models the core of a small fitness-tracking backend. Users own workouts. Exercises and muscles form a many-to-many catalogue. Link rows (`WorkoutExercise`) put one exercise into one workout with four training parameters: series, reps, rest and weight. The model covers the service and controller operations that read and change these tables:

- the workout-details read-model;
- guarded link creation;
- the cascading deletes of workouts and exercises;
- removal of one link row;
- user registration with its duplicate-username guard;
- the read-modify-write updates of the three controllers.

## Structure

- `entities.dfy` (`Entities`): the records, request bodies, read-models and errors.
- `repository.dfy` (`Repository`): the repository queries on table values. The link table is a sequence. `findByWorkoutId`, `deleteByWorkoutId`, `deleteByExerciseId` and `deleteById` are one `Filter` each, with a named selection predicate. The exercise-muscle join table is a set of (exercise id, muscle id) pairs. `save` writes to the key given by `SaveKey`.
- `store.dfy` (`Persistence`): the class `Store`, with one field per table and the shared id counter. `State()` takes a snapshot of all tables as a `Tables` value. `Valid()` is `Consistent(State())`. Its central part is referential integrity: every link row names a stored workout and a stored exercise. It also says that keys are below the counter, link ids are unique, stored records carry their own key, join rows name a stored exercise and a stored muscle, and usernames are unique.
- One module per service (`WorkoutService`, `ExerciseService`, `WorkoutExerciseService`, `UserService`, `MuscleService`) and per controller (`WorkoutController`, `ExerciseController`, `MuscleController`). Every operation is a module-level method that takes the store as its parameter `db: Store`. A method that changes state ensures `db.State() == After...(old(db.State()), ...)` and keeps `Valid()`. The lemmas about each `After...` function state what the operation guarantees.
- `scenarios.dfy` (`Scenarios`): two end-to-end runs on a fresh store, with the expected results proved as postconditions.

## Model

| member | source | states |
|---|---|---|
| `Repository.Filter` | src/main/java/com/ksaphier/trainerapp/repository/WorkoutExerciseRepository.java:11 | The selection behind every derived query on the link table: exactly the rows of the table that pass, never more rows than the table |
| `Repository.FilterMultiset` | src/main/java/com/ksaphier/trainerapp/repository/WorkoutExerciseRepository.java:11 | Each selected row occurs in the result exactly as often as in the table, and no other row occurs |
| `Repository.FilterAppend` | src/main/java/com/ksaphier/trainerapp/repository/WorkoutExerciseRepository.java:11 | Selecting from a table split in two gives the selection from the first part followed by the selection from the second, so the table's order is kept |
| `Repository.FindByWorkoutId` | src/main/java/com/ksaphier/trainerapp/repository/WorkoutExerciseRepository.java:11 | The link rows of one workout: a row is in the result exactly when it is in the table and names that workout, and each such row occurs exactly as often as in the table. The order is the table's, by `FilterAppend` |
| `Repository.FindByWorkoutIdCount` | src/main/java/com/ksaphier/trainerapp/repository/WorkoutExerciseRepository.java:11 | With unique link ids, the result has exactly as many rows as the workout has different link rows |
| `Repository.DeleteByWorkoutId` | src/main/java/com/ksaphier/trainerapp/service/WorkoutService.java:91 | The table keeps exactly the rows that name another workout. `WorkoutService.DeleteWorkoutCascades` proves the cascade effect |
| `Repository.DeleteByExerciseId` | src/main/java/com/ksaphier/trainerapp/service/ExerciseService.java:42 | The table keeps exactly the rows that name another exercise. `ExerciseService.DeleteExerciseCascades` proves the cascade effect |
| `Repository.SaveKey` | src/main/java/com/ksaphier/trainerapp/service/WorkoutService.java:85-87 | The key a `save` writes to. An entity carrying a stored id gets that id. When every key is below the counter, the key is a stored one exactly when the entity names a stored row, and otherwise it is the counter, which no row uses. The three `...RoundTrip` / `SaveWorkoutKeepsConsistency` lemmas prove the save effects |
| `Repository.NextIdAfterSave` | src/main/java/com/ksaphier/trainerapp/service/WorkoutService.java:85-87 | The counter never goes down. When every key is below it, it stays put exactly when the save overwrote a row, and it ends above the key just written |
| `Repository.DeleteLinkByIdRemovesOneRow` | src/main/java/com/ksaphier/trainerapp/service/WorkoutExerciseService.java:16-19 | When link ids are unique, deleting the id of row `i` yields the table without that row; the rows before and after keep their content and order |
| `Repository.DeleteAbsentLinkIsNoOp` | src/main/java/com/ksaphier/trainerapp/service/WorkoutExerciseService.java:18 | Deleting a link id that no row carries leaves the link table as it is |
| `Repository.MuscleIdsOfWithMuscles` | src/main/java/com/ksaphier/trainerapp/model/Exercise.java:23-25 | Saving an exercise's muscle set and reading it back gives that set; every other exercise keeps its muscles |
| `Repository.WithMusclesOfItself` | src/main/java/com/ksaphier/trainerapp/controller/ExerciseController.java:45-51 | Saving back the muscle set an exercise was loaded with leaves the join table unchanged |
| `WorkoutService.Flatten` | src/main/java/com/ksaphier/trainerapp/service/WorkoutService.java:38-47 | The mapping succeeds exactly when every row's exercise is stored, and otherwise fails with a dangling reference. On success it has one record per row, in row order, each with the row's id, series, reps, rest and weight and the exercise's name and description |
| `WorkoutService.Details` | src/main/java/com/ksaphier/trainerapp/service/WorkoutService.java:32-50 | Not-found exactly when the workout is absent. Under referential integrity a stored workout always succeeds. `details` is the stored workout; there is one record per row of `findByWorkoutId`, in that order, carrying that row's and its exercise's fields |
| `WorkoutService.DetailsCountsLinkRows` | src/main/java/com/ksaphier/trainerapp/service/WorkoutService.java:36-49 | On a consistent store a stored workout's details succeed and hold exactly one record per link row of that workout |
| `WorkoutService.FlattenOfSelection` | src/main/java/com/ksaphier/trainerapp/service/WorkoutService.java:36-47 | Mapping a selection of the rows succeeds, gives no more records than mapping all rows, and gives only records that mapping all rows gives |
| `WorkoutService.AddExerciseKeepsConsistency` | src/main/java/com/ksaphier/trainerapp/service/WorkoutService.java:61-69 | Linking a stored workout and a stored exercise keeps the store consistent. Exactly one row is appended, with a fresh id, both references and the request's four parameters; earlier rows are untouched |
| `WorkoutService.SaveWorkoutKeepsConsistency` | src/main/java/com/ksaphier/trainerapp/service/WorkoutService.java:85-87 | Saving keeps the store consistent and leaves links and exercises alone. A stored id is overwritten in place; any other workout gets a fresh id. The returned id reads back the saved record |
| `WorkoutService.DeleteWorkoutCascades` | src/main/java/com/ksaphier/trainerapp/service/WorkoutService.java:89-94 | After the cascade the workout is gone, no link row references it and the store is consistent. Exercises are unchanged. Every other workout keeps exactly its link rows and its details |
| `WorkoutService.GetWorkoutDetails` | src/main/java/com/ksaphier/trainerapp/service/WorkoutService.java:32-50 | On a valid store the result is `Details`: it succeeds exactly when the workout is stored, else it is not-found. The method changes nothing |
| `WorkoutService.AddExerciseToWorkout` | src/main/java/com/ksaphier/trainerapp/service/WorkoutService.java:55-70 | A missing workout gives workout-not-found; a stored workout with a missing exercise gives exercise-not-found. Either failure leaves the store unchanged. Otherwise the one new row is appended and returned. Duplicate links are allowed |
| `WorkoutService.FindAllWorkouts` | src/main/java/com/ksaphier/trainerapp/service/WorkoutService.java:77-79 | Holds every stored workout and only stored workouts |
| `WorkoutService.FindAllWorkoutsByUser` | src/main/java/com/ksaphier/trainerapp/controller/WorkoutController.java:37-41 | Holds exactly the stored workouts whose owner is the given user |
| `WorkoutService.FindWorkoutById` | src/main/java/com/ksaphier/trainerapp/service/WorkoutService.java:81-83 | Present exactly when the id is stored, and then it is that row and carries that id |
| `WorkoutService.SaveWorkout` | src/main/java/com/ksaphier/trainerapp/service/WorkoutService.java:85-87 | Upserts the workout, returns it with the key it was written under, and keeps the store valid |
| `WorkoutService.DeleteWorkout` | src/main/java/com/ksaphier/trainerapp/service/WorkoutService.java:89-94 | Deletes the workout's link rows, then the workout, and keeps the store valid |
| `ExerciseService.SaveExerciseRoundTrip` | src/main/java/com/ksaphier/trainerapp/service/ExerciseService.java:36-38 | The store stays consistent exactly when every muscle the exercise names is stored. Loading the returned id yields exactly the saved exercise, muscles included. A stored id is overwritten and any other exercise gets a fresh id. Links, workouts and other exercises are unchanged |
| `ExerciseService.UpdateLoadedExercise` | src/main/java/com/ksaphier/trainerapp/controller/ExerciseController.java:45-51 | Saving the loaded exercise with a new name and description changes only those two columns of that row. The join table and the link rows stay |
| `ExerciseService.DeleteExerciseCascades` | src/main/java/com/ksaphier/trainerapp/service/ExerciseService.java:40-45 | Afterwards the exercise is gone, no link row references it and the store is consistent. Workouts are unchanged. Each workout keeps exactly its rows of other exercises, in their order |
| `ExerciseService.DetailsAfterDeleteExercise` | src/main/java/com/ksaphier/trainerapp/service/ExerciseService.java:42-44 | After the exercise cascade, a stored workout's details still succeed with the same workout. Every record was already present before, and there is exactly one per link row of the workout that names another exercise |
| `ExerciseService.CountAfterDeleteExercise` | src/main/java/com/ksaphier/trainerapp/service/ExerciseService.java:42-44 | After the exercise cascade, the details of a stored workout hold exactly one record per link row of that workout that names another exercise |
| `ExerciseService.DeleteExerciseKeepsConsistency` | src/main/java/com/ksaphier/trainerapp/service/ExerciseService.java:40-45 | Deleting the exercise's link rows, then the exercise with its relation pairs, keeps the store consistent; no link row names the exercise afterwards |
| `ExerciseService.FindAllExercises` | src/main/java/com/ksaphier/trainerapp/service/ExerciseService.java:28-30 | Holds every stored exercise, as loaded, and nothing else |
| `ExerciseService.FindExerciseById` | src/main/java/com/ksaphier/trainerapp/service/ExerciseService.java:32-34 | Present exactly when the id is stored, and then it is the loaded exercise with that id |
| `ExerciseService.SaveExercise` | src/main/java/com/ksaphier/trainerapp/service/ExerciseService.java:36-38 | A muscle set naming an unstored muscle is refused by the relation's foreign key: constraint violation, store unchanged, which is the only failure. Otherwise it upserts the row and its muscle relation, returns the exercise with its key, and keeps the store valid |
| `ExerciseService.DeleteExercise` | src/main/java/com/ksaphier/trainerapp/service/ExerciseService.java:40-45 | Deletes the exercise's link rows, then the exercise and its join rows, and keeps the store valid |
| `WorkoutExerciseService.DeleteLinkRemovesOneRow` | src/main/java/com/ksaphier/trainerapp/service/WorkoutExerciseService.java:16-19 | Keeps the store consistent, and no row with the id remains. A row with the id is removed alone, and the others keep content and order. An absent id changes nothing. Workout, exercise and muscle tables are unchanged |
| `WorkoutExerciseService.DeleteExerciseFromWorkout` | src/main/java/com/ksaphier/trainerapp/service/WorkoutExerciseService.java:16-19 | Removes the link row with that id, if any, and keeps the store valid |
| `UserService.RegisterAddsOneUser` | src/main/java/com/ksaphier/trainerapp/service/UserService.java:31-37 | Registering a free username adds exactly one user under a fresh id: its username and email come from the request and its password is the encoder's output. Earlier users are unchanged, usernames stay unique, and the name is taken afterwards |
| `UserService.RegisterUser` | src/main/java/com/ksaphier/trainerapp/service/UserService.java:25-40 | A taken username fails and leaves the store unchanged. Otherwise it inserts the new user with `encode(password)` and returns "User registered successfully" |
| `MuscleService.SaveMuscleRoundTrip` | src/main/java/com/ksaphier/trainerapp/service/MuscleService.java:29-31 | Saving keeps the store consistent and the returned id reads back the saved muscle. A stored id is overwritten and any other muscle gets a fresh id. Exercises, the join table and links are unchanged |
| `MuscleService.DeleteMuscleRemovesRowOnly` | src/main/java/com/ksaphier/trainerapp/service/MuscleService.java:33-35 | Removing the muscle row keeps the store consistent exactly when no exercise is related to the muscle. Only that row goes: other muscles, exercises, the relation, links and workouts are unchanged. After a permitted delete, no exercise lists the muscle |
| `MuscleService.FindAllMuscles` | src/main/java/com/ksaphier/trainerapp/service/MuscleService.java:21-23 | Holds every stored muscle and nothing else |
| `MuscleService.FindMuscleById` | src/main/java/com/ksaphier/trainerapp/service/MuscleService.java:25-27 | Present exactly when the id is stored, and then it is that row |
| `MuscleService.SaveMuscle` | src/main/java/com/ksaphier/trainerapp/service/MuscleService.java:29-31 | Upserts the muscle, returns it with its key, and keeps the store valid |
| `MuscleService.DeleteMuscle` | src/main/java/com/ksaphier/trainerapp/service/MuscleService.java:33-35 | Fails exactly when an exercise is related to the muscle: constraint violation, store unchanged, as the relation's foreign key makes the database refuse. Otherwise it removes the muscle row only. The store stays valid |
| `MuscleService.FindMusclesByExerciseId` | src/main/java/com/ksaphier/trainerapp/repository/MuscleRepository.java:12-13 | A stored muscle is in the result exactly when it is related to the exercise. Every related muscle is stored and listed, and everything in the result is a stored muscle. No relation, or an unknown exercise, gives the empty result and not an error |
| `WorkoutController.AddedWorkoutListedForOwnerOnly` | src/main/java/com/ksaphier/trainerapp/controller/WorkoutController.java:49-55 | A workout created by a caller is listed among that caller's workouts and no other user's, whatever owner the posted body named |
| `WorkoutController.GetWorkoutById` | src/main/java/com/ksaphier/trainerapp/controller/WorkoutController.java:43-47 | The stored workout, or not-found exactly when the id is absent |
| `WorkoutController.AddWorkout` | src/main/java/com/ksaphier/trainerapp/controller/WorkoutController.java:49-55 | The owner is set to the caller's id, overriding the body, and the stamped workout is saved |
| `WorkoutController.DeleteWorkout` | src/main/java/com/ksaphier/trainerapp/controller/WorkoutController.java:57-60 | Has exactly the service's cascade effect |
| `WorkoutController.UpdateWorkout` | src/main/java/com/ksaphier/trainerapp/controller/WorkoutController.java:62-71 | An absent id gives not-found with nothing saved. Otherwise only name and description come from the body: type, id and owner keep their stored values, and the row is overwritten in place |
| `ExerciseController.GetExerciseById` | src/main/java/com/ksaphier/trainerapp/controller/ExerciseController.java:27-31 | The loaded exercise, or not-found exactly when the id is absent |
| `ExerciseController.AddExercise` | src/main/java/com/ksaphier/trainerapp/controller/ExerciseController.java:33-36 | Refused with the store unchanged exactly when the posted muscles are not all stored. Otherwise it returns the exercise as stored, with the posted name, description and muscles; loading its id yields it |
| `ExerciseController.UpdateExercise` | src/main/java/com/ksaphier/trainerapp/controller/ExerciseController.java:43-52 | An absent id gives not-found with nothing saved. Otherwise only name and description change: the id, the muscles and every link row keep their stored values |
| `MuscleController.GetMuscleById` | src/main/java/com/ksaphier/trainerapp/controller/MuscleController.java:27-31 | The stored muscle, or not-found exactly when the id is absent |
| `MuscleController.AddMuscle` | src/main/java/com/ksaphier/trainerapp/controller/MuscleController.java:33-36 | Returns the muscle as stored, with the posted name and description, readable under its id |
| `MuscleController.UpdateMuscle` | src/main/java/com/ksaphier/trainerapp/controller/MuscleController.java:43-52 | An absent id gives not-found with nothing saved. Otherwise only name and description change; the id stays and so does the muscle's place in the exercise relation |
| `Scenarios.PostExercise` | src/test/java/com/ksaphier/trainerapp/controller/ExerciseControllerTest.java:20-31 | Posting "Test Exercise" / "Test Description" returns an exercise with that name and description and an assigned id |
| `Scenarios.LegDay` | src/main/java/com/ksaphier/trainerapp/service/WorkoutService.java:32-69 | Run: create "Squat", then "Leg Day" as user 7, then link them with 3 series, 10 reps, 60 rest and weight 80. The details show "Leg Day" owned by 7 and exactly one entry, "Squat", with those parameters |

## Assumptions where the code is silent or incomplete

- `deleteByWorkoutId` and `deleteByExerciseId` are called but are not declared in `WorkoutExerciseRepository.java`. Each is modelled as removing every link row whose workout id, or exercise id, equals the argument.
- `Workout` declares no owner field, yet the controller calls `setUserId`. The model adds `ownerUserId`.
- `findAllWorkoutsByUser` is called by the controller but is not defined in `WorkoutService`. It is modelled as the filter on `ownerUserId` (`WorkoutService.FindAllWorkoutsByUser`).
- The `WorkoutExercise` entity file is not part of this model. Its fields are inferred from `WorkoutService.java:39-46,61-67`. The `User` and `RegistrationRequest` files are not part of this model either; their fields are inferred from `UserService.java:26-35`.
- `save` on an entity with no id, or with an id that is not stored, inserts it under the next fresh id. An entity with a stored id overwrites that row. The model assumes the merge behaviour of the persistence library before Hibernate 6.6, which inserts a detached entity whose row is missing. From 6.6 on, such a merge raises an optimistic-lock error instead, and the code does not fix the library version.
- One id counter serves every table, as a single generated sequence shared by all entities does.
- `deleteById` on an absent id, for any table, is a no-op. No not-found is raised, because the code checks nothing.
- Deleting an exercise also removes its rows of the exercise-muscle join table, since `Exercise` owns the relation. `Muscle` is the inverse side, so deleting a muscle never touches the join table. The join table's foreign keys then make the database refuse two writes, and the model refuses them too, with the store unchanged: deleting a muscle any exercise is related to, and saving an exercise whose muscle set names a muscle that is not stored. So the relation only ever names stored exercises and stored muscles, and no lookup of an exercise lists a deleted muscle.
- A link row holds the ids of its workout and exercise rather than object references.

## Behaviour worth noting

- `updateWorkout` sets only name and description from the body. The workout type is kept.
- Deleting a link row, workout or exercise that does not exist is a silent no-op, not a not-found error.
- Creating an exercise or muscle does not check that the name is non-empty.
- `findByWorkoutId` has no ordering clause, so the model claims only that the details keep the order the query returns.
- Posting a workout that carries the id of a stored workout overwrites that workout through `save`, and stamps it with the caller as owner.

## Left out

- HTTP routing, response wrapping, JSON binding and CORS (`WebConfig.java`): plumbing outside the core.
- Reading the bearer token (`Authorization` header, `substring(7)`, `JwtTokenProvider`): the caller's user id is a method parameter, and a missing or invalid token is not modelled.
- Authentication (`AuthService.java`, `AuthController.java`) and `GenerateJwtSecret.java`: they delegate to the security library and to key generation.
- Password hashing: the encoder is a function parameter. The model does not state that the encoded value differs from the raw password, since that depends on the encoder.
- The controllers' `getAll...` endpoints, the `deleteExercise` and `deleteMuscle` endpoints, `getMusclesByExerciseId`, and the `addExerciseToWorkout` / `deleteExerciseFromWorkout` / details endpoints of `WorkoutController`: each only forwards to the modelled service method. `WorkoutController.DeleteWorkout` is modelled.
- Transactions and concurrency: the model is sequential, so each cascade is atomic by construction. The link table's foreign keys are not modelled as errors; the store invariant shows instead that every cascade and every link creation leaves no dangling row. The exercise-muscle relation's foreign keys are modelled as the `ConstraintViolation` error. The database's own error type and message are not modelled.
- `Persistence.UsernameTaken`: usernames are compared as exact strings. `findByUsername` matches under the database's collation, which may ignore case or trailing spaces; that matching is not modelled.
- Java `null`: no id, string or request field is ever null in the model. The `@NonNull` checks and the exceptions a null would raise are not modelled.
- Integer widths: ids are unbounded integers. The `Long` id sequence cannot overflow in the model. The four `int` training parameters are copied and never computed with, so their width does not matter.
- List results of `findAll` and of the muscle join are sets in the model, because their order is unspecified. The join yields each related muscle once.
- The `exercises` collection of `Muscle` is left out of the muscle record. It is the inverse side, so saving a muscle never writes it; its content is the join table.
