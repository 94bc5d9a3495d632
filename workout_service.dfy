/**
 * The workout service: the workout-details read-model, adding an exercise
 * to a workout, and the workout table's finders, save and cascading delete.
 *
 * Each state-changing operation is a method on the store whose new state is
 * given by an `After...` function on table snapshots; the lemmas about those
 * functions say what the operation guarantees.
 */
module WorkoutService {
  import opened Entities
  import opened Repository
  import opened Persistence

  // ---------------------------------------------------------------------
  // The details read-model

  /** `rec` shows link row `row` of exercise `exercise`: the row's own id and parameters, the exercise's texts. */
  predicate Describes(rec: SimplifiedExercise, row: WorkoutExercise, exercise: ExerciseRow)
  {
    && rec.id == row.id
    && rec.name == exercise.name
    && rec.description == exercise.description
    && rec.series == row.series
    && rec.reps == row.reps
    && rec.rest == row.rest
    && rec.weight == row.weight
  }

  function Simplify(row: WorkoutExercise, exercise: ExerciseRow): SimplifiedExercise
  {
    SimplifiedExercise(row.id, exercise.name, exercise.description, row.series, row.reps, row.rest, row.weight)
  }

  /**
   * The stream map of `getWorkoutDetails`: one record per link row, in the
   * rows' order. A row whose exercise is not stored makes the whole mapping
   * fail rather than be skipped.
   */
  function Flatten(rows: seq<WorkoutExercise>, exercises: map<int, ExerciseRow>): (r: Result<seq<SimplifiedExercise>>)
    ensures r.Ok? <==> forall l :: l in rows ==> l.exerciseId in exercises
    ensures r.Err? ==> r.error == DanglingReference
    ensures r.Ok? ==>
      && |r.value| == |rows|
      && forall i :: 0 <= i < |rows| ==>
           rows[i].exerciseId in exercises && Describes(r.value[i], rows[i], exercises[rows[i].exerciseId])
  {
    if rows == [] then Ok([])
    else if rows[0].exerciseId !in exercises then Err(DanglingReference)
    else match Flatten(rows[1..], exercises)
      case Err(e) => Err(e)
      case Ok(rest) => Ok([Simplify(rows[0], exercises[rows[0].exerciseId])] + rest)
  }

  /** `getWorkoutDetails` on a snapshot of the tables. */
  function Details(t: Tables, workoutId: int): (r: Result<WorkoutDetails>)
    ensures r == Err(WorkoutNotFound) <==> workoutId !in t.workouts
    ensures workoutId in t.workouts && ReferentialIntegrity(t.links, t.workouts.Keys, t.exercises.Keys) ==> r.Ok?
    ensures r.Ok? ==>
      var rows := FindByWorkoutId(t.links, workoutId);
      && workoutId in t.workouts
      && r.value.details == t.workouts[workoutId]
      && |r.value.exercises| == |rows|
      && forall i :: 0 <= i < |rows| ==>
           && rows[i].workoutId == workoutId
           && rows[i].exerciseId in t.exercises
           && Describes(r.value.exercises[i], rows[i], t.exercises[rows[i].exerciseId])
  {
    if workoutId !in t.workouts then Err(WorkoutNotFound)
    else
      var rows := FindByWorkoutId(t.links, workoutId);
      assert forall i :: 0 <= i < |rows| ==> rows[i] in rows;
      match Flatten(rows, t.exercises)
      case Err(e) => Err(e)
      case Ok(records) => Ok(WorkoutDetails(t.workouts[workoutId], records))
  }

  /**
   * On a consistent store the details of a stored workout hold one record
   * for each of the workout's link rows.
   */
  lemma DetailsCountsLinkRows(t: Tables, workoutId: int)
    requires Consistent(t)
    requires workoutId in t.workouts
    ensures Details(t, workoutId).Ok?
    ensures |Details(t, workoutId).value.exercises| == |set l | l in t.links && l.workoutId == workoutId|
  {
    FindByWorkoutIdCount(t.links, workoutId);
  }

  /**
   * Flattening a selection of the rows yields a subset of the records of all
   * rows, as long as the exercises of the selected rows read the same.
   */
  lemma {:induction false} FlattenOfSelection(rows: seq<WorkoutExercise>, keep: WorkoutExercise -> bool,
                           exercises: map<int, ExerciseRow>, exercises': map<int, ExerciseRow>)
    requires forall l :: l in rows ==> l.exerciseId in exercises
    requires forall l :: l in rows && keep(l) ==>
      l.exerciseId in exercises' && exercises'[l.exerciseId] == exercises[l.exerciseId]
    ensures Flatten(Filter(rows, keep), exercises').Ok?
    ensures |Flatten(Filter(rows, keep), exercises').value| <= |Flatten(rows, exercises).value|
    ensures forall x :: x in Flatten(Filter(rows, keep), exercises').value ==> x in Flatten(rows, exercises).value
  {
    var selected := Filter(rows, keep);
    var all := Flatten(rows, exercises).value;
    var some := Flatten(selected, exercises').value;
    forall x | x in some ensures x in all {
      var i :| 0 <= i < |some| && some[i] == x;
      assert selected[i] in selected;
      var j :| 0 <= j < |rows| && rows[j] == selected[i];
      assert Describes(all[j], rows[j], exercises[rows[j].exerciseId]);
    }
  }

  /** The stored workouts owned by `userId`. */
  function WorkoutsOwnedBy(workouts: map<int, Workout>, userId: int): set<Workout>
  {
    set k | k in workouts && workouts[k].ownerUserId == Some(userId) :: workouts[k]
  }

  // ---------------------------------------------------------------------
  // Effects of the state-changing operations

  /** The link row `addExerciseToWorkout` builds under id `id`. */
  function NewLink(id: int, request: AddExerciseToWorkoutRequest): WorkoutExercise
  {
    WorkoutExercise(id, request.workoutId, request.exerciseId, request.series, request.reps, request.rest, request.weight)
  }

  function AfterAddExercise(t: Tables, request: AddExerciseToWorkoutRequest): Tables
  {
    t.(links := t.links + [NewLink(t.nextId, request)], nextId := t.nextId + 1)
  }

  /** The workout as `save` returns it: with the key it was written under. */
  function SavedWorkout(t: Tables, workout: Workout): Workout
  {
    workout.(id := Some(SaveKey(t.workouts.Keys, workout.id, t.nextId)))
  }

  function AfterSaveWorkout(t: Tables, workout: Workout): Tables
  {
    var k := SaveKey(t.workouts.Keys, workout.id, t.nextId);
    t.(workouts := t.workouts[k := SavedWorkout(t, workout)],
       nextId := NextIdAfterSave(t.workouts.Keys, workout.id, t.nextId))
  }

  /** `deleteByWorkoutId`, then `deleteById` on the workout table. */
  function AfterDeleteWorkout(t: Tables, id: int): Tables
  {
    t.(links := DeleteByWorkoutId(t.links, id), workouts := t.workouts - {id})
  }

  // ---------------------------------------------------------------------
  // What the operations guarantee

  /**
   * Adding a link between a stored workout and a stored exercise keeps the
   * store consistent; the one new row carries the request's parameters and
   * every earlier row stays where it was.
   */
  lemma AddExerciseKeepsConsistency(t: Tables, request: AddExerciseToWorkoutRequest)
    requires Consistent(t)
    requires request.workoutId in t.workouts && request.exerciseId in t.exercises
    ensures var t' := AfterAddExercise(t, request);
      && Consistent(t')
      && |t'.links| == |t.links| + 1
      && t'.links[..|t.links|] == t.links
      && var row := t'.links[|t.links|];
         row.id !in (set l | l in t.links :: l.id)
         && row.workoutId == request.workoutId && row.exerciseId == request.exerciseId
         && row.series == request.series && row.reps == request.reps
         && row.rest == request.rest && row.weight == request.weight
  {
    var t' := AfterAddExercise(t, request);
    var row := NewLink(t.nextId, request);
    assert t'.links[..|t.links|] == t.links;
    forall i, j | 0 <= i < j < |t'.links| ensures t'.links[i].id != t'.links[j].id {
      if j == |t.links| {
        assert t'.links[i] in t.links;
      } else {
        assert t'.links[i] == t.links[i] && t'.links[j] == t.links[j];
      }
    }
  }

  /**
   * Saving a workout keeps the store consistent and leaves the link rows
   * alone. A workout carrying a stored id replaces that row; any other is
   * stored under a fresh id. Reading the returned id yields the saved record.
   */
  lemma SaveWorkoutKeepsConsistency(t: Tables, workout: Workout)
    requires Consistent(t)
    ensures var t' := AfterSaveWorkout(t, workout);
      var saved := SavedWorkout(t, workout);
      && Consistent(t')
      && saved.id.Some? && saved.id.value in t'.workouts && t'.workouts[saved.id.value] == saved
      && (workout.id.Some? && workout.id.value in t.workouts ==> saved.id == workout.id && t'.workouts.Keys == t.workouts.Keys)
      && (!(workout.id.Some? && workout.id.value in t.workouts) ==> saved.id.value !in t.workouts)
      && t'.links == t.links && t'.exercises == t.exercises
  {
  }

  /**
   * The cascade of `deleteWorkout`: afterwards the workout is gone, no link
   * row references it, the store is consistent again, the exercise table is
   * untouched, and every other workout keeps its link rows and its details.
   */
  lemma DeleteWorkoutCascades(t: Tables, id: int)
    requires Consistent(t)
    ensures var t' := AfterDeleteWorkout(t, id);
      && Consistent(t')
      && id !in t'.workouts
      && (forall l :: l in t'.links ==> l.workoutId != id)
      && t'.exercises == t.exercises
      && forall w :: w != id ==>
           FindByWorkoutId(t'.links, w) == FindByWorkoutId(t.links, w) && Details(t', w) == Details(t, w)
  {
    var t' := AfterDeleteWorkout(t, id);
    FilterKeepsLinkIdsUnique(t.links, NotOfWorkout(id));
    forall w | w != id
      ensures FindByWorkoutId(t'.links, w) == FindByWorkoutId(t.links, w)
    {
      FilterUnderWeakerSelection(t.links, NotOfWorkout(id), OfWorkout(w));
    }
  }

  // ---------------------------------------------------------------------
  // The service operations

  /** `getWorkoutDetails`: not-found when the workout is absent; otherwise never a dangling row. */
  method GetWorkoutDetails(db: Store, workoutId: int) returns (r: Result<WorkoutDetails>)
    requires db.Valid()
    ensures r == Details(db.State(), workoutId)
    ensures r.Ok? <==> workoutId in db.workouts
    ensures r.Err? ==> r.error == WorkoutNotFound
  {
    if workoutId !in db.workouts {
      return Err(WorkoutNotFound);
    }
    var workout := db.workouts[workoutId];
    var rows := FindByWorkoutId(db.links, workoutId);
    var exercises := Flatten(rows, db.exercises);
    r := match exercises
      case Err(e) => Err(e)
      case Ok(records) => Ok(WorkoutDetails(workout, records));
  }

  /**
   * `addExerciseToWorkout`: fails when the workout or the exercise is not
   * stored, changing nothing; otherwise appends one new link row.
   */
  method AddExerciseToWorkout(db: Store, request: AddExerciseToWorkoutRequest) returns (r: Result<WorkoutExercise>)
    requires db.Valid()
    modifies db
    ensures db.Valid()
    ensures request.workoutId !in old(db.workouts) ==>
      r == Err(WorkoutNotFound) && db.State() == old(db.State())
    ensures request.workoutId in old(db.workouts) && request.exerciseId !in old(db.exercises) ==>
      r == Err(ExerciseNotFound) && db.State() == old(db.State())
    ensures request.workoutId in old(db.workouts) && request.exerciseId in old(db.exercises) ==>
      r == Ok(NewLink(old(db.nextId), request)) && db.State() == AfterAddExercise(old(db.State()), request)
  {
    if request.workoutId !in db.workouts {
      return Err(WorkoutNotFound);
    }
    if request.exerciseId !in db.exercises {
      return Err(ExerciseNotFound);
    }
    AddExerciseKeepsConsistency(db.State(), request);
    var row := NewLink(db.nextId, request);
    db.links, db.nextId := db.links + [row], db.nextId + 1;
    r := Ok(row);
  }

  /** `findAllWorkouts`: every stored workout, and nothing else. */
  method FindAllWorkouts(db: Store) returns (r: set<Workout>)
    requires db.Valid()
    ensures forall k :: k in db.workouts ==> db.workouts[k] in r
    ensures forall w :: w in r ==> w.id.Some? && w.id.value in db.workouts && db.workouts[w.id.value] == w
  {
    r := set k | k in db.workouts :: db.workouts[k];
  }

  /** The listing by owner the controller calls: the stored workouts whose owner is `userId`. */
  method FindAllWorkoutsByUser(db: Store, userId: int) returns (r: set<Workout>)
    requires db.Valid()
    ensures r == WorkoutsOwnedBy(db.workouts, userId)
    ensures forall k :: k in db.workouts && db.workouts[k].ownerUserId == Some(userId) ==> db.workouts[k] in r
    ensures forall w :: w in r ==>
      w.ownerUserId == Some(userId) && w.id.Some? && w.id.value in db.workouts && db.workouts[w.id.value] == w
  {
    r := WorkoutsOwnedBy(db.workouts, userId);
  }

  /** `findWorkoutById`: present exactly when the id is stored, and then that row. */
  method FindWorkoutById(db: Store, id: int) returns (r: Option<Workout>)
    requires db.Valid()
    ensures r.Some? <==> id in db.workouts
    ensures r.Some? ==> r.value == db.workouts[id] && r.value.id == Some(id)
  {
    r := if id in db.workouts then Some(db.workouts[id]) else None;
  }

  /** `saveWorkout`: upsert into the workout table. */
  method SaveWorkout(db: Store, workout: Workout) returns (saved: Workout)
    requires db.Valid()
    modifies db
    ensures db.Valid()
    ensures saved == SavedWorkout(old(db.State()), workout)
    ensures db.State() == AfterSaveWorkout(old(db.State()), workout)
  {
    SaveWorkoutKeepsConsistency(db.State(), workout);
    var k := SaveKey(db.workouts.Keys, workout.id, db.nextId);
    saved := workout.(id := Some(k));
    db.workouts, db.nextId := db.workouts[k := saved], NextIdAfterSave(db.workouts.Keys, workout.id, db.nextId);
  }

  /** `deleteWorkout`: first the workout's link rows, then the workout itself. */
  method DeleteWorkout(db: Store, id: int)
    requires db.Valid()
    modifies db
    ensures db.Valid()
    ensures db.State() == AfterDeleteWorkout(old(db.State()), id)
  {
    DeleteWorkoutCascades(db.State(), id);
    db.links := DeleteByWorkoutId(db.links, id);
    db.workouts := db.workouts - {id};
  }
}
