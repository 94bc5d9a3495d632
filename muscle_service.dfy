/**
 * The muscle service: the muscle table's finders, save and delete, and the
 * join query that lists the muscles of one exercise.
 */
module MuscleService {
  import opened Entities
  import opened Repository
  import opened Persistence

  /** The muscle as `save` returns it: with the key it was written under. */
  function SavedMuscle(t: Tables, muscle: Muscle): Muscle
  {
    muscle.(id := Some(SaveKey(t.muscles.Keys, muscle.id, t.nextId)))
  }

  function AfterSaveMuscle(t: Tables, muscle: Muscle): Tables
  {
    var k := SaveKey(t.muscles.Keys, muscle.id, t.nextId);
    t.(muscles := t.muscles[k := SavedMuscle(t, muscle)],
       nextId := NextIdAfterSave(t.muscles.Keys, muscle.id, t.nextId))
  }

  /**
   * Some exercise is related to the muscle. The relation's foreign key on the
   * muscle then makes the database refuse to delete the muscle row.
   */
  predicate MuscleInUse(t: Tables, id: int)
  {
    exists p :: p in t.exerciseMuscles && p.1 == id
  }

  /** `deleteById` on the muscle table: only the muscle row goes. */
  function AfterDeleteMuscle(t: Tables, id: int): Tables
  {
    t.(muscles := t.muscles - {id})
  }

  /**
   * The muscles of one exercise: the stored muscles whose relation pairs
   * name that exercise. A pair counts only if its muscle is stored.
   */
  function MusclesOfExercise(t: Tables, exerciseId: int): set<Muscle>
  {
    set k | k in t.muscles && (exerciseId, k) in t.exerciseMuscles :: t.muscles[k]
  }

  /**
   * Saving a muscle keeps the store consistent; reading the returned id back
   * yields the saved muscle, and no other table changes.
   */
  lemma SaveMuscleRoundTrip(t: Tables, muscle: Muscle)
    requires Consistent(t)
    ensures var t' := AfterSaveMuscle(t, muscle);
      var saved := SavedMuscle(t, muscle);
      && Consistent(t')
      && saved.id.Some? && saved.id.value in t'.muscles && t'.muscles[saved.id.value] == saved
      && (muscle.id.Some? && muscle.id.value in t.muscles ==> saved.id == muscle.id)
      && (!(muscle.id.Some? && muscle.id.value in t.muscles) ==> saved.id.value !in t.muscles)
      && t'.exercises == t.exercises && t'.exerciseMuscles == t.exerciseMuscles && t'.links == t.links
  {
  }

  /**
   * Removing a muscle row keeps the store consistent exactly when no exercise
   * is related to the muscle. When it does, only that row goes: the other
   * muscles, exercises, links and workouts stay, and no exercise lists the
   * muscle afterwards.
   */
  lemma DeleteMuscleRemovesRowOnly(t: Tables, id: int)
    requires Consistent(t)
    ensures Consistent(AfterDeleteMuscle(t, id)) <==> !MuscleInUse(t, id)
    ensures var t' := AfterDeleteMuscle(t, id);
      && id !in t'.muscles
      && (forall k :: k in t.muscles && k != id ==> k in t'.muscles && t'.muscles[k] == t.muscles[k])
      && (!MuscleInUse(t, id) ==> forall e :: id !in MuscleIdsOf(t'.exerciseMuscles, e))
      && t'.exercises == t.exercises && t'.exerciseMuscles == t.exerciseMuscles
      && t'.links == t.links && t'.workouts == t.workouts
  {
    var t' := AfterDeleteMuscle(t, id);
    if MuscleInUse(t, id) {
      var p :| p in t.exerciseMuscles && p.1 == id;
      assert p in t'.exerciseMuscles && p.1 !in t'.muscles;
    }
  }

  /** `findAllMuscles`: every stored muscle, and nothing else. */
  method FindAllMuscles(db: Store) returns (r: set<Muscle>)
    requires db.Valid()
    ensures forall k :: k in db.muscles ==> db.muscles[k] in r
    ensures forall m :: m in r ==> m.id.Some? && m.id.value in db.muscles && db.muscles[m.id.value] == m
  {
    r := set k | k in db.muscles :: db.muscles[k];
  }

  /** `findMuscleById`: present exactly when the id is stored, and then that row. */
  method FindMuscleById(db: Store, id: int) returns (r: Option<Muscle>)
    requires db.Valid()
    ensures r.Some? <==> id in db.muscles
    ensures r.Some? ==> r.value == db.muscles[id] && r.value.id == Some(id)
  {
    r := if id in db.muscles then Some(db.muscles[id]) else None;
  }

  /** `saveMuscle`: upsert into the muscle table. */
  method SaveMuscle(db: Store, muscle: Muscle) returns (saved: Muscle)
    requires db.Valid()
    modifies db
    ensures db.Valid()
    ensures saved == SavedMuscle(old(db.State()), muscle)
    ensures db.State() == AfterSaveMuscle(old(db.State()), muscle)
  {
    SaveMuscleRoundTrip(db.State(), muscle);
    var k := SaveKey(db.muscles.Keys, muscle.id, db.nextId);
    saved := muscle.(id := Some(k));
    db.muscles, db.nextId := db.muscles[k := saved], NextIdAfterSave(db.muscles.Keys, muscle.id, db.nextId);
  }

  /**
   * `deleteMuscle`: the database refuses to delete a muscle that an exercise
   * is related to, and nothing changes. Otherwise the muscle row goes.
   */
  method DeleteMuscle(db: Store, id: int) returns (r: Result<()>)
    requires db.Valid()
    modifies db
    ensures db.Valid()
    ensures r.Err? <==> MuscleInUse(old(db.State()), id)
    ensures r.Err? ==> r.error == ConstraintViolation && db.State() == old(db.State())
    ensures r.Ok? ==> db.State() == AfterDeleteMuscle(old(db.State()), id)
  {
    DeleteMuscleRemovesRowOnly(db.State(), id);
    if MuscleInUse(db.State(), id) {
      return Err(ConstraintViolation);
    }
    db.muscles := db.muscles - {id};
    r := Ok(());
  }

  /**
   * `findMusclesByExerciseId`: exactly the stored muscles related to the
   * exercise; an exercise with no related muscle, stored or not, gives the
   * empty result rather than an error.
   */
  method FindMusclesByExerciseId(db: Store, exerciseId: int) returns (r: set<Muscle>)
    requires db.Valid()
    ensures forall k :: k in db.muscles ==> (db.muscles[k] in r <==> (exerciseId, k) in db.exerciseMuscles)
    ensures forall m :: m in r ==> m.id.Some? && m.id.value in db.muscles && db.muscles[m.id.value] == m
    ensures MuscleIdsOf(db.exerciseMuscles, exerciseId) == {} ==> r == {}
    ensures exerciseId !in db.exercises ==> r == {}
    ensures forall k :: k in MuscleIdsOf(db.exerciseMuscles, exerciseId) ==> k in db.muscles && db.muscles[k] in r
  {
    r := MusclesOfExercise(db.State(), exerciseId);
    assert forall m :: m in r ==> m.id.value in MuscleIdsOf(db.exerciseMuscles, exerciseId);
  }
}
