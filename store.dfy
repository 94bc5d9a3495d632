/**
 * The relational store behind the repositories, as one object holding a
 * table per entity, the exercise-muscle join table and the id sequence.
 *
 * Ids come from one counter shared by all tables, as a single generated
 * sequence does. `Consistent` is the store's invariant; its central part is
 * referential integrity: every link row names a stored workout and a
 * stored exercise, and every pair of the exercise-muscle relation names a
 * stored exercise and a stored muscle.
 */
module Persistence {
  import opened Entities
  import opened Repository

  /** A snapshot of every table of the store. */
  datatype Tables = Tables(
    workouts: map<int, Workout>,
    exercises: map<int, ExerciseRow>,
    muscles: map<int, Muscle>,
    links: seq<WorkoutExercise>,
    users: map<int, User>,
    exerciseMuscles: set<(int, int)>,
    nextId: int)

  /** Every link row references a stored workout and a stored exercise. */
  ghost predicate ReferentialIntegrity(links: seq<WorkoutExercise>, workoutIds: set<int>, exerciseIds: set<int>)
  {
    forall l :: l in links ==> l.workoutId in workoutIds && l.exerciseId in exerciseIds
  }

  /** Some stored user already has this username (`findByUsername(...).isPresent()`). */
  predicate UsernameTaken(users: map<int, User>, username: string)
  {
    exists k :: k in users && users[k].username == username
  }

  /** No two stored users share a username. */
  ghost predicate UsernamesUnique(users: map<int, User>)
  {
    forall j, k :: j in users && k in users && users[j].username == users[k].username ==> j == k
  }

  /** The invariant every store operation keeps. */
  ghost predicate Consistent(t: Tables)
  {
    && (forall k :: k in t.workouts ==> t.workouts[k].id == Some(k) && k < t.nextId)
    && (forall k :: k in t.exercises ==> k < t.nextId)
    && (forall k :: k in t.muscles ==> t.muscles[k].id == Some(k) && k < t.nextId)
    && (forall k :: k in t.users ==> t.users[k].id == Some(k) && k < t.nextId)
    && (forall l :: l in t.links ==> l.id < t.nextId)
    && LinkIdsUnique(t.links)
    && ReferentialIntegrity(t.links, t.workouts.Keys, t.exercises.Keys)
    && (forall p :: p in t.exerciseMuscles ==> p.0 in t.exercises && p.1 in t.muscles)
    && UsernamesUnique(t.users)
  }

  class Store {
    var workouts: map<int, Workout>
    var exercises: map<int, ExerciseRow>
    var muscles: map<int, Muscle>
    var links: seq<WorkoutExercise>
    var users: map<int, User>
    var exerciseMuscles: set<(int, int)>
    var nextId: int

    function State(): Tables
      reads this
    {
      Tables(workouts, exercises, muscles, links, users, exerciseMuscles, nextId)
    }

    ghost predicate Valid()
      reads this
    {
      Consistent(State())
    }

    /** An empty store whose id sequence starts at 1. */
    constructor ()
      ensures Valid()
      ensures State() == Tables(map[], map[], map[], [], map[], {}, 1)
    {
      workouts, exercises, muscles := map[], map[], map[];
      links, users, exerciseMuscles := [], map[], {};
      nextId := 1;
    }
  }
}
