/**
 * The repository queries the services rely on, stated on table values.
 *
 * The link table is a sequence: the order of a query's result is the
 * order in which the sequence holds the rows, and nothing here says how the
 * store orders them. The derived queries `findByWorkoutId`,
 * `deleteByWorkoutId`, `deleteByExerciseId` and `deleteById` all select
 * rows, so each is `Filter` with a named selection predicate.
 */
module Repository {
  import opened Entities

  /** The elements of `s` that satisfy `keep`, in the order `s` holds them. */
  function Filter(s: seq<WorkoutExercise>, keep: WorkoutExercise -> bool): (r: seq<WorkoutExercise>)
    ensures |r| <= |s|
    ensures forall x :: x in r <==> x in s && keep(x)
  {
    if s == [] then []
    else (if keep(s[0]) then [s[0]] else []) + Filter(s[1..], keep)
  }

  lemma {:induction false} FilterAppend(a: seq<WorkoutExercise>, b: seq<WorkoutExercise>, keep: WorkoutExercise -> bool)
    ensures Filter(a + b, keep) == Filter(a, keep) + Filter(b, keep)
  {
    if a == [] {
      assert a + b == b;
    } else {
      assert (a + b)[0] == a[0];
      assert (a + b)[1..] == a[1..] + b;
      FilterAppend(a[1..], b, keep);
    }
  }

  /**
   * Each selected element occurs in the result exactly as often as in `s`,
   * and no other element occurs; with `FilterAppend`, which keeps the order
   * of any split of `s`, this pins the result down completely.
   */
  lemma {:induction false} FilterMultiset(s: seq<WorkoutExercise>, keep: WorkoutExercise -> bool)
    ensures forall x :: multiset(Filter(s, keep))[x] == if keep(x) then multiset(s)[x] else 0
  {
    if s != [] {
      FilterMultiset(s[1..], keep);
      assert s == [s[0]] + s[1..];
    }
  }

  /** Filtering keeps a sequence whose every element is selected. */
  lemma {:induction false} FilterKeepsAll(s: seq<WorkoutExercise>, keep: WorkoutExercise -> bool)
    requires forall k :: 0 <= k < |s| ==> keep(s[k])
    ensures Filter(s, keep) == s
  {
    if s != [] {
      assert keep(s[0]);
      FilterKeepsAll(s[1..], keep);
      assert [s[0]] + s[1..] == s;
    }
  }

  /** Two selections applied one after the other give the same rows in either order. */
  lemma {:induction false} FilterCommute(s: seq<WorkoutExercise>, p: WorkoutExercise -> bool, q: WorkoutExercise -> bool)
    ensures Filter(Filter(s, p), q) == Filter(Filter(s, q), p)
  {
    if s != [] {
      FilterCommute(s[1..], p, q);
      var h := if p(s[0]) then [s[0]] else [];
      var k := if q(s[0]) then [s[0]] else [];
      FilterAppend(h, Filter(s[1..], p), q);
      FilterAppend(k, Filter(s[1..], q), p);
      if p(s[0]) { assert Filter(h, q) == k by { assert h[1..] == []; } }
      else { assert Filter(h, q) == []; }
      if q(s[0]) { assert Filter(k, p) == h by { assert k[1..] == []; } }
      else { assert Filter(k, p) == []; }
    }
  }

  /**
   * A selection that every row kept by `q` passes anyway leaves the result of
   * `q` alone: removing rows `q` never keeps does not change what `q` finds.
   */
  lemma {:induction false} FilterUnderWeakerSelection(s: seq<WorkoutExercise>, p: WorkoutExercise -> bool, q: WorkoutExercise -> bool)
    requires forall x :: x in s && q(x) ==> p(x)
    ensures Filter(Filter(s, p), q) == Filter(s, q)
  {
    FilterCommute(s, p, q);
    var found := Filter(s, q);
    assert forall k :: 0 <= k < |found| ==> found[k] in found;
    FilterKeepsAll(found, p);
  }

  // Selection predicates on link rows, one per derived query.

  function OfWorkout(workoutId: int): WorkoutExercise -> bool { (l: WorkoutExercise) => l.workoutId == workoutId }
  function NotOfWorkout(workoutId: int): WorkoutExercise -> bool { (l: WorkoutExercise) => l.workoutId != workoutId }
  function NotOfExercise(exerciseId: int): WorkoutExercise -> bool { (l: WorkoutExercise) => l.exerciseId != exerciseId }
  function NotWithId(id: int): WorkoutExercise -> bool { (l: WorkoutExercise) => l.id != id }

  /** `findByWorkoutId`: the link rows of one workout. */
  function FindByWorkoutId(links: seq<WorkoutExercise>, workoutId: int): (r: seq<WorkoutExercise>)
    ensures |r| <= |links|
    ensures forall l :: l in r <==> l in links && l.workoutId == workoutId
    ensures forall l :: multiset(r)[l] == if l.workoutId == workoutId then multiset(links)[l] else 0
  {
    FilterMultiset(links, OfWorkout(workoutId));
    Filter(links, OfWorkout(workoutId))
  }

  /** `deleteByWorkoutId`: the link table without the rows of one workout. */
  function DeleteByWorkoutId(links: seq<WorkoutExercise>, workoutId: int): (r: seq<WorkoutExercise>)
    ensures |r| <= |links|
    ensures forall l :: l in r <==> l in links && l.workoutId != workoutId
  {
    Filter(links, NotOfWorkout(workoutId))
  }

  /** `deleteByExerciseId`: the link table without the rows of one exercise. */
  function DeleteByExerciseId(links: seq<WorkoutExercise>, exerciseId: int): (r: seq<WorkoutExercise>)
    ensures |r| <= |links|
    ensures forall l :: l in r <==> l in links && l.exerciseId != exerciseId
  {
    Filter(links, NotOfExercise(exerciseId))
  }

  /** `deleteById` on the link table: nothing happens when no row has that id. */
  function DeleteLinkById(links: seq<WorkoutExercise>, id: int): seq<WorkoutExercise>
  {
    Filter(links, NotWithId(id))
  }

  /** No two link rows share an id. */
  ghost predicate LinkIdsUnique(links: seq<WorkoutExercise>)
  {
    forall i, j :: 0 <= i < j < |links| ==> links[i].id != links[j].id
  }

  lemma {:induction false} FilterKeepsLinkIdsUnique(links: seq<WorkoutExercise>, keep: WorkoutExercise -> bool)
    requires LinkIdsUnique(links)
    ensures LinkIdsUnique(Filter(links, keep))
  {
    if links != [] {
      var rest := links[1..];
      assert LinkIdsUnique(rest) by {
        forall i, j | 0 <= i < j < |rest| ensures rest[i].id != rest[j].id {
          assert rest[i] == links[i + 1] && rest[j] == links[j + 1];
        }
      }
      FilterKeepsLinkIdsUnique(rest, keep);
      var tail := Filter(rest, keep);
      forall l | l in tail ensures l.id != links[0].id {
        var j :| 0 <= j < |rest| && rest[j] == l;
        assert links[j + 1] == l;
      }
    }
  }

  /** The rows after the first keep unique ids, none of them the first row's id. */
  lemma LinkIdsUniqueTail(links: seq<WorkoutExercise>)
    requires LinkIdsUnique(links) && links != []
    ensures LinkIdsUnique(links[1..])
    ensures forall k :: 0 <= k < |links[1..]| ==> links[1..][k].id != links[0].id
  {
    var rest := links[1..];
    forall j, k | 0 <= j < k < |rest| ensures rest[j].id != rest[k].id {
      assert rest[j] == links[j + 1] && rest[k] == links[k + 1];
    }
    forall k | 0 <= k < |rest| ensures rest[k].id != links[0].id {
      assert rest[k] == links[k + 1];
    }
  }

  /** Rows with unique ids are distinct, so there are as many rows as different rows. */
  lemma {:induction false} LinkIdsUniqueCount(links: seq<WorkoutExercise>)
    requires LinkIdsUnique(links)
    ensures |set l | l in links| == |links|
  {
    if links != [] {
      LinkIdsUniqueTail(links);
      LinkIdsUniqueCount(links[1..]);
      assert links[0] !in links[1..];
      assert (set l | l in links) == {links[0]} + (set l | l in links[1..]);
    }
  }

  /**
   * With unique link ids, `findByWorkoutId` returns one row for each
   * different link row of the workout: N rows of a workout give N results.
   */
  lemma FindByWorkoutIdCount(links: seq<WorkoutExercise>, workoutId: int)
    requires LinkIdsUnique(links)
    ensures |FindByWorkoutId(links, workoutId)| == |set l | l in links && l.workoutId == workoutId|
  {
    var rows := FindByWorkoutId(links, workoutId);
    FilterKeepsLinkIdsUnique(links, OfWorkout(workoutId));
    LinkIdsUniqueCount(rows);
    assert (set l | l in rows) == (set l | l in links && l.workoutId == workoutId);
  }

  /**
   * Deleting the link row at index `i` by its id removes exactly that row:
   * the rows before and after it stay, with their content and their order.
   */
  lemma {:induction false} DeleteLinkByIdRemovesOneRow(links: seq<WorkoutExercise>, i: int)
    requires LinkIdsUnique(links)
    requires 0 <= i < |links|
    ensures DeleteLinkById(links, links[i].id) == links[..i] + links[i + 1..]
  {
    var id, rest := links[i].id, links[1..];
    LinkIdsUniqueTail(links);
    if i == 0 {
      FilterKeepsAll(rest, NotWithId(id));
    } else {
      assert rest[i - 1] == links[i];
      DeleteLinkByIdRemovesOneRow(rest, i - 1);
      assert links[..i] + links[i + 1..] == [links[0]] + (rest[..i - 1] + rest[i..]);
    }
  }

  /** Deleting a link id that no row carries leaves the link table as it is. */
  lemma {:induction false} DeleteAbsentLinkIsNoOp(links: seq<WorkoutExercise>, id: int)
    requires forall k :: 0 <= k < |links| ==> links[k].id != id
    ensures DeleteLinkById(links, id) == links
  {
    FilterKeepsAll(links, NotWithId(id));
  }

  // The exercise-muscle relation, kept as (exercise id, muscle id) pairs.

  /** The muscle ids related to one exercise. */
  function MuscleIdsOf(relation: set<(int, int)>, exerciseId: int): set<int>
  {
    set p | p in relation && p.0 == exerciseId :: p.1
  }

  /** The relation without the pairs of one exercise. */
  function WithoutExercise(relation: set<(int, int)>, exerciseId: int): set<(int, int)>
  {
    set p | p in relation && p.0 != exerciseId
  }

  /** The relation after saving an exercise whose muscle set is `muscles`. */
  function WithMuscles(relation: set<(int, int)>, exerciseId: int, muscles: set<int>): set<(int, int)>
  {
    WithoutExercise(relation, exerciseId) + set m | m in muscles :: (exerciseId, m)
  }

  /** Saving a muscle set and reading it back gives that set; other exercises keep theirs. */
  lemma MuscleIdsOfWithMuscles(relation: set<(int, int)>, exerciseId: int, muscles: set<int>, other: int)
    ensures MuscleIdsOf(WithMuscles(relation, exerciseId, muscles), exerciseId) == muscles
    ensures other != exerciseId ==>
      MuscleIdsOf(WithMuscles(relation, exerciseId, muscles), other) == MuscleIdsOf(relation, other)
  {
    var r := WithMuscles(relation, exerciseId, muscles);
    forall m | m in muscles ensures m in MuscleIdsOf(r, exerciseId) {
      assert (exerciseId, m) in r;
    }
    if other != exerciseId {
      forall m | m in MuscleIdsOf(relation, other) ensures m in MuscleIdsOf(r, other) {
        assert (other, m) in relation;
        assert (other, m) in r;
      }
    }
  }

  /** Saving back the muscle set an exercise was read with leaves the relation as it was. */
  lemma WithMusclesOfItself(relation: set<(int, int)>, exerciseId: int)
    ensures WithMuscles(relation, exerciseId, MuscleIdsOf(relation, exerciseId)) == relation
  {
    var r := WithMuscles(relation, exerciseId, MuscleIdsOf(relation, exerciseId));
    forall p | p in relation ensures p in r {
      if p.0 == exerciseId {
        var m := p.1;
        assert m in MuscleIdsOf(relation, exerciseId);
        assert p == (exerciseId, m);
      } else {
        assert p in WithoutExercise(relation, exerciseId);
      }
    }
  }

  /**
   * The key `save` writes to: an entity that carries a stored id overwrites
   * that row; any other entity is inserted under the next fresh id.
   */
  function SaveKey(keys: set<int>, id: Option<int>, nextId: int): (k: int)
    ensures id.Some? && id.value in keys ==> k == id.value
    ensures (forall j :: j in keys ==> j < nextId) ==> (k in keys <==> id.Some? && id.value in keys)
    ensures (forall j :: j in keys ==> j < nextId) && k !in keys ==> k == nextId
  {
    if id.Some? && id.value in keys then id.value else nextId
  }

  /**
   * The id counter after a `save`: it moves past the key exactly when the
   * save inserted, so the next insert again gets a key no row uses.
   */
  function NextIdAfterSave(keys: set<int>, id: Option<int>, nextId: int): (n: int)
    ensures n >= nextId
    ensures (forall j :: j in keys ==> j < nextId) ==>
      && (n == nextId <==> SaveKey(keys, id, nextId) in keys)
      && SaveKey(keys, id, nextId) < n
  {
    if id.Some? && id.value in keys then nextId else nextId + 1
  }
}
