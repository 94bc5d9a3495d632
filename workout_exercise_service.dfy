/** The link-row service: removing one exercise entry from a workout. */
module WorkoutExerciseService {
  import opened Entities
  import opened Repository
  import opened Persistence

  /** `deleteById` on the link table. */
  function AfterDeleteLink(t: Tables, id: int): Tables
  {
    t.(links := DeleteLinkById(t.links, id))
  }

  /**
   * Removing a link row by id keeps the store consistent and removes exactly
   * that row: the other rows keep their content and their relative order,
   * and an id no row carries changes nothing. No other table changes.
   */
  lemma DeleteLinkRemovesOneRow(t: Tables, id: int)
    requires Consistent(t)
    ensures var t' := AfterDeleteLink(t, id);
      && Consistent(t')
      && (forall l :: l in t'.links ==> l.id != id)
      && (forall i :: 0 <= i < |t.links| && t.links[i].id == id ==> t'.links == t.links[..i] + t.links[i + 1..])
      && ((forall l :: l in t.links ==> l.id != id) ==> t'.links == t.links)
      && t'.workouts == t.workouts && t'.exercises == t.exercises && t'.muscles == t.muscles
  {
    FilterKeepsLinkIdsUnique(t.links, NotWithId(id));
    forall i | 0 <= i < |t.links| && t.links[i].id == id
      ensures DeleteLinkById(t.links, id) == t.links[..i] + t.links[i + 1..]
    {
      DeleteLinkByIdRemovesOneRow(t.links, i);
    }
    if forall l :: l in t.links ==> l.id != id {
      assert forall k :: 0 <= k < |t.links| ==> t.links[k] in t.links;
      DeleteAbsentLinkIsNoOp(t.links, id);
    }
  }

  /** `deleteExerciseFromWorkout`: removes the link row with that id, if any. */
  method DeleteExerciseFromWorkout(db: Store, id: int)
    requires db.Valid()
    modifies db
    ensures db.Valid()
    ensures db.State() == AfterDeleteLink(old(db.State()), id)
  {
    DeleteLinkRemovesOneRow(db.State(), id);
    db.links := DeleteLinkById(db.links, id);
  }
}
