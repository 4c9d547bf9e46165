/**
 * Entity::set_active: store the entity's own flag, then run the propagation walk from
 * the entity. The walk is seeded with `true` rather than with the parent's hierarchy
 * state, so an entity under an inactive parent can end up active in the hierarchy.
 * SetActiveEffect models the code as written; SetActiveSeeded is the evidently intended
 * version, which keeps the activity invariant.
 */
module Activation {
  import opened EntityState
  import opened Propagation

  /** The arena once entity `e` stores `a` as its own activity flag. */
  function WithSelf(es: map<Id, Entity>, e: Id, a: bool): (r: map<Id, Entity>)
    requires e in es
    ensures SameStructure(es, r) && SameLinks(es, r)
    ensures r[e].activeSelf == a && r[e].activeHierarchy == es[e].activeHierarchy
    ensures forall x :: x in es && x != e ==> r[x] == es[x]
  {
    es[e := es[e].(activeSelf := a)]
  }

  lemma WithSelfKeepsForest(es: map<Id, Entity>, e: Id, a: bool, rank: map<Id, nat>)
    requires Forest(es, rank) && e in es
    ensures Forest(WithSelf(es, e, a), rank)
    ensures forall x, y :: x in es && y in es ==> (Below(WithSelf(es, e, a), rank, x, y) <==> Below(es, rank, x, y))
  {
    var es' := WithSelf(es, e, a);
    SameLinksBelow(es, es', rank);
    assert Linked(es') by {
      forall x, c | x in es' && c in es' ensures c in es'[x].children <==> es'[c].parent == Ref(x) {
        assert es'[x].children == es[x].children && es'[c].parent == es[c].parent;
      }
    }
  }

  /** set_active(a) as written: the walk from `e` is seeded with `true`. */
  ghost function SetActiveEffect(es: map<Id, Entity>, e: Id, a: bool, rank: map<Id, nat>): (r: Outcome)
    requires e in es && ChildrenRanked(es, rank)
    ensures SameStructure(es, r.entities) && HooksOnly(r.events)
    ensures r.entities[e].activeSelf == a && r.entities[e].activeHierarchy == a
    ensures forall x :: x in es && x != e && rank[x] >= rank[e] ==> r.entities[x] == es[x]
  {
    var es' := WithSelf(es, e, a);
    assert ChildrenRanked(es', rank) by {
      SameLinksBelow(es, es', rank);
    }
    PropagateFrom(es', e, true, rank)
  }

  /**
   * After set_active(a), every live child of an entity at or below `e` is active in the
   * hierarchy exactly when its parent is and it is active itself: each descendant's
   * flag is the AND of the self flags on its path from `e`.
   */
  lemma SetActiveDescendants(es: map<Id, Entity>, e: Id, a: bool, rank: map<Id, nat>)
    requires Forest(es, rank) && e in es
    ensures var r := SetActiveEffect(es, e, a, rank).entities;
      forall y, c :: y in es && c in es && Below(es, rank, e, y) && c in es[y].children ==>
        r[c].activeHierarchy == (r[y].activeHierarchy && r[c].activeSelf)
  {
    var es' := WithSelf(es, e, a);
    WithSelfKeepsForest(es, e, a, rank);
    PropagateConsistent(es', es', e, true, rank);
  }

  /**
   * The hook calls of set_active: one about each entity whose hierarchy flag changed,
   * none about any other, post_enable exactly when the flag became true, and only about
   * `e` and its descendants.
   */
  lemma SetActiveHooks(es: map<Id, Entity>, e: Id, a: bool, rank: map<Id, nat>)
    requires Forest(es, rank) && e in es
    ensures var r := SetActiveEffect(es, e, a, rank);
      && DistinctSubjects(r.events)
      && (forall x :: x in es ==>
            ((exists i :: 0 <= i < |r.events| && r.events[i].entity == x) <==>
             r.entities[x].activeHierarchy != es[x].activeHierarchy))
      && (forall i :: 0 <= i < |r.events| ==>
            && r.events[i].entity in es
            && Below(es, rank, e, r.events[i].entity)
            && (r.events[i].Enabled? <==> r.entities[r.events[i].entity].activeHierarchy))
  {
    var es' := WithSelf(es, e, a);
    WithSelfKeepsForest(es, e, a, rank);
    HooksExact(es', e, true, rank);
  }

  /** An inactive root (Id 0) with one inactive child (Id 1), both consistent. */
  function InactivePair(): map<Id, Entity> {
    map[0 := Entity("parent", true, false, false, Null, [1], [], [], Transform(0)),
        1 := Entity("child", true, false, false, Ref(0), [], [], [], Transform(0))]
  }

  function PairRank(): map<Id, nat> {
    map[0 := 1, 1 := 0]
  }

  lemma InactivePairForest()
    ensures Forest(InactivePair(), PairRank()) && HierarchyConsistent(InactivePair())
  {
    var es := InactivePair();
    assert es.Keys == {0, 1};
    assert Linked(es) by {
      forall x, y | x in es && y in es ensures y in es[x].children <==> es[y].parent == Ref(x) {
        assert x == 0 || x == 1;
        assert y == 0 || y == 1;
      }
    }
  }

  /**
   * Re-activating the child of an inactive parent with set_active(true) leaves the
   * child active in the hierarchy under a parent that is not.
   */
  lemma SetActiveIgnoresParent()
    ensures Forest(InactivePair(), PairRank()) && HierarchyConsistent(InactivePair())
    ensures var r := SetActiveEffect(InactivePair(), 1, true, PairRank()).entities;
      && r[1].activeHierarchy && r[1].parent == Ref(0) && !r[0].activeHierarchy
      && !HierarchyConsistent(r)
  {
    InactivePairForest();
    var r := SetActiveEffect(InactivePair(), 1, true, PairRank()).entities;
    assert r[0] == InactivePair()[0];
    assert !ConsistentAt(r, 1);
  }

  /** set_active as written is the walk from `e` seeded with `true` after storing the flag. */
  lemma SetActiveEffectIs(es: map<Id, Entity>, e: Id, a: bool, rank: map<Id, nat>)
    requires e in es && ChildrenRanked(es, rank)
    ensures ChildrenRanked(WithSelf(es, e, a), rank)
    ensures SetActiveEffect(es, e, a, rank) == PropagateFrom(WithSelf(es, e, a), e, true, rank)
  {
    SameLinksBelow(es, WithSelf(es, e, a), rank);
  }

  /** set_active(a) as intended: the walk is seeded with the parent's hierarchy state. */
  ghost function SetActiveSeeded(es: map<Id, Entity>, e: Id, a: bool, rank: map<Id, nat>): (r: Outcome)
    requires e in es && ChildrenRanked(es, rank)
    ensures SameStructure(es, r.entities) && HooksOnly(r.events)
    ensures r.entities[e].activeSelf == a
    ensures r.entities[e].activeHierarchy == (a && ParentActive(es, e))
  {
    var es' := WithSelf(es, e, a);
    assert ChildrenRanked(es', rank) by {
      SameLinksBelow(es, es', rank);
    }
    assert ParentActive(es', e) == ParentActive(es, e);
    PropagateFrom(es', e, ParentActive(es', e), rank)
  }

  /** The corrected set_active is the walk from `e` seeded with its parent's state. */
  lemma SetActiveSeededIs(es: map<Id, Entity>, e: Id, a: bool, rank: map<Id, nat>)
    requires e in es && ChildrenRanked(es, rank)
    ensures ChildrenRanked(WithSelf(es, e, a), rank)
    ensures SetActiveSeeded(es, e, a, rank) == PropagateFrom(WithSelf(es, e, a), e, ParentActive(WithSelf(es, e, a), e), rank)
  {
    SameLinksBelow(es, WithSelf(es, e, a), rank);
  }

  /** The seeded walk keeps the activity invariant of the whole arena. */
  lemma SetActiveSeededConsistent(es: map<Id, Entity>, e: Id, a: bool, rank: map<Id, nat>)
    requires Forest(es, rank) && e in es && HierarchyConsistent(es)
    ensures HierarchyConsistent(SetActiveSeeded(es, e, a, rank).entities)
  {
    var es' := WithSelf(es, e, a);
    WithSelfKeepsForest(es, e, a, rank);
    forall x | x in es' && !Below(es', rank, e, x) ensures ConsistentAt(es', x) {
      assert ConsistentAt(es, x);
      var q := es[x].parent;
      if IsValid(es, q) && q.id == e {
        assert x in es[e].children;
        assert Below(es', rank, e, x);
      }
    }
    PropagationRestores(es', e, rank);
  }

  /** For an entity without a valid parent the two seeds coincide. */
  lemma SetActiveSeededAtRoot(es: map<Id, Entity>, e: Id, a: bool, rank: map<Id, nat>)
    requires e in es && ChildrenRanked(es, rank) && !IsValid(es, es[e].parent)
    ensures SetActiveSeeded(es, e, a, rank) == SetActiveEffect(es, e, a, rank)
  {
  }
}
