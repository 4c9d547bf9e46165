/**
 * Re-parenting (Entity::set_parent) and pruning of dead child handles
 * (Entity::cleanup_killed_children).
 *
 * set_parent detaches the entity from its old parent's children list, stores the new
 * parent handle, appends the entity to the new parent's list, recomputes the entity's
 * own hierarchy flag and fires at most one hook. It does not walk the entity's
 * descendants, so their flags can go stale: SetParentEffect models the code as
 * written, SetParentPropagated the evidently intended version that walks the subtree.
 */
module Parenting {
  import opened EntityState
  import opened Propagation

  /** `r` is `s` with some elements dropped and the others kept in their order. */
  predicate SubseqOf(r: seq<Id>, s: seq<Id>)
    decreases |s|
  {
    if r == [] then true
    else if s == [] then false
    else if r[0] == s[0] then SubseqOf(r[1..], s[1..])
    else SubseqOf(r, s[1..])
  }

  lemma NoDupPrepend(a: Id, t: seq<Id>)
    ensures NoDup(t) && a !in t ==> NoDup([a] + t)
  {
    if NoDup(t) && a !in t {
      NoDupPrependAt(a, t);
    }
  }

  lemma NoDupPrependAt(a: Id, t: seq<Id>)
    requires NoDup(t) && a !in t
    ensures NoDup([a] + t)
  {
    forall i, j | 0 <= i < j < |[a] + t| ensures ([a] + t)[i] != ([a] + t)[j] {
      assert ([a] + t)[j] == t[j - 1];
      if i > 0 {
        assert ([a] + t)[i] == t[i - 1];
      }
    }
  }

  lemma NoDupRest(s: seq<Id>)
    requires s != []
    ensures NoDup(s) ==> NoDup(s[1..]) && s[0] !in s[1..]
  {
    if NoDup(s) {
      NoDupRestAt(s);
    }
  }

  lemma NoDupRestAt(s: seq<Id>)
    requires NoDup(s) && s != []
    ensures NoDup(s[1..]) && s[0] !in s[1..]
  {
    forall i, j | 0 <= i < j < |s[1..]| ensures s[1..][i] != s[1..][j] {
      assert s[1..][i] == s[i + 1] && s[1..][j] == s[j + 1];
    }
    forall j | 0 <= j < |s[1..]| ensures s[1..][j] != s[0] {
      assert s[1..][j] == s[j + 1];
    }
  }

  /** The list without the entries equal to `x`. */
  function Without(s: seq<Id>, x: Id): (r: seq<Id>)
    ensures forall y :: y in r <==> y in s && y != x
    ensures multiset(r) == multiset(s)[x := 0]
    ensures SubseqOf(r, s)
    ensures NoDup(s) ==> NoDup(r)
    ensures x !in s ==> r == s
  {
    if s == [] then []
    else
      assert s == [s[0]] + s[1..];
      var rest := Without(s[1..], x);
      NoDupRest(s);
      if s[0] == x then rest
      else
        NoDupPrepend(s[0], rest);
        [s[0]] + rest
  }

  /** The handles of `kids` that are still valid, in their original order. */
  function KeepLive(kids: seq<Id>, es: map<Id, Entity>): (r: seq<Id>)
    ensures forall y :: y in r <==> y in kids && y in es
    ensures forall y :: multiset(r)[y] == if y in es then multiset(kids)[y] else 0
    ensures SubseqOf(r, kids)
    ensures NoDup(kids) ==> NoDup(r)
  {
    if kids == [] then []
    else
      assert kids == [kids[0]] + kids[1..];
      var rest := KeepLive(kids[1..], es);
      NoDupRest(kids);
      if kids[0] in es then
        NoDupPrepend(kids[0], rest);
        [kids[0]] + rest
      else rest
  }

  /** A list holding only valid handles is left as it is. */
  lemma {:induction false} KeepLiveAllLive(kids: seq<Id>, es: map<Id, Entity>)
    requires forall k :: k in kids ==> k in es
    ensures KeepLive(kids, es) == kids
  {
    if kids != [] {
      KeepLiveAllLive(kids[1..], es);
    }
  }

  /** Pruning twice prunes no more than pruning once. */
  lemma KeepLiveIdempotent(kids: seq<Id>, es: map<Id, Entity>)
    ensures KeepLive(KeepLive(kids, es), es) == KeepLive(kids, es)
  {
    KeepLiveAllLive(KeepLive(kids, es), es);
  }

  /** cleanup_killed_children on entity `e`: only its children list changes. */
  function CleanupChildren(es: map<Id, Entity>, e: Id): (r: map<Id, Entity>)
    requires e in es
    ensures r.Keys == es.Keys
    ensures r[e] == es[e].(children := KeepLive(es[e].children, es))
    ensures forall x :: x in es && x != e ==> r[x] == es[x]
  {
    es[e := es[e].(children := KeepLive(es[e].children, es))]
  }

  /** Pruning dead handles keeps the links agreeing both ways, without repeats. */
  lemma CleanupKeepsLinks(es: map<Id, Entity>, e: Id)
    requires e in es && Linked(es) && NoDupChildren(es)
    ensures Linked(CleanupChildren(es, e)) && NoDupChildren(CleanupChildren(es, e))
  {
    var r := CleanupChildren(es, e);
    forall x, c | x in r && c in r ensures c in r[x].children <==> r[c].parent == Ref(x) {
      assert c in r[x].children <==> c in es[x].children;
    }
  }

  /**
   * The arena once `e` left the children list of its old parent, when that parent is
   * still valid; leaving sets the hierarchy flag to the own flag.
   */
  function Detached(es: map<Id, Entity>, e: Id): (r: map<Id, Entity>)
    requires e in es
    ensures r.Keys == es.Keys
    ensures forall x :: x in es ==> r[x] == es[x].(
      children := if IsValid(es, es[e].parent) && x == es[e].parent.id then Without(es[x].children, e) else es[x].children,
      activeHierarchy := if IsValid(es, es[e].parent) && x == e then es[x].activeSelf else es[x].activeHierarchy)
  {
    var q := es[e].parent;
    if IsValid(es, q) then
      var t := es[q.id := es[q.id].(children := Without(es[q.id].children, e))];
      t[e := t[e].(activeHierarchy := t[e].activeSelf)]
    else es
  }

  /**
   * The arena once `e` joined the children list of its new parent `p`, when `p` is
   * valid; joining sets the hierarchy flag to the own flag AND the parent's.
   */
  function Attached(es: map<Id, Entity>, e: Id, p: Handle): (r: map<Id, Entity>)
    requires e in es
    ensures r.Keys == es.Keys
    ensures forall x :: x in es ==> r[x] == es[x].(
      children := if IsValid(es, p) && x == p.id then es[x].children + [e] else es[x].children,
      activeHierarchy := if IsValid(es, p) && x == e then es[e].activeSelf && es[p.id].activeHierarchy else es[x].activeHierarchy)
  {
    if IsValid(es, p) then
      var t := es[p.id := es[p.id].(children := es[p.id].children + [e])];
      t[e := t[e].(activeHierarchy := t[e].activeSelf && t[p.id].activeHierarchy)]
    else es
  }

  /** The children list of `x` once `e` moved from its current parent to `p`. */
  function ChildrenAfterMove(es: map<Id, Entity>, e: Id, p: Handle, x: Id): seq<Id>
    requires e in es && x in es
  {
    if IsValid(es, es[e].parent) && x == es[e].parent.id then Without(es[x].children, e)
    else if IsValid(es, p) && x == p.id then es[x].children + [e]
    else es[x].children
  }

  /**
   * The hierarchy flag of `e` once it moved to `p`: the code first sets it to the own
   * flag when leaving a valid parent, then to the own flag AND the new parent's flag
   * when joining a valid one (read after the first step, which matters only when `e`
   * is made its own parent).
   */
  function FlagAfterMove(es: map<Id, Entity>, e: Id, p: Handle): bool
    requires e in es
  {
    var left := if IsValid(es, es[e].parent) then es[e].activeSelf else es[e].activeHierarchy;
    if IsValid(es, p) then es[e].activeSelf && (if p.id == e then left else es[p.id].activeHierarchy)
    else left
  }

  /** The three steps of set_parent after the early return, one after the other. */
  function Moved(es: map<Id, Entity>, e: Id, p: Handle): (r: map<Id, Entity>)
    requires e in es && p != es[e].parent
    ensures r.Keys == es.Keys
    ensures forall x :: x in es ==> r[x] == es[x].(
      parent := if x == e then p else es[x].parent,
      children := ChildrenAfterMove(es, e, p, x),
      activeHierarchy := if x == e then FlagAfterMove(es, e, p) else es[x].activeHierarchy)
  {
    var es1 := Detached(es, e);
    var es2 := es1[e := es1[e].(parent := p)];
    MovedSteps(es, e, p, es1, es2);
    Attached(es2, e, p)
  }

  lemma MovedSteps(es: map<Id, Entity>, e: Id, p: Handle, es1: map<Id, Entity>, es2: map<Id, Entity>)
    requires e in es && p != es[e].parent
    requires es1 == Detached(es, e) && es2 == es1[e := es1[e].(parent := p)]
    ensures forall x :: x in es ==> Attached(es2, e, p)[x] == es[x].(
      parent := if x == e then p else es[x].parent,
      children := ChildrenAfterMove(es, e, p, x),
      activeHierarchy := if x == e then FlagAfterMove(es, e, p) else es[x].activeHierarchy)
  {
    forall x | x in es
      ensures Attached(es2, e, p)[x] == es[x].(
        parent := if x == e then p else es[x].parent,
        children := ChildrenAfterMove(es, e, p, x),
        activeHierarchy := if x == e then FlagAfterMove(es, e, p) else es[x].activeHierarchy)
    {
      MovedStepsAt(es, e, p, es1, es2, x);
    }
  }

  lemma MovedStepsAt(es: map<Id, Entity>, e: Id, p: Handle, es1: map<Id, Entity>, es2: map<Id, Entity>, x: Id)
    requires e in es && x in es && p != es[e].parent
    requires es1 == Detached(es, e) && es2 == es1[e := es1[e].(parent := p)]
    ensures Attached(es2, e, p)[x] == es[x].(
      parent := if x == e then p else es[x].parent,
      children := ChildrenAfterMove(es, e, p, x),
      activeHierarchy := if x == e then FlagAfterMove(es, e, p) else es[x].activeHierarchy)
  {
    if x == e {
      MovedSelf(es, e, p, es1, es2);
    } else {
      MovedOther(es, e, p, es1, es2, x);
    }
  }

  lemma MovedSelf(es: map<Id, Entity>, e: Id, p: Handle, es1: map<Id, Entity>, es2: map<Id, Entity>)
    requires e in es && p != es[e].parent
    requires es1 == Detached(es, e) && es2 == es1[e := es1[e].(parent := p)]
    ensures Attached(es2, e, p)[e] == es[e].(parent := p, children := ChildrenAfterMove(es, e, p, e),
                                             activeHierarchy := FlagAfterMove(es, e, p))
  {
    assert IsValid(es2, p) == IsValid(es, p);
    if IsValid(es, p) && p.id != e {
      assert es2[p.id] == es1[p.id];
    }
  }

  lemma MovedOther(es: map<Id, Entity>, e: Id, p: Handle, es1: map<Id, Entity>, es2: map<Id, Entity>, x: Id)
    requires e in es && x in es && x != e && p != es[e].parent
    requires es1 == Detached(es, e) && es2 == es1[e := es1[e].(parent := p)]
    ensures Attached(es2, e, p)[x] == es[x].(children := ChildrenAfterMove(es, e, p, x))
  {
    assert IsValid(es2, p) == IsValid(es, p);
    assert es2[x] == es1[x];
  }

  /**
   * set_parent(p) on `e` as written. Nothing happens when `p` is the current parent
   * handle. Otherwise: leave a valid old parent (hierarchy flag := own flag), store
   * `p`, join a valid new parent (hierarchy flag := own flag AND the parent's), and
   * fire the hook for a net change of the flag. With neither parent valid the flag
   * keeps its value. Nothing but `e` and the two children lists changes.
   */
  function SetParentEffect(es: map<Id, Entity>, e: Id, p: Handle): (r: Outcome)
    requires e in es
    ensures r.entities.Keys == es.Keys
    ensures p == es[e].parent ==> r == Outcome(es, [])
    ensures r.entities[e] == es[e].(parent := p, activeHierarchy := r.entities[e].activeHierarchy,
                                   children := r.entities[e].children)
    ensures forall x :: x in es && x != e ==>
      r.entities[x] == es[x].(children := r.entities[x].children)
    ensures p != es[e].parent ==> forall x :: x in es ==>
      r.entities[x].children ==
        if IsValid(es, es[e].parent) && x == es[e].parent.id then Without(es[x].children, e)
        else if IsValid(es, p) && x == p.id then es[x].children + [e]
        else es[x].children
    ensures p != es[e].parent && p != Ref(e) ==>
      r.entities[e].activeHierarchy ==
        if IsValid(es, p) then es[e].activeSelf && es[p.id].activeHierarchy
        else if IsValid(es, es[e].parent) then es[e].activeSelf
        else es[e].activeHierarchy
    ensures r.events == Hook(e, es[e].activeHierarchy, r.entities[e].activeHierarchy)
  {
    if p == es[e].parent then Outcome(es, [])
    else
      var moved := Moved(es, e, p);
      Outcome(moved, Hook(e, es[e].activeHierarchy, moved[e].activeHierarchy))
  }

  /**
   * On a well-linked arena, set_parent moves `e` to the end of its new parent's
   * children list: that list gains `e` at its end, every other list only loses `e`, and
   * the links still agree both ways without repeats.
   */
  lemma SetParentRelinks(es: map<Id, Entity>, e: Id, p: Handle)
    requires Linked(es) && NoDupChildren(es) && e in es && p != es[e].parent
    ensures var r := SetParentEffect(es, e, p).entities;
      && Linked(r) && NoDupChildren(r)
      && (IsValid(es, p) ==> r[p.id].children == es[p.id].children + [e])
      && (forall x :: x in es && p != Ref(x) ==> r[x].children == Without(es[x].children, e))
  {
    var r := SetParentEffect(es, e, p).entities;
    forall x | x in es && p != Ref(x) ensures r[x].children == Without(es[x].children, e) {
      WithoutOthers(es, e, x);
    }
    if IsValid(es, p) {
      WithoutOthers(es, e, p.id);
      NoDupAppend(es[p.id].children, e);
    }
    forall x, c | x in r && c in r ensures c in r[x].children <==> r[c].parent == Ref(x) {
      RelinkedAt(es, e, p, r, x, c);
    }
  }

  /** In a well-linked arena `e` is listed only by its own parent. */
  lemma WithoutOthers(es: map<Id, Entity>, e: Id, x: Id)
    requires Linked(es) && e in es && x in es
    ensures es[e].parent != Ref(x) ==> e !in es[x].children && Without(es[x].children, e) == es[x].children
  {
  }

  lemma NoDupAppend(s: seq<Id>, a: Id)
    requires NoDup(s) && a !in s
    ensures NoDup(s + [a])
  {
    forall i, j | 0 <= i < j < |s + [a]| ensures (s + [a])[i] != (s + [a])[j] {
      assert (s + [a])[i] == s[i];
    }
  }

  lemma RelinkedAt(es: map<Id, Entity>, e: Id, p: Handle, r: map<Id, Entity>, x: Id, c: Id)
    requires Linked(es) && e in es && x in es && c in es && p != es[e].parent
    requires r == SetParentEffect(es, e, p).entities
    ensures c in r[x].children <==> r[c].parent == Ref(x)
  {
    if c != e {
      assert c in r[x].children <==> c in es[x].children;
    }
  }

  // ----- set_parent does not walk the subtree -----

  /**
   * An inactive root (Id 0) and an active root (Id 1) with an active child (Id 2).
   * Moving 1 under 0 makes 1 inactive, but its child stays active in the hierarchy.
   */
  function MoveSample(): map<Id, Entity> {
    map[0 := Entity("inactive", true, false, false, Null, [], [], [], Transform(0)),
        1 := Entity("moved", true, true, true, Null, [2], [], [], Transform(0)),
        2 := Entity("child", true, true, true, Ref(1), [], [], [], Transform(0))]
  }

  lemma MoveSampleForest()
    ensures Forest(MoveSample(), map[0 := 0, 1 := 1, 2 := 0]) && HierarchyConsistent(MoveSample())
  {
    var es := MoveSample();
    assert es.Keys == {0, 1, 2};
    assert Linked(es) by {
      forall x, c | x in es && c in es ensures c in es[x].children <==> es[c].parent == Ref(x) {
        assert x == 0 || x == 1 || x == 2;
        assert c == 0 || c == 1 || c == 2;
      }
    }
  }

  /**
   * After set_parent(0) on entity 1 the arena is still a well-linked forest, yet the
   * child 2 is active in the hierarchy under a parent that no longer is.
   */
  lemma SetParentLeavesStaleChild()
    ensures Forest(MoveSample(), map[0 := 0, 1 := 1, 2 := 0]) && HierarchyConsistent(MoveSample())
    ensures var r := SetParentEffect(MoveSample(), 1, Ref(0)).entities;
      && Forest(r, map[0 := 2, 1 := 1, 2 := 0])
      && !r[1].activeHierarchy && r[2].activeHierarchy && r[2].parent == Ref(1)
      && !HierarchyConsistent(r)
  {
    MoveSampleForest();
    SetParentRelinks(MoveSample(), 1, Ref(0));
    MovedSampleShape();
    var r := SetParentEffect(MoveSample(), 1, Ref(0)).entities;
    assert !ConsistentAt(r, 2);
  }

  lemma MovedSampleShape()
    ensures var r := SetParentEffect(MoveSample(), 1, Ref(0)).entities;
      && r.Keys == {0, 1, 2}
      && r[0].children == [1] && r[1].children == [2] && r[2].children == []
      && !r[1].activeHierarchy && r[2].activeHierarchy && r[2].parent == Ref(1)
      && ChildrenRanked(r, map[0 := 2, 1 := 1, 2 := 0])
  {
    var es := MoveSample();
    var r := SetParentEffect(es, 1, Ref(0)).entities;
    assert es.Keys == {0, 1, 2};
    assert r[0].children == ChildrenAfterMove(es, 1, Ref(0), 0) == [1];
    assert r[1].children == ChildrenAfterMove(es, 1, Ref(0), 1) == [2];
    assert r[2].children == ChildrenAfterMove(es, 1, Ref(0), 2) == [];
  }

  /**
   * set_parent(p) as intended: after the move, the walk runs from `e` with its new
   * parent's state, so the whole subtree follows. `rank` witnesses that the move does
   * not make `e` its own ancestor.
   */
  ghost function SetParentPropagated(es: map<Id, Entity>, e: Id, p: Handle, rank: map<Id, nat>): (r: Outcome)
    requires e in es && ChildrenRanked(SetParentEffect(es, e, p).entities, rank)
    ensures r.entities.Keys == es.Keys
    ensures p == es[e].parent ==> r == Outcome(es, [])
    ensures p != es[e].parent ==>
      r.entities[e].activeHierarchy ==
        (es[e].activeSelf && ParentActive(SetParentEffect(es, e, p).entities, e))
    ensures SameShape(SetParentEffect(es, e, p).entities, r.entities)
  {
    var m := SetParentEffect(es, e, p);
    if p == es[e].parent then m
    else
      var w := PropagateFrom(m.entities, e, ParentActive(m.entities, e), rank);
      Outcome(w.entities, m.events + w.events)
  }

  /**
   * Moving an entity away from its parent and back restores its parent handle and its
   * hierarchy flag, on an arena where that flag was consistent with the parent's.
   */
  lemma SetParentRoundTrip(es: map<Id, Entity>, e: Id, p: Handle)
    requires e in es && HierarchyConsistent(es)
    requires p != es[e].parent && es[e].parent != Ref(e)
    ensures var there := SetParentEffect(es, e, p).entities;
      var back := SetParentEffect(there, e, es[e].parent).entities;
      back[e].parent == es[e].parent && back[e].activeHierarchy == es[e].activeHierarchy
  {
    assert ConsistentAt(es, e);
  }

  /** After a real move, the corrected set_parent is the move followed by the walk from `e`. */
  lemma SetParentPropagatedIs(es: map<Id, Entity>, e: Id, p: Handle, rank: map<Id, nat>)
    requires e in es && ChildrenRanked(SetParentEffect(es, e, p).entities, rank) && p != es[e].parent
    ensures var m := SetParentEffect(es, e, p);
      var w := PropagateFrom(m.entities, e, ParentActive(m.entities, e), rank);
      SetParentPropagated(es, e, p, rank) == Outcome(w.entities, m.events + w.events)
  {
  }

  /** On a consistent well-linked arena the propagating move keeps the activity invariant. */
  lemma SetParentPropagatedConsistent(es: map<Id, Entity>, e: Id, p: Handle, rank: map<Id, nat>)
    requires e in es && Linked(es) && NoDupChildren(es) && HierarchyConsistent(es)
    requires ChildrenRanked(SetParentEffect(es, e, p).entities, rank)
    ensures HierarchyConsistent(SetParentPropagated(es, e, p, rank).entities)
  {
    if p != es[e].parent {
      var m := SetParentEffect(es, e, p).entities;
      SetParentRelinks(es, e, p);
      forall x | x in m && !Below(m, rank, e, x) ensures ConsistentAt(m, x) {
        MovedConsistentAt(es, e, p, rank, m, x);
      }
      PropagationRestores(m, e, rank);
    }
  }

  lemma MovedConsistentAt(es: map<Id, Entity>, e: Id, p: Handle, rank: map<Id, nat>, m: map<Id, Entity>, x: Id)
    requires e in es && x in es && HierarchyConsistent(es)
    requires m == SetParentEffect(es, e, p).entities
    requires Forest(m, rank) && !Below(m, rank, e, x)
    ensures ConsistentAt(m, x)
  {
    assert ConsistentAt(es, x);
    BelowParent(m, rank, e, x);
    assert Below(m, rank, e, e);
  }

  /**
   * On a consistent arena the moved entity ends with the flag set_parent gives it; the
   * propagating version differs only further down, where it repairs the subtree.
   */
  lemma SetParentPropagatedAgrees(es: map<Id, Entity>, e: Id, p: Handle, rank: map<Id, nat>)
    requires e in es && Linked(es) && NoDupChildren(es) && HierarchyConsistent(es)
    requires ChildrenRanked(SetParentEffect(es, e, p).entities, rank)
    ensures SetParentPropagated(es, e, p, rank).entities[e] == SetParentEffect(es, e, p).entities[e]
  {
    if p != es[e].parent {
      var m := SetParentEffect(es, e, p).entities;
      SetParentRelinks(es, e, p);
      assert IsValid(es, p) ==> e in m[p.id].children;
      assert p != Ref(e);
      assert ConsistentAt(es, e);
    }
  }

  /** The hook calls of the propagating move replay exactly the flag changes it makes. */
  lemma SetParentPropagatedNarrates(es: map<Id, Entity>, e: Id, p: Handle, rank: map<Id, nat>)
    requires e in es && ChildrenRanked(SetParentEffect(es, e, p).entities, rank)
    ensures Narrates(Flags(es), SetParentPropagated(es, e, p, rank).events,
                     Flags(SetParentPropagated(es, e, p, rank).entities))
  {
    var m := SetParentEffect(es, e, p);
    if p == es[e].parent {
      assert Narrates(Flags(es), [], Flags(es));
    } else {
      FlagsMovedOne(es, m.entities, e);
      HookNarrates(Flags(es), e, m.entities[e].activeHierarchy);
      PropagateNarrates(m.entities, e, ParentActive(m.entities, e), rank);
      var w := PropagateFrom(m.entities, e, ParentActive(m.entities, e), rank);
      NarratesThen(Flags(es), m.events, Flags(m.entities), w.events, Flags(w.entities));
    }
  }

  lemma FlagsMovedOne(es: map<Id, Entity>, m: map<Id, Entity>, e: Id)
    requires e in es && m.Keys == es.Keys
    requires forall x :: x in es && x != e ==> m[x].activeHierarchy == es[x].activeHierarchy
    ensures Flags(m) == Flags(es)[e := m[e].activeHierarchy]
  {
  }
}
