/**
 * The arena that owns every entity, with the entity operations as methods that
 * update it step by step: creation, add_component, post_create, pre_destroy,
 * set_active, propagate_active_change, set_parent, cleanup_killed_children, destroy.
 *
 * Hook calls are appended to `log` in the order the code makes them. Each method is
 * proved against the value-level specification of its operation, and keeps the
 * arena's invariant (Bookkeeping.WellFormed).
 */
module EntityArena {
  import opened EntityState
  import opened Propagation
  import opened Activation
  import opened Parenting
  import opened Bookkeeping

  /** set_parent keeps the invariant when the new handle refers to an id handed out. */
  lemma SetParentKeepsWellFormed(es: map<Id, Entity>, log: seq<Event>, nextId: Id, nextComponent: ComponentId,
                                 owners: map<ComponentId, Id>, e: Id, p: Handle)
    requires WellFormed(es, log, nextId, nextComponent, owners) && e in es
    requires p.Ref? ==> p.id < nextId
    ensures var r := SetParentEffect(es, e, p);
      WellFormed(r.entities, log + r.events, nextId, nextComponent, owners)
  {
    var r := SetParentEffect(es, e, p);
    if p != es[e].parent {
      SetParentRelinks(es, e, p);
    }
    SetParentKeepsIds(es, e, p, nextId);
    SetParentKeepsComponents(es, e, p);
    SameComponentsKeep(es, r.entities, log, r.events, nextComponent, owners);
  }

  /** set_parent only ever stores handles to ids handed out. */
  lemma SetParentKeepsIds(es: map<Id, Entity>, e: Id, p: Handle, nextId: Id)
    requires IdsBounded(es, nextId) && e in es
    requires p.Ref? ==> p.id < nextId
    ensures IdsBounded(SetParentEffect(es, e, p).entities, nextId)
  {
    var r := SetParentEffect(es, e, p).entities;
    forall x | x in r ensures forall c :: c in r[x].children ==> c < nextId {
      assert forall c :: c in r[x].children ==> c in es[x].children || c == e;
    }
  }

  /** set_parent touches no lifecycle flag and no component list. */
  lemma SetParentKeepsComponents(es: map<Id, Entity>, e: Id, p: Handle)
    requires e in es
    ensures SameComponents(es, SetParentEffect(es, e, p).entities)
  {
  }

  /** Pruning dead child handles keeps the invariant. */
  lemma CleanupKeepsWellFormed(es: map<Id, Entity>, log: seq<Event>, nextId: Id, nextComponent: ComponentId,
                               owners: map<ComponentId, Id>, e: Id)
    requires WellFormed(es, log, nextId, nextComponent, owners) && e in es
    ensures WellFormed(CleanupChildren(es, e), log, nextId, nextComponent, owners)
  {
    var r := CleanupChildren(es, e);
    CleanupKeepsLinks(es, e);
    assert SameComponents(es, r);
    SameComponentsKeep(es, r, log, [], nextComponent, owners);
    assert log + [] == log;
  }

  class Arena {
    var entities: map<Id, Entity>
    var log: seq<Event>
    var nextId: Id
    var nextComponent: ComponentId
    var owners: map<ComponentId, Id>
    /** Entities whose destruction was requested from the entity manager. */
    var pending: set<Id>

    ghost predicate Valid()
      reads this
    {
      WellFormed(entities, log, nextId, nextComponent, owners)
    }

    constructor()
      ensures Valid() && entities == map[] && log == [] && pending == {}
    {
      entities := map[];
      log := [];
      nextId := 0;
      nextComponent := 0;
      owners := map[];
      pending := {};
    }

    function ActiveInHierarchy(e: Id): bool
      reads this
      requires e in entities
    {
      entities[e].activeHierarchy
    }

    function ActiveSelf(e: Id): bool
      reads this
      requires e in entities
    {
      entities[e].activeSelf
    }

    function Parent(e: Id): Handle
      reads this
      requires e in entities
    {
      entities[e].parent
    }

    function Children(e: Id): seq<Id>
      reads this
      requires e in entities
    {
      entities[e].children
    }

    function Components(e: Id): seq<ComponentId>
      reads this
      requires e in entities
    {
      entities[e].components
    }

    /** The Entity constructor: not created, active, no parent, under a fresh id. */
    method Create(name: string, local: Transform) returns (e: Id)
      requires Valid()
      modifies this`entities, this`nextId
      ensures Valid()
      ensures e == old(nextId) && nextId == old(nextId) + 1
      ensures e !in old(entities) && entities == old(entities)[e := NewEntity(name, local)]
    {
      CreateKeepsWellFormed(entities, log, nextId, nextComponent, owners, name, local);
      e := nextId;
      entities := entities[e := NewEntity(name, local)];
      nextId := nextId + 1;
    }

    /**
     * add_component: the new component goes to the end of the component list. On a
     * created entity it is bound and announced at once; otherwise it is deferred.
     */
    method AddComponent(e: Id) returns (c: ComponentId)
      requires Valid() && e in entities
      modifies this`entities, this`log, this`owners, this`nextComponent
      ensures Valid()
      ensures c == old(nextComponent) && nextComponent == c + 1 && c !in old(owners)
      ensures forall x :: x in old(entities) ==> c !in old(entities)[x].components
      ensures entities == Attach(old(entities), e, c)
      ensures old(entities)[e].created ==> owners == old(owners)[c := e] && log == old(log) + [ComponentCreated(e, c)]
      ensures !old(entities)[e].created ==> owners == old(owners) && log == old(log)
    {
      AttachKeepsWellFormed(entities, log, nextId, nextComponent, owners, e);
      ghost var attached := Attach(entities, e, nextComponent);
      c := nextComponent;
      nextComponent := nextComponent + 1;
      var en := entities[e].(components := entities[e].components + [c]);
      if en.created {
        entities := entities[e := en];
        owners := owners[c := e];
        log := log + [ComponentCreated(e, c)];
      } else {
        entities := entities[e := en.(deferred := en.deferred + [c])];
      }
      assert entities == attached;
    }

    /**
     * post_create: mark the entity created, then bind and announce each deferred
     * component in list order, and empty the deferred list.
     */
    method PostCreate(e: Id)
      requires Valid() && e in entities
      modifies this`entities, this`log, this`owners
      ensures Valid()
      ensures entities == old(entities)[e := old(entities)[e].(created := true, deferred := [])]
      ensures log == old(log) + CreatedEvents(e, old(entities)[e].deferred)
      ensures owners == BindAll(old(owners), old(entities)[e].deferred, e)
    {
      PostCreateKeepsWellFormed(entities, log, nextId, nextComponent, owners, e);
      ghost var target := entities[e := entities[e].(created := true, deferred := [])];
      var deferred := entities[e].deferred;
      entities := entities[e := entities[e].(created := true)];
      BindDeferred(e, deferred);
      entities := entities[e := entities[e].(deferred := [])];
      assert entities == target;
    }

    /** The loop of post_create: bind each deferred component to `e`, then announce it. */
    method BindDeferred(e: Id, deferred: seq<ComponentId>)
      modifies this`log, this`owners
      ensures log == old(log) + CreatedEvents(e, deferred)
      ensures owners == BindAll(old(owners), deferred, e)
    {
      var i := 0;
      while i < |deferred|
        invariant 0 <= i <= |deferred|
        invariant log == old(log) + CreatedEvents(e, deferred[..i])
        invariant owners == BindAll(old(owners), deferred[..i], e)
      {
        CreatedEventsStep(e, deferred, i);
        BindAllStep(old(owners), deferred, i, e);
        owners := owners[deferred[i] := e];
        log := log + [ComponentCreated(e, deferred[i])];
        i := i + 1;
      }
      assert deferred[..i] == deferred;
    }

    /** pre_destroy: announce the destruction of every component, in list order. */
    method PreDestroy(e: Id)
      requires Valid() && e in entities
      modifies this`log
      ensures Valid()
      ensures log == old(log) + DestroyedEvents(e, entities[e].components)
    {
      DestroyedKeepWellFormed(entities, log, nextId, nextComponent, owners, e);
      var components := entities[e].components;
      var i := 0;
      while i < |components|
        invariant 0 <= i <= |components|
        invariant log == old(log) + DestroyedEvents(e, components[..i])
      {
        DestroyedEventsStep(e, components, i);
        log := log + [ComponentDestroyed(e, components[i])];
        i := i + 1;
      }
      assert components[..i] == components;
    }

    /**
     * propagate_active_change: walk the still-valid children in list order with the
     * new hierarchy state, then commit the entity's own flag and fire its hook.
     */
    method PropagateActiveChange(e: Id, parentActive: bool, ghost rank: map<Id, nat>)
      requires e in entities && ChildrenRanked(entities, rank)
      modifies this`entities, this`log
      ensures var r := PropagateFrom(old(entities), e, parentActive, rank);
        entities == r.entities && log == old(log) + r.events
      decreases rank[e], 1
    {
      var newActive := parentActive && entities[e].activeSelf;
      var requireEnable := newActive && !entities[e].activeHierarchy;
      var requireDisable := !newActive && entities[e].activeHierarchy;
      ghost var es0 := entities;
      ghost var below := PropagateChildren(es0, es0[e].children, newActive, rank, rank[e]);
      ghost var hook := Hook(e, es0[e].activeHierarchy, newActive);
      PropagateToChildren(entities[e].children, newActive, rank, rank[e]);
      CommitStep(es0, e, parentActive, rank, below);
      AppendAssoc(old(log), below.events, hook);
      entities := entities[e := entities[e].(activeHierarchy := newActive)];
      if requireEnable {
        assert hook == [Enabled(e)];
        log := log + [Enabled(e)];
      } else if requireDisable {
        assert hook == [Disabled(e)];
        log := log + [Disabled(e)];
      } else {
        assert hook == [] && log + hook == log;
      }
    }

    /** The loop of propagate_active_change over one entity's children list. */
    method PropagateToChildren(kids: seq<Id>, active: bool, ghost rank: map<Id, nat>, ghost bound: nat)
      requires ChildrenRanked(entities, rank)
      requires forall k :: k in kids && k in entities ==> rank[k] < bound
      modifies this`entities, this`log
      ensures var r := PropagateChildren(old(entities), kids, active, rank, bound);
        entities == r.entities && log == old(log) + r.events
      decreases bound, 0
    {
      ghost var all := PropagateChildren(entities, kids, active, rank, bound);
      ChildrenLoopStart(entities, log, kids, active, rank, bound);
      var i := 0;
      while i < |kids|
        invariant ChildrenLoop(entities, log, kids, i, active, rank, bound, all, old(log))
      {
        ghost var before := entities;
        ghost var logBefore := log;
        var child := kids[i];
        if child in entities {
          PropagateActiveChange(child, active, rank);
        }
        ChildrenLoopStep(before, logBefore, kids, i, active, rank, bound, all, old(log), entities, log);
        i := i + 1;
      }
      ChildrenLoopEnd(entities, log, kids, active, rank, bound, all, old(log));
    }

    /** Storing an entity's own activity flag, before any walk. */
    method StoreActiveSelf(e: Id, a: bool)
      requires Valid() && e in entities
      modifies this`entities
      ensures Valid() && entities == WithSelf(old(entities), e, a)
    {
      FlagsKeepWellFormed(entities, log, nextId, nextComponent, owners, WithSelf(entities, e, a), []);
      assert log + [] == log;
      entities := entities[e := entities[e].(activeSelf := a)];
    }

    /** propagate_active_change on a well-formed arena, which it keeps well-formed. */
    method Propagate(e: Id, parentActive: bool, ghost rank: map<Id, nat>)
      requires Valid() && e in entities && ChildrenRanked(entities, rank)
      modifies this`entities, this`log
      ensures Valid()
      ensures var r := PropagateFrom(old(entities), e, parentActive, rank);
        entities == r.entities && log == old(log) + r.events
    {
      ghost var r := PropagateFrom(entities, e, parentActive, rank);
      FlagsKeepWellFormed(entities, log, nextId, nextComponent, owners, r.entities, r.events);
      PropagateActiveChange(e, parentActive, rank);
    }

    /** propagate_active_change seeded with the hierarchy state of the entity's valid parent. */
    method PropagateFromParent(e: Id, ghost rank: map<Id, nat>)
      requires Valid() && e in entities && ChildrenRanked(entities, rank)
      modifies this`entities, this`log
      ensures Valid()
      ensures var r := PropagateFrom(old(entities), e, ParentActive(old(entities), e), rank);
        entities == r.entities && log == old(log) + r.events
    {
      var q := entities[e].parent;
      var seed := if q.Ref? && q.id in entities then entities[q.id].activeHierarchy else true;
      Propagate(e, seed, rank);
    }

    /** set_active as written: store the own flag, then walk seeded with `true`. */
    method SetActive(e: Id, a: bool, ghost rank: map<Id, nat>)
      requires Valid() && e in entities && ChildrenRanked(entities, rank)
      modifies this`entities, this`log
      ensures Valid()
      ensures var r := SetActiveEffect(old(entities), e, a, rank);
        entities == r.entities && log == old(log) + r.events
    {
      SetActiveEffectIs(entities, e, a, rank);
      StoreActiveSelf(e, a);
      Propagate(e, true, rank);
    }

    /**
     * set_active as intended: the walk is seeded with the parent's hierarchy state,
     * which keeps the activity invariant.
     */
    method SetActiveRespectingParent(e: Id, a: bool, ghost rank: map<Id, nat>)
      requires Valid() && e in entities && ChildrenRanked(entities, rank)
      modifies this`entities, this`log
      ensures Valid()
      ensures var r := SetActiveSeeded(old(entities), e, a, rank);
        entities == r.entities && log == old(log) + r.events
      ensures HierarchyConsistent(old(entities)) ==> HierarchyConsistent(entities)
    {
      if HierarchyConsistent(entities) {
        SetActiveSeededConsistent(entities, e, a, rank);
      }
      SetActiveSeededIs(entities, e, a, rank);
      StoreActiveSelf(e, a);
      PropagateFromParent(e, rank);
    }

    /**
     * set_parent as written: leave the old parent, store the handle, join the new
     * parent, recompute the own flag and fire the hook for a net change.
     */
    method SetParent(e: Id, p: Handle)
      requires Valid() && e in entities && (p.Ref? ==> p.id < nextId)
      modifies this`entities, this`log
      ensures Valid()
      ensures var r := SetParentEffect(old(entities), e, p);
        entities == r.entities && log == old(log) + r.events
    {
      SetParentKeepsWellFormed(entities, log, nextId, nextComponent, owners, e, p);
      var wasActive := entities[e].activeHierarchy;
      if p == entities[e].parent {
        return;
      }
      Relink(e, p);
      FireHook(e, wasActive);
    }

    /** The end of set_parent: post_enable or post_disable when the hierarchy state flipped. */
    method FireHook(e: Id, wasActive: bool)
      requires e in entities
      modifies this`log
      ensures log == old(log) + Hook(e, wasActive, entities[e].activeHierarchy)
    {
      ghost var hook := Hook(e, wasActive, entities[e].activeHierarchy);
      if entities[e].activeHierarchy && !wasActive {
        assert hook == [Enabled(e)];
        log := log + [Enabled(e)];
      } else if !entities[e].activeHierarchy && wasActive {
        assert hook == [Disabled(e)];
        log := log + [Disabled(e)];
      } else {
        assert hook == [] && log + hook == log;
      }
    }

    /** The structural part of set_parent: leave the old parent, store the handle, join the new one. */
    method Relink(e: Id, p: Handle)
      requires e in entities && p != entities[e].parent
      modifies this`entities
      ensures entities == Moved(old(entities), e, p)
    {
      Detach(e);
      entities := entities[e := entities[e].(parent := p)];
      AttachTo(e, p);
    }

    /** The first half of set_parent: leave a valid parent's children list. */
    method Detach(e: Id)
      requires e in entities
      modifies this`entities
      ensures entities == Detached(old(entities), e)
    {
      var q := entities[e].parent;
      if q.Ref? && q.id in entities {
        entities := entities[q.id := entities[q.id].(children := Without(entities[q.id].children, e))];
        entities := entities[e := entities[e].(activeHierarchy := entities[e].activeSelf)];
      }
    }

    /** The second half of set_parent: join a valid new parent's children list. */
    method AttachTo(e: Id, p: Handle)
      requires e in entities
      modifies this`entities
      ensures entities == Attached(old(entities), e, p)
    {
      if p.Ref? && p.id in entities {
        entities := entities[p.id := entities[p.id].(children := entities[p.id].children + [e])];
        entities := entities[e := entities[e].(activeHierarchy := entities[e].activeSelf && entities[p.id].activeHierarchy)];
      }
    }

    /**
     * set_parent as intended: after the move, walk the subtree from `e` with its new
     * parent's state, which keeps the activity invariant. `rank` witnesses that the
     * move does not make `e` its own ancestor.
     */
    method SetParentAndPropagate(e: Id, p: Handle, ghost rank: map<Id, nat>)
      requires Valid() && e in entities && (p.Ref? ==> p.id < nextId)
      requires ChildrenRanked(SetParentEffect(entities, e, p).entities, rank)
      modifies this`entities, this`log
      ensures Valid()
      ensures var r := SetParentPropagated(old(entities), e, p, rank);
        entities == r.entities && log == old(log) + r.events
      ensures HierarchyConsistent(old(entities)) ==> HierarchyConsistent(entities)
    {
      if HierarchyConsistent(entities) {
        SetParentPropagatedConsistent(entities, e, p, rank);
      }
      ghost var m := SetParentEffect(entities, e, p);
      var moved := p != entities[e].parent;
      if moved {
        SetParentPropagatedIs(entities, e, p, rank);
      }
      SetParent(e, p);
      if moved {
        PropagateFromParent(e, rank);
        AppendAssoc(old(log), m.events, PropagateFrom(m.entities, e, ParentActive(m.entities, e), rank).events);
      }
    }

    /** cleanup_killed_children: drop the child handles that are no longer valid. */
    method CleanupKilledChildren(e: Id)
      requires Valid() && e in entities
      modifies this`entities
      ensures Valid()
      ensures entities == CleanupChildren(old(entities), e)
    {
      CleanupKeepsWellFormed(entities, log, nextId, nextComponent, owners, e);
      entities := entities[e := entities[e].(children := KeepLive(entities[e].children, entities))];
    }

    /** destroy: hand the entity to the entity manager, which destroys it later. */
    method Destroy(e: Id)
      requires e in entities
      modifies this`pending
      ensures pending == old(pending) + {e}
    {
      pending := pending + {e};
    }

    /**
     * The entity manager releasing a pending entity: it leaves the arena, and every
     * weak handle to it becomes invalid, for good since ids are not reused.
     */
    method Release(e: Id)
      requires Valid() && e in pending
      modifies this`entities, this`pending
      ensures Valid()
      ensures entities == old(entities) - {e} && pending == old(pending) - {e}
    {
      ReleaseKeepsWellFormed(entities, log, nextId, nextComponent, owners, e);
      entities := entities - {e};
      pending := pending - {e};
    }
  }
}
