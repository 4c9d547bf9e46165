/**
 * The invariant the arena keeps about ids, links and components, stated on values so
 * that each operation's effect on it can be proved on its own.
 *
 * Entity and component ids are handed out in increasing order and never reused, so
 * every id stored anywhere is below the next one to be handed out. A component belongs
 * to one entity. Until the entity is created its deferred list is its component list
 * and no component has an owner yet; once created the deferred list is empty, every
 * component is bound to the entity, and the log holds exactly one post_create call for
 * each of them.
 */
module Bookkeeping {
  import opened EntityState

  /** The post_create calls for the components `cs` of entity `e`, in list order. */
  function CreatedEvents(e: Id, cs: seq<ComponentId>): (evs: seq<Event>)
    ensures |evs| == |cs|
    ensures forall i :: 0 <= i < |cs| ==> evs[i] == ComponentCreated(e, cs[i])
  {
    seq(|cs|, i requires 0 <= i < |cs| => ComponentCreated(e, cs[i]))
  }

  /** The pre_destroy calls for the components `cs` of entity `e`, in list order. */
  function DestroyedEvents(e: Id, cs: seq<ComponentId>): (evs: seq<Event>)
    ensures |evs| == |cs|
    ensures forall i :: 0 <= i < |cs| ==> evs[i] == ComponentDestroyed(e, cs[i])
  {
    seq(|cs|, i requires 0 <= i < |cs| => ComponentDestroyed(e, cs[i]))
  }

  /** Announcing one more component appends one post_create call. */
  lemma CreatedEventsStep(e: Id, cs: seq<ComponentId>, n: nat)
    requires n < |cs|
    ensures CreatedEvents(e, cs[..n + 1]) == CreatedEvents(e, cs[..n]) + [ComponentCreated(e, cs[n])]
  {
    var l := CreatedEvents(e, cs[..n + 1]);
    var r := CreatedEvents(e, cs[..n]) + [ComponentCreated(e, cs[n])];
    forall i | 0 <= i < |l| ensures l[i] == r[i] {
      assert cs[..n + 1][i] == cs[i];
    }
  }

  /** Announcing one more component appends one pre_destroy call. */
  lemma DestroyedEventsStep(e: Id, cs: seq<ComponentId>, n: nat)
    requires n < |cs|
    ensures DestroyedEvents(e, cs[..n + 1]) == DestroyedEvents(e, cs[..n]) + [ComponentDestroyed(e, cs[n])]
  {
    var l := DestroyedEvents(e, cs[..n + 1]);
    var r := DestroyedEvents(e, cs[..n]) + [ComponentDestroyed(e, cs[n])];
    forall i | 0 <= i < |l| ensures l[i] == r[i] {
      assert cs[..n + 1][i] == cs[i];
    }
  }

  /** Each component of a repetition-free list gets exactly one post_create call. */
  lemma {:induction false} CreatedEventsCount(e: Id, cs: seq<ComponentId>, x: Id, c: ComponentId)
    requires NoDup(cs)
    ensures multiset(CreatedEvents(e, cs))[ComponentCreated(x, c)] == if x == e && c in cs then 1 else 0
    decreases |cs|
  {
    if cs != [] {
      var last := |cs| - 1;
      assert CreatedEvents(e, cs) == CreatedEvents(e, cs[..last]) + [ComponentCreated(e, cs[last])];
      assert NoDup(cs[..last]) by {
        forall i, j | 0 <= i < j < |cs[..last]| ensures cs[..last][i] != cs[..last][j] {
          assert cs[..last][i] == cs[i] && cs[..last][j] == cs[j];
        }
      }
      CreatedEventsCount(e, cs[..last], x, c);
      assert c in cs <==> c in cs[..last] || c == cs[last] by {
        assert cs == cs[..last] + [cs[last]];
      }
      assert cs[last] !in cs[..last] by {
        forall i | 0 <= i < last ensures cs[..last][i] != cs[last] {
          assert cs[..last][i] == cs[i];
        }
      }
    }
  }

  /** Hook calls are not component calls. */
  lemma HooksCountNoComponent(evs: seq<Event>, x: Id, c: ComponentId)
    requires HooksOnly(evs)
    ensures multiset(evs)[ComponentCreated(x, c)] == 0
  {
    forall i | 0 <= i < |evs| ensures evs[i] != ComponentCreated(x, c) {
      assert IsHook(evs[i]);
    }
    assert ComponentCreated(x, c) !in evs;
  }

  predicate IdsBounded(es: map<Id, Entity>, nextId: Id) {
    forall x :: x in es ==>
      && x < nextId
      && (es[x].parent.Ref? ==> es[x].parent.id < nextId)
      && (forall c :: c in es[x].children ==> c < nextId)
  }

  /** The deferred list follows the lifecycle flag, and component lists repeat nothing. */
  predicate DeferredFollowsCreation(en: Entity) {
    && NoDup(en.components)
    && (en.created ==> en.deferred == [])
    && (!en.created ==> en.deferred == en.components)
  }

  /** Component ids are below the next one, and each component belongs to one entity. */
  predicate ComponentsFresh(es: map<Id, Entity>, nextComponent: ComponentId, owners: map<ComponentId, Id>) {
    && (forall c :: c in owners ==> c < nextComponent)
    && (forall x, c :: x in es && c in es[x].components ==> c < nextComponent)
    && (forall x, y, c :: x in es && y in es && c in es[x].components && c in es[y].components ==> x == y)
  }

  /** The components of a created entity are bound to it; those of others to nobody. */
  predicate OwnersBound(es: map<Id, Entity>, owners: map<ComponentId, Id>) {
    forall x, c :: x in es && c in es[x].components ==>
      && (es[x].created ==> c in owners && owners[c] == x)
      && (!es[x].created ==> c !in owners)
  }

  predicate ComponentsBookkept(es: map<Id, Entity>, nextComponent: ComponentId, owners: map<ComponentId, Id>) {
    && (forall x :: x in es ==> DeferredFollowsCreation(es[x]))
    && ComponentsFresh(es, nextComponent, owners)
    && OwnersBound(es, owners)
  }

  /** Every component call in the log is about a component handed out already. */
  predicate LoggedBelow(log: seq<Event>, nextComponent: ComponentId) {
    forall i :: 0 <= i < |log| && !IsHook(log[i]) ==> log[i].component < nextComponent
  }

  lemma LoggedBelowConcat(log: seq<Event>, evs: seq<Event>, n: ComponentId, m: ComponentId)
    requires LoggedBelow(log, n) && LoggedBelow(evs, m) && n <= m
    ensures LoggedBelow(log + evs, m)
  {
    forall i | 0 <= i < |log + evs| ensures !IsHook((log + evs)[i]) ==> (log + evs)[i].component < m {
      if i < |log| {
        assert (log + evs)[i] == log[i];
      } else {
        assert (log + evs)[i] == evs[i - |log|];
      }
    }
  }

  /** Each component of a created entity has had exactly one post_create call. */
  predicate CreationCounted(es: map<Id, Entity>, log: seq<Event>) {
    forall x, c :: x in es && c in es[x].components ==>
      multiset(log)[ComponentCreated(x, c)] == if es[x].created then 1 else 0
  }

  predicate WellFormed(es: map<Id, Entity>, log: seq<Event>, nextId: Id, nextComponent: ComponentId, owners: map<ComponentId, Id>) {
    && IdsBounded(es, nextId)
    && Linked(es) && NoDupChildren(es)
    && ComponentsBookkept(es, nextComponent, owners)
    && LoggedBelow(log, nextComponent)
    && CreationCounted(es, log)
  }

  /** Changes that leave every parent and children list alone keep the link invariants. */
  lemma SameLinksKeepLinks(es: map<Id, Entity>, es': map<Id, Entity>, nextId: Id)
    requires SameLinks(es, es')
    ensures Linked(es) ==> Linked(es')
    ensures NoDupChildren(es) ==> NoDupChildren(es')
    ensures IdsBounded(es, nextId) ==> IdsBounded(es', nextId)
  {
    if Linked(es) {
      forall x, c | x in es' && c in es' ensures c in es'[x].children <==> es'[c].parent == Ref(x) {
        assert es'[x].children == es[x].children && es'[c].parent == es[c].parent;
      }
    }
    if NoDupChildren(es) {
      forall x | x in es' ensures NoDup(es'[x].children) {
        assert es'[x].children == es[x].children;
      }
    }
  }

  /** The two arenas agree on every entity's lifecycle flag and component lists. */
  predicate SameComponents(es: map<Id, Entity>, es': map<Id, Entity>) {
    && es'.Keys == es.Keys
    && forall x :: x in es ==>
         && es'[x].created == es[x].created
         && es'[x].components == es[x].components
         && es'[x].deferred == es[x].deferred
  }

  lemma SameComponentsKeep(es: map<Id, Entity>, es': map<Id, Entity>, log: seq<Event>, evs: seq<Event>,
                           nextComponent: ComponentId, owners: map<ComponentId, Id>)
    requires SameComponents(es, es') && HooksOnly(evs)
    requires ComponentsBookkept(es, nextComponent, owners) && CreationCounted(es, log)
    requires LoggedBelow(log, nextComponent)
    ensures ComponentsBookkept(es', nextComponent, owners) && CreationCounted(es', log + evs)
    ensures LoggedBelow(log + evs, nextComponent)
  {
    assert forall x :: x in es' ==> DeferredFollowsCreation(es'[x]) by {
      forall x | x in es' ensures DeferredFollowsCreation(es'[x]) {
        assert DeferredFollowsCreation(es[x]);
      }
    }
    forall x, c | x in es' && c in es'[x].components
      ensures multiset(log + evs)[ComponentCreated(x, c)] == if es'[x].created then 1 else 0
    {
      HooksCountNoComponent(evs, x, c);
      assert c in es[x].components;
    }
    LoggedBelowConcat(log, evs, nextComponent, nextComponent);
  }

  /** Changing activity flags and logging hook calls keeps the invariant. */
  lemma FlagsKeepWellFormed(es: map<Id, Entity>, log: seq<Event>, nextId: Id, nextComponent: ComponentId,
                            owners: map<ComponentId, Id>, es': map<Id, Entity>, evs: seq<Event>)
    requires WellFormed(es, log, nextId, nextComponent, owners)
    requires SameStructure(es, es') && HooksOnly(evs)
    ensures WellFormed(es', log + evs, nextId, nextComponent, owners)
  {
    SameLinksKeepLinks(es, es', nextId);
    SameComponentsKeep(es, es', log, evs, nextComponent, owners);
  }

  /** A new entity: not created, active, no parent, no children, no components. */
  function NewEntity(name: string, local: Transform): (en: Entity)
    ensures !en.created && en.activeSelf && en.activeHierarchy && en.parent == Null
    ensures en.children == [] && en.components == [] && en.deferred == []
  {
    Entity(name, false, true, true, Null, [], [], [], local)
  }

  /** Adding an entity under a fresh id keeps the invariant. */
  lemma CreateKeepsWellFormed(es: map<Id, Entity>, log: seq<Event>, nextId: Id, nextComponent: ComponentId,
                              owners: map<ComponentId, Id>, name: string, local: Transform)
    requires WellFormed(es, log, nextId, nextComponent, owners)
    ensures nextId !in es
    ensures WellFormed(es[nextId := NewEntity(name, local)], log, nextId + 1, nextComponent, owners)
  {
    var es' := es[nextId := NewEntity(name, local)];
    assert Linked(es') by {
      forall x, c | x in es' && c in es' ensures c in es'[x].children <==> es'[c].parent == Ref(x) {
        if x != nextId && c != nextId {
          assert es'[x] == es[x] && es'[c] == es[c];
        }
      }
    }
    assert ComponentsBookkept(es', nextComponent, owners) by {
      assert forall x, c :: x in es' && c in es'[x].components ==> x in es && es'[x] == es[x];
    }
  }

  /** The arena with component `c` attached to `e`: deferred while `e` is not created. */
  function Attach(es: map<Id, Entity>, e: Id, c: ComponentId): (r: map<Id, Entity>)
    requires e in es
    ensures r.Keys == es.Keys
    ensures r[e].components == es[e].components + [c]
    ensures r[e].deferred == if es[e].created then es[e].deferred else es[e].deferred + [c]
    ensures r[e] == es[e].(components := r[e].components, deferred := r[e].deferred)
    ensures forall x :: x in es && x != e ==> r[x] == es[x]
  {
    var en := es[e].(components := es[e].components + [c]);
    if en.created then es[e := en] else es[e := en.(deferred := en.deferred + [c])]
  }

  /** add_component with a fresh id keeps the invariant, created entity or not. */
  lemma AttachKeepsWellFormed(es: map<Id, Entity>, log: seq<Event>, nextId: Id, nextComponent: ComponentId,
                              owners: map<ComponentId, Id>, e: Id)
    requires WellFormed(es, log, nextId, nextComponent, owners) && e in es
    ensures forall x :: x in es ==> nextComponent !in es[x].components
    ensures var c := nextComponent;
      WellFormed(Attach(es, e, c),
                 if es[e].created then log + [ComponentCreated(e, c)] else log,
                 nextId, nextComponent + 1,
                 if es[e].created then owners[c := e] else owners)
  {
    var c := nextComponent;
    var es' := Attach(es, e, c);
    var log' := if es[e].created then log + [ComponentCreated(e, c)] else log;
    var owners' := if es[e].created then owners[c := e] else owners;
    SameLinksKeepLinks(es, es', nextId);
    AttachBookkept(es, nextComponent, owners, e);
    AttachCounted(es, log, nextComponent, owners, e);
    LoggedBelowConcat(log, [ComponentCreated(e, c)], nextComponent, nextComponent + 1);
  }

  lemma AttachBookkept(es: map<Id, Entity>, nextComponent: ComponentId, owners: map<ComponentId, Id>, e: Id)
    requires ComponentsBookkept(es, nextComponent, owners) && e in es
    ensures var c := nextComponent;
      ComponentsBookkept(Attach(es, e, c), nextComponent + 1, if es[e].created then owners[c := e] else owners)
  {
    var c := nextComponent;
    var es' := Attach(es, e, c);
    assert c !in es[e].components;
    NoDupAppendComponent(es[e].components, c);
    assert DeferredFollowsCreation(es'[e]);
    AttachOwners(es, nextComponent, owners, e);
    AttachFresh(es, nextComponent, owners, e);
  }

  /** Where the new component sits: only in the list of `e`, and nowhere before. */
  lemma AttachPlaces(es: map<Id, Entity>, nextComponent: ComponentId, owners: map<ComponentId, Id>, e: Id)
    requires ComponentsFresh(es, nextComponent, owners) && e in es
    ensures var es' := Attach(es, e, nextComponent);
      forall x, d :: x in es' && d in es'[x].components ==>
        (d == nextComponent ==> x == e) && (d != nextComponent ==> d in es[x].components)
  {
  }

  lemma AttachOwners(es: map<Id, Entity>, nextComponent: ComponentId, owners: map<ComponentId, Id>, e: Id)
    requires ComponentsFresh(es, nextComponent, owners) && OwnersBound(es, owners) && e in es
    ensures OwnersBound(Attach(es, e, nextComponent), if es[e].created then owners[nextComponent := e] else owners)
  {
    AttachPlaces(es, nextComponent, owners, e);
  }

  lemma AttachFresh(es: map<Id, Entity>, nextComponent: ComponentId, owners: map<ComponentId, Id>, e: Id)
    requires ComponentsFresh(es, nextComponent, owners) && e in es
    ensures ComponentsFresh(Attach(es, e, nextComponent), nextComponent + 1,
                            if es[e].created then owners[nextComponent := e] else owners)
  {
    AttachPlaces(es, nextComponent, owners, e);
  }

  lemma AttachCounted(es: map<Id, Entity>, log: seq<Event>, nextComponent: ComponentId, owners: map<ComponentId, Id>, e: Id)
    requires ComponentsBookkept(es, nextComponent, owners) && LoggedBelow(log, nextComponent)
    requires CreationCounted(es, log) && e in es
    ensures var c := nextComponent;
      CreationCounted(Attach(es, e, c), if es[e].created then log + [ComponentCreated(e, c)] else log)
  {
    var c := nextComponent;
    var es' := Attach(es, e, c);
    var log' := if es[e].created then log + [ComponentCreated(e, c)] else log;
    forall i | 0 <= i < |log| ensures log[i] != ComponentCreated(e, c) {
      assert !IsHook(log[i]) ==> log[i].component < c;
    }
    assert ComponentCreated(e, c) !in log;
    forall x, d | x in es' && d in es'[x].components
      ensures multiset(log')[ComponentCreated(x, d)] == if es'[x].created then 1 else 0
    {
      if d != c {
        assert d in es[x].components;
      }
    }
  }

  lemma NoDupAppendComponent(s: seq<ComponentId>, c: ComponentId)
    requires NoDup(s) && c !in s
    ensures NoDup(s + [c])
  {
    forall i, j | 0 <= i < j < |s + [c]| ensures (s + [c])[i] != (s + [c])[j] {
      assert (s + [c])[i] == s[i];
    }
  }

  /** The owner map once the components `cs` are all bound to `e`. */
  function BindAll(owners: map<ComponentId, Id>, cs: seq<ComponentId>, e: Id): (r: map<ComponentId, Id>)
    ensures forall c :: c in r <==> c in owners || c in cs
    ensures forall c :: c in r ==> r[c] == if c in cs then e else owners[c]
  {
    owners + map c | c in cs :: e
  }

  /** Binding one more component is one more map update. */
  lemma BindAllStep(owners: map<ComponentId, Id>, cs: seq<ComponentId>, n: nat, e: Id)
    requires n < |cs|
    ensures BindAll(owners, cs[..n + 1], e) == BindAll(owners, cs[..n], e)[cs[n] := e]
  {
    assert cs[..n + 1] == cs[..n] + [cs[n]];
    assert forall x :: x in cs[..n + 1] <==> x in cs[..n] || x == cs[n];
  }

  /**
   * post_create: marking `e` created, binding and announcing each deferred component
   * once and emptying the deferred list keeps the invariant.
   */
  lemma PostCreateKeepsWellFormed(es: map<Id, Entity>, log: seq<Event>, nextId: Id, nextComponent: ComponentId,
                                  owners: map<ComponentId, Id>, e: Id)
    requires WellFormed(es, log, nextId, nextComponent, owners) && e in es
    ensures WellFormed(es[e := es[e].(created := true, deferred := [])],
                       log + CreatedEvents(e, es[e].deferred),
                       nextId, nextComponent,
                       BindAll(owners, es[e].deferred, e))
  {
    var d := es[e].deferred;
    var es' := es[e := es[e].(created := true, deferred := [])];
    SameLinksKeepLinks(es, es', nextId);
    PostCreateBookkept(es, nextComponent, owners, e);
    PostCreateCounted(es, log, e);
    assert LoggedBelow(CreatedEvents(e, d), nextComponent) by {
      forall i | 0 <= i < |d| ensures d[i] < nextComponent {
        assert d[i] in es[e].components;
      }
    }
    LoggedBelowConcat(log, CreatedEvents(e, d), nextComponent, nextComponent);
  }

  lemma PostCreateBookkept(es: map<Id, Entity>, nextComponent: ComponentId, owners: map<ComponentId, Id>, e: Id)
    requires ComponentsBookkept(es, nextComponent, owners) && e in es
    ensures ComponentsBookkept(es[e := es[e].(created := true, deferred := [])], nextComponent,
                               BindAll(owners, es[e].deferred, e))
  {
    var d := es[e].deferred;
    var es' := es[e := es[e].(created := true, deferred := [])];
    var owners' := BindAll(owners, d, e);
    assert DeferredFollowsCreation(es[e]);
    forall x, c | x in es' && c in es'[x].components
      ensures c in d <==> x == e && !es[e].created
    {
      assert c in es[x].components;
    }
    assert OwnersBound(es', owners');
    forall c | c in owners' ensures c < nextComponent {
      if c in d {
        assert c in es[e].components;
      }
    }
  }

  lemma PostCreateCounted(es: map<Id, Entity>, log: seq<Event>, e: Id)
    requires CreationCounted(es, log) && e in es && DeferredFollowsCreation(es[e])
    ensures CreationCounted(es[e := es[e].(created := true, deferred := [])], log + CreatedEvents(e, es[e].deferred))
  {
    var d := es[e].deferred;
    var es' := es[e := es[e].(created := true, deferred := [])];
    forall x, c | x in es' && c in es'[x].components
      ensures multiset(log + CreatedEvents(e, d))[ComponentCreated(x, c)] == if es'[x].created then 1 else 0
    {
      CreatedEventsCount(e, d, x, c);
      assert c in es[x].components;
    }
  }

  /** Logging pre_destroy calls for existing components keeps the invariant. */
  lemma DestroyedKeepWellFormed(es: map<Id, Entity>, log: seq<Event>, nextId: Id, nextComponent: ComponentId,
                                owners: map<ComponentId, Id>, e: Id)
    requires WellFormed(es, log, nextId, nextComponent, owners) && e in es
    ensures WellFormed(es, log + DestroyedEvents(e, es[e].components), nextId, nextComponent, owners)
  {
    var cs := es[e].components;
    var evs := DestroyedEvents(e, cs);
    forall x, c | x in es && c in es[x].components
      ensures multiset(log + evs)[ComponentCreated(x, c)] == multiset(log)[ComponentCreated(x, c)]
    {
      forall i | 0 <= i < |evs| ensures evs[i] != ComponentCreated(x, c) { }
      assert ComponentCreated(x, c) !in evs;
    }
    assert LoggedBelow(evs, nextComponent) by {
      forall i | 0 <= i < |cs| ensures cs[i] < nextComponent {
        assert cs[i] in es[e].components;
      }
    }
    LoggedBelowConcat(log, evs, nextComponent, nextComponent);
  }

  /** Removing an entity from the arena keeps the invariant of the rest. */
  lemma ReleaseKeepsWellFormed(es: map<Id, Entity>, log: seq<Event>, nextId: Id, nextComponent: ComponentId,
                               owners: map<ComponentId, Id>, e: Id)
    requires WellFormed(es, log, nextId, nextComponent, owners)
    ensures WellFormed(es - {e}, log, nextId, nextComponent, owners)
  {
  }
}
