/**
 * The state of one scene-graph entity and of the arena that owns every entity.
 *
 * An entity is a node: two activity flags, a lifecycle flag, a weak handle to its
 * parent, weak handles to its children, and its components (those attached so far and
 * those still waiting for the entity's own creation). All entities live in an arena,
 * a map from Id to Entity; an Id is alive exactly when it is a key of that map, and a
 * weak handle is valid exactly when it refers to a live Id.
 */
module EntityState {

  type Id = nat
  type ComponentId = nat

  /** A weak handle: either empty, or a reference to an Id that may have died since. */
  datatype Handle = Null | Ref(id: Id)

  /**
   * The local transform of an entity. Its numeric content (position, rotation, scale)
   * is not modelled: only which transform an entity holds matters to the hierarchy.
   */
  datatype Transform = Transform(tag: nat)

  datatype Entity = Entity(
    name: string,
    created: bool,
    activeSelf: bool,
    activeHierarchy: bool,
    parent: Handle,
    children: seq<Id>,
    components: seq<ComponentId>,
    deferred: seq<ComponentId>,
    local: Transform)

  /**
   * Observable hook calls, in the order they happen: an entity's post_enable and
   * post_disable, and a component's post_create (after its owner was bound) and
   * pre_destroy.
   */
  datatype Event =
    | Enabled(entity: Id)
    | Disabled(entity: Id)
    | ComponentCreated(entity: Id, component: ComponentId)
    | ComponentDestroyed(entity: Id, component: ComponentId)

  predicate IsHook(ev: Event) {
    ev.Enabled? || ev.Disabled?
  }

  predicate HooksOnly(evs: seq<Event>) {
    forall i :: 0 <= i < |evs| ==> IsHook(evs[i])
  }

  lemma HooksConcat(s1: seq<Event>, s2: seq<Event>)
    requires HooksOnly(s1) && HooksOnly(s2)
    ensures HooksOnly(s1 + s2)
  {
    forall i | 0 <= i < |s1 + s2| ensures IsHook((s1 + s2)[i]) {
      if i < |s1| {
        assert (s1 + s2)[i] == s1[i];
      } else {
        assert (s1 + s2)[i] == s2[i - |s1|];
      }
    }
  }

  lemma AppendAssoc(a: seq<Event>, b: seq<Event>, c: seq<Event>)
    ensures (a + b) + c == a + (b + c)
  {
  }

  /** No entity is the subject of two events of the sequence. */
  predicate DistinctSubjects(evs: seq<Event>) {
    forall i, j :: 0 <= i < j < |evs| ==> evs[i].entity != evs[j].entity
  }

  /** The entities the events are about. */
  function Subjects(evs: seq<Event>): set<Id> {
    set i | 0 <= i < |evs| :: evs[i].entity
  }

  lemma SubjectsConcat(s1: seq<Event>, s2: seq<Event>)
    ensures Subjects(s1 + s2) == Subjects(s1) + Subjects(s2)
  {
    forall x | x in Subjects(s1 + s2) ensures x in Subjects(s1) + Subjects(s2) {
      var i :| 0 <= i < |s1 + s2| && (s1 + s2)[i].entity == x;
      if i >= |s1| {
        assert s2[i - |s1|] == (s1 + s2)[i];
      }
    }
    forall x | x in Subjects(s2) ensures x in Subjects(s1 + s2) {
      var i :| 0 <= i < |s2| && s2[i].entity == x;
      assert (s1 + s2)[i + |s1|] == s2[i];
    }
    forall x | x in Subjects(s1) ensures x in Subjects(s1 + s2) {
      var i :| 0 <= i < |s1| && s1[i].entity == x;
      assert (s1 + s2)[i] == s1[i];
    }
  }

  lemma DistinctConcat(s1: seq<Event>, s2: seq<Event>)
    requires DistinctSubjects(s1) && DistinctSubjects(s2) && Subjects(s1) !! Subjects(s2)
    ensures DistinctSubjects(s1 + s2)
  {
    forall i, j | 0 <= i < j < |s1 + s2| ensures (s1 + s2)[i].entity != (s1 + s2)[j].entity {
      if j < |s1| {
        assert (s1 + s2)[i] == s1[i] && (s1 + s2)[j] == s1[j];
      } else if i >= |s1| {
        assert (s1 + s2)[i] == s2[i - |s1|] && (s1 + s2)[j] == s2[j - |s1|];
      } else {
        assert (s1 + s2)[i] == s1[i] && (s1 + s2)[j] == s2[j - |s1|];
        assert s1[i].entity in Subjects(s1) && s2[j - |s1|].entity in Subjects(s2);
      }
    }
  }

  predicate NoDup<T(==)>(s: seq<T>) {
    forall i, j :: 0 <= i < j < |s| ==> s[i] != s[j]
  }

  predicate IsValid(es: map<Id, Entity>, h: Handle) {
    h.Ref? && h.id in es
  }

  /** The hierarchy activity an entity inherits: its valid parent's, or true at a root. */
  function ParentActive(es: map<Id, Entity>, x: Id): bool
    requires x in es
  {
    var p := es[x].parent;
    if IsValid(es, p) then es[p.id].activeHierarchy else true
  }

  /** The activity invariant at one entity: hierarchy activity is self AND inherited. */
  predicate ConsistentAt(es: map<Id, Entity>, x: Id)
    requires x in es
  {
    es[x].activeHierarchy == (es[x].activeSelf && ParentActive(es, x))
  }

  predicate HierarchyConsistent(es: map<Id, Entity>) {
    forall x :: x in es ==> ConsistentAt(es, x)
  }

  /**
   * Parent and children links agree: a live entity is listed among a live entity's
   * children exactly when its parent handle refers to that entity.
   */
  predicate Linked(es: map<Id, Entity>) {
    forall x, c :: x in es && c in es ==> (c in es[x].children <==> es[c].parent == Ref(x))
  }

  predicate NoDupChildren(es: map<Id, Entity>) {
    forall x :: x in es ==> NoDup(es[x].children)
  }

  /**
   * A witness that walking down the children lists terminates: every live child has a
   * strictly smaller rank than every live entity listing it. No entity can then be its
   * own descendant.
   */
  predicate ChildrenRanked(es: map<Id, Entity>, rank: map<Id, nat>) {
    && (forall x :: x in es ==> x in rank)
    && (forall x, c :: x in es && c in es && c in es[x].children ==> rank[c] < rank[x])
  }

  /** The two maps hold the same entities, which differ at most in hierarchy activity. */
  predicate SameShape(es: map<Id, Entity>, es': map<Id, Entity>) {
    && es'.Keys == es.Keys
    && forall x :: x in es ==> es'[x] == es[x].(activeHierarchy := es'[x].activeHierarchy)
  }

  /** The two maps hold the same entities, which differ at most in their activity flags. */
  predicate SameStructure(es: map<Id, Entity>, es': map<Id, Entity>) {
    && es'.Keys == es.Keys
    && forall x :: x in es ==>
         es'[x] == es[x].(activeSelf := es'[x].activeSelf, activeHierarchy := es'[x].activeHierarchy)
  }

  /** The two maps hold the same entities with the same parent and children links. */
  predicate SameLinks(es: map<Id, Entity>, es': map<Id, Entity>) {
    && es'.Keys == es.Keys
    && forall x :: x in es ==> es'[x].parent == es[x].parent && es'[x].children == es[x].children
  }

  function Flags(es: map<Id, Entity>): map<Id, bool> {
    map x | x in es :: es[x].activeHierarchy
  }

  /**
   * The hook calls `evs` tell exactly how the hierarchy flags went from `before` to
   * `after`: every post_enable turns a false flag true, every post_disable turns a true
   * flag false, and replaying them from `before` gives `after`.
   */
  predicate Narrates(before: map<Id, bool>, evs: seq<Event>, after: map<Id, bool>)
    decreases |evs|
  {
    if evs == [] then before == after
    else
      var ev := evs[0];
      && IsHook(ev)
      && ev.entity in before
      && before[ev.entity] == ev.Disabled?
      && Narrates(before[ev.entity := ev.Enabled?], evs[1..], after)
  }

  lemma {:induction false} NarratesThen(a: map<Id, bool>, e1: seq<Event>, b: map<Id, bool>, e2: seq<Event>, c: map<Id, bool>)
    requires Narrates(a, e1, b) && Narrates(b, e2, c)
    ensures Narrates(a, e1 + e2, c)
    decreases |e1|
  {
    if e1 != [] {
      var ev := e1[0];
      NarratesThen(a[ev.entity := ev.Enabled?], e1[1..], b, e2, c);
      assert e1 + e2 != [] && (e1 + e2)[0] == ev && (e1 + e2)[1..] == e1[1..] + e2;
    } else {
      assert e1 + e2 == e2;
    }
  }

  /**
   * When no entity is the subject of two hook calls, an entity's flag changed exactly
   * when one hook call is about it, and that call is post_enable exactly when the flag
   * ended up true.
   */
  lemma {:induction false} NarratedChange(before: map<Id, bool>, evs: seq<Event>, after: map<Id, bool>, x: Id)
    requires Narrates(before, evs, after) && DistinctSubjects(evs) && x in before
    ensures x in after
    ensures (exists i :: 0 <= i < |evs| && evs[i].entity == x) <==> after[x] != before[x]
    ensures forall i :: 0 <= i < |evs| && evs[i].entity == x ==> (evs[i].Enabled? <==> after[x])
    decreases |evs|
  {
    if evs != [] {
      var ev := evs[0];
      var mid := before[ev.entity := ev.Enabled?];
      assert DistinctSubjects(evs[1..]) by {
        forall i, j | 0 <= i < j < |evs[1..]| ensures evs[1..][i].entity != evs[1..][j].entity {
          assert evs[1..][i] == evs[i + 1] && evs[1..][j] == evs[j + 1];
        }
      }
      NarratedChange(mid, evs[1..], after, x);
      if ev.entity == x {
        NarratedUntouched(mid, evs[1..], after, x);
        assert evs[0].entity == x;
      } else {
        if exists i :: 0 <= i < |evs| && evs[i].entity == x {
          var i :| 0 <= i < |evs| && evs[i].entity == x;
          assert evs[1..][i - 1] == evs[i];
        }
        forall i | 0 <= i < |evs[1..]| && evs[1..][i].entity == x
          ensures exists j :: 0 <= j < |evs| && evs[j].entity == x
        {
          assert evs[i + 1] == evs[1..][i];
        }
        forall i | 0 <= i < |evs| && evs[i].entity == x
          ensures evs[i].Enabled? <==> after[x]
        {
          assert evs[1..][i - 1] == evs[i];
        }
      }
    }
  }

  /** A flag that no later hook call is about keeps its value. */
  lemma {:induction false} NarratedUntouched(before: map<Id, bool>, evs: seq<Event>, after: map<Id, bool>, x: Id)
    requires Narrates(before, evs, after) && x in before
    requires forall i :: 0 <= i < |evs| ==> evs[i].entity != x
    ensures x in after && after[x] == before[x]
    decreases |evs|
  {
    if evs != [] {
      var ev := evs[0];
      NarratedUntouched(before[ev.entity := ev.Enabled?], evs[1..], after, x);
    }
  }
}
