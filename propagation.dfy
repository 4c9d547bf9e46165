/**
 * Activity propagation down the children lists (Entity::propagate_active_change).
 *
 * PropagateFrom is the specification of one call: it folds over the node's children in
 * list order, skipping handles that are no longer valid, passes the node's new
 * hierarchy activity to each, and only afterwards commits the node's own flag and
 * fires at most one hook. The lemmas state what such a walk achieves: the hook calls
 * narrate the flag changes exactly; on a well-linked tree no entity gets two hook
 * calls, every descendant's flag is the AND of the self flags along its path; and a
 * walk seeded with the parent's state restores the activity invariant everywhere.
 */
module Propagation {
  import opened EntityState

  /** The entities after a walk, and the hook calls it made, in order. */
  datatype Outcome = Outcome(entities: map<Id, Entity>, events: seq<Event>)

  lemma SameShapeRanked(es: map<Id, Entity>, es': map<Id, Entity>, rank: map<Id, nat>)
    requires SameShape(es, es') && ChildrenRanked(es, rank)
    ensures ChildrenRanked(es', rank)
  {
    forall x, c | x in es' && c in es' && c in es'[x].children ensures rank[c] < rank[x] {
      assert es'[x].children == es[x].children;
    }
  }

  lemma SameShapeTrans(a: map<Id, Entity>, b: map<Id, Entity>, c: map<Id, Entity>)
    requires SameShape(a, b) && SameShape(b, c)
    ensures SameShape(a, c)
  {
  }

  lemma CommitKeepsShape(es: map<Id, Entity>, mid: map<Id, Entity>, e: Id, v: bool)
    requires SameShape(es, mid) && e in es
    ensures SameShape(es, mid[e := mid[e].(activeHierarchy := v)])
  {
  }

  /** The hook an entity fires when its hierarchy flag goes from `was` to `now`. */
  function Hook(e: Id, was: bool, now: bool): (evs: seq<Event>)
    ensures |evs| <= 1 && HooksOnly(evs) && Subjects(evs) <= {e} && DistinctSubjects(evs)
    ensures evs != [] <==> was != now
    ensures forall i :: 0 <= i < |evs| ==> evs[i] == (if now then Enabled(e) else Disabled(e))
  {
    if now && !was then [Enabled(e)]
    else if !now && was then [Disabled(e)]
    else []
  }

  /** One call of propagate_active_change on entity `e` with the given parent state. */
  ghost function PropagateFrom(es: map<Id, Entity>, e: Id, parentActive: bool, rank: map<Id, nat>): (r: Outcome)
    requires e in es && ChildrenRanked(es, rank)
    ensures SameShape(es, r.entities) && HooksOnly(r.events)
    ensures r.entities[e].activeHierarchy == (parentActive && es[e].activeSelf)
    ensures forall x :: x in es && x != e && rank[x] >= rank[e] ==> r.entities[x] == es[x]
    decreases rank[e], 1
  {
    var newActive := parentActive && es[e].activeSelf;
    var below := PropagateChildren(es, es[e].children, newActive, rank, rank[e]);
    CommitKeepsShape(es, below.entities, e, newActive);
    HooksConcat(below.events, Hook(e, es[e].activeHierarchy, newActive));
    var committed := below.entities[e := below.entities[e].(activeHierarchy := newActive)];
    Outcome(committed, below.events + Hook(e, es[e].activeHierarchy, newActive))
  }

  /** The loop over a node's children: each still-valid child, in list order. */
  ghost function PropagateChildren(es: map<Id, Entity>, kids: seq<Id>, active: bool, rank: map<Id, nat>, bound: nat): (r: Outcome)
    requires ChildrenRanked(es, rank)
    requires forall k :: k in kids && k in es ==> rank[k] < bound
    ensures SameShape(es, r.entities) && HooksOnly(r.events)
    ensures forall x :: x in es && rank[x] >= bound ==> r.entities[x] == es[x]
    decreases bound, 0, |kids|
  {
    if kids == [] then Outcome(es, [])
    else
      var first := if kids[0] in es then PropagateFrom(es, kids[0], active, rank) else Outcome(es, []);
      SameShapeRanked(es, first.entities, rank);
      var rest := PropagateChildren(first.entities, kids[1..], active, rank, bound);
      SameShapeTrans(es, first.entities, rest.entities);
      HooksConcat(first.events, rest.events);
      Outcome(rest.entities, first.events + rest.events)
  }

  /** The walk from `e` is the walk over its children followed by the commit of `e`. */
  lemma CommitStep(es: map<Id, Entity>, e: Id, parentActive: bool, rank: map<Id, nat>, below: Outcome)
    requires e in es && ChildrenRanked(es, rank)
    requires below == PropagateChildren(es, es[e].children, parentActive && es[e].activeSelf, rank, rank[e])
    ensures e in below.entities && below.entities[e] == es[e]
    ensures var newActive := parentActive && es[e].activeSelf;
      && PropagateFrom(es, e, parentActive, rank).entities == below.entities[e := es[e].(activeHierarchy := newActive)]
      && PropagateFrom(es, e, parentActive, rank).events == below.events + Hook(e, es[e].activeHierarchy, newActive)
  {
  }

  /**
   * The invariant of the loop over a children list, `i` entries in: what is left to do
   * from the current arena and log still leads to the outcome of the whole loop.
   */
  ghost predicate ChildrenLoop(es: map<Id, Entity>, log: seq<Event>, kids: seq<Id>, i: nat, active: bool,
                               rank: map<Id, nat>, bound: nat, all: Outcome, log0: seq<Event>)
  {
    && i <= |kids| && ChildrenRanked(es, rank)
    && (forall k :: k in kids && k in es ==> rank[k] < bound)
    && PropagateChildren(es, kids[i..], active, rank, bound).entities == all.entities
    && log + PropagateChildren(es, kids[i..], active, rank, bound).events == log0 + all.events
  }

  lemma ChildrenLoopStart(es: map<Id, Entity>, log: seq<Event>, kids: seq<Id>, active: bool, rank: map<Id, nat>, bound: nat)
    requires ChildrenRanked(es, rank)
    requires forall k :: k in kids && k in es ==> rank[k] < bound
    ensures ChildrenLoop(es, log, kids, 0, active, rank, bound, PropagateChildren(es, kids, active, rank, bound), log)
  {
    assert kids[0..] == kids;
  }

  lemma ChildrenLoopEnd(es: map<Id, Entity>, log: seq<Event>, kids: seq<Id>, active: bool, rank: map<Id, nat>,
                        bound: nat, all: Outcome, log0: seq<Event>)
    requires ChildrenLoop(es, log, kids, |kids|, active, rank, bound, all, log0)
    ensures es == all.entities && log == log0 + all.events
  {
    assert kids[|kids|..] == [];
  }

  /**
   * One turn of the loop: walking from `kids[i]` when it is still valid, and doing
   * nothing otherwise, keeps the invariant one entry further.
   */
  lemma ChildrenLoopStep(es: map<Id, Entity>, log: seq<Event>, kids: seq<Id>, i: nat, active: bool, rank: map<Id, nat>,
                         bound: nat, all: Outcome, log0: seq<Event>, es': map<Id, Entity>, log': seq<Event>)
    requires ChildrenLoop(es, log, kids, i, active, rank, bound, all, log0) && i < |kids|
    requires kids[i] in es ==>
      es' == PropagateFrom(es, kids[i], active, rank).entities && log' == log + PropagateFrom(es, kids[i], active, rank).events
    requires kids[i] !in es ==> es' == es && log' == log
    ensures ChildrenLoop(es', log', kids, i + 1, active, rank, bound, all, log0)
  {
    var first := if kids[i] in es then PropagateFrom(es, kids[i], active, rank) else Outcome(es, []);
    ChildrenStep(es, kids, i, active, rank, bound, first);
    var rest := PropagateChildren(first.entities, kids[i + 1..], active, rank, bound);
    assert log' == log + first.events;
    AppendAssoc(log, first.events, rest.events);
  }

  /** Handling `kids[i]` and then the rest of the list is handling the list from `i` on. */
  lemma ChildrenStep(es: map<Id, Entity>, kids: seq<Id>, i: nat, active: bool, rank: map<Id, nat>, bound: nat, first: Outcome)
    requires ChildrenRanked(es, rank) && i < |kids|
    requires forall k :: k in kids && k in es ==> rank[k] < bound
    requires first == if kids[i] in es then PropagateFrom(es, kids[i], active, rank) else Outcome(es, [])
    ensures first.entities.Keys == es.Keys && ChildrenRanked(first.entities, rank)
    ensures var rest := PropagateChildren(first.entities, kids[i + 1..], active, rank, bound);
      PropagateChildren(es, kids[i..], active, rank, bound) == Outcome(rest.entities, first.events + rest.events)
  {
    SameShapeRanked(es, first.entities, rank);
    var here := kids[i..];
    assert here[0] == kids[i] && here[1..] == kids[i + 1..];
  }

  /**
   * `a` is `y` or an ancestor of `y`, following valid parent handles upwards. The rank
   * guard only bounds the walk; on a well-linked ranked arena it always holds.
   */
  ghost predicate Below(es: map<Id, Entity>, rank: map<Id, nat>, a: Id, y: Id)
    requires a in es && y in es && ChildrenRanked(es, rank)
    decreases rank[a] as int - rank[y] as int
  {
    || y == a
    || (var p := es[y].parent;
        && IsValid(es, p)
        && rank[y] < rank[p.id] <= rank[a]
        && Below(es, rank, a, p.id))
  }

  /** The child of `a` on the path from `a` down to its strict descendant `y`. */
  ghost function Top(es: map<Id, Entity>, rank: map<Id, nat>, a: Id, y: Id): (k: Id)
    requires a in es && y in es && ChildrenRanked(es, rank)
    requires Below(es, rank, a, y) && y != a
    ensures k in es && es[k].parent == Ref(a) && Below(es, rank, k, y)
    decreases rank[a] as int - rank[y] as int
  {
    var p := es[y].parent.id;
    if p == a then y else Top(es, rank, a, p)
  }

  /** A child of a descendant of `b` is a descendant of `b`. */
  lemma BelowChild(es: map<Id, Entity>, rank: map<Id, nat>, b: Id, y: Id, c: Id)
    requires Linked(es) && ChildrenRanked(es, rank)
    requires b in es && y in es && c in es && c in es[y].children
    requires Below(es, rank, b, y)
    ensures Below(es, rank, b, c)
  {
    assert es[c].parent == Ref(y);
  }

  /**
   * Everything below a child `k` of `a` is strictly below `a`, and `k` is the child of
   * `a` on its path.
   */
  lemma {:induction false} BelowThroughChild(es: map<Id, Entity>, rank: map<Id, nat>, a: Id, k: Id, y: Id)
    requires Linked(es) && ChildrenRanked(es, rank)
    requires a in es && k in es && y in es && es[k].parent == Ref(a)
    requires Below(es, rank, k, y)
    ensures Below(es, rank, a, y) && y != a && Top(es, rank, a, y) == k
    decreases rank[k] - rank[y]
  {
    assert k in es[a].children;
    if y != k {
      var p := es[y].parent.id;
      BelowThroughChild(es, rank, a, k, p);
    }
  }

  /** Ancestry depends on the links alone: arenas with the same links agree on it. */
  lemma SameLinksBelow(es: map<Id, Entity>, es': map<Id, Entity>, rank: map<Id, nat>)
    requires SameLinks(es, es') && ChildrenRanked(es, rank)
    ensures ChildrenRanked(es', rank)
    ensures forall a, y :: a in es && y in es ==> (Below(es', rank, a, y) <==> Below(es, rank, a, y))
  {
    forall x, c | x in es' && c in es' && c in es'[x].children ensures rank[c] < rank[x] {
      assert es'[x].children == es[x].children;
    }
    forall a, y | a in es && y in es ensures Below(es', rank, a, y) <==> Below(es, rank, a, y) {
      SameLinksBelowAt(es, es', rank, a, y);
    }
  }

  lemma {:induction false} SameLinksBelowAt(es: map<Id, Entity>, es': map<Id, Entity>, rank: map<Id, nat>, a: Id, y: Id)
    requires SameLinks(es, es') && ChildrenRanked(es, rank) && ChildrenRanked(es', rank)
    requires a in es && y in es
    ensures Below(es', rank, a, y) <==> Below(es, rank, a, y)
    decreases rank[a] as int - rank[y] as int
  {
    assert es'[y].parent == es[y].parent;
    var p := es[y].parent;
    if y != a && IsValid(es, p) && rank[y] < rank[p.id] <= rank[a] {
      SameLinksBelowAt(es, es', rank, a, p.id);
    }
  }

  // ----- The hook calls narrate the flag changes -----

  lemma FlagsCommit(es: map<Id, Entity>, e: Id, v: bool)
    requires e in es
    ensures Flags(es[e := es[e].(activeHierarchy := v)]) == Flags(es)[e := v]
  {
  }

  lemma HookNarrates(flags: map<Id, bool>, e: Id, v: bool)
    requires e in flags
    ensures Narrates(flags, Hook(e, flags[e], v), flags[e := v])
  {
    if flags[e] == v {
      assert flags[e := v] == flags;
    } else {
      var evs := Hook(e, flags[e], v);
      assert evs[1..] == [];
    }
  }

  /**
   * Whatever the shape of the children lists, the hook calls of a walk replay exactly
   * the flag changes it makes: each node fires post_enable or post_disable precisely
   * when the value it commits differs from the value it held.
   */
  lemma {:induction false} PropagateNarrates(es: map<Id, Entity>, e: Id, parentActive: bool, rank: map<Id, nat>)
    requires e in es && ChildrenRanked(es, rank)
    ensures Narrates(Flags(es), PropagateFrom(es, e, parentActive, rank).events,
                     Flags(PropagateFrom(es, e, parentActive, rank).entities))
    decreases rank[e], 1
  {
    var newActive := parentActive && es[e].activeSelf;
    var below := PropagateChildren(es, es[e].children, newActive, rank, rank[e]);
    ChildrenNarrate(es, es[e].children, newActive, rank, rank[e]);
    var mid := below.entities;
    assert mid[e] == es[e];
    FlagsCommit(mid, e, newActive);
    HookNarrates(Flags(mid), e, newActive);
    NarratesThen(Flags(es), below.events, Flags(mid), Hook(e, es[e].activeHierarchy, newActive), Flags(mid)[e := newActive]);
  }

  lemma {:induction false} ChildrenNarrate(es: map<Id, Entity>, kids: seq<Id>, active: bool, rank: map<Id, nat>, bound: nat)
    requires ChildrenRanked(es, rank)
    requires forall k :: k in kids && k in es ==> rank[k] < bound
    ensures Narrates(Flags(es), PropagateChildren(es, kids, active, rank, bound).events,
                     Flags(PropagateChildren(es, kids, active, rank, bound).entities))
    decreases bound, 0, |kids|
  {
    if kids != [] {
      var first := if kids[0] in es then PropagateFrom(es, kids[0], active, rank) else Outcome(es, []);
      if kids[0] in es {
        PropagateNarrates(es, kids[0], active, rank);
      }
      SameShapeRanked(es, first.entities, rank);
      ChildrenNarrate(first.entities, kids[1..], active, rank, bound);
      var rest := PropagateChildren(first.entities, kids[1..], active, rank, bound);
      NarratesThen(Flags(es), first.events, Flags(first.entities), rest.events, Flags(rest.entities));
    }
  }

  // ----- On a well-linked tree: each walk stays in its subtree -----

  /** The arena is a forest whose links agree both ways and whose lists repeat nothing. */
  ghost predicate Forest(es: map<Id, Entity>, rank: map<Id, nat>) {
    Linked(es) && NoDupChildren(es) && ChildrenRanked(es, rank)
  }

  /**
   * A walk from `e` (on any arena shaped like `orig`) changes only descendants of `e`,
   * makes hook calls only about them, and never two about the same entity.
   */
  lemma {:induction false} PropagateConfined(orig: map<Id, Entity>, es: map<Id, Entity>, e: Id, active: bool, rank: map<Id, nat>)
    requires Forest(orig, rank) && SameShape(orig, es) && e in es
    ensures ChildrenRanked(es, rank)
    ensures var r := PropagateFrom(es, e, active, rank);
      && (forall x :: x in es && r.entities[x] != es[x] ==> Below(orig, rank, e, x))
      && (forall x :: x in Subjects(r.events) ==> x in es && Below(orig, rank, e, x))
      && DistinctSubjects(r.events)
    decreases rank[e], 1
  {
    SameShapeRanked(orig, es, rank);
    var newActive := active && es[e].activeSelf;
    var kids := es[e].children;
    assert kids == orig[e].children;
    forall k | k in kids && k in orig ensures orig[k].parent == Ref(e) { }
    ChildrenConfined(orig, es, kids, newActive, rank, e);
    var below := PropagateChildren(es, kids, newActive, rank, rank[e]);
    CommitChanges(orig, rank, e, kids, es, below.entities, newActive);
    CommitSubjects(orig, rank, e, kids, es, below.events, Hook(e, es[e].activeHierarchy, newActive));
  }

  /** Committing the node's own flag keeps the walk's changes inside the subtree. */
  lemma CommitChanges(orig: map<Id, Entity>, rank: map<Id, nat>, e: Id, kids: seq<Id>, es: map<Id, Entity>, mid: map<Id, Entity>, v: bool)
    requires ChildrenRanked(orig, rank) && e in orig && es.Keys == orig.Keys && mid.Keys == es.Keys
    requires forall x :: x in es && mid[x] != es[x] ==> UnderOneOf(orig, rank, e, kids, x)
    ensures forall x :: x in es && mid[e := mid[e].(activeHierarchy := v)][x] != es[x] ==> Below(orig, rank, e, x)
  {
    forall x | x in es && x != e && mid[x] != es[x] ensures Below(orig, rank, e, x) {
      assert UnderOneOf(orig, rank, e, kids, x);
    }
    assert Below(orig, rank, e, e);
  }

  /** Appending the node's own hook keeps the hook calls inside the subtree and distinct. */
  lemma CommitSubjects(orig: map<Id, Entity>, rank: map<Id, nat>, e: Id, kids: seq<Id>, es: map<Id, Entity>, evs: seq<Event>, own: seq<Event>)
    requires ChildrenRanked(orig, rank) && e in orig && es.Keys == orig.Keys
    requires forall x :: x in Subjects(evs) ==> UnderOneOf(orig, rank, e, kids, x)
    requires DistinctSubjects(evs) && DistinctSubjects(own) && Subjects(own) <= {e}
    ensures forall x :: x in Subjects(evs + own) ==> x in es && Below(orig, rank, e, x)
    ensures DistinctSubjects(evs + own)
  {
    SubjectsConcat(evs, own);
    forall x | x in Subjects(evs + own) ensures x in es && Below(orig, rank, e, x) {
      if x != e {
        assert UnderOneOf(orig, rank, e, kids, x);
      }
    }
    assert e !in Subjects(evs);
    DistinctConcat(evs, own);
  }

  /** `x` lies strictly below `a`, under one of the children `kids` of `a`. */
  ghost predicate UnderOneOf(orig: map<Id, Entity>, rank: map<Id, nat>, a: Id, kids: seq<Id>, x: Id)
    requires a in orig && ChildrenRanked(orig, rank)
  {
    x in orig && Below(orig, rank, a, x) && x != a && Top(orig, rank, a, x) in kids
  }

  lemma {:induction false} ChildrenConfined(orig: map<Id, Entity>, es: map<Id, Entity>, kids: seq<Id>, active: bool, rank: map<Id, nat>, a: Id)
    requires Forest(orig, rank) && SameShape(orig, es) && a in orig
    requires NoDup(kids)
    requires forall k :: k in kids && k in orig ==> orig[k].parent == Ref(a)
    ensures ChildrenRanked(es, rank)
    ensures forall k :: k in kids && k in es ==> rank[k] < rank[a]
    ensures var r := PropagateChildren(es, kids, active, rank, rank[a]);
      && (forall x :: x in es && r.entities[x] != es[x] ==> UnderOneOf(orig, rank, a, kids, x))
      && (forall x :: x in Subjects(r.events) ==> UnderOneOf(orig, rank, a, kids, x))
      && DistinctSubjects(r.events)
    decreases rank[a], 0, |kids|
  {
    SameShapeRanked(orig, es, rank);
    forall k | k in kids && k in es ensures rank[k] < rank[a] {
      assert k in orig[a].children;
    }
    if kids != [] {
      var k0 := kids[0];
      var first := if k0 in es then PropagateFrom(es, k0, active, rank) else Outcome(es, []);
      FirstConfined(orig, es, kids, active, rank, a);
      SameShapeTrans(orig, es, first.entities);
      NoDupTail(kids);
      ChildrenConfined(orig, first.entities, kids[1..], active, rank, a);
      var rest := PropagateChildren(first.entities, kids[1..], active, rank, rank[a]);
      CombineConfined(orig, rank, a, kids, es, first, rest);
    }
  }

  /** The first child's walk stays under that child. */
  lemma FirstConfined(orig: map<Id, Entity>, es: map<Id, Entity>, kids: seq<Id>, active: bool, rank: map<Id, nat>, a: Id)
    requires Forest(orig, rank) && SameShape(orig, es) && a in orig && kids != []
    requires kids[0] in orig ==> orig[kids[0]].parent == Ref(a)
    ensures ChildrenRanked(es, rank)
    ensures var first := if kids[0] in es then PropagateFrom(es, kids[0], active, rank) else Outcome(es, []);
      && SameShape(es, first.entities)
      && (forall x :: x in es && first.entities[x] != es[x] ==> UnderOneOf(orig, rank, a, kids[..1], x))
      && (forall x :: x in Subjects(first.events) ==> UnderOneOf(orig, rank, a, kids[..1], x))
      && DistinctSubjects(first.events)
    decreases rank[a], 0, |kids|, 0
  {
    SameShapeRanked(orig, es, rank);
    var k0 := kids[0];
    if k0 in es {
      assert k0 in orig[a].children;
      PropagateConfined(orig, es, k0, active, rank);
      forall x | x in orig && Below(orig, rank, k0, x) ensures UnderOneOf(orig, rank, a, kids[..1], x) {
        BelowThroughChild(orig, rank, a, k0, x);
      }
    }
  }

  /** The walks of the first child and of the rest touch disjoint subtrees. */
  lemma CombineConfined(orig: map<Id, Entity>, rank: map<Id, nat>, a: Id, kids: seq<Id>, es: map<Id, Entity>, first: Outcome, rest: Outcome)
    requires ChildrenRanked(orig, rank) && a in orig && kids != [] && kids[0] !in kids[1..]
    requires SameShape(es, first.entities) && SameShape(first.entities, rest.entities)
    requires forall x :: x in es && first.entities[x] != es[x] ==> UnderOneOf(orig, rank, a, kids[..1], x)
    requires forall x :: x in Subjects(first.events) ==> UnderOneOf(orig, rank, a, kids[..1], x)
    requires DistinctSubjects(first.events)
    requires forall x :: x in first.entities && rest.entities[x] != first.entities[x] ==> UnderOneOf(orig, rank, a, kids[1..], x)
    requires forall x :: x in Subjects(rest.events) ==> UnderOneOf(orig, rank, a, kids[1..], x)
    requires DistinctSubjects(rest.events)
    ensures forall x :: x in es && rest.entities[x] != es[x] ==> UnderOneOf(orig, rank, a, kids, x)
    ensures forall x :: x in Subjects(first.events + rest.events) ==> UnderOneOf(orig, rank, a, kids, x)
    ensures DistinctSubjects(first.events + rest.events)
  {
    assert kids == kids[..1] + kids[1..];
    SubjectsConcat(first.events, rest.events);
    DistinctConcat(first.events, rest.events);
  }

  lemma NoDupTail<T>(s: seq<T>)
    requires NoDup(s) && s != []
    ensures NoDup(s[1..]) && s[0] !in s[1..]
  {
    forall i, j | 0 <= i < j < |s[1..]| ensures s[1..][i] != s[1..][j] {
      assert s[1..][i] == s[i + 1] && s[1..][j] == s[j + 1];
    }
    forall j | 0 <= j < |s[1..]| ensures s[1..][j] != s[0] {
      assert s[1..][j] == s[j + 1];
    }
  }

  // ----- On a well-linked tree: every descendant's flag is the AND along its path -----

  /** Every parent-child edge strictly below `a`, under one of `kids`, is consistent in `r`. */
  ghost predicate EdgesUnder(orig: map<Id, Entity>, rank: map<Id, nat>, a: Id, kids: seq<Id>, r: map<Id, Entity>)
    requires a in orig && ChildrenRanked(orig, rank) && r.Keys == orig.Keys
  {
    forall y, c :: y in orig && c in orig && c in orig[y].children && UnderOneOf(orig, rank, a, kids, y) ==>
      r[c].activeHierarchy == (r[y].activeHierarchy && orig[c].activeSelf)
  }

  /**
   * After a walk from `e` with parent state `p`, `e` holds `p && activeSelf`, and every
   * live child of an entity at or below `e` holds its parent's new flag AND its own
   * activeSelf: each descendant's flag is the AND of the self flags on its path from `e`.
   */
  lemma {:induction false} PropagateConsistent(orig: map<Id, Entity>, es: map<Id, Entity>, e: Id, p: bool, rank: map<Id, nat>)
    requires Forest(orig, rank) && SameShape(orig, es) && e in es
    ensures ChildrenRanked(es, rank)
    ensures var r := PropagateFrom(es, e, p, rank).entities;
      && r[e].activeHierarchy == (p && orig[e].activeSelf)
      && forall y, c :: y in es && c in es && Below(orig, rank, e, y) && c in orig[y].children ==>
           r[c].activeHierarchy == (r[y].activeHierarchy && orig[c].activeSelf)
    decreases rank[e], 1
  {
    SameShapeRanked(orig, es, rank);
    var newActive := p && es[e].activeSelf;
    var kids := es[e].children;
    assert kids == orig[e].children;
    forall k | k in kids && k in orig ensures orig[k].parent == Ref(e) { }
    ChildrenConsistent(orig, es, kids, newActive, rank, e);
    var below := PropagateChildren(es, kids, newActive, rank, rank[e]);
    CommitConsistent(orig, rank, e, below.entities, newActive);
  }

  lemma CommitConsistent(orig: map<Id, Entity>, rank: map<Id, nat>, e: Id, mid: map<Id, Entity>, v: bool)
    requires Forest(orig, rank) && e in orig && mid.Keys == orig.Keys
    requires forall k :: k in orig[e].children && k in orig ==> mid[k].activeHierarchy == (v && orig[k].activeSelf)
    requires EdgesUnder(orig, rank, e, orig[e].children, mid)
    ensures var r := mid[e := mid[e].(activeHierarchy := v)];
      forall y, c :: y in orig && c in orig && Below(orig, rank, e, y) && c in orig[y].children ==>
        r[c].activeHierarchy == (r[y].activeHierarchy && orig[c].activeSelf)
  {
    var r := mid[e := mid[e].(activeHierarchy := v)];
    forall y, c | y in orig && c in orig && Below(orig, rank, e, y) && c in orig[y].children
      ensures r[c].activeHierarchy == (r[y].activeHierarchy && orig[c].activeSelf)
    {
      assert rank[c] < rank[y] <= rank[e];
      if y != e {
        var k := Top(orig, rank, e, y);
        assert k in orig[e].children;
        assert UnderOneOf(orig, rank, e, orig[e].children, y);
      }
    }
  }

  lemma {:induction false} ChildrenConsistent(orig: map<Id, Entity>, es: map<Id, Entity>, kids: seq<Id>, v: bool, rank: map<Id, nat>, a: Id)
    requires Forest(orig, rank) && SameShape(orig, es) && a in orig
    requires NoDup(kids)
    requires forall k :: k in kids && k in orig ==> orig[k].parent == Ref(a)
    ensures ChildrenRanked(es, rank)
    ensures forall k :: k in kids && k in es ==> rank[k] < rank[a]
    ensures var r := PropagateChildren(es, kids, v, rank, rank[a]).entities;
      && r.Keys == orig.Keys
      && (forall k :: k in kids && k in es ==> r[k].activeHierarchy == (v && orig[k].activeSelf))
      && EdgesUnder(orig, rank, a, kids, r)
    decreases rank[a], 0, |kids|
  {
    SameShapeRanked(orig, es, rank);
    forall k | k in kids && k in es ensures rank[k] < rank[a] {
      assert k in orig[a].children;
    }
    if kids != [] {
      var k0 := kids[0];
      var first := if k0 in es then PropagateFrom(es, k0, v, rank) else Outcome(es, []);
      if k0 in es {
        PropagateConsistent(orig, es, k0, v, rank);
      }
      SameShapeTrans(orig, es, first.entities);
      NoDupTail(kids);
      ChildrenConsistent(orig, first.entities, kids[1..], v, rank, a);
      ChildrenConfined(orig, first.entities, kids[1..], v, rank, a);
      var rest := PropagateChildren(first.entities, kids[1..], v, rank, rank[a]);
      CombineConsistent(orig, rank, a, kids, first.entities, rest.entities, v);
    }
  }

  /** The first child's subtree is settled, and the rest of the loop does not disturb it. */
  lemma CombineConsistent(orig: map<Id, Entity>, rank: map<Id, nat>, a: Id, kids: seq<Id>, first: map<Id, Entity>, rest: map<Id, Entity>, v: bool)
    requires Forest(orig, rank) && a in orig && kids != [] && kids[0] !in kids[1..]
    requires kids[0] in orig ==> orig[kids[0]].parent == Ref(a)
    requires first.Keys == orig.Keys && rest.Keys == orig.Keys
    requires kids[0] in orig ==> first[kids[0]].activeHierarchy == (v && orig[kids[0]].activeSelf)
    requires kids[0] in orig ==>
      forall y, c :: y in orig && c in orig && Below(orig, rank, kids[0], y) && c in orig[y].children ==>
        first[c].activeHierarchy == (first[y].activeHierarchy && orig[c].activeSelf)
    requires forall x :: x in first && rest[x] != first[x] ==> UnderOneOf(orig, rank, a, kids[1..], x)
    requires forall k :: k in kids[1..] && k in orig ==> rest[k].activeHierarchy == (v && orig[k].activeSelf)
    requires EdgesUnder(orig, rank, a, kids[1..], rest)
    ensures forall k :: k in kids && k in orig ==> rest[k].activeHierarchy == (v && orig[k].activeSelf)
    ensures EdgesUnder(orig, rank, a, kids, rest)
  {
    var k0 := kids[0];
    if k0 in orig {
      BelowThroughChild(orig, rank, a, k0, k0);
      assert !UnderOneOf(orig, rank, a, kids[1..], k0);
    }
    forall y, c | y in orig && c in orig && c in orig[y].children && UnderOneOf(orig, rank, a, kids, y)
      ensures rest[c].activeHierarchy == (rest[y].activeHierarchy && orig[c].activeSelf)
    {
      var k := Top(orig, rank, a, y);
      if k == k0 {
        BelowChild(orig, rank, k0, y, c);
        BelowThroughChild(orig, rank, a, k0, y);
        BelowThroughChild(orig, rank, a, k0, c);
        assert !UnderOneOf(orig, rank, a, kids[1..], y);
        assert !UnderOneOf(orig, rank, a, kids[1..], c);
      } else {
        assert k in kids[1..];
        assert UnderOneOf(orig, rank, a, kids[1..], y);
      }
    }
  }

  // ----- A walk seeded with the parent's state restores the activity invariant -----

  /**
   * If the activity invariant holds everywhere outside the subtree of `e`, walking from
   * `e` with its parent's hierarchy state restores it everywhere.
   */
  lemma PropagationRestores(es: map<Id, Entity>, e: Id, rank: map<Id, nat>)
    requires Forest(es, rank) && e in es
    requires forall x :: x in es && !Below(es, rank, e, x) ==> ConsistentAt(es, x)
    ensures HierarchyConsistent(PropagateFrom(es, e, ParentActive(es, e), rank).entities)
  {
    var r := PropagateFrom(es, e, ParentActive(es, e), rank).entities;
    PropagateConfined(es, es, e, ParentActive(es, e), rank);
    PropagateConsistent(es, es, e, ParentActive(es, e), rank);
    forall x | x in r ensures ConsistentAt(r, x) {
      RestoredAt(es, e, rank, r, x);
    }
  }

  lemma RestoredAt(es: map<Id, Entity>, e: Id, rank: map<Id, nat>, r: map<Id, Entity>, x: Id)
    requires Forest(es, rank) && e in es && x in es && SameShape(es, r)
    requires forall x :: x in es && !Below(es, rank, e, x) ==> ConsistentAt(es, x)
    requires forall x :: x in es && r[x] != es[x] ==> Below(es, rank, e, x)
    requires r[e].activeHierarchy == (ParentActive(es, e) && es[e].activeSelf)
    requires forall y, c :: y in es && c in es && Below(es, rank, e, y) && c in es[y].children ==>
               r[c].activeHierarchy == (r[y].activeHierarchy && es[c].activeSelf)
    ensures ConsistentAt(r, x)
  {
    var p := es[x].parent;
    if IsValid(es, p) {
      assert x in es[p.id].children;
      assert rank[x] < rank[p.id];
    }
    if x == e {
      if IsValid(es, p) {
        assert !Below(es, rank, e, p.id);
      }
    } else if Below(es, rank, e, x) {
      assert IsValid(es, p) && Below(es, rank, e, p.id);
    } else {
      BelowParent(es, rank, e, x);
    }
  }

  /** An entity whose valid parent lies below `a` lies below `a` too. */
  lemma BelowParent(es: map<Id, Entity>, rank: map<Id, nat>, a: Id, y: Id)
    requires Linked(es) && ChildrenRanked(es, rank) && a in es && y in es
    ensures IsValid(es, es[y].parent) && Below(es, rank, a, es[y].parent.id) ==> Below(es, rank, a, y)
  {
    var p := es[y].parent;
    if IsValid(es, p) {
      assert y in es[p.id].children;
    }
  }

  // ----- Exactly one hook per changed flag -----

  /**
   * On a well-linked tree, a walk makes one hook call about an entity exactly when that
   * entity's hierarchy flag changed, none otherwise, and the call is post_enable exactly
   * when the flag became true.
   */
  lemma HooksExact(es: map<Id, Entity>, e: Id, p: bool, rank: map<Id, nat>)
    requires Forest(es, rank) && e in es
    ensures var r := PropagateFrom(es, e, p, rank);
      && DistinctSubjects(r.events)
      && (forall x :: x in es ==>
            ((exists i :: 0 <= i < |r.events| && r.events[i].entity == x) <==>
             r.entities[x].activeHierarchy != es[x].activeHierarchy))
      && (forall i :: 0 <= i < |r.events| ==>
            && r.events[i].entity in es
            && Below(es, rank, e, r.events[i].entity)
            && (r.events[i] == Enabled(r.events[i].entity) || r.events[i] == Disabled(r.events[i].entity))
            && (r.events[i].Enabled? <==> r.entities[r.events[i].entity].activeHierarchy))
  {
    var r := PropagateFrom(es, e, p, rank);
    PropagateNarrates(es, e, p, rank);
    PropagateConfined(es, es, e, p, rank);
    forall x | x in es
      ensures (exists i :: 0 <= i < |r.events| && r.events[i].entity == x) <==>
              r.entities[x].activeHierarchy != es[x].activeHierarchy
      ensures forall i :: 0 <= i < |r.events| && r.events[i].entity == x ==>
              (r.events[i].Enabled? <==> r.entities[x].activeHierarchy)
    {
      NarratedChange(Flags(es), r.events, Flags(r.entities), x);
    }
    forall i | 0 <= i < |r.events|
      ensures r.events[i].entity in es && Below(es, rank, e, r.events[i].entity)
      ensures r.events[i] == Enabled(r.events[i].entity) || r.events[i] == Disabled(r.events[i].entity)
    {
      assert r.events[i].entity in Subjects(r.events);
      assert IsHook(r.events[i]);
    }
  }
}
