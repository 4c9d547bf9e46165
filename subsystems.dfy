/**
 * The subsystem registry (Subsystem::load and Subsystem::get): a list of loaded
 * subsystems plus a map from a subsystem's type identity to its position in the list.
 * The source keeps both as static members; here they are the fields of one Registry.
 */
module Subsystems {

  /** The identity of a subsystem's dynamic type (the address of its type_info). */
  type TypeId = nat

  /** A loaded subsystem, known here only by the type it was created as. */
  datatype Subsystem = Subsystem(kind: TypeId)

  /**
   * The map and the list agree: every registered type maps to a position in the list
   * holding a subsystem of that type, and every list entry is registered at its
   * position. Distinct types therefore map to distinct positions.
   */
  predicate Indexed(subsystems: seq<Subsystem>, index: map<TypeId, nat>) {
    && (forall id :: id in index ==> index[id] < |subsystems| && subsystems[index[id]].kind == id)
    && (forall i :: 0 <= i < |subsystems| ==> subsystems[i].kind in index && index[subsystems[i].kind] == i)
  }

  /** Distinct registered types occupy distinct positions. */
  lemma IndexInjective(subsystems: seq<Subsystem>, index: map<TypeId, nat>, a: TypeId, b: TypeId)
    requires Indexed(subsystems, index) && a in index && b in index && a != b
    ensures index[a] != index[b]
  {
    assert subsystems[index[a]].kind == a && subsystems[index[b]].kind == b;
  }

  /**
   * Registering a new type at the old length of the list and appending its subsystem
   * keeps the two in agreement, and leaves every earlier entry and position alone.
   */
  lemma LoadKeepsIndexed(subsystems: seq<Subsystem>, index: map<TypeId, nat>, kind: TypeId)
    requires Indexed(subsystems, index) && kind !in index
    ensures Indexed(subsystems + [Subsystem(kind)], index[kind := |subsystems|])
    ensures forall id :: id in index ==> index[kind := |subsystems|][id] == index[id]
    ensures (subsystems + [Subsystem(kind)])[..|subsystems|] == subsystems
  {
    var s' := subsystems + [Subsystem(kind)];
    var m' := index[kind := |subsystems|];
    forall i | 0 <= i < |s'| ensures s'[i].kind in m' && m'[s'[i].kind] == i {
      if i < |subsystems| {
        assert s'[i] == subsystems[i];
      }
    }
  }

  class Registry {
    var subsystems: seq<Subsystem>
    var index: map<TypeId, nat>

    ghost predicate Valid()
      reads this
    {
      Indexed(subsystems, index)
    }

    constructor()
      ensures Valid() && subsystems == [] && index == map[]
    {
      subsystems := [];
      index := map[];
    }

    /** load<T>: T must not be loaded yet; register it at the end of the list. */
    method Load(kind: TypeId)
      requires Valid() && kind !in index
      modifies this
      ensures Valid()
      ensures index == old(index)[kind := |old(subsystems)|]
      ensures subsystems == old(subsystems) + [Subsystem(kind)]
      ensures index[kind] == |subsystems| - 1
    {
      LoadKeepsIndexed(subsystems, index, kind);
      index := index[kind := |subsystems|];
      subsystems := subsystems + [Subsystem(kind)];
    }

    /** get<T>: T must be loaded; the subsystem registered for it, which is of type T. */
    function Get(kind: TypeId): (s: Subsystem)
      reads this
      requires Valid() && kind in index
      ensures s in subsystems && s.kind == kind
    {
      subsystems[index[kind]]
    }
  }
}
