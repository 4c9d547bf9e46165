/**
 * World transforms of entities (Entity::transform_matrix and transform_matrix_inv).
 *
 * Matrices are kept symbolic: the matrix of an entity's local transform, the inverse
 * of that matrix, or a product. Only the order of composition is modelled: an
 * entity's world matrix multiplies the local matrices from the root down to the
 * entity, and its inverse multiplies the inverse local matrices from the entity up to
 * the root.
 */
module Transforms {
  import opened EntityState

  datatype Matrix =
    | Local(t: Transform)
    | LocalInverse(t: Transform)
    | Product(lhs: Matrix, rhs: Matrix)

  /** The inverse of a product is the product of the inverses in reverse order. */
  function Inverse(m: Matrix): (r: Matrix)
    ensures Factors(r) == InverseAll(Factors(m))
  {
    match m
    case Local(t) => LocalInverse(t)
    case LocalInverse(t) => Local(t)
    case Product(a, b) =>
      InverseAllConcat(Factors(a), Factors(b));
      Product(Inverse(b), Inverse(a))
  }

  /** The leaves of a product, left to right; products are associative. */
  function Factors(m: Matrix): seq<Matrix> {
    match m
    case Product(a, b) => Factors(a) + Factors(b)
    case _ => [m]
  }

  /** Each factor inverted, in reverse order. */
  function InverseAll(ms: seq<Matrix>): seq<Matrix> {
    if ms == [] then []
    else InverseAll(ms[1..]) + [InverseLeaf(ms[0])]
  }

  function InverseLeaf(m: Matrix): Matrix {
    match m
    case Local(t) => LocalInverse(t)
    case LocalInverse(t) => Local(t)
    case Product(a, b) => m
  }

  lemma {:induction false} InverseAllConcat(a: seq<Matrix>, b: seq<Matrix>)
    ensures InverseAll(a + b) == InverseAll(b) + InverseAll(a)
    decreases |a|
  {
    if a == [] {
      assert a + b == b;
    } else {
      assert (a + b)[1..] == a[1..] + b;
      InverseAllConcat(a[1..], b);
    }
  }

  /**
   * A witness that the parent chain is finite: every valid parent is strictly
   * shallower than its child, so no entity is its own ancestor.
   */
  predicate ParentsShallower(es: map<Id, Entity>, depth: map<Id, nat>) {
    forall x :: x in es ==>
      && x in depth
      && (IsValid(es, es[x].parent) ==> es[x].parent.id in depth && depth[es[x].parent.id] < depth[x])
  }

  /** The ancestors of `x` from the root down, ending with `x` itself. */
  function Chain(es: map<Id, Entity>, x: Id, depth: map<Id, nat>): (c: seq<Id>)
    requires x in es && ParentsShallower(es, depth)
    ensures |c| >= 1 && c[|c| - 1] == x
    ensures forall i :: 0 <= i < |c| ==> c[i] in es
    ensures !IsValid(es, es[c[0]].parent)
    ensures forall i :: 0 <= i < |c| - 1 ==> es[c[i + 1]].parent == Ref(c[i])
    decreases depth[x]
  {
    var p := es[x].parent;
    if IsValid(es, p) then Chain(es, p.id, depth) + [x] else [x]
  }

  /** The local matrices of the entities `ids`, in that order. */
  function Locals(es: map<Id, Entity>, ids: seq<Id>): seq<Matrix>
    requires forall i :: 0 <= i < |ids| ==> ids[i] in es
  {
    if ids == [] then [] else [Local(es[ids[0]].local)] + Locals(es, ids[1..])
  }

  lemma {:induction false} LocalsAppend(es: map<Id, Entity>, ids: seq<Id>, x: Id)
    requires forall i :: 0 <= i < |ids| ==> ids[i] in es
    requires x in es
    ensures Locals(es, ids + [x]) == Locals(es, ids) + [Local(es[x].local)]
    decreases |ids|
  {
    if ids == [] {
      assert ids + [x] == [x];
    } else {
      assert (ids + [x])[1..] == ids[1..] + [x];
      LocalsAppend(es, ids[1..], x);
    }
  }

  /**
   * The world matrix: the parent's world matrix times the local matrix, or the local
   * matrix alone for an entity without a valid parent. Its factors are the local
   * matrices along the chain from the root down to `x`.
   */
  function TransformMatrix(es: map<Id, Entity>, x: Id, depth: map<Id, nat>): (m: Matrix)
    requires x in es && ParentsShallower(es, depth)
    ensures Factors(m) == Locals(es, Chain(es, x, depth))
    decreases depth[x]
  {
    var local := Local(es[x].local);
    var p := es[x].parent;
    if IsValid(es, p) then
      LocalsAppend(es, Chain(es, p.id, depth), x);
      Product(TransformMatrix(es, p.id, depth), local)
    else local
  }

  /**
   * The inverse world matrix: the inverse local matrix times the parent's inverse
   * world matrix. Its factors are the inverse local matrices from `x` up to the root.
   */
  function TransformMatrixInv(es: map<Id, Entity>, x: Id, depth: map<Id, nat>): (m: Matrix)
    requires x in es && ParentsShallower(es, depth)
    ensures Factors(m) == InverseAll(Locals(es, Chain(es, x, depth)))
    decreases depth[x]
  {
    var localInv := LocalInverse(es[x].local);
    var p := es[x].parent;
    if IsValid(es, p) then
      LocalsAppend(es, Chain(es, p.id, depth), x);
      InverseAllConcat(Locals(es, Chain(es, p.id, depth)), [Local(es[x].local)]);
      Product(localInv, TransformMatrixInv(es, p.id, depth))
    else localInv
  }

  /** transform_matrix_inv is the inverse of transform_matrix, factor by factor. */
  lemma {:induction false} TransformMatrixInvIsInverse(es: map<Id, Entity>, x: Id, depth: map<Id, nat>)
    requires x in es && ParentsShallower(es, depth)
    ensures TransformMatrixInv(es, x, depth) == Inverse(TransformMatrix(es, x, depth))
    decreases depth[x]
  {
    var p := es[x].parent;
    if IsValid(es, p) {
      TransformMatrixInvIsInverse(es, p.id, depth);
    }
  }
}
