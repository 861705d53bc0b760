/** The in-memory IFC model (an ifcopenshell `file`) as far as spatial
    containment needs it: entities by id, the containment relationship
    IfcRelContainedInSpatialStructure of ISO 16739, and the inverse attribute
    `ContainedInStructure`, which is derived from the relationships and never
    stored. */
module Entities {
  import opened Lists

  /** An entity of the model. `Object` stands for every entity that is not a
      containment relationship (products, spatial structure elements, ...);
      `RelContained` is an IfcRelContainedInSpatialStructure whose
      RelatingStructure is `relating` and whose RelatedElements are `related`. */
  datatype Entity =
    | Object(ifcClass: string)
    | RelContained(globalId: string, relating: nat, related: seq<nat>)

  /** Every id in use is below `bound` (ids are handed out upwards). */
  predicate IdsBelow(ents: map<nat, Entity>, bound: nat)
  {
    forall id :: id in ents ==> id < bound
  }

  /** Entity `rel` is a containment relationship that lists `product` among its
      RelatedElements. */
  predicate Contains(ents: map<nat, Entity>, rel: nat, product: nat)
  {
    rel in ents && ents[rel].RelContained? && product in ents[rel].related
  }

  predicate StrictlyIncreasing(s: seq<nat>)
  {
    forall i, j :: 0 <= i < j < |s| ==> s[i] < s[j]
  }

  /** The containment relationships with ids in [lo, hi) that list `product`,
      in id order: the inverse attribute ContainedInStructure over that range. */
  function ContainedIn(ents: map<nat, Entity>, product: nat, lo: nat, hi: nat): (r: seq<nat>)
    ensures StrictlyIncreasing(r)
    ensures forall i :: 0 <= i < |r| ==> lo <= r[i] < hi && Contains(ents, r[i], product)
    ensures forall id :: id in r <==> lo <= id < hi && Contains(ents, id, product)
    decreases hi - lo
  {
    if lo >= hi then []
    else
      var rest := ContainedIn(ents, product, lo + 1, hi);
      if Contains(ents, lo, product) then [lo] + rest else rest
  }

  /** A strictly increasing sequence is determined by its elements. */
  lemma {:induction false} IncreasingUnique(a: seq<nat>, b: seq<nat>)
    requires StrictlyIncreasing(a) && StrictlyIncreasing(b)
    requires forall x :: x in a <==> x in b
    ensures a == b
  {
    if a != [] {
      assert a[0] in a;
    }
    if b != [] {
      assert b[0] in b;
    }
    if a != [] && b != [] {
      assert a[0] in b && b[0] in a;
      assert a[0] == b[0];
      assert a == [a[0]] + a[1..] && b == [b[0]] + b[1..];
      forall x ensures x in a[1..] <==> x in b[1..] {
        IncreasingTail(a, x);
        IncreasingTail(b, x);
      }
      IncreasingUnique(a[1..], b[1..]);
    }
  }

  /** The tail of a strictly increasing sequence holds all its elements but
      the first. */
  lemma IncreasingTail(c: seq<nat>, id: nat)
    requires StrictlyIncreasing(c) && c != []
    ensures id in c[1..] <==> id in c && id != c[0]
  {
    if id in c[1..] {
      var k :| 1 <= k < |c| && c[k] == id;
      assert id in c && id != c[0];
    }
    if id in c && id != c[0] {
      var k :| 0 <= k < |c| && c[k] == id;
      assert c[1..][k - 1] == id;
    }
  }

  /** `id` names an entity of the model that is not a relationship. */
  predicate Refers(ents: map<nat, Entity>, id: nat)
  {
    id in ents && ents[id].Object?
  }

  /** The schema's demands on one containment relationship: RelatedElements is a
      non-empty set, and every reference names an existing entity. */
  predicate WellFormedEntity(ents: map<nat, Entity>, e: Entity)
  {
    e.RelContained? ==>
      && |e.related| > 0
      && NoDuplicates(e.related)
      && Refers(ents, e.relating)
      && forall i :: 0 <= i < |e.related| ==> Refers(ents, e.related[i])
  }

  predicate WellFormed(ents: map<nat, Entity>)
  {
    forall id :: id in ents ==> WellFormedEntity(ents, ents[id])
  }

  /** The entity store of one IFC file. */
  class Store {
    var entities: map<nat, Entity>
    var nextId: nat

    ghost predicate Valid()
      reads this
    {
      IdsBelow(entities, nextId)
    }

    /** A store holding the entities of a loaded file. */
    constructor (initial: map<nat, Entity>, bound: nat)
      requires IdsBelow(initial, bound)
      ensures Valid()
      ensures entities == initial && nextId == bound
    {
      entities := initial;
      nextId := bound;
    }

    /** `file.remove(entity)`: the entity is deleted; ids are not reused. */
    method Remove(id: nat)
      requires Valid()
      modifies this
      ensures Valid()
      ensures entities == old(entities) - {id}
      ensures nextId == old(nextId)
    {
      entities := entities - {id};
    }

    /** Assignment to the RelatedElements attribute of relationship `id`; its
        other attributes are kept. */
    method SetRelatedElements(id: nat, related: seq<nat>)
      requires Valid()
      requires id in entities && entities[id].RelContained?
      modifies this
      ensures Valid()
      ensures entities == old(entities)[id := old(entities)[id].(related := related)]
      ensures nextId == old(nextId)
    {
      entities := entities[id := entities[id].(related := related)];
    }
  }
}
