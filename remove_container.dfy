/** The use case `spatial.remove_container`: a product is taken out of the
    IfcRelContainedInSpatialStructure that contains it, and a relationship left
    without any RelatedElements is deleted from the file. */
module RemoveContainer {
  import opened Lists
  import opened Entities

  /** A value held in a settings dictionary. */
  datatype Value =
    | NoneValue
    | Instance(id: nat)
    | Text(text: string)
    | Number(number: int)

  /** Why `execute` raises. */
  datatype Error =
    | MissingKey(key: string)      // KeyError on a settings lookup
    | NotAnEntity(value: Value)    // AttributeError: the product has no ContainedInStructure
    | NotAnEntityArgument          // `file.remove` given something other than one entity

  datatype Result<T> = Ok(value: T) | Err(error: Error)

  /** The settings a fresh use case starts from. */
  function Defaults(): (r: map<string, Value>)
  {
    map["product" := NoneValue]
  }

  /** The settings after the supplied ones are written over the defaults. */
  function WithDefaults(supplied: map<string, Value>): (r: map<string, Value>)
    ensures "product" in r
    ensures "product" !in supplied ==> r["product"] == NoneValue
    ensures forall key :: key in supplied ==> key in r && r[key] == supplied[key]
    ensures r.Keys == supplied.Keys + {"product"}
  {
    Defaults() + supplied
  }

  /** The entities after `product` is detached from its first containment
      relationship `c[0]`. */
  function Detach(ents: map<nat, Entity>, bound: nat, product: nat): (r: map<nat, Entity>)
    ensures ContainedIn(ents, product, 0, bound) == [] ==> r == ents
    ensures r.Keys <= ents.Keys
    ensures var c := ContainedIn(ents, product, 0, bound);
      forall id :: id in ents && (c == [] || id != c[0]) ==> id in r && r[id] == ents[id]
    ensures var c := ContainedIn(ents, product, 0, bound);
      c != [] ==> (c[0] in r <==> |ents[c[0]].related| > 1)
    ensures var c := ContainedIn(ents, product, 0, bound);
      c != [] && c[0] in r ==>
        var s := ents[c[0]].related;
        var i := IndexOf(s, product);
        && r[c[0]].RelContained?
        && r[c[0]].globalId == ents[c[0]].globalId
        && r[c[0]].relating == ents[c[0]].relating
        && r[c[0]].related == s[..i] + s[i + 1..]
        && |r[c[0]].related| == |s| - 1
  {
    var c := ContainedIn(ents, product, 0, bound);
    if c == [] then ents
    else
      var rel := c[0];
      var rest := RemoveFirst(ents[rel].related, product);
      if rest != [] then ents[rel := ents[rel].(related := rest)] else ents - {rel}
  }

  /** The first containment relationship of `product`, if any, lists it only
      once (the IFC schema types RelatedElements as a set). */
  predicate FirstContainerDuplicateFree(ents: map<nat, Entity>, bound: nat, product: nat)
  {
    var c := ContainedIn(ents, product, 0, bound);
    c != [] ==> NoDuplicates(ents[c[0]].related)
  }

  /** Containment of `product` as seen through the relationship `id` after
      `Detach`: every containment stays except the first one. */
  lemma DetachContains(ents: map<nat, Entity>, bound: nat, product: nat, id: nat)
    requires FirstContainerDuplicateFree(ents, bound, product)
    requires ContainedIn(ents, product, 0, bound) != []
    ensures Contains(Detach(ents, bound, product), id, product) <==>
      Contains(ents, id, product) && id != ContainedIn(ents, product, 0, bound)[0]
  {
    var c := ContainedIn(ents, product, 0, bound);
    var after := Detach(ents, bound, product);
    if id == c[0] && id in after {
      RemoveFirstNoDuplicates(ents[id].related, product);
    }
  }

  /** Detaching takes away the first containment of the product and no other. */
  lemma DetachDropsFirstContainer(ents: map<nat, Entity>, bound: nat, product: nat)
    requires FirstContainerDuplicateFree(ents, bound, product)
    ensures var c := ContainedIn(ents, product, 0, bound);
      c != [] ==> ContainedIn(Detach(ents, bound, product), product, 0, bound) == c[1..]
  {
    var c := ContainedIn(ents, product, 0, bound);
    if c != [] {
      var after := ContainedIn(Detach(ents, bound, product), product, 0, bound);
      forall id ensures id in after <==> id in c[1..] {
        DetachContains(ents, bound, product, id);
        IncreasingTail(c, id);
      }
      IncreasingUnique(after, c[1..]);
    }
  }

  /** A product held by at most one containment relationship has none after
      `Detach`. */
  lemma DetachLeavesNoContainer(ents: map<nat, Entity>, bound: nat, product: nat)
    requires FirstContainerDuplicateFree(ents, bound, product)
    requires |ContainedIn(ents, product, 0, bound)| <= 1
    ensures ContainedIn(Detach(ents, bound, product), product, 0, bound) == []
  {
    DetachDropsFirstContainer(ents, bound, product);
  }

  /** Detaching a product with at most one container a second time changes
      nothing. */
  lemma DetachIdempotent(ents: map<nat, Entity>, bound: nat, product: nat)
    requires FirstContainerDuplicateFree(ents, bound, product)
    requires |ContainedIn(ents, product, 0, bound)| <= 1
    ensures Detach(Detach(ents, bound, product), bound, product) == Detach(ents, bound, product)
  {
    DetachLeavesNoContainer(ents, bound, product);
  }

  /** Two stores that agree on which ids contain `product` give the same
      ContainedInStructure. */
  lemma ContainedInAgree(a: map<nat, Entity>, b: map<nat, Entity>, product: nat, bound: nat)
    requires forall id :: Contains(a, id, product) <==> Contains(b, id, product)
    ensures ContainedIn(a, product, 0, bound) == ContainedIn(b, product, 0, bound)
  {
    IncreasingUnique(ContainedIn(a, product, 0, bound), ContainedIn(b, product, 0, bound));
  }

  /** Detaching one product leaves the containment of every other product as
      it was. */
  lemma DetachKeepsOtherProducts(ents: map<nat, Entity>, bound: nat, product: nat, other: nat)
    requires other != product
    ensures ContainedIn(Detach(ents, bound, product), other, 0, bound) == ContainedIn(ents, other, 0, bound)
  {
    var c := ContainedIn(ents, product, 0, bound);
    var after := Detach(ents, bound, product);
    if c != [] {
      forall id ensures Contains(after, id, other) <==> Contains(ents, id, other) {
        if id == c[0] {
          var s := ents[id].related;
          RemoveFirstMultiset(s, product);
          if id !in after {
            assert |s| == 1 && s[0] == product;
            assert other !in s;
          }
        }
      }
      ContainedInAgree(after, ents, other, bound);
    }
  }

  /** Detaching keeps the model well formed: no relationship is left empty and
      no reference dangles. */
  lemma DetachPreservesWellFormed(ents: map<nat, Entity>, bound: nat, product: nat)
    requires WellFormed(ents)
    ensures WellFormed(Detach(ents, bound, product))
  {
    var c := ContainedIn(ents, product, 0, bound);
    var after := Detach(ents, bound, product);
    if c != [] {
      var rel := c[0];
      assert Contains(ents, rel, product);
      // References only name objects, never the relationship that may go.
      forall x | Refers(ents, x) ensures Refers(after, x) {
        assert x != rel;
      }
      forall id | id in after ensures WellFormedEntity(after, after[id]) {
        assert WellFormedEntity(ents, ents[id]);
        if id == rel {
          var s := ents[rel].related;
          RemoveFirstNoDuplicates(s, product);
          RemoveFirstMultiset(s, product);
          var rest := after[rel].related;
          forall i | 0 <= i < |rest| ensures Refers(after, rest[i]) {
            assert rest[i] in s;
            var k :| 0 <= k < |s| && s[k] == rest[i];
          }
        }
      }
    }
  }

  /** The argument handed to `file.remove`: one entity, or a tuple of them. */
  datatype RemoveArgument = OneEntity(id: nat) | EntityTuple(ids: seq<nat>)

  /** `file.remove` deletes the one entity it is given; anything else is
      refused before the store is touched. */
  function FileRemove(ents: map<nat, Entity>, arg: RemoveArgument): (r: Result<map<nat, Entity>>)
    ensures r.Ok? <==> arg.OneEntity?
    ensures r.Err? ==> r.error == NotAnEntityArgument
    ensures r.Ok? ==>
      && r.value.Keys == ents.Keys - {arg.id}
      && forall id :: id in r.value ==> r.value[id] == ents[id]
  {
    match arg
    case OneEntity(id) => Ok(ents - {id})
    case EntityTuple(_) => Err(NotAnEntityArgument)
  }

  /** The detach step as the source writes it: the emptied relationship is
      removed by handing `file.remove` the whole ContainedInStructure tuple. */
  function DetachAsWritten(ents: map<nat, Entity>, bound: nat, product: nat): (r: Result<map<nat, Entity>>)
    ensures var c := ContainedIn(ents, product, 0, bound);
      r == if c != [] && |ents[c[0]].related| == 1 then Err(NotAnEntityArgument)
           else Ok(Detach(ents, bound, product))
  {
    var c := ContainedIn(ents, product, 0, bound);
    if c == [] then Ok(ents)
    else
      var rel := c[0];
      var rest := RemoveFirst(ents[rel].related, product);
      if rest != [] then Ok(ents[rel := ents[rel].(related := rest)])
      else FileRemove(ents, EntityTuple(c))
  }

  /** A wall (1) on a storey (2), held by relationship 3 alone: as written the
      use case fails, while `Detach` deletes 3 and leaves the wall with no
      container. */
  lemma AsWrittenScenario()
    ensures var ents := map[1 := Object("IfcWall"), 2 := Object("IfcBuildingStorey"),
                            3 := RelContained("rel", 2, [1])];
      && DetachAsWritten(ents, 4, 1).Err?
      && Detach(ents, 4, 1) == ents - {3}
      && ContainedIn(Detach(ents, 4, 1), 1, 0, 4) == []
  {
    var ents := map[1 := Object("IfcWall"), 2 := Object("IfcBuildingStorey"),
                    3 := RelContained("rel", 2, [1])];
    assert ContainedIn(ents, 1, 4, 4) == [];
    assert ContainedIn(ents, 1, 3, 4) == [3];
    assert ContainedIn(ents, 1, 2, 4) == [3];
    assert ContainedIn(ents, 1, 1, 4) == [3];
    assert ContainedIn(ents, 1, 0, 4) == [3];
    assert RemoveFirst([1], 1) == [];
    var after := ents - {3};
    assert Detach(ents, 4, 1) == after;
    assert forall id :: !Contains(after, id, 1);
    assert ContainedIn(after, 1, 0, 4) == [];
  }

  /** One invocation of the use case on a file. */
  class Usecase {
    const file: Store
    var settings: map<string, Value>

    /** The supplied settings are written one by one over the defaults. */
    constructor (file: Store, supplied: map<string, Value> := map[])
      ensures this.file == file
      ensures settings == WithDefaults(supplied)
    {
      this.file := file;
      var merged := Defaults();
      var pending := supplied.Keys;
      while pending != {}
        invariant pending <= supplied.Keys
        invariant merged.Keys == Defaults().Keys + (supplied.Keys - pending)
        invariant forall key :: key in supplied.Keys - pending ==> merged[key] == supplied[key]
        invariant "product" !in supplied.Keys - pending ==> merged["product"] == NoneValue
        decreases pending
      {
        var key :| key in pending;
        merged := merged[key := supplied[key]];
        pending := pending - {key};
      }
      settings := merged;
    }

    /** Detaches the product from its containment relationship. */
    method Execute() returns (outcome: Result<()>)
      requires file.Valid()
      modifies file
      ensures file.Valid() && file.nextId == old(file.nextId)
      ensures outcome.Ok? <==> "product" in settings && settings["product"].Instance?
      ensures "product" !in settings ==> outcome == Err(MissingKey("product"))
      ensures "product" in settings && !settings["product"].Instance? ==>
        outcome == Err(NotAnEntity(settings["product"]))
      ensures outcome.Err? ==> file.entities == old(file.entities)
      ensures outcome.Ok? ==>
        file.entities == Detach(old(file.entities), file.nextId, settings["product"].id)
      ensures WellFormed(old(file.entities)) ==> WellFormed(file.entities)
    {
      if "product" !in settings {
        return Err(MissingKey("product"));
      }
      var product := settings["product"];
      if !product.Instance? {
        return Err(NotAnEntity(product));
      }
      ghost var before := file.entities;
      if WellFormed(before) {
        DetachPreservesWellFormed(before, file.nextId, product.id);
      }
      var containedInStructure := ContainedIn(file.entities, product.id, 0, file.nextId);
      if |containedInStructure| > 0 {
        var rel := containedInStructure[0];
        assert Contains(file.entities, rel, product.id);
        var relatedElements := file.entities[rel].related;
        relatedElements := RemoveFirst(relatedElements, product.id);
        if |relatedElements| > 0 {
          file.SetRelatedElements(rel, relatedElements);
        } else {
          file.Remove(rel);
        }
      }
      return Ok(());
    }
  }
}
