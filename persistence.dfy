/** The Doctrine EntityManager and the ExampleEntity repository behind it, reduced to what the
    factories use: the entities it manages (in lookup order), `persist` and `flush`. The two
    counters record how often each was called. */
module Persistence {
  import opened Example

  /** No entity is managed twice. */
  predicate Distinct(entities: seq<ExampleEntity>)
  {
    forall i, j :: 0 <= i < j < |entities| ==> entities[i] != entities[j]
  }

  class EntityManager {
    var entities: seq<ExampleEntity>
    var persists: nat
    var flushes: nat

    constructor (existing: seq<ExampleEntity>)
      requires Distinct(existing)
      ensures Valid()
      ensures entities == existing && persists == 0 && flushes == 0
    {
      entities := existing;
      persists := 0;
      flushes := 0;
    }

    ghost predicate Valid()
      reads this
    {
      Distinct(entities)
    }

    /** The records the repository holds, in lookup order. */
    function Contents(): (s: seq<Record>)
      reads this, entities
      ensures |s| == |entities|
      ensures forall i :: 0 <= i < |entities| ==> s[i] == entities[i].Snapshot()
    {
      seq(|entities|, i reads this, entities requires 0 <= i < |entities| => entities[i].Snapshot())
    }

    /** `persist($entity)`: stages the entity; an entity already managed is not added again. */
    method Persist(e: ExampleEntity)
      requires Valid()
      modifies this
      ensures Valid()
      ensures entities == if e in old(entities) then old(entities) else old(entities) + [e]
      ensures persists == old(persists) + 1 && flushes == old(flushes)
    {
      if e !in entities {
        entities := entities + [e];
      }
      persists := persists + 1;
    }

    /** `flush()`: commits what is staged; the managed entities stay as they are. */
    method Flush()
      modifies this
      ensures entities == old(entities)
      ensures persists == old(persists) && flushes == old(flushes) + 1
    {
      flushes := flushes + 1;
    }
  }
}
