/** `Ingenerator\BeEntity\Factory` and `Ingenerator\BeEntity\FactoryManager`. The abstract
    hooks `_locate` and `_create` dispatch on the concrete factory kind; the one kind modelled
    is the sample factory `Ingenerator\BeEntity\Factory\Example`. */
module BeEntity {
  import opened Outcomes
  import opened FieldSets
  import opened Example
  import opened Reconcile
  import opened Persistence

  /** The concrete factory classes the model knows. */
  datatype FactoryKind = ExampleFactory

  /** The namespace a step's entity type is resolved in. */
  const FactoryNamespace := "Ingenerator\\BeEntity\\Factory\\"

  /** The class `create_factory` looks for: the namespace followed by the entity type. */
  function ClassName(entityType: string): (name: string)
    ensures |name| == |FactoryNamespace| + |entityType|
    ensures name[..|FactoryNamespace|] == FactoryNamespace && name[|FactoryNamespace|..] == entityType
  {
    FactoryNamespace + entityType
  }

  class Factory {
    const entityManager: EntityManager
    const factoryManager: FactoryManager
    const kind: FactoryKind

    constructor (entityManager: EntityManager, factoryManager: FactoryManager, kind: FactoryKind)
      ensures this.entityManager == entityManager && this.factoryManager == factoryManager && this.kind == kind
    {
      this.entityManager := entityManager;
      this.factoryManager := factoryManager;
      this.kind := kind;
    }

    /** `_locate(identifier)`; for Example, `findOneBy(array('foo_field' => identifier))`. */
    function LocateHook(identifier: string): (found: Option<ExampleEntity>)
      reads entityManager, entityManager.entities
      ensures found.Some? <==> Find(entityManager.Contents(), identifier).Some?
      ensures found.Some? ==> found.value == entityManager.entities[Find(entityManager.Contents(), identifier).value]
    {
      match kind
      case ExampleFactory =>
        match Find(entityManager.Contents(), identifier)
        case None => None
        case Some(k) => Some(entityManager.entities[k])
    }

    /** `_create(identifier)`: a new entity carrying the identifier, not yet persisted. */
    method CreateHook(identifier: string) returns (e: ExampleEntity)
      ensures fresh(e)
      ensures e.Snapshot() == Created(identifier)
    {
      match kind
      case ExampleFactory =>
        e := NewExampleEntity(identifier);
    }

    /** `locate(identifier, required)`: what `_locate` found, or MissingEntity when nothing was
        found and the entity is required. */
    function Locate(identifier: string, required: bool): (r: Result<Option<ExampleEntity>>)
      reads entityManager, entityManager.entities
      ensures r.Err? <==> required && Find(entityManager.Contents(), identifier).None?
      ensures r.Err? ==> r.error == MissingEntity(identifier)
      ensures r.Ok? ==> r.value == LocateHook(identifier)
    {
      var entity := LocateHook(identifier);
      if required && entity.None? then Err(MissingEntity(identifier)) else Ok(entity)
    }

    /** `ensure_values(entity, fields)`: calls `set_<name>(value)` for each field in order, then
        persists the entity; an undefined setter stops it before the persist. */
    method EnsureValues(entity: ExampleEntity, fields: FieldSet) returns (r: Result<()>)
      requires entityManager.Valid()
      modifies entity, entityManager
      ensures entityManager.Valid()
      ensures entity.Snapshot() == Apply(old(entity.Snapshot()), fields)
      ensures r.Ok? <==> FirstUndefined(fields).None?
      ensures r.Err? ==> r.error == UndefinedMethod(FirstUndefined(fields).value)
      ensures r.Ok? ==> entityManager.entities == (if entity in old(entityManager.entities)
                                                   then old(entityManager.entities)
                                                   else old(entityManager.entities) + [entity])
      ensures r.Err? ==> entityManager.entities == old(entityManager.entities)
      ensures entityManager.persists == old(entityManager.persists) + (if r.Ok? then 1 else 0)
      ensures entityManager.flushes == old(entityManager.flushes)
    {
      var i := 0;
      while i < |fields|
        invariant 0 <= i <= |fields|
        invariant FirstUndefined(fields[i..]) == FirstUndefined(fields)
        invariant Apply(entity.Snapshot(), fields[i..]) == Apply(old(entity.Snapshot()), fields)
        invariant unchanged(entityManager)
      {
        var defined := entity.SetField(fields[i].name, fields[i].value);
        assert fields[i..][0] == fields[i];
        if !defined {
          return Err(UndefinedMethod(fields[i].name));
        }
        assert fields[i..][1..] == fields[i + 1..];
        i := i + 1;
      }
      entityManager.Persist(entity);
      r := Ok(());
    }

    /** `create(identifier, fields)`: `_create`, then `ensure_values`. */
    method Create(identifier: string, fields: FieldSet) returns (r: Result<ExampleEntity>)
      requires entityManager.Valid()
      modifies entityManager
      ensures entityManager.Valid()
      ensures r.Ok? <==> FirstUndefined(fields).None?
      ensures r.Err? ==> r.error == UndefinedMethod(FirstUndefined(fields).value)
      ensures r.Ok? ==> && fresh(r.value)
                        && r.value.Snapshot() == Apply(Created(identifier), fields)
                        && entityManager.entities == old(entityManager.entities) + [r.value]
                        && entityManager.Contents() == old(entityManager.Contents()) + [Apply(Created(identifier), fields)]
      ensures r.Err? ==> && entityManager.entities == old(entityManager.entities)
                         && entityManager.Contents() == old(entityManager.Contents())
      ensures entityManager.persists == old(entityManager.persists) + (if r.Ok? then 1 else 0)
      ensures entityManager.flushes == old(entityManager.flushes)
    {
      var entity := CreateHook(identifier);
      var ensured := EnsureValues(entity, fields);
      if ensured.Err? {
        return Err(ensured.error);
      }
      r := Ok(entity);
    }

    /** `provide(identifier, fields)`: update the located entity in place, or create one; the
        entity is persisted but the entity manager is not flushed. */
    method Provide(identifier: string, fields: FieldSet) returns (r: Result<ExampleEntity>)
      requires entityManager.Valid()
      modifies entityManager, entityManager.entities
      ensures entityManager.Valid()
      ensures entityManager.Contents() == Upsert(old(entityManager.Contents()), identifier, fields)
      ensures r.Ok? <==> FirstUndefined(fields).None?
      ensures r.Err? ==> r.error == UndefinedMethod(FirstUndefined(fields).value)
      ensures r.Ok? ==> r.value.Snapshot() == Apply(Starting(old(entityManager.Contents()), identifier), fields)
      ensures Find(old(entityManager.Contents()), identifier).Some? ==>
                && entityManager.entities == old(entityManager.entities)
                && (r.Ok? ==> r.value == old(entityManager.entities)[Find(old(entityManager.Contents()), identifier).value])
      ensures Find(old(entityManager.Contents()), identifier).None? ==>
                && (r.Ok? ==> fresh(r.value) && entityManager.entities == old(entityManager.entities) + [r.value])
                && (r.Err? ==> entityManager.entities == old(entityManager.entities))
      ensures entityManager.persists == old(entityManager.persists) + (if r.Ok? then 1 else 0)
      ensures entityManager.flushes == old(entityManager.flushes)
    {
      ghost var before := entityManager.Contents();
      var located := Locate(identifier, false);
      match located.value
      case Some(entity) =>
        ghost var k := Find(before, identifier).value;
        var ensured := EnsureValues(entity, fields);
        assert forall j :: 0 <= j < |before| && j != k ==> entityManager.entities[j] != entity;
        assert entityManager.Contents() == before[k := Apply(before[k], fields)];
        if ensured.Err? {
          return Err(ensured.error);
        }
        r := Ok(entity);
      case None =>
        r := Create(identifier, fields);
    }

    /** The getter loop of `matches`: compares each listed getter's result with the expected
        value, collecting the differences; an undefined getter is fatal. */
    method Diff(entity: ExampleEntity, fields: FieldSet) returns (r: Result<seq<Mismatch>>)
      ensures r.Err? <==> FirstUndefined(fields).Some?
      ensures r.Err? ==> r.error == UndefinedMethod(FirstUndefined(fields).value)
      ensures r.Ok? ==> r.value == Mismatches(fields, entity.Snapshot())
    {
      var diff: seq<Mismatch> := [];
      var i := 0;
      while i < |fields|
        invariant 0 <= i <= |fields|
        invariant FirstUndefined(fields[i..]) == FirstUndefined(fields)
        invariant diff + Mismatches(fields[i..], entity.Snapshot()) == Mismatches(fields, entity.Snapshot())
      {
        MismatchesStep(fields[i..], entity.Snapshot());
        var got := entity.GetField(fields[i].name);
        assert fields[i..][0] == fields[i];
        if got.None? {
          return Err(UndefinedMethod(fields[i].name));
        }
        if got.value != Some(fields[i].value) {
          diff := diff + [Mismatch(fields[i].name, fields[i].value, got.value)];
        }
        assert fields[i..][1..] == fields[i + 1..];
        i := i + 1;
      }
      assert fields[i..] == [];
      r := Ok(diff);
    }

    /** `matches(identifier, fields)`: NULL when nothing is found, TRUE when every listed
        getter returns the expected value, otherwise the diff of the fields that differ. */
    method Matches(identifier: string, fields: FieldSet) returns (r: Result<MatchResult>)
      ensures r == MatchOutcome(entityManager.Contents(), identifier, fields)
    {
      var located := Locate(identifier, false);
      if located.value.None? {
        return Ok(NotFound);
      }
      var diff := Diff(located.value.value, fields);
      if diff.Err? {
        r := Err(diff.error);
      } else if diff.value == [] {
        r := Ok(Matched);
      } else {
        r := Ok(Differs(diff.value));
      }
    }
  }

  class FactoryManager {
    const entityManager: EntityManager
    /** The factory classes that can be loaded, by fully qualified name. */
    const classes: map<string, FactoryKind>

    constructor (entityManager: EntityManager, classes: map<string, FactoryKind>)
      ensures this.entityManager == entityManager && this.classes == classes
    {
      this.entityManager := entityManager;
      this.classes := classes;
    }

    /** `create_factory(type)`: a new factory of the class the type names, holding this
        manager's entity manager and the manager itself; MissingFactory if there is no such class. */
    method CreateFactory(entityType: string) returns (r: Result<Factory>)
      ensures r.Err? <==> ClassName(entityType) !in classes
      ensures r.Err? ==> r.error == MissingFactory(ClassName(entityType))
      ensures r.Ok? ==> && fresh(r.value)
                        && r.value.kind == classes[ClassName(entityType)]
                        && r.value.entityManager == entityManager
                        && r.value.factoryManager == this
    {
      var name := ClassName(entityType);
      if name !in classes {
        return Err(MissingFactory(name));
      }
      var factory := new Factory(entityManager, this, classes[name]);
      r := Ok(factory);
    }
  }
}
