/** `Ingenerator\BeEntity\Context\BeEntityContext`: the steps a feature file calls. Each step
    resolves a factory through the (lazily created) factory manager, works through it, and
    flushes the context's own entity manager when it has written. */
module Context {
  import opened Outcomes
  import opened FieldSets
  import opened Example
  import opened Reconcile
  import opened Persistence
  import opened BeEntity

  class BeEntityContext {
    const entityManager: EntityManager
    /** The factory classes a default factory manager can load. */
    const classes: map<string, FactoryKind>
    var factoryManager: FactoryManager?

    constructor (entityManager: EntityManager, classes: map<string, FactoryKind>)
      ensures this.entityManager == entityManager && this.classes == classes
      ensures factoryManager == null
    {
      this.entityManager := entityManager;
      this.classes := classes;
      factoryManager := null;
    }

    /** The entity manager the factories of this context persist into: the injected manager's,
        or the context's own once a default manager is created. */
    function Store(): EntityManager
      reads this
    {
      if factoryManager == null then entityManager else factoryManager.entityManager
    }

    /** The factory classes types are resolved against. */
    function Classes(): map<string, FactoryKind>
      reads this
    {
      if factoryManager == null then classes else factoryManager.classes
    }

    predicate Resolvable(entityType: string)
      reads this
    {
      ClassName(entityType) in Classes()
    }

    /** `get_factory_manager()`: creates a manager for the context's entity manager only when
        none is set, and keeps it for later calls. */
    method GetFactoryManager() returns (m: FactoryManager)
      modifies this
      ensures old(factoryManager) != null ==> m == old(factoryManager)
      ensures old(factoryManager) == null ==> fresh(m) && m.entityManager == entityManager && m.classes == classes
      ensures factoryManager == m
      ensures Store() == old(Store()) && Classes() == old(Classes())
    {
      if factoryManager == null {
        factoryManager := new FactoryManager(entityManager, classes);
      }
      m := factoryManager;
    }

    /** `set_factory_manager(m)`: later steps use `m`. */
    method SetFactoryManager(m: FactoryManager)
      modifies this
      ensures factoryManager == m
    {
      factoryManager := m;
    }

    /** `get_factory(type)`: `get_factory_manager()->create_factory(type)`. */
    method GetFactory(entityType: string) returns (r: Result<Factory>)
      modifies this
      ensures factoryManager != null && (old(factoryManager) != null ==> factoryManager == old(factoryManager))
      ensures Store() == old(Store()) && Classes() == old(Classes())
      ensures r.Err? <==> !Resolvable(entityType)
      ensures r.Err? ==> r.error == MissingFactory(ClassName(entityType))
      ensures r.Ok? ==> && fresh(r.value)
                        && r.value.entityManager == Store()
                        && r.value.factoryManager == factoryManager
                        && r.value.kind == Classes()[ClassName(entityType)]
    {
      var manager := GetFactoryManager();
      r := manager.CreateFactory(entityType);
    }

    /** `given_a_simple_entity(type, identifier, field, value)`: provide the entity with that one
        field, then flush once. */
    method GivenASimpleEntity(entityType: string, identifier: string, field: string, value: string)
      returns (r: Result<()>)
      requires Store().Valid()
      modifies this, Store(), Store().entities, entityManager
      ensures factoryManager != null && (old(factoryManager) != null ==> factoryManager == old(factoryManager))
      ensures Store() == old(Store()) && Classes() == old(Classes()) && Store().Valid()
      ensures r.Ok? <==> Resolvable(entityType) && HasAccessors(field)
      ensures r.Err? ==> r.error == if !Resolvable(entityType) then MissingFactory(ClassName(entityType))
                                   else UndefinedMethod(field)
      ensures Store().Contents() == if Resolvable(entityType)
                                    then Upsert(old(Store().Contents()), identifier, [Field(field, value)])
                                    else old(Store().Contents())
      ensures Store().persists == old(Store().persists) + (if Resolvable(entityType) && r.Ok? then 1 else 0)
      ensures entityManager.flushes == old(entityManager.flushes) + (if r.Ok? then 1 else 0)
      ensures Store() != entityManager ==> Store().flushes == old(Store().flushes)
      ensures Store() != entityManager ==> && entityManager.entities == old(entityManager.entities)
                                           && entityManager.persists == old(entityManager.persists)
    {
      var got := GetFactory(entityType);
      if got.Err? {
        return Err(got.error);
      }
      var provided := got.value.Provide(identifier, [Field(field, value)]);
      assert Store() != entityManager ==> && entityManager.entities == old(entityManager.entities)
                                          && entityManager.persists == old(entityManager.persists);
      if provided.Err? {
        return Err(provided.error);
      }
      entityManager.Flush();
      r := Ok(());
    }

    /** `given_entities(type, table)`: provide every row in table order, identified by its first
        column and given the whole row as fields, then flush once after the last row. */
    method GivenEntities(entityType: string, rows: seq<FieldSet>) returns (r: Result<()>)
      requires Store().Valid() && NonEmptyRows(rows)
      modifies this, Store(), Store().entities, entityManager
      ensures factoryManager != null && (old(factoryManager) != null ==> factoryManager == old(factoryManager))
      ensures Store() == old(Store()) && Classes() == old(Classes()) && Store().Valid()
      ensures r.Ok? <==> Resolvable(entityType) && RowsFailure(rows).None?
      ensures r.Err? ==> r.error == if !Resolvable(entityType) then MissingFactory(ClassName(entityType))
                                   else UndefinedMethod(RowsFailure(rows).value)
      ensures Store().Contents() == if Resolvable(entityType)
                                    then UpsertRows(old(Store().Contents()), rows)
                                    else old(Store().Contents())
      ensures r.Ok? ==> Store().persists == old(Store().persists) + |rows|
      ensures entityManager.flushes == old(entityManager.flushes) + (if r.Ok? then 1 else 0)
      ensures Store() != entityManager ==> Store().flushes == old(Store().flushes)
      ensures Store() != entityManager ==> && entityManager.entities == old(entityManager.entities)
                                           && entityManager.persists == old(entityManager.persists)
    {
      var got := GetFactory(entityType);
      if got.Err? {
        return Err(got.error);
      }
      r := ProvideRows(got.value, rows);
      if r.Ok? {
        entityManager.Flush();
      }
    }

    /** `given_no_entity(type, identifier)`: fails with UnexpectedEntity when the factory locates
        an entity; changes nothing and flushes nothing. */
    method GivenNoEntity(entityType: string, identifier: string) returns (r: Result<()>)
      modifies this
      ensures factoryManager != null && (old(factoryManager) != null ==> factoryManager == old(factoryManager))
      ensures Store() == old(Store()) && Classes() == old(Classes())
      ensures r == if !Resolvable(entityType) then Err(MissingFactory(ClassName(entityType)))
                   else if Find(Store().Contents(), identifier).Some? then Err(UnexpectedEntity(entityType, identifier))
                   else Ok(())
    {
      var got := GetFactory(entityType);
      if got.Err? {
        return Err(got.error);
      }
      var located := got.value.Locate(identifier, false);
      if located.value.Some? {
        return Err(UnexpectedEntity(entityType, identifier));
      }
      r := Ok(());
    }
  }

  /** The loop of `given_entities`: `provide(reset(row), row)` for each row in table order,
      stopping at the first failure; nothing is flushed. */
  method ProvideRows(factory: Factory, rows: seq<FieldSet>) returns (r: Result<()>)
    requires factory.entityManager.Valid() && NonEmptyRows(rows)
    modifies factory.entityManager, factory.entityManager.entities
    ensures factory.entityManager.Valid()
    ensures factory.entityManager.Contents() == UpsertRows(old(factory.entityManager.Contents()), rows)
    ensures r.Ok? <==> RowsFailure(rows).None?
    ensures r.Err? ==> r.error == UndefinedMethod(RowsFailure(rows).value)
    ensures r.Ok? ==> factory.entityManager.persists == old(factory.entityManager.persists) + |rows|
    ensures factory.entityManager.flushes == old(factory.entityManager.flushes)
  {
    var em := factory.entityManager;
    var i := 0;
    while i < |rows|
      invariant 0 <= i <= |rows|
      invariant em.Valid()
      invariant NonEmptyRows(rows[i..])
      invariant UpsertRows(em.Contents(), rows[i..]) == UpsertRows(old(em.Contents()), rows)
      invariant RowsFailure(rows[i..]) == RowsFailure(rows)
      invariant em.persists == old(em.persists) + i
      invariant em.flushes == old(em.flushes)
      invariant forall k :: 0 <= k < |em.entities| ==> em.entities[k] in old(em.entities) || fresh(em.entities[k])
    {
      assert rows[i..][0] == rows[i] && rows[i..][1..] == rows[i + 1..];
      var provided := factory.Provide(RowIdentifier(rows[i]), rows[i]);
      if provided.Err? {
        assert RowsFailure(rows[i..]) == FirstUndefined(rows[i]);
        return Err(provided.error);
      }
      i := i + 1;
    }
    assert rows[i..] == [];
    r := Ok(());
  }
}
