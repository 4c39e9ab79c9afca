/** Client code mirroring the library's own examples of use: each method drives the model the
    way a spec of the PHP library drives the classes, and what the spec expects is asserted
    from the contracts alone. */
module Scenarios {
  import opened Outcomes
  import opened FieldSets
  import opened Example
  import opened Reconcile
  import opened Persistence
  import opened BeEntity
  import opened Context

  const ExampleClasses: map<string, FactoryKind> := map[ClassName("Example") := ExampleFactory]

  /** Create sets the identifier and the optional fields and persists the entity; provide on
      an empty repository creates; provide on an existing identifier returns the same entity. */
  method ExampleFactoryScenario()
  {
    var em := new EntityManager([]);
    var manager := new FactoryManager(em, ExampleClasses);
    var factory := new Factory(em, manager, ExampleFactory);

    var created := factory.Create("baz", [Field("bar_field", "bar")]);
    assert created.Ok?;
    assert created.value.GetFooField() == Some("baz") && created.value.GetBarField() == Some("bar");
    assert em.entities == [created.value] && em.persists == 1;

    var provided := factory.Provide("bar", [Field("bar_field", "new value")]);
    assert Find([Record(Some("baz"), Some("bar"))], "bar").None?;
    assert provided.Ok? && fresh(provided.value);
    assert provided.value.GetBarField() == Some("new value");

    var again := factory.Provide("bar", [Field("bar_field", "newer value")]);
    assert em.Contents()[1].fooField == Some("bar");
    FindFirst(em.Contents(), "bar", 1);
    assert again.Ok? && again.value == provided.value;
    assert |em.entities| == 2 && em.flushes == 0;

    var missing := factory.Locate("nobody", true);
    assert missing == Err(MissingEntity("nobody"));
  }

  /** matches is NULL for an unknown identifier and TRUE once the entity holds the values. */
  method MatchesScenario()
  {
    var em := new EntityManager([]);
    var manager := new FactoryManager(em, ExampleClasses);
    var factory := new Factory(em, manager, ExampleFactory);

    var absent := factory.Matches("bar", [Field("bar_field", "value")]);
    MatchOutcomeMeaning([], "bar", [Field("bar_field", "value")]);
    assert absent == Ok(NotFound);

    var provided := factory.Provide("bar", [Field("bar_field", "value")]);
    assert provided.Ok?;
    var same := factory.Matches("bar", [Field("bar_field", "value")]);
    assert same == Ok(Matched);
  }

  /** Every call makes a new factory holding the manager's entity manager; an unknown type is a
      MissingFactory failure. */
  method FactoryManagerScenario()
  {
    var em := new EntityManager([]);
    var manager := new FactoryManager(em, ExampleClasses);
    var first := manager.CreateFactory("Example");
    var second := manager.CreateFactory("Example");
    assert first.Ok? && second.Ok? && first.value != second.value;
    assert second.value.entityManager == em && second.value.kind == ExampleFactory;
    assert "UnknownFoo" != "Example";
    assert ClassName("UnknownFoo") != ClassName("Example");
    var unknown := manager.CreateFactory("UnknownFoo");
    assert unknown == Err(MissingFactory(ClassName("UnknownFoo")));
  }

  /** The default factory manager is created once; "no entity" passes on an empty repository and
      fails once the entity has been given. */
  method ContextScenario()
  {
    var em := new EntityManager([]);
    var context := new BeEntityContext(em, ExampleClasses);
    var m1 := context.GetFactoryManager();
    var m2 := context.GetFactoryManager();
    assert m1 == m2;

    assert context.Store() == em && em.Contents() == [];
    assert context.Classes() == ExampleClasses;
    assert context.Resolvable("Example");
    var none := context.GivenNoEntity("Example", "ghost");
    assert none == Ok(());

    var given := context.GivenASimpleEntity("Example", "ghost", "bar_field", "boo");
    assert given.Ok? && em.flushes == 1;
    assert [Field("bar_field", "boo")][1..] == [];
    assert Apply(Created("ghost"), [Field("bar_field", "boo")]) == Record(Some("ghost"), Some("boo"));
    assert em.Contents() == [Record(Some("ghost"), Some("boo"))];

    var again := context.GivenNoEntity("Example", "ghost");
    assert again == Err(UnexpectedEntity("Example", "ghost"));
  }
}
