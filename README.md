# be_entity fixture reconciliation, modelled in Dafny

This project models the core of `ingenerator/be_entity`. The library is a Behat helper that
makes test fixtures exist. A step names an entity type, an identifier and a map of field values.
The library then does the following:

- it resolves the type to an entity factory through the `FactoryManager`;
- the factory's `provide` locates the entity by identifier or creates it;
- only the listed fields are set (`ensure_values`) and the entity is persisted;
- the step's context flushes the entity manager once.

A factory can also report how a stored entity differs from an expected field map (`matches`). A
further step asserts that no entity exists for an identifier.

The abstract `Factory` hooks `_locate`/`_create` are instantiated with the sample factory the
library ships, `Example`. Its entity `ExampleEntity` has two nullable string fields,
`foo_field` (the identifier) and `bar_field`.

Modules, one per source component:

- `Outcomes` (outcomes.dfy): `Option`, `Result`, and `Failure`, which has one variant per
  exception class the modelled code throws plus PHP's fatal call to an undefined `set_<field>`/`get_<field>` method.
- `FieldSets` (fieldsets.dfy): the ordered field arrays a step passes in.
- `Example` (example.dfy): `ExampleEntity` as a class with mutable fields, its setters and
  getters, the `set_$field`/`get_$field` dispatch, and `_create`.
- `Reconcile` (reconcile.dfy): the factory's shared logic stated on values. The repository is
  the sequence of records it holds, in lookup order. This module holds `Find` (`findOneBy`),
  `Apply` (the setter loop), `Upsert` (`provide`), `Mismatches`/`MatchOutcome` (`matches`) and
  `UpsertRows` (the table loop), with the lemmas about them.
- `Persistence` (persistence.dfy): the Doctrine entity manager the factories talk to. It is
  reduced to the entities it manages and counters for `persist` and `flush`.
- `BeEntity` (beentity.dfy): the classes `Factory` and `FactoryManager`. The imperative
  methods are proved to change the entity manager exactly as the `Reconcile` functions say.
- `Context` (context.dfy): `BeEntityContext` and its steps.
- `Scenarios` (scenarios.dfy): client code that replays the library's own examples against the
  contracts. It has no contracts of its own.

The model follows the code of `BeEntityContext`. The library's context tests expect more than
the code does: a purge-first table variant, `clear()` calls, an `assert_entities` step, and a
`given_a_simple_entity` that returns the entity. None of these is in `BeEntityContext.php`, so
none is modelled.

## Model

| member | source | states |
|---|---|---|
| `Example.ExampleEntity.constructor` | spec/support/Ingenerator/BeEntity/Factory/Example.php:67-77 | a new entity has both fields NULL |
| `Example.ExampleEntity.SetFooField` | spec/support/Ingenerator/BeEntity/Factory/Example.php:98-109 | after `set_foo_field(v)`, `get_foo_field()` returns v and bar_field is unchanged |
| `Example.ExampleEntity.SetBarField` | spec/support/Ingenerator/BeEntity/Factory/Example.php:82-93 | after `set_bar_field(v)`, `get_bar_field()` returns v and foo_field is unchanged |
| `Example.Set` | spec/support/Ingenerator/BeEntity/Factory/Example.php:82-109 | a defined setter makes its getter return the value and changes no other field; a name with no setter changes nothing |
| `Example.ExampleEntity.SetField` | src/Ingenerator/BeEntity/Factory.php:172-173 | `set_$field` dispatch: succeeds exactly when the entity has that setter; the entity's value becomes `Set` of the old value |
| `Example.ExampleEntity.GetField` | src/Ingenerator/BeEntity/Factory.php:140-141 | `get_$field` dispatch: defined exactly for the fields with a getter, returning the field's current value |
| `Example.Created` | spec/support/Ingenerator/BeEntity/Factory/Example.php:42-47 | `_create(id)` yields foo_field == id and bar_field NULL |
| `Example.NewExampleEntity` | spec/support/Ingenerator/BeEntity/Factory/Example.php:42-47 | `_create` allocates a fresh entity holding `Created(id)` and touches no entity manager (not persisted) |
| `Reconcile.Find` | spec/support/Ingenerator/BeEntity/Factory/Example.php:27-32 | `findOneBy(foo_field = id)`: the first record whose foo_field is id; None exactly when no record holds id |
| `Reconcile.FirstUndefined` | src/Ingenerator/BeEntity/Factory.php:167-176 | the first listed field, in order, without an accessor; None exactly when every listed field has one |
| `Reconcile.ApplySetsListed` | src/Ingenerator/BeEntity/Factory.php:167-176 | after the setter loop every listed field holds its listed value |
| `Reconcile.ApplyKeepsUnlisted` | src/Ingenerator/BeEntity/Factory.php:54-56 | a field the set does not list keeps its value |
| `Reconcile.ApplyKeepsIdentifier` | src/Ingenerator/BeEntity/Factory.php:167-176 | a field set that leaves foo_field alone, or sets it to the identifier, never moves a record to another identifier, even when the loop stops early |
| `Reconcile.MismatchesExact` | src/Ingenerator/BeEntity/Factory.php:137-145 | every diff entry is a listed field whose getter differs from the expected value, carrying `exp` and `got`; every such listed field has an entry; unlisted fields never appear |
| `Reconcile.MatchOutcomeMeaning` | src/Ingenerator/BeEntity/Factory.php:127-155 | NULL exactly when nothing is located; TRUE exactly when every listed field equals its expected value; otherwise a non-empty diff; an undefined getter is fatal |
| `Reconcile.UpsertProvides` | src/Ingenerator/BeEntity/Factory.php:54-79 | for a field set that does not rename foo_field, a successful provide leaves a record for the identifier holding every listed value; the repository grows by one exactly when the identifier was absent |
| `Reconcile.UpsertIsPartial` | src/Ingenerator/BeEntity/Context/BeEntityContext.php:81-84 | the update path changes only the located record, and only its listed fields |
| `Reconcile.UpsertKeepsKeyed` | src/Ingenerator/BeEntity/Factory.php:54-79 | provide keeps the repository keyed by identifier; when the setter loop succeeds it leaves exactly one record for the identifier |
| `Reconcile.UpsertTwice` | src/Ingenerator/BeEntity/Factory.php:54-79 | in a keyed repository, when both calls succeed, providing one identifier twice leaves one record; it holds the second call's values and the first call's values for fields the second does not list |
| `Reconcile.UpsertKeepsIdentifiers` | src/Ingenerator/BeEntity/Factory.php:65-79 | provide never removes or moves any other record: every identifier that was found before is still found |
| `Reconcile.UpsertThenMatches` | src/Ingenerator/BeEntity/Factory.php:118-155 | for a field set that does not rename foo_field, `matches` right after `provide` with the same identifier and fields returns TRUE |
| `Reconcile.RowsFailure` | src/Ingenerator/BeEntity/Context/BeEntityContext.php:105-110 | the table loop fails exactly when some row lists a field without a setter |
| `Reconcile.RowsFailureFirst` | src/Ingenerator/BeEntity/Context/BeEntityContext.php:105-110 | the failure reported is the first undefined field of the first row that has one; every earlier row loads fully |
| `Reconcile.UpsertRowsProvidesAll` | src/Ingenerator/BeEntity/Context/BeEntityContext.php:80-110 | a table that loads without failure leaves a record for every row's first-column identifier, keeps the repository keyed, and loses no existing record |
| `Reconcile.UpsertKeepsOther` | src/Ingenerator/BeEntity/Factory.php:65-79 | provide for one identifier leaves the record of every other identifier at the same position and unchanged |
| `Reconcile.UpsertRowsKeepsOther` | src/Ingenerator/BeEntity/Context/BeEntityContext.php:105-110 | rows for other identifiers leave a record at the same position and unchanged |
| `Reconcile.UpsertRowsSetsValues` | src/Ingenerator/BeEntity/Context/BeEntityContext.php:80-110 | after a table loads, the record of each row's identifier holds every value of that row, unless a later row names the same identifier |
| `Reconcile.ProvideCanMoveIdentifier` | src/Ingenerator/BeEntity/Factory.php:65-79 | two concrete stores: providing "x" with foo_field := "y" on an empty store leaves no record under "x"; on a store already holding "y" it leaves two records under "y", so the repository is no longer keyed |
| `Reconcile.ProvideRenameLeavesNone` | src/Ingenerator/BeEntity/Factory.php:65-79 | in a keyed repository, a successful provide whose field set sets foo_field to another value leaves no record under the provided identifier |
| `BeEntity.ClassName` | src/Ingenerator/BeEntity/FactoryManager.php:53 | the resolved class is the fixed prefix `Ingenerator\BeEntity\Factory\` followed by the type, so the type can be read back from the class name |
| `BeEntity.Factory.constructor` | src/Ingenerator/BeEntity/Factory.php:48-52 | the factory holds the given entity manager and factory manager |
| `BeEntity.Factory.LocateHook` | spec/support/Ingenerator/BeEntity/Factory/Example.php:27-32 | `_locate(id)` returns the managed entity at the position `Find` gives, or NULL exactly when no record holds id |
| `BeEntity.Factory.CreateHook` | src/Ingenerator/BeEntity/Factory.php:187-194 | `_create(id)` returns a fresh entity holding `Created(id)` |
| `BeEntity.Factory.Locate` | src/Ingenerator/BeEntity/Factory.php:90-98 | fails with MissingEntity exactly when required and `_locate` found nothing; otherwise returns what `_locate` returned, NULL included |
| `BeEntity.Factory.EnsureValues` | src/Ingenerator/BeEntity/Factory.php:167-176 | the entity becomes `Apply` of its old value; on success it is persisted once (added to the managed entities if new); an undefined setter fails before the persist; never flushes |
| `BeEntity.Factory.Create` | src/Ingenerator/BeEntity/Factory.php:111-116 | on success a fresh entity holding `Apply(Created(id), fields)` is appended and persisted once; on failure the repository is unchanged; never flushes |
| `BeEntity.Factory.Provide` | src/Ingenerator/BeEntity/Factory.php:65-79 | the repository becomes `Upsert` of the old one; an existing entity is returned itself and nothing is created; otherwise a fresh entity is created; persisted once on success, never flushed |
| `BeEntity.Factory.Diff` | src/Ingenerator/BeEntity/Factory.php:137-145 | the getter loop returns exactly `Mismatches(fields, entity)`, or fails at the first undefined getter |
| `BeEntity.Factory.Matches` | src/Ingenerator/BeEntity/Factory.php:127-155 | returns `MatchOutcome` of the current repository, and modifies nothing |
| `BeEntity.FactoryManager.constructor` | src/Ingenerator/BeEntity/FactoryManager.php:36-39 | the manager holds the given entity manager |
| `BeEntity.FactoryManager.CreateFactory` | src/Ingenerator/BeEntity/FactoryManager.php:50-62 | fails with MissingFactory(class) exactly when no class of that name exists; otherwise returns a fresh factory of that class holding the manager's entity manager and the manager itself |
| `Context.BeEntityContext.constructor` | src/Ingenerator/BeEntity/Context/BeEntityContext.php:54-57 | the context holds the entity manager and no factory manager |
| `Context.BeEntityContext.GetFactoryManager` | src/Ingenerator/BeEntity/Context/BeEntityContext.php:159-165 | creates a manager for the context's entity manager only when none is set; otherwise returns the one that is set, and keeps it |
| `Context.BeEntityContext.SetFactoryManager` | src/Ingenerator/BeEntity/Context/BeEntityContext.php:173-176 | later calls to `GetFactoryManager` return the injected manager |
| `Context.BeEntityContext.GetFactory` | src/Ingenerator/BeEntity/Context/BeEntityContext.php:147-150 | `get_factory_manager()->create_factory(type)`: MissingFactory exactly when the type does not resolve; otherwise a fresh factory on the manager's entity manager |
| `Context.BeEntityContext.GivenASimpleEntity` | src/Ingenerator/BeEntity/Context/BeEntityContext.php:69-78 | the repository becomes `Upsert(old, id, [field := value])`; the context's entity manager is flushed exactly once, and only on success; when an injected manager uses another entity manager, the context's own is only flushed: its entities and persist count stay |
| `Context.BeEntityContext.GivenEntities` | src/Ingenerator/BeEntity/Context/BeEntityContext.php:99-114 | the repository becomes `UpsertRows(old, rows)`, which provides each row in table order (its values are stated by `Reconcile.UpsertRowsSetsValues`); each row is persisted once; exactly one flush, after all rows, and none on failure; the context's own entity manager, when it is not the one used, is only flushed |
| `Context.ProvideRows` | src/Ingenerator/BeEntity/Context/BeEntityContext.php:103-110 | the row loop: `provide(first column, whole row)` per row, in order, stopping at the first failure, never flushing |
| `Context.BeEntityContext.GivenNoEntity` | src/Ingenerator/BeEntity/Context/BeEntityContext.php:127-138 | MissingFactory when the type does not resolve; UnexpectedEntity exactly when `locate(id, FALSE)` finds an entity; otherwise succeeds; never persists or flushes |

## Left out

- `purge` is abstract in `Factory` and `Example` does not implement it, so it is not modelled.
- The Doctrine entity manager is external. It is reduced to the managed entities in lookup order
  plus counters for `persist` and `flush`. A lookup sees every persisted entity, flushed or
  not. Doctrine's `findOneBy` queries the database, so there a table listing one new identifier
  twice would create two rows before the flush. In the other direction, the model matches a
  record's in-memory foo_field while the database holds the last flushed value, so after a row
  renames "a" to "b" within one table the model finds that record under "b" and Doctrine under
  "a". `clear` is never called by the modelled code.
- PHP's loose `!=` in `matches` is replaced by exact equality on nullable strings. For example,
  PHP treats NULL and "" as equal, and the model does not.
- Field values are strings, as table cells and step arguments are; PHP would accept any scalar.
- The `set_$field`/`get_$field` method names are resolved by an explicit dispatch over the two
  accessor pairs of `ExampleEntity`. A missing method, a fatal error in PHP, becomes the failure
  `UndefinedMethod`.
- `class_exists` autoloading becomes a finite map from class name to factory kind. PHP would
  also accept a class that is not a factory (`create_factory('ExampleEntity')` finds
  `Ingenerator\BeEntity\Factory\ExampleEntity`), and the model's map holds factory classes only.
- `Example` is the only factory kind; `Example::get_entity_manager` is the factory's
  `entityManager` field.
- Behat's step annotations and `TableNode::getHash` are left out. A table arrives as decoded
  rows. Each row must have at least one column, since `reset` of an empty row would be `false`.
- Exception message texts: only the failure kind and its identifying arguments are kept.
- Context.BeEntityContext.GivenEntities: on a failing row it does not state how many rows were
  persisted before the failure; the repository contents it does state.
- Context.ProvideRows: the same as for `GivenEntities`: on a failing row it does not state the
  persist count, only the repository contents.
- The lemmas `Reconcile.UpsertProvides`, `Reconcile.UpsertThenMatches`, `Reconcile.UpsertKeepsKeyed`,
  `Reconcile.UpsertTwice`, `Reconcile.UpsertKeepsIdentifiers`, `Reconcile.UpsertKeepsOther`,
  `Reconcile.UpsertRowsProvidesAll`, `Reconcile.UpsertRowsKeepsOther` and
  `Reconcile.UpsertRowsSetsValues` require that a field set does not set foo_field to another
  identifier. The source allows that, and then provide moves the record away from the provided
  identifier, possibly onto one another record already holds (`Reconcile.ProvideCanMoveIdentifier`,
  `Reconcile.ProvideRenameLeavesNone`).
- Method and class names are matched exact-case. PHP resolves them case-insensitively: a field
  `BAR_FIELD` reaches `set_bar_field` and `get_bar_field`, and `create_factory('example')` finds the
  loaded `Example` class. The model reports `UndefinedMethod` and `MissingFactory` for these.
