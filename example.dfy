/** The sample factory's entity, `Ingenerator\BeEntity\Factory\ExampleEntity`: two nullable
    string fields, each with a setter and a getter. */
module Example {
  import opened Outcomes

  /** The value an ExampleEntity holds at one moment; None stands for PHP's NULL. */
  datatype Record = Record(fooField: Option<string>, barField: Option<string>)

  /** The fields a step may name: exactly those with a `set_<name>` and a `get_<name>` method. */
  predicate HasAccessors(name: string)
  {
    name == "foo_field" || name == "bar_field"
  }

  /** What `get_<name>()` returns (meaningful only when HasAccessors(name)). */
  function Get(r: Record, name: string): Option<string>
  {
    if name == "foo_field" then r.fooField
    else if name == "bar_field" then r.barField
    else None
  }

  /** The record after `set_<name>(value)`; a name without a setter changes nothing. */
  function Set(r: Record, name: string, value: string): (r': Record)
    ensures HasAccessors(name) ==> Get(r', name) == Some(value)
    ensures forall other :: other != name ==> Get(r', other) == Get(r, other)
    ensures !HasAccessors(name) ==> r' == r
  {
    if name == "foo_field" then r.(fooField := Some(value))
    else if name == "bar_field" then r.(barField := Some(value))
    else r
  }

  /** What `Example::_create(identifier)` builds: the identifier in foo_field, bar_field NULL. */
  function Created(identifier: string): (r: Record)
    ensures Get(r, "foo_field") == Some(identifier) && Get(r, "bar_field") == None
  {
    Record(Some(identifier), None)
  }

  class ExampleEntity {
    var fooField: Option<string>
    var barField: Option<string>

    /** `new ExampleEntity`: both fields NULL. */
    constructor ()
      ensures fooField == None && barField == None
    {
      fooField := None;
      barField := None;
    }

    function Snapshot(): Record
      reads this
    {
      Record(fooField, barField)
    }

    function GetFooField(): Option<string>
      reads this
    {
      fooField
    }

    function GetBarField(): Option<string>
      reads this
    {
      barField
    }

    method SetFooField(value: string)
      modifies this
      ensures GetFooField() == Some(value) && GetBarField() == old(GetBarField())
    {
      fooField := Some(value);
    }

    method SetBarField(value: string)
      modifies this
      ensures GetBarField() == Some(value) && GetFooField() == old(GetFooField())
    {
      barField := Some(value);
    }

    /** `$entity->{"set_$name"}($value)`: `defined` is false when there is no such setter,
        which PHP reports as a fatal call to an undefined method. */
    method SetField(name: string, value: string) returns (defined: bool)
      modifies this
      ensures defined == HasAccessors(name)
      ensures Snapshot() == Set(old(Snapshot()), name, value)
    {
      defined := true;
      if name == "foo_field" {
        SetFooField(value);
      } else if name == "bar_field" {
        SetBarField(value);
      } else {
        defined := false;
      }
    }

    /** `$entity->{'get_'.$name}()`: None when there is no such getter. */
    function GetField(name: string): (got: Option<Option<string>>)
      reads this
      ensures got.Some? <==> HasAccessors(name)
      ensures got.Some? ==> got.value == Get(Snapshot(), name)
    {
      if name == "foo_field" then Some(GetFooField())
      else if name == "bar_field" then Some(GetBarField())
      else None
    }
  }

  /** `Example::_create`: a new, unpersisted entity whose foo_field is the identifier. */
  method NewExampleEntity(identifier: string) returns (e: ExampleEntity)
    ensures fresh(e)
    ensures e.Snapshot() == Created(identifier)
  {
    e := new ExampleEntity();
    e.SetFooField(identifier);
  }
}
