/** The shared reconciliation logic of `Ingenerator\BeEntity\Factory`, stated on values: the
    repository is the sequence of the records it holds, in lookup order. The object-level
    methods in modules BeEntity and Context are proved to act as these functions say. */
module Reconcile {
  import opened Outcomes
  import opened FieldSets
  import opened Example

  /* ---------------------------------------------------------------- fields */

  /** The first listed field, in order, that has no setter or getter: where the setter loop
      of `ensure_values` and the getter loop of `matches` stop with a fatal error. */
  function FirstUndefined(fields: FieldSet): (r: Option<string>)
    ensures r.None? <==> forall i :: 0 <= i < |fields| ==> HasAccessors(fields[i].name)
    ensures r.Some? ==> exists i :: 0 <= i < |fields| && fields[i].name == r.value && !HasAccessors(r.value)
                                    && forall j :: 0 <= j < i ==> HasAccessors(fields[j].name)
  {
    if fields == [] then None
    else if !HasAccessors(fields[0].name) then Some(fields[0].name)
    else
      var r := FirstUndefined(fields[1..]);
      if r.Some? then
        var i :| 0 <= i < |fields[1..]| && fields[1..][i].name == r.value && !HasAccessors(r.value)
                 && forall j :: 0 <= j < i ==> HasAccessors(fields[1..][j].name);
        assert fields[i + 1].name == r.value;
        assert forall j :: 0 <= j < i + 1 ==> HasAccessors(fields[j].name) by {
          forall j | 0 < j < i + 1 ensures HasAccessors(fields[j].name) { assert fields[j] == fields[1..][j - 1]; }
        }
        r
      else r
  }

  /** The setter loop of `ensure_values`: `set_<name>(value)` for each field in order; a field
      without a setter stops the loop, leaving the fields before it set. */
  function Apply(r: Record, fields: FieldSet): Record
    decreases fields
  {
    if fields == [] || !HasAccessors(fields[0].name) then r
    else Apply(Set(r, fields[0].name, fields[0].value), fields[1..])
  }

  /** Every listed field holds its listed value once all setters have run. */
  lemma {:induction false} ApplySetsListed(r: Record, fields: FieldSet)
    requires DistinctNames(fields) && FirstUndefined(fields).None?
    ensures forall i :: 0 <= i < |fields| ==> Get(Apply(r, fields), fields[i].name) == Some(fields[i].value)
    decreases fields
  {
    if fields != [] {
      var rest := fields[1..];
      var r1 := Set(r, fields[0].name, fields[0].value);
      ApplySetsListed(r1, rest);
      forall i | 0 <= i < |fields|
        ensures Get(Apply(r, fields), fields[i].name) == Some(fields[i].value)
      {
        if i == 0 {
          assert !Lists(rest, fields[0].name) by {
            forall j | 0 <= j < |rest| ensures rest[j].name != fields[0].name { assert rest[j] == fields[j + 1]; }
          }
          ApplyKeepsUnlisted(r1, rest, fields[0].name);
        } else {
          assert fields[i] == rest[i - 1];
        }
      }
    }
  }

  /** A field the set does not list keeps its value: only the listed fields are touched. */
  lemma {:induction false} ApplyKeepsUnlisted(r: Record, fields: FieldSet, name: string)
    requires !Lists(fields, name)
    ensures Get(Apply(r, fields), name) == Get(r, name)
    decreases fields
  {
    if fields != [] && HasAccessors(fields[0].name) {
      assert fields[0].name != name;
      var rest := fields[1..];
      assert !Lists(rest, name) by {
        forall j | 0 <= j < |rest| ensures rest[j].name != name { assert rest[j] == fields[j + 1]; }
      }
      ApplyKeepsUnlisted(Set(r, fields[0].name, fields[0].value), rest, name);
    }
  }

  /** The field set leaves foo_field alone or sets it to `identifier`. */
  predicate RespectsIdentifier(identifier: string, fields: FieldSet)
  {
    forall i :: 0 <= i < |fields| && fields[i].name == "foo_field" ==> fields[i].value == identifier
  }

  /** A field set that respects the identifier cannot move a record to another identifier, even
      when a later field has no setter. */
  lemma {:induction false} ApplyKeepsIdentifier(r: Record, identifier: string, fields: FieldSet)
    requires r.fooField == Some(identifier) && RespectsIdentifier(identifier, fields)
    ensures Apply(r, fields).fooField == Some(identifier)
    decreases fields
  {
    if fields != [] && HasAccessors(fields[0].name) {
      var rest := fields[1..];
      assert RespectsIdentifier(identifier, rest) by {
        forall j | 0 <= j < |rest| && rest[j].name == "foo_field" ensures rest[j].value == identifier {
          assert rest[j] == fields[j + 1];
        }
      }
      ApplyKeepsIdentifier(Set(r, fields[0].name, fields[0].value), identifier, rest);
    }
  }

  /* ---------------------------------------------------------------- matches */

  /** One entry of the diff `matches` returns: `$diff[field] = array('exp' => …, 'got' => …)`. */
  datatype Mismatch = Mismatch(field: string, expected: string, actual: Option<string>)

  /** The diff the getter loop of `matches` builds: one entry per listed field whose getter
      does not return the expected value, in field order. */
  function Mismatches(fields: FieldSet, r: Record): seq<Mismatch>
  {
    if fields == [] then []
    else
      var f := fields[0];
      var rest := Mismatches(fields[1..], r);
      if Get(r, f.name) != Some(f.value) then [Mismatch(f.name, f.value, Get(r, f.name))] + rest else rest
  }

  /** The diff holds exactly the listed fields whose getter differs from the expected value,
      each with the expected and the actual value. */
  lemma {:induction false} MismatchesExact(fields: FieldSet, r: Record)
    ensures forall m :: m in Mismatches(fields, r) ==>
              m.actual == Get(r, m.field) && m.actual != Some(m.expected)
              && exists i :: 0 <= i < |fields| && fields[i].name == m.field && fields[i].value == m.expected
    ensures forall i :: 0 <= i < |fields| && Get(r, fields[i].name) != Some(fields[i].value) ==>
              Mismatch(fields[i].name, fields[i].value, Get(r, fields[i].name)) in Mismatches(fields, r)
    decreases fields
  {
    if fields != [] {
      var rest := Mismatches(fields[1..], r);
      MismatchesExact(fields[1..], r);
      forall m | m in rest
        ensures exists i :: 0 <= i < |fields| && fields[i].name == m.field && fields[i].value == m.expected
      {
        var i :| 0 <= i < |fields[1..]| && fields[1..][i].name == m.field && fields[1..][i].value == m.expected;
        assert fields[i + 1] == fields[1..][i];
      }
      assert forall i :: 1 <= i < |fields| ==> fields[i] == fields[1..][i - 1];
    }
  }

  /** One turn of the getter loop. */
  lemma MismatchesStep(fields: FieldSet, r: Record)
    requires fields != []
    ensures Mismatches(fields, r) ==
              (if Get(r, fields[0].name) != Some(fields[0].value)
               then [Mismatch(fields[0].name, fields[0].value, Get(r, fields[0].name))] else [])
              + Mismatches(fields[1..], r)
  {
  }

  /** What `matches` returns: NULL, TRUE or the diff. */
  datatype MatchResult = NotFound | Matched | Differs(diff: seq<Mismatch>)

  /** `Factory::matches(identifier, fields)` on a repository holding `store`. */
  function MatchOutcome(store: seq<Record>, identifier: string, fields: FieldSet): Result<MatchResult>
  {
    match Find(store, identifier)
    case None => Ok(NotFound)
    case Some(k) =>
      match FirstUndefined(fields)
      case Some(name) => Err(UndefinedMethod(name))
      case None =>
        var diff := Mismatches(fields, store[k]);
        if diff == [] then Ok(Matched) else Ok(Differs(diff))
  }

  /** matches is NULL exactly when nothing is located, fatal exactly when a listed getter is
      undefined, TRUE exactly when every listed getter returns its expected value, and otherwise
      the non-empty diff. */
  lemma MatchOutcomeMeaning(store: seq<Record>, identifier: string, fields: FieldSet)
    ensures MatchOutcome(store, identifier, fields) == Ok(NotFound) <==> Find(store, identifier).None?
    ensures MatchOutcome(store, identifier, fields).Err? <==>
              Find(store, identifier).Some? && FirstUndefined(fields).Some?
    ensures MatchOutcome(store, identifier, fields).Err? ==>
              MatchOutcome(store, identifier, fields).error == UndefinedMethod(FirstUndefined(fields).value)
    ensures MatchOutcome(store, identifier, fields) == Ok(Matched) <==>
              && Find(store, identifier).Some? && FirstUndefined(fields).None?
              && forall i :: 0 <= i < |fields| ==>
                   Get(store[Find(store, identifier).value], fields[i].name) == Some(fields[i].value)
    ensures MatchOutcome(store, identifier, fields).Ok? && MatchOutcome(store, identifier, fields).value.Differs? ==>
              && MatchOutcome(store, identifier, fields).value.diff != []
              && MatchOutcome(store, identifier, fields).value.diff == Mismatches(fields, store[Find(store, identifier).value])
  {
    if Find(store, identifier).Some? {
      var diff := Mismatches(fields, store[Find(store, identifier).value]);
      MismatchesExact(fields, store[Find(store, identifier).value]);
      assert diff != [] ==> diff[0] in diff;
    }
  }

  /* ---------------------------------------------------------------- locate and provide */

  /** `findOneBy(array('foo_field' => identifier))`: the position of the first record whose
      foo_field is the identifier, or None. */
  function Find(store: seq<Record>, identifier: string): (k: Option<nat>)
    ensures k.Some? ==> k.value < |store| && store[k.value].fooField == Some(identifier)
    ensures k.Some? ==> forall j :: 0 <= j < k.value ==> store[j].fooField != Some(identifier)
    ensures k.None? ==> forall j :: 0 <= j < |store| ==> store[j].fooField != Some(identifier)
  {
    if store == [] then None
    else if store[0].fooField == Some(identifier) then Some(0)
    else
      match Find(store[1..], identifier)
      case None => None
      case Some(k) => Some(k + 1)
  }

  /** Find returns the first position that holds the identifier. */
  lemma FindFirst(store: seq<Record>, identifier: string, k: nat)
    requires k < |store| && store[k].fooField == Some(identifier)
    requires forall j :: 0 <= j < k ==> store[j].fooField != Some(identifier)
    ensures Find(store, identifier) == Some(k)
  {
  }

  /** The record provide sets the fields on: the located one, or what `_create` builds. */
  function Starting(store: seq<Record>, identifier: string): Record
  {
    match Find(store, identifier)
    case Some(k) => store[k]
    case None => Created(identifier)
  }

  /** `provide(identifier, fields)`: the located record gets the fields set in place; otherwise
      `_create(identifier)` gets them and is persisted. A create whose setter loop fails is never
      persisted, while an update that fails keeps the fields set before the failure. */
  function Upsert(store: seq<Record>, identifier: string, fields: FieldSet): seq<Record>
  {
    match Find(store, identifier)
    case Some(k) => store[k := Apply(store[k], fields)]
    case None =>
      if FirstUndefined(fields).None? then store + [Apply(Created(identifier), fields)] else store
  }

  /** No two records share an identifier: the repository is keyed by foo_field. */
  predicate KeyedById(store: seq<Record>)
  {
    forall i, j :: 0 <= i < j < |store| ==> store[i].fooField != store[j].fooField
  }

  /** The positions of the records holding `identifier`. */
  function Holders(store: seq<Record>, identifier: string): set<nat>
  {
    set i: nat | i < |store| && store[i].fooField == Some(identifier)
  }

  /** After a successful provide the record exists and holds every listed value; the
      repository grows by one record exactly when none held the identifier before. */
  lemma UpsertProvides(store: seq<Record>, identifier: string, fields: FieldSet)
    requires DistinctNames(fields) && FirstUndefined(fields).None? && RespectsIdentifier(identifier, fields)
    ensures var s' := Upsert(store, identifier, fields);
            && |s'| == |store| + (if Find(store, identifier).Some? then 0 else 1)
            && Find(s', identifier).Some?
            && forall i :: 0 <= i < |fields| ==> Get(s'[Find(s', identifier).value], fields[i].name) == Some(fields[i].value)
  {
    var s' := Upsert(store, identifier, fields);
    match Find(store, identifier)
    case Some(k) =>
      ApplyKeepsIdentifier(store[k], identifier, fields);
      ApplySetsListed(store[k], fields);
      assert s' == store[k := Apply(store[k], fields)];
      assert forall j :: 0 <= j < k ==> s'[j] == store[j];
      FindFirst(s', identifier, k);
    case None =>
      ApplyKeepsIdentifier(Created(identifier), identifier, fields);
      ApplySetsListed(Created(identifier), fields);
      assert s' == store + [Apply(Created(identifier), fields)];
      assert forall j :: 0 <= j < |store| ==> s'[j] == store[j];
      FindFirst(s', identifier, |store|);
  }

  /** The update path changes only the located record, and in it only the listed fields. */
  lemma UpsertIsPartial(store: seq<Record>, identifier: string, fields: FieldSet, name: string)
    requires Find(store, identifier).Some? && !Lists(fields, name)
    ensures var s' := Upsert(store, identifier, fields);
            var k := Find(store, identifier).value;
            && |s'| == |store|
            && Get(s'[k], name) == Get(store[k], name)
            && forall j :: 0 <= j < |store| && j != k ==> s'[j] == store[j]
  {
    ApplyKeepsUnlisted(store[Find(store, identifier).value], fields, name);
  }

  /** Provide keeps the repository keyed by identifier and leaves exactly one record for it. */
  lemma UpsertKeepsKeyed(store: seq<Record>, identifier: string, fields: FieldSet)
    requires KeyedById(store) && RespectsIdentifier(identifier, fields)
    ensures KeyedById(Upsert(store, identifier, fields))
    ensures FirstUndefined(fields).None? ==> |Holders(Upsert(store, identifier, fields), identifier)| == 1
  {
    var s' := Upsert(store, identifier, fields);
    match Find(store, identifier)
    case Some(k) =>
      ApplyKeepsIdentifier(store[k], identifier, fields);
      assert s'[k].fooField == store[k].fooField;
      assert Holders(s', identifier) == {k};
    case None =>
      if FirstUndefined(fields).None? {
        ApplyKeepsIdentifier(Created(identifier), identifier, fields);
        assert Holders(s', identifier) == {|store|};
      }
  }

  /** Calling provide twice for one identifier leaves one record, which holds the second
      call's values and keeps the first call's values for fields the second does not list. */
  lemma UpsertTwice(store: seq<Record>, identifier: string, first: FieldSet, second: FieldSet)
    requires KeyedById(store)
    requires DistinctNames(first) && FirstUndefined(first).None? && RespectsIdentifier(identifier, first)
    requires DistinctNames(second) && FirstUndefined(second).None? && RespectsIdentifier(identifier, second)
    ensures var s1 := Upsert(store, identifier, first);
            var s2 := Upsert(s1, identifier, second);
            && |s2| == |s1|
            && |Holders(s2, identifier)| == 1
            && Find(s2, identifier) == Find(s1, identifier)
            && var k := Find(s2, identifier).value;
            && (forall i :: 0 <= i < |second| ==> Get(s2[k], second[i].name) == Some(second[i].value))
            && (forall i :: 0 <= i < |first| && !Lists(second, first[i].name) ==> Get(s2[k], first[i].name) == Some(first[i].value))
  {
    var s1 := Upsert(store, identifier, first);
    UpsertProvides(store, identifier, first);
    UpsertKeepsKeyed(store, identifier, first);
    var k := Find(s1, identifier).value;
    var s2 := Upsert(s1, identifier, second);
    UpsertProvides(s1, identifier, second);
    UpsertKeepsKeyed(s1, identifier, second);
    assert Find(s2, identifier) == Some(k) by {
      ApplyKeepsIdentifier(s1[k], identifier, second);
      assert forall j :: 0 <= j < k ==> s2[j] == s1[j];
    }
    forall i | 0 <= i < |first| && !Lists(second, first[i].name)
      ensures Get(s2[k], first[i].name) == Some(first[i].value)
    {
      UpsertIsPartial(s1, identifier, second, first[i].name);
    }
  }

  /** A record that exists keeps existing: provide never moves or removes another record. */
  lemma UpsertKeepsIdentifiers(store: seq<Record>, identifier: string, fields: FieldSet, other: string)
    requires RespectsIdentifier(identifier, fields) && Find(store, other).Some?
    ensures Find(Upsert(store, identifier, fields), other).Some?
  {
    var s' := Upsert(store, identifier, fields);
    var j := Find(store, other).value;
    match Find(store, identifier)
    case Some(k) =>
      ApplyKeepsIdentifier(store[k], identifier, fields);
      assert s'[j].fooField == Some(other);
    case None =>
      assert s'[j] == store[j];
  }

  /** After provide, `matches` with the same identifier and fields reports TRUE. */
  lemma UpsertThenMatches(store: seq<Record>, identifier: string, fields: FieldSet)
    requires DistinctNames(fields) && FirstUndefined(fields).None? && RespectsIdentifier(identifier, fields)
    ensures MatchOutcome(Upsert(store, identifier, fields), identifier, fields) == Ok(Matched)
  {
    MatchOutcomeMeaning(Upsert(store, identifier, fields), identifier, fields);
    UpsertProvides(store, identifier, fields);
  }

  /* ---------------------------------------------------------------- tables */

  /** Every row of a decoded table has at least one column: its identifier. */
  predicate NonEmptyRows(rows: seq<FieldSet>)
  {
    forall i :: 0 <= i < |rows| ==> |rows[i]| > 0
  }

  /** `reset($entity_values)`: the value of the row's first column. */
  function RowIdentifier(row: FieldSet): string
    requires |row| > 0
  {
    row[0].value
  }

  /** The loop of `given_entities`: provide each row in table order, identified by its first
      column, stopping after the first row whose setter loop fails. */
  function UpsertRows(store: seq<Record>, rows: seq<FieldSet>): seq<Record>
    requires NonEmptyRows(rows)
    decreases rows
  {
    if rows == [] then store
    else
      var s1 := Upsert(store, RowIdentifier(rows[0]), rows[0]);
      if FirstUndefined(rows[0]).Some? then s1 else UpsertRows(s1, rows[1..])
  }

  /** The failure that stops the table loop, if any: the first undefined field of the first
      row that has one. */
  function RowsFailure(rows: seq<FieldSet>): (r: Option<string>)
    ensures r.None? <==> forall i :: 0 <= i < |rows| ==> FirstUndefined(rows[i]).None?
  {
    if rows == [] then None
    else if FirstUndefined(rows[0]).Some? then FirstUndefined(rows[0])
    else
      assert forall i :: 1 <= i < |rows| ==> rows[i] == rows[1..][i - 1];
      RowsFailure(rows[1..])
  }

  /** The failure reported is the first undefined field of the first row that has one. */
  lemma {:induction false} RowsFailureFirst(rows: seq<FieldSet>)
    requires RowsFailure(rows).Some?
    ensures exists i :: 0 <= i < |rows| && FirstUndefined(rows[i]) == RowsFailure(rows)
                        && forall j :: 0 <= j < i ==> FirstUndefined(rows[j]).None?
    decreases rows
  {
    if FirstUndefined(rows[0]).None? {
      var rest := rows[1..];
      RowsFailureFirst(rest);
      var i :| 0 <= i < |rest| && FirstUndefined(rest[i]) == RowsFailure(rest)
               && forall j :: 0 <= j < i ==> FirstUndefined(rest[j]).None?;
      assert rows[i + 1] == rest[i];
      forall j | 0 <= j < i + 1 ensures FirstUndefined(rows[j]).None? {
        if j > 0 {
          assert rows[j] == rest[j - 1];
        }
      }
    }
  }

  /** Each row names its own identifier whenever it lists foo_field. */
  predicate RowsRespectIdentifiers(rows: seq<FieldSet>)
    requires NonEmptyRows(rows)
  {
    forall i :: 0 <= i < |rows| ==> RespectsIdentifier(RowIdentifier(rows[i]), rows[i])
  }

  /** A table that loads without failure leaves a record for every row's identifier, keeps the
      repository keyed by identifier, and loses no record that existed before. */
  lemma {:induction false} UpsertRowsProvidesAll(store: seq<Record>, rows: seq<FieldSet>)
    requires NonEmptyRows(rows) && RowsRespectIdentifiers(rows) && RowsFailure(rows).None?
    requires KeyedById(store)
    ensures KeyedById(UpsertRows(store, rows))
    ensures forall i :: 0 <= i < |rows| ==> Find(UpsertRows(store, rows), RowIdentifier(rows[i])).Some?
    ensures forall other :: Find(store, other).Some? ==> Find(UpsertRows(store, rows), other).Some?
    decreases rows
  {
    if rows != [] {
      var id := RowIdentifier(rows[0]);
      var s1 := Upsert(store, id, rows[0]);
      var rest := rows[1..];
      assert forall i :: 1 <= i < |rows| ==> rows[i] == rest[i - 1];
      assert FirstUndefined(rows[0]).None?;
      UpsertKeepsKeyed(store, id, rows[0]);
      UpsertRowsProvidesAll(s1, rest);
      assert UpsertRows(store, rows) == UpsertRows(s1, rest);
      forall other | Find(store, other).Some?
        ensures Find(UpsertRows(store, rows), other).Some?
      {
        UpsertKeepsIdentifiers(store, id, rows[0], other);
      }
      assert Find(s1, id).Some? by {
        assert Holders(s1, id) != {};
        var h :| h in Holders(s1, id);
      }
    }
  }

  /** Provide on one identifier leaves the record of any other identifier where it was, and as
      it was. */
  lemma UpsertKeepsOther(store: seq<Record>, identifier: string, fields: FieldSet, other: string)
    requires RespectsIdentifier(identifier, fields) && other != identifier && Find(store, other).Some?
    ensures Find(Upsert(store, identifier, fields), other) == Find(store, other)
    ensures Upsert(store, identifier, fields)[Find(store, other).value] == store[Find(store, other).value]
  {
    var s' := Upsert(store, identifier, fields);
    var k := Find(store, other).value;
    match Find(store, identifier)
    case Some(k2) =>
      ApplyKeepsIdentifier(store[k2], identifier, fields);
      assert forall j :: 0 <= j < |store| ==> (s'[j].fooField == Some(other) <==> store[j].fooField == Some(other));
      FindFirst(s', other, k);
    case None =>
      assert forall j :: 0 <= j < |store| ==> s'[j] == store[j];
      FindFirst(s', other, k);
  }

  /** Rows for other identifiers leave a record where it was, and as it was. */
  lemma {:induction false} UpsertRowsKeepsOther(store: seq<Record>, rows: seq<FieldSet>, other: string)
    requires NonEmptyRows(rows) && RowsRespectIdentifiers(rows)
    requires forall j :: 0 <= j < |rows| ==> RowIdentifier(rows[j]) != other
    requires Find(store, other).Some?
    ensures Find(UpsertRows(store, rows), other) == Find(store, other)
    ensures UpsertRows(store, rows)[Find(store, other).value] == store[Find(store, other).value]
    decreases rows
  {
    if rows != [] {
      var s1 := Upsert(store, RowIdentifier(rows[0]), rows[0]);
      UpsertKeepsOther(store, RowIdentifier(rows[0]), rows[0], other);
      if FirstUndefined(rows[0]).None? {
        var rest := rows[1..];
        assert forall j :: 1 <= j < |rows| ==> rows[j] == rest[j - 1];
        UpsertRowsKeepsOther(s1, rest, other);
      }
    }
  }

  /** A table that loads without failure leaves every row's values on the record of that row's
      identifier, unless a later row of the table names the same identifier. */
  lemma {:induction false} UpsertRowsSetsValues(store: seq<Record>, rows: seq<FieldSet>, i: nat)
    requires NonEmptyRows(rows) && RowsRespectIdentifiers(rows) && RowsFailure(rows).None?
    requires i < |rows| && DistinctNames(rows[i])
    requires forall j :: i < j < |rows| ==> RowIdentifier(rows[j]) != RowIdentifier(rows[i])
    ensures Find(UpsertRows(store, rows), RowIdentifier(rows[i])).Some?
    ensures forall n :: 0 <= n < |rows[i]| ==>
              Get(UpsertRows(store, rows)[Find(UpsertRows(store, rows), RowIdentifier(rows[i])).value], rows[i][n].name)
              == Some(rows[i][n].value)
    decreases rows
  {
    var id := RowIdentifier(rows[0]);
    var s1 := Upsert(store, id, rows[0]);
    var rest := rows[1..];
    assert forall j :: 1 <= j < |rows| ==> rows[j] == rest[j - 1];
    assert FirstUndefined(rows[0]).None?;
    assert UpsertRows(store, rows) == UpsertRows(s1, rest);
    if i == 0 {
      UpsertProvides(store, id, rows[0]);
      UpsertRowsKeepsOther(s1, rest, id);
    } else {
      UpsertRowsSetsValues(s1, rest, i - 1);
    }
  }

  /** A field set that renames foo_field moves the record away from the identifier it was
      provided under: here no record holds "x" afterwards, and "y" is held twice. */
  lemma ProvideCanMoveIdentifier()
    ensures Find(Upsert([], "x", [Field("foo_field", "y")]), "x").None?
    ensures var s := Upsert([Record(Some("y"), None)], "x", [Field("foo_field", "y")]);
            |s| == 2 && !KeyedById(s)
  {
    var fields := [Field("foo_field", "y")];
    assert fields[1..] == [];
    assert Apply(Created("x"), fields) == Record(Some("y"), None);
    var store := [Record(Some("y"), None)];
    assert Find(store, "x").None?;
    var s := Upsert(store, "x", fields);
    assert s == [Record(Some("y"), None), Record(Some("y"), None)];
    assert s[0].fooField == s[1].fooField;
  }

  /** In a keyed repository, a successful provide whose field set sets foo_field to another
      value leaves no record under the provided identifier. */
  lemma ProvideRenameLeavesNone(store: seq<Record>, identifier: string, fields: FieldSet, i: nat)
    requires KeyedById(store) && DistinctNames(fields) && FirstUndefined(fields).None?
    requires i < |fields| && fields[i].name == "foo_field" && fields[i].value != identifier
    ensures Find(Upsert(store, identifier, fields), identifier).None?
  {
    var s' := Upsert(store, identifier, fields);
    match Find(store, identifier)
    case Some(k) =>
      ApplySetsListed(store[k], fields);
      assert s'[k].fooField == Some(fields[i].value);
      assert forall j :: 0 <= j < |store| && j != k ==> s'[j].fooField != Some(identifier);
    case None =>
      ApplySetsListed(Created(identifier), fields);
      assert s'[|store|].fooField == Some(fields[i].value);
      assert forall j :: 0 <= j < |store| ==> s'[j] == store[j];
  }
}
