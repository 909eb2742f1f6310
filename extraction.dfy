/** Flattening of IFC elements into rows: the loop of `extract_ifc_properties`
    (ifc2csv/ifc2csv.py, lines 48-70). The IFC file itself is parsed elsewhere;
    here an element arrives as a value holding what the loop reads from it. */
module Extraction {
  import opened Wrappers
  import opened Values
  import opened Schema

  /** An entry of `HasProperties`. `SingleValue` is an IfcPropertySingleValue, the
      kind that has a `NominalValue` attribute (which IFC lets be unset); every
      other kind of property has a `Name` but no `NominalValue`. */
  datatype Property =
    | SingleValue(name: string, nominalValue: Option<Value>)
    | OtherProperty(name: string)

  /** `RelatingPropertyDefinition`: a property set (which has `HasProperties`) or a
      definition of another kind, such as a quantity set, which has none. */
  datatype PropertyDefinition =
    | PropertySet(hasProperties: seq<Property>)
    | OtherDefinition(entity: string)

  /** An entry of `IsDefinedBy`. */
  datatype Relation =
    | DefinesByProperties(relatingPropertyDefinition: PropertyDefinition)
    | OtherRelation(entity: string)

  /** An IfcElement: `GlobalId`, the optional `Name`, the entity name `is_a()`
      returns, and its `IsDefinedBy` relations in order. */
  datatype Element = Element(globalId: string, name: Option<string>, entity: string, isDefinedBy: seq<Relation>)

  /** `not selected_properties or name in selected_properties`. */
  predicate Selected(name: string, selected: set<string>) {
    selected == {} || name in selected
  }

  /** A property that reaches the row: a single value that is set, whose name
      passes the filter. */
  predicate Enters(p: Property, selected: set<string>) {
    p.SingleValue? && p.nominalValue.Some? && Selected(p.name, selected)
  }

  /** `element.Name if element.Name else "Unknown"`: None and "" are both false. */
  function DisplayName(name: Option<string>): (r: string)
    ensures r != ""
    ensures name.Some? && name.value != "" ==> r == name.value
    ensures name.None? || name.value == "" ==> r == "Unknown"
  {
    if name.Some? && name.value != "" then name.value else "Unknown"
  }

  /** The row before any property is added (line 53). */
  function Base(e: Element): (row: Row)
    ensures row.Keys == {"GlobalId", "Name", "Type"}
  {
    map["GlobalId" := Str(e.globalId), "Name" := Str(DisplayName(e.name)), "Type" := Str(e.entity)]
  }

  /** The relation is an IfcRelDefinesByProperties whose definition is a
      property set holding `p`. */
  predicate Contributes(rel: Relation, p: Property) {
    rel.DefinesByProperties? && rel.relatingPropertyDefinition.PropertySet?
      && p in rel.relatingPropertyDefinition.hasProperties
  }

  /** The properties the walk of lines 56-60 visits, in order: those of the
      property sets of the IfcRelDefinesByProperties relations. */
  function Walked(rels: seq<Relation>): (ps: seq<Property>)
    ensures forall p :: p in ps <==> exists k :: 0 <= k < |rels| && Contributes(rels[k], p)
  {
    if rels == [] then []
    else
      var last := rels[|rels| - 1];
      Walked(rels[..|rels| - 1]) +
        (if last.DefinesByProperties? && last.relatingPropertyDefinition.PropertySet?
         then last.relatingPropertyDefinition.hasProperties else [])
  }

  /** Lines 61-63 applied to each property of `ps` in turn: a property that
      enters is written under its name, overwriting what was there. */
  function Apply(row: Row, ps: seq<Property>, selected: set<string>): (r: Row)
    ensures row.Keys <= r.Keys
  {
    if ps == [] then row
    else
      var prior := Apply(row, ps[..|ps| - 1], selected);
      var p := ps[|ps| - 1];
      if Enters(p, selected) then prior[p.name := p.nominalValue.value] else prior
  }

  /** The row of one element. */
  function RowOf(e: Element, selected: set<string>): (r: Row)
    ensures "GlobalId" in r && "Name" in r && "Type" in r
  {
    Apply(Base(e), Walked(e.isDefinedBy), selected)
  }

  /** The rows of a file, one per element in element order (lines 48-65). */
  function RowsOf(elements: seq<Element>, selected: set<string>): (rows: seq<Row>)
    ensures |rows| == |elements|
    ensures forall i :: 0 <= i < |elements| ==> rows[i] == RowOf(elements[i], selected)
  {
    if elements == [] then []
    else RowsOf(elements[..|elements| - 1], selected) + [RowOf(elements[|elements| - 1], selected)]
  }

  /** The table written for one file: its rows and the column order of lines 68-70. */
  function FileTable(elements: seq<Element>, selected: set<string>): (t: Table)
    ensures t.rows == RowsOf(elements, selected)
    ensures forall i, k :: 0 <= i < |t.rows| && k in t.rows[i] ==> k in t.columns
    ensures |t.columns| >= 3 && t.columns[..3] == Fixed
  {
    var rows := RowsOf(elements, selected);
    Table(FinalColumns(KeysOf(rows)), rows)
  }

  /** A key is in the result exactly when it was in the row or some entering
      property carries that name. */
  lemma {:induction false} ApplyKeys(row: Row, ps: seq<Property>, selected: set<string>, k: string)
    ensures k in Apply(row, ps, selected) <==>
      k in row || exists i :: 0 <= i < |ps| && Enters(ps[i], selected) && ps[i].name == k
    decreases |ps|
  {
    if ps != [] {
      var prefix := ps[..|ps| - 1];
      ApplyKeys(row, prefix, selected, k);
      assert forall i :: 0 <= i < |prefix| ==> prefix[i] == ps[i];
      if k in Apply(row, ps, selected) && k !in row && k !in Apply(row, prefix, selected) {
        assert ps[|ps| - 1].name == k;
      }
    }
  }

  /** Later properties overwrite earlier ones: the value under a name is that of
      the last entering property with the name, whatever was there before. */
  lemma {:induction false} ApplyLastWins(row: Row, ps: seq<Property>, selected: set<string>, i: nat)
    requires i < |ps| && Enters(ps[i], selected)
    requires forall j :: i < j < |ps| && Enters(ps[j], selected) ==> ps[j].name != ps[i].name
    ensures ps[i].name in Apply(row, ps, selected)
    ensures Apply(row, ps, selected)[ps[i].name] == ps[i].nominalValue.value
    decreases |ps|
  {
    var prefix := ps[..|ps| - 1];
    if i < |ps| - 1 {
      assert prefix[i] == ps[i];
      ApplyLastWins(row, prefix, selected, i);
    }
  }

  /** A name no entering property carries keeps its value. */
  lemma {:induction false} ApplyUntouched(row: Row, ps: seq<Property>, selected: set<string>, k: string)
    requires k in row
    requires forall i :: 0 <= i < |ps| && Enters(ps[i], selected) ==> ps[i].name != k
    ensures Apply(row, ps, selected)[k] == row[k]
    decreases |ps|
  {
    if ps != [] {
      var prefix := ps[..|ps| - 1];
      assert forall i :: 0 <= i < |prefix| ==> prefix[i] == ps[i];
      ApplyUntouched(row, prefix, selected, k);
    }
  }

  /** The keys of an element's row: the three fixed columns, and the name of
      every property that enters. */
  lemma RowKeys(e: Element, selected: set<string>, k: string)
    ensures k in RowOf(e, selected) <==>
      k in {"GlobalId", "Name", "Type"} ||
      exists p :: p in Walked(e.isDefinedBy) && Enters(p, selected) && p.name == k
  {
    var ps := Walked(e.isDefinedBy);
    ApplyKeys(Base(e), ps, selected, k);
    if exists p :: p in ps && Enters(p, selected) && p.name == k {
      var p :| p in ps && Enters(p, selected) && p.name == k;
      var i :| 0 <= i < |ps| && ps[i] == p;
    }
  }

  /** The last entering property with a name decides the value under that name,
      even when the name is one of the fixed columns. */
  lemma RowLastWins(e: Element, selected: set<string>, i: nat)
    requires var ps := Walked(e.isDefinedBy);
      i < |ps| && Enters(ps[i], selected) &&
      forall j :: i < j < |ps| && Enters(ps[j], selected) ==> ps[j].name != ps[i].name
    ensures var p := Walked(e.isDefinedBy)[i];
      p.name in RowOf(e, selected) && RowOf(e, selected)[p.name] == p.nominalValue.value
  {
    ApplyLastWins(Base(e), Walked(e.isDefinedBy), selected, i);
  }

  /** With no entering property of the same name, the fixed columns hold the id,
      the entity name and the element's name, or "Unknown" when it has none or it is empty. */
  lemma RowFixedColumns(e: Element, selected: set<string>, k: string)
    requires k in {"GlobalId", "Name", "Type"}
    requires forall p :: p in Walked(e.isDefinedBy) && Enters(p, selected) ==> p.name != k
    ensures RowOf(e, selected)[k] ==
      if k == "GlobalId" then Str(e.globalId)
      else if k == "Type" then Str(e.entity)
      else if e.name == None || e.name == Some("") then Str("Unknown")
      else Str(e.name.value)
  {
    var ps := Walked(e.isDefinedBy);
    forall i | 0 <= i < |ps| && Enters(ps[i], selected)
      ensures ps[i].name != k
    {
      assert ps[i] in ps;
    }
    ApplyUntouched(Base(e), ps, selected, k);
  }

  /** The message of the AttributeError raised by `None.wrappedValue`. */
  const NoWrappedValue := "'NoneType' object has no attribute 'wrappedValue'"

  /** A property the source's guards let through although its value is unset. */
  predicate Unset(p: Property, selected: set<string>) {
    p.SingleValue? && p.nominalValue.None? && Selected(p.name, selected)
  }

  /** Lines 61-63 as written: `hasattr(prop, "NominalValue")` holds for every
      IfcPropertySingleValue, set or not, so an unset value that passes the filter
      reaches `prop.NominalValue.wrappedValue` and raises. */
  function ApplyAsWritten(row: Row, ps: seq<Property>, selected: set<string>): Result<Row> {
    if ps == [] then Success(row)
    else
      match ApplyAsWritten(row, ps[..|ps| - 1], selected)
      case Failure(message) => Failure(message)
      case Success(prior) =>
        var p := ps[|ps| - 1];
        if p.SingleValue? && Selected(p.name, selected) then
          if p.nominalValue.None? then Failure(NoWrappedValue)
          else Success(prior[p.name := p.nominalValue.value])
        else Success(prior)
  }

  /** The row of one element as the code is written. */
  function RowOfAsWritten(e: Element, selected: set<string>): Result<Row> {
    ApplyAsWritten(Base(e), Walked(e.isDefinedBy), selected)
  }

  /** As written, the walk raises exactly when an unset value passes the filter;
      otherwise it builds the same row as the corrected walk, which skips such a
      property. */
  lemma {:induction false} AsWrittenFailsOnlyOnUnset(row: Row, ps: seq<Property>, selected: set<string>)
    ensures ApplyAsWritten(row, ps, selected) ==
      if exists i :: 0 <= i < |ps| && Unset(ps[i], selected) then Failure(NoWrappedValue)
      else Success(Apply(row, ps, selected))
    decreases |ps|
  {
    if ps != [] {
      var prefix := ps[..|ps| - 1];
      AsWrittenFailsOnlyOnUnset(row, prefix, selected);
      assert forall i :: 0 <= i < |prefix| ==> prefix[i] == ps[i];
      if exists i :: 0 <= i < |prefix| && Unset(prefix[i], selected) {
        var i :| 0 <= i < |prefix| && Unset(prefix[i], selected);
        assert Unset(ps[i], selected);
      }
    }
  }

  /** A wall whose property set holds an unset FireRating before a set
      CCILocationID: as written the element raises (and the whole file is lost);
      corrected, the unset property is skipped and the rest of the row is kept. */
  lemma UnsetValueAbortsAsWritten()
    ensures var e := Element("2O2Fr$t4X7Zf8NOew3FLOH", Some("Wall"), "IfcWall",
        [DefinesByProperties(PropertySet([SingleValue("FireRating", None), SingleValue("CCILocationID", Some(Str("D4")))]))]);
      && RowOfAsWritten(e, {}) == Failure(NoWrappedValue)
      && RowOf(e, {}) == Base(e)["CCILocationID" := Str("D4")]
  {
    var e := Element("2O2Fr$t4X7Zf8NOew3FLOH", Some("Wall"), "IfcWall",
        [DefinesByProperties(PropertySet([SingleValue("FireRating", None), SingleValue("CCILocationID", Some(Str("D4")))]))]);
    var ps := [SingleValue("FireRating", None), SingleValue("CCILocationID", Some(Str("D4")))];
    assert Walked(e.isDefinedBy) == ps by {
      assert e.isDefinedBy[..0] == [];
    }
    assert ps[..1] == [SingleValue("FireRating", None)];
    assert ps[..1][..0] == [];
    assert Unset(ps[0], {});
    AsWrittenFailsOnlyOnUnset(Base(e), ps, {});
    assert Apply(Base(e), ps[..1], {}) == Base(e);
  }

  /** An element whose walk reaches an unset value that passes the filter: as
      written, building its row raises. */
  predicate Raises(e: Element, selected: set<string>) {
    var ps := Walked(e.isDefinedBy);
    exists i :: 0 <= i < |ps| && Unset(ps[i], selected)
  }

  /** As written, an element's row is the corrected row unless the element raises. */
  lemma RowOfAsWrittenIff(e: Element, selected: set<string>)
    ensures RowOfAsWritten(e, selected) ==
      if Raises(e, selected) then Failure(NoWrappedValue) else Success(RowOf(e, selected))
  {
    AsWrittenFailsOnlyOnUnset(Base(e), Walked(e.isDefinedBy), selected);
  }

  /** Lines 48-65 as written: the rows of the elements in order, until the first
      element that raises. */
  function RowsAsWritten(elements: seq<Element>, selected: set<string>): (r: Result<seq<Row>>)
    ensures r == if exists i :: 0 <= i < |elements| && Raises(elements[i], selected)
      then Failure(NoWrappedValue) else Success(RowsOf(elements, selected))
  {
    if elements == [] then Success([])
    else
      var prefix, last := elements[..|elements| - 1], elements[|elements| - 1];
      assert forall i :: 0 <= i < |prefix| ==> prefix[i] == elements[i];
      RowOfAsWrittenIff(last, selected);
      match RowsAsWritten(prefix, selected)
      case Failure(message) => Failure(message)
      case Success(rows) =>
        match RowOfAsWritten(last, selected)
        case Failure(message) => Failure(message)
        case Success(row) => Success(rows + [row])
  }

  /** `extract_ifc_properties` as written, after parsing: it raises exactly when
      some element raises, and otherwise produces the table of the corrected
      walk, since no property was skipped. */
  function ExtractAsWritten(elements: seq<Element>, selected: set<string>): (r: Result<Table>)
    ensures r.Failure? <==> exists i :: 0 <= i < |elements| && Raises(elements[i], selected)
    ensures r.Failure? ==> r.error == NoWrappedValue
    ensures r.Success? ==> r.value == FileTable(elements, selected)
  {
    match RowsAsWritten(elements, selected)
    case Failure(message) => Failure(message)
    case Success(rows) => Success(Table(FinalColumns(KeysOf(rows)), rows))
  }

  lemma ApplyAppend(row: Row, ps: seq<Property>, qs: seq<Property>, selected: set<string>)
    ensures Apply(row, ps + qs, selected) == Apply(Apply(row, ps, selected), qs, selected)
    decreases |qs|
  {
    if qs != [] {
      ApplyAppend(row, ps, qs[..|qs| - 1], selected);
      assert (ps + qs)[..|ps + qs| - 1] == ps + qs[..|qs| - 1];
    } else {
      assert ps + qs == ps;
    }
  }

  /** Lines 60-63: add the properties of one property set to the row, raising at
      the first unset value that passes the filter. */
  method AddProperties(row: Row, props: seq<Property>, selected: set<string>) returns (result: Result<Row>)
    ensures result == ApplyAsWritten(row, props, selected)
  {
    var properties := row;
    for j := 0 to |props|
      invariant ApplyAsWritten(row, props[..j], selected) == Success(properties)
    {
      var prop := props[j];
      assert props[..j + 1][..j] == props[..j];
      if prop.SingleValue? && Selected(prop.name, selected) {
        if prop.nominalValue.None? {
          assert Unset(props[j], selected);
          AsWrittenFailsOnlyOnUnset(row, props, selected);
          return Failure(NoWrappedValue);
        }
        properties := properties[prop.name := prop.nominalValue.value];
      }
    }
    assert props[..|props|] == props;
    return Success(properties);
  }

  /** Lines 50-63 for one element: the fixed columns, then the walk of its
      relations, which raises at the first unset value that passes the filter. */
  method ElementRow(element: Element, selected: set<string>) returns (result: Result<Row>)
    ensures result == RowOfAsWritten(element, selected)
  {
    var elementName := if element.name.Some? && element.name.value != "" then element.name.value else "Unknown";
    var properties := map["GlobalId" := Str(element.globalId), "Name" := Str(elementName), "Type" := Str(element.entity)];
    ghost var base := properties;
    assert base == Base(element);
    var rels := element.isDefinedBy;
    for i := 0 to |rels|
      invariant properties == Apply(base, Walked(rels[..i]), selected)
      invariant forall k :: 0 <= k < |Walked(rels[..i])| ==> !Unset(Walked(rels[..i])[k], selected)
    {
      assert rels[..i + 1][..i] == rels[..i];
      match rels[i]
      case DefinesByProperties(PropertySet(props)) =>
        var walked := Walked(rels[..i]);
        assert Walked(rels[..i + 1]) == walked + props;
        var added := AddProperties(properties, props, selected);
        AsWrittenFailsOnlyOnUnset(properties, props, selected);
        if added.Failure? {
          var k :| 0 <= k < |props| && Unset(props[k], selected);
          assert props[k] in Walked(rels) by {
            assert Contributes(rels[i], props[k]);
          }
          RowOfAsWrittenIff(element, selected);
          return added;
        }
        ApplyAppend(base, walked, props, selected);
        properties := added.value;
      case _ =>
        assert Walked(rels[..i + 1]) == Walked(rels[..i]);
    }
    assert rels[..|rels|] == rels;
    RowOfAsWrittenIff(element, selected);
    return Success(properties);
  }

  /** `extract_ifc_properties` after parsing: one row per element, appended in
      element order, then the column order of lines 68-70; an element that
      raises ends the file. */
  method ExtractFile(elements: seq<Element>, selected: set<string>) returns (result: Result<Table>)
    ensures result == ExtractAsWritten(elements, selected)
  {
    var elementData: seq<Row> := [];
    for n := 0 to |elements|
      invariant RowsAsWritten(elements[..n], selected) == Success(elementData)
    {
      assert elements[..n + 1][..n] == elements[..n];
      var properties := ElementRow(elements[n], selected);
      RowOfAsWrittenIff(elements[n], selected);
      if properties.Failure? {
        assert Raises(elements[n], selected);
        assert ExtractAsWritten(elements, selected) == Failure(NoWrappedValue);
        return Failure(properties.error);
      }
      assert RowsAsWritten(elements[..n + 1], selected) == Success(elementData + [properties.value]);
      elementData := elementData + [properties.value];
    }
    assert elements[..|elements|] == elements;
    var allColumns := KeysOf(elementData);
    assert ExtractAsWritten(elements, selected) == Success(Table(FinalColumns(allColumns), elementData));
    return Success(Table(FinalColumns(allColumns), elementData));
  }
}
