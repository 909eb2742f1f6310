/** Checking the composite CCI identifiers of the combined sheet (lines 160-194):
    the seven CCI columns are looked up in the header; when one is missing
    nothing is highlighted; otherwise, in every body row, the multi-level type
    identifier must read "§" + level-2 type + "." + level-1 type and the
    multi-level location identifier "+" + level-2 location + "." + level-1
    location + "." + location, each part rendered as Python's str() renders
    the cell's value. A cell that differs is filled red. */
module Validation {
  import opened Wrappers
  import opened Values
  import opened Schema
  import opened StringOrder
  import opened Consolidation

  /** `header.index(name)`: the position of the first occurrence, if any. */
  function FirstIndex(header: seq<string>, name: string): (r: Option<nat>)
    ensures r.None? <==> name !in header
    ensures r.Some? ==> r.value < |header| && header[r.value] == name && name !in header[..r.value]
  {
    if header == [] then None
    else if header[0] == name then Some(0)
    else match FirstIndex(header[1..], name)
      case None => None
      case Some(k) =>
        assert header[1..][..k] == header[1..k + 1];
        Some(k + 1)
  }

  /** Where each CCI column sits in the header, for the column it is named after. */
  datatype Positions = Positions(
    level1Location: nat, level1Type: nat,
    level2Location: nat, level2Type: nat,
    location: nat, multiLevelLocation: nat, multiLevelType: nat)

  /** Lines 168-178: the seven lookups, in the order of CCI_COLUMNS; the failure
      carries the name of the first column that is missing. */
  function Locate(header: seq<string>): (r: Result<Positions>)
    ensures r.Failure? ==> r.error in Cci && r.error !in header
    ensures r.Success? ==> forall n :: n in Cci ==> n in header
    ensures r.Success? ==>
      && r.value.multiLevelType < |header| && header[r.value.multiLevelType] == "CCIMultiLevelTypeID"
      && r.value.multiLevelLocation < |header| && header[r.value.multiLevelLocation] == "CCIMultiLevelLocationID"
  {
    match FirstIndex(header, "CCILevel1ParentLocationID")
    case None => Failure("CCILevel1ParentLocationID")
    case Some(level1Location) =>
    match FirstIndex(header, "CCILevel1ParentTypeID")
    case None => Failure("CCILevel1ParentTypeID")
    case Some(level1Type) =>
    match FirstIndex(header, "CCILevel2ParentLocationID")
    case None => Failure("CCILevel2ParentLocationID")
    case Some(level2Location) =>
    match FirstIndex(header, "CCILevel2ParentTypeID")
    case None => Failure("CCILevel2ParentTypeID")
    case Some(level2Type) =>
    match FirstIndex(header, "CCILocationID")
    case None => Failure("CCILocationID")
    case Some(location) =>
    match FirstIndex(header, "CCIMultiLevelLocationID")
    case None => Failure("CCIMultiLevelLocationID")
    case Some(multiLevelLocation) =>
    match FirstIndex(header, "CCIMultiLevelTypeID")
    case None => Failure("CCIMultiLevelTypeID")
    case Some(multiLevelType) =>
      Success(Positions(level1Location, level1Type, level2Location, level2Type,
        location, multiLevelLocation, multiLevelType))
  }

  /** The cell in column `j` of a body row: rows are read padded to the sheet's
      width, so a position past the row's end holds an empty cell. */
  function CellAt(row: seq<Value>, j: nat): Value {
    if j < |row| then row[j] else Empty
  }

  /** `str()` of the cell in column `j`. */
  function Text(row: seq<Value>, j: nat): string {
    Render(CellAt(row, j))
  }

  /** Line 183: the multi-level type identifier the row's parts compose. */
  function ExpectedTypeId(row: seq<Value>, pos: Positions): (id: string)
    ensures |id| > 0 && id[0] == '§'
  {
    "§" + Text(row, pos.level2Type) + "." + Text(row, pos.level1Type)
  }

  /** Line 190: the multi-level location identifier the row's parts compose. */
  function ExpectedLocationId(row: seq<Value>, pos: Positions): (id: string)
    ensures |id| > 0 && id[0] == '+'
  {
    "+" + Text(row, pos.level2Location) + "." + Text(row, pos.level1Location) + "." + Text(row, pos.location)
  }

  predicate TypeMismatch(row: seq<Value>, pos: Positions) {
    Text(row, pos.multiLevelType) != ExpectedTypeId(row, pos)
  }

  predicate LocationMismatch(row: seq<Value>, pos: Positions) {
    Text(row, pos.multiLevelLocation) != ExpectedLocationId(row, pos)
  }

  /** The red cells, as (body row, column) pairs; body row 0 is the sheet's second row. */
  function Flags(body: seq<seq<Value>>, pos: Positions): (flags: set<(nat, nat)>)
    ensures forall f :: f in flags ==> f.0 < |body| && (f.1 == pos.multiLevelType || f.1 == pos.multiLevelLocation)
  {
    if body == [] then {}
    else
      var i := |body| - 1;
      Flags(body[..i], pos)
        + (if TypeMismatch(body[i], pos) then {(i, pos.multiLevelType)} else {})
        + (if LocationMismatch(body[i], pos) then {(i, pos.multiLevelLocation)} else {})
  }

  /** What validation does to the workbook: nothing when a column is missing
      (the message names it), otherwise the set of cells it fills red. */
  datatype Outcome = MissingColumn(name: string) | Checked(flags: set<(nat, nat)>)

  function Validate(sheet: Sheet): (o: Outcome)
    ensures o.MissingColumn? <==> exists n :: n in Cci && n !in sheet.header
    ensures o.MissingColumn? ==> o.name in Cci && o.name !in sheet.header
    ensures o.Checked? ==> forall f :: f in o.flags ==>
      && f.0 < |sheet.body| && f.1 < |sheet.header|
      && (sheet.header[f.1] == "CCIMultiLevelTypeID" || sheet.header[f.1] == "CCIMultiLevelLocationID")
  {
    match Locate(sheet.header)
    case Failure(name) => MissingColumn(name)
    case Success(pos) => Checked(Flags(sheet.body, pos))
  }

  /** Validation stops at a missing column exactly when one of the seven CCI
      columns is absent from the header, and reports the first absent one in
      CCI_COLUMNS order; when all are present, each position is that of the
      column's first occurrence. */
  lemma LocateIff(header: seq<string>)
    ensures Locate(header).Failure? <==> exists n :: n in Cci && n !in header
    ensures Locate(header).Failure? ==>
      exists k :: 0 <= k < |Cci| && Locate(header).error == Cci[k] && Cci[k] !in header
        && forall m :: 0 <= m < k ==> Cci[m] in header
    ensures Locate(header).Success? ==> var pos := Locate(header).value;
      && pos.level1Location < |header| && header[pos.level1Location] == "CCILevel1ParentLocationID"
      && pos.level1Type < |header| && header[pos.level1Type] == "CCILevel1ParentTypeID"
      && pos.level2Location < |header| && header[pos.level2Location] == "CCILevel2ParentLocationID"
      && pos.level2Type < |header| && header[pos.level2Type] == "CCILevel2ParentTypeID"
      && pos.location < |header| && header[pos.location] == "CCILocationID"
      && pos.multiLevelLocation < |header| && header[pos.multiLevelLocation] == "CCIMultiLevelLocationID"
      && pos.multiLevelType < |header| && header[pos.multiLevelType] == "CCIMultiLevelTypeID"
      && "CCILevel1ParentLocationID" !in header[..pos.level1Location]
      && "CCILevel1ParentTypeID" !in header[..pos.level1Type]
      && "CCILevel2ParentLocationID" !in header[..pos.level2Location]
      && "CCILevel2ParentTypeID" !in header[..pos.level2Type]
      && "CCILocationID" !in header[..pos.location]
      && "CCIMultiLevelLocationID" !in header[..pos.multiLevelLocation]
      && "CCIMultiLevelTypeID" !in header[..pos.multiLevelType]
  {
    var r := Locate(header);
    if "CCILevel1ParentLocationID" !in header {
      assert r.error == Cci[0];
    } else if "CCILevel1ParentTypeID" !in header {
      assert r.error == Cci[1];
    } else if "CCILevel2ParentLocationID" !in header {
      assert r.error == Cci[2];
    } else if "CCILevel2ParentTypeID" !in header {
      assert r.error == Cci[3];
    } else if "CCILocationID" !in header {
      assert r.error == Cci[4];
    } else if "CCIMultiLevelLocationID" !in header {
      assert r.error == Cci[5];
    } else if "CCIMultiLevelTypeID" !in header {
      assert r.error == Cci[6];
    }
  }

  /** A cell is filled red exactly when its row's identifier differs from the one
      the row's parts compose. */
  lemma FlagsIff(body: seq<seq<Value>>, pos: Positions, i: nat)
    requires pos.multiLevelType != pos.multiLevelLocation
    ensures (i, pos.multiLevelType) in Flags(body, pos) <==> i < |body| && TypeMismatch(body[i], pos)
    ensures (i, pos.multiLevelLocation) in Flags(body, pos) <==> i < |body| && LocationMismatch(body[i], pos)
  {
    TypeFlagIff(body, pos, i);
    LocationFlagIff(body, pos, i);
  }

  lemma {:induction false} TypeFlagIff(body: seq<seq<Value>>, pos: Positions, i: nat)
    requires pos.multiLevelType != pos.multiLevelLocation
    ensures (i, pos.multiLevelType) in Flags(body, pos) <==> i < |body| && TypeMismatch(body[i], pos)
    decreases |body|
  {
    if body != [] {
      var n := |body| - 1;
      TypeFlagIff(body[..n], pos, i);
      if i < n {
        assert body[..n][i] == body[i];
      }
    }
  }

  lemma {:induction false} LocationFlagIff(body: seq<seq<Value>>, pos: Positions, i: nat)
    requires pos.multiLevelType != pos.multiLevelLocation
    ensures (i, pos.multiLevelLocation) in Flags(body, pos) <==> i < |body| && LocationMismatch(body[i], pos)
    decreases |body|
  {
    if body != [] {
      var n := |body| - 1;
      LocationFlagIff(body[..n], pos, i);
      if i < n {
        assert body[..n][i] == body[i];
      }
    }
  }

  /** "None", the text of an empty cell, is neither a type nor a location
      identifier: a row whose multi-level identifier is missing is always
      flagged, whatever its parts hold. */
  lemma MissingIdFlagged(row: seq<Value>, pos: Positions)
    requires CellAt(row, pos.multiLevelType) == Empty
    requires CellAt(row, pos.multiLevelLocation) == Empty
    ensures TypeMismatch(row, pos) && LocationMismatch(row, pos)
  {
    assert Text(row, pos.multiLevelType)[0] == 'N';
    assert Text(row, pos.multiLevelLocation)[0] == 'N';
  }

  /** Missing parts are rendered "None" as well: a row whose parts are all empty
      passes only when its identifiers read "§None.None" and "+None.None.None". */
  lemma EmptyPartsRenderNone(row: seq<Value>, pos: Positions)
    requires CellAt(row, pos.level1Type) == Empty && CellAt(row, pos.level2Type) == Empty
    requires CellAt(row, pos.level1Location) == Empty && CellAt(row, pos.level2Location) == Empty
    requires CellAt(row, pos.location) == Empty
    ensures !TypeMismatch(row, pos) <==> Text(row, pos.multiLevelType) == "§None.None"
    ensures !LocationMismatch(row, pos) <==> Text(row, pos.multiLevelLocation) == "+None.None.None"
  {
  }

  /** The first occurrence is the one before which the name does not occur. */
  lemma FirstIndexAt(header: seq<string>, name: string, k: nat)
    requires k < |header| && header[k] == name && name !in header[..k]
    ensures FirstIndex(header, name) == Some(k)
  {
  }

  lemma CciAfterFixed(header: seq<string>, k: nat)
    requires |header| >= 10 && header[..10] == Fixed + Cci
    requires k < |Cci|
    ensures FirstIndex(header, Cci[k]) == Some(3 + k)
  {
    var prefix := header[..10];
    assert Distinct(prefix) by {
      CciDistinct();
      DistinctJoin(Fixed, Cci);
    }
    assert header[3 + k] == prefix[3 + k] == Cci[k];
    var before := header[..3 + k];
    assert Cci[k] !in before by {
      forall m | 0 <= m < |before|
        ensures before[m] != prefix[3 + k]
      {
        assert before[m] == prefix[m];
      }
    }
    FirstIndexAt(header, Cci[k], 3 + k);
  }

  /** When the header starts with the fixed columns followed by the CCI columns
      (as the combined header does when every CCI column is present), the
      lookups find the CCI columns in their own order right after the fixed ones. */
  lemma LocateAfterFixed(header: seq<string>)
    requires |header| >= 10 && header[..10] == Fixed + Cci
    ensures Locate(header) == Success(Positions(3, 4, 5, 6, 7, 8, 9))
  {
    CciAfterFixed(header, 0);
    CciAfterFixed(header, 1);
    CciAfterFixed(header, 2);
    CciAfterFixed(header, 3);
    CciAfterFixed(header, 4);
    CciAfterFixed(header, 5);
    CciAfterFixed(header, 6);
  }

  const ExampleGood: seq<Value> := [Str("1xS3BCk291UvhgP2a6eflK"), Str("Wall"), Str("IfcWall"),
    Str("F3"), Str("B1"), Str("R12"), Str("A"), Int(4), Str("+R12.F3.4"), Str("§A.B1")]

  const ExampleBad: seq<Value> := [Str("1xS3BCk291UvhgP2a6eflL"), Str("Slab"), Str("IfcSlab"),
    Str("F3"), Str("B1"), Str("R12"), Str("A"), Int(5), Str("+R12.F3.4"), Str("§A.B2")]

  /** The first row's identifiers agree with its parts (the location part is a
      number and is rendered in decimal); in the second, the level-1 type and
      the location disagree with the identifiers. */
  lemma ExampleRows()
    ensures var pos := Positions(3, 4, 5, 6, 7, 8, 9);
      && !TypeMismatch(ExampleGood, pos) && !LocationMismatch(ExampleGood, pos)
      && TypeMismatch(ExampleBad, pos) && LocationMismatch(ExampleBad, pos)
  {
    var pos := Positions(3, 4, 5, 6, 7, 8, 9);
    assert Render(Int(4)) == "4" && Render(Int(5)) == "5";
    assert Text(ExampleBad, 9)[4] == '2' && ExpectedTypeId(ExampleBad, pos)[4] == '1';
    assert Text(ExampleBad, 8)[8] == '4' && ExpectedLocationId(ExampleBad, pos)[8] == '5';
  }

  /** A level-1 type written "02" is compared as written: the identifier
      "§B1.02" passes when the cell holds the text "02", but not when it holds
      the number 2, whose text is "2". */
  lemma LeadingZeroPart(row: seq<Value>, pos: Positions)
    requires pos.multiLevelType < |row| && row[pos.multiLevelType] == Str("§B1.02")
    requires pos.level2Type < |row| && row[pos.level2Type] == Str("B1")
    requires pos.level1Type < |row|
    requires pos.multiLevelType != pos.level2Type && pos.multiLevelType != pos.level1Type
    ensures row[pos.level1Type] == Str("02") ==> !TypeMismatch(row, pos)
    ensures row[pos.level1Type] == Int(2) ==> TypeMismatch(row, pos)
  {
    if row[pos.level1Type] == Int(2) {
      assert Render(Int(2)) == "2";
      assert |ExpectedTypeId(row, pos)| == 5;
    }
  }

  /** Validating a sheet with the two rows under a header that starts with the
      fixed and the CCI columns fills exactly the two identifier cells of the
      second row. */
  lemma ExampleSheet(header: seq<string>)
    requires |header| >= 10 && header[..10] == Fixed + Cci
    ensures Validate(Sheet(header, [ExampleGood, ExampleBad])) == Checked({(1, 8), (1, 9)})
  {
    LocateAfterFixed(header);
    ExampleRows();
    var pos := Positions(3, 4, 5, 6, 7, 8, 9);
    var body := [ExampleGood, ExampleBad];
    assert Flags(body[..1], pos) == {} by {
      assert body[..1][..0] == [];
    }
    assert Flags(body, pos) == {} + {(1, 9)} + {(1, 8)};
  }

  /** On the combined sheet, validation stops at a missing column exactly when
      some CCI column occurs in none of the tables. */
  lemma CombinedMissingIff(sources: seq<Table>)
    ensures Validate(Combined(sources)).MissingColumn? <==>
      exists n :: n in Cci && forall k :: 0 <= k < |sources| ==> n !in sources[k].columns
  {
    var header := Combined(sources).header;
    LocateIff(header);
    CciDistinct();
    if sources != [] {
      forall n | n in Cci
        ensures n in header <==> exists k :: 0 <= k < |sources| && n in sources[k].columns
      {
      }
    } else {
      assert "CCILevel1ParentLocationID" in Cci && "CCILevel1ParentLocationID" !in header;
    }
  }

  lemma {:induction false} PresentAll(xs: seq<string>, keys: set<string>)
    requires forall x :: x in xs ==> x in keys
    ensures Present(xs, keys) == xs
  {
    if xs != [] {
      PresentAll(xs[1..], keys);
      assert xs == [xs[0]] + xs[1..];
    }
  }

  /** When every CCI column occurs in some table, the combined header lists them
      right after the fixed columns, so the identifiers are checked in the ninth
      and tenth columns of the sheet. */
  lemma CombinedPositions(sources: seq<Table>)
    requires sources != []
    requires forall n :: n in Cci ==> exists k :: 0 <= k < |sources| && n in sources[k].columns
    ensures Locate(Combined(sources).header) == Success(Positions(3, 4, 5, 6, 7, 8, 9))
  {
    var keys := AllColumns(sources);
    PresentAll(Cci, keys);
    var header := FinalColumns(keys);
    assert header == Fixed + Cci + SortedSet(keys - CciNames());
    assert header[..10] == Fixed + Cci;
    LocateAfterFixed(header);
  }

  /** Lines 180-192: compare each body row's identifiers with its parts. */
  method Highlight(body: seq<seq<Value>>, pos: Positions) returns (red: set<(nat, nat)>)
    ensures red == Flags(body, pos)
  {
    red := {};
    for i := 0 to |body|
      invariant red == Flags(body[..i], pos)
    {
      var row := body[i];
      assert body[..i + 1][..i] == body[..i];
      if Text(row, pos.multiLevelType) != ExpectedTypeId(row, pos) {
        red := red + {(i, pos.multiLevelType)};
      }
      if Text(row, pos.multiLevelLocation) != ExpectedLocationId(row, pos) {
        red := red + {(i, pos.multiLevelLocation)};
      }
    }
    assert body[..|body|] == body;
  }

  /** Lines 166-194: look the columns up, then walk the body rows. */
  method ValidateSheet(sheet: Sheet) returns (outcome: Outcome)
    ensures outcome == Validate(sheet)
  {
    var located := Locate(sheet.header);
    if located.Failure? {
      outcome := MissingColumn(located.error);
    } else {
      var red := Highlight(sheet.body, located.value);
      outcome := Checked(red);
    }
  }
}
