/** Appending a requirement as one row of the requirements workbook: the
    fixed list of 34 columns, the header labels derived from the column
    names, and the active sheet of the workbook, whose cells are written one
    by one. The file itself is a value: absent, or the saved sheet. */
module ExcelHandler {
  import opened Records

  /** The columns of the workbook, in order. */
  const COLUMNS: seq<string> := [
    "target_field_name", "description", "target_datamart", "target_field_type", "primary_key",
    "business_key", "nullable", "default_value", "source_field", "source_object_event",
    "source_system_topic", "source_type", "transformation_rules", "is_derived_value",
    "derived_value_logic", "data_quality_rules", "foreign_key_reference_table",
    "foreign_key_reference_field", "pii_flag", "sensitivity_level", "security_rule",
    "retention_policy", "archiving_policy", "source_retention", "source_archiving_policy",
    "data_owner", "data_steward", "comment_notes", "storage", "latency_requirements",
    "is_renamed", "sla_datamart_level", "archiving_datamart_level", "retention_datamart_level"
  ]

  /** A cell position; rows and columns are counted from 1. */
  datatype Coord = Coord(row: nat, col: nat)

  /** The active sheet of a workbook: its written cells, and `max_row`, the
      last row holding a cell, which is 1 for a sheet with no cells. */
  datatype Sheet = Sheet(cells: map<Coord, string>, maxRow: nat)

  ghost predicate WellFormed(s: Sheet)
  {
    && 1 <= s.maxRow
    && (forall k :: k in s.cells ==> 1 <= k.row <= s.maxRow && 1 <= k.col)
    && (s.maxRow > 1 ==> exists k :: k in s.cells && k.row == s.maxRow)
  }

  // ---------------------------------------------------------------------
  // Header labels: `col_name.replace("_", " ").title()`.

  predicate IsLetter(c: char)
  {
    'a' <= c <= 'z' || 'A' <= c <= 'Z'
  }

  function Upper(c: char): char
  {
    if 'a' <= c <= 'z' then (c as int - 32) as char else c
  }

  function Lower(c: char): char
  {
    if 'A' <= c <= 'Z' then (c as int + 32) as char else c
  }

  /** `s.replace("_", " ")`. */
  function Spaced(s: string): (t: string)
    ensures |t| == |s| && '_' !in t
    ensures forall i :: 0 <= i < |s| && s[i] != '_' ==> t[i] == s[i]
  {
    seq(|s|, i requires 0 <= i < |s| => if s[i] == '_' then ' ' else s[i])
  }

  /** Python's `str.title()` on ASCII text: a letter that follows a non-letter
      (or starts the text) is upper-cased, every other letter lower-cased. */
  function Title(s: string): (t: string)
    ensures |t| == |s|
  {
    seq(|s|, i requires 0 <= i < |s| =>
      if !IsLetter(s[i]) then s[i]
      else if i == 0 || !IsLetter(s[i - 1]) then Upper(s[i])
      else Lower(s[i]))
  }

  /** `str.title()` leaves every non-letter where it is and changes only
      the case of letters. */
  lemma TitleShape(s: string)
    ensures |Title(s)| == |s|
    ensures forall i :: 0 <= i < |s| && !IsLetter(s[i]) ==> Title(s)[i] == s[i]
    ensures forall i :: 0 <= i < |s| && IsLetter(s[i]) ==> IsLetter(Title(s)[i]) && Lower(Title(s)[i]) == Lower(s[i])
  {
  }

  function Label(name: string): (header: string)
    ensures |header| == |name| && '_' !in header
  {
    Title(Spaced(name))
  }

  /** A column name: lower-case letters and underscores. */
  predicate IsSnakeName(name: string)
  {
    forall i :: 0 <= i < |name| ==> 'a' <= name[i] <= 'z' || name[i] == '_'
  }

  /** Recovers a column name from its header label. */
  function NameOfLabel(header: string): string
  {
    seq(|header|, i requires 0 <= i < |header| => if header[i] == ' ' then '_' else Lower(header[i]))
  }

  /** For a column name the label capitalises each underscore-separated word
      and turns each underscore into a space. */
  lemma LabelCapitalisesWords(name: string)
    requires IsSnakeName(name)
    ensures |Label(name)| == |name|
    ensures forall i :: 0 <= i < |name| ==>
      Label(name)[i] ==
        if name[i] == '_' then ' '
        else if i == 0 || name[i - 1] == '_' then Upper(name[i])
        else name[i]
  {
    var spaced := Spaced(name);
    forall i | 0 <= i < |name|
      ensures Label(name)[i] ==
        if name[i] == '_' then ' '
        else if i == 0 || name[i - 1] == '_' then Upper(name[i])
        else name[i]
    {
      assert spaced[i] == if name[i] == '_' then ' ' else name[i];
      if i > 0 {
        assert spaced[i - 1] == if name[i - 1] == '_' then ' ' else name[i - 1];
      }
    }
  }

  /** The header label determines the column name. */
  lemma LabelRoundTrip(name: string)
    requires IsSnakeName(name)
    ensures NameOfLabel(Label(name)) == name
  {
    LabelCapitalisesWords(name);
    var header := Label(name);
    forall i | 0 <= i < |name| ensures NameOfLabel(header)[i] == name[i] {
      if name[i] != '_' {
        assert Lower(Upper(name[i])) == name[i];
      }
    }
  }

  /** The header of the `data_owner` column. */
  lemma LabelExampleDataOwner()
    ensures Label("data_owner") == "Data Owner"
  {
    LabelCapitalisesWords("data_owner");
  }

  /** The header of the `pii_flag` column. */
  lemma LabelExamplePiiFlag()
    ensures Label("pii_flag") == "Pii Flag"
  {
    assert Spaced("pii_flag") == "pii flag";
    LabelCapitalisesWords("pii_flag");
  }

  /** Two different column names never share a header label. */
  lemma LabelInjective(a: string, b: string)
    requires IsSnakeName(a) && IsSnakeName(b) && a != b
    ensures Label(a) != Label(b)
  {
    LabelRoundTrip(a);
    LabelRoundTrip(b);
  }

  lemma ColumnCount()
    ensures |COLUMNS| == 34
  {
  }

  /** There are 34 columns, no two with the same name. */
  lemma ColumnsWellFormed()
    ensures |COLUMNS| == 34
    ensures Distinct(COLUMNS)
  {
    FirstHalfDistinct();
    SecondHalfDistinct();
    HalvesDisjoint();
  }

  // The 34 columns compared in two halves of 17, so that each comparison stays small.

  lemma FirstHalfDistinct()
    ensures forall i, j :: 0 <= i < j < 17 ==> COLUMNS[i] != COLUMNS[j]
  {
  }

  lemma SecondHalfDistinct()
    ensures forall i, j :: 17 <= i < j < 34 ==> COLUMNS[i] != COLUMNS[j]
  {
  }

  lemma HalvesDisjoint()
    ensures forall i, j :: 0 <= i < 17 <= j < 34 ==> COLUMNS[i] != COLUMNS[j]
  {
  }

  /** `description` is the second column and no other. */
  lemma DescriptionColumn()
    ensures COLUMNS[1] == "description"
    ensures forall i :: 0 <= i < |COLUMNS| && i != 1 ==> COLUMNS[i] != "description"
  {
  }

  /** Of the six submitted fields, only `description` is a column. */
  lemma SharedFields()
    ensures forall k :: k in FORM_FIELDS && k != "description" ==> k !in COLUMNS
    ensures COLUMNS[1] == "description"
  {
    AttributeNotAColumn();
    DomainNotAColumn();
    SourceSystemNotAColumn();
    SourceEntityNotAColumn();
    ResponsibleAnalystNotAColumn();
  }

  // One lemma per form field, so that each is checked against the 34 columns on its own.

  lemma AttributeNotAColumn() ensures "attribute" !in COLUMNS { }
  lemma DomainNotAColumn() ensures "domain" !in COLUMNS { }
  lemma SourceSystemNotAColumn() ensures "source_system" !in COLUMNS { }
  lemma SourceEntityNotAColumn() ensures "source_entity" !in COLUMNS { }
  lemma ResponsibleAnalystNotAColumn() ensures "responsible_analyst" !in COLUMNS { }

  // ---------------------------------------------------------------------
  // Rows and sheets as values.

  function Labels(): seq<string>
  {
    seq(|COLUMNS|, i requires 0 <= i < |COLUMNS| => Label(COLUMNS[i]))
  }

  /** The data row: `requirement.get(col, "")` for each column, in column order. */
  function Project(requirement: Fields): (row: seq<string>)
    ensures |row| == |COLUMNS|
    ensures forall i :: 0 <= i < |COLUMNS| && COLUMNS[i] in requirement ==> row[i] == requirement[COLUMNS[i]]
    ensures forall i :: 0 <= i < |COLUMNS| && COLUMNS[i] !in requirement ==> row[i] == ""
  {
    seq(|COLUMNS|, i requires 0 <= i < |COLUMNS| => Get(requirement, COLUMNS[i]))
  }

  /** The cells of `row` holding `values` from column 1 on. */
  function RowCells(row: nat, values: seq<string>): map<Coord, string>
  {
    if |values| == 0 then map[]
    else RowCells(row, values[..|values| - 1])[Coord(row, |values|) := values[|values| - 1]]
  }

  /** A new workbook's sheet once its header row is written. */
  function NewSheet(): Sheet
  {
    Sheet(RowCells(1, Labels()), 1)
  }

  /** The sheet the row is appended to: the saved one, or a new one. */
  function Base(file: Option<Sheet>): Sheet
  {
    if file.Some? then file.value else NewSheet()
  }

  /** The sheet with one more row, holding `values`, after its last row. */
  function AppendRow(s: Sheet, values: seq<string>): Sheet
  {
    Sheet(s.cells + RowCells(s.maxRow + 1, values), s.maxRow + 1)
  }

  /** The sheet with the requirement's row written after its last row. */
  function Appended(s: Sheet, requirement: Fields): Sheet
  {
    AppendRow(s, Project(requirement))
  }

  /** A row of values lands at row `max_row + 1`, one value per column from
      column 1 on, and every existing cell stays as it was. */
  lemma AppendRowSpec(s: Sheet, values: seq<string>)
    requires WellFormed(s) && |values| > 0
    ensures WellFormed(AppendRow(s, values))
    ensures forall k :: k in s.cells ==>
      k in AppendRow(s, values).cells && AppendRow(s, values).cells[k] == s.cells[k]
    ensures forall i :: 0 <= i < |values| ==>
      Coord(s.maxRow + 1, i + 1) in AppendRow(s, values).cells &&
      AppendRow(s, values).cells[Coord(s.maxRow + 1, i + 1)] == values[i]
    ensures forall k :: k in AppendRow(s, values).cells <==>
      k in s.cells || (k.row == s.maxRow + 1 && 1 <= k.col <= |values|)
  {
    var next := s.maxRow + 1;
    var row := RowCells(next, values);
    RowCellsSpec(next, values);
    assert Coord(next, 1) in row;
    forall k | k in s.cells ensures k !in row {
    }
  }

  /** Appending a requirement writes one cell per column, in column order,
      at row `max_row + 1`, and leaves every existing cell as it was. */
  lemma AppendedSpec(s: Sheet, requirement: Fields)
    requires WellFormed(s)
    ensures WellFormed(Appended(s, requirement))
    ensures Appended(s, requirement).maxRow == s.maxRow + 1
    ensures forall k :: k in s.cells ==>
      k in Appended(s, requirement).cells && Appended(s, requirement).cells[k] == s.cells[k]
    ensures forall i :: 0 <= i < |COLUMNS| ==>
      Coord(s.maxRow + 1, i + 1) in Appended(s, requirement).cells &&
      Appended(s, requirement).cells[Coord(s.maxRow + 1, i + 1)] == Get(requirement, COLUMNS[i])
    ensures forall k :: k in Appended(s, requirement).cells <==>
      k in s.cells || (k.row == s.maxRow + 1 && 1 <= k.col <= |COLUMNS|)
  {
    ColumnCount();
    var values := Project(requirement);
    AppendRowSpec(s, values);
    forall i | 0 <= i < |COLUMNS| ensures values[i] == Get(requirement, COLUMNS[i]) {
    }
  }

  /** The keys and values of a row's cells. */
  lemma {:induction false} RowCellsSpec(row: nat, values: seq<string>)
    ensures forall k :: k in RowCells(row, values) <==> k.row == row && 1 <= k.col <= |values|
    ensures forall i :: 0 <= i < |values| ==> RowCells(row, values)[Coord(row, i + 1)] == values[i]
  {
    if |values| > 0 {
      RowCellsSpec(row, values[..|values| - 1]);
    }
  }

  /** Appending to the saved sheet, or to a new one, keeps the sheet well formed. */
  lemma AppendedWellFormed(file: Option<Sheet>, requirement: Fields)
    requires file.Some? ==> WellFormed(file.value)
    ensures WellFormed(Appended(Base(file), requirement))
  {
    if file.None? {
      NewSheetSpec();
    }
    AppendedSpec(Base(file), requirement);
  }

  /** In a new workbook row 1 is the header, one label per column, and the
      first requirement goes to row 2. */
  lemma NewSheetSpec()
    ensures WellFormed(NewSheet())
    ensures forall k :: k in NewSheet().cells <==> k.row == 1 && 1 <= k.col <= |COLUMNS|
    ensures forall i :: 0 <= i < |COLUMNS| ==>
      Coord(1, i + 1) in NewSheet().cells && NewSheet().cells[Coord(1, i + 1)] == Label(COLUMNS[i])
    ensures forall requirement :: Appended(NewSheet(), requirement).maxRow == 2
  {
    RowCellsSpec(1, Labels());
    ColumnCount();
    forall i | 0 <= i < |COLUMNS| ensures Labels()[i] == Label(COLUMNS[i]) {
    }
  }

  /** The row depends only on the requirement's values under the columns:
      any other key never reaches the sheet. */
  lemma ProjectIgnoresOtherKeys(r1: Fields, r2: Fields)
    requires forall c :: c in COLUMNS ==> Get(r1, c) == Get(r2, c)
    ensures Project(r1) == Project(r2)
  {
    forall i | 0 <= i < |COLUMNS| ensures Project(r1)[i] == Project(r2)[i] {
      assert COLUMNS[i] in COLUMNS;
    }
  }

  /** Of the six fields a client submits only `description` is a column, so
      the row appended for a new requirement holds its description in column
      2 and is empty everywhere else. */
  lemma CreatedRowHoldsOnlyDescription(c: RequirementCreate)
    ensures forall i :: 0 <= i < |COLUMNS| ==>
      Project(ToDict(c))[i] == if i == 1 then c.description else ""
  {
    SharedFields();
    var d := ToDict(c);
    forall i | 0 <= i < |COLUMNS| ensures Project(d)[i] == if i == 1 then c.description else "" {
      if i != 1 {
        DescriptionColumn();
        assert COLUMNS[i] != "description";
        assert COLUMNS[i] !in d;
      }
    }
  }

  lemma RowCellsSnoc(row: nat, values: seq<string>, v: string)
    ensures RowCells(row, values + [v]) == RowCells(row, values)[Coord(row, |values| + 1) := v]
  {
    assert (values + [v])[..|values|] == values;
  }

  lemma UnionUpdate(a: map<Coord, string>, b: map<Coord, string>, k: Coord, v: string)
    ensures (a + b)[k := v] == a + b[k := v]
  {
  }

  // ---------------------------------------------------------------------
  // The sheet written in place.

  class Worksheet {
    var cells: map<Coord, string>
    var maxRow: nat

    ghost predicate Valid()
      reads this
    {
      WellFormed(Sheet(cells, maxRow))
    }

    /** The active sheet of `Workbook()`: no cells, `max_row` 1. */
    constructor ()
      ensures Valid() && cells == map[] && maxRow == 1
    {
      cells := map[];
      maxRow := 1;
    }

    /** The active sheet of a loaded workbook. */
    constructor Load(s: Sheet)
      requires WellFormed(s)
      ensures Valid() && cells == s.cells && maxRow == s.maxRow
    {
      cells := s.cells;
      maxRow := s.maxRow;
    }

    /** `sheet.cell(row=row, column=col, value=value)`. */
    method SetCell(row: nat, col: nat, value: string)
      requires Valid() && 1 <= row && 1 <= col
      modifies this
      ensures Valid()
      ensures cells == old(cells)[Coord(row, col) := value]
      ensures maxRow == if row > old(maxRow) then row else old(maxRow)
    {
      if row > maxRow {
        maxRow := row;
      } else if maxRow > 1 {
        var last :| last in cells && last.row == maxRow;
        assert last in cells[Coord(row, col) := value];
      }
      cells := cells[Coord(row, col) := value];
    }

    function Snapshot(): Sheet
      reads this
    {
      Sheet(cells, maxRow)
    }
  }

  /** `for col_idx, value in enumerate(values, start=1): sheet.cell(row, col_idx, value)`. */
  method WriteRow(sheet: Worksheet, row: nat, values: seq<string>)
    requires sheet.Valid() && 1 <= row
    modifies sheet
    ensures sheet.Valid()
    ensures sheet.cells == old(sheet.cells) + RowCells(row, values)
    ensures sheet.maxRow == if |values| > 0 && row > old(sheet.maxRow) then row else old(sheet.maxRow)
  {
    for i := 0 to |values|
      invariant sheet.Valid()
      invariant sheet.maxRow == if i > 0 && row > old(sheet.maxRow) then row else old(sheet.maxRow)
      invariant sheet.cells == old(sheet.cells) + RowCells(row, values[..i])
    {
      RowCellsSnoc(row, values[..i], values[i]);
      assert values[..i + 1] == values[..i] + [values[i]];
      UnionUpdate(old(sheet.cells), RowCells(row, values[..i]), Coord(row, i + 1), values[i]);
      sheet.SetCell(row, i + 1, values[i]);
    }
    assert values[..|values|] == values;
  }

  /** `Workbook()` and its header row: one label per column in row 1. */
  method NewWorksheet() returns (sheet: Worksheet)
    ensures fresh(sheet) && sheet.Valid()
    ensures sheet.Snapshot() == NewSheet()
  {
    ColumnCount();
    sheet := new Worksheet();
    WriteRow(sheet, 1, Labels());
    assert sheet.cells == map[] + RowCells(1, Labels());
  }

  /** `next_row = sheet.max_row + 1` and the row written there. */
  method AppendValues(sheet: Worksheet, values: seq<string>)
    requires sheet.Valid() && |values| > 0
    modifies sheet
    ensures sheet.Valid()
    ensures sheet.Snapshot() == AppendRow(old(sheet.Snapshot()), values)
  {
    var nextRow := sheet.maxRow + 1;
    WriteRow(sheet, nextRow, values);
  }

  /** `append_requirement_to_excel`: open the saved sheet, or start one with
      a header row; write the requirement's row after the last row; save.
      `fault` stands for any step raising, in which case nothing is saved
      and the result is false. */
  method AppendRequirementToExcel(file: Option<Sheet>, requirement: Fields, fault: bool)
    returns (ok: bool, saved: Option<Sheet>)
    requires file.Some? ==> WellFormed(file.value)
    ensures ok == !fault
    ensures saved == if ok then Some(Appended(Base(file), requirement)) else file
  {
    var sheet: Worksheet;
    if file.Some? {
      sheet := new Worksheet.Load(file.value);
    } else {
      sheet := NewWorksheet();
    }
    assert sheet.Snapshot() == Base(file);
    ColumnCount();
    AppendValues(sheet, Project(requirement));

    if fault {
      ok, saved := false, file;
    } else {
      ok, saved := true, Some(sheet.Snapshot());
    }
  }
}
