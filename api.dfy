/** The requirements API: the requirement table, with the workbook file the
    create handler appends to, and the four handlers over them. The database
    is a map from id to row; ids come from a counter, timestamps from the
    caller. */
module Api {
  import opened Records
  import opened ExcelHandler
  import opened Processor

  /** HTTP 404, "Requirement not found". */
  datatype HttpError = NotFound

  /** The body of a successful `POST /requirements`. */
  datatype CreateResponse = CreateResponse(requirement: Requirement, excelProcessing: ExcelResult)

  /** `r` is a stored row and no stored row was created later. */
  ghost predicate IsLatest(table: map<int, Requirement>, r: Requirement)
  {
    r.id in table && table[r.id] == r &&
    forall id :: id in table ==> table[id].createdAt <= r.createdAt
  }

  /** A row created strictly after every stored one is the one latest row:
      a `GET /requirements` right after its creation returns exactly it. */
  lemma LatestAfterInsert(table: map<int, Requirement>, row: Requirement)
    requires forall id :: id in table ==> table[id].id == id && table[id].createdAt < row.createdAt
    ensures var after := table[row.id := row];
      IsLatest(after, row) && forall r :: IsLatest(after, r) ==> r == row
  {
  }

  class Backend {
    var table: map<int, Requirement>
    var nextId: int
    var excel: Option<Sheet>

    /** Each row is stored under its own id, ids below the counter; the
        workbook, when it exists, is well formed. */
    ghost predicate Valid()
      reads this
    {
      && (forall id :: id in table ==> table[id].id == id && id < nextId)
      && (excel.Some? ==> WellFormed(excel.value))
    }

    /** The server starting over the rows already stored in the database
        (`create_all` creates only missing tables and keeps existing rows),
        the id sequence's next value, and the workbook file if one exists. */
    constructor (stored: map<int, Requirement>, counter: int, excelFile: Option<Sheet>)
      requires forall id :: id in stored ==> stored[id].id == id && id < counter
      requires excelFile.Some? ==> WellFormed(excelFile.value)
      ensures Valid()
      ensures table == stored && nextId == counter && excel == excelFile
    {
      table := stored;
      nextId := counter;
      excel := excelFile;
    }

    /** `db.add`, `db.commit` and `db.refresh`: the row is stored under the
        next id of the sequence, with the time of the insert. */
    method InsertRow(fields: RequirementCreate, now: int) returns (row: Requirement)
      requires Valid()
      modifies this
      ensures Valid()
      ensures row.id !in old(table) && row.fields == fields && row.createdAt == now
      ensures table == old(table)[row.id := row] && |table| == |old(table)| + 1
      ensures excel == old(excel)
    {
      row := Requirement(nextId, fields, now);
      table := table[nextId := row];
      nextId := nextId + 1;
    }

    /** `insert_to_excel(req_data)` on the server's workbook file. */
    method AppendToWorkbook(reqData: Fields, excelFault: bool) returns (result: ExcelResult)
      requires Valid()
      modifies this
      ensures Valid()
      ensures result == ResultOf(reqData, !excelFault)
      ensures excel == if excelFault then old(excel) else Some(Appended(Base(old(excel)), reqData))
      ensures table == old(table) && nextId == old(nextId)
    {
      AppendedWellFormed(excel, reqData);
      var saved;
      result, saved := InsertToExcel(excel, reqData, excelFault);
      excel := saved;
    }

    /** `POST /requirements`: stores one new row with a fresh id and the
        submitted fields, appends the fields to the workbook, and echoes the
        row with the outcome of the append. */
    method CreateRequirement(req: RequirementCreate, now: int, excelFault: bool) returns (response: CreateResponse)
      requires Valid()
      modifies this
      ensures Valid()
      ensures response.requirement.id !in old(table)
      ensures table == old(table)[response.requirement.id := response.requirement]
      ensures |table| == |old(table)| + 1
      ensures response.requirement.fields == req && response.requirement.createdAt == now
      ensures response.excelProcessing == ResultOf(ToDict(req), !excelFault)
      ensures excel == if excelFault then old(excel) else Some(Appended(Base(old(excel)), ToDict(req)))
    {
      var reqData := ToDict(req);
      DictRoundTrip(req);
      var row := InsertRow(FromDict(reqData).value, now);
      var excelResult := AppendToWorkbook(reqData, excelFault);
      response := CreateResponse(row, excelResult);
    }

    /** `GET /requirements`: despite its name, only the most recently created
        row, or nothing when the table is empty. Among rows created at the
        same time any one may be returned. */
    method GetRequirements() returns (list: seq<Requirement>)
      requires Valid()
      ensures |list| <= 1
      ensures list == [] <==> table == map[]
      ensures list != [] ==> IsLatest(table, list[0])
    {
      var rest := table.Keys;
      var latest: Option<Requirement> := None;
      while rest != {}
        invariant rest <= table.Keys
        invariant latest.None? <==> rest == table.Keys
        invariant latest.Some? ==> latest.value.id in table && table[latest.value.id] == latest.value
        invariant latest.Some? ==>
          forall id :: id in table.Keys - rest ==> table[id].createdAt <= latest.value.createdAt
        decreases rest
      {
        if forall k :: k !in rest {
          assert false;
        }
        var key :| key in rest;
        if latest.None? || table[key].createdAt > latest.value.createdAt {
          latest := Some(table[key]);
        }
        rest := rest - {key};
      }
      if latest.Some? {
        list := [latest.value];
      } else {
        assert table.Keys == {};
        list := [];
      }
    }

    /** `GET /requirements/{id}`. */
    method GetRequirement(id: int) returns (result: Result<Requirement, HttpError>)
      requires Valid()
      ensures id in table ==> result == Ok(table[id]) && result.value.id == id
      ensures id !in table ==> result == Err(NotFound)
    {
      if id in table {
        result := Ok(table[id]);
      } else {
        result := Err(NotFound);
      }
    }

    /** `DELETE /requirements/{id}`: removes exactly that row (204), or
        answers 404 and changes nothing. */
    method DeleteRequirement(id: int) returns (result: Result<(), HttpError>)
      requires Valid()
      modifies this
      ensures Valid()
      ensures id !in old(table) ==> result == Err(NotFound) && table == old(table)
      ensures id in old(table) ==> result == Ok(()) && table == old(table) - {id}
      ensures id in old(table) ==> |table| == |old(table)| - 1
      ensures forall k :: k in table ==> k in old(table) && table[k] == old(table)[k]
      ensures nextId == old(nextId) && excel == old(excel)
    {
      if id !in table {
        result := Err(NotFound);
        return;
      }
      table := table - {id};
      result := Ok(());
    }
  }
}
