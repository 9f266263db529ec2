/** Turning the outcome of the workbook append into the result the API
    returns under `excel_processing`. */
module Processor {
  import opened Records
  import opened ExcelHandler

  datatype ExcelResult = ExcelResult(status: string, message: string)

  /** `str(requirement.get('attribute'))`: the attribute, or "None" when the key is absent. */
  function AttributeText(requirement: Fields): (text: string)
    ensures "attribute" in requirement ==> text == requirement["attribute"]
    ensures "attribute" !in requirement ==> text == "None"
  {
    if "attribute" in requirement then requirement["attribute"] else "None"
  }

  /** The result for an append that succeeded or not. */
  function ResultOf(requirement: Fields, success: bool): (r: ExcelResult)
    ensures r.status == "inserted" <==> success
    ensures success ==> r.message == "'" + AttributeText(requirement) + "' added to Excel"
    ensures !success ==> r == ExcelResult("error", "Failed to insert into Excel")
  {
    if success then ExcelResult("inserted", "'" + AttributeText(requirement) + "' added to Excel")
    else ExcelResult("error", "Failed to insert into Excel")
  }

  /** `insert_to_excel`: one append of the unmodified requirement, then its
      result. The workbook file is passed in and the saved one returned. */
  method InsertToExcel(file: Option<Sheet>, requirement: Fields, fault: bool)
    returns (result: ExcelResult, saved: Option<Sheet>)
    requires file.Some? ==> WellFormed(file.value)
    ensures saved == if fault then file else Some(Appended(Base(file), requirement))
    ensures result == ResultOf(requirement, !fault)
    ensures result.status == "inserted" <==> !fault
  {
    var success;
    success, saved := AppendRequirementToExcel(file, requirement, fault);
    result := ResultOf(requirement, success);
  }
}
