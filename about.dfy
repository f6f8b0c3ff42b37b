/**
 * The About page's table rows: one row per entry of the dashboard-info
 * reply, built in input order.
 */
module About {

  /** A JavaScript property that may be missing (`undefined`), `null` or a string. */
  datatype Value = Undefined | Null | Str(s: string)

  /** One entry of the dashboard-info reply. */
  datatype InfoEntry = InfoEntry(id: Value, dashboardVersion: Value, pipelineVersion: Value)

  /** A table row, or the empty-string placeholder pushed for an entry without versions. */
  datatype Row = Placeholder | Row(id: string, property: string, value: string)

  /** The value is not `''`, `null` or `undefined`. */
  predicate IsSet(v: Value)
  {
    v.Str? && v.s != ""
  }

  /** How a template literal renders the value. */
  function Render(v: Value): string
  {
    match v
    case Undefined => "undefined"
    case Null => "null"
    case Str(s) => s
  }

  /**
   * The row loop of `render`: a pipeline version overrides a dashboard
   * version; with neither, the placeholder `''` is pushed.
   */
  method BuildRows(dashboardInfo: seq<InfoEntry>) returns (rows: seq<Row>)
    ensures |rows| == |dashboardInfo|
    ensures forall j :: 0 <= j < |rows| && IsSet(dashboardInfo[j].pipelineVersion) ==>
      rows[j] == Row(Render(dashboardInfo[j].id) + "2", "Pipeline Version", dashboardInfo[j].pipelineVersion.s)
    ensures forall j :: 0 <= j < |rows| && !IsSet(dashboardInfo[j].pipelineVersion) && IsSet(dashboardInfo[j].dashboardVersion) ==>
      rows[j] == Row(Render(dashboardInfo[j].id) + "1", "Dashboard Version", dashboardInfo[j].dashboardVersion.s)
    ensures forall j :: 0 <= j < |rows| && !IsSet(dashboardInfo[j].pipelineVersion) && !IsSet(dashboardInfo[j].dashboardVersion) ==>
      rows[j] == Placeholder
  {
    rows := [];
    for i := 0 to |dashboardInfo|
      invariant |rows| == i
      invariant forall j :: 0 <= j < i && IsSet(dashboardInfo[j].pipelineVersion) ==>
        rows[j] == Row(Render(dashboardInfo[j].id) + "2", "Pipeline Version", dashboardInfo[j].pipelineVersion.s)
      invariant forall j :: 0 <= j < i && !IsSet(dashboardInfo[j].pipelineVersion) && IsSet(dashboardInfo[j].dashboardVersion) ==>
        rows[j] == Row(Render(dashboardInfo[j].id) + "1", "Dashboard Version", dashboardInfo[j].dashboardVersion.s)
      invariant forall j :: 0 <= j < i && !IsSet(dashboardInfo[j].pipelineVersion) && !IsSet(dashboardInfo[j].dashboardVersion) ==>
        rows[j] == Placeholder
    {
      var entry := dashboardInfo[i];
      var data := Placeholder;
      if IsSet(entry.dashboardVersion) {
        data := Row(Render(entry.id) + "1", "Dashboard Version", entry.dashboardVersion.s);
      }
      if IsSet(entry.pipelineVersion) {
        data := Row(Render(entry.id) + "2", "Pipeline Version", entry.pipelineVersion.s);
      }
      rows := rows + [data];
    }
  }

  /** The two-entry reply of the page's rendering test gives one row of each kind. */
  method RowsForDashboardAndPipeline() returns (rows: seq<Row>)
    ensures rows == [Row("dashboardVersion1", "Dashboard Version", "v0.100.0"),
                     Row("pipelineVersion2", "Pipeline Version", "v0.10.0")]
  {
    var info := [InfoEntry(Str("dashboardVersion"), Str("v0.100.0"), Undefined),
                 InfoEntry(Str("pipelineVersion"), Undefined, Str("v0.10.0"))];
    rows := BuildRows(info);
    assert !IsSet(info[0].pipelineVersion) && IsSet(info[0].dashboardVersion);
    assert IsSet(info[1].pipelineVersion);
    assert "dashboardVersion" + "1" == "dashboardVersion1";
    assert "pipelineVersion" + "2" == "pipelineVersion2";
  }
}
