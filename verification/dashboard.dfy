/**
  The analysis run of the dashboard once a frame is loaded: the summary
  first, then the charts in the order the page calls their planners.
 */
module Dashboard {
  import opened Wrappers
  import opened Frame
  import opened Classify
  import opened Summary
  import opened Charts

  /** What one analysis produces: the summary and the charts to draw. */
  datatype Report = Report(summary: DatasetSummary, charts: seq<ChartSpec>)

  /**
    The summary is generated before any chart is planned, so a frame whose
    summary fails (no numeric column to describe) gets no chart at all; the
    page shows the error instead.
   */
  method Analyze(ds: Dataset) returns (r: Result<Report, SummaryError>)
    requires WellFormed(ds)
    ensures r.Failure? <==> |NumericColumns(ds)| == 0
    ensures r.Failure? ==> r.error == DescribeWithoutColumns
    ensures r.Success? ==> Describes(ds, r.value.summary) && r.value.charts == ChartPlan(ds)
  {
    var summary := GenerateSummary(ds);
    if summary.Failure? {
      return Failure(summary.error);
    }
    var charts := PlanCharts(ds);
    return Success(Report(summary.value, charts));
  }
}
