/**
 * The in-memory `reports` dictionary and the two endpoints over it
 * (main.py lines 97-151). `trigger_report` computes a report map and stores it
 * under a fresh id; `get_report` answers 404 for an unknown id, 202 "Running"
 * for an empty report map, and 200 with the CSV text otherwise.
 *
 * The random id is a parameter; the Mongo collections are the three input
 * sequences; the timezone database and the clock are `offsetOf` and `now`.
 */
module Registry {
  import opened Wrappers
  import opened Timestamps
  import opened Uptime
  import opened Assembly
  import opened Csv

  /** An HTTP answer: status code and body. */
  datatype Response = Response(status: nat, body: string)

  const NotFound := Response(404, "Report not found")
  const Running := Response(202, "Running")

  /** What `get_report` answers for `reportId`, given the stored report maps. */
  function Lookup(reports: map<string, seq<StoreReport>>, reportId: string): (resp: Response)
    ensures resp.status == 404 <==> reportId !in reports
    ensures resp.status == 202 <==> reportId in reports && reports[reportId] == []
    ensures resp.status == 200 <==> reportId in reports && reports[reportId] != []
    ensures resp.status == 200 ==> resp.body == CsvText(reports[reportId])
    ensures resp.status == 404 ==> resp == NotFound
    ensures resp.status == 202 ==> resp == Running
  {
    if reportId in reports then
      var reportData := reports[reportId];
      if reportData != [] then
        Response(200, CsvText(reportData))
      else Running
    else NotFound
  }

  class ReportRegistry {
    /** The global `reports` dictionary: report id to report map. */
    var reports: map<string, seq<StoreReport>>

    constructor ()
      ensures reports == map[]
    {
      reports := map[];
    }

    /**
     * Lines 103-126. On a timestamp that neither format parses, the error escapes
     * and nothing is stored; otherwise the report map is stored under `reportId`,
     * replacing any earlier entry with that id, and every other entry is kept.
     */
    method TriggerReport(
      reportId: string,
      statusRows: seq<Observation>,
      hoursRows: seq<BusinessHours>,
      timezoneRows: seq<TimezoneRecord>,
      offsetOf: string -> int,
      now: int) returns (r: Result<string, ParseError>)
      modifies this
      ensures r.Success? <==> AssembleReport(statusRows, hoursRows, timezoneRows, offsetOf, now).Success?
      ensures r.Success? ==>
                && r.value == reportId
                && reports == old(reports)[reportId := AssembleReport(statusRows, hoursRows, timezoneRows, offsetOf, now).value]
      ensures r.Failure? ==>
                && r.error == AssembleReport(statusRows, hoursRows, timezoneRows, offsetOf, now).error
                && reports == old(reports)
    {
      var groups, order := GroupByStore(statusRows);
      assert groups == Groups(statusRows);
      var businessHours := BusinessHoursTable(hoursRows);
      var timezones := TimezoneTable(timezoneRows);
      var reportData := BuildReportData(order, groups, businessHours, timezones, offsetOf, now);
      if reportData.Failure? {
        return Failure(reportData.error);
      }
      reports := reports[reportId := reportData.value];
      r := Success(reportId);
    }

    /** Lines 133-151, answering with the CSV text instead of a file attachment. */
    method GetReport(reportId: string) returns (resp: Response)
      ensures resp == Lookup(reports, reportId)
    {
      if reportId in reports {
        var reportData := reports[reportId];
        if reportData != [] {
          var csvData := RenderCsv(reportData);
          return Response(200, csvData);
        } else {
          return Running;
        }
      } else {
        return NotFound;
      }
    }
  }

  /**
   * Storing a report map under an id answers for that id with the new map and
   * answers for every other id as before.
   */
  lemma LookupAfterStore(reports: map<string, seq<StoreReport>>, reportId: string, reportData: seq<StoreReport>, other: string)
    ensures Lookup(reports[reportId := reportData], reportId)
            == (if reportData == [] then Running else Response(200, CsvText(reportData)))
    ensures other != reportId ==> Lookup(reports[reportId := reportData], other) == Lookup(reports, other)
  {
  }

  /**
   * A triggered report is served back: once stored, its id answers 202 "Running"
   * when no store qualified and otherwise 200 with a CSV that decodes to the
   * report, provided no store id contains a comma or a newline.
   */
  lemma TriggeredReportServed(
    reports: map<string, seq<StoreReport>>,
    reportId: string,
    statusRows: seq<Observation>,
    hoursRows: seq<BusinessHours>,
    timezoneRows: seq<TimezoneRecord>,
    offsetOf: string -> int,
    now: int)
    requires AssembleReport(statusRows, hoursRows, timezoneRows, offsetOf, now).Success?
    requires forall i :: 0 <= i < |statusRows| ==> PlainId(statusRows[i].storeId)
    ensures var reportData := AssembleReport(statusRows, hoursRows, timezoneRows, offsetOf, now).value;
            var resp := Lookup(reports[reportId := reportData], reportId);
            && (resp == Running <==> reportData == [])
            && (resp.status == 200 ==> DecodeCsv(resp.body) == Some(reportData))
  {
    var reportData := AssembleReport(statusRows, hoursRows, timezoneRows, offsetOf, now).value;
    AssembledKeys(statusRows, hoursRows, timezoneRows, offsetOf, now);
    forall j | 0 <= j < |reportData| ensures PlainId(reportData[j].storeId) {
      var k := reportData[j].storeId;
      assert k in Ids(reportData);
    }
    if reportData != [] {
      CsvRoundTrip(reportData);
    }
  }
}
