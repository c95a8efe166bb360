/**
 * Report assembly in `trigger_report` (main.py lines 103-122): polls grouped by
 * store in encounter order, business hours and timezones keyed by store with the
 * last record winning, and one report per store that has polls and passes the
 * business-hours gate.
 *
 * Python dictionaries iterate in insertion order, and that order reaches the CSV
 * rows; so the grouped polls are a map plus the sequence of its keys in insertion
 * order, and the report map is a sequence of reports with distinct `storeId`s,
 * each report's `storeId` being its key.
 */
module Assembly {
  import opened Wrappers
  import opened Timestamps
  import opened Uptime

  /** A `timezone` document. */
  datatype TimezoneRecord = TimezoneRecord(storeId: StoreId, timezoneStr: string)

  predicate Distinct<T(==)>(s: seq<T>)
  {
    forall i, j :: 0 <= i < j < |s| ==> s[i] != s[j]
  }

  // ---------------------------------------------------------------------------
  // Grouping polls by store (lines 103-108)

  /** The polls of store `k`, in the order they were read. */
  function ObservationsOf(rows: seq<Observation>, k: StoreId): seq<Observation>
    decreases |rows|
  {
    if |rows| == 0 then []
    else
      var last := rows[|rows| - 1];
      ObservationsOf(rows[..|rows| - 1], k) + (if last.storeId == k then [last] else [])
  }

  /** The stores in the order of their first poll: the key order of `store_activity_data`. */
  function StoreOrder(rows: seq<Observation>): seq<StoreId>
    decreases |rows|
  {
    if |rows| == 0 then []
    else
      var prefix := StoreOrder(rows[..|rows| - 1]);
      var k := rows[|rows| - 1].storeId;
      if k in prefix then prefix else prefix + [k]
  }

  method GroupByStore(rows: seq<Observation>) returns (groups: map<StoreId, seq<Observation>>, order: seq<StoreId>)
    ensures order == StoreOrder(rows)
    ensures forall k :: k in groups <==> k in order
    ensures forall k :: k in groups ==> groups[k] == ObservationsOf(rows, k)
  {
    groups, order := map[], [];
    var i := 0;
    while i < |rows|
      invariant 0 <= i <= |rows|
      invariant order == StoreOrder(rows[..i])
      invariant forall k :: k in groups <==> k in order
      invariant forall k :: k in groups ==> groups[k] == ObservationsOf(rows[..i], k)
    {
      forall k | k !in order ensures ObservationsOf(rows[..i], k) == [] {
        UnseenStoreHasNoPolls(rows[..i], k);
      }
      var entry := rows[i];
      var storeId := entry.storeId;
      if storeId !in groups {
        groups := groups[storeId := []];
        order := order + [storeId];
      }
      groups := groups[storeId := groups[storeId] + [entry]];
      assert rows[..i + 1][..i] == rows[..i];
      i := i + 1;
    }
    assert rows[..i] == rows;
  }

  lemma {:induction false} UnseenStoreHasNoPolls(rows: seq<Observation>, k: StoreId)
    requires k !in StoreOrder(rows)
    ensures ObservationsOf(rows, k) == []
    decreases |rows|
  {
    if |rows| > 0 {
      UnseenStoreHasNoPolls(rows[..|rows| - 1], k);
    }
  }

  lemma {:induction false} StoreOrderMembers(rows: seq<Observation>)
    ensures Distinct(StoreOrder(rows))
    ensures forall k :: k in StoreOrder(rows) <==> exists i :: 0 <= i < |rows| && rows[i].storeId == k
    decreases |rows|
  {
    if |rows| > 0 {
      var prefix := rows[..|rows| - 1];
      StoreOrderMembers(prefix);
      assert forall i :: 0 <= i < |prefix| ==> prefix[i] == rows[i];
    }
  }

  lemma {:induction false} ObservationsOfMembers(rows: seq<Observation>)
    ensures forall k, o :: o in ObservationsOf(rows, k) <==> o in rows && o.storeId == k
    decreases |rows|
  {
    if |rows| > 0 {
      var prefix := rows[..|rows| - 1];
      ObservationsOfMembers(prefix);
      assert rows == prefix + [rows[|rows| - 1]];
    }
  }

  /** Grouping keeps encounter order: the group of a concatenation is the concatenation of the groups. */
  lemma {:induction false} ObservationsOfAppend(a: seq<Observation>, b: seq<Observation>, k: StoreId)
    ensures ObservationsOf(a + b, k) == ObservationsOf(a, k) + ObservationsOf(b, k)
    decreases |b|
  {
    if |b| == 0 {
      assert a + b == a;
    } else {
      assert (a + b)[..|a + b| - 1] == a + b[..|b| - 1];
      ObservationsOfAppend(a, b[..|b| - 1], k);
    }
  }

  // ---------------------------------------------------------------------------
  // Last write wins (lines 110-115)

  /** A dictionary filled by assigning `d[key] = value` for each pair in turn. */
  function Latest<V>(pairs: seq<(StoreId, V)>): map<StoreId, V>
    decreases |pairs|
  {
    if |pairs| == 0 then map[]
    else
      var last := pairs[|pairs| - 1];
      Latest(pairs[..|pairs| - 1])[last.0 := last.1]
  }

  /** A key is present exactly when some pair has it, and then holds the value of the last such pair. */
  lemma {:induction false} LatestWins<V>(pairs: seq<(StoreId, V)>, k: StoreId)
    ensures k in Latest(pairs) <==> exists i :: 0 <= i < |pairs| && pairs[i].0 == k
    ensures k in Latest(pairs) ==>
              exists i :: && 0 <= i < |pairs| && pairs[i] == (k, Latest(pairs)[k])
                          && forall j :: i < j < |pairs| ==> pairs[j].0 != k
    decreases |pairs|
  {
    if |pairs| > 0 {
      var n := |pairs|;
      var prefix := pairs[..n - 1];
      LatestWins(prefix, k);
      assert forall i :: 0 <= i < n - 1 ==> prefix[i] == pairs[i];
      if pairs[n - 1].0 != k && k in Latest(pairs) {
        var i :| && 0 <= i < |prefix| && prefix[i] == (k, Latest(prefix)[k])
                 && forall j :: i < j < |prefix| ==> prefix[j].0 != k;
        assert pairs[i] == (k, Latest(pairs)[k]);
      }
    }
  }

  function HoursPairs(rows: seq<BusinessHours>): (pairs: seq<(StoreId, BusinessHours)>)
    ensures |pairs| == |rows|
    ensures forall i :: 0 <= i < |rows| ==> pairs[i] == (rows[i].storeId, rows[i])
  {
    seq(|rows|, i requires 0 <= i < |rows| => (rows[i].storeId, rows[i]))
  }

  function TimezonePairs(rows: seq<TimezoneRecord>): (pairs: seq<(StoreId, string)>)
    ensures |pairs| == |rows|
    ensures forall i :: 0 <= i < |rows| ==> pairs[i] == (rows[i].storeId, rows[i].timezoneStr)
  {
    seq(|rows|, i requires 0 <= i < |rows| => (rows[i].storeId, rows[i].timezoneStr))
  }

  /** The `business_hours_data` dictionary that lines 110-113 build. */
  function HoursOf(rows: seq<BusinessHours>): map<StoreId, BusinessHours>
  {
    Latest(HoursPairs(rows))
  }

  /** Lines 110-113: one assignment per business-hours record, in the order read. */
  method BusinessHoursTable(rows: seq<BusinessHours>) returns (table: map<StoreId, BusinessHours>)
    ensures table == HoursOf(rows)
  {
    table := map[];
    var i := 0;
    while i < |rows|
      invariant 0 <= i <= |rows|
      invariant table == Latest(HoursPairs(rows[..i]))
    {
      var entry := rows[i];
      assert HoursPairs(rows[..i + 1])[..i] == HoursPairs(rows[..i]);
      table := table[entry.storeId := entry];
      i := i + 1;
    }
    assert rows[..i] == rows;
  }

  /**
   * Line 115, the dictionary comprehension over the `timezone` records: a store maps
   * to the timezone of its last record, and only stores with a record are present.
   */
  function TimezoneTable(rows: seq<TimezoneRecord>): (table: map<StoreId, string>)
    ensures forall k :: k in table <==> exists i :: 0 <= i < |rows| && rows[i].storeId == k
    ensures forall k :: k in table ==>
              exists i :: && 0 <= i < |rows| && rows[i] == TimezoneRecord(k, table[k])
                          && forall j :: i < j < |rows| ==> rows[j].storeId != k
  {
    var pairs := TimezonePairs(rows);
    LatestWinsAll(pairs);
    Latest(pairs)
  }

  lemma LatestWinsAll<V>(pairs: seq<(StoreId, V)>)
    ensures forall k :: k in Latest(pairs) <==> exists i :: 0 <= i < |pairs| && pairs[i].0 == k
    ensures forall k :: k in Latest(pairs) ==>
              exists i :: && 0 <= i < |pairs| && pairs[i] == (k, Latest(pairs)[k])
                          && forall j :: i < j < |pairs| ==> pairs[j].0 != k
  {
    forall k
      ensures k in Latest(pairs) <==> exists i :: 0 <= i < |pairs| && pairs[i].0 == k
      ensures k in Latest(pairs) ==>
                exists i :: && 0 <= i < |pairs| && pairs[i] == (k, Latest(pairs)[k])
                            && forall j :: i < j < |pairs| ==> pairs[j].0 != k
    {
      LatestWins(pairs, k);
    }
  }

  /** For business hours: a store's record is its last one, and only stores with a record have one. */
  lemma HoursLastWriteWins(rows: seq<BusinessHours>, k: StoreId)
    ensures k in HoursOf(rows) <==> exists i :: 0 <= i < |rows| && rows[i].storeId == k
    ensures k in HoursOf(rows) ==>
              exists i :: && 0 <= i < |rows| && rows[i] == HoursOf(rows)[k]
                          && HoursOf(rows)[k].storeId == k
                          && forall j :: i < j < |rows| ==> rows[j].storeId != k
  {
    var pairs := HoursPairs(rows);
    LatestWins(pairs, k);
    if k !in HoursOf(rows) {
      forall i | 0 <= i < |rows| ensures rows[i].storeId != k {
        assert pairs[i].0 == rows[i].storeId;
      }
    }
  }

  // ---------------------------------------------------------------------------
  // Reports for eligible stores (lines 117-122)

  /** The stores of `order` that pass the business-hours gate, in order. */
  function Eligible(order: seq<StoreId>, businessHours: map<StoreId, BusinessHours>): seq<StoreId>
    decreases |order|
  {
    if |order| == 0 then []
    else
      var last := order[|order| - 1];
      Eligible(order[..|order| - 1], businessHours) + (if HasBusinessHours(last, businessHours) then [last] else [])
  }

  function Ids(reports: seq<StoreReport>): (ids: seq<StoreId>)
    ensures |ids| == |reports|
    ensures forall j :: 0 <= j < |reports| ==> ids[j] == reports[j].storeId
  {
    seq(|reports|, j requires 0 <= j < |reports| => reports[j].storeId)
  }

  /** `report_data`: the report of each store of `order` whose calculation is not `None`, in order. */
  function ReportData(
    order: seq<StoreId>,
    activity: map<StoreId, seq<Observation>>,
    businessHours: map<StoreId, BusinessHours>,
    timezones: map<StoreId, string>,
    offsetOf: string -> int,
    now: int): Result<seq<StoreReport>, ParseError>
    decreases |order|
  {
    if |order| == 0 then Success([])
    else
      match ReportData(order[..|order| - 1], activity, businessHours, timezones, offsetOf, now)
      case Failure(e) => Failure(e)
      case Success(reports) =>
        match Calculate(order[|order| - 1], activity, businessHours, timezones, offsetOf, now)
        case Failure(e) => Failure(e)
        case Success(None) => Success(reports)
        case Success(Some(report)) => Success(reports + [report])
  }

  /** Lines 117-122: one calculation per grouped store, keeping the reports that are not `None`. */
  method BuildReportData(
    order: seq<StoreId>,
    activity: map<StoreId, seq<Observation>>,
    businessHours: map<StoreId, BusinessHours>,
    timezones: map<StoreId, string>,
    offsetOf: string -> int,
    now: int) returns (r: Result<seq<StoreReport>, ParseError>)
    ensures r == ReportData(order, activity, businessHours, timezones, offsetOf, now)
  {
    var reportData := [];
    var i := 0;
    while i < |order|
      invariant 0 <= i <= |order|
      invariant ReportData(order[..i], activity, businessHours, timezones, offsetOf, now) == Success(reportData)
    {
      assert order[..i + 1][..i] == order[..i];
      var report := CalculateUptimeDowntime(order[i], activity, businessHours, timezones, offsetOf, now);
      if report.Failure? {
        ReportDataKeepsFailure(order, i + 1, activity, businessHours, timezones, offsetOf, now);
        return Failure(report.error);
      }
      if report.value.Some? {
        reportData := reportData + [report.value.value];
      }
      i := i + 1;
    }
    assert order[..i] == order;
    r := Success(reportData);
  }

  lemma {:induction false} ReportDataKeepsFailure(
    order: seq<StoreId>, k: nat,
    activity: map<StoreId, seq<Observation>>,
    businessHours: map<StoreId, BusinessHours>,
    timezones: map<StoreId, string>,
    offsetOf: string -> int,
    now: int)
    requires k <= |order|
    requires ReportData(order[..k], activity, businessHours, timezones, offsetOf, now).Failure?
    ensures ReportData(order, activity, businessHours, timezones, offsetOf, now)
            == ReportData(order[..k], activity, businessHours, timezones, offsetOf, now)
    decreases |order| - k
  {
    if k < |order| {
      var n := |order|;
      assert order[..n - 1][..k] == order[..k];
      ReportDataKeepsFailure(order[..n - 1], k, activity, businessHours, timezones, offsetOf, now);
    } else {
      assert order[..k] == order;
    }
  }

  /**
   * On success the report keys are the stores of `order` that pass the business-hours
   * gate, in order; each report is that store's calculation.
   */
  lemma {:induction false} ReportDataKeys(
    order: seq<StoreId>,
    activity: map<StoreId, seq<Observation>>,
    businessHours: map<StoreId, BusinessHours>,
    timezones: map<StoreId, string>,
    offsetOf: string -> int,
    now: int)
    requires ReportData(order, activity, businessHours, timezones, offsetOf, now).Success?
    ensures Ids(ReportData(order, activity, businessHours, timezones, offsetOf, now).value) == Eligible(order, businessHours)
    ensures forall r :: r in ReportData(order, activity, businessHours, timezones, offsetOf, now).value ==>
              Calculate(r.storeId, activity, businessHours, timezones, offsetOf, now) == Success(Some(r))
    decreases |order|
  {
    if |order| > 0 {
      var n := |order|;
      ReportDataKeys(order[..n - 1], activity, businessHours, timezones, offsetOf, now);
      var rs := ReportData(order[..n - 1], activity, businessHours, timezones, offsetOf, now).value;
      var c := Calculate(order[n - 1], activity, businessHours, timezones, offsetOf, now);
      if c.value.Some? {
        assert Ids(rs + [c.value.value]) == Ids(rs) + [order[n - 1]];
      }
    }
  }

  lemma {:induction false} EligibleMembers(order: seq<StoreId>, businessHours: map<StoreId, BusinessHours>)
    requires Distinct(order)
    ensures Distinct(Eligible(order, businessHours))
    ensures forall k :: k in Eligible(order, businessHours) <==> k in order && HasBusinessHours(k, businessHours)
    decreases |order|
  {
    if |order| > 0 {
      var prefix := order[..|order| - 1];
      EligibleMembers(prefix, businessHours);
      assert order == prefix + [order[|order| - 1]];
    }
  }

  // ---------------------------------------------------------------------------
  // The whole assembly

  /** The polls of each store that has one, as `store_activity_data`. */
  function Groups(rows: seq<Observation>): map<StoreId, seq<Observation>>
  {
    map k | k in StoreOrder(rows) :: ObservationsOf(rows, k)
  }

  /** What lines 103-122 compute from the three collections: `report_data`, or the parse error. */
  function AssembleReport(
    statusRows: seq<Observation>,
    hoursRows: seq<BusinessHours>,
    timezoneRows: seq<TimezoneRecord>,
    offsetOf: string -> int,
    now: int): Result<seq<StoreReport>, ParseError>
  {
    ReportData(StoreOrder(statusRows), Groups(statusRows), HoursOf(hoursRows), TimezoneTable(timezoneRows), offsetOf, now)
  }

  /**
   * The report keys are exactly the stores that have at least one poll and a
   * business-hours record with non-empty bounds, each once, in the order of their
   * first poll; every report is the store's own calculation over its own polls.
   */
  lemma AssembledKeys(
    statusRows: seq<Observation>,
    hoursRows: seq<BusinessHours>,
    timezoneRows: seq<TimezoneRecord>,
    offsetOf: string -> int,
    now: int)
    requires AssembleReport(statusRows, hoursRows, timezoneRows, offsetOf, now).Success?
    ensures Distinct(Ids(AssembleReport(statusRows, hoursRows, timezoneRows, offsetOf, now).value))
    ensures forall k :: k in Ids(AssembleReport(statusRows, hoursRows, timezoneRows, offsetOf, now).value)
              <==> && (exists i :: 0 <= i < |statusRows| && statusRows[i].storeId == k)
                   && HasBusinessHours(k, HoursOf(hoursRows))
    ensures forall r :: r in AssembleReport(statusRows, hoursRows, timezoneRows, offsetOf, now).value ==>
              Calculate(r.storeId, Groups(statusRows), HoursOf(hoursRows), TimezoneTable(timezoneRows), offsetOf, now)
              == Success(Some(r))
  {
    var order := StoreOrder(statusRows);
    StoreOrderMembers(statusRows);
    EligibleMembers(order, HoursOf(hoursRows));
    ReportDataKeys(order, Groups(statusRows), HoursOf(hoursRows), TimezoneTable(timezoneRows), offsetOf, now);
  }
}
