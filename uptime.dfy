/**
 * The uptime/downtime estimator `calculate_uptime_downtime` (main.py lines 19-88).
 *
 * For one store it checks the business-hours gate, resolves the store's timezone
 * (default `America/Chicago`), and counts each status poll into three inclusive
 * trailing windows ending at `now`: uptime for status `active`, downtime otherwise.
 * Instants are microseconds; a timezone is its offset from UTC in microseconds,
 * given by the `offsetOf` parameter; `now` is a parameter.
 */
module Uptime {
  import opened Wrappers
  import opened Timestamps

  type StoreId = string

  /** A `store_status` document. */
  datatype Observation = Observation(storeId: StoreId, timestampUtc: string, status: string)

  /** A `business_hours` document; a field missing from the document is `None`. */
  datatype BusinessHours = BusinessHours(storeId: StoreId, startTimeLocal: Option<string>, endTimeLocal: Option<string>)

  /** The report dictionary of lines 76-84. */
  datatype StoreReport = StoreReport(
    storeId: StoreId,
    uptimeLastHour: nat, downtimeLastHour: nat,
    uptimeLastDay: nat, downtimeLastDay: nat,
    uptimeLastWeek: nat, downtimeLastWeek: nat)
  {
    function Uptime(w: Window): nat
    {
      match w
      case LastHour => uptimeLastHour
      case LastDay => uptimeLastDay
      case LastWeek => uptimeLastWeek
    }

    function Downtime(w: Window): nat
    {
      match w
      case LastHour => downtimeLastHour
      case LastDay => downtimeLastDay
      case LastWeek => downtimeLastWeek
    }
  }

  const DefaultTimezone: string := "America/Chicago"

  // ---------------------------------------------------------------------------
  // Windows

  datatype Window = LastHour | LastDay | LastWeek

  /** The `timedelta`s of lines 34-36, in microseconds. */
  function Width(w: Window): nat
  {
    match w
    case LastHour => 3600 * MicrosPerSecond
    case LastDay => 24 * 3600 * MicrosPerSecond
    case LastWeek => 7 * 24 * 3600 * MicrosPerSecond
  }

  /** Lines 55, 62 and 69: `now - width <= t <= now`, inclusive on both ends. */
  predicate InWindow(now: int, t: int, w: Window)
  {
    now - Width(w) <= t <= now
  }

  /**
   * Line 52: `tz.localize` reads the naive UTC wall clock as a local time of the
   * store's timezone, so the instant it denotes is the wall clock minus the offset.
   */
  function Localize(wallClock: int, offset: int): int
  {
    wallClock - offset
  }

  // ---------------------------------------------------------------------------
  // Counting

  /** A poll after parsing and localisation: its instant and whether it is `active`. */
  datatype Stamped = Stamped(instant: int, active: bool)

  /**
   * A timestamp parser: `ParseTimestamp` in the calculator. The stamping and counting
   * lemmas hold for any parser, so they are stated for a parameter `parse`.
   */
  type Parser = string -> Result<int, ParseError>

  function Stamp(o: Observation, offset: int, parse: Parser): Result<Stamped, ParseError>
  {
    match parse(o.timestampUtc)
    case Success(t) => Success(Stamped(Localize(t, offset), o.status == "active"))
    case Failure(e) => Failure(e)
  }

  /** Every poll stamped in order; the first unparsable one stops the pass with its error. */
  function StampAll(entries: seq<Observation>, offset: int, parse: Parser): Result<seq<Stamped>, ParseError>
    decreases |entries|
  {
    if |entries| == 0 then Success([])
    else
      match StampAll(entries[..|entries| - 1], offset, parse)
      case Failure(e) => Failure(e)
      case Success(ps) =>
        match Stamp(entries[|entries| - 1], offset, parse)
        case Failure(e) => Failure(e)
        case Success(p) => Success(ps + [p])
  }

  /** How many of `ps` fall in window `w` with activity `up`: one counter of lines 39-44. */
  function CountIn(ps: seq<Stamped>, now: int, w: Window, up: bool): nat
    decreases |ps|
  {
    if |ps| == 0 then 0
    else
      var last := ps[|ps| - 1];
      CountIn(ps[..|ps| - 1], now, w, up) + (if InWindow(now, last.instant, w) && last.active == up then 1 else 0)
  }

  function ReportOf(storeId: StoreId, ps: seq<Stamped>, now: int): StoreReport
  {
    StoreReport(storeId,
      CountIn(ps, now, LastHour, true), CountIn(ps, now, LastHour, false),
      CountIn(ps, now, LastDay, true), CountIn(ps, now, LastDay, false),
      CountIn(ps, now, LastWeek, true), CountIn(ps, now, LastWeek, false))
  }

  /** The counters of one store's polls, or the error of the first poll that does not parse. */
  function Tally(storeId: StoreId, entries: seq<Observation>, offset: int, parse: Parser, now: int): Result<StoreReport, ParseError>
  {
    match StampAll(entries, offset, parse)
    case Failure(e) => Failure(e)
    case Success(ps) => Success(ReportOf(storeId, ps, now))
  }

  // ---------------------------------------------------------------------------
  // The calculator

  /** Python truthiness of an optional string: present and non-empty. */
  predicate Truthy(v: Option<string>)
  {
    v.Some? && v.value != ""
  }

  /** Line 26: both business-hour bounds of the store are present and non-empty. */
  predicate HasBusinessHours(storeId: StoreId, businessHours: map<StoreId, BusinessHours>)
  {
    && storeId in businessHours
    && Truthy(businessHours[storeId].startTimeLocal)
    && Truthy(businessHours[storeId].endTimeLocal)
  }

  /** Line 24: the store's timezone name, `America/Chicago` when it has none. */
  function TimezoneOf(storeId: StoreId, timezones: map<StoreId, string>): string
  {
    if storeId in timezones then timezones[storeId] else DefaultTimezone
  }

  /** Line 47: the store's polls, none when it has no entry. */
  function EntriesOf(storeId: StoreId, activity: map<StoreId, seq<Observation>>): seq<Observation>
  {
    if storeId in activity then activity[storeId] else []
  }

  /** Windows nest: each counter is at most the same counter of the next larger window. */
  predicate Nested(r: StoreReport)
  {
    && r.uptimeLastHour <= r.uptimeLastDay <= r.uptimeLastWeek
    && r.downtimeLastHour <= r.downtimeLastDay <= r.downtimeLastWeek
  }

  /**
   * What `calculate_uptime_downtime` returns: `None` exactly for a store failing the
   * business-hours gate, otherwise the store's report or the parse error it raises.
   */
  function Calculate(
    storeId: StoreId,
    activity: map<StoreId, seq<Observation>>,
    businessHours: map<StoreId, BusinessHours>,
    timezones: map<StoreId, string>,
    offsetOf: string -> int,
    now: int): (r: Result<Option<StoreReport>, ParseError>)
    ensures r == Success(None) <==> !HasBusinessHours(storeId, businessHours)
    ensures r.Success? && r.value.Some? ==> r.value.value.storeId == storeId && Nested(r.value.value)
  {
    if !HasBusinessHours(storeId, businessHours) then Success(None)
    else
      var entries, offset := EntriesOf(storeId, activity), offsetOf(TimezoneOf(storeId, timezones));
      match Tally(storeId, entries, offset, ParseTimestamp, now)
      case Failure(e) => Failure(e)
      case Success(report) =>
        TallyNested(storeId, entries, offset, ParseTimestamp, now);
        Success(Some(report))
  }

  /** Lines 19-88, step by step: the gate, then the counting loop. */
  method CalculateUptimeDowntime(
    storeId: StoreId,
    activity: map<StoreId, seq<Observation>>,
    businessHours: map<StoreId, BusinessHours>,
    timezones: map<StoreId, string>,
    offsetOf: string -> int,
    now: int) returns (r: Result<Option<StoreReport>, ParseError>)
    ensures r == Calculate(storeId, activity, businessHours, timezones, offsetOf, now)
  {
    var hours := if storeId in businessHours then Some(businessHours[storeId]) else None;
    var startTimeLocal := if hours.Some? then hours.value.startTimeLocal else None;
    var endTimeLocal := if hours.Some? then hours.value.endTimeLocal else None;
    var timezoneStr := TimezoneOf(storeId, timezones);
    if !(Truthy(startTimeLocal) && Truthy(endTimeLocal)) {
      return Success(None);
    }
    var report := CountPolls(storeId, EntriesOf(storeId, activity), offsetOf(timezoneStr), now);
    r := if report.Failure? then Failure(report.error) else Success(Some(report.value));
  }

  /**
   * Lines 38-84: six counters, each poll's timestamp parsed and localised and
   * counted into every window that holds it; a timestamp that does not parse
   * ends the pass with its error.
   */
  method CountPolls(storeId: StoreId, entries: seq<Observation>, offset: int, now: int)
    returns (r: Result<StoreReport, ParseError>)
    ensures r == Tally(storeId, entries, offset, ParseTimestamp, now)
  {
    var uptimeLastHour, downtimeLastHour := 0, 0;
    var uptimeLastDay, downtimeLastDay := 0, 0;
    var uptimeLastWeek, downtimeLastWeek := 0, 0;
    ghost var ps: seq<Stamped> := [];
    var i := 0;
    while i < |entries|
      invariant 0 <= i <= |entries|
      invariant StampAll(entries[..i], offset, ParseTimestamp) == Success(ps)
      invariant StoreReport(storeId, uptimeLastHour, downtimeLastHour, uptimeLastDay, downtimeLastDay,
                            uptimeLastWeek, downtimeLastWeek) == ReportOf(storeId, ps, now)
    {
      var entry := entries[i];
      var parsed := ParseTimestamp(entry.timestampUtc);
      if parsed.Failure? {
        StampAllStopsAt(entries, i, offset, ParseTimestamp);
        return Failure(parsed.error);
      }
      var local := Localize(parsed.value, offset);
      var active := entry.status == "active";
      CountInSnoc(ps, Stamped(local, active), now);
      uptimeLastHour, downtimeLastHour := CountPoll(uptimeLastHour, downtimeLastHour, local, active, now, LastHour);
      uptimeLastDay, downtimeLastDay := CountPoll(uptimeLastDay, downtimeLastDay, local, active, now, LastDay);
      uptimeLastWeek, downtimeLastWeek := CountPoll(uptimeLastWeek, downtimeLastWeek, local, active, now, LastWeek);
      StampAllStep(entries, i, offset, ParseTimestamp);
      ps := ps + [Stamped(local, active)];
      i := i + 1;
    }
    assert entries[..i] == entries;
    r := Success(StoreReport(storeId,
      uptimeLastHour, downtimeLastHour, uptimeLastDay, downtimeLastDay, uptimeLastWeek, downtimeLastWeek));
  }

  /** Lines 55-59 (and 62-66, 69-73): a poll inside window `w` adds one to the uptime or the downtime counter. */
  method CountPoll(uptime: nat, downtime: nat, local: int, active: bool, now: int, w: Window)
    returns (uptime': nat, downtime': nat)
    ensures uptime' == uptime + (if InWindow(now, local, w) && active then 1 else 0)
    ensures downtime' == downtime + (if InWindow(now, local, w) && !active then 1 else 0)
  {
    uptime', downtime' := uptime, downtime;
    if now - Width(w) <= local <= now {
      if active { uptime' := uptime + 1; } else { downtime' := downtime + 1; }
    }
  }

  /** One more poll adds one to each counter whose window holds it and whose status it has. */
  lemma CountInSnoc(ps: seq<Stamped>, p: Stamped, now: int)
    ensures forall w: Window, up: bool ::
              CountIn(ps + [p], now, w, up) == CountIn(ps, now, w, up) + (if InWindow(now, p.instant, w) && p.active == up then 1 else 0)
  {
    assert (ps + [p])[..|ps|] == ps;
  }

  // ---------------------------------------------------------------------------
  // Stamping lemmas

  lemma StampAllStep(entries: seq<Observation>, i: nat, offset: int, parse: Parser)
    requires i < |entries|
    requires StampAll(entries[..i], offset, parse).Success?
    requires parse(entries[i].timestampUtc).Success?
    ensures StampAll(entries[..i + 1], offset, parse)
            == Success(StampAll(entries[..i], offset, parse).value
                       + [Stamped(Localize(parse(entries[i].timestampUtc).value, offset), entries[i].status == "active")])
  {
    assert entries[..i + 1][..i] == entries[..i];
  }

  /** A failure in a prefix is the failure of the whole pass. */
  lemma {:induction false} StampAllKeepsFailure(entries: seq<Observation>, k: nat, offset: int, parse: Parser)
    requires k <= |entries|
    requires StampAll(entries[..k], offset, parse).Failure?
    ensures StampAll(entries, offset, parse) == StampAll(entries[..k], offset, parse)
    decreases |entries| - k
  {
    if k < |entries| {
      var n := |entries|;
      assert entries[..n][..n - 1] == entries[..n - 1];
      assert entries[..n - 1][..k] == entries[..k];
      StampAllKeepsFailure(entries[..n - 1], k, offset, parse);
      assert entries[..n] == entries;
    } else {
      assert entries[..k] == entries;
    }
  }

  lemma StampAllStopsAt(entries: seq<Observation>, i: nat, offset: int, parse: Parser)
    requires i < |entries|
    requires StampAll(entries[..i], offset, parse).Success?
    requires parse(entries[i].timestampUtc).Failure?
    ensures StampAll(entries, offset, parse) == Failure(parse(entries[i].timestampUtc).error)
  {
    assert entries[..i + 1][..i] == entries[..i];
    StampAllKeepsFailure(entries, i + 1, offset, parse);
  }

  /**
   * Stamping succeeds exactly when every poll parses; then it keeps every poll, in
   * order, each at its localised instant and with its status.
   */
  lemma {:induction false} StampAllElementwise(entries: seq<Observation>, offset: int, parse: Parser)
    ensures StampAll(entries, offset, parse).Success?
            <==> forall i :: 0 <= i < |entries| ==> parse(entries[i].timestampUtc).Success?
    ensures StampAll(entries, offset, parse).Success? ==>
              && |StampAll(entries, offset, parse).value| == |entries|
              && forall i :: 0 <= i < |entries| ==>
                   StampAll(entries, offset, parse).value[i]
                   == Stamped(Localize(parse(entries[i].timestampUtc).value, offset), entries[i].status == "active")
    decreases |entries|
  {
    if |entries| > 0 {
      var n := |entries|;
      var prefix := entries[..n - 1];
      StampAllElementwise(prefix, offset, parse);
      assert forall i :: 0 <= i < n - 1 ==> prefix[i] == entries[i];
    }
  }

  /** The first poll that does not parse names the error. */
  lemma {:induction false} StampAllFirstError(entries: seq<Observation>, offset: int, parse: Parser)
    requires StampAll(entries, offset, parse).Failure?
    ensures exists k :: && 0 <= k < |entries|
                        && parse(entries[k].timestampUtc).Failure?
                        && StampAll(entries, offset, parse).error == parse(entries[k].timestampUtc).error
                        && forall j :: 0 <= j < k ==> parse(entries[j].timestampUtc).Success?
    decreases |entries|
  {
    var n := |entries|;
    var prefix := entries[..n - 1];
    assert forall i :: 0 <= i < n - 1 ==> prefix[i] == entries[i];
    if StampAll(prefix, offset, parse).Failure? {
      StampAllFirstError(prefix, offset, parse);
      var k :| && 0 <= k < |prefix|
               && parse(prefix[k].timestampUtc).Failure?
               && StampAll(prefix, offset, parse).error == parse(prefix[k].timestampUtc).error
               && forall j :: 0 <= j < k ==> parse(prefix[j].timestampUtc).Success?;
      assert prefix[k] == entries[k];
    } else {
      StampAllElementwise(prefix, offset, parse);
      assert forall j :: 0 <= j < n - 1 ==> parse(entries[j].timestampUtc).Success?;
    }
  }

  lemma {:induction false} StampAllAppend(a: seq<Observation>, b: seq<Observation>, offset: int, parse: Parser)
    ensures StampAll(a + b, offset, parse).Success? <==> StampAll(a, offset, parse).Success? && StampAll(b, offset, parse).Success?
    ensures StampAll(a + b, offset, parse).Success? ==>
              StampAll(a + b, offset, parse).value == StampAll(a, offset, parse).value + StampAll(b, offset, parse).value
    decreases |b|
  {
    if |b| == 0 {
      assert a + b == a;
    } else {
      var n := |b|;
      assert (a + b)[..|a + b| - 1] == a + b[..n - 1];
      assert (a + b)[|a + b| - 1] == b[n - 1];
      StampAllAppend(a, b[..n - 1], offset, parse);
      if StampAll(a, offset, parse).Failure? {
        StampAllElementwise(a, offset, parse);
        StampAllElementwise(a + b, offset, parse);
        var i :| 0 <= i < |a| && parse(a[i].timestampUtc).Failure?;
        assert (a + b)[i] == a[i];
      }
    }
  }

  /** Reordering the polls changes neither whether stamping succeeds nor what it stamps, up to order. */
  lemma {:induction false} StampAllPermutation(a: seq<Observation>, b: seq<Observation>, offset: int, parse: Parser)
    requires multiset(a) == multiset(b)
    ensures StampAll(a, offset, parse).Success? <==> StampAll(b, offset, parse).Success?
    ensures StampAll(a, offset, parse).Success? ==> multiset(StampAll(a, offset, parse).value) == multiset(StampAll(b, offset, parse).value)
    decreases |a|
  {
    if |a| > 0 {
      var n := |a|;
      var x := a[n - 1];
      assert a == a[..n - 1] + [x];
      assert x in multiset(b);
      var j :| 0 <= j < |b| && b[j] == x;
      var rest := b[..j] + b[j + 1..];
      assert b == b[..j] + [x] + b[j + 1..];
      RemoveMatching(a, b, j);
      StampAllPermutation(a[..n - 1], rest, offset, parse);
      StampAllAppend(a[..n - 1], [x], offset, parse);
      StampAllAppend(b[..j], [x], offset, parse);
      StampAllAppend(b[..j] + [x], b[j + 1..], offset, parse);
      StampAllAppend(b[..j], b[j + 1..], offset, parse);
      assert StampAll([x], offset, parse).Success? ==> StampAll([x], offset, parse).value == [Stamp(x, offset, parse).value] by {
        assert [x][..0] == [];
      }
    } else {
      assert b == [];
    }
  }

  /** Dropping the last element of `a` and a copy of it from `b` keeps them permutations of each other. */
  lemma RemoveMatching<T>(a: seq<T>, b: seq<T>, j: int)
    requires multiset(a) == multiset(b) && |a| > 0
    requires 0 <= j < |b| && b[j] == a[|a| - 1]
    ensures multiset(a[..|a| - 1]) == multiset(b[..j] + b[j + 1..])
  {
    var x := a[|a| - 1];
    assert a[..|a| - 1] + [x] == a;
    assert multiset(a[..|a| - 1]) == multiset(a) - multiset{x};
    assert b[..j] + [x] + b[j + 1..] == b;
    assert multiset(b[..j] + b[j + 1..]) == multiset(b[..j]) + multiset(b[j + 1..]);
    assert multiset(b[..j] + b[j + 1..]) == multiset(b) - multiset{x};
  }

  // ---------------------------------------------------------------------------
  // Counting lemmas

  ghost function Matching(ps: seq<Stamped>, now: int, w: Window, up: bool): set<int>
  {
    set i | 0 <= i < |ps| && InWindow(now, ps[i].instant, w) && ps[i].active == up
  }

  ghost function InWindowIndices(ps: seq<Stamped>, now: int, w: Window): set<int>
  {
    set i | 0 <= i < |ps| && InWindow(now, ps[i].instant, w)
  }

  /** A counter is the number of polls in its window with its status. */
  lemma {:induction false} CountInMatching(ps: seq<Stamped>, now: int, w: Window, up: bool)
    ensures CountIn(ps, now, w, up) == |Matching(ps, now, w, up)|
    decreases |ps|
  {
    if |ps| > 0 {
      var n := |ps|;
      var prefix := ps[..n - 1];
      CountInMatching(prefix, now, w, up);
      if InWindow(now, ps[n - 1].instant, w) && ps[n - 1].active == up {
        assert Matching(ps, now, w, up) == Matching(prefix, now, w, up) + {n - 1};
      } else {
        assert Matching(ps, now, w, up) == Matching(prefix, now, w, up);
      }
    }
  }

  /** Uptime plus downtime of a window is the number of polls in it: none lost, none counted twice. */
  lemma UpPlusDown(ps: seq<Stamped>, now: int, w: Window)
    ensures CountIn(ps, now, w, true) + CountIn(ps, now, w, false) == |InWindowIndices(ps, now, w)|
  {
    CountInMatching(ps, now, w, true);
    CountInMatching(ps, now, w, false);
    assert InWindowIndices(ps, now, w) == Matching(ps, now, w, true) + Matching(ps, now, w, false);
    assert Matching(ps, now, w, true) !! Matching(ps, now, w, false);
  }

  /** Windows nest: a poll in the last hour is in the last day, one in the last day in the last week. */
  lemma {:induction false} WindowsNest(ps: seq<Stamped>, now: int, up: bool)
    ensures CountIn(ps, now, LastHour, up) <= CountIn(ps, now, LastDay, up) <= CountIn(ps, now, LastWeek, up)
    decreases |ps|
  {
    if |ps| > 0 {
      WindowsNest(ps[..|ps| - 1], now, up);
    }
  }

  lemma {:induction false} CountInAppend(a: seq<Stamped>, b: seq<Stamped>, now: int, w: Window, up: bool)
    ensures CountIn(a + b, now, w, up) == CountIn(a, now, w, up) + CountIn(b, now, w, up)
    decreases |b|
  {
    if |b| == 0 {
      assert a + b == a;
    } else {
      assert (a + b)[..|a + b| - 1] == a + b[..|b| - 1];
      CountInAppend(a, b[..|b| - 1], now, w, up);
    }
  }

  /** The counters do not depend on the order of the polls. */
  lemma {:induction false} CountInPermutation(a: seq<Stamped>, b: seq<Stamped>, now: int, w: Window, up: bool)
    requires multiset(a) == multiset(b)
    ensures CountIn(a, now, w, up) == CountIn(b, now, w, up)
    decreases |a|
  {
    if |a| > 0 {
      var n := |a|;
      var x := a[n - 1];
      assert x in multiset(b);
      var j :| 0 <= j < |b| && b[j] == x;
      var rest := b[..j] + b[j + 1..];
      assert b == b[..j] + [x] + b[j + 1..];
      RemoveMatching(a, b, j);
      CountInPermutation(a[..n - 1], rest, now, w, up);
      CountInAppend(b[..j], [x], now, w, up);
      CountInAppend(b[..j] + [x], b[j + 1..], now, w, up);
      CountInAppend(b[..j], b[j + 1..], now, w, up);
      assert [x][..0] == [];
    } else {
      assert b == [];
    }
  }

  // ---------------------------------------------------------------------------
  // Properties of the calculator

  lemma TallyNested(storeId: StoreId, entries: seq<Observation>, offset: int, parse: Parser, now: int)
    requires Tally(storeId, entries, offset, parse, now).Success?
    ensures Nested(Tally(storeId, entries, offset, parse, now).value)
  {
    var ps := StampAll(entries, offset, parse).value;
    WindowsNest(ps, now, true);
    WindowsNest(ps, now, false);
  }

  /** The polls of `entries` whose localised instant lies in window `w`, by index. */
  ghost function PollsIn(entries: seq<Observation>, offset: int, parse: Parser, now: int, w: Window): set<int>
    requires forall i :: 0 <= i < |entries| ==> parse(entries[i].timestampUtc).Success?
  {
    set i | 0 <= i < |entries| && InWindow(now, Localize(parse(entries[i].timestampUtc).value, offset), w)
  }

  ghost function ActivePollsIn(entries: seq<Observation>, offset: int, parse: Parser, now: int, w: Window): set<int>
    requires forall i :: 0 <= i < |entries| ==> parse(entries[i].timestampUtc).Success?
  {
    set i | && 0 <= i < |entries|
            && InWindow(now, Localize(parse(entries[i].timestampUtc).value, offset), w)
            && entries[i].status == "active"
  }

  /**
   * A store's report, for every window: uptime is the number of its `active` polls in
   * the window, and uptime plus downtime is the number of its polls in the window.
   * The report exists exactly when every poll parses.
   */
  lemma TallyCounts(storeId: StoreId, entries: seq<Observation>, offset: int, parse: Parser, now: int, w: Window)
    ensures Tally(storeId, entries, offset, parse, now).Success?
            <==> forall i :: 0 <= i < |entries| ==> parse(entries[i].timestampUtc).Success?
    ensures Tally(storeId, entries, offset, parse, now).Success? ==>
              && Tally(storeId, entries, offset, parse, now).value.storeId == storeId
              && Tally(storeId, entries, offset, parse, now).value.Uptime(w) == |ActivePollsIn(entries, offset, parse, now, w)|
              && Tally(storeId, entries, offset, parse, now).value.Uptime(w)
                 + Tally(storeId, entries, offset, parse, now).value.Downtime(w) == |PollsIn(entries, offset, parse, now, w)|
  {
    StampAllElementwise(entries, offset, parse);
    if StampAll(entries, offset, parse).Success? {
      var ps := StampAll(entries, offset, parse).value;
      CountInMatching(ps, now, w, true);
      UpPlusDown(ps, now, w);
      assert Matching(ps, now, w, true) == ActivePollsIn(entries, offset, parse, now, w);
      assert InWindowIndices(ps, now, w) == PollsIn(entries, offset, parse, now, w);
    }
  }

  /** Reordering a store's polls changes neither whether it reports nor its report. */
  lemma TallyOrderIndependent(storeId: StoreId, a: seq<Observation>, b: seq<Observation>, offset: int, parse: Parser, now: int)
    requires multiset(a) == multiset(b)
    ensures Tally(storeId, a, offset, parse, now).Success? <==> Tally(storeId, b, offset, parse, now).Success?
    ensures Tally(storeId, a, offset, parse, now).Success? ==> Tally(storeId, a, offset, parse, now) == Tally(storeId, b, offset, parse, now)
  {
    StampAllPermutation(a, b, offset, parse);
    if StampAll(a, offset, parse).Success? {
      var pa, pb := StampAll(a, offset, parse).value, StampAll(b, offset, parse).value;
      forall w: Window, up: bool ensures CountIn(pa, now, w, up) == CountIn(pb, now, w, up) {
        CountInPermutation(pa, pb, now, w, up);
      }
    }
  }

  /** Both ends of every window count: a poll at `now` and one at `now - width`. */
  lemma WindowBoundsInclusive(now: int, w: Window, up: bool)
    ensures CountIn([Stamped(now - Width(w), up), Stamped(now, up)], now, w, up) == 2
    ensures CountIn([Stamped(now - Width(w) - 1, up), Stamped(now + 1, up)], now, w, up) == 0
  {
    var inside := [Stamped(now - Width(w), up), Stamped(now, up)];
    assert inside[..1] == [inside[0]] && [inside[0]][..0] == [];
    assert CountIn([inside[0]], now, w, up) == 1;
    var outside := [Stamped(now - Width(w) - 1, up), Stamped(now + 1, up)];
    assert outside[..1] == [outside[0]] && [outside[0]][..0] == [];
    assert CountIn([outside[0]], now, w, up) == 0;
  }

  /** A store with no timezone entry is computed as if its entry were `America/Chicago`. */
  lemma MissingTimezoneDefaults(
    storeId: StoreId,
    activity: map<StoreId, seq<Observation>>,
    businessHours: map<StoreId, BusinessHours>,
    timezones: map<StoreId, string>,
    offsetOf: string -> int,
    now: int)
    requires storeId !in timezones
    ensures Calculate(storeId, activity, businessHours, timezones, offsetOf, now)
            == Calculate(storeId, activity, businessHours, timezones[storeId := DefaultTimezone], offsetOf, now)
  {
  }

  /**
   * Two polls, active half an hour ago and inactive two days ago: one hour of
   * uptime, one day of uptime, and a week with one of each.
   */
  lemma HalfHourAndTwoDays(storeId: StoreId, now: int)
    ensures ReportOf(storeId, [Stamped(now - 1800 * MicrosPerSecond, true), Stamped(now - 2 * 86400 * MicrosPerSecond, false)], now)
            == StoreReport(storeId, 1, 0, 1, 0, 1, 1)
  {
    var ps := [Stamped(now - 1800 * MicrosPerSecond, true), Stamped(now - 2 * 86400 * MicrosPerSecond, false)];
    assert ps[..1] == [ps[0]] && [ps[0]][..0] == [];
    forall w: Window
      ensures CountIn([ps[0]], now, w, true) == 1 && CountIn([ps[0]], now, w, false) == 0
    {
    }
    assert CountIn(ps, now, LastHour, false) == 0;
    assert CountIn(ps, now, LastDay, false) == 0;
    assert CountIn(ps, now, LastWeek, false) == 1;
  }
}
