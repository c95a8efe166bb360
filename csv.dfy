/**
 * The CSV text that `get_report` builds (main.py lines 137-140): a header line,
 * then one line per store in report order, each line ended by a newline, with
 * the columns `store_id, uptime hour/day/week, downtime hour/day/week`.
 *
 * The partner of the renderer is a decoder written here: splitting on newlines
 * and commas and reading the decimal counts back gives the reports that were
 * rendered, in order, whenever no store id contains a comma or a newline.
 */
module Csv {
  import opened Wrappers
  import opened Timestamps
  import opened Uptime

  /** The header literal at line 138: the column names, uptimes before downtimes. */
  const HeaderLine: string :=
    "store_id,uptime_last_hour,uptime_last_day,uptime_last_week,downtime_last_hour,downtime_last_day,downtime_last_week"

  // ---------------------------------------------------------------------------
  // Decimal rendering of counts, as an f-string renders an int

  /** The decimal digits of `n`, without leading zeros. */
  function NatToString(n: nat): (s: string)
    ensures |s| >= 1 && AllDigits(s)
    ensures DigitsValue(s) == n
    ensures s[0] == '0' ==> s == "0"
    decreases n
  {
    if n < 10 then [DigitChar(n)]
    else
      var prefix := NatToString(n / 10);
      var s := prefix + [DigitChar(n % 10)];
      assert s[..|s| - 1] == prefix;
      s
  }

  /** Reads a non-empty string of decimal digits. */
  function ParseNat(s: string): (r: Option<nat>)
    ensures r.Some? <==> |s| >= 1 && AllDigits(s)
  {
    if |s| >= 1 && AllDigits(s) then Some(DigitsValue(s)) else None
  }

  lemma NatRoundTrip(n: nat)
    ensures ParseNat(NatToString(n)) == Some(n)
    ensures ',' !in NatToString(n) && '\n' !in NatToString(n)
  {
    var s := NatToString(n);
    assert forall i :: 0 <= i < |s| ==> IsDigit(s[i]);
  }

  // ---------------------------------------------------------------------------
  // Splitting and joining on a separator

  /** Python's `str.split(sep)`: the pieces between separators, so one more than there are separators. */
  function Split(s: string, sep: char): (parts: seq<string>)
    ensures |parts| >= 1
    decreases |s|
  {
    if |s| == 0 then [""]
    else if s[0] == sep then [""] + Split(s[1..], sep)
    else
      var rest := Split(s[1..], sep);
      [[s[0]] + rest[0]] + rest[1..]
  }

  /** Python's `sep.join(parts)`. */
  function Join(parts: seq<string>, sep: char): string
    decreases |parts|
  {
    if |parts| == 0 then ""
    else if |parts| == 1 then parts[0]
    else parts[0] + [sep] + Join(parts[1..], sep)
  }

  lemma {:induction false} SplitWithout(a: string, sep: char)
    requires sep !in a
    ensures Split(a, sep) == [a]
    decreases |a|
  {
    if |a| > 0 {
      SplitWithout(a[1..], sep);
      assert [a[0]] + a[1..] == a;
    }
  }

  lemma {:induction false} SplitAt(a: string, b: string, sep: char)
    requires sep !in a
    ensures Split(a + [sep] + b, sep) == [a] + Split(b, sep)
    decreases |a|
  {
    var s := a + [sep] + b;
    if |a| == 0 {
      assert s[1..] == b;
    } else {
      assert s[1..] == a[1..] + [sep] + b;
      SplitAt(a[1..], b, sep);
      assert [a[0]] + a[1..] == a;
    }
  }

  lemma {:induction false} JoinWithout(parts: seq<string>, sep: char, c: char)
    requires c != sep
    requires forall i :: 0 <= i < |parts| ==> c !in parts[i]
    ensures c !in Join(parts, sep)
    decreases |parts|
  {
    if |parts| > 1 {
      JoinWithout(parts[1..], sep, c);
    }
  }

  /** Splitting undoes joining when no part contains the separator. */
  lemma {:induction false} SplitJoin(parts: seq<string>, sep: char)
    requires |parts| >= 1
    requires forall i :: 0 <= i < |parts| ==> sep !in parts[i]
    ensures Split(Join(parts, sep), sep) == parts
    decreases |parts|
  {
    if |parts| == 1 {
      SplitWithout(parts[0], sep);
    } else {
      SplitJoin(parts[1..], sep);
      SplitAt(parts[0], Join(parts[1..], sep), sep);
      assert [parts[0]] + parts[1..] == parts;
    }
  }

  // ---------------------------------------------------------------------------
  // Rows and the whole text

  /** The seven cells of a row, in header order: uptimes first, then downtimes. */
  function Cells(r: StoreReport): seq<string>
  {
    [ r.storeId,
      NatToString(r.uptimeLastHour), NatToString(r.uptimeLastDay), NatToString(r.uptimeLastWeek),
      NatToString(r.downtimeLastHour), NatToString(r.downtimeLastDay), NatToString(r.downtimeLastWeek) ]
  }

  /** The f-string at line 140, without its newline. */
  function RowLine(r: StoreReport): string
  {
    Join(Cells(r), ',')
  }

  /** Each report's line followed by a newline, in report order. */
  function Rows(reports: seq<StoreReport>): string
    decreases |reports|
  {
    if |reports| == 0 then "" else RowLine(reports[0]) + "\n" + Rows(reports[1..])
  }

  function CsvText(reports: seq<StoreReport>): string
  {
    HeaderLine + "\n" + Rows(reports)
  }

  /** Lines 138-140: the header, then one `+=` per report. */
  method RenderCsv(reports: seq<StoreReport>) returns (csv: string)
    ensures csv == CsvText(reports)
  {
    csv := HeaderLine + "\n";
    for i := 0 to |reports|
      invariant csv + Rows(reports[i..]) == CsvText(reports)
    {
      assert reports[i..][1..] == reports[i + 1..];
      csv := csv + RowLine(reports[i]) + "\n";
    }
    assert reports[|reports|..] == [];
  }

  // ---------------------------------------------------------------------------
  // Decoding

  /** Reads one row back: seven cells, the last six decimal counts in header order. */
  function ParseRow(line: string): (r: Option<StoreReport>)
    ensures r.Some? ==> r.value.storeId == Split(line, ',')[0]
  {
    var cells := Split(line, ',');
    if |cells| != 7 then None
    else
      var upHour, upDay, upWeek := ParseNat(cells[1]), ParseNat(cells[2]), ParseNat(cells[3]);
      var downHour, downDay, downWeek := ParseNat(cells[4]), ParseNat(cells[5]), ParseNat(cells[6]);
      if upHour.None? || upDay.None? || upWeek.None? || downHour.None? || downDay.None? || downWeek.None? then None
      else Some(StoreReport(cells[0], upHour.value, downHour.value, upDay.value, downDay.value, upWeek.value, downWeek.value))
  }

  function ParseRows(lines: seq<string>): Option<seq<StoreReport>>
    decreases |lines|
  {
    if |lines| == 0 then Some([])
    else
      match (ParseRow(lines[0]), ParseRows(lines[1..]))
      case (Some(r), Some(rest)) => Some([r] + rest)
      case _ => None
  }

  /** Reads a whole text back: the header line, data lines, and nothing after the final newline. */
  function DecodeCsv(text: string): Option<seq<StoreReport>>
  {
    var start := |HeaderLine| + 1;
    if |text| < start || text[..start] != HeaderLine + "\n" then None
    else
      var lines := Split(text[start..], '\n');
      if lines[|lines| - 1] != "" then None else ParseRows(lines[..|lines| - 1])
  }

  /** A store id that the CSV can carry without changing the row structure. */
  predicate PlainId(id: StoreId)
  {
    ',' !in id && '\n' !in id
  }

  lemma RowLineOneLine(r: StoreReport)
    requires PlainId(r.storeId)
    ensures '\n' !in RowLine(r)
  {
    NatRoundTrip(r.uptimeLastHour);
    NatRoundTrip(r.uptimeLastDay);
    NatRoundTrip(r.uptimeLastWeek);
    NatRoundTrip(r.downtimeLastHour);
    NatRoundTrip(r.downtimeLastDay);
    NatRoundTrip(r.downtimeLastWeek);
    JoinWithout(Cells(r), ',', '\n');
  }

  lemma RowRoundTrip(r: StoreReport)
    requires PlainId(r.storeId)
    ensures ParseRow(RowLine(r)) == Some(r)
  {
    NatRoundTrip(r.uptimeLastHour);
    NatRoundTrip(r.uptimeLastDay);
    NatRoundTrip(r.uptimeLastWeek);
    NatRoundTrip(r.downtimeLastHour);
    NatRoundTrip(r.downtimeLastDay);
    NatRoundTrip(r.downtimeLastWeek);
    SplitJoin(Cells(r), ',');
  }

  function RowLines(reports: seq<StoreReport>): (lines: seq<string>)
    ensures |lines| == |reports|
    ensures forall j :: 0 <= j < |reports| ==> lines[j] == RowLine(reports[j])
  {
    seq(|reports|, j requires 0 <= j < |reports| => RowLine(reports[j]))
  }

  /** Lines each followed by a newline. */
  function Terminated(lines: seq<string>): string
    decreases |lines|
  {
    if |lines| == 0 then "" else lines[0] + "\n" + Terminated(lines[1..])
  }

  /** Newline-terminated lines split back into the lines, then the empty piece after the last newline. */
  lemma {:induction false} SplitTerminated(lines: seq<string>)
    requires forall j :: 0 <= j < |lines| ==> '\n' !in lines[j]
    ensures Split(Terminated(lines), '\n') == lines + [""]
    decreases |lines|
  {
    if |lines| > 0 {
      SplitTerminated(lines[1..]);
      SplitAt(lines[0], Terminated(lines[1..]), '\n');
      assert [lines[0]] + lines[1..] == lines;
    }
  }

  lemma {:induction false} RowsAreLines(reports: seq<StoreReport>)
    requires forall j :: 0 <= j < |reports| ==> PlainId(reports[j].storeId)
    ensures Rows(reports) == Terminated(RowLines(reports))
    ensures forall j :: 0 <= j < |reports| ==> '\n' !in RowLines(reports)[j]
    decreases |reports|
  {
    if |reports| > 0 {
      RowsAreLines(reports[1..]);
      assert RowLines(reports)[1..] == RowLines(reports[1..]);
      forall j | 0 <= j < |reports| ensures '\n' !in RowLines(reports)[j] {
        RowLineOneLine(reports[j]);
      }
    }
  }

  /** The data part of the text splits into one line per report, then the empty piece after the last newline. */
  lemma SplitRows(reports: seq<StoreReport>)
    requires forall j :: 0 <= j < |reports| ==> PlainId(reports[j].storeId)
    ensures Split(Rows(reports), '\n') == RowLines(reports) + [""]
  {
    RowsAreLines(reports);
    SplitTerminated(RowLines(reports));
  }

  lemma {:induction false} ParseRowLines(reports: seq<StoreReport>)
    requires forall j :: 0 <= j < |reports| ==> PlainId(reports[j].storeId)
    ensures ParseRows(RowLines(reports)) == Some(reports)
    decreases |reports|
  {
    if |reports| > 0 {
      RowRoundTrip(reports[0]);
      ParseRowLines(reports[1..]);
      assert RowLines(reports)[1..] == RowLines(reports[1..]);
      assert [reports[0]] + reports[1..] == reports;
    }
  }

  /**
   * The text carries exactly the reports, in order and with every count in its
   * column: decoding gives them back whenever no store id contains a comma or a newline.
   */
  lemma CsvRoundTrip(reports: seq<StoreReport>)
    requires forall j :: 0 <= j < |reports| ==> PlainId(reports[j].storeId)
    ensures DecodeCsv(CsvText(reports)) == Some(reports)
  {
    var text := CsvText(reports);
    var start := |HeaderLine| + 1;
    assert text[..start] == HeaderLine + "\n";
    assert text[start..] == Rows(reports);
    SplitRows(reports);
    var lines := Split(Rows(reports), '\n');
    assert lines[..|lines| - 1] == RowLines(reports);
    ParseRowLines(reports);
  }
}
