/** The audit flattener: turns the `vulnerabilities` mapping of an npm audit
    report into CSV rows, one per `via` entry of every vulnerability record.

    Within a record a running (title, url) pair starts blank and is overwritten
    by every structured advisory in `via`; every entry, structured or not, emits
    a row holding the record's name, its severity and the current pair.
 */
module AuditFlattener {
  import opened Wrappers

  /** One element of a record's `via` list: a JSON object (an advisory, whose
      `title` and `url` keys may be absent) or anything else (a bare package
      reference such as a string). */
  datatype ViaEntry =
    | Advisory(title: Option<string>, url: Option<string>)
    | Reference

  /** A vulnerability record; a `None` field is a key missing from the object. */
  datatype VulnRecord = VulnRecord(name: Option<string>, severity: Option<string>, via: Option<seq<ViaEntry>>)

  /** The parsed report. The `vulnerabilities` mapping is kept in iteration
      (insertion) order as a sequence of (key, record) pairs. */
  datatype AuditReport = AuditReport(vulnerabilities: Option<seq<(string, VulnRecord)>>)

  /** One CSV row, as the list of its fields. */
  type Row = seq<string>

  const Header: Row := ["Package Name", "Severity", "Vulnerability Title", "URL"]

  /** The running (title, url) pair of the inner loop. */
  datatype Advice = Advice(title: string, url: string)

  const Blank := Advice("", "")

  predicate WellFormed(rec: VulnRecord) {
    rec.name.Some? && rec.severity.Some? && rec.via.Some?
  }

  /** The pair an advisory sets: its title and url, each defaulting to "". */
  function AdviceOf(v: ViaEntry): (a: Advice)
    requires v.Advisory?
    ensures v.title.Some? ==> a.title == v.title.value
    ensures v.title.None? ==> a.title == ""
    ensures v.url.Some? ==> a.url == v.url.value
    ensures v.url.None? ==> a.url == ""
  {
    Advice(v.title.GetOr(""), v.url.GetOr(""))
  }

  /** One step of the inner loop's state machine: an advisory overwrites the
      pair, any other entry leaves it alone. */
  function Observe(cur: Advice, v: ViaEntry): Advice {
    if v.Advisory? then AdviceOf(v) else cur
  }

  function MakeRow(name: string, severity: string, a: Advice): Row {
    [name, severity, a.title, a.url]
  }

  /** Reference definition of the pair in force once `seen` has been walked:
      the pair of the LAST advisory in `seen`, found by scanning backwards,
      or `start` when `seen` holds no advisory. */
  function Latest(seen: seq<ViaEntry>, start: Advice): Advice
    decreases |seen|
  {
    if seen == [] then start
    else if seen[|seen| - 1].Advisory? then AdviceOf(seen[|seen| - 1])
    else Latest(seen[..|seen| - 1], start)
  }

  /** Walking one entry `v` first and then `rest` ends with the same pair as
      walking `[v] + rest` from the original start. */
  lemma {:induction false} LatestShift(v: ViaEntry, rest: seq<ViaEntry>, start: Advice)
    ensures Latest(rest, Observe(start, v)) == Latest([v] + rest, start)
    decreases |rest|
  {
    var whole := [v] + rest;
    if rest == [] {
      assert whole[..0] == [];
    } else if rest[|rest| - 1].Advisory? {
      assert whole[|whole| - 1] == rest[|rest| - 1];
    } else {
      assert whole[|whole| - 1] == rest[|rest| - 1];
      assert whole[..|whole| - 1] == [v] + rest[..|rest| - 1];
      LatestShift(v, rest[..|rest| - 1], start);
    }
  }

  /** When no entry of `seen` is an advisory, the pair is still the start pair. */
  lemma {:induction false} LatestWithoutAdvisory(seen: seq<ViaEntry>, start: Advice)
    requires forall k :: 0 <= k < |seen| ==> seen[k].Reference?
    ensures Latest(seen, start) == start
    decreases |seen|
  {
    if seen != [] {
      LatestWithoutAdvisory(seen[..|seen| - 1], start);
    }
  }

  /** When `seen[j]` is an advisory followed only by references, the pair is
      the one `seen[j]` set. */
  lemma {:induction false} LatestIsNearestAdvisory(seen: seq<ViaEntry>, start: Advice, j: nat)
    requires j < |seen| && seen[j].Advisory?
    requires forall k :: j < k < |seen| ==> seen[k].Reference?
    ensures Latest(seen, start) == AdviceOf(seen[j])
    decreases |seen|
  {
    if j < |seen| - 1 {
      var prefix := seen[..|seen| - 1];
      assert prefix[j] == seen[j];
      assert forall k :: j < k < |prefix| ==> prefix[k] == seen[k];
      LatestIsNearestAdvisory(prefix, start, j);
    }
  }

  /** The inner loop over one record's `via` list, started from pair `cur`:
      one row per entry, each carrying the pair in force after that entry. */
  function ViaRows(name: string, severity: string, via: seq<ViaEntry>, cur: Advice): (rows: seq<Row>)
    ensures |rows| == |via|
    ensures forall i :: 0 <= i < |via| ==> rows[i] == MakeRow(name, severity, Latest(via[..i + 1], cur))
    decreases |via|
  {
    if via == [] then []
    else
      var next := Observe(cur, via[0]);
      var rest := ViaRows(name, severity, via[1..], next);
      assert forall i :: 1 <= i < |via| ==> Latest(via[1..][..i], next) == Latest(via[..i + 1], cur) by {
        forall i | 1 <= i < |via|
          ensures Latest(via[1..][..i], next) == Latest(via[..i + 1], cur)
        {
          assert [via[0]] + via[1..][..i] == via[..i + 1];
          LatestShift(via[0], via[1..][..i], cur);
        }
      }
      assert Latest(via[..1], cur) == next by {
        assert via[..1][..0] == [];
      }
      [MakeRow(name, severity, next)] + rest
  }

  /** The rows of one vulnerability record, or the KeyError of the first
      required key missing from it, looked up in the order name, severity, via. */
  function RecordRows(rec: VulnRecord): (r: Result<seq<Row>, KeyError>)
    ensures r.Success? <==> WellFormed(rec)
    ensures r.Failure? ==>
              || (rec.name.None? && r.error == KeyError("name"))
              || (rec.name.Some? && rec.severity.None? && r.error == KeyError("severity"))
              || (rec.name.Some? && rec.severity.Some? && rec.via.None? && r.error == KeyError("via"))
    ensures r.Success? ==> |r.value| == |rec.via.value|
    ensures r.Success? ==> forall i :: 0 <= i < |rec.via.value| ==>
              r.value[i] == MakeRow(rec.name.value, rec.severity.value, Latest(rec.via.value[..i + 1], Blank))
  {
    if rec.name.None? then Failure(KeyError("name"))
    else if rec.severity.None? then Failure(KeyError("severity"))
    else if rec.via.None? then Failure(KeyError("via"))
    else Success(ViaRows(rec.name.value, rec.severity.value, rec.via.value, Blank))
  }

  /** Sequencing of two row-producing steps: the first failure wins, otherwise
      the row lists are concatenated. */
  function Chain(x: Result<seq<Row>, KeyError>, y: Result<seq<Row>, KeyError>): Result<seq<Row>, KeyError> {
    match x
    case Failure(e) => Failure(e)
    case Success(p) =>
      match y
      case Failure(e) => Failure(e)
      case Success(q) => Success(p + q)
  }

  /** Total number of `via` entries over the records (absent lists count 0). */
  function TotalVia(records: seq<(string, VulnRecord)>): nat
    decreases |records|
  {
    if records == [] then 0
    else (if records[0].1.via.Some? then |records[0].1.via.value| else 0) + TotalVia(records[1..])
  }

  /** The outer loop: the records' rows in iteration order, or the first error. */
  function CollectRows(records: seq<(string, VulnRecord)>): (r: Result<seq<Row>, KeyError>)
    ensures r.Success? <==> forall i :: 0 <= i < |records| ==> WellFormed(records[i].1)
    ensures r.Success? ==> |r.value| == TotalVia(records)
    decreases |records|
  {
    if records == [] then Success([])
    else
      var r := Chain(RecordRows(records[0].1), CollectRows(records[1..]));
      assert forall i :: 1 <= i < |records| ==> records[1..][i - 1] == records[i];
      r
  }

  /** The whole call: the header followed by every data row, or the KeyError
      that aborts it. Rows are buffered, so a failure yields no rows at all. */
  function AuditToCsv(report: AuditReport): (r: Result<seq<Row>, KeyError>)
    ensures r.Success? <==>
              && report.vulnerabilities.Some?
              && forall i :: 0 <= i < |report.vulnerabilities.value| ==> WellFormed(report.vulnerabilities.value[i].1)
    ensures report.vulnerabilities.None? ==> r == Failure(KeyError("vulnerabilities"))
    ensures r.Success? ==> |r.value| == 1 + TotalVia(report.vulnerabilities.value)
    ensures r.Success? ==> r.value[0] == Header
  {
    if report.vulnerabilities.None? then Failure(KeyError("vulnerabilities"))
    else
      match CollectRows(report.vulnerabilities.value)
      case Failure(e) => Failure(e)
      case Success(rows) => Success([Header] + rows)
  }

  lemma ChainAssociative(x: Result<seq<Row>, KeyError>, y: Result<seq<Row>, KeyError>, z: Result<seq<Row>, KeyError>)
    ensures Chain(Chain(x, y), z) == Chain(x, Chain(y, z))
  {
    if x.Success? && y.Success? && z.Success? {
      assert (x.value + y.value) + z.value == x.value + (y.value + z.value);
    }
  }

  /** No state crosses a record boundary: the rows of `a + b` are the rows of
      `a` followed by the rows of `b`, with the first error winning. */
  lemma {:induction false} CollectRowsAppend(a: seq<(string, VulnRecord)>, b: seq<(string, VulnRecord)>)
    ensures CollectRows(a + b) == Chain(CollectRows(a), CollectRows(b))
    decreases |a|
  {
    if a == [] {
      assert a + b == b;
      match CollectRows(b)
      case Success(q) => assert [] + q == q;
      case Failure(_) =>
    } else {
      assert (a + b)[0] == a[0];
      assert (a + b)[1..] == a[1..] + b;
      CollectRowsAppend(a[1..], b);
      ChainAssociative(RecordRows(a[0].1), CollectRows(a[1..]), CollectRows(b));
    }
  }

  /** On failure the error is the one of the first ill-formed record `i`:
      the records before it contribute nothing and those after it are never
      looked at. */
  lemma {:induction false} CollectRowsFailure(records: seq<(string, VulnRecord)>, i: nat)
    requires i < |records| && !WellFormed(records[i].1)
    requires forall k :: 0 <= k < i ==> WellFormed(records[k].1)
    ensures CollectRows(records) == RecordRows(records[i].1)
    decreases |records|
  {
    if i > 0 {
      var tail := records[1..];
      assert tail[i - 1] == records[i];
      assert forall k :: 0 <= k < i - 1 ==> tail[k] == records[k + 1];
      CollectRowsFailure(tail, i - 1);
    }
  }

  /** Row layout of a successful call: row 0 is the header, and the row for
      entry `j` of record `k` sits right after the rows of records 0..k-1; it
      carries record k's name and severity and the pair of the nearest
      advisory at or before entry j, blank when there is none. */
  lemma RowPosition(report: AuditReport, k: nat, j: nat)
    requires AuditToCsv(report).Success?
    requires k < |report.vulnerabilities.value|
    requires report.vulnerabilities.value[k].1.via.Some? && j < |report.vulnerabilities.value[k].1.via.value|
    ensures var records := report.vulnerabilities.value;
            var rec := records[k].1;
            var at := 1 + TotalVia(records[..k]) + j;
            at < |AuditToCsv(report).value| && AuditToCsv(report).value[at]
              == MakeRow(rec.name.value, rec.severity.value, Latest(rec.via.value[..j + 1], Blank))
  {
    var records := report.vulnerabilities.value;
    assert records == records[..k] + records[k..];
    CollectRowsAppend(records[..k], records[k..]);
    assert records[k..][0] == records[k];
    assert forall i :: 0 <= i < k ==> records[..k][i] == records[i];
    var before := CollectRows(records[..k]).value;
    var mine := RecordRows(records[k].1).value;
    var after := CollectRows(records[k..][1..]).value;
    assert CollectRows(records[k..]).value == mine + after;
    assert AuditToCsv(report).value == [Header] + (before + (mine + after));
    assert (mine + after)[j] == mine[j];
  }

  /** A row for an advisory carries that advisory's title and url ("" when absent). */
  lemma AdvisoryRow(report: AuditReport, k: nat, j: nat)
    requires AuditToCsv(report).Success?
    requires k < |report.vulnerabilities.value|
    requires report.vulnerabilities.value[k].1.via.Some? && j < |report.vulnerabilities.value[k].1.via.value|
    requires report.vulnerabilities.value[k].1.via.value[j].Advisory?
    ensures var records := report.vulnerabilities.value;
            var v := records[k].1.via.value[j];
            var at := 1 + TotalVia(records[..k]) + j;
            at < |AuditToCsv(report).value| && AuditToCsv(report).value[at]
              == [records[k].1.name.value, records[k].1.severity.value, v.title.GetOr(""), v.url.GetOr("")]
  {
    RowPosition(report, k, j);
    var via := report.vulnerabilities.value[k].1.via.value;
    LatestIsNearestAdvisory(via[..j + 1], Blank, j);
  }

  /** A row for a non-advisory entry carries the pair of the nearest preceding
      advisory `p` of the same record. */
  lemma CarriedRow(report: AuditReport, k: nat, j: nat, p: nat)
    requires AuditToCsv(report).Success?
    requires k < |report.vulnerabilities.value|
    requires report.vulnerabilities.value[k].1.via.Some? && j < |report.vulnerabilities.value[k].1.via.value|
    requires p <= j && report.vulnerabilities.value[k].1.via.value[p].Advisory?
    requires forall q :: p < q <= j ==> report.vulnerabilities.value[k].1.via.value[q].Reference?
    ensures var records := report.vulnerabilities.value;
            var v := records[k].1.via.value[p];
            var at := 1 + TotalVia(records[..k]) + j;
            at < |AuditToCsv(report).value| && AuditToCsv(report).value[at]
              == [records[k].1.name.value, records[k].1.severity.value, v.title.GetOr(""), v.url.GetOr("")]
  {
    RowPosition(report, k, j);
    var via := report.vulnerabilities.value[k].1.via.value;
    assert forall q :: p < q < j + 1 ==> via[..j + 1][q] == via[q];
    LatestIsNearestAdvisory(via[..j + 1], Blank, p);
  }

  /** A row for an entry with no advisory at or before it in its record has an
      empty title and url: the pair never carries over from an earlier record. */
  lemma BlankRow(report: AuditReport, k: nat, j: nat)
    requires AuditToCsv(report).Success?
    requires k < |report.vulnerabilities.value|
    requires report.vulnerabilities.value[k].1.via.Some? && j < |report.vulnerabilities.value[k].1.via.value|
    requires forall q :: 0 <= q <= j ==> report.vulnerabilities.value[k].1.via.value[q].Reference?
    ensures var records := report.vulnerabilities.value;
            var at := 1 + TotalVia(records[..k]) + j;
            at < |AuditToCsv(report).value| && AuditToCsv(report).value[at]
              == [records[k].1.name.value, records[k].1.severity.value, "", ""]
  {
    RowPosition(report, k, j);
    var via := report.vulnerabilities.value[k].1.via.value;
    assert forall q :: 0 <= q < j + 1 ==> via[..j + 1][q] == via[q];
    LatestWithoutAdvisory(via[..j + 1], Blank);
  }

  /** A call on a report whose record `i` is the first ill-formed one fails
      with that record's first missing key (the name, severity, via order of
      `RecordRows`). */
  lemma FailureReason(report: AuditReport, i: nat)
    requires report.vulnerabilities.Some?
    requires i < |report.vulnerabilities.value| && !WellFormed(report.vulnerabilities.value[i].1)
    requires forall k :: 0 <= k < i ==> WellFormed(report.vulnerabilities.value[k].1)
    ensures AuditToCsv(report) == RecordRows(report.vulnerabilities.value[i].1)
  {
    CollectRowsFailure(report.vulnerabilities.value, i);
  }

  /** The inner loop of the source over one record's `via` list: the running
      pair starts blank and one row is appended per entry. */
  method EmitRecordRows(name: string, severity: string, via: seq<ViaEntry>) returns (rows: seq<Row>)
    ensures rows == ViaRows(name, severity, via, Blank)
  {
    var title, url := "", "";
    rows := [];
    var j := 0;
    while j < |via|
      invariant 0 <= j <= |via|
      invariant Advice(title, url) == Latest(via[..j], Blank)
      invariant rows == ViaRows(name, severity, via, Blank)[..j]
    {
      var v := via[j];
      if v.Advisory? {
        title := v.title.GetOr("");
        url := v.url.GetOr("");
      }
      assert via[..j + 1][..j] == via[..j];
      assert ViaRows(name, severity, via, Blank)[..j + 1]
          == ViaRows(name, severity, via, Blank)[..j] + [ViaRows(name, severity, via, Blank)[j]];
      rows := rows + [[name, severity, title, url]];
      j := j + 1;
    }
    assert ViaRows(name, severity, via, Blank)[..j] == ViaRows(name, severity, via, Blank);
  }

  /** The outer loop of the source: rows are buffered in `csvData` and the
      header is written only after every record has been processed. */
  method AuditToCsvByLoop(report: AuditReport) returns (r: Result<seq<Row>, KeyError>)
    ensures r == AuditToCsv(report)
  {
    if report.vulnerabilities.None? {
      return Failure(KeyError("vulnerabilities"));
    }
    var vulns := report.vulnerabilities.value;
    var csvData: seq<Row> := [];
    var i := 0;
    while i < |vulns|
      invariant 0 <= i <= |vulns|
      invariant CollectRows(vulns[..i]) == Success(csvData)
    {
      CollectRowsAppend(vulns[..i], vulns[i..]);
      assert vulns[..i] + vulns[i..] == vulns;
      assert vulns[i..][0] == vulns[i];
      var vuln := vulns[i].1;
      if vuln.name.None? {
        return Failure(KeyError("name"));
      }
      if vuln.severity.None? {
        return Failure(KeyError("severity"));
      }
      if vuln.via.None? {
        return Failure(KeyError("via"));
      }
      var rows := EmitRecordRows(vuln.name.value, vuln.severity.value, vuln.via.value);
      CollectRowsAppend(vulns[..i], [vulns[i]]);
      assert vulns[..i + 1] == vulns[..i] + [vulns[i]];
      assert [vulns[i]][1..] == [];
      assert RecordRows(vuln) == Success(rows);
      assert CollectRows([vulns[i]]) == Success(rows + []);
      assert rows + [] == rows;
      csvData := csvData + rows;
      i := i + 1;
    }
    assert vulns[..i] == vulns;
    return Success([Header] + csvData);
  }

  /** A carry-forward example: `[ref, {title: "T", url: "U"}, ref2]` yields
      a blank row, then two rows with T and U. */
  lemma CarryForwardExample()
    ensures ViaRows("pkg", "high", [Reference, Advisory(Some("T"), Some("U")), Reference], Blank)
         == [["pkg", "high", "", ""], ["pkg", "high", "T", "U"], ["pkg", "high", "T", "U"]]
  {
  }

  /** The single-record report `{"pkg": {name: "pkg", severity: "high",
      via: ["pkg2", {title: "Issue", url: "http://u"}]}}` yields the header,
      a blank row and the advisory's row. */
  lemma SingleRecordExample()
    ensures AuditToCsv(AuditReport(Some([("pkg", VulnRecord(Some("pkg"), Some("high"),
              Some([Reference, Advisory(Some("Issue"), Some("http://u"))])))])))
         == Success([Header, ["pkg", "high", "", ""], ["pkg", "high", "Issue", "http://u"]])
  {
    var via := [Reference, Advisory(Some("Issue"), Some("http://u"))];
    var records := [("pkg", VulnRecord(Some("pkg"), Some("high"), Some(via)))];
    assert via[..1] == [Reference];
    assert via[..2][..1] == [Reference];
    assert records[1..] == [];
    var rows := [["pkg", "high", "", ""], ["pkg", "high", "Issue", "http://u"]];
    assert ViaRows("pkg", "high", via, Blank) == rows;
    assert CollectRows(records) == Chain(Success(rows), CollectRows([]));
    assert rows + [] == rows;
    assert AuditToCsv(AuditReport(Some(records))) == Success([Header] + rows);
    assert [Header] + rows == [Header, rows[0], rows[1]];
  }
}
