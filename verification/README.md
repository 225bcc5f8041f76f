# npm-downloader transformers, modelled in Dafny

The repository holds two small command-line data transformers:

- **Audit flattener** (`audit_json_to_csv`): reads an npm audit report and
  flattens its `vulnerabilities` mapping into CSV rows. It writes one row per
  `via` entry of every vulnerability record, not one row per record. Each row
  holds the record's `name`, its `severity` and a running (title, url) pair.
  The pair starts as `("", "")` at every record. A `via` entry that is a JSON
  object overwrites the pair with its `title` and `url`, each `""` when absent.
  Any other entry (a bare package reference) reuses the pair unchanged. Rows go
  into a buffer. After the loop, a header row
  `Package Name, Severity, Vulnerability Title, URL` is written, then the rows.
- **URL extractor** (`extract_urls`): folds the `dependencies` mapping of a
  package-lock manifest into the set of its entries' `resolved` values.
  Entries without `resolved` are skipped.

The model works on the parsed JSON. Each JSON object is a datatype whose
optional or required keys are `Option` fields. Each mapping is a sequence of
(key, record) pairs in iteration order. A missing required key makes the
whole call fail: the result is `Failure(KeyError(key))`, which is Python's
`KeyError` for `d[key]`. Each transformer is modelled twice. One version is a
recursive function. The other is a method with the source's loops. Each method
is proved equal to its function.

Files:
- `wrappers.dfy`: `Option`, `Result` and `KeyError`.
- `audit_flattener.dfy`: module `AuditFlattener`, the model of `json_to_csv.py`.
- `url_extractor.dfy`: module `UrlExtractor`, the model of `extract_urls.py`.

`audit_json_to_csv` fills `csv_data` completely before the writer is created
(json_to_csv.py:8-25), so a failed call yields a `Failure` with no header and
no rows. json_to_csv.py:27-29 passes `sys.argv[1]` to `audit_json_to_csv` as
JSON text; ingestion is not modelled.

Three step functions carry no row of their own; their behaviour is fixed by
the contracts of the members that use them. `AuditFlattener.Observe`
(json_to_csv.py:18-20, one step of the title/url update) is pinned down by
`ViaRows` through `LatestShift`. `AuditFlattener.MakeRow` (json_to_csv.py:21,
the appended four-field row) is pinned down by `RowPosition` and its
corollaries. `UrlExtractor.AddResolved` (extract_urls.py:10-11, the
conditional set insertion) is pinned down by `CollectUrls`.

## Model

| member | source | states |
|---|---|---|
| AuditFlattener.AdviceOf | json_to_csv.py:18-20 | a dict entry sets the title and url to its own `title` and `url`, each `""` when the key is absent |
| AuditFlattener.LatestShift | json_to_csv.py:17-20 | one-step shift: applying the update rule to entry `v` first and then searching `rest` backwards for its last dict entry gives the same pair as searching `[v] + rest` from the original start; `ViaRows` chains this step to tie the left-to-right loop to the backward search |
| AuditFlattener.LatestWithoutAdvisory | json_to_csv.py:14-20 | if no dict entry has been seen yet, the pair is still the blank pair it was reset to |
| AuditFlattener.LatestIsNearestAdvisory | json_to_csv.py:17-20 | if dict entry j is followed only by non-dict entries, the pair is j's title and url |
| AuditFlattener.ViaRows | json_to_csv.py:17-21 | one row per `via` entry, in order; row i holds the name, the severity and the pair of the nearest dict entry at or before i |
| AuditFlattener.RecordRows | json_to_csv.py:12-21 | a record succeeds exactly when `name`, `severity` and `via` are all present; otherwise it fails with the first missing key in lookup order; on success there are `len(via)` rows, row i built from the record's own name and severity and a pair that starts blank |
| AuditFlattener.CollectRows | json_to_csv.py:11-21 | the outer loop succeeds exactly when every record is well formed; its row count is the sum of the `via` lengths |
| AuditFlattener.AuditToCsv | json_to_csv.py:8-25 | a missing `vulnerabilities` key fails with that key; success exactly when the key is present and every record is well formed; on success the output is the header followed by (sum of `via` lengths) rows, with the header first |
| AuditFlattener.CollectRowsAppend | json_to_csv.py:11-21 | the rows of records `a + b` are the rows of `a` followed by the rows of `b`, and the first error wins: no state crosses a record boundary |
| AuditFlattener.CollectRowsFailure | json_to_csv.py:11-17 | when record i is the first ill-formed one, the outer loop's result is exactly record i's error; the records after it are never looked at |
| AuditFlattener.RowPosition | json_to_csv.py:11-25 | the row for entry j of record k comes right after the header and the rows of records 0..k-1; it holds record k's `name` (not its mapping key), its `severity`, and the pair of the nearest dict entry at or before j |
| AuditFlattener.AdvisoryRow | json_to_csv.py:18-21 | the row for a dict entry holds that entry's title and url, each defaulting to `""` |
| AuditFlattener.CarriedRow | json_to_csv.py:17-21 | the row for a non-dict entry holds the title and url of the nearest preceding dict entry in the same record |
| AuditFlattener.BlankRow | json_to_csv.py:14-21 | rows for entries before a record's first dict entry have an empty title and url |
| AuditFlattener.FailureReason | json_to_csv.py:11-17 | when record i is the first ill-formed one, the whole call fails with record i's first missing key (looked up in the order name, severity, via), and no header or rows are produced |
| AuditFlattener.EmitRecordRows | json_to_csv.py:14-21 | the inner loop, with the title and url reset and then updated in place, appends exactly the rows `ViaRows` defines |
| AuditFlattener.AuditToCsvByLoop | json_to_csv.py:8-25 | the nested loops that buffer `csv_data` and then emit the header and the rows give exactly `AuditToCsv`'s result, errors included |
| AuditFlattener.CarryForwardExample | json_to_csv.py:14-21 | `[ref, {title: T, url: U}, ref2]` gives the rows (name, sev, "", ""), (name, sev, T, U), (name, sev, T, U) |
| AuditFlattener.SingleRecordExample | json_to_csv.py:8-25 | a one-record report whose `via` is `["pkg2", {Issue, http://u}]` gives the header, a blank row and the advisory's row |
| UrlExtractor.CollectUrls | extract_urls.py:8-11 | the fold's result holds exactly the start set plus every `resolved` value in the entries (sound and complete), and it grows by at most one element per entry that has `resolved` |
| UrlExtractor.ExtractUrls | extract_urls.py:8-13 | a missing `dependencies` key is the only error; on success a URL is in the result exactly when some entry resolves to it; the size is at most the number of resolved entries, which is at most the number of entries; with no `resolved` anywhere the result is empty |
| UrlExtractor.RepeatAddsNothing | extract_urls.py:10-11 | when the start set already holds the `resolved` value of some entry j, the fold's result is strictly smaller than the start set's size plus the number of resolved entries |
| UrlExtractor.DuplicatesCollapse | extract_urls.py:8-11 | two entries with the same `resolved` value collapse to one element, so the set is strictly smaller than the number of resolved entries |
| UrlExtractor.OrderIndependent | extract_urls.py:8-11 | reordering the entries of `dependencies` does not change the result |
| UrlExtractor.ExtractUrlsByLoop | extract_urls.py:8-13 | the loop that adds each `resolved` value to an initially empty set gives exactly `ExtractUrls`'s result |
| UrlExtractor.SharedLocationExample | extract_urls.py:8-13 | entries a and b share `https://x/a` and c has no `resolved`; the result is exactly `{"https://x/a"}` |

## Left out

- JSON parsing (`json.loads`, json_to_csv.py:6; `json.load`, extract_urls.py:6). The model starts from already-parsed documents, so malformed JSON is not modelled.
- CSV serialisation and quoting by `csv.writer` (json_to_csv.py:23-25). The output is modelled as a sequence of rows, each a sequence of fields.
- File opening, `sys.argv` handling and printing (extract_urls.py:5, 15-19; json_to_csv.py:27-29). These are I/O. The print order of the URL set is unspecified anyway.
- Dynamic typing. The model assumes these shapes: `vulnerabilities` and `dependencies` are JSON objects; every record is an object; `name`, `severity`, `title`, `url` and `resolved` are strings; `via` is a list. With other shapes Python behaves differently, for example `"resolved" in value` is a substring test when `value` is a string. A `title` or `url` that is JSON `null` is treated like an absent key: `csv.writer` prints `None` as an empty field.
- The mapping keys of both documents are carried in the model but never used, as in the source: the audit rows use the record's `name` field.
