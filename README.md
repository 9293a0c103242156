# Review-request status listing (rbtools `status` command)

This project models, in Dafny, the core of the `rbt status` command of
RBTools, the command-line client of the Review Board code-review server.
The command fetches the user's pending review requests and shows each with
a status: the counts of open issues and ship-its it has received, or
Draft / Pending when it has neither. Three steps of the command are
modelled, each as returned values instead of printed output:

- `Status.get_data`: classify each review request, apply the status
  filter, drop the requests whose status is filtered out, and record the
  local branch or bookmark stored in the request's extra data
  (`StatusCommand.GetData`, specified by the function
  `StatusCommand.RequestStats`);
- `Status.tabulate`: the table's header and rows
  (`StatusCommand.Tabulate`);
- `Status.format_results`: decoding `\xHH` escapes in the user's format
  (module `HexEscapes`) and emitting one terminated entry per record
  (`StatusCommand.FormatResults`).

Modules: `Wrappers` (Option and Result), `Decimal` (the decimal text of a
count or id, as `'%s' % n` gives it), `HexEscapes` and `StatusCommand`.
The `status_map` dictionary of `get_data` is assumed to iterate in
insertion order, so that Open Issues is listed before Ship It!; the model
fixes that order.

## Model

| member | source | states |
|---|---|---|
| `Decimal.NatToString` | rbtools/commands/status.py:158 | the text of a count is a nonempty string of decimal digits with a leading zero only for zero, which is rendered "0" |
| `Decimal.DecimalRoundTrip` | rbtools/commands/status.py:158 | reading the rendered digits back gives the count |
| `Decimal.NatToStringInjective` | rbtools/commands/status.py:158 | distinct counts render to distinct text |
| `StatusCommand.Join` | rbtools/commands/status.py:157-161 | joining nonempty labels gives the empty string exactly when there are no labels |
| `StatusCommand.EffectiveFilter` | rbtools/commands/status.py:144 | an absent or empty filter becomes all four statuses, any other filter is used as given; the result is never empty |
| `StatusCommand.CountedParts` | rbtools/commands/status.py:152-161 | one label per nonzero count whose status passes the filter, "Open Issues (n)" first and "Ship It! (m)" last |
| `StatusCommand.StatusOfCases` | rbtools/commands/status.py:147-171 | what `StatusOf` computes, for every case: both count labels joined by "; ", one label, nothing when the nonzero counts are filtered out; otherwise Draft iff draft and Draft passes the filter, Pending iff not draft and Pending passes, else empty |
| `StatusCommand.CountedNeverDraftOrPending` | rbtools/commands/status.py:148-168 | a request with open issues or ship-its is never labelled Draft or Pending, even when it is a draft |
| `StatusCommand.ToInfo` | rbtools/commands/status.py:176-188 | id, status, summary and description are copied; branch present iff `local_branch` is, bookmark present iff `local_bookmark` is and `local_branch` is not; never both |
| `StatusCommand.RequestStats` | rbtools/commands/status.py:143-192 | at most one record per request; every record has a nonempty status and not both a branch and a bookmark |
| `StatusCommand.KeptIndices` | rbtools/commands/status.py:173-174 | the kept positions are in range and strictly increasing |
| `StatusCommand.KeptIndicesExact` | rbtools/commands/status.py:173-174 | a position is kept iff its request's status is nonempty |
| `StatusCommand.RequestStatsSelectsKept` | rbtools/commands/status.py:146-190 | the result is the order-preserving subsequence of kept requests, the k-th record built from the k-th kept request |
| `StatusCommand.RequestStatsSnoc` | rbtools/commands/status.py:173-190 | one more request at the end adds its record exactly when its status is nonempty |
| `StatusCommand.RequestStatsAppend` | rbtools/commands/status.py:146-190 | the records of a concatenation are the concatenation of the records |
| `StatusCommand.AllStatusesKeepEverything` | rbtools/commands/status.py:22-27 | with all four statuses in the filter every request yields a record |
| `StatusCommand.DefaultFilterIsAllStatuses` | rbtools/commands/status.py:144 | an absent filter, an empty filter and the full filter give the same records, one per request |
| `StatusCommand.GetData` | rbtools/commands/status.py:131-192 | the loop returns exactly the records `RequestStats` specifies under the effective filter |
| `StatusCommand.Row` | rbtools/commands/status.py:112-121 | a row is status, "r/<id> - <summary>", then the branch cell and the bookmark cell when those columns exist, empty when absent |
| `StatusCommand.RequestCellDeterminesId` | rbtools/commands/status.py:114 | two records with the same "r/<id> - <summary>" cell have the same id |
| `StatusCommand.ScanOptionalColumns` | rbtools/commands/status.py:96-101 | the flags are set iff some record has a branch, resp. a bookmark |
| `StatusCommand.BuildRows` | rbtools/commands/status.py:111-123 | one row per record, in order |
| `StatusCommand.Tabulate` | rbtools/commands/status.py:82-129 | no table iff no records; header is Status, Review Request, then Branch iff some record has a branch, then Bookmark iff some has a bookmark; every row as long as the header with the right cells |
| `StatusCommand.FormatResults` | rbtools/commands/status.py:236-254 | one entry per record: the rendering of the decoded format followed by NUL if `-z` is given, else a newline |
| `HexEscapes.DecodeHexEscapes` | rbtools/commands/status.py:243-246 | the substitution with the corrected class `[0-9a-fA-F]`: one left-to-right pass that never lengthens the text |
| `HexEscapes.NoEscapeUnchanged` | rbtools/commands/status.py:243-246 | text containing no escape is unchanged |
| `HexEscapes.EscapeNotRescanned` | rbtools/commands/status.py:243-246 | the character an escape yields is not rescanned, even a backslash |
| `HexEscapes.BackslashEscapeExample` | rbtools/commands/status.py:243-246 | `\x5cx41` decodes to the four characters `\x41` |
| `HexEscapes.EscapeAllRoundTrip` | rbtools/commands/status.py:243-246 | escaping every character below 256 and decoding gives the text back |
| `HexEscapes.DecodeHexEscapesAsWritten` | rbtools/commands/status.py:80 | with the class as written, decoding fails only where a match is not a hexadecimal escape, and never lengthens the text |
| `HexEscapes.WrittenAgreesWhenOk` | rbtools/commands/status.py:80 | wherever the class as written does not fail it decodes as the intended class does |
| `HexEscapes.WrittenOkWithoutMalformedEscape` | rbtools/commands/status.py:80 | when every match of the class as written is a hexadecimal escape, decoding succeeds |
| `HexEscapes.MalformedMatchFails` | rbtools/commands/status.py:243-244 | with the class as written, any match anywhere in the text whose two characters are not both hexadecimal digits makes decoding fail |
| `HexEscapes.WrittenClassAdmitsNonHex` | rbtools/commands/status.py:80 | `G` is in the class as written, so `\xG0` fails with an invalid literal where the intended class leaves it unchanged |

## Left out

- `Status.main` (rbtools/commands/status.py:194-234): server and repository lookup, the user lookup, the query for pending requests and the warning log; the requests and the filter are parameters of `GetData`.
- The paginated `requests.all_items` iteration: the requests are given as one sequence.
- Texttable drawing, the terminal width, and all printing, including "No review requests found." and the trailing blank line: `Tabulate` returns the header and rows, or `NoReviewRequests`.
- Python's `%` operator in `fmt % info` (conversion flags, widths, missing keys): `FormatResults` takes it as a `render` function parameter.
- FormatResults: decodes the format with the corrected class `[0-9a-fA-F]`; with the class as written, a format containing a match such as `\xG0` raises before any entry is emitted (see Findings).
- The option declarations and the command framework (rbtools/commands/status.py:38-73).
- The order of `status_map` is assumed to be insertion order (Open Issues, then Ship It!), as on the Python versions that keep dictionary insertion order.
- `request.draft` and the counts are read as a boolean and natural numbers; other truthy values are not modelled.
- Extra-data values are read as strings: a `local_branch` or `local_bookmark` value that is null or another non-string falsy value, which `info.get(...) or ''` also blanks in the table, cannot be expressed.
- The Mercurial client and its revision and diff logic: `rbtools.clients.mercurial` is not part of this model; its test module drives real `hg` processes.

## Findings

| source | as written | input that shows it | evidently intended | confidence | as-written member | corrected member |
|---|---|---|---|---|---|---|
| rbtools/commands/status.py:80 | the class `[0-9a-fA-f]` ends with the range `A-f`, which also admits `G`-`Z` and ``[\]^_` `` | `--format='\xG0'`: the match reaches `int('G0', 16)`, which raises | `[0-9a-fA-F]`: only hexadecimal escapes match; `\xG0` is kept as text | high; not executed | `HexEscapes.WrittenClassAdmitsNonHex` | `HexEscapes.DecodeHexEscapes` |
