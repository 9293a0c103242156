/** The review-request listing of the `status` command: classifying each
    review request into a status string and filtering it (`get_data`),
    laying the result out as a table (`tabulate`), and emitting one
    formatted entry per request (`format_results`). Queries to the Review
    Board server, table drawing and printing are not part of this model;
    their inputs and outputs are parameters and returned values. */
module StatusCommand {
  import opened Wrappers
  import opened Decimal
  import opened HexEscapes

  const DraftState := "Draft"
  const OpenIssuesState := "Open Issues"
  const PendingState := "Pending"
  const ShipItState := "Ship It!"

  /** Every status the command knows; the default filter. */
  const Statuses: set<string> := {DraftState, OpenIssuesState, PendingState, ShipItState}

  /** The fields of a review-request resource that `get_data` reads. */
  datatype Request = Request(
    id: nat,
    issueOpenCount: nat,
    shipItCount: nat,
    draft: bool,
    summary: string,
    description: string,
    extraData: map<string, string>)

  /** The per-request dictionary `get_data` builds; `branch` and `bookmark`
      are `Some` exactly when the dictionary has that key. */
  datatype Info = Info(
    id: nat,
    status: string,
    summary: string,
    description: string,
    branch: Option<string>,
    bookmark: Option<string>)

  /** `status_filter or STATUSES`: an absent or empty filter means all. */
  function EffectiveFilter(statusFilter: Option<set<string>>): (filter: set<string>)
    ensures filter != {}
    ensures statusFilter == None || statusFilter == Some({}) ==> filter == Statuses
    ensures statusFilter.Some? && statusFilter.value != {} ==> filter == statusFilter.value
  {
    if statusFilter.Some? && statusFilter.value != {} then statusFilter.value else Statuses
  }

  /** `'%s (%s)' % (status_name, count)` */
  function CountLabel(name: string, count: nat): string {
    name + " (" + NatToString(count) + ")"
  }

  /** `sep.join(parts)` */
  function Join(parts: seq<string>, sep: string): (s: string)
    ensures (forall i :: 0 <= i < |parts| ==> parts[i] != "") ==> (s == "" <==> parts == [])
  {
    if |parts| == 0 then ""
    else if |parts| == 1 then parts[0]
    else parts[0] + sep + Join(parts[1..], sep)
  }

  /** The labels of the non-exclusive states, Open Issues before Ship It!,
      each present when its count is nonzero and it passes the filter. */
  function CountedParts(r: Request, filter: set<string>): (parts: seq<string>)
    ensures |parts| == (if r.issueOpenCount > 0 && OpenIssuesState in filter then 1 else 0)
                     + (if r.shipItCount > 0 && ShipItState in filter then 1 else 0)
    ensures r.issueOpenCount > 0 && OpenIssuesState in filter ==> parts[0] == CountLabel(OpenIssuesState, r.issueOpenCount)
    ensures r.shipItCount > 0 && ShipItState in filter ==> parts[|parts| - 1] == CountLabel(ShipItState, r.shipItCount)
  {
    (if r.issueOpenCount > 0 && OpenIssuesState in filter
     then [CountLabel(OpenIssuesState, r.issueOpenCount)] else [])
    + (if r.shipItCount > 0 && ShipItState in filter
       then [CountLabel(ShipItState, r.shipItCount)] else [])
  }

  /** The status string of one review request after filtering; the empty
      string means the request is filtered out. */
  function StatusOf(r: Request, filter: set<string>): string {
    if r.issueOpenCount > 0 || r.shipItCount > 0 then
      Join(CountedParts(r, filter), "; ")
    else
      var state := if r.draft then DraftState else PendingState;
      if state in filter then state else ""
  }

  /** The status of a request, case by case: the Open Issues and Ship It!
      labels that are nonzero and pass the filter, joined by "; "; otherwise
      Draft or Pending if that passes the filter; otherwise nothing. */
  lemma StatusOfCases(r: Request, filter: set<string>)
    ensures r.issueOpenCount > 0 && OpenIssuesState in filter && r.shipItCount > 0 && ShipItState in filter ==>
      StatusOf(r, filter) == CountLabel(OpenIssuesState, r.issueOpenCount) + "; " + CountLabel(ShipItState, r.shipItCount)
    ensures r.issueOpenCount > 0 && OpenIssuesState in filter && !(r.shipItCount > 0 && ShipItState in filter) ==>
      StatusOf(r, filter) == CountLabel(OpenIssuesState, r.issueOpenCount)
    ensures !(r.issueOpenCount > 0 && OpenIssuesState in filter) && r.shipItCount > 0 && ShipItState in filter ==>
      StatusOf(r, filter) == CountLabel(ShipItState, r.shipItCount)
    ensures ((r.issueOpenCount > 0 || r.shipItCount > 0) &&
             !(r.issueOpenCount > 0 && OpenIssuesState in filter) &&
             !(r.shipItCount > 0 && ShipItState in filter)) ==> StatusOf(r, filter) == ""
    ensures r.issueOpenCount == 0 && r.shipItCount == 0 ==>
      (StatusOf(r, filter) == DraftState <==> r.draft && DraftState in filter) &&
      (StatusOf(r, filter) == PendingState <==> !r.draft && PendingState in filter) &&
      (StatusOf(r, filter) == "" <==> (if r.draft then DraftState !in filter else PendingState !in filter))
  {
    var parts := CountedParts(r, filter);
    if |parts| == 2 {
      assert parts[1..] == [parts[1]];
      assert Join(parts[1..], "; ") == parts[1];
    }
  }

  /** A request with open issues or ship-its is never labelled Draft or
      Pending, whether or not it is a draft and whatever the filter. */
  lemma CountedNeverDraftOrPending(r: Request, filter: set<string>)
    requires r.issueOpenCount > 0 || r.shipItCount > 0
    ensures StatusOf(r, filter) != DraftState && StatusOf(r, filter) != PendingState
  {
    var status := StatusOf(r, filter);
    if status != "" {
      var o := CountLabel(OpenIssuesState, r.issueOpenCount);
      var s := CountLabel(ShipItState, r.shipItCount);
      assert o[0] == 'O' && s[0] == 'S';
      assert status[0] == 'O' || status[0] == 'S';
    }
  }

  /** The record for a kept request: its fields copied, plus `branch` from
      `local_branch`, or else `bookmark` from `local_bookmark`. */
  function ToInfo(r: Request, status: string): (info: Info)
    ensures info.id == r.id && info.status == status
    ensures info.summary == r.summary && info.description == r.description
    ensures info.branch.Some? <==> "local_branch" in r.extraData
    ensures info.branch.Some? ==> info.branch.value == r.extraData["local_branch"]
    ensures info.bookmark.Some? <==> "local_branch" !in r.extraData && "local_bookmark" in r.extraData
    ensures info.bookmark.Some? ==> info.bookmark.value == r.extraData["local_bookmark"]
    ensures !(info.branch.Some? && info.bookmark.Some?)
  {
    var plain := Info(r.id, status, r.summary, r.description, None, None);
    if "local_branch" in r.extraData then plain.(branch := Some(r.extraData["local_branch"]))
    else if "local_bookmark" in r.extraData then plain.(bookmark := Some(r.extraData["local_bookmark"]))
    else plain
  }

  /** What `get_data` returns for `requests` under an effective filter. */
  function RequestStats(requests: seq<Request>, filter: set<string>): (stats: seq<Info>)
    ensures |stats| <= |requests|
    ensures forall k :: 0 <= k < |stats| ==> stats[k].status != ""
    ensures forall k :: 0 <= k < |stats| ==> !(stats[k].branch.Some? && stats[k].bookmark.Some?)
    decreases |requests|
  {
    if |requests| == 0 then []
    else
      var last := requests[|requests| - 1];
      var status := StatusOf(last, filter);
      var prev := RequestStats(requests[..|requests| - 1], filter);
      if status == "" then prev else prev + [ToInfo(last, status)]
  }

  /** The positions, in increasing order, of the requests a filter keeps. */
  function KeptIndices(requests: seq<Request>, filter: set<string>): (idx: seq<nat>)
    ensures forall k :: 0 <= k < |idx| ==> idx[k] < |requests|
    ensures forall k, l :: 0 <= k < l < |idx| ==> idx[k] < idx[l]
    decreases |requests|
  {
    if |requests| == 0 then []
    else
      var prev := KeptIndices(requests[..|requests| - 1], filter);
      if StatusOf(requests[|requests| - 1], filter) == "" then prev else prev + [|requests| - 1]
  }

  /** The kept positions are exactly those whose status is nonempty. */
  lemma {:induction false} KeptIndicesExact(requests: seq<Request>, filter: set<string>)
    ensures forall i :: 0 <= i < |requests| ==> (i in KeptIndices(requests, filter) <==> StatusOf(requests[i], filter) != "")
    decreases |requests|
  {
    if |requests| > 0 {
      var n := |requests| - 1;
      var init := requests[..n];
      KeptIndicesExact(init, filter);
      var prev := KeptIndices(init, filter);
      forall i | 0 <= i < |requests|
        ensures i in KeptIndices(requests, filter) <==> StatusOf(requests[i], filter) != ""
      {
        if i < n {
          assert init[i] == requests[i];
          assert i in prev <==> StatusOf(init[i], filter) != "";
        }
      }
    }
  }

  /** `get_data` keeps the requests with a nonempty status, in their input
      order, and turns each into its record. */
  lemma {:induction false} RequestStatsSelectsKept(requests: seq<Request>, filter: set<string>)
    ensures |RequestStats(requests, filter)| == |KeptIndices(requests, filter)|
    ensures forall k :: 0 <= k < |KeptIndices(requests, filter)| ==>
      RequestStats(requests, filter)[k] ==
        ToInfo(requests[KeptIndices(requests, filter)[k]], StatusOf(requests[KeptIndices(requests, filter)[k]], filter))
    decreases |requests|
  {
    if |requests| > 0 {
      var n := |requests| - 1;
      var init := requests[..n];
      RequestStatsSelectsKept(init, filter);
      var stats, idx := RequestStats(requests, filter), KeptIndices(requests, filter);
      var prevStats, prevIdx := RequestStats(init, filter), KeptIndices(init, filter);
      assert |prevStats| == |prevIdx|;
      forall k | 0 <= k < |idx|
        ensures stats[k] == ToInfo(requests[idx[k]], StatusOf(requests[idx[k]], filter))
      {
        if k < |prevIdx| {
          assert idx[k] == prevIdx[k] && stats[k] == prevStats[k];
          assert init[idx[k]] == requests[idx[k]];
        }
      }
    }
  }

  /** Adding one request at the end adds its record, if it is kept. */
  lemma RequestStatsSnoc(requests: seq<Request>, r: Request, filter: set<string>)
    ensures RequestStats(requests + [r], filter) ==
      if StatusOf(r, filter) == "" then RequestStats(requests, filter)
      else RequestStats(requests, filter) + [ToInfo(r, StatusOf(r, filter))]
  {
    assert (requests + [r])[..|requests|] == requests;
  }

  /** Classification is per request, so the stats of a concatenation are
      the concatenation of the stats. */
  lemma {:induction false} RequestStatsAppend(a: seq<Request>, b: seq<Request>, filter: set<string>)
    ensures RequestStats(a + b, filter) == RequestStats(a, filter) + RequestStats(b, filter)
    decreases |b|
  {
    if |b| == 0 {
      assert a + b == a;
    } else {
      var init, last := b[..|b| - 1], b[|b| - 1];
      assert b == init + [last];
      assert a + b == (a + init) + [last];
      RequestStatsAppend(a, init, filter);
      RequestStatsSnoc(a + init, last, filter);
      RequestStatsSnoc(init, last, filter);
    }
  }

  /** With all four statuses in the filter, no request is dropped. */
  lemma {:induction false} AllStatusesKeepEverything(requests: seq<Request>)
    ensures |RequestStats(requests, Statuses)| == |requests|
    decreases |requests|
  {
    if |requests| > 0 {
      AllStatusesKeepEverything(requests[..|requests| - 1]);
      var r := requests[|requests| - 1];
      if r.issueOpenCount == 0 && r.shipItCount == 0 {
        assert StatusOf(r, Statuses) != "";
      } else {
        var parts := CountedParts(r, Statuses);
        assert |parts| > 0 && forall i :: 0 <= i < |parts| ==> parts[i] != "";
      }
    }
  }

  /** An absent filter, an empty one and one naming all four statuses give
      the same result, which has one entry per request. */
  lemma DefaultFilterIsAllStatuses(requests: seq<Request>)
    ensures RequestStats(requests, EffectiveFilter(None)) == RequestStats(requests, EffectiveFilter(Some({})))
    ensures RequestStats(requests, EffectiveFilter(None)) == RequestStats(requests, EffectiveFilter(Some(Statuses)))
    ensures |RequestStats(requests, EffectiveFilter(None))| == |requests|
  {
    AllStatusesKeepEverything(requests);
  }

  /** `Status.get_data`: one pass over the requests, appending the record of
      each request whose status survives the filter. */
  method GetData(requests: seq<Request>, statusFilter: Option<set<string>>) returns (stats: seq<Info>)
    ensures stats == RequestStats(requests, EffectiveFilter(statusFilter))
  {
    var filter := EffectiveFilter(statusFilter);
    stats := [];
    var i := 0;
    while i < |requests|
      invariant 0 <= i <= |requests|
      invariant stats == RequestStats(requests[..i], filter)
    {
      var request := requests[i];
      assert requests[..i + 1][..i] == requests[..i];
      var status := "";
      if request.issueOpenCount > 0 || request.shipItCount > 0 {
        status := Join(CountedParts(request, filter), "; ");
      } else {
        if request.draft {
          status := DraftState;
        } else {
          status := PendingState;
        }
        if status !in filter {
          status := "";
        }
      }
      i := i + 1;
      if status == "" {
        continue;
      }
      var info := Info(request.id, status, request.summary, request.description, None, None);
      if "local_branch" in request.extraData {
        info := info.(branch := Some(request.extraData["local_branch"]));
      } else if "local_bookmark" in request.extraData {
        info := info.(bookmark := Some(request.extraData["local_bookmark"]));
      }
      stats := stats + [info];
    }
    assert requests[..i] == requests;
  }

  /** The layout `tabulate` hands to the table renderer, or the message that
      nothing was found. */
  datatype Layout = NoReviewRequests | Table(header: seq<string>, rows: seq<seq<string>>)

  /** `info.get(key) or ''` */
  function OrEmpty(v: Option<string>): string {
    match v
    case Some(s) => s
    case None => ""
  }

  /** `'r/%s - %s' % (info['id'], info['summary'])` */
  function RequestCell(info: Info): string {
    "r/" + NatToString(info.id) + " - " + info.summary
  }

  /** The row `tabulate` adds for one record, given which optional columns
      the table has. */
  function Row(info: Info, hasBranches: bool, hasBookmarks: bool): (row: seq<string>)
    ensures |row| == 2 + (if hasBranches then 1 else 0) + (if hasBookmarks then 1 else 0)
    ensures row[0] == info.status && row[1] == RequestCell(info)
    ensures hasBranches ==> row[2] == OrEmpty(info.branch)
    ensures hasBookmarks ==> row[|row| - 1] == OrEmpty(info.bookmark)
  {
    [info.status, RequestCell(info)]
      + (if hasBranches then [OrEmpty(info.branch)] else [])
      + (if hasBookmarks then [OrEmpty(info.bookmark)] else [])
  }

  /** The number of decimal digits `s` starts with. */
  function LeadingDigits(s: string): nat {
    if |s| > 0 && '0' <= s[0] <= '9' then 1 + LeadingDigits(s[1..]) else 0
  }

  /** A run of digits followed by a space is fixed by the text it starts. */
  lemma {:induction false} LeadingDigitsOfRun(d: string, t: string)
    requires IsDigits(d) && |t| > 0 && t[0] == ' '
    ensures LeadingDigits(d + t) == |d|
  {
    if |d| > 0 {
      assert (d + t)[1..] == d[1..] + t;
      LeadingDigitsOfRun(d[1..], t);
    } else {
      assert d + t == t;
    }
  }

  /** The "Review Request" cell tells review requests apart: the digits
      after "r/" run up to the first space, so equal cells have equal ids. */
  lemma RequestCellDeterminesId(a: Info, b: Info)
    ensures RequestCell(a) == RequestCell(b) ==> a.id == b.id
  {
    if RequestCell(a) == RequestCell(b) {
      var da, db := NatToString(a.id), NatToString(b.id);
      var ta, tb := " - " + a.summary, " - " + b.summary;
      assert RequestCell(a) == "r/" + (da + ta);
      assert RequestCell(b) == "r/" + (db + tb);
      assert da + ta == RequestCell(a)[2..] == db + tb;
      LeadingDigitsOfRun(da, ta);
      LeadingDigitsOfRun(db, tb);
      assert da == (da + ta)[..|da|] == (db + tb)[..|db|] == db;
      NatToStringInjective(a.id, b.id);
    }
  }

  predicate AnyBranch(infos: seq<Info>) {
    exists k :: 0 <= k < |infos| && infos[k].branch.Some?
  }

  predicate AnyBookmark(infos: seq<Info>) {
    exists k :: 0 <= k < |infos| && infos[k].bookmark.Some?
  }

  /** The first loop of `tabulate`: whether any record has a branch and
      whether any has a bookmark. */
  method ScanOptionalColumns(infos: seq<Info>) returns (hasBranches: bool, hasBookmarks: bool)
    ensures hasBranches == AnyBranch(infos) && hasBookmarks == AnyBookmark(infos)
  {
    hasBranches, hasBookmarks := false, false;
    var i := 0;
    while i < |infos|
      invariant 0 <= i <= |infos|
      invariant hasBranches <==> exists k :: 0 <= k < i && infos[k].branch.Some?
      invariant hasBookmarks <==> exists k :: 0 <= k < i && infos[k].bookmark.Some?
    {
      if infos[i].branch.Some? {
        hasBranches := true;
      }
      if infos[i].bookmark.Some? {
        hasBookmarks := true;
      }
      i := i + 1;
    }
  }

  /** The second loop of `tabulate`: one row per record, in order. */
  method BuildRows(infos: seq<Info>, hasBranches: bool, hasBookmarks: bool) returns (rows: seq<seq<string>>)
    ensures |rows| == |infos|
    ensures forall k :: 0 <= k < |infos| ==> rows[k] == Row(infos[k], hasBranches, hasBookmarks)
  {
    rows := [];
    var i := 0;
    while i < |infos|
      invariant 0 <= i <= |infos| && |rows| == i
      invariant forall k :: 0 <= k < i ==> rows[k] == Row(infos[k], hasBranches, hasBookmarks)
    {
      var row := [infos[i].status, RequestCell(infos[i])];
      if hasBranches {
        row := row + [OrEmpty(infos[i].branch)];
      }
      if hasBookmarks {
        row := row + [OrEmpty(infos[i].bookmark)];
      }
      rows := rows + [row];
      i := i + 1;
    }
  }

  /** `Status.tabulate`: a Branch column iff some entry has a branch, a
      Bookmark column iff some entry has a bookmark, and one row per entry
      as wide as the header. */
  method Tabulate(infos: seq<Info>) returns (layout: Layout)
    ensures layout == NoReviewRequests <==> infos == []
    ensures layout.Table? ==>
      layout.header == ["Status", "Review Request"]
        + (if AnyBranch(infos) then ["Branch"] else [])
        + (if AnyBookmark(infos) then ["Bookmark"] else [])
    ensures layout.Table? ==> |layout.rows| == |infos|
    ensures layout.Table? ==> forall k :: 0 <= k < |infos| ==>
      |layout.rows[k]| == |layout.header| &&
      layout.rows[k][0] == infos[k].status &&
      layout.rows[k][1] == RequestCell(infos[k])
    ensures layout.Table? && AnyBranch(infos) ==> forall k :: 0 <= k < |infos| ==>
      |layout.rows[k]| > 2 && layout.rows[k][2] == OrEmpty(infos[k].branch)
    ensures layout.Table? && AnyBookmark(infos) ==> forall k :: 0 <= k < |infos| ==>
      |layout.rows[k]| > 2 && layout.rows[k][|layout.rows[k]| - 1] == OrEmpty(infos[k].bookmark)
  {
    if |infos| == 0 {
      return NoReviewRequests;
    }
    var header := ["Status", "Review Request"];
    var hasBranches, hasBookmarks := ScanOptionalColumns(infos);
    if hasBranches {
      header := header + ["Branch"];
    }
    if hasBookmarks {
      header := header + ["Bookmark"];
    }
    var rows := BuildRows(infos, hasBranches, hasBookmarks);
    layout := Table(header, rows);
  }

  /** `Status.format_results`: decode the escapes of the format once, then
      emit one entry per record, each the rendering of `fmt % info` followed
      by NUL when `formatNul` is set and by a newline otherwise. `render`
      stands for Python's `%` operator. */
  method FormatResults(format: string, formatNul: bool, infos: seq<Info>, render: (string, Info) -> string)
    returns (entries: seq<string>)
    ensures |entries| == |infos|
    ensures forall k :: 0 <= k < |infos| ==>
      |entries[k]| > 0 &&
      entries[k][..|entries[k]| - 1] == render(DecodeHexEscapes(format), infos[k]) &&
      entries[k][|entries[k]| - 1] == (if formatNul then '\0' else '\n')
  {
    var fmt := DecodeHexEscapes(format);
    var end := if formatNul then "\0" else "\n";
    entries := [];
    var i := 0;
    while i < |infos|
      invariant 0 <= i <= |infos| && |entries| == i
      invariant forall k :: 0 <= k < i ==> entries[k] == render(fmt, infos[k]) + end
    {
      entries := entries + [render(fmt, infos[i]) + end];
      i := i + 1;
    }
    forall k | 0 <= k < |infos|
      ensures entries[k][..|entries[k]| - 1] == render(fmt, infos[k])
    {
      assert (render(fmt, infos[k]) + end)[..|render(fmt, infos[k])|] == render(fmt, infos[k]);
    }
  }
}
