/**
  The time report: one row per timer comment found on the user's issues,
  taking the user and the span from the comment's record and the issue's
  number and title, owner and repository from the issue.
 */
module Reporter {
  import opened Text
  import GitHub
  import Timer

  type Issue = GitHub.Issue
  type Comment = GitHub.Comment

  /** Placeholder for a missing owner login or repository name. */
  const UNKNOWN: string := "unknown"

  datatype ReportEntry = ReportEntry(
    owner: string,
    repo: string,
    user: string,
    issue: int,
    title: string,
    begin: int,
    end: int)

  /** The login of the owner of the issue's repository, or "unknown" when the repository, its owner or the login is missing. */
  function OwnerOf(i: Issue): (r: string)
    ensures i.repository.Some? && i.repository.value.owner.Some? && i.repository.value.owner.value.login.Some? ==>
      r == i.repository.value.owner.value.login.value
    ensures i.repository.None? || i.repository.value.owner.None? || i.repository.value.owner.value.login.None? ==>
      r == UNKNOWN
  {
    match i.repository
    case None => UNKNOWN
    case Some(repo) =>
      match repo.owner
      case None => UNKNOWN
      case Some(owner) => owner.login.GetOr(UNKNOWN)
  }

  /** The name of the issue's repository, or "unknown" when the repository or its name is missing. */
  function RepoOf(i: Issue): (r: string)
    ensures i.repository.Some? && i.repository.value.name.Some? ==> r == i.repository.value.name.value
    ensures i.repository.None? || i.repository.value.name.None? ==> r == UNKNOWN
  {
    match i.repository
    case None => UNKNOWN
    case Some(repo) => repo.name.GetOr(UNKNOWN)
  }

  /** The row for a comment of `i` carrying record `t`. */
  function EntryFor(i: Issue, t: Timer.TimerInfo): ReportEntry {
    ReportEntry(OwnerOf(i), RepoOf(i), t.info.user, i.number, i.title, t.begin, t.end)
  }

  /** The record a comment carries: none for an absent or empty body. */
  function RecordOf(c: Comment, codec: Timer.Codec): Option<Timer.TimerInfo> {
    match c.body
    case Some(body) => if body != "" then Timer.ExtractTimerInfo(body, codec) else None
    case None => None
  }

  /** The rows one comment contributes: one when it carries a record, none otherwise. */
  function EntriesOfComment(i: Issue, c: Comment, codec: Timer.Codec): (r: seq<ReportEntry>)
    ensures |r| <= 1
    ensures |r| == 1 <==> RecordOf(c, codec).Some?
    ensures |r| == 1 ==> r[0] == EntryFor(i, RecordOf(c, codec).value)
  {
    match RecordOf(c, codec)
    case Some(t) => [EntryFor(i, t)]
    case None => []
  }

  /** Rows of one issue, in comment order. */
  function EntriesOfIssue(i: Issue, comments: seq<Comment>, codec: Timer.Codec): (r: seq<ReportEntry>)
    ensures |r| <= |comments|
    ensures forall k :: 0 <= k < |r| ==>
      && r[k].owner == OwnerOf(i) && r[k].repo == RepoOf(i)
      && r[k].issue == i.number && r[k].title == i.title
  {
    if comments == [] then []
    else EntriesOfComment(i, comments[0], codec) + EntriesOfIssue(i, comments[1..], codec)
  }

  /**
    The inner loop of `getEntryList`: rows of every issue in turn, each with
    its comments; one row for every comment, of any issue, that carries a
    record.
   */
  function EntryList(pairs: seq<(Issue, seq<Comment>)>, codec: Timer.Codec): (r: seq<ReportEntry>)
    ensures |r| == RecordTotal(pairs, codec)
  {
    if pairs == [] then []
    else
      EntriesOfIssueCount(pairs[0].0, pairs[0].1, codec);
      EntriesOfIssue(pairs[0].0, pairs[0].1, codec) + EntryList(pairs[1..], codec)
  }

  /** Number of comments carrying a record, over all issues. */
  function RecordTotal(pairs: seq<(Issue, seq<Comment>)>, codec: Timer.Codec): nat {
    if pairs == [] then 0 else RecordCount(pairs[0].1, codec) + RecordTotal(pairs[1..], codec)
  }

  /** Comments of one issue add up: the rows of `a + b` are the rows of `a` followed by those of `b`. */
  lemma {:induction false} EntriesOfIssueAppend(i: Issue, a: seq<Comment>, b: seq<Comment>, codec: Timer.Codec)
    ensures EntriesOfIssue(i, a + b, codec) == EntriesOfIssue(i, a, codec) + EntriesOfIssue(i, b, codec)
  {
    if a != [] {
      assert (a + b)[1..] == a[1..] + b;
      EntriesOfIssueAppend(i, a[1..], b, codec);
    } else {
      assert a + b == b;
    }
  }

  /** Issues add up: the rows of `p + q` are the rows of `p` followed by those of `q`. */
  lemma {:induction false} EntryListAppend(p: seq<(Issue, seq<Comment>)>, q: seq<(Issue, seq<Comment>)>, codec: Timer.Codec)
    ensures EntryList(p + q, codec) == EntryList(p, codec) + EntryList(q, codec)
  {
    if p != [] {
      assert (p + q)[1..] == p[1..] + q;
      EntryListAppend(p[1..], q, codec);
    } else {
      assert p + q == q;
    }
  }

  /** Number of comments that carry a record. */
  function RecordCount(comments: seq<Comment>, codec: Timer.Codec): nat {
    if comments == [] then 0
    else (if RecordOf(comments[0], codec).Some? then 1 else 0) + RecordCount(comments[1..], codec)
  }

  /**
    Every comment that carries a record gives exactly one row and every other
    comment none; a row's user and span come from the record.
   */
  lemma {:induction false} EntriesOfIssueCount(i: Issue, comments: seq<Comment>, codec: Timer.Codec)
    ensures |EntriesOfIssue(i, comments, codec)| == RecordCount(comments, codec)
  {
    if comments != [] {
      EntriesOfIssueCount(i, comments[1..], codec);
    }
  }

  /** The row of a single comment, and no row without a body, with an empty body or without a record. */
  lemma SingleComment(i: Issue, c: Comment, codec: Timer.Codec)
    ensures c.body.None? || c.body == Some("") ==> EntriesOfIssue(i, [c], codec) == []
    ensures c.body.Some? && c.body.value != "" && Timer.ExtractTimerInfo(c.body.value, codec).None? ==>
      EntriesOfIssue(i, [c], codec) == []
    ensures c.body.Some? && c.body.value != "" && Timer.ExtractTimerInfo(c.body.value, codec).Some? ==>
      EntriesOfIssue(i, [c], codec) == [EntryFor(i, Timer.ExtractTimerInfo(c.body.value, codec).value)]
  {
    assert [c][1..] == [];
  }

  /** `consolidate(entries)`: the list is passed on as it is. */
  function Consolidate(entries: seq<ReportEntry>): (r: seq<ReportEntry>)
    ensures r == entries
  {
    entries
  }

  /**
    `getEntryList` from the remote listings: the issue listing, then each
    issue's comments.  The comment listing throws for an issue without a
    repository or owner and nothing catches it there, so the whole report
    fails.  `comments` gives the comment pages of each issue.
   */
  function ReportFromListings(issues: seq<Issue>, comments: Issue -> seq<GitHub.Response<Comment>>, codec: Timer.Codec)
    : (r: Attempt<seq<ReportEntry>>)
    ensures r.Threw? <==> exists k :: 0 <= k < |issues| && GitHub.GetIssueComments(issues[k], comments(issues[k])).Threw?
  {
    if issues == [] then Returned([])
    else
      match GitHub.GetIssueComments(issues[0], comments(issues[0]))
      case Threw => Threw
      case Returned(f) =>
        match ReportFromListings(issues[1..], comments, codec)
        case Threw =>
          assert forall k :: 0 <= k < |issues| - 1 ==> issues[1..][k] == issues[k + 1];
          Threw
        case Returned(rest) =>
          assert forall k :: 1 <= k < |issues| ==> issues[k] == issues[1..][k - 1];
          Returned(EntriesOfIssue(issues[0], f.comments, codec) + rest)
  }

  /** A report that does not fail lists the rows of every issue, issue by issue, each with its fetched comments. */
  lemma {:induction false} ReportIsEntryList(issues: seq<Issue>, comments: Issue -> seq<GitHub.Response<Comment>>, codec: Timer.Codec)
    requires ReportFromListings(issues, comments, codec).Returned?
    ensures forall k :: 0 <= k < |issues| ==> GitHub.GetIssueComments(issues[k], comments(issues[k])).Returned?
    ensures ReportFromListings(issues, comments, codec).value ==
      EntryList(seq(|issues|, k requires 0 <= k < |issues| =>
        (issues[k], GitHub.GetIssueComments(issues[k], comments(issues[k])).value.comments)), codec)
  {
    if issues != [] {
      ReportIsEntryList(issues[1..], comments, codec);
      var pairs := seq(|issues|, k requires 0 <= k < |issues| =>
        (issues[k], GitHub.GetIssueComments(issues[k], comments(issues[k])).value.comments));
      var tail := seq(|issues| - 1, k requires 0 <= k < |issues| - 1 =>
        (issues[1..][k], GitHub.GetIssueComments(issues[1..][k], comments(issues[1..][k])).value.comments));
      assert pairs[1..] == tail;
    }
  }
}
