/**
  The GitHub REST client: paginated list endpoints, the gist update call and
  the authorization header.  The transport is replaced by oracles: a list
  endpoint is the sequence of responses it gives to page 1, 2, ...; pages
  past the end of the sequence come back empty.
 */
module GitHub {
  import opened Text
  import opened Sorting
  import RateLimit

  /** `per_page` sent with every list request. */
  const NUMBER_PER_PAGE: nat := 30

  datatype Owner = Owner(login: Option<string>)
  datatype Repository = Repository(name: Option<string>, owner: Option<Owner>)

  /** The fields of a GitHub issue the tracker reads. */
  datatype Issue = Issue(id: int, number: int, title: string, repository: Option<Repository>)

  datatype Comment = Comment(body: Option<string>)

  /**
    The issue names its repository and that repository's owner.  Building a
    comment URL reads the repository's name and the owner's login; reading a
    property of a missing repository or owner throws a TypeError (the
    TypeScript non-null assertions check nothing at run time), while a
    missing name or login only puts "undefined" or "null" into the URL.
   */
  function HasOwner(issue: Issue): (b: bool)
    ensures !b <==> issue.repository.None? || issue.repository.value.owner.None?
  {
    issue.repository.Some? && issue.repository.value.owner.Some?
  }

  /** A gist as listed by `GET /gists`: its description and its files' raw URLs. */
  datatype GistFile = GistFile(rawUrl: string)
  datatype Gist = Gist(description: Option<string>, files: seq<GistFile>)

  // ---------------------------------------------------------------------------
  // Pagination

  /** What one page request yields: the page's items, or a transport/HTTP failure. */
  datatype Response<T> = Ok(items: seq<T>) | Failed {
    /** The items this response adds to the listing: none for a failure. */
    function Received(): seq<T> {
      if Ok? then items else []
    }
  }

  /** The response to the request for the page with 0-based index `i`. */
  function PageAt<T>(endpoint: seq<Response<T>>, i: nat): Response<T> {
    if i < |endpoint| then endpoint[i] else Ok([])
  }

  /** When a list loop asks for the next page. */
  datatype StopRule =
    | ShortPage  // continue while a page is full (issues, comments)
    | EmptyPage  // continue while a page is non-empty (gists)

  /** The loop goes on to the next page after this response. */
  predicate FetchesNext<T>(rule: StopRule, r: Response<T>) {
    && r.Ok?
    && match rule
       case ShortPage => |r.items| >= NUMBER_PER_PAGE
       case EmptyPage => |r.items| > 0
  }

  /**
    The items of the pages from `lo` up to but not including `hi`, in page
    order; a failed page adds nothing.
   */
  function Gathered<T>(endpoint: seq<Response<T>>, lo: nat, hi: nat): seq<T>
    requires lo <= hi
    decreases hi - lo
  {
    if lo == hi then [] else PageAt(endpoint, lo).Received() + Gathered(endpoint, lo + 1, hi)
  }

  /** A finished page loop: the items gathered, the number of requests, whether the last one failed. */
  datatype Walk<T> = Walk(items: seq<T>, requests: nat, failed: bool)

  /**
    The page loop shared by the list calls, from page index `page` on: it
    requests pages in order, appends each page's items, and stops at the first
    page after which `rule` does not continue, or at the first failure.
   */
  function Paginate<T>(endpoint: seq<Response<T>>, rule: StopRule, page: nat): (w: Walk<T>)
    ensures w.requests >= 1
    ensures forall j :: page <= j < page + w.requests - 1 ==> FetchesNext(rule, PageAt(endpoint, j))
    ensures !FetchesNext(rule, PageAt(endpoint, page + w.requests - 1))
    ensures w.failed <==> PageAt(endpoint, page + w.requests - 1).Failed?
    ensures w.items == Gathered(endpoint, page, page + w.requests)
    decreases |endpoint| - page
  {
    var response := PageAt(endpoint, page);
    if response.Failed? then
      assert Gathered(endpoint, page + 1, page + 1) == [];
      Walk([], 1, true)
    else if !FetchesNext(rule, response) then
      assert Gathered(endpoint, page + 1, page + 1) == [];
      Walk(response.items, 1, false)
    else
      var rest := Paginate(endpoint, rule, page + 1);
      Walk(response.items + rest.items, rest.requests + 1, rest.failed)
  }

  // ---------------------------------------------------------------------------
  // Issues

  /** Issues compared by title with the (locale) title comparison `titleLe`. */
  function ByTitle(titleLe: (string, string) -> bool): (Issue, Issue) -> bool {
    (a: Issue, b: Issue) => titleLe(a.title, b.title)
  }

  /** Ascending by title. */
  ghost predicate SortedByTitle(titleLe: (string, string) -> bool, issues: seq<Issue>) {
    forall i, j :: 0 <= i < j < |issues| ==> titleLe(issues[i].title, issues[j].title)
  }

  /** A total preorder on titles orders issues as a total preorder too. */
  lemma ByTitlePreorder(titleLe: (string, string) -> bool)
    requires TotalPreorder(titleLe)
    ensures TotalPreorder(ByTitle(titleLe))
  {
    var le := ByTitle(titleLe);
    forall a: Issue, b: Issue ensures le(a, b) || le(b, a) {
      assert titleLe(a.title, b.title) || titleLe(b.title, a.title);
    }
    forall a: Issue, b: Issue, c: Issue | le(a, b) && le(b, c) ensures le(a, c) {
      assert titleLe(a.title, b.title) && titleLe(b.title, c.title);
    }
  }

  /** The issues ordered by title under the title comparison; issues with equal titles keep their order. */
  function SortIssues(titleLe: (string, string) -> bool, issues: seq<Issue>): (r: seq<Issue>)
    ensures multiset(r) == multiset(issues) && |r| == |issues|
    ensures TotalPreorder(titleLe) ==> SortedByTitle(titleLe, r)
    ensures TotalPreorder(titleLe) ==> forall x :: TiesWith(ByTitle(titleLe), x, r) == TiesWith(ByTitle(titleLe), x, issues)
  {
    var r := SortBy(ByTitle(titleLe), issues);
    assert TotalPreorder(titleLe) ==> TotalPreorder(ByTitle(titleLe)) by {
      if TotalPreorder(titleLe) {
        ByTitlePreorder(titleLe);
      }
    }
    assert TotalPreorder(titleLe) ==> SortedByTitle(titleLe, r) by {
      if TotalPreorder(titleLe) {
        assert SortedBy(ByTitle(titleLe), r);
        forall i, j | 0 <= i < j < |r| ensures titleLe(r[i].title, r[j].title) {
          assert ByTitle(titleLe)(r[i], r[j]);
        }
      }
    }
    r
  }

  /** Result of `githubGetAllIssues`, with the requests made and the progress counter after the loop. */
  datatype IssueFetch = IssueFetch(issues: seq<Issue>, requests: nat, progress: Option<int>)

  /**
    `githubGetAllIssues(progress)`: pages 1..k of the assigned issues, where k
    is the first page with fewer than 30 items, concatenated and then sorted
    by title.  Any failure returns the empty list, discarding the pages already
    fetched; the progress counter has by then grown by their sizes.
   */
  function GetAllIssues(endpoint: seq<Response<Issue>>, titleLe: (string, string) -> bool, progress: Option<int>)
    : (r: IssueFetch)
    ensures r.requests >= 1
    ensures forall j :: 0 <= j < r.requests - 1 ==> PageAt(endpoint, j).Ok? && |PageAt(endpoint, j).items| >= NUMBER_PER_PAGE
    ensures PageAt(endpoint, r.requests - 1).Failed? ==> r.issues == []
    ensures PageAt(endpoint, r.requests - 1).Ok? ==>
      && |PageAt(endpoint, r.requests - 1).items| < NUMBER_PER_PAGE
      && multiset(r.issues) == multiset(Gathered(endpoint, 0, r.requests))
      && (TotalPreorder(titleLe) ==> SortedByTitle(titleLe, r.issues))
    ensures progress.Some? ==> r.progress == Some(progress.value + |Gathered(endpoint, 0, r.requests)|)
    ensures progress.None? ==> r.progress.None?
  {
    var w := Paginate(endpoint, ShortPage, 0);
    ShortPageWalk(endpoint, w);
    FinishIssues(w, titleLe, progress)
  }

  /** The end of `githubGetAllIssues` after its loop: sort on success, the empty list on failure. */
  function FinishIssues(w: Walk<Issue>, titleLe: (string, string) -> bool, progress: Option<int>): (r: IssueFetch)
    ensures r.requests == w.requests
    ensures w.failed ==> r.issues == []
    ensures !w.failed ==> multiset(r.issues) == multiset(w.items) && |r.issues| == |w.items|
    ensures !w.failed && TotalPreorder(titleLe) ==> SortedByTitle(titleLe, r.issues)
    ensures progress.Some? ==> r.progress == Some(progress.value + |w.items|)
    ensures progress.None? ==> r.progress.None?
  {
    var counted := match progress
      case Some(p) => Some(p + |w.items|)
      case None => None;
    if w.failed then IssueFetch([], w.requests, counted)
    else IssueFetch(SortIssues(titleLe, w.items), w.requests, counted)
  }

  /** What a walk that stops at the first short page, from the first page on, has read. */
  lemma ShortPageWalk<T>(endpoint: seq<Response<T>>, w: Walk<T>)
    requires w == Paginate(endpoint, ShortPage, 0)
    ensures w.requests >= 1
    ensures forall j :: 0 <= j < w.requests - 1 ==> PageAt(endpoint, j).Ok? && |PageAt(endpoint, j).items| >= NUMBER_PER_PAGE
    ensures w.failed <==> PageAt(endpoint, w.requests - 1).Failed?
    ensures !w.failed ==> |PageAt(endpoint, w.requests - 1).items| < NUMBER_PER_PAGE
    ensures w.items == Gathered(endpoint, 0, w.requests)
  {
  }

  // ---------------------------------------------------------------------------
  // Gists

  /** Result of `githubGetAllGists`: the gists, or the error it let escape. */
  datatype GistFetch = GistFetch(gists: Attempt<seq<Gist>>, requests: nat)

  /**
    `githubGetAllGists(token)`: keeps requesting while pages are non-empty, so
    a short page does not end the listing; the result is every page before the
    first empty one.  A failure propagates to the caller.
   */
  function GetAllGists(endpoint: seq<Response<Gist>>): (r: GistFetch)
    ensures r.requests >= 1
    ensures forall j :: 0 <= j < r.requests - 1 ==> PageAt(endpoint, j).Ok? && |PageAt(endpoint, j).items| > 0
    ensures r.gists.Threw? <==> PageAt(endpoint, r.requests - 1).Failed?
    ensures r.gists.Returned? ==>
      && PageAt(endpoint, r.requests - 1) == Ok([])
      && r.gists.value == Gathered(endpoint, 0, r.requests - 1)
  {
    var w := Paginate(endpoint, EmptyPage, 0);
    if w.failed then GistFetch(Threw, w.requests)
    else
      GatheredSplit(endpoint, 0, w.requests - 1);
      GistFetch(Returned(w.items), w.requests)
  }

  /** Gathering one more page appends that page's items. */
  lemma {:induction false} GatheredSplit<T>(endpoint: seq<Response<T>>, lo: nat, hi: nat)
    requires lo <= hi
    ensures Gathered(endpoint, lo, hi + 1) == Gathered(endpoint, lo, hi) + PageAt(endpoint, hi).Received()
    decreases hi - lo
  {
    if lo < hi {
      GatheredSplit(endpoint, lo + 1, hi);
    }
  }

  // ---------------------------------------------------------------------------
  // Comments

  /** Result of `githubGetIssueComments`: the comments gathered and the requests made. */
  datatype CommentFetch = CommentFetch(comments: seq<Comment>, requests: nat)

  /**
    `githubGetIssueComments(issue)`.  Building the URL dereferences the issue's
    repository and its owner, which throws when either is missing.  Otherwise
    pages are read until one has fewer than 30 comments; on a failure the
    comments of the earlier pages are returned, not the empty list.
   */
  function GetIssueComments(issue: Issue, endpoint: seq<Response<Comment>>): (r: Attempt<CommentFetch>)
    ensures r.Threw? <==> !HasOwner(issue)
    ensures r.Returned? ==>
      var f := r.value;
      && f.requests >= 1
      && (forall j :: 0 <= j < f.requests - 1 ==> PageAt(endpoint, j).Ok? && |PageAt(endpoint, j).items| >= NUMBER_PER_PAGE)
      && (PageAt(endpoint, f.requests - 1).Ok? ==> |PageAt(endpoint, f.requests - 1).items| < NUMBER_PER_PAGE)
      && f.comments == Gathered(endpoint, 0, f.requests)
  {
    if !HasOwner(issue) then Threw
    else
      var w := Paginate(endpoint, ShortPage, 0);
      ShortPageWalk(endpoint, w);
      Returned(CommentFetch(w.items, w.requests))
  }

  // ---------------------------------------------------------------------------
  // Single calls

  /** How a `PATCH /gists/{id}` ended: a response (success or HTTP error) or no response at all. */
  datatype PatchOutcome =
    | Patched(headers: RateLimit.Headers)
    | HttpError(headers: RateLimit.Headers)
    | NoResponse

  /**
    `githubUpdateGist`: never lets an error escape (the result is only the
    monitor).  A successful response and an error that carries a response are
    both offered to the rate-limit monitor; an error without a response is
    only logged.
   */
  function UpdateGist(monitor: RateLimit.Monitor, outcome: PatchOutcome): (r: RateLimit.Monitor)
    ensures outcome.NoResponse? ==> r == monitor
    ensures !outcome.NoResponse? ==> r == RateLimit.Record(monitor, outcome.headers)
  {
    match outcome
    case Patched(h) => RateLimit.Record(monitor, h)
    case HttpError(h) => RateLimit.Record(monitor, h)
    case NoResponse => monitor
  }

  /** Gist updates keep the monitor's invariant, whatever the outcome. */
  lemma UpdateGistKeepsValid(monitor: RateLimit.Monitor, outcome: PatchOutcome)
    requires RateLimit.Valid(monitor)
    ensures RateLimit.Valid(UpdateGist(monitor, outcome))
  {
    if !outcome.NoResponse? {
      RateLimit.RecordKeepsValid(monitor, outcome.headers);
    }
  }

  /**
    `getAuthorizationHeader(token?)`: "token " followed by the explicit token
    when one is passed, even an empty one (`??` only replaces null and
    undefined), else by the session's current token.
   */
  function AuthorizationHeader(explicit: Option<string>, current: string): (r: string)
    ensures |r| >= 6 && r[..6] == "token "
    ensures explicit.Some? ==> r[6..] == explicit.value
    ensures explicit.None? ==> r[6..] == current
  {
    "token " + explicit.GetOr(current)
  }

  // ---------------------------------------------------------------------------
  // Examples

  /** `n` copies of the same item. */
  function Repeat<T>(n: nat, x: T): (s: seq<T>)
    ensures |s| == n
  {
    seq(n, _ => x)
  }

  /** A full page of 30 gists followed by an empty page: 30 gists after 2 requests. */
  lemma GistListingExample(g: Gist)
    ensures var r := GetAllGists([Ok(Repeat(30, g)), Ok([])]);
      r.requests == 2 && r.gists.Returned? && |r.gists.value| == 30
  {
    var ep := [Ok(Repeat(30, g)), Ok([])];
    assert Gathered(ep, 0, 1) == Repeat(30, g) by {
      assert Gathered(ep, 1, 1) == [];
    }
  }

  /** A short non-empty gist page does not end the listing. */
  lemma GistListingContinuesPastShortPage(g: Gist)
    ensures GetAllGists([Ok([g]), Ok([g])]).requests == 3
  {
    var ep := [Ok([g]), Ok([g])];
    assert Paginate(ep, EmptyPage, 2).requests == 1;
    assert Paginate(ep, EmptyPage, 1).requests == 2;
  }

  /** 30 issues then 29: 59 issues after 2 requests; an empty first page: nothing after 1 request. */
  lemma IssueListingExample(i: Issue, titleLe: (string, string) -> bool)
    ensures var r := GetAllIssues([Ok(Repeat(30, i)), Ok(Repeat(29, i))], titleLe, None);
      r.requests == 2 && |r.issues| == 59
    ensures var r := GetAllIssues([Ok([])], titleLe, None);
      r.requests == 1 && r.issues == []
  {
    var ep := [Ok(Repeat(30, i)), Ok(Repeat(29, i))];
    assert Gathered(ep, 0, 2) == Repeat(30, i) + Repeat(29, i) by {
      assert Gathered(ep, 2, 2) == [];
    }
  }
}
