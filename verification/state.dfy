/**
  The tracker's session: the signed-in user's token, the state document kept
  in a private gist (the tracked issues and the running timer, if any), and
  the id of the issue whose timer runs.  Every operation returns the new
  session together with the remote calls it makes, in order; the answers to
  those calls are parameters.
 */
module State {
  import opened Text
  import Sorting
  import GitHub

  type Issue = GitHub.Issue

  /** Name of the state gist (its description and its single file). */
  const GIST_NAME: string := "GHTT-state"
  const EMPTY_TOKEN: string := ""
  /** Value of the active issue id when no timer runs. */
  const NO_ACTIVE_ISSUE: int := -1
  /** What `getUserLogin` answers without a user. */
  const UNKNOWN_LOGIN: string := "???"

  /**
    An instant as the document holds it.  A timer started in this page holds
    a `Date` object; a document parsed from the JSON text of the gist holds
    the date's text in the same place, since parsing revives no dates.
   */
  datatype Instant = DateObject(ms: int) | DateText(text: string)

  /** A running timer: the issue and the instant it was started. */
  datatype Start = Start(issue: Issue, at: Instant)

  /** The state document stored in the gist. */
  datatype GhttGist = GhttGist(id: string, issues: seq<Issue>, start: Option<Start>)

  datatype User = User(login: Option<string>, name: Option<string>)

  datatype GhttState = GhttState(token: string, gist: GhttGist, user: Option<User>)

  const EMPTY_GIST: GhttGist := GhttGist("", [], None)
  const EMPTY_STATE: GhttState := GhttState(EMPTY_TOKEN, EMPTY_GIST, None)

  /**
    Everything the module keeps between calls.  `EMPTY_GIST` is one object
    shared by every use: `shared` is its current content, and `onShared` says
    whether the session's document is that very object, so that an in-place
    edit of the document edits it as well.  The `EMPTY_STATE` object always
    holds that shared document, no token and no user.
   */
  datatype Session = Session(state: GhttState, activeIssueId: int, shared: GhttGist, onShared: bool)

  /** The session when the page loads: the empty state, no timer, and the shared document untouched. */
  const INITIAL: Session := Session(EMPTY_STATE, NO_ACTIVE_ISSUE, EMPTY_GIST, true)

  /** A session on the shared document shows that document's current content. */
  predicate Coherent(s: Session) {
    s.onShared ==> s.state.gist == s.shared
  }

  /** The `EMPTY_STATE` object as it reads now: no token, no user and the shared document. */
  function SignedOut(s: Session): (st: GhttState)
    ensures st.token == EMPTY_TOKEN && st.user.None? && st.gist == s.shared
    ensures s.shared == EMPTY_GIST ==> st == EMPTY_STATE
  {
    GhttState(EMPTY_TOKEN, s.shared, None)
  }

  /**
    The session after an in-place edit of its document: it stays on or off
    the shared document, and the edit reaches the shared document exactly
    when the session is on it.
   */
  predicate EditedInPlace(s: Session, r: Session) {
    && r.onShared == s.onShared
    && Coherent(r)
    && (!s.onShared ==> r.shared == s.shared)
  }

  /** The session's document replaced in place by `g`. */
  function SetGist(s: Session, g: GhttGist): (r: Session)
    ensures r.state.gist == g && r.state.token == s.state.token && r.state.user == s.state.user
    ensures r.activeIssueId == s.activeIssueId
    ensures EditedInPlace(s, r)
  {
    s.(state := s.state.(gist := g), shared := if s.onShared then g else s.shared)
  }

  /** A remote call, with the token it is made with and the document it sends. */
  datatype Action =
    | CreateGist(token: string, content: GhttGist)
    | UpdateGist(token: string, id: string, content: GhttGist)
    | PostComment(token: string, issue: Issue, begin: int, end: int)

  /** Result of a gist write or read: the document, the calls made, and whether the call threw. */
  datatype Written = Written(doc: GhttGist, actions: seq<Action>, thrown: bool)

  /** Result of a session operation. */
  datatype Step = Step(session: Session, actions: seq<Action>, thrown: bool)

  /** Number of gist updates among `actions`. */
  function Updates(actions: seq<Action>): nat {
    if actions == [] then 0
    else (if actions[0].UpdateGist? then 1 else 0) + Updates(actions[1..])
  }

  predicate NoComment(actions: seq<Action>) {
    forall k :: 0 <= k < |actions| ==> !actions[k].PostComment?
  }

  // ---------------------------------------------------------------------------
  // Writing the state gist

  /**
    `writeGist(token, gist)`.  A document without an id is first created; the
    id the server answers (or "" when it gives none) is stored into the
    document, and the payload is serialised again.  Then the document is
    always sent as an update to its id.  `created` is the answer to the
    create call; an update never throws.
   */
  function WriteGist(token: string, doc: GhttGist, created: Attempt<Option<string>>): (w: Written)
    ensures w.doc.issues == doc.issues && w.doc.start == doc.start
    ensures 1 <= |w.actions| <= 2
    ensures doc.id != "" ==> w.doc == doc && !w.thrown
    ensures doc.id == "" ==> |w.actions| >= 1 && w.actions[0] == CreateGist(token, doc)
    ensures doc.id == "" && created.Returned? ==> w.doc.id == created.value.GetOr("") && !w.thrown
    ensures w.thrown <==> doc.id == "" && created.Threw?
    ensures w.thrown ==> w.doc == doc && w.actions == [CreateGist(token, doc)]
    ensures !w.thrown ==> w.actions[|w.actions| - 1] == UpdateGist(token, w.doc.id, w.doc)
    ensures Updates(w.actions) == if w.thrown then 0 else 1
    ensures NoComment(w.actions)
  {
    if doc.id != "" then
      Written(doc, [UpdateGist(token, doc.id, doc)], false)
    else
      match created
      case Threw => Written(doc, [CreateGist(token, doc)], true)
      case Returned(id) =>
        var stored := doc.(id := id.GetOr(""));
        var actions := [CreateGist(token, doc), UpdateGist(token, stored.id, stored)];
        assert actions[1..] == [UpdateGist(token, stored.id, stored)] && actions[1..][1..] == [];
        assert Updates(actions[1..]) == 1;
        Written(stored, actions, false)
  }

  /**
    `writeTheGist()`: writes the session's document with the session's token.
    The id a create stores lands in the document itself, so also in the
    shared empty document when the session is on it.
   */
  function WriteTheGist(s: Session, created: Attempt<Option<string>>): (r: Step)
    ensures r.session.state.gist.issues == s.state.gist.issues && r.session.state.gist.start == s.state.gist.start
    ensures r.session.state.token == s.state.token && r.session.state.user == s.state.user
    ensures r.session.activeIssueId == s.activeIssueId
    ensures s.state.gist.id != "" ==>
      && r.session.state == s.state && !r.thrown
      && r.actions == [UpdateGist(s.state.token, s.state.gist.id, s.state.gist)]
    ensures s.state.gist.id == "" ==> |r.actions| >= 1 && r.actions[0] == CreateGist(s.state.token, s.state.gist)
    ensures s.state.gist.id == "" && created.Returned? ==>
      r.session.state.gist == s.state.gist.(id := created.value.GetOr(""))
    ensures r.thrown <==> s.state.gist.id == "" && created.Threw?
    ensures r.thrown ==> r.session.state == s.state && r.actions == [CreateGist(s.state.token, s.state.gist)]
    ensures !r.thrown ==> r.actions[|r.actions| - 1] == UpdateGist(s.state.token, r.session.state.gist.id, r.session.state.gist)
    ensures Updates(r.actions) == (if r.thrown then 0 else 1) && NoComment(r.actions)
    ensures EditedInPlace(s, r.session)
  {
    var w := WriteGist(s.state.token, s.state.gist, created);
    Step(SetGist(s, w.doc), w.actions, w.thrown)
  }

  // ---------------------------------------------------------------------------
  // Tracked issues

  /** The session with its document's issue list replaced in place. */
  function WithIssues(s: Session, issues: seq<Issue>): Session {
    SetGist(s, s.state.gist.(issues := issues))
  }

  /**
    `addIssue(issue)`: appends the issue, sorts the list by title and writes
    the gist.  An issue already in the list is added again.
   */
  function AddIssue(s: Session, issue: Issue, titleLe: (string, string) -> bool, created: Attempt<Option<string>>): (r: Step)
    ensures multiset(r.session.state.gist.issues) == multiset(s.state.gist.issues) + multiset{issue}
    ensures |r.session.state.gist.issues| == |s.state.gist.issues| + 1
    ensures Sorting.TotalPreorder(titleLe) ==> GitHub.SortedByTitle(titleLe, r.session.state.gist.issues)
    ensures r.session.state.gist.start == s.state.gist.start
    ensures r.session.state.token == s.state.token && r.session.activeIssueId == s.activeIssueId
    ensures r.thrown <==> s.state.gist.id == "" && created.Threw?
    ensures Updates(r.actions) == if r.thrown then 0 else 1
    ensures EditedInPlace(s, r.session)
  {
    var issues := GitHub.SortIssues(titleLe, s.state.gist.issues + [issue]);
    WriteTheGist(WithIssues(s, issues), created)
  }

  /** Adding an issue that is already tracked leaves two copies of it. */
  lemma AddIssueKeepsDuplicates(s: Session, issue: Issue, titleLe: (string, string) -> bool, created: Attempt<Option<string>>)
    requires issue in s.state.gist.issues
    ensures multiset(AddIssue(s, issue, titleLe, created).session.state.gist.issues)[issue] >= 2
  {
    assert multiset(s.state.gist.issues)[issue] >= 1;
  }

  /** The position of the first issue with the given id, or -1 when no issue has it. */
  function FindIndexById(issues: seq<Issue>, id: int): (i: int)
    ensures -1 <= i < |issues|
    ensures i == -1 <==> forall k :: 0 <= k < |issues| ==> issues[k].id != id
    ensures i >= 0 ==> issues[i].id == id && forall k :: 0 <= k < i ==> issues[k].id != id
  {
    if issues == [] then -1
    else if issues[0].id == id then 0
    else
      var j := FindIndexById(issues[1..], id);
      if j == -1 then -1 else j + 1
  }

  /**
    `dropIssue(issue)`: removes the first tracked issue with the same id and
    writes the gist; without such an issue nothing happens at all.
   */
  function DropIssue(s: Session, issue: Issue, created: Attempt<Option<string>>): (r: Step)
    ensures (forall k :: 0 <= k < |s.state.gist.issues| ==> s.state.gist.issues[k].id != issue.id) ==>
      r == Step(s, [], false)
    ensures var issues := s.state.gist.issues;
      forall i :: 0 <= i < |issues| && issues[i].id == issue.id && (forall k :: 0 <= k < i ==> issues[k].id != issue.id) ==>
        && r.session.state.gist.issues == issues[..i] + issues[i + 1..]
        && (r.thrown <==> s.state.gist.id == "" && created.Threw?)
        && Updates(r.actions) == (if r.thrown then 0 else 1)
    ensures r.session.state.gist.start == s.state.gist.start
    ensures r.session.state.token == s.state.token && r.session.activeIssueId == s.activeIssueId
    ensures Coherent(s) ==> EditedInPlace(s, r.session)
  {
    var issues := s.state.gist.issues;
    var i := FindIndexById(issues, issue.id);
    if i == -1 then Step(s, [], false)
    else
      OnlyFirstMatch(issues, issue.id, i);
      WriteTheGist(WithIssues(s, issues[..i] + issues[i + 1..]), created)
  }

  /** Only one index holds the first issue with a given id. */
  lemma OnlyFirstMatch(issues: seq<Issue>, id: int, i: int)
    requires 0 <= i < |issues| && issues[i].id == id && forall k :: 0 <= k < i ==> issues[k].id != id
    ensures forall j :: 0 <= j < |issues| && issues[j].id == id && (forall k :: 0 <= k < j ==> issues[k].id != id) ==> j == i
  {
  }

  /** No two tracked issues share an id. */
  predicate UniqueIds(issues: seq<Issue>) {
    forall i, j :: 0 <= i < j < |issues| ==> issues[i].id != issues[j].id
  }

  /** With unique ids, dropping the same issue a second time does nothing and writes nothing. */
  lemma DropTwiceIsNoop(s: Session, issue: Issue, c1: Attempt<Option<string>>, c2: Attempt<Option<string>>)
    requires UniqueIds(s.state.gist.issues)
    ensures var once := DropIssue(s, issue, c1).session;
      DropIssue(once, issue, c2) == Step(once, [], false)
  {
    var issues := s.state.gist.issues;
    var i := FindIndexById(issues, issue.id);
    if i != -1 {
      var rest := issues[..i] + issues[i + 1..];
      var once := DropIssue(s, issue, c1).session;
      assert once.state.gist.issues == rest;
      forall k | 0 <= k < |rest| ensures rest[k].id != issue.id {
        if k < i {
          assert rest[k] == issues[k];
        } else {
          assert rest[k] == issues[k + 1];
        }
      }
    }
  }

  /** Two tracked issues with one id: a second drop removes the second one as well. */
  lemma DropTwiceWithDuplicateIds(a: Issue, b: Issue, s: Session, c1: Attempt<Option<string>>, c2: Attempt<Option<string>>)
    requires a.id == b.id && s.state.gist.issues == [a, b]
    ensures var once := DropIssue(s, a, c1).session;
      && once.state.gist.issues == [b]
      && DropIssue(once, a, c2).session.state.gist.issues == []
  {
    var once := DropIssue(s, a, c1).session;
    assert once.state.gist.issues == [a, b][..0] + [a, b][1..];
    assert once.state.gist.issues == [b];
    assert [b][..0] + [b][1..] == [];
  }

  // ---------------------------------------------------------------------------
  // Timer

  datatype IssueTimerState = NONE | ME | OTHER

  /** `getIssueState(issue)`: no timer runs, it runs for this issue, or for another one. */
  function GetIssueState(activeIssueId: int, issue: Issue): (r: IssueTimerState)
    ensures r == NONE <==> activeIssueId == NO_ACTIVE_ISSUE
    ensures r == ME <==> activeIssueId != NO_ACTIVE_ISSUE && activeIssueId == issue.id
    ensures r == OTHER <==> activeIssueId != NO_ACTIVE_ISSUE && activeIssueId != issue.id
  {
    if activeIssueId == NO_ACTIVE_ISSUE then NONE
    else if activeIssueId == issue.id then ME
    else OTHER
  }

  /**
    `startTimer(at, issue)`: the timer now runs for `issue` from the `Date`
    `at`, replacing any timer that ran, and the gist is written.
   */
  function StartTimer(s: Session, at: int, issue: Issue, created: Attempt<Option<string>>): (r: Step)
    ensures r.session.activeIssueId == issue.id
    ensures r.session.state.gist.start == Some(Start(issue, DateObject(at)))
    ensures r.session.state.gist.issues == s.state.gist.issues
    ensures r.session.state.token == s.state.token
    ensures r.thrown <==> s.state.gist.id == "" && created.Threw?
    ensures NoComment(r.actions) && Updates(r.actions) == (if r.thrown then 0 else 1)
    ensures EditedInPlace(s, r.session)
  {
    var started := SetGist(s, s.state.gist.(start := Some(Start(issue, DateObject(at)))));
    WriteTheGist(started.(activeIssueId := issue.id), created)
  }

  /**
    `stopTimer(end)`: with a running timer, clears it and posts one entry
    for its issue covering its start up to `end`, then writes the gist.
    Without one nothing happens.  Building the entry rounds the start with a
    `Date` method, which throws when the start is a date's text; posting it
    reads the issue's repository and owner outside any `try`, which throws
    for an issue without them.  Either way the call throws after the timer
    was cleared, before any remote call.
   */
  function StopTimer(s: Session, end: int, created: Attempt<Option<string>>): (r: Step)
    ensures s.state.gist.start.None? ==> r == Step(s, [], false)
    ensures s.state.gist.start.Some? ==>
      && r.session.state.gist.start.None?
      && r.session.activeIssueId == NO_ACTIVE_ISSUE
      && r.session.state.gist.issues == s.state.gist.issues
      && r.session.state.token == s.state.token
    ensures s.state.gist.start.Some? && s.state.gist.start.value.at.DateText? ==>
      r.thrown && r.actions == []
    ensures s.state.gist.start.Some? && !GitHub.HasOwner(s.state.gist.start.value.issue) ==>
      r.thrown && r.actions == []
    ensures s.state.gist.start.Some? && s.state.gist.start.value.at.DateObject? && GitHub.HasOwner(s.state.gist.start.value.issue) ==>
      && |r.actions| >= 1
      && r.actions[0] == PostComment(s.state.token, s.state.gist.start.value.issue, s.state.gist.start.value.at.ms, end)
      && NoComment(r.actions[1..])
      && (r.thrown <==> s.state.gist.id == "" && created.Threw?)
      && Updates(r.actions) == (if r.thrown then 0 else 1)
    ensures Coherent(s) ==> EditedInPlace(s, r.session)
  {
    match s.state.gist.start
    case None => Step(s, [], false)
    case Some(st) =>
      var cleared := SetGist(s, s.state.gist.(start := None)).(activeIssueId := NO_ACTIVE_ISSUE);
      match st.at
      case DateText(_) => Step(cleared, [], true)
      case DateObject(begin) =>
        if !GitHub.HasOwner(st.issue) then Step(cleared, [], true)
        else
          var w := WriteTheGist(cleared, created);
          var actions := [PostComment(s.state.token, st.issue, begin, end)] + w.actions;
          assert actions[1..] == w.actions;
          Step(w.session, actions, w.thrown)
  }

  /** While a timer runs for an issue, that issue reads as ME and every issue with another id as OTHER. */
  lemma StartedIssueIsMine(s: Session, at: int, issue: Issue, other: Issue, created: Attempt<Option<string>>)
    requires issue.id != NO_ACTIVE_ISSUE && other.id != issue.id
    ensures var a := StartTimer(s, at, issue, created).session.activeIssueId;
      GetIssueState(a, issue) == ME && GetIssueState(a, other) == OTHER
  {
  }

  /** After a timer stops every issue reads as NONE. */
  lemma StoppedIssueIsNone(s: Session, end: int, issue: Issue, created: Attempt<Option<string>>)
    requires s.state.gist.start.Some?
    ensures GetIssueState(StopTimer(s, end, created).session.activeIssueId, issue) == NONE
  {
  }

  /**
    Starting a timer on A, then on B, then stopping posts exactly one entry,
    for B, covering B's start up to the stop: A's running time is dropped.
   */
  lemma RestartPostsOnlyLastTimer(s: Session, a: Issue, b: Issue, t1: int, t2: int, t3: int,
                                  c1: Attempt<Option<string>>, c2: Attempt<Option<string>>, c3: Attempt<Option<string>>)
    requires GitHub.HasOwner(b)
    ensures var r1 := StartTimer(s, t1, a, c1);
      var r2 := StartTimer(r1.session, t2, b, c2);
      var r3 := StopTimer(r2.session, t3, c3);
      && NoComment(r1.actions) && NoComment(r2.actions)
      && r3.actions[0] == PostComment(s.state.token, b, t2, t3)
      && NoComment(r3.actions[1..])
  {
  }

  // ---------------------------------------------------------------------------
  // Reading the state gist

  /** The gist is the state gist. */
  predicate IsStateGist(g: GitHub.Gist) {
    g.description == Some(GIST_NAME)
  }

  /** Raw URLs of all files of all state gists, in listing order. */
  function StateUrls(gists: seq<GitHub.Gist>): (urls: seq<string>)
    ensures |urls| == 0 <==> forall i :: 0 <= i < |gists| && IsStateGist(gists[i]) ==> gists[i].files == []
  {
    if gists == [] then []
    else
      var here := if IsStateGist(gists[0]) then seq(|gists[0].files|, j requires 0 <= j < |gists[0].files| => gists[0].files[j].rawUrl) else [];
      here + StateUrls(gists[1..])
  }

  /** The URL `readGist` reads: the first file of the first state gist that has files. */
  function FirstStateUrl(gists: seq<GitHub.Gist>): Option<string> {
    var urls := StateUrls(gists);
    if urls == [] then None else Some(urls[0])
  }

  /** The first state gist with files supplies the URL, even if state gists without files come earlier. */
  lemma {:induction false} FirstStateUrlIsFirstFile(gists: seq<GitHub.Gist>, i: nat)
    requires i < |gists| && IsStateGist(gists[i]) && gists[i].files != []
    requires forall k :: 0 <= k < i && IsStateGist(gists[k]) ==> gists[k].files == []
    ensures FirstStateUrl(gists) == Some(gists[i].files[0].rawUrl)
  {
    if i > 0 {
      FirstStateUrlIsFirstFile(gists[1..], i - 1);
      assert StateUrls(gists) == StateUrls(gists[1..]);
    }
  }

  /**
    The answer for the stored document: what reading the first state file
    gives (None when the response carries no data), or no document without
    such a file or when its URL is empty.
   */
  function Fetched(gists: seq<GitHub.Gist>, contents: string -> Attempt<Option<GhttGist>>): (f: Attempt<Option<GhttGist>>)
    ensures FirstStateUrl(gists).None? ==> f == Returned(None)
    ensures FirstStateUrl(gists) == Some("") ==> f == Returned(None)
    ensures FirstStateUrl(gists).Some? && FirstStateUrl(gists).value != "" ==> f == contents(FirstStateUrl(gists).value)
  {
    var url := FirstStateUrl(gists);
    if url.Some? && url.value != "" then contents(url.value) else Returned(None)
  }

  /**
    Outcome of reading the state gist as written: the read itself, the
    content of the shared empty document afterwards, and whether the document
    returned is that shared object.
   */
  datatype SharedRead = SharedRead(read: Written, shared: GhttGist, isShared: bool)

  /**
    `readGist(token)` as written.  `empty` is the current content of the
    shared empty document.  Without a token that object itself is returned.
    When no stored document is found, that object is written (created first
    if it has no id yet), receives the created id, and is returned.
    `listing` is the gist listing, `contents` the reply for a raw URL, and
    `created` the answer to a create call.
   */
  function ReadGistShared(token: string, empty: GhttGist, listing: Attempt<seq<GitHub.Gist>>,
                          contents: string -> Attempt<Option<GhttGist>>, created: Attempt<Option<string>>): (r: SharedRead)
    ensures token == EMPTY_TOKEN ==> r == SharedRead(Written(empty, [], false), empty, true)
    ensures token != EMPTY_TOKEN && listing.Threw? ==> r.read.thrown && r.read.actions == [] && r.shared == empty
    ensures token != EMPTY_TOKEN && listing.Returned? ==>
      var f := Fetched(listing.value, contents);
      && (f.Threw? ==> r.read.thrown && r.read.actions == [] && r.shared == empty)
      && (f.Returned? && f.value.Some? ==> r == SharedRead(Written(f.value.value, [], false), empty, false))
      && (f == Returned(None) ==>
           && 1 <= |r.read.actions|
           && (empty.id != "" ==> r.read == Written(empty, [UpdateGist(token, empty.id, empty)], false))
           && (empty.id == "" ==> r.read.actions[0] == CreateGist(token, empty))
           && (empty.id == "" && created.Returned? ==> !r.read.thrown && r.read.doc == empty.(id := created.value.GetOr("")))
           && (empty.id == "" && created.Threw? ==> r.read.actions == [CreateGist(token, empty)])
           && (empty.id == "" && created.Returned? ==>
                r.read.actions == [CreateGist(token, empty), UpdateGist(token, r.read.doc.id, r.read.doc)])
           && (r.read.thrown <==> empty.id == "" && created.Threw?)
           && r.shared == r.read.doc && r.isShared == !r.read.thrown)
    ensures r.isShared ==> !r.read.thrown && r.read.doc == r.shared
    ensures r.shared.issues == empty.issues && r.shared.start == empty.start
  {
    if token == EMPTY_TOKEN then SharedRead(Written(empty, [], false), empty, true)
    else match listing
      case Threw => SharedRead(Written(empty, [], true), empty, false)
      case Returned(gists) =>
        match Fetched(gists, contents)
        case Threw => SharedRead(Written(empty, [], true), empty, false)
        case Returned(Some(doc)) => SharedRead(Written(doc, [], false), empty, false)
        case Returned(None) =>
          var w := WriteGist(token, empty, created);
          SharedRead(w, w.doc, !w.thrown)
  }

  /**
    `readGist(token)` with a fresh empty document for every call: no token
    means no calls and the empty document; otherwise the stored document when
    one is found, or, when there is none or it has no content, a newly
    created and written empty document.  A failed listing, content read or
    create throws.
   */
  function ReadGist(token: string, listing: Attempt<seq<GitHub.Gist>>,
                    contents: string -> Attempt<Option<GhttGist>>, created: Attempt<Option<string>>): (r: Written)
    ensures token == EMPTY_TOKEN ==> r == Written(EMPTY_GIST, [], false)
    ensures token != EMPTY_TOKEN && listing.Threw? ==> r.thrown && r.actions == []
    ensures token != EMPTY_TOKEN && listing.Returned? ==>
      var f := Fetched(listing.value, contents);
      && (f.Threw? ==> r.thrown && r.actions == [])
      && (f.Returned? && f.value.Some? ==> r == Written(f.value.value, [], false))
      && (f == Returned(None) ==>
           && 1 <= |r.actions| && r.actions[0] == CreateGist(token, EMPTY_GIST)
           && (r.thrown <==> created.Threw?)
           && (created.Threw? ==> r.actions == [CreateGist(token, EMPTY_GIST)])
           && (created.Returned? ==>
                && r.doc == EMPTY_GIST.(id := created.value.GetOr(""))
                && r.actions == [CreateGist(token, EMPTY_GIST), UpdateGist(token, r.doc.id, r.doc)]))
  {
    var r := ReadGistShared(token, EMPTY_GIST, listing, contents, created).read;
    assert token != EMPTY_TOKEN && listing.Returned? && Fetched(listing.value, contents) == Returned(None) && created.Returned? ==>
      r == WriteGist(token, EMPTY_GIST, created);
    r
  }

  /** When a stored document is found and has content, it is returned as is and nothing is written. */
  lemma ReadGistReturnsStoredDocument(token: string, gists: seq<GitHub.Gist>, contents: string -> Attempt<Option<GhttGist>>,
                                      created: Attempt<Option<string>>, doc: GhttGist)
    requires token != EMPTY_TOKEN
    requires FirstStateUrl(gists).Some? && FirstStateUrl(gists).value != ""
    requires contents(FirstStateUrl(gists).value) == Returned(Some(doc))
    ensures ReadGist(token, Returned(gists), contents, created) == Written(doc, [], false)
  {
  }

  // ---------------------------------------------------------------------------
  // Reading back what was written

  /**
    A state gist as the store holds it: its id, the raw URL of its one file,
    and the document whose JSON text that file holds.
   */
  datatype StoredGist = StoredGist(id: string, url: string, doc: GhttGist)

  /**
    The document `JSON.parse` gives back from the JSON text of `doc`: the same
    id and issues, with a `Date` start turned into its text by `iso`.
   */
  function AsText(doc: GhttGist, iso: int -> string): (r: GhttGist)
    ensures r.id == doc.id && r.issues == doc.issues && ParsedFromJson(r)
    ensures r.start.None? <==> doc.start.None?
    ensures doc.start.Some? ==> r.start.value.issue == doc.start.value.issue
    ensures r == doc <==> ParsedFromJson(doc)
  {
    match doc.start
    case Some(Start(issue, DateObject(ms))) => doc.(start := Some(Start(issue, DateText(iso(ms)))))
    case _ => doc
  }

  /** An update to gist `id` replaces the document of that gist, and only of that one. */
  function Replace(store: seq<StoredGist>, id: string, content: GhttGist): (r: seq<StoredGist>)
    ensures |r| == |store|
    ensures forall i :: 0 <= i < |store| ==>
      r[i].id == store[i].id && r[i].url == store[i].url
      && r[i].doc == (if store[i].id == id then content else store[i].doc)
  {
    seq(|store|, i requires 0 <= i < |store| => if store[i].id == id then store[i].(doc := content) else store[i])
  }

  /**
    The store after one call.  A create adds a gist with the id it answers,
    `newId`, and the file URL `urlOf` gives for it; an update rewrites the
    gist with its id, and changes nothing when there is none; a comment does
    not touch the store.
   */
  function Apply(store: seq<StoredGist>, a: Action, newId: string, urlOf: string -> string): (r: seq<StoredGist>)
    ensures a.CreateGist? ==> r == store + [StoredGist(newId, urlOf(newId), a.content)]
    ensures a.UpdateGist? ==> |r| == |store|
    ensures a.PostComment? ==> r == store
  {
    match a
    case CreateGist(_, content) => store + [StoredGist(newId, urlOf(newId), content)]
    case UpdateGist(_, id, content) => Replace(store, id, content)
    case PostComment(_, _, _, _) => store
  }

  /** The store after the calls in order. */
  function ApplyAll(store: seq<StoredGist>, actions: seq<Action>, newId: string, urlOf: string -> string): seq<StoredGist>
    decreases |actions|
  {
    if actions == [] then store else ApplyAll(Apply(store, actions[0], newId, urlOf), actions[1..], newId, urlOf)
  }

  /** The gist listing of the store: each state gist with its one file. */
  function Listing(store: seq<StoredGist>): (gists: seq<GitHub.Gist>)
    ensures |gists| == |store|
    ensures forall i :: 0 <= i < |store| ==> IsStateGist(gists[i]) && gists[i].files == [GitHub.GistFile(store[i].url)]
  {
    seq(|store|, i requires 0 <= i < |store| => GitHub.Gist(Some(GIST_NAME), [GitHub.GistFile(store[i].url)]))
  }

  /** The document held under `url`: that of the first gist whose file has it. */
  function FileAt(store: seq<StoredGist>, url: string): (r: Option<GhttGist>)
    ensures store != [] && store[0].url == url ==> r == Some(store[0].doc)
  {
    if store == [] then None
    else if store[0].url == url then Some(store[0].doc)
    else FileAt(store[1..], url)
  }

  /** Reading a file of the store: its document, parsed back from JSON text. */
  function Contents(store: seq<StoredGist>, iso: int -> string): string -> Attempt<Option<GhttGist>> {
    url => match FileAt(store, url) case Some(d) => Returned(Some(AsText(d, iso))) case None => Returned(None)
  }

  /** When the first gist of the store has a file URL, a read answers its document as parsed back. */
  lemma ReadFirstStored(token: string, store: seq<StoredGist>, iso: int -> string, created: Attempt<Option<string>>)
    requires token != EMPTY_TOKEN && store != [] && store[0].url != ""
    ensures ReadGist(token, Returned(Listing(store)), Contents(store, iso), created) == Written(AsText(store[0].doc, iso), [], false)
  {
    var gists := Listing(store);
    FirstStateUrlIsFirstFile(gists, 0);
    assert Contents(store, iso)(store[0].url) == Returned(Some(AsText(store[0].doc, iso)));
    ReadGistReturnsStoredDocument(token, gists, Contents(store, iso), created, AsText(store[0].doc, iso));
  }

  /**
    Writing a document that the first state gist already holds, then reading,
    gives the document back as JSON text restores it: unchanged exactly when
    no timer started in this page is running.
   */
  lemma {:induction false} WriteThenReadStored(token: string, doc: GhttGist, store: seq<StoredGist>, urlOf: string -> string,
                            iso: int -> string, created: Attempt<Option<string>>, created2: Attempt<Option<string>>)
    requires token != EMPTY_TOKEN && doc.id != ""
    requires store != [] && store[0].id == doc.id && store[0].url != ""
    ensures var w := WriteGist(token, doc, created);
      var r := ReadGist(token, Returned(Listing(ApplyAll(store, w.actions, "", urlOf))), Contents(ApplyAll(store, w.actions, "", urlOf), iso), created2);
      && w.actions == [UpdateGist(token, doc.id, doc)]
      && r == Written(AsText(doc, iso), [], false)
      && (r.doc == doc <==> ParsedFromJson(doc))
  {
    var w := WriteGist(token, doc, created);
    var after := ApplyAll(store, w.actions, "", urlOf);
    assert w.actions == [UpdateGist(token, doc.id, doc)];
    assert after == Replace(store, doc.id, doc) by {
      assert w.actions[1..] == [];
      assert after == ApplyAll(Apply(store, w.actions[0], "", urlOf), [], "", urlOf);
    }
    ReadFirstStored(token, after, iso, created2);
  }

  /**
    Writing a document without an id to a store with no state gist, when the
    create answers `newId`, then reading, gives back the document with that
    id filled in, as JSON text restores it.
   */
  lemma {:induction false} WriteThenReadCreated(token: string, doc: GhttGist, newId: string, urlOf: string -> string,
                             iso: int -> string, created2: Attempt<Option<string>>)
    requires token != EMPTY_TOKEN && doc.id == "" && newId != "" && urlOf(newId) != ""
    ensures var w := WriteGist(token, doc, Returned(Some(newId)));
      var after := ApplyAll([], w.actions, newId, urlOf);
      var r := ReadGist(token, Returned(Listing(after)), Contents(after, iso), created2);
      && w.doc == doc.(id := newId)
      && after == [StoredGist(newId, urlOf(newId), doc.(id := newId))]
      && r == Written(AsText(doc.(id := newId), iso), [], false)
  {
    var w := WriteGist(token, doc, Returned(Some(newId)));
    var full := doc.(id := newId);
    assert w.actions == [CreateGist(token, doc), UpdateGist(token, newId, full)];
    var once := Apply([], w.actions[0], newId, urlOf);
    assert once == [StoredGist(newId, urlOf(newId), doc)];
    var after := ApplyAll([], w.actions, newId, urlOf);
    assert w.actions[1..] == [w.actions[1]] && w.actions[1..][1..] == [];
    assert after == ApplyAll(once, [w.actions[1]], newId, urlOf);
    assert after == ApplyAll(Apply(once, w.actions[1], newId, urlOf), [], newId, urlOf);
    assert after == Replace(once, newId, full);
    assert after == [StoredGist(newId, urlOf(newId), full)];
    ReadFirstStored(token, after, iso, created2);
  }

  /**
    The shared empty document keeps the id created for the first account
    without a state gist.  A second account without one then gets no create
    call: its empty document is sent as an update to the first account's
    gist, and that document, carrying the foreign id, becomes its state.
   */
  lemma SharedEmptyLeaksAcrossAccounts(contents: string -> Attempt<Option<GhttGist>>, later: Attempt<Option<string>>)
    ensures var first := ReadGistShared("alice", EMPTY_GIST, Returned([]), contents, Returned(Some("g1")));
      var second := ReadGistShared("bob", first.shared, Returned([]), contents, later);
      && first.read.actions == [CreateGist("alice", EMPTY_GIST), UpdateGist("alice", "g1", EMPTY_GIST.(id := "g1"))]
      && first.shared.id == "g1"
      && second.read.actions == [UpdateGist("bob", "g1", EMPTY_GIST.(id := "g1"))]
      && second.read.doc.id == "g1"
  {
    var first := ReadGistShared("alice", EMPTY_GIST, Returned([]), contents, Returned(Some("g1")));
    assert FirstStateUrl([]) == None;
    assert first.shared == EMPTY_GIST.(id := "g1");
  }

  /** With a fresh empty document every account without a state gist gets a create call of its own. */
  lemma FreshEmptyCreatesPerAccount(token: string, contents: string -> Attempt<Option<GhttGist>>, created: Attempt<Option<string>>)
    requires token != EMPTY_TOKEN
    ensures ReadGist(token, Returned([]), contents, created).actions[0] == CreateGist(token, EMPTY_GIST)
  {
    assert FirstStateUrl([]) == None;
  }

  // ---------------------------------------------------------------------------
  // Signing in and out

  /** Outcome of the user lookup: a user, a falsy answer, or a failed call. */
  datatype UserLookup = Found(user: User) | Falsy | LookupFailed

  /** `loggedin()`: a token is present. */
  function LoggedIn(st: GhttState): (b: bool)
    ensures b <==> |st.token| > 0
  {
    st.token != EMPTY_TOKEN
  }

  /** `getUserLogin()`: the user's login, or "???". */
  function UserLogin(st: GhttState): (r: string)
    ensures st.user.Some? && st.user.value.login.Some? ==> r == st.user.value.login.value
    ensures st.user.None? || st.user.value.login.None? ==> r == UNKNOWN_LOGIN
  {
    match st.user
    case Some(u) => u.login.GetOr(UNKNOWN_LOGIN)
    case None => UNKNOWN_LOGIN
  }

  /**
    `readState(token)`: a new state holding the token, the user and the
    document when the user lookup gives a user and reading the document does
    not throw; the `EMPTY_STATE` object (None) in every other case.  `read`
    is what reading the document gives; the document is read, and its calls
    made, only once a user was found.
   */
  function ReadState(token: string, lookup: UserLookup, read: Written): (r: (Option<GhttState>, seq<Action>))
    ensures r.0.Some? <==> lookup.Found? && !read.thrown
    ensures r.0.Some? ==> r.0.value.token == token && r.0.value.user == Some(lookup.user) && r.0.value.gist == read.doc
    ensures lookup.Found? ==> r.1 == read.actions
    ensures !lookup.Found? ==> r.1 == []
  {
    match lookup
    case Found(user) =>
      if read.thrown then (None, read.actions) else (Some(GhttState(token, read.doc, Some(user))), read.actions)
    case _ => (None, [])
  }

  /**
    `login(token)` with the fresh empty document: the session state becomes
    what `readState` yields, and it never throws.  A new state is off the
    shared document; the empty state is on it.
   */
  function Login(s: Session, token: string, lookup: UserLookup, listing: Attempt<seq<GitHub.Gist>>,
                 contents: string -> Attempt<Option<GhttGist>>, created: Attempt<Option<string>>): (r: Step)
    ensures !r.thrown && r.session.activeIssueId == s.activeIssueId
    ensures LoggedIn(r.session.state) <==>
      lookup.Found? && token != EMPTY_TOKEN && !ReadGist(token, listing, contents, created).thrown
    ensures var g := ReadGist(token, listing, contents, created);
      lookup.Found? && !g.thrown ==>
        && r.session.state == GhttState(token, g.doc, Some(lookup.user))
        && !r.session.onShared
    ensures var g := ReadGist(token, listing, contents, created);
      !lookup.Found? || g.thrown ==> r.session.state == SignedOut(s) && r.session.onShared
    ensures r.actions == if lookup.Found? then ReadGist(token, listing, contents, created).actions else []
    ensures r.session.shared == s.shared && Coherent(r.session)
  {
    var rs := ReadState(token, lookup, ReadGist(token, listing, contents, created));
    match rs.0
    case Some(st) => Step(s.(state := st, onShared := false), rs.1, false)
    case None => Step(s.(state := SignedOut(s), onShared := true), rs.1, false)
  }

  /**
    `login(token)` as written: the document is read with the shared empty
    document, so the new state may hold that very object, and the id a create
    answers is kept in it.
   */
  function LoginShared(s: Session, token: string, lookup: UserLookup, listing: Attempt<seq<GitHub.Gist>>,
                       contents: string -> Attempt<Option<GhttGist>>, created: Attempt<Option<string>>): (r: Step)
    ensures !r.thrown && r.session.activeIssueId == s.activeIssueId && Coherent(r.session)
    ensures var g := ReadGistShared(token, s.shared, listing, contents, created);
      LoggedIn(r.session.state) <==> lookup.Found? && token != EMPTY_TOKEN && !g.read.thrown
    ensures var g := ReadGistShared(token, s.shared, listing, contents, created);
      lookup.Found? && !g.read.thrown ==>
        && r.session.state == GhttState(token, g.read.doc, Some(lookup.user))
        && r.session.onShared == g.isShared
    ensures !lookup.Found? ==> r.session.state == SignedOut(s) && r.session.shared == s.shared && r.actions == []
    ensures r.session.shared.issues == s.shared.issues && r.session.shared.start == s.shared.start
  {
    match lookup
    case Found(user) =>
      var g := ReadGistShared(token, s.shared, listing, contents, created);
      var s' := s.(shared := g.shared);
      if g.read.thrown then Step(s'.(state := SignedOut(s'), onShared := true), g.read.actions, false)
      else Step(s'.(state := GhttState(token, g.read.doc, Some(user)), onShared := g.isShared), g.read.actions, false)
    case _ => Step(s.(state := SignedOut(s), onShared := true), [], false)
  }

  /** `logout()`: the state becomes the `EMPTY_STATE` object, with whatever the shared document holds by now. */
  function Logout(s: Session): (r: Session)
    ensures !LoggedIn(r.state) && r.state.user.None? && r.state.gist == s.shared
    ensures r.activeIssueId == s.activeIssueId && r.shared == s.shared && Coherent(r)
    ensures s.shared == EMPTY_GIST ==> r.state == EMPTY_STATE
  {
    s.(state := SignedOut(s), onShared := true)
  }

  /** A document parsed from JSON text holds the start of its timer as text. */
  predicate ParsedFromJson(doc: GhttGist) {
    doc.start.Some? ==> doc.start.value.at.DateText?
  }

  /**
    After a page load and a sign-in, a timer restored from the stored
    document reads as NONE for its own issue, and stopping it throws with no
    comment posted and no gist written, while the timer is gone from the
    session.
   */
  lemma RestoredTimerCannotBeStopped(token: string, user: User, gists: seq<GitHub.Gist>,
                                     contents: string -> Attempt<Option<GhttGist>>, created: Attempt<Option<string>>,
                                     end: int, c: Attempt<Option<string>>)
    requires token != EMPTY_TOKEN
    requires var f := Fetched(gists, contents);
      f.Returned? && f.value.Some? && f.value.value.start.Some? && ParsedFromJson(f.value.value)
    ensures var doc := Fetched(gists, contents).value.value;
      var r1 := Login(INITIAL, token, Found(user), Returned(gists), contents, created);
      var r2 := StopTimer(r1.session, end, c);
      && r1.session.state.gist == doc
      && GetIssueState(r1.session.activeIssueId, doc.start.value.issue) == NONE
      && r2.thrown && r2.actions == [] && r2.session.state.gist.start.None?
  {
  }

  // ---------------------------------------------------------------------------
  // Persisting changes

  /** What the watcher on the state persists after a change. */
  datatype Persist = Persist(cookie: bool, gist: bool)

  /**
    The deep watcher on the state: the token is saved when its serialisation
    changed; the gist is written when a token is present and the document's
    serialisation changed.  Serialisation is taken to be injective, so
    "changed" is inequality.
   */
  function WatchDecision(before: GhttState, after: GhttState): (r: Persist)
    ensures r.cookie <==> before.token != after.token
    ensures r.gist <==> LoggedIn(after) && before.gist != after.gist
  {
    Persist(before.token != after.token, after.token != EMPTY_TOKEN && before.gist != after.gist)
  }

  /**
    The old state as the watcher compares it, once the change from `s` to
    `after` is done: an old state on the shared document shows that
    document's content by then.
   */
  function SeenBefore(s: Session, after: Session): (st: GhttState)
    ensures st.token == s.state.token && st.user == s.state.user
    ensures st.gist == if s.onShared then after.shared else s.state.gist
  {
    if s.onShared then s.state.(gist := after.shared) else s.state
  }

  /** Signing out of a signed-in session saves the empty token and never writes a gist. */
  lemma LogoutPersistsOnlyToken(s: Session)
    requires LoggedIn(s.state)
    ensures WatchDecision(SeenBefore(s, Logout(s)), Logout(s).state) == Persist(true, false)
  {
  }

  /**
    An in-place mutation hands the watcher the same object as old and new
    value, so nothing is persisted by the watcher; the explicit gist writes in
    the mutating operations are what saves the change.
   */
  lemma SameObjectPersistsNothing(st: GhttState)
    ensures WatchDecision(st, st) == Persist(false, false)
  {
  }

  /**
    Signing in from a signed-out session with the fresh empty document saves
    the token, and writes the gist exactly when the document read differs
    from the one the old state showed.
   */
  lemma LoginPersists(s: Session, token: string, user: User, listing: Attempt<seq<GitHub.Gist>>,
                      contents: string -> Attempt<Option<GhttGist>>, created: Attempt<Option<string>>)
    requires Coherent(s) && s.state.token == EMPTY_TOKEN && token != EMPTY_TOKEN
    requires !ReadGist(token, listing, contents, created).thrown
    ensures var r := Login(s, token, Found(user), listing, contents, created).session;
      WatchDecision(SeenBefore(s, r), r.state) == Persist(true, r.state.gist != s.state.gist)
  {
  }

  /**
    As written, signing in from the empty state without a stored document
    hands the watcher the shared document as both old and new document: it
    saves the token and writes no gist.
   */
  lemma LoginSharedCreatePersistsNothing(s: Session, token: string, user: User,
                                         contents: string -> Attempt<Option<GhttGist>>, id: Option<string>)
    requires Coherent(s) && s.onShared && s.state.token == EMPTY_TOKEN && token != EMPTY_TOKEN
    ensures var r := LoginShared(s, token, Found(user), Returned([]), contents, Returned(id)).session;
      && LoggedIn(r.state) && r.onShared
      && WatchDecision(SeenBefore(s, r), r.state) == Persist(true, false)
  {
    assert FirstStateUrl([]) == None;
  }

  /**
    As written, the shared document outlives the account: "alice" signs in
    on a fresh page without a stored document, the create answers "g1", and
    an issue is tracked.  After sign-out the empty state still holds gist
    "g1" and the issue, and the next account without a stored document
    updates gist "g1" with that content instead of creating its own.
   */
  lemma SharedDocumentOutlivesSignOut(u: User, v: User, issue: Issue, titleLe: (string, string) -> bool,
                                      contents: string -> Attempt<Option<GhttGist>>, c: Attempt<Option<string>>,
                                      later: Attempt<Option<string>>)
    ensures var r1 := LoginShared(INITIAL, "alice", Found(u), Returned([]), contents, Returned(Some("g1")));
      var r2 := AddIssue(r1.session, issue, titleLe, c);
      var out := Logout(r2.session);
      var r3 := LoginShared(out, "bob", Found(v), Returned([]), contents, later);
      && !LoggedIn(out.state) && out.state.gist.id == "g1" && issue in out.state.gist.issues
      && r3.actions == [UpdateGist("bob", "g1", out.shared)]
      && r3.session.state.gist == out.shared
  {
    assert FirstStateUrl([]) == None;
    var r1 := LoginShared(INITIAL, "alice", Found(u), Returned([]), contents, Returned(Some("g1")));
    assert r1.session.onShared && r1.session.state.gist.id == "g1";
    var r2 := AddIssue(r1.session, issue, titleLe, c);
    assert issue in multiset(r2.session.state.gist.issues);
  }

  /**
    With the fresh empty document, whatever a signed-in account does to its
    document stays out of the empty state: signing out from a session whose
    shared document was untouched gives exactly the empty state.
   */
  lemma FreshDocumentLeavesSignOutEmpty(s: Session, token: string, user: User, listing: Attempt<seq<GitHub.Gist>>,
                                        contents: string -> Attempt<Option<GhttGist>>, created: Attempt<Option<string>>,
                                        issue: Issue, titleLe: (string, string) -> bool, c: Attempt<Option<string>>)
    requires s.shared == EMPTY_GIST
    requires token != EMPTY_TOKEN && !ReadGist(token, listing, contents, created).thrown
    ensures var r1 := Login(s, token, Found(user), listing, contents, created);
      var r2 := AddIssue(r1.session, issue, titleLe, c);
      && LoggedIn(r1.session.state) && !r1.session.onShared
      && Logout(r2.session).state == EMPTY_STATE
  {
  }
}
