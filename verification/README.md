# GitHub time tracker — a verified model of its core

The tracker is a single-page web application that records time spent on GitHub
issues. A running timer lives in a private "state" gist. Stopping the timer
posts a comment on the issue. The comment holds a one-line human description
and a fenced JSON block with the machine-readable record. A report later lists
every such comment of every issue assigned to the user.

This project models, as pure functions over immutable data, the deterministic
rules under that glue:

- `text.dfy` (module `Text`): the JavaScript string operations the code relies
  on, written out after the ECMAScript library over Unicode code points.
  These are `indexOf` with a clamped start,
  `substring`, `trim` over the JavaScript white-space set, `String(n)`,
  `padStart` and `join`. The module also holds `Option` and `Attempt` (a call
  that returned or threw).
- `sorting.dfy` (module `Sorting`): the stable `Array.prototype.sort` under a
  total preorder.
- `ratelimit.dfy` (module `RateLimit`): `monitorRatelimit`, which keeps one
  record per resource name and a "critical" flag.
- `github.ts` → `github.dfy` (module `GitHub`): the three page loops (issues,
  gists, comments), their error policies, `githubUpdateGist` and
  `getAuthorizationHeader`. A remote list endpoint is an oracle: the sequence
  of responses to pages 1, 2, … Pages past its end are empty.
- `timer.ts` → `timer.dfy` (module `Timer`): the two shape validators over a
  JSON value, date revival, building the comment text, and extracting the JSON
  text back out of a comment.
- `utils.ts` → `utils.dfy` (module `Utils`): `twoDigits`, `humanDuration`,
  `makeDPTime` and `formatDPTime` on integer milliseconds.
- `state.ts` → `state.dfy` (module `State`): the session operations. Each
  returns the new session and the remote calls it makes, in order. The answers
  to those calls are parameters. The session also tracks the one shared
  `EMPTY_GIST` object, which the code edits in place. The module also has
  the watcher's persistence rule.
- `reporter.ts` → `reporter.dfy` (module `Reporter`): the fold that turns
  (issue, comments) pairs into report rows, and `consolidate`.

Parameters stand for the parts the model does not contain:

- the transport: page oracles, and `Attempt` answers for single calls;
- the clock: "now" is an argument;
- `localeCompare`: a title comparison assumed to be a total preorder;
- `JSON.stringify` and `JSON.parse`, `Date.parse`, and the text of a date:
  the fields of `Timer.Codec`;
- the date and time renderings in the description: `Timer.Formats`.

Behaviour worth noting (the model follows the code):

- A document read from the state gist is used as read. Its embedded id is
  never compared with the gist's id or repaired.
- Nothing is re-read or compared before a write; there is no staleness check.
- Dropping the same issue twice is a no-op only when ids are unique
  (`State.DropTwiceIsNoop`). `addIssue` does not de-duplicate, and with two
  issues of one id the second drop removes the second copy
  (`State.DropTwiceWithDuplicateIds`).
- The gist listing lets its failures escape. When reading the state document
  fails, `readState` falls back to the empty state; it does not recreate the
  document.
- A comment listing that throws fails the whole report
  (`Reporter.ReportFromListings`).
- The state document is read back as parsed JSON, so a restored timer holds
  its start as text, and the active id after a page load is -1 whatever the
  document holds. Stopping such a timer throws when the start is rounded to
  the minute: the timer is cleared in the session, but no comment is posted
  and the gist is not written (`State.RestoredTimerCannotBeStopped`).
- `EMPTY_GIST` and `EMPTY_STATE` are single objects. The state ref wraps
  `EMPTY_STATE`, `readGist` returns `EMPTY_GIST` itself without a token or
  after creating a document, and `logout` reinstalls `EMPTY_STATE`. Every
  in-place edit of a session on that object edits the constant, so the
  signed-out state carries the last such account's id, issues and timer
  (`State.SharedDocumentOutlivesSignOut`). The watcher then compares that
  object with itself at sign-in and writes no gist
  (`State.LoginSharedCreatePersistsNothing`).

## Model

| member | source | states |
|---|---|---|
| RateLimit.Record | src/code/ratelimit.ts:21-47 | If one of the five `x-ratelimit-*` headers is missing, the monitor is unchanged. Otherwise, as a map, the resource's record is replaced by the new record, so no old field survives. Every other resource keeps its record. The map grows by at most one entry. The flag is true iff some record in the whole map has remaining/limit below one half. |
| RateLimit.InfoFrom | src/code/ratelimit.ts:26-30 | The new record's resource, used, limit and remaining are `Number` of their headers. Its reset instant is the reset header's epoch seconds in milliseconds, an invalid date (NaN) when that is not a number or lies outside the range of a `Date`. |
| RateLimit.ToNumber | src/code/ratelimit.ts:27-29 | `Number(text)` is NaN exactly when the text is not decimal integer text. Otherwise it is that integer, and negative zero when the text is a minus sign followed by zeros. |
| RateLimit.ToNumberOfIntToString | src/code/ratelimit.ts:27-29 | `Number` of the decimal numeral of an integer is that integer. |
| RateLimit.ResetInstant | src/code/ratelimit.ts:30 | A number of seconds gives the instant that many thousand milliseconds after the epoch, when it lies within the range of a `Date`. NaN, or an instant outside that range, gives an invalid date. The result is never negative zero. |
| RateLimit.Upsert | src/code/ratelimit.ts:32-38 | `Map.set` is a map update at the resource name. It introduces no record other than the new one. Its length grows by one iff the name was new. |
| RateLimit.UpsertDistinct | src/code/ratelimit.ts:32-38 | In a map without duplicate names, `set` keeps it duplicate-free, and the new record is the only one with its name. |
| RateLimit.AnyLow | src/code/ratelimit.ts:40-45 | `some` over the records is true iff some record is low. |
| RateLimit.RatioBelowHalf | src/code/ratelimit.ts:44 | NaN on either side makes the test false. For a finite non-zero limit the test agrees with the exact real quotient. A zero limit gives an infinite quotient, so the test holds iff remaining is non-zero and its sign differs from the zero's sign. |
| RateLimit.NegativeZeroLimit | src/code/ratelimit.ts:28-44 | A limit header "-0" makes a remaining of 1 low, while a limit header "0" does not. |
| RateLimit.RatioBelowHalfOnCounts | src/code/ratelimit.ts:44 | For non-negative counts, remaining/limit < 0.5 is `2 * remaining < limit`. |
| RateLimit.RecordKeepsValid | src/code/ratelimit.ts:32-45 | Each update keeps names distinct and keeps the flag equal to "some record in the map is low". |
| RateLimit.CriticalClearsWhenLastOffenderRecovers | src/code/ratelimit.ts:32-45 | The flag returns to false when the only low resource gets a record with enough quota, whatever its old record said. |
| RateLimit.CriticalExample | src/code/ratelimit.ts:40-45 | A at 20/100 plus B at 90/100 is critical, although the last update (B) is healthy. B alone is not critical. |
| GitHub.Paginate | src/code/github.ts:60-79 | A page loop asks for pages from the first on. Every page before the last continues the loop, and the last one does not. The loop failed iff the last response failed. The items are the concatenation of every successful page. |
| GitHub.GetAllIssues | src/code/github.ts:56-86 | Pages are requested until the first one with fewer than 30 issues. The result is a permutation of the concatenated pages, sorted by title. Any failure returns the empty list. The progress counter grows by the size of every page read, so on success by the number of issues returned. |
| GitHub.FinishIssues | src/code/github.ts:72-85 | After the loop, a failure gives the empty list. Otherwise the issues are a title-sorted permutation of the items read. The progress counter grows by the number of items read. |
| GitHub.SortIssues | src/code/github.ts:80 | Sorting by title keeps every issue with its multiplicity and yields a title-ordered list. Issues with equal titles keep their relative order. |
| GitHub.ByTitlePreorder | src/code/github.ts:80 | Comparing issues by title is a total preorder when the title comparison is one. |
| GitHub.GetAllGists | src/code/github.ts:88-108 | Requests continue past short non-empty pages and stop at the first empty page. The result is every page before it. A failure escapes to the caller. |
| GitHub.GistListingExample | src/code/github.ts:100-105 | 30 gists followed by an empty page gives 30 gists after 2 requests. |
| GitHub.GistListingContinuesPastShortPage | src/code/github.ts:103-105 | Two one-gist pages take three requests, because a short page does not stop the listing. |
| GitHub.IssueListingExample | src/code/github.ts:72-79 | 30 then 29 issues gives 59 issues after 2 requests. An empty first page gives nothing after 1 request. |
| GitHub.GetIssueComments | src/code/github.ts:110-136 | The call throws iff the issue has no repository or no owner (a missing name or login does not throw). Otherwise it reads pages until one has fewer than 30 comments. On a failure it returns the comments of the earlier pages. |
| GitHub.HasOwner | src/code/github.ts:139-140 | Reading the repository's name and the owner's login throws exactly when the repository or the owner is missing. |
| GitHub.UpdateGist | src/code/github.ts:37-48 | The update never throws. A success, or an error that carries a response, goes through the rate-limit monitor. An error without a response leaves the monitor unchanged. |
| GitHub.UpdateGistKeepsValid | src/code/github.ts:37-48 | A gist update keeps the rate-limit monitor's invariant, whatever its outcome. |
| GitHub.AuthorizationHeader | src/code/github.ts:159-161 | The header is "token " followed by the explicit token when one is given, even an empty one, and otherwise by the session token. |
| Sorting.SortBy | src/code/state.ts:69 | The stable sort returns a permutation of its input, ordered under any total preorder. For every element, the elements that tie with it appear in the same order as in the input. |
| Utils.TwoDigits | src/code/utils.ts:19-21 | For 0..9 the result is "0" and the digit. For 10 and above it is the full decimal numeral, never truncated. Its length is max(2, length of `String(n)`). |
| Utils.TwoDigitsRoundTrip | src/code/utils.ts:19-21 | For 0..99 the result is two digits that read back as n. |
| Utils.ClockStringRoundTrip | src/code/utils.ts:16 | "a:b" of two fields below 100 is five characters with a colon in the middle, and both fields read back. |
| Utils.TruncRem | src/code/utils.ts:14 | JavaScript `%`: the dividend minus the result is the divisor times the quotient rounded toward zero. The result takes the sign of the dividend, and its magnitude stays below the divisor. |
| Utils.DurationFieldsExact | src/code/utils.ts:11-17 | For a span of zero or more, the minutes field lies in 0..59. Hours × 60 + minutes equals the whole minutes of the span, so leftover seconds are dropped. |
| Utils.DurationFieldsNegative | src/code/utils.ts:11-17 | For a negative span, hours are negative and minutes lie in -60..0. |
| Utils.HumanDuration | src/code/utils.ts:11-17 | A span of zero or more shows its whole minutes as whole hours, a colon, and the minutes of the hour. A negative span starts with a minus sign. |
| Utils.HumanDurationShape | src/code/utils.ts:11-17 | A span under 100 hours renders as "hh:mm", and the fields read back to the span's whole minutes. |
| Utils.MakeDPTime | src/code/utils.ts:25-30 | The picker time stores its arguments unchanged. |
| Utils.FormatDPTime | src/code/utils.ts:32-34 | For fields in 0..99 the text is "hh:mm", and both fields read back. |
| Text.IndexOf | src/code/timer.ts:42-43 | `indexOf` gives the first occurrence at or after the clamped start, or -1 when there is none there. |
| Text.Substring | src/code/timer.ts:45 | `substring` on ordered in-range bounds is the slice. |
| Text.Trim | src/code/timer.ts:45 | `trim` yields a slice of the text with only white space before and after it, and no white space at either of its ends. Text without such white space is unchanged. |
| Text.TrimUnique | src/code/timer.ts:45 | Any slice with only white space around it and none at its own ends is what `trim` gives. |
| Text.TrimDropsNewlines | src/code/timer.ts:45 | Trimming a line break on each side of trimmed text gives the text back. |
| Text.IntToStringRoundTrip | src/code/utils.ts:20 | `String(n)` reads back as n. |
| Text.IntToString | src/code/utils.ts:20 | `String(n)` of an integer is a minus sign exactly for negative n, followed by decimal digits with no leading zero. |
| Text.Join | src/code/timer.ts:88 | `join` of no parts is empty, and of one part is that part. |
| Text.JoinLength | src/code/timer.ts:88 | A join of some parts is as long as the parts together plus one separator between each neighbouring pair. |
| Text.JoinSnoc | src/code/timer.ts:88 | Joining one more part appends a separator and that part. |
| Text.PadStart | src/code/utils.ts:20 | `padStart` pads on the left with the fill character to the width, and keeps the text as the suffix. |
| Timer.ToGhttInfo | src/code/timer.ts:19-27 | Accepts iff the value is an object with a string type, a number version, a date `date` and a string user. The header then holds exactly those four values of the object. |
| Timer.ToTimerInfo | src/code/timer.ts:29-35 | Accepts iff `toGhttInfo` accepts, the type is "TimerInfo", and begin and end are dates. The record then holds the header `toGhttInfo` read and the object's begin and end. |
| Timer.TimerInfoRoundTrip | src/code/timer.ts:19-35 | A record's object passes `toGhttInfo` unchanged. It passes `toTimerInfo` unchanged exactly when its type is TimerInfo. |
| Timer.ExtraFieldsIgnored | src/code/timer.ts:19-35 | Properties other than the six checked ones do not change either verdict. |
| Timer.Revive | src/code/timer.ts:94-103 | Every property of an object, and every item of an array, becomes the revived old value. Property names and array length are kept. A value that is neither an object nor an array is unchanged. |
| Timer.ReviveValue | src/code/timer.ts:95-100 | A string that `Date.parse` accepts becomes that date. Any other string stays. An object keeps its property names, an array its length, and any other value is unchanged. |
| Timer.ReviveStoredRecord | src/code/timer.ts:94-103 | Reviving the stringified record gives the in-memory record back, when date texts parse back and the type and login do not look like dates. |
| Timer.DateLikeLoginIsRejected | src/code/timer.ts:96-97 | A login that `Date.parse` accepts is turned into a date, and the record is then rejected. |
| Timer.MakeInfoString | src/code/timer.ts:72-76 | The comment starts with the description and ends with the closing fence, 13 characters longer than its two parts. |
| Timer.ExtractJsonText | src/code/timer.ts:41-45 | Without a "```json" marker nothing is extracted. Extracted text is trimmed. |
| Timer.ExtractedBetween | src/code/timer.ts:42-45 | The extracted text is the trimmed body between the end of the first "```json" and the first "```" at or after it. |
| Timer.NoClosingFence | src/code/timer.ts:43-44 | Without a "```" after the first marker, nothing is extracted. |
| Timer.InfoStringRoundTrip | src/code/timer.ts:41-45 | The JSON text of an encoded comment is extracted unchanged. This holds when the description has no "```json", the JSON has no "```", and the JSON has no surrounding white space. |
| Timer.ExtractTimerInfo | src/code/timer.ts:41-53 | Nothing is returned without extracted text. Whatever is returned is a record of type TimerInfo. |
| Timer.FloorToMinute | src/code/timer.ts:56-57 | `setSeconds(0, 0)` gives the whole minute at or before the instant. |
| Timer.MakeTimerInfo | src/code/timer.ts:55-70 | The record has type TimerInfo, version 1, the given instant and login. Begin and end are rounded down to whole minutes. |
| Timer.MakeHumanDescription | src/code/timer.ts:78-91 | Any type other than TimerInfo gives "ERROR". A TimerInfo gives the clock emoji, a space, "@" and the login first. |
| Timer.MakeTimerInfoString | src/code/timer.ts:37-39 | The comment posted for a span starts with the clock emoji, a space, "@" and the login, and ends with the closing fence. |
| Timer.DescriptionNoBacktick | src/code/timer.ts:78-91 | The description has no backtick when the login and the date and time texts have none. |
| Timer.TimerCommentRoundTrip | src/code/timer.ts:37-53 | The comment posted for a span is read back by the extractor as the record it was made from. The conditions are: JSON output parses back, date texts parse back, and the login and date texts carry no backticks and do not look like dates. |
| State.WriteGist | src/code/state.ts:159-174 | A document without an id first gets one create call. The answered id, or "" when there is none, is stored in the document. A failed create throws before any update. Otherwise exactly one update follows, to the document's final id. Only the id changes. |
| State.WriteTheGist | src/code/state.ts:155-157 | The session's document is written with the session's token. An update alone when it has an id, which changes nothing in the session. Without an id, a create comes first. Its answered id, or "" when there is none, is stored in the document, and in the shared document when the session is on it. A failed create throws after that one call and leaves the document unchanged. Issues, timer, token, user and active id are kept. |
| State.AddIssue | src/code/state.ts:67-71 | The issue list becomes a title-sorted permutation of the old list plus the issue, one longer. Duplicates are kept. Timer, token and active id are untouched. One update follows; the call throws, with no update, exactly when the document has no id and its create throws. |
| State.AddIssueKeepsDuplicates | src/code/state.ts:67-70 | Adding a tracked issue again leaves two copies. |
| State.FindIndexById | src/code/state.ts:74 | `findIndex` gives the first position with the id, or -1 iff there is none. |
| State.DropIssue | src/code/state.ts:73-79 | Only the first issue with the id is removed, and the rest stay in order. One update follows; the call throws, with no update, exactly when the document has no id and its create throws. Without a match nothing changes and nothing is written. |
| State.DropTwiceIsNoop | src/code/state.ts:73-79 | With unique ids, a second drop of the same issue changes nothing and writes nothing. |
| State.DropTwiceWithDuplicateIds | src/code/state.ts:73-79 | With two issues of one id, the second drop removes the second one too. |
| State.GetIssueState | src/code/state.ts:81-84 | NONE iff the active id is -1. ME iff it is the issue's id. OTHER otherwise. |
| State.StartTimer | src/code/state.ts:100-109 | Any running timer is overwritten by (issue, the `Date` at). The active id becomes the issue's id. The issues and token are kept, and no comment is posted. An edit of the shared document lands in it. The gist write throws exactly when the document has no id and its create throws. |
| State.StopTimer | src/code/state.ts:111-123 | With a running timer, it is cleared and the active id becomes -1. When its start is a `Date` and its issue has a repository and owner, exactly one comment is posted, for its issue and covering its start to the end. The gist write follows, with one update unless its create throws. When the start is a date's text, or the issue lacks a repository or owner, the call throws before any remote call and the gist is not written. Without a running timer nothing happens. |
| State.RestoredTimerCannotBeStopped | src/code/state.ts:111-121 | After a page load and a sign-in, a timer restored from the parsed document reads NONE for its own issue. Stopping it throws with no comment posted and no gist written, and the timer is gone from the session. |
| State.StartedIssueIsMine | src/code/state.ts:81-108 | After a start, the started issue reads ME and every issue with another id reads OTHER. |
| State.StoppedIssueIsNone | src/code/state.ts:81-118 | After a stop, every issue reads NONE. |
| State.RestartPostsOnlyLastTimer | src/code/state.ts:100-123 | Start A, start B, then stop posts a single entry, for B from B's start. A's running time is lost. |
| State.StateUrls | src/code/state.ts:179 | No URL is found iff no state gist has files. |
| State.FirstStateUrlIsFirstFile | src/code/state.ts:179 | The URL read is the first file of the first state gist that has files. |
| State.Fetched | src/code/state.ts:179-182 | The stored document is read from the first state file's URL. Without such a file, or with an empty URL, no document is found and nothing is read. |
| State.ReadGistShared | src/code/state.ts:176-190 | As written. No token: no calls, and the shared document itself. A failed listing or content read throws with no calls. A stored document with content is returned with no calls. Otherwise the shared document is written: a create only when it has no id, then an update. It keeps the created id and is returned as the session's document. Only its id ever changes. |
| State.ReadGist | src/code/state.ts:176-190 | With a fresh empty document. No token: no calls and the empty document. A failed listing or content read throws with no calls. A stored document with content is returned with no calls. Otherwise an empty document is created and updated under the new id, and returned; a failed create throws after the one call. |
| State.ReadGistReturnsStoredDocument | src/code/state.ts:180-185 | A found document with content is returned as is, with no write. |
| State.AsText | src/code/state.ts:163 | The document read back from its JSON text keeps its id and issues. A `Date` start comes back as its text. It is the document itself exactly when no start is a `Date`. |
| State.Replace | src/code/github.ts:37-39 | An update to a gist id rewrites the document of the gists with that id and leaves the rest of the store as it was. |
| State.Apply | src/code/state.ts:159-174 | A create adds a gist with the answered id and its file URL; an update keeps the number of gists; a comment does not touch the store. |
| State.Listing | src/code/state.ts:178-179 | The listing of the store shows every stored gist as a state gist whose one file is at the stored URL. |
| State.ReadFirstStored | src/code/state.ts:176-185 | A read from the store answers the document of the first listed state gist, as parsed back, with no calls. |
| State.WriteThenReadStored | src/code/state.ts:159-185 | Writing a document that the first listed state gist holds makes one update. Reading afterwards gives the document back as parsed from JSON, which is the document itself exactly when no start is a `Date`. |
| State.WriteThenReadCreated | src/code/state.ts:159-185 | With no state gist in the store and a create answering an id, the write leaves one state gist holding the document with that id. Reading afterwards gives that document back as parsed from JSON. |
| State.SharedEmptyLeaksAcrossAccounts | src/code/state.ts:187 | The as-written read for a second account without a state gist issues no create. It updates the first account's gist and takes its id. |
| State.FreshEmptyCreatesPerAccount | src/code/state.ts:187 | With a fresh empty document, every account without a state gist gets its own create. |
| State.UserLogin | src/code/state.ts:59-61 | The user's login, or "???" when there is no user or no login. |
| State.LoggedIn | src/code/state.ts:86-88 | Signed in iff the token is non-empty. |
| State.ReadState | src/code/state.ts:139-153 | A new state with the token, user and document exactly when the lookup finds a user and the read does not throw. The empty state object otherwise. The read's calls are made only when a user was found. |
| State.Login | src/code/state.ts:90-94 | Signing in never throws and keeps the active id. It is signed in iff a user was found, the token is non-empty and the read did not throw. When a user was found and the read did not throw, the session holds that token, user and document, off the shared document. When no user is found or the read throws, it is the signed-out state. The shared document is untouched. |
| State.LoginShared | src/code/state.ts:90-94 | As written. Signing in never throws and keeps the active id. It is signed in iff a user was found, the token is non-empty and the read did not throw. The session then holds the shared document exactly when the read returned it. The shared document changes at most in its id. |
| State.Logout | src/code/state.ts:96-98 | Afterwards the session is signed out with no user, and its document is whatever the shared document holds by then. That is the empty document only when the shared one was never edited. The active id is kept. |
| State.SignedOut | src/code/state.ts:37-40 | The empty state holds no token, no user and the shared document. It equals the declared empty state only while the shared document is unedited. |
| State.SetGist | src/code/state.ts:68 | An in-place edit of the session's document also edits the shared document exactly when the session is on it. |
| State.WatchDecision | src/code/state.ts:126-133 | The token is saved iff it changed. The gist is written iff a token is present and the document changed. |
| State.LogoutPersistsOnlyToken | src/code/state.ts:126-133 | Signing out saves the token and writes no gist. |
| State.SameObjectPersistsNothing | src/code/state.ts:126-133 | An in-place mutation, seen as the same old and new value, persists nothing through the watcher. |
| State.LoginPersists | src/code/state.ts:126-133 | With the fresh empty document, signing in from a signed-out session saves the token, and writes the gist iff the document read differs from the old one. |
| State.SeenBefore | src/code/state.ts:126-133 | The watcher compares the old state's current content: an old state on the shared document shows that document as it is after the change. |
| State.LoginSharedCreatePersistsNothing | src/code/state.ts:126-133 | As written, signing in from the empty state without a stored document signs in on the shared document, saves the token, and writes no gist. |
| State.SharedDocumentOutlivesSignOut | src/code/state.ts:187-189 | As written, an account created at sign-in tracks an issue and signs out. The signed-out state then holds its gist id and the issue, and the next account without a stored document updates that gist with that content. |
| State.FreshDocumentLeavesSignOutEmpty | src/code/state.ts:187-189 | With the fresh empty document, a signed-in account is off the shared document, and signing out after it edits its document gives exactly the empty state. |
| Reporter.OwnerOf | src/code/reporter.ts:50 | The owner's login, or "unknown" when the repository, owner or login is missing. |
| Reporter.RepoOf | src/code/reporter.ts:51 | The repository's name, or "unknown" when the repository or name is missing. |
| Reporter.EntriesOfComment | src/code/reporter.ts:45-58 | A comment gives one row iff it has a non-empty body from which a record is extracted. The row takes user and span from the record and number and title from the issue. |
| Reporter.EntriesOfIssue | src/code/reporter.ts:44-61 | An issue gives at most one row per comment. Every row carries the issue's owner, repository, number and title. |
| Reporter.EntriesOfIssueAppend | src/code/reporter.ts:44-61 | Rows follow comment order: the rows of a + b are those of a, then those of b. |
| Reporter.EntriesOfIssueCount | src/code/reporter.ts:45-48 | An issue has exactly as many rows as comments that carry a record. |
| Reporter.SingleComment | src/code/reporter.ts:45-58 | A missing or empty body, or a body without a record, gives no row. Otherwise there is exactly the record's row. |
| Reporter.EntryList | src/code/reporter.ts:41-61 | The fold yields exactly one row for every comment, over all issues, that carries a record. |
| Reporter.EntryListAppend | src/code/reporter.ts:41-62 | Rows follow issue order: the rows of p + q are those of p, then those of q. |
| Reporter.Consolidate | src/code/reporter.ts:67-69 | The list is returned unchanged. |
| Reporter.ReportFromListings | src/code/reporter.ts:34-65 | The report fails iff the comment listing of some issue throws. |
| Reporter.ReportIsEntryList | src/code/reporter.ts:34-65 | A report that does not fail is the row fold over each issue with its fetched comments, in issue order. |

## Left out

- HTTP transport (axios), URLs, query parameters and status handling. These
  are replaced by page oracles and `Attempt` answers.
- The rate-limit log line and the `Date` object of the reset instant. `reset`
  is kept as milliseconds.
- RateLimit.ToNumber: only integer decimal text is converted. Empty text,
  surrounding white space, fractions, exponents and hexadecimal, which
  `Number` also accepts, become NaN in the model. The model keeps the exact
  integer, whereas `Number` rounds integers above 2^53 to the nearest double
  and gives Infinity for numerals beyond about 1.8e308. The same holds for
  RateLimit.ToNumberOfIntToString.
- RateLimit.RatioBelowHalf: the test `remaining / limit < 0.5` is decided
  on the exact quotient, with negative zero and zero limits handled as
  JavaScript's division would. It agrees with the floating-point quotient
  for counts below 2^53; larger counts, where doubles lose precision, are
  not modelled.
- RateLimit.Record: only gist updates feed the monitor in this model. The
  code also feeds it from the user lookup, the gist create, the content
  read, every page of the three listings and the comment post
  (github.ts:27, 33, 52, 71, 99, 125 and 146). Those calls appear as
  `Attempt` answers, and the monitor is not threaded through them.
- Text: strings are sequences of Unicode code points, where JavaScript
  counts UTF-16 code units. Positions from `indexOf` and `substring` agree
  only for text inside the Basic Multilingual Plane. Every pattern searched
  for and every white-space character is a single code unit.
- Text.IntToString: `String(n)` switches to exponent notation from 1e21 on.
  The model always writes the full decimal numeral.
- `localeCompare`, `JSON.stringify`, `JSON.parse`, `Date.parse` and the date
  text, and date-fns `format` (`humanDate`, `humanTime`) are parameters.
- Timer.Revive: a top-level primitive is returned unchanged. JavaScript would
  iterate its characters, and could throw when one of them reads as a date.
  Either way no record results, so extraction is unaffected.
- Timer.Json: numbers are integers. A fractional `version` is outside the
  model.
- Timer.FloorToMinute: `setSeconds(0, 0)` works in local time. The model
  rounds down in whole minutes of the epoch, which agrees for every time zone
  whose offset is a whole number of minutes.
- Timer.MakeTimerInfo mutates the caller's `Date` objects in place. The model
  returns new values. No later reader of those objects exists.
- `encrypt`/`decrypt` (WebCrypto) and the cookie in `localStorage`. The
  watcher's decision says when the token is saved, not how.
- `trace` logging, and `getUserName`.
- Vue reactivity and scheduling. The watcher is modelled only as the decision
  on an (old, new) pair. The model does not count how many writes happen when
  an operation's own gist write and the watcher's both fire. Concurrent
  asynchronous writes are not modelled.
- State.WatchDecision: "serialisation changed" is modelled as inequality of
  the values, assuming `JSON.stringify` is injective on states.
- State.ReadGistShared: the document fetched from the raw URL is taken as a
  well-formed state document or nothing. The code does not validate it.
- The ExcelJS workbook, the file download and the progress bar of the report.
  The workbook's column list is taken from the keys of an empty object
  (reporter.ts:20-25), so it has no columns. How ExcelJS then fills the rows
  is outside the model.
- State.Login, State.ReadGist: the rest of the model reads the state gist
  with a fresh empty document (see Findings). The shared `EMPTY_STATE` and
  `EMPTY_GIST` objects are still modelled for every in-place edit and for
  `logout`. Only `State.LoginShared` reads with the shared document.
- State.WriteGist: the write-then-read round trip is stated over a small
  store (`StoredGist`, `Apply`, `Listing`, `Contents`). A gist's file URL is
  a parameter, and JSON text is modelled only as far as a `Date` start
  coming back as its text. The read answers the first listed state gist, so
  the round trip is proved only when the written gist is listed first or is
  the only one. A failed update and the gist's description and visibility
  are not part of the store.
- State.StopTimer: rounding the end instant also mutates the caller's `Date`;
  the end is an argument, and the model keeps it as a value.
- `makeTimerInfoString` in the posted comment: the `PostComment` action
  carries the issue and the span. The comment text for a span is
  `Timer.MakeTimerInfoString`.
- `yesterday()` and `Date.now()` cache-busting parameters (clock).

## Findings

| source | as written | input that shows it | evidently intended | confidence | as-written member | corrected member |
|---|---|---|---|---|---|---|
| src/code/state.ts:187 | `readGist` hands the shared `EMPTY_GIST` constant to `writeGist`. `writeGist` stores the created gist id into that object (state.ts:168), and `readGist` then returns it, so the constant keeps the id. | Account "alice" has no state gist, and the create answers "g1". Then account "bob" (same page, no reload) has no state gist. | Every account without a state gist gets its own create and a document with its own id. Instead "bob" gets no create, and bob's empty document is sent as an update to gist "g1". | likely; not executed | State.SharedEmptyLeaksAcrossAccounts | State.ReadGist |
| src/code/state.ts:189 | After creating a document, `readGist` returns the shared `EMPTY_GIST` object itself, so the signed-in session edits that constant in place. `logout` (state.ts:96-98) reinstalls `EMPTY_STATE`, which holds it. | Account "alice" has no state gist, the create answers "g1", an issue is added, and the account signs out. | The signed-out state is empty. Instead it holds gist id "g1" and the issue, and the next account without a state gist sends that content as an update to gist "g1". | likely; not executed | State.SharedDocumentOutlivesSignOut | State.FreshDocumentLeavesSignOutEmpty |
