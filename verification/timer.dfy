/**
  Timer entries as issue comments.  A stopped timer is posted as a comment
  made of a one-line human description followed by a fenced JSON block that
  carries the machine-readable record; the report reads the record back out of
  each comment.  JSON itself (`JSON.stringify`, `JSON.parse`) and date
  parsing and formatting are parameters of the model.
 */
module Timer {
  import opened Text
  import Utils

  /** Opening fence of the machine-readable block; seven characters, the `7` of the extractor. */
  const JSON_MARKER: string := "```json"
  /** Closing fence. */
  const FENCE: string := "```"
  const TIMER_INFO_TYPE: string := "TimerInfo"
  const TIMER_INFO_VERSION: int := 1
  /** The clock emoji at the start of every description (U+1F559). */
  const TIMER_INFO_EMOJI: char := '\U{1F559}'
  /** Field separator of the description: a small black square between spaces. */
  const SEP: string := " \U{25AA} "
  const ERROR_TEXT: string := "ERROR"

  // ---------------------------------------------------------------------------
  // JSON values

  /**
    A parsed JSON value.  `JDate` stands for a `Date` object: it never comes
    out of the parser, only out of `Revive`.  Numbers are integers.
   */
  datatype Json =
    | JNull
    | JBool(b: bool)
    | JNumber(n: int)
    | JString(s: string)
    | JDate(ms: int)
    | JArray(items: seq<Json>)
    | JObject(fields: map<string, Json>)

  /** The JSON library and the date parser/formatter the encoding relies on. */
  datatype Codec = Codec(
    stringify: Json -> string,          // JSON.stringify(_, null, 2)
    parse: string -> Option<Json>,      // JSON.parse; None when it throws
    iso: int -> string,                 // the text a Date serialises to
    parseDate: string -> Option<int>)   // Date.parse; None for NaN

  /** The date and time renderings used in the description (`humanDate`, `humanTime`). */
  datatype Formats = Formats(date: int -> string, time: int -> string)

  /** Property `key` of `o`, when `o` is an object that has it. */
  function Field(o: Json, key: string): Option<Json> {
    if o.JObject? && key in o.fields then Some(o.fields[key]) else None
  }

  predicate HasString(o: Json, key: string) {
    Field(o, key).Some? && Field(o, key).value.JString?
  }

  predicate HasNumber(o: Json, key: string) {
    Field(o, key).Some? && Field(o, key).value.JNumber?
  }

  predicate HasDate(o: Json, key: string) {
    Field(o, key).Some? && Field(o, key).value.JDate?
  }

  // ---------------------------------------------------------------------------
  // Records

  /** The header every stored record carries. */
  datatype GhttInfo = GhttInfo(kind: string, version: int, date: int, user: string)

  /** A timer record: the header plus the timed span, instants in milliseconds. */
  datatype TimerInfo = TimerInfo(info: GhttInfo, begin: int, end: int)

  /**
    `toGhttInfo(o)`: the header of `o` when `o` is an object with a string
    type, a number version, a date and a string user; the header's fields are
    those properties of `o`.
   */
  function ToGhttInfo(o: Json): (r: Option<GhttInfo>)
    ensures r.Some? <==>
      o.JObject? && HasString(o, "type") && HasNumber(o, "version") && HasDate(o, "date") && HasString(o, "user")
    ensures r.Some? ==>
      && Field(o, "type") == Some(JString(r.value.kind))
      && Field(o, "version") == Some(JNumber(r.value.version))
      && Field(o, "date") == Some(JDate(r.value.date))
      && Field(o, "user") == Some(JString(r.value.user))
  {
    if o.JObject? && HasString(o, "type") && HasNumber(o, "version") && HasDate(o, "date") && HasString(o, "user")
    then Some(GhttInfo(o.fields["type"].s, o.fields["version"].n, o.fields["date"].ms, o.fields["user"].s))
    else None
  }

  /**
    `toTimerInfo(o)`: a timer record when `o` is a header of type TimerInfo
    with begin and end dates; the span is those two dates of `o`.
   */
  function ToTimerInfo(o: Json): (r: Option<TimerInfo>)
    ensures r.Some? <==>
      && ToGhttInfo(o).Some?
      && o.fields["type"] == JString(TIMER_INFO_TYPE)
      && HasDate(o, "begin") && HasDate(o, "end")
    ensures r.Some? ==> r.value.info == ToGhttInfo(o).value && r.value.info.kind == TIMER_INFO_TYPE
    ensures r.Some? ==>
      && Field(o, "begin") == Some(JDate(r.value.begin))
      && Field(o, "end") == Some(JDate(r.value.end))
  {
    var g := ToGhttInfo(o);
    if g.Some? && o.fields["type"] == JString(TIMER_INFO_TYPE) && HasDate(o, "begin") && HasDate(o, "end")
    then Some(TimerInfo(g.value, o.fields["begin"].ms, o.fields["end"].ms))
    else None
  }

  /** The object a timer record is held as in memory, dates as `Date` objects. */
  function TimerInfoJson(t: TimerInfo): (j: Json)
    ensures j.JObject?
  {
    JObject(map[
      "type" := JString(t.info.kind),
      "version" := JNumber(t.info.version),
      "date" := JDate(t.info.date),
      "user" := JString(t.info.user),
      "begin" := JDate(t.begin),
      "end" := JDate(t.end)])
  }

  /** The same object after `JSON.stringify` turned each date into its text. */
  function StoredJson(t: TimerInfo, iso: int -> string): (j: Json)
    ensures j.JObject?
  {
    JObject(map[
      "type" := JString(t.info.kind),
      "version" := JNumber(t.info.version),
      "date" := JString(iso(t.info.date)),
      "user" := JString(t.info.user),
      "begin" := JString(iso(t.begin)),
      "end" := JString(iso(t.end))])
  }

  /** The validators accept exactly the records of type TimerInfo and give them back unchanged. */
  lemma TimerInfoRoundTrip(t: TimerInfo)
    ensures ToGhttInfo(TimerInfoJson(t)) == Some(t.info)
    ensures ToTimerInfo(TimerInfoJson(t)) == if t.info.kind == TIMER_INFO_TYPE then Some(t) else None
  {
    var o := TimerInfoJson(t);
    assert HasString(o, "type") && HasNumber(o, "version") && HasDate(o, "date") && HasString(o, "user");
    assert HasDate(o, "begin") && HasDate(o, "end");
  }

  /** Properties other than the six the validators read do not change their verdict. */
  lemma ExtraFieldsIgnored(m: map<string, Json>, key: string, v: Json)
    requires key !in {"type", "version", "date", "user", "begin", "end"}
    ensures ToGhttInfo(JObject(m[key := v])) == ToGhttInfo(JObject(m))
    ensures ToTimerInfo(JObject(m[key := v])) == ToTimerInfo(JObject(m))
  {
    var a, b := JObject(m[key := v]), JObject(m);
    assert forall k :: k != key ==> Field(a, k) == Field(b, k);
  }

  // ---------------------------------------------------------------------------
  // Reviving dates

  /**
    `postprocessDates(o)`: every string property that `Date.parse` accepts
    becomes a date, and nested objects and arrays are treated the same way.
    A value that is not an object or array is returned unchanged.
   */
  function Revive(o: Json, parseDate: string -> Option<int>): (r: Json)
    ensures o.JObject? <==> r.JObject?
    ensures o.JObject? ==> r.fields.Keys == o.fields.Keys
    ensures o.JObject? ==> forall k :: k in o.fields ==> r.fields[k] == ReviveValue(o.fields[k], parseDate)
    ensures o.JArray? <==> r.JArray?
    ensures o.JArray? ==> |r.items| == |o.items|
    ensures o.JArray? ==> forall i :: 0 <= i < |o.items| ==> r.items[i] == ReviveValue(o.items[i], parseDate)
    ensures !o.JObject? && !o.JArray? ==> r == o
    decreases o, 0
  {
    match o
    case JObject(m) => JObject(map k | k in m :: ReviveValue(m[k], parseDate))
    case JArray(xs) => JArray(seq(|xs|, i requires 0 <= i < |xs| => ReviveValue(xs[i], parseDate)))
    case _ => o
  }

  /** One property value under `postprocessDates`. */
  function ReviveValue(v: Json, parseDate: string -> Option<int>): (r: Json)
    ensures v.JString? && parseDate(v.s).Some? ==> r == JDate(parseDate(v.s).value)
    ensures v.JString? && parseDate(v.s).None? ==> r == v
    ensures v.JObject? ==> r.JObject? && r.fields.Keys == v.fields.Keys
    ensures v.JArray? ==> r.JArray? && |r.items| == |v.items|
    ensures !v.JString? && !v.JObject? && !v.JArray? ==> r == v
    decreases v, 1
  {
    match v
    case JString(s) => if parseDate(s).Some? then JDate(parseDate(s).value) else v
    case JObject(_) => Revive(v, parseDate)
    case JArray(_) => Revive(v, parseDate)
    case _ => v
  }

  /**
    Reviving the stored form gives back the in-memory record, provided the date
    texts parse back to their instants and neither the type nor the login looks
    like a date.
   */
  lemma ReviveStoredRecord(t: TimerInfo, c: Codec)
    requires c.parseDate(c.iso(t.info.date)) == Some(t.info.date)
    requires c.parseDate(c.iso(t.begin)) == Some(t.begin)
    requires c.parseDate(c.iso(t.end)) == Some(t.end)
    requires c.parseDate(t.info.kind).None? && c.parseDate(t.info.user).None?
    ensures Revive(StoredJson(t, c.iso), c.parseDate) == TimerInfoJson(t)
  {
    var s := StoredJson(t, c.iso);
    var r := Revive(s, c.parseDate);
    var e := TimerInfoJson(t);
    assert r.fields.Keys == e.fields.Keys;
    assert r.fields["type"] == ReviveValue(s.fields["type"], c.parseDate) == e.fields["type"];
    assert r.fields["version"] == ReviveValue(s.fields["version"], c.parseDate) == e.fields["version"];
    assert r.fields["date"] == ReviveValue(s.fields["date"], c.parseDate) == e.fields["date"];
    assert r.fields["user"] == ReviveValue(s.fields["user"], c.parseDate) == e.fields["user"];
    assert r.fields["begin"] == ReviveValue(s.fields["begin"], c.parseDate) == e.fields["begin"];
    assert r.fields["end"] == ReviveValue(s.fields["end"], c.parseDate) == e.fields["end"];
    assert r.fields == e.fields;
  }

  /**
    A login that `Date.parse` accepts is turned into a date, after which the
    record is no longer accepted.
   */
  lemma DateLikeLoginIsRejected(o: Json, parseDate: string -> Option<int>)
    requires HasString(o, "user") && parseDate(o.fields["user"].s).Some?
    ensures ToTimerInfo(Revive(o, parseDate)) == None
  {
    var r := Revive(o, parseDate);
    assert r.fields["user"] == ReviveValue(o.fields["user"], parseDate);
  }

  // ---------------------------------------------------------------------------
  // The comment text

  /** `makeInfoString`: the description, then the JSON text in a fenced block. */
  function MakeInfoString(human: string, json: string): (r: string)
    ensures |r| == |human| + |json| + 13
    ensures r[..|human|] == human && r[|r| - |FENCE|..] == FENCE
  {
    human + "\n```json\n" + json + "\n```"
  }

  /**
    `extractTimerInfo` up to the parser: the text between the end of the first
    "```json" and the next "```" at or after it, trimmed.  None when either
    fence is missing.
   */
  function ExtractJsonText(body: string): (r: Option<string>)
    ensures !Contains(body, JSON_MARKER) ==> r.None?
    ensures r.Some? ==> Trimmed(r.value)
  {
    var jsonStart := IndexOf(body, JSON_MARKER, 0) + 7;
    var jsonEnd := IndexOf(body, FENCE, jsonStart);
    if 7 <= jsonStart && jsonEnd != -1 then Some(Trim(Substring(body, jsonStart, jsonEnd)))
    else None
  }

  /** With the first marker at `i` and the first closing fence after it at `e`, the text between them is extracted. */
  lemma ExtractedBetween(body: string, i: nat, e: nat)
    requires OccursAt(body, JSON_MARKER, i)
    requires forall k :: 0 <= k < i ==> !OccursAt(body, JSON_MARKER, k)
    requires i + 7 <= e && OccursAt(body, FENCE, e)
    requires forall k :: i + 7 <= k < e ==> !OccursAt(body, FENCE, k)
    ensures ExtractJsonText(body) == Some(Trim(body[i + 7..e]))
  {
    IndexOfFinds(body, JSON_MARKER, 0, i);
    IndexOfFinds(body, FENCE, i + 7, e);
  }

  /** With no closing fence after the first marker nothing is extracted. */
  lemma NoClosingFence(body: string, i: nat)
    requires OccursAt(body, JSON_MARKER, i)
    requires forall k :: 0 <= k < i ==> !OccursAt(body, JSON_MARKER, k)
    requires forall k :: i + 7 <= k <= |body| ==> !OccursAt(body, FENCE, k)
    ensures ExtractJsonText(body) == None
  {
    IndexOfFinds(body, JSON_MARKER, 0, i);
  }

  /** When `body` starts with `human`, a line break and the marker, the first marker is that one. */
  lemma FirstMarkerAfterDescription(body: string, human: string)
    requires !Contains(human, JSON_MARKER)
    requires |body| >= |human| + 8 && body[..|human|] == human
    requires body[|human|] == '\n' && body[|human| + 1..|human| + 8] == JSON_MARKER
    ensures OccursAt(body, JSON_MARKER, |human| + 1)
    ensures forall k :: 0 <= k < |human| + 1 ==> !OccursAt(body, JSON_MARKER, k)
  {
    var h := |human|;
    forall k | 0 <= k < h + 1 ensures !OccursAt(body, JSON_MARKER, k) {
      if k + 7 <= h {
        assert body[k..k + 7] == human[k..k + 7];
        assert !OccursAt(human, JSON_MARKER, k);
      } else {
        NoOccurrenceOver(body, JSON_MARKER, k, h, '\n');
      }
    }
  }

  /**
    When `body` continues from `p` with a line break, `json`, a line break and
    the closing fence, the first fence from `p` on is that final one.
   */
  lemma FirstFenceAfterJson(body: string, p: nat, json: string)
    requires !Contains(json, FENCE)
    requires |body| == p + |json| + 5
    requires body[p] == '\n' && body[p + 1..p + 1 + |json|] == json
    requires body[p + 1 + |json|] == '\n' && body[p + 2 + |json|..] == FENCE
    ensures OccursAt(body, FENCE, p + |json| + 2)
    ensures forall k :: p <= k < p + |json| + 2 ==> !OccursAt(body, FENCE, k)
  {
    var e := p + |json| + 2;
    forall k | p <= k < e ensures !OccursAt(body, FENCE, k) {
      if k == p {
        NoOccurrenceOver(body, FENCE, k, p, '\n');
      } else if k + 3 <= p + 1 + |json| {
        var j := k - p - 1;
        var window, inside := body[k..k + 3], json[j..j + 3];
        assert window == inside by {
          forall m | 0 <= m < 3 ensures window[m] == inside[m] {
            assert body[p + 1..p + 1 + |json|][j + m] == body[k + m];
          }
        }
        assert !OccursAt(json, FENCE, j);
      } else {
        NoOccurrenceOver(body, FENCE, k, p + 1 + |json|, '\n');
      }
    }
  }

  /**
    Where the pieces of an encoded comment sit: the description, a line
    break and the marker, then the JSON text between two line breaks from
    `|human| + 8` up to `e`, and the closing fence from `e` on.
   */
  predicate LaidOut(body: string, human: string, json: string, e: nat) {
    var h := |human|; var p := h + 8;
    && e == p + |json| + 2 && |body| == e + 3
    && body[..h] == human
    && body[h] == '\n' && body[h + 1..p] == JSON_MARKER
    && body[p] == '\n' && body[p + 1..e - 1] == json && body[e - 1] == '\n'
    && body[p..e] == "\n" + json + "\n"
    && body[e..] == FENCE
  }

  /** An encoded comment is laid out as `LaidOut` describes. */
  lemma InfoStringLayout(human: string, json: string)
    ensures LaidOut(MakeInfoString(human, json), human, json, |human| + |json| + 10)
  {
    var h := |human|;
    var mid := "\n```json\n";
    var a := human + mid;
    var b := a + json;
    var body := b + "\n```";
    assert body == MakeInfoString(human, json);
    assert a[h..] == mid;
    assert body[h..h + 9] == mid;
    assert body[h + 1..h + 8] == mid[1..8];
    assert body[h + 9..h + 9 + |json|] == json;
    assert body[h + 9 + |json|..] == "\n```";
    assert body[h + 8..h + 10 + |json|] == "\n" + json + "\n" by {
      assert body[h + 8..h + 10 + |json|] == [body[h + 8]] + body[h + 9..h + 9 + |json|] + [body[h + 9 + |json|]];
    }
  }

  /** A body laid out as an encoded comment yields its JSON text. */
  lemma ExtractFromLayout(body: string, human: string, json: string, e: nat)
    requires !Contains(human, JSON_MARKER) && !Contains(json, FENCE) && Trimmed(json)
    requires LaidOut(body, human, json, e)
    ensures ExtractJsonText(body) == Some(json)
  {
    ExtractedAfterDescription(body, human, json, e);
    TrimmedMiddle(body, |human| + 8, e, json);
  }

  /** The first marker ends the description and the first fence after it closes the JSON text. */
  lemma ExtractedAfterDescription(body: string, human: string, json: string, e: nat)
    requires !Contains(human, JSON_MARKER) && !Contains(json, FENCE)
    requires LaidOut(body, human, json, e)
    ensures ExtractJsonText(body) == Some(Trim(body[|human| + 8..e]))
  {
    FirstMarkerAfterDescription(body, human);
    FirstFenceAfterJson(body, |human| + 8, json);
    ExtractedBetween(body, |human| + 1, e);
  }

  /** A trimmed text between two line breaks is what trimming the three gives. */
  lemma TrimmedMiddle(body: string, p: nat, e: nat, json: string)
    requires p <= e <= |body| && body[p..e] == "\n" + json + "\n" && Trimmed(json)
    ensures Trim(body[p..e]) == json
  {
    TrimDropsNewlines(json);
  }

  /**
    The JSON text of an encoded comment is extracted unchanged, provided the
    description holds no "```json", the JSON text holds no "```" and it has no
    surrounding white space.
   */
  lemma {:induction false} InfoStringRoundTrip(human: string, json: string)
    requires !Contains(human, JSON_MARKER)
    requires !Contains(json, FENCE)
    requires Trimmed(json)
    ensures ExtractJsonText(MakeInfoString(human, json)) == Some(json)
  {
    InfoStringLayout(human, json);
    ExtractFromLayout(MakeInfoString(human, json), human, json, |human| + |json| + 10);
  }

  /**
    `extractTimerInfo(body)`: the extracted text, parsed, with dates revived,
    if it is a timer record.  A parser that throws yields None.
   */
  function ExtractTimerInfo(body: string, c: Codec): (r: Option<TimerInfo>)
    ensures ExtractJsonText(body).None? ==> r.None?
    ensures r.Some? ==> r.value.info.kind == TIMER_INFO_TYPE
  {
    match ExtractJsonText(body)
    case None => None
    case Some(text) =>
      match c.parse(text)
      case None => None
      case Some(v) => ToTimerInfo(Revive(v, c.parseDate))
  }

  // ---------------------------------------------------------------------------
  // Making a record

  /** Seconds and milliseconds set to zero: the instant rounded down to a whole minute. */
  function FloorToMinute(ms: int): (r: int)
    ensures r % Utils.MS_PER_MINUTE == 0
    ensures ms - Utils.MS_PER_MINUTE < r <= ms
  {
    ms - ms % Utils.MS_PER_MINUTE
  }

  /**
    `makeTimerInfo(begin, end)`: a record of type TimerInfo and version 1 for
    the span rounded down to whole minutes.  The current instant and the
    user's login are parameters.
   */
  function MakeTimerInfo(begin: int, end: int, now: int, login: string): (t: TimerInfo)
    ensures t.info == GhttInfo(TIMER_INFO_TYPE, TIMER_INFO_VERSION, now, login)
    ensures t.begin % Utils.MS_PER_MINUTE == 0 && begin - Utils.MS_PER_MINUTE < t.begin <= begin
    ensures t.end % Utils.MS_PER_MINUTE == 0 && end - Utils.MS_PER_MINUTE < t.end <= end
  {
    TimerInfo(GhttInfo(TIMER_INFO_TYPE, TIMER_INFO_VERSION, now, login), FloorToMinute(begin), FloorToMinute(end))
  }

  /** The clock emoji, a space, "@" and the login open `r`. */
  predicate SignedBy(r: string, login: string) {
    |r| >= 3 + |login| && r[..3] == [TIMER_INFO_EMOJI, ' ', '@'] && r[3..3 + |login|] == login
  }

  /**
    `makeHumanDescription(i)`: the emoji, then the login, the duration, the
    date, and the begin and end times joined by the separator; "ERROR" for any
    record that is not of type TimerInfo.
   */
  function MakeHumanDescription(t: TimerInfo, f: Formats): (r: string)
    ensures t.info.kind != TIMER_INFO_TYPE ==> r == ERROR_TEXT
    ensures t.info.kind == TIMER_INFO_TYPE ==> SignedBy(r, t.info.user)
  {
    if t.info.kind == TIMER_INFO_TYPE then
      var joined := Join(DescriptionParts(t, f), SEP);
      DescriptionStartsWithLogin(t, f);
      PrefixedStart(t.info.user, joined);
      [TIMER_INFO_EMOJI, ' '] + joined
    else ERROR_TEXT
  }

  lemma DescriptionStartsWithLogin(t: TimerInfo, f: Formats)
    ensures var joined := Join(DescriptionParts(t, f), SEP);
      |joined| >= 1 + |t.info.user| && joined[..1 + |t.info.user|] == "@" + t.info.user
  {
    JoinStartsWithFirst(DescriptionParts(t, f), SEP);
  }

  lemma PrefixedStart(user: string, joined: string)
    requires |joined| >= 1 + |user| && joined[..1 + |user|] == "@" + user
    ensures SignedBy([TIMER_INFO_EMOJI, ' '] + joined, user)
  {
    var r := [TIMER_INFO_EMOJI, ' '] + joined;
    assert r[2] == joined[0] == '@';
    assert r[3..3 + |user|] == joined[1..1 + |user|];
    assert joined[1..1 + |user|] == ("@" + user)[1..];
  }

  /** The five fields of a description, in order. */
  function DescriptionParts(t: TimerInfo, f: Formats): (parts: seq<string>)
    ensures |parts| == 5 && parts[0] == "@" + t.info.user
  {
    ["@" + t.info.user, Utils.HumanDuration(t.begin, t.end), f.date(t.begin), f.time(t.begin), f.time(t.end)]
  }

  /**
    `makeTimerInfoString(begin, end)`: the comment posted when a timer stops.
    It opens with the clock emoji and "@" and the login, and closes with the
    fence; `TimerCommentRoundTrip` shows the report reads the record back.
   */
  function MakeTimerInfoString(begin: int, end: int, now: int, login: string, f: Formats, c: Codec): (r: string)
    ensures SignedBy(r, login)
    ensures r[|r| - |FENCE|..] == FENCE
  {
    var t := MakeTimerInfo(begin, end, now, login);
    var human := MakeHumanDescription(t, f);
    var json := c.stringify(StoredJson(t, c.iso));
    SignedComment(human, json, login)
  }

  /** An encoded comment whose description is signed by `login` is signed by it too. */
  function SignedComment(human: string, json: string, ghost login: string): (r: string)
    requires SignedBy(human, login)
    ensures SignedBy(r, login) && r[|r| - |FENCE|..] == FENCE
  {
    InfoStringStart(human, json, login);
    MakeInfoString(human, json)
  }

  /** An encoded comment starts as its description does. */
  lemma InfoStringStart(human: string, json: string, login: string)
    requires SignedBy(human, login)
    ensures var r := MakeInfoString(human, json);
      SignedBy(r, login) && r[|r| - |FENCE|..] == FENCE
  {
    var r := MakeInfoString(human, json);
    assert r[..|human|] == human;
    assert r[..3] == human[..3];
    assert r[3..3 + |login|] == human[3..3 + |login|];
  }

  // ---------------------------------------------------------------------------
  // Reading back what was written

  predicate NoBacktick(s: string) {
    forall i :: 0 <= i < |s| ==> s[i] != '`'
  }

  /** A text without backticks holds no fence of any kind. */
  lemma NoBacktickNoMarker(s: string)
    requires NoBacktick(s)
    ensures !Contains(s, JSON_MARKER)
  {
    forall i | 0 <= i <= |s| ensures !OccursAt(s, JSON_MARKER, i) {
      if i + 7 <= |s| {
        assert s[i..i + 7][0] == s[i];
      }
    }
  }

  lemma {:induction false} JoinNoBacktick(parts: seq<string>, sep: string)
    requires forall i :: 0 <= i < |parts| ==> NoBacktick(parts[i])
    requires NoBacktick(sep)
    ensures NoBacktick(Join(parts, sep))
  {
    if |parts| > 1 {
      JoinNoBacktick(parts[1..], sep);
    }
  }

  /** A decimal numeral is digits and at most a minus sign. */
  lemma IntToStringNoBacktick(n: int)
    ensures NoBacktick(IntToString(n))
  {
    var s := IntToString(n);
    forall i | 0 <= i < |s| ensures s[i] != '`' {
      if n < 0 && i > 0 {
        assert s[i] == s[1..][i - 1];
      }
    }
  }

  lemma TwoDigitsNoBacktick(n: int)
    ensures NoBacktick(Utils.TwoDigits(n))
  {
    var s := IntToString(n);
    IntToStringNoBacktick(n);
    var r := Utils.TwoDigits(n);
    assert r == PadStart(s, 2, '0');
    forall i | 0 <= i < |r| ensures r[i] != '`' {
      if i >= |r| - |s| {
        assert r[i] == r[|r| - |s|..][i - (|r| - |s|)];
      }
    }
  }

  lemma HumanDurationNoBacktick(begin: int, end: int)
    ensures NoBacktick(Utils.HumanDuration(begin, end))
  {
    var (hh, mm) := Utils.DurationFields(begin, end);
    TwoDigitsNoBacktick(hh);
    TwoDigitsNoBacktick(mm);
    Utils.HumanDurationFields(begin, end);
  }

  /** The description has no backticks when the login and the date and time texts have none. */
  lemma DescriptionNoBacktick(t: TimerInfo, f: Formats)
    requires NoBacktick(t.info.user)
    requires NoBacktick(f.date(t.begin)) && NoBacktick(f.time(t.begin)) && NoBacktick(f.time(t.end))
    ensures NoBacktick(MakeHumanDescription(t, f))
  {
    if t.info.kind == TIMER_INFO_TYPE {
      var parts := DescriptionParts(t, f);
      PartsNoBacktick(t, f);
      JoinNoBacktick(parts, SEP);
      var joined := Join(parts, SEP);
      assert MakeHumanDescription(t, f) == [TIMER_INFO_EMOJI, ' '] + joined;
    }
  }

  /** Each of the five fields is free of backticks under the same conditions. */
  lemma PartsNoBacktick(t: TimerInfo, f: Formats)
    requires NoBacktick(t.info.user)
    requires NoBacktick(f.date(t.begin)) && NoBacktick(f.time(t.begin)) && NoBacktick(f.time(t.end))
    ensures var parts := DescriptionParts(t, f);
      forall i :: 0 <= i < |parts| ==> NoBacktick(parts[i])
  {
    HumanDurationNoBacktick(t.begin, t.end);
    var parts := DescriptionParts(t, f);
    assert NoBacktick(parts[0]) by {
      assert parts[0] == "@" + t.info.user;
    }
  }

  /**
    A posted timer comment is read back by the report as the record it was
    made from, given a JSON library whose output parses back, a date text that
    parses back to its instant, no backticks in the login or the date and time
    texts, and a login that does not itself read as a date.
   */
  lemma TimerCommentRoundTrip(begin: int, end: int, now: int, login: string, f: Formats, c: Codec)
    requires var t := MakeTimerInfo(begin, end, now, login);
      && c.parse(c.stringify(StoredJson(t, c.iso))) == Some(StoredJson(t, c.iso))
      && !Contains(c.stringify(StoredJson(t, c.iso)), FENCE)
      && Trimmed(c.stringify(StoredJson(t, c.iso)))
      && c.parseDate(c.iso(now)) == Some(now)
      && c.parseDate(c.iso(t.begin)) == Some(t.begin)
      && c.parseDate(c.iso(t.end)) == Some(t.end)
      && c.parseDate(TIMER_INFO_TYPE).None? && c.parseDate(login).None?
      && NoBacktick(login)
      && NoBacktick(f.date(t.begin)) && NoBacktick(f.time(t.begin)) && NoBacktick(f.time(t.end))
    ensures ExtractTimerInfo(MakeTimerInfoString(begin, end, now, login, f, c), c) == Some(MakeTimerInfo(begin, end, now, login))
  {
    var t := MakeTimerInfo(begin, end, now, login);
    var human := MakeHumanDescription(t, f);
    var json := c.stringify(StoredJson(t, c.iso));
    DescriptionNoBacktick(t, f);
    NoBacktickNoMarker(human);
    InfoStringRoundTrip(human, json);
    ReviveStoredRecord(t, c);
    TimerInfoRoundTrip(t);
  }
}
