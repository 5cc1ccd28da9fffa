/**
  Shared vocabulary of the model: optional values, the outcome of a call that
  may throw, and the handful of JavaScript string operations the tracker
  relies on (`indexOf`, `trim`, `String(n)`, `padStart`, `join`), written out
  after the ECMAScript library.  A string is a sequence of Unicode code
  points, where JavaScript counts UTF-16 code units.
 */
module Text {

  /** A value that may be absent (`undefined` / `null` on the JavaScript side). */
  datatype Option<T> = None | Some(value: T) {
    /** The `??` operator: the value when present, else the default. */
    function GetOr(default: T): T {
      match this
      case Some(v) => v
      case None => default
    }
  }

  /** Outcome of an awaited call: it returned a value, or it threw. */
  datatype Attempt<T> = Returned(value: T) | Threw

  // ---------------------------------------------------------------------------
  // Searching

  /** `pat` occurs in `s` starting at index `i`. */
  predicate OccursAt(s: string, pat: string, i: int) {
    0 <= i && i + |pat| <= |s| && s[i..i + |pat|] == pat
  }

  /** `pat` occurs somewhere in `s`. */
  predicate Contains(s: string, pat: string) {
    exists i :: 0 <= i <= |s| && OccursAt(s, pat, i)
  }

  /** The start position `indexOf` really uses: `from` clamped into 0..|s|. */
  function ClampStart(from: int, len: nat): (r: nat)
    ensures r <= len
    ensures 0 <= from <= len ==> r == from
  {
    if from < 0 then 0 else if from > len then len else from
  }

  /**
    `s.indexOf(pat, from)`: the first position at or after the clamped start
    where `pat` occurs, or -1 when there is none.
   */
  function IndexOf(s: string, pat: string, from: int): (r: int)
    ensures r == -1 || (ClampStart(from, |s|) <= r && OccursAt(s, pat, r))
    ensures r == -1 ==> forall k :: ClampStart(from, |s|) <= k <= |s| ==> !OccursAt(s, pat, k)
    ensures r != -1 ==> forall k :: ClampStart(from, |s|) <= k < r ==> !OccursAt(s, pat, k)
    decreases |s| - ClampStart(from, |s|)
  {
    var start := ClampStart(from, |s|);
    if OccursAt(s, pat, start) then start
    else if start == |s| then -1
    else IndexOf(s, pat, start + 1)
  }

  /** An occurrence with none before it (from the start on) is what `indexOf` finds. */
  lemma IndexOfFinds(s: string, pat: string, from: int, i: int)
    requires ClampStart(from, |s|) <= i
    requires OccursAt(s, pat, i)
    requires forall k :: ClampStart(from, |s|) <= k < i ==> !OccursAt(s, pat, k)
    ensures IndexOf(s, pat, from) == i
  {
  }

  /** A window that covers a character `pat` does not contain cannot be an occurrence of `pat`. */
  lemma NoOccurrenceOver(s: string, pat: string, k: int, j: int, c: char)
    requires 0 <= k <= j < k + |pat| && j < |s| && s[j] == c
    requires forall i :: 0 <= i < |pat| ==> pat[i] != c
    ensures !OccursAt(s, pat, k)
  {
  }

  /**
    `s.substring(a, b)`: both ends clamped into 0..|s|, and swapped when the
    start lies past the end.
   */
  function Substring(s: string, a: int, b: int): (r: string)
    ensures 0 <= a <= b <= |s| ==> r == s[a..b]
    ensures |r| <= |s|
  {
    var lo := ClampStart(a, |s|);
    var hi := ClampStart(b, |s|);
    if lo <= hi then s[lo..hi] else s[hi..lo]
  }

  // ---------------------------------------------------------------------------
  // Trimming

  /** The characters `String.prototype.trim` removes: white space and line terminators. */
  predicate IsWhitespace(c: char) {
    || c == ' ' || c == '\t' || c == '\n' || c == '\r' || c == '\U{000B}' || c == '\U{000C}'
    || c == '\U{00A0}' || c == '\U{1680}' || ('\U{2000}' <= c <= '\U{200A}')
    || c == '\U{2028}' || c == '\U{2029}' || c == '\U{202F}' || c == '\U{205F}'
    || c == '\U{3000}' || c == '\U{FEFF}'
  }

  /** Number of white-space characters at the front of `s`. */
  function LeadingSpace(s: string): (n: nat)
    ensures n <= |s|
    ensures forall i :: 0 <= i < n ==> IsWhitespace(s[i])
    ensures n < |s| ==> !IsWhitespace(s[n])
  {
    if s == [] || !IsWhitespace(s[0]) then 0 else 1 + LeadingSpace(s[1..])
  }

  /** Number of white-space characters at the end of `s`. */
  function TrailingSpace(s: string): (n: nat)
    ensures n <= |s|
    ensures forall i :: |s| - n <= i < |s| ==> IsWhitespace(s[i])
    ensures n < |s| ==> !IsWhitespace(s[|s| - n - 1])
  {
    if s == [] || !IsWhitespace(s[|s| - 1]) then 0 else 1 + TrailingSpace(s[..|s| - 1])
  }

  /** `s` neither starts nor ends with white space. */
  predicate Trimmed(s: string) {
    s == [] || (!IsWhitespace(s[0]) && !IsWhitespace(s[|s| - 1]))
  }

  /** Everything in `s` before index `i` and from index `j` on is white space. */
  predicate Surrounds(s: string, i: int, j: int) {
    && 0 <= i <= j <= |s|
    && (forall k :: 0 <= k < i ==> IsWhitespace(s[k]))
    && (forall k :: j <= k < |s| ==> IsWhitespace(s[k]))
  }

  /**
    `s.trim()`: the part of `s` left once the white space at both ends is
    removed.  `TrimUnique` shows the contract determines the result.
   */
  function Trim(s: string): (r: string)
    ensures Trimmed(r)
    ensures exists i, j :: Surrounds(s, i, j) && r == s[i..j]
    ensures |r| <= |s|
    ensures Trimmed(s) ==> r == s
  {
    var a := LeadingSpace(s);
    var front := s[a..];
    var b := TrailingSpace(front);
    var j := a + |front| - b;
    assert Surrounds(s, a, j) by {
      forall k | j <= k < |s| ensures IsWhitespace(s[k]) {
        assert s[k] == front[k - a];
      }
    }
    assert front[..|front| - b] == s[a..j];
    front[..|front| - b]
  }

  /**
    Any trimmed text that is left of `s` after removing only white space at
    both ends is what `trim` gives: the contract of `Trim` fixes its result.
   */
  lemma TrimUnique(s: string, i: int, j: int)
    requires Surrounds(s, i, j) && Trimmed(s[i..j])
    ensures Trim(s) == s[i..j]
  {
    var r := Trim(s);
    var i', j' :| Surrounds(s, i', j') && r == s[i'..j'];
    var x := s[i..j];
    assert x != [] ==> x[0] == s[i] && x[|x| - 1] == s[j - 1];
    assert r != [] ==> r[0] == s[i'] && r[|r| - 1] == s[j' - 1];
    if k :| 0 <= k < |s| && !IsWhitespace(s[k]) {
      assert i <= k < j && i' <= k < j';
      assert i == i' && j == j';
    } else {
      TrimmedAllSpace(s, i, j);
      TrimmedAllSpace(s, i', j');
    }
  }

  /** In a text of white space only, the one trimmed slice is the empty one. */
  lemma TrimmedAllSpace(s: string, i: int, j: int)
    requires 0 <= i <= j <= |s| && Trimmed(s[i..j])
    requires forall k :: 0 <= k < |s| ==> IsWhitespace(s[k])
    ensures i == j
  {
  }

  /** Trimming a trimmed text wrapped in line breaks gives the text back. */
  lemma TrimDropsNewlines(s: string)
    requires Trimmed(s)
    ensures Trim("\n" + s + "\n") == s
  {
    var t := "\n" + s + "\n";
    if s == [] {
      assert LeadingSpace(t) == 1 + LeadingSpace(t[1..]);
      assert t[1..] == "\n";
      assert LeadingSpace(t) == 2;
    } else {
      assert LeadingSpace(t) == 1 + LeadingSpace(t[1..]);
      assert t[1..] == s + "\n";
      assert LeadingSpace(t) == 1;
      var front := t[1..];
      assert TrailingSpace(front) == 1;
      assert front[..|front| - 1] == s;
    }
  }

  // ---------------------------------------------------------------------------
  // Decimal numerals

  predicate IsDigit(c: char) {
    '0' <= c <= '9'
  }

  function DigitChar(d: nat): (c: char)
    requires d < 10
    ensures IsDigit(c) && DigitValue(c) == d
  {
    ('0' as int + d) as char
  }

  function DigitValue(c: char): (d: nat)
    requires IsDigit(c)
    ensures d < 10
  {
    (c as int - '0' as int) as nat
  }

  predicate AllDigits(s: string) {
    forall i :: 0 <= i < |s| ==> IsDigit(s[i])
  }

  /** The decimal numeral of `n`, without leading zeros (`String(n)` for n >= 0). */
  function NatToString(n: nat): (r: string)
    ensures |r| >= 1 && AllDigits(r)
    ensures |r| > 1 ==> r[0] != '0'
    ensures n < 10 <==> |r| == 1
  {
    if n < 10 then [DigitChar(n)] else NatToString(n / 10) + [DigitChar(n % 10)]
  }

  /** The value of a string of decimal digits (leading zeros allowed). */
  function DigitsValue(s: string): nat
    requires AllDigits(s)
  {
    if s == [] then 0 else DigitsValue(s[..|s| - 1]) * 10 + DigitValue(s[|s| - 1])
  }

  lemma {:induction false} NatToStringRoundTrip(n: nat)
    ensures DigitsValue(NatToString(n)) == n
  {
    if n >= 10 {
      var r := NatToString(n);
      assert r[..|r| - 1] == NatToString(n / 10);
      NatToStringRoundTrip(n / 10);
    }
  }

  /** `String(n)` for an integer: a minus sign in front of negative numbers. */
  function IntToString(n: int): (r: string)
    ensures |r| >= 1
    ensures n < 0 <==> r[0] == '-'
    ensures n >= 0 ==> AllDigits(r) && (|r| > 1 ==> r[0] != '0')
    ensures n < 0 ==> |r| >= 2 && AllDigits(r[1..]) && (|r| > 2 ==> r[1] != '0')
  {
    if n < 0 then
      var digits := NatToString(-n);
      assert ("-" + digits)[1..] == digits;
      "-" + digits
    else NatToString(n)
  }

  /**
    Decimal integer syntax: an optional minus sign followed by at least one
    digit.  Answers None for every other string.
   */
  function ParseInt(s: string): (r: Option<int>)
    ensures r.Some? <==> (AllDigits(s) && s != []) || (|s| >= 2 && s[0] == '-' && AllDigits(s[1..]))
  {
    if s != [] && AllDigits(s) then Some(DigitsValue(s))
    else if |s| >= 2 && s[0] == '-' && AllDigits(s[1..]) then var v: int := DigitsValue(s[1..]); Some(-v)
    else None
  }

  lemma IntToStringRoundTrip(n: int)
    ensures ParseInt(IntToString(n)) == Some(n)
  {
    var s := IntToString(n);
    if n < 0 {
      var digits := NatToString(-n);
      assert s == "-" + digits;
      assert s[1..] == digits;
      assert !AllDigits(s) by {
        assert !IsDigit(s[0]);
      }
      NatToStringRoundTrip(-n);
      assert DigitsValue(s[1..]) == -n;
    } else {
      assert s == NatToString(n);
      NatToStringRoundTrip(n);
    }
  }

  // ---------------------------------------------------------------------------
  // Padding and joining

  /** `s.padStart(width, fill)` for a one-character fill string. */
  function PadStart(s: string, width: nat, fill: char): (r: string)
    ensures |r| == if |s| >= width then |s| else width
    ensures r[|r| - |s|..] == s
    ensures forall i :: 0 <= i < |r| - |s| ==> r[i] == fill
  {
    if |s| >= width then s else seq(width - |s|, _ => fill) + s
  }

  /** Combined length of all parts. */
  function TotalLength(parts: seq<string>): nat {
    if parts == [] then 0 else |parts[0]| + TotalLength(parts[1..])
  }

  /**
    `parts.join(sep)`: the parts in order with one separator between each
    neighbouring pair, and nothing around them.
   */
  function Join(parts: seq<string>, sep: string): (r: string)
    ensures parts == [] ==> r == ""
    ensures |parts| == 1 ==> r == parts[0]
  {
    if parts == [] then ""
    else if |parts| == 1 then parts[0]
    else parts[0] + sep + Join(parts[1..], sep)
  }

  /** A join holds every part and one separator between each two neighbours. */
  lemma {:induction false} JoinLength(parts: seq<string>, sep: string)
    requires parts != []
    ensures |Join(parts, sep)| == TotalLength(parts) + (|parts| - 1) * |sep|
  {
    if |parts| > 1 {
      JoinLength(parts[1..], sep);
      assert (|parts| - 1) * |sep| == (|parts[1..]| - 1) * |sep| + |sep|;
    }
  }

  /** Joining one more part appends a separator and that part. */
  lemma {:induction false} JoinSnoc(parts: seq<string>, last: string, sep: string)
    requires parts != []
    ensures Join(parts + [last], sep) == Join(parts, sep) + sep + last
  {
    var all := parts + [last];
    assert all[1..] == parts[1..] + [last];
    if |parts| > 1 {
      JoinSnoc(parts[1..], last, sep);
    }
  }

  /** A joined text starts with the first part. */
  lemma JoinStartsWithFirst(parts: seq<string>, sep: string)
    requires |parts| >= 1
    ensures |Join(parts, sep)| >= |parts[0]|
    ensures Join(parts, sep)[..|parts[0]|] == parts[0]
  {
    if |parts| > 1 {
      assert Join(parts, sep) == parts[0] + (sep + Join(parts[1..], sep));
    }
  }
}
