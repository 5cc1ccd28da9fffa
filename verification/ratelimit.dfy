/**
  Rate-limit bookkeeping.  Every response's headers are offered to the
  monitor; when all five `x-ratelimit-*` headers are present it replaces the
  record of the named resource and recomputes the global "critical" flag,
  which is raised when any tracked resource has less than half of its quota
  left.

  The record map is a JavaScript `Map`, which keeps its keys in insertion
  order; it is modelled as a sequence of records with the map view `AsMap`.
 */
module RateLimit {
  import opened Text

  const RESOURCE_NAME := "x-ratelimit-resource"
  const USED_NAME := "x-ratelimit-used"
  const LIMIT_NAME := "x-ratelimit-limit"
  const REMAINING_NAME := "x-ratelimit-remaining"
  const RESET_NAME := "x-ratelimit-reset"

  /** Response headers, by lower-case name. */
  type Headers = map<string, string>

  /**
    A JavaScript number as produced by `Number(text)` from the headers: an
    integer (`Finite(0)` is +0), negative zero, or NaN.
   */
  datatype Num = Finite(n: int) | NegativeZero | NaN {
    /** The numeric value; both zeros are 0. */
    function Value(): int
      requires !NaN?
    {
      if Finite? then n else 0
    }
  }

  /**
    `Number(text)` on decimal integer text: that integer, except that a zero
    written with a minus sign is negative zero.  Every other text becomes NaN.
   */
  function ToNumber(text: string): (r: Num)
    ensures r.NaN? <==> ParseInt(text).None?
    ensures r.Finite? ==> r.n == ParseInt(text).value
    ensures r.NegativeZero? <==> ParseInt(text) == Some(0) && text[0] == '-'
  {
    match ParseInt(text)
    case Some(n) => if n == 0 && text[0] == '-' then NegativeZero else Finite(n)
    case None => NaN
  }

  /** What `String(n)` prints converts back to `n`. */
  lemma ToNumberOfIntToString(n: int)
    ensures ToNumber(IntToString(n)) == Finite(n)
  {
    IntToStringRoundTrip(n);
    assert n == 0 ==> IntToString(n) == "0";
  }

  /** The record kept for one resource; `reset` is an instant in milliseconds. */
  datatype RateLimitInfo = RateLimitInfo(resource: string, used: Num, limit: Num, remaining: Num, reset: Num)

  /** The monitor's state: the records in insertion order and the critical flag. */
  datatype Monitor = Monitor(entries: seq<RateLimitInfo>, critical: bool)

  const EMPTY_MONITOR := Monitor([], false)

  predicate HasRequiredHeaders(h: Headers) {
    RESOURCE_NAME in h && USED_NAME in h && LIMIT_NAME in h && REMAINING_NAME in h && RESET_NAME in h
  }

  /**
    `remaining / limit < 0.5` as JavaScript evaluates it.  A non-zero limit
    gives the exact quotient.  A zero limit gives an infinity whose sign is
    the sign of `remaining` times the sign of the zero, which is below one
    half only when negative; 0 / 0 and anything with NaN give NaN, which
    compares false.
   */
  function RatioBelowHalf(remaining: Num, limit: Num): (b: bool)
    ensures remaining.NaN? || limit.NaN? ==> !b
    ensures !remaining.NaN? && limit.Finite? && limit.n != 0 ==>
      (b <==> (remaining.Value() as real) / (limit.n as real) < 0.5)
    ensures !remaining.NaN? && !limit.NaN? && limit.Value() == 0 ==>
      (b <==> remaining.Value() != 0 && (remaining.Value() < 0 <==> limit.Finite?))
  {
    if remaining.NaN? || limit.NaN? then false
    else
      var r := remaining.Value();
      if limit.Finite? && limit.n != 0 then
        QuotientBelowHalf(r, limit.n);
        if limit.n > 0 then 2 * r < limit.n else 2 * r > limit.n
      else
        r != 0 && (r < 0 <==> limit.Finite?)
  }

  /** The exact quotient is below one half iff twice the numerator lies on the near side of the denominator. */
  lemma QuotientBelowHalf(r: int, l: int)
    requires l != 0
    ensures (r as real) / (l as real) < 0.5 <==> if l > 0 then 2 * r < l else 2 * r > l
  {
    var R, L := r as real, l as real;
    if l > 0 {
      RealQuotientBelowHalf(R, L);
    } else {
      RealQuotientBelowHalf(-R, -L);
      assert (-R) / (-L) == R / L;
    }
  }

  lemma RealQuotientBelowHalf(R: real, L: real)
    requires L > 0.0
    ensures R / L < 0.5 <==> 2.0 * R < L
  {
    var q := R / L;
    assert q * L == R;
    assert (0.5 - q) * L == 0.5 * L - R;
    if q < 0.5 {
      ProductSign(0.5 - q, L);
    } else {
      ProductSign(q - 0.5, L);
      assert (q - 0.5) * L == R - 0.5 * L;
    }
  }

  /** A product of a non-negative and a positive number is non-negative, and positive when both are. */
  lemma ProductSign(x: real, y: real)
    requires x >= 0.0 && y > 0.0
    ensures x * y >= 0.0
    ensures x > 0.0 ==> x * y > 0.0
  {
  }

  /** For the non-negative counts the API sends, the test is `2 * remaining < limit`. */
  lemma RatioBelowHalfOnCounts(remaining: nat, limit: nat)
    ensures RatioBelowHalf(Finite(remaining), Finite(limit)) <==> 2 * remaining < limit
  {
  }

  /**
    A limit header of "-0" is negative zero: one remaining request then gives
    1 / -0, negative infinity, which is below one half.  With "0" the quotient
    is positive infinity, which is not.
   */
  lemma NegativeZeroLimit()
    ensures ToNumber("-0") == NegativeZero && ToNumber("0") == Finite(0)
    ensures RatioBelowHalf(ToNumber("1"), ToNumber("-0"))
    ensures !RatioBelowHalf(ToNumber("1"), ToNumber("0"))
  {
    assert "-0"[1..] == "0";
    assert "0"[..0] == "" && "1"[..0] == "";
    assert ToNumber("1") == Finite(1);
  }

  /** A record is low when its ratio is below one half. */
  predicate IsLow(info: RateLimitInfo) {
    RatioBelowHalf(info.remaining, info.limit)
  }

  /** Largest distance from the epoch, in milliseconds, that a `Date` holds. */
  const MAX_TIME: int := 8_640_000_000_000_000

  /**
    The reset instant built from the header's epoch seconds: the same instant
    in milliseconds, where a negative zero becomes 0, and a non-number or an
    instant outside the range a `Date` holds is an invalid date (NaN).
   */
  function ResetInstant(seconds: Num): (r: Num)
    ensures !r.NegativeZero?
    ensures seconds.NaN? ==> r.NaN?
    ensures !seconds.NaN? && -MAX_TIME <= seconds.Value() * 1000 <= MAX_TIME ==> r == Finite(seconds.Value() * 1000)
    ensures !seconds.NaN? && !(-MAX_TIME <= seconds.Value() * 1000 <= MAX_TIME) ==> r.NaN?
  {
    if seconds.NaN? then NaN
    else
      var ms := seconds.Value() * 1000;
      if -MAX_TIME <= ms <= MAX_TIME then Finite(ms) else NaN
  }

  /** The record built from a complete header set. */
  function InfoFrom(h: Headers): (info: RateLimitInfo)
    requires HasRequiredHeaders(h)
    ensures info.resource == h[RESOURCE_NAME]
    ensures info.used == ToNumber(h[USED_NAME])
    ensures info.limit == ToNumber(h[LIMIT_NAME])
    ensures info.remaining == ToNumber(h[REMAINING_NAME])
    ensures info.reset == ResetInstant(ToNumber(h[RESET_NAME]))
  {
    RateLimitInfo(h[RESOURCE_NAME], ToNumber(h[USED_NAME]), ToNumber(h[LIMIT_NAME]),
                  ToNumber(h[REMAINING_NAME]), ResetInstant(ToNumber(h[RESET_NAME])))
  }

  /** The resource names in `entries`. */
  function Resources(entries: seq<RateLimitInfo>): (names: set<string>)
    ensures forall i :: 0 <= i < |entries| ==> entries[i].resource in names
  {
    if entries == [] then {} else {entries[0].resource} + Resources(entries[1..])
  }

  /** No resource name occurs twice, as in a `Map`. */
  ghost predicate Distinct(entries: seq<RateLimitInfo>) {
    forall i, j :: 0 <= i < j < |entries| ==> entries[i].resource != entries[j].resource
  }

  /** The map view: resource name to record (an earlier entry wins, which matters only without `Distinct`). */
  ghost function AsMap(entries: seq<RateLimitInfo>): (m: map<string, RateLimitInfo>)
    ensures m.Keys == Resources(entries)
  {
    if entries == [] then map[] else AsMap(entries[1..])[entries[0].resource := entries[0]]
  }

  /**
    `Map.prototype.set`: the record for `info.resource` is replaced in place,
    or appended when the resource is new.  As a map this is a plain update,
    and no record other than `info` appears that was not there before.
   */
  function Upsert(entries: seq<RateLimitInfo>, info: RateLimitInfo): (r: seq<RateLimitInfo>)
    ensures AsMap(r) == AsMap(entries)[info.resource := info]
    ensures forall y :: y in r ==> y == info || y in entries
    ensures |r| == if info.resource in Resources(entries) then |entries| else |entries| + 1
  {
    if entries == [] then [info]
    else if entries[0].resource == info.resource then
      assert ([info] + entries[1..])[1..] == entries[1..];
      [info] + entries[1..]
    else
      var rest := Upsert(entries[1..], info);
      assert ([entries[0]] + rest)[1..] == rest;
      assert AsMap([entries[0]] + rest) == AsMap(entries)[info.resource := info];
      [entries[0]] + rest
  }

  /** In a `Map` without duplicates, `set` keeps it duplicate-free and leaves `info` as the only record for its name. */
  lemma {:induction false} UpsertDistinct(entries: seq<RateLimitInfo>, info: RateLimitInfo)
    requires Distinct(entries)
    ensures Distinct(Upsert(entries, info))
    ensures forall y :: y in Upsert(entries, info) && y.resource == info.resource ==> y == info
  {
    if entries == [] {
    } else if entries[0].resource == info.resource {
      var r := Upsert(entries, info);
      assert r == [info] + entries[1..];
      forall i | 1 <= i < |r| ensures r[i].resource != info.resource {
        assert r[i] == entries[i];
      }
    } else {
      var rest := Upsert(entries[1..], info);
      UpsertDistinct(entries[1..], info);
      var r := Upsert(entries, info);
      assert r == [entries[0]] + rest;
      forall i | 1 <= i < |r| ensures r[i].resource != entries[0].resource {
        assert r[i] in rest;
        if r[i] != info {
          assert r[i] in entries[1..];
          var j :| 0 <= j < |entries[1..]| && entries[1..][j] == r[i];
          assert entries[j + 1] == r[i];
        }
      }
    }
  }

  /** Some record, in insertion order, is low. */
  function AnyLow(entries: seq<RateLimitInfo>): (b: bool)
    ensures b <==> exists i :: 0 <= i < |entries| && IsLow(entries[i])
  {
    if entries == [] then false else IsLow(entries[0]) || AnyLow(entries[1..])
  }

  /**
    `monitorRatelimit(response)`.  Missing any of the five headers leaves the
    monitor as it is.  Otherwise the resource's record is replaced wholesale
    (no field of the old record survives), every other record is kept, and the
    flag is recomputed over all records, not only the new one.
   */
  function Record(m: Monitor, h: Headers): (r: Monitor)
    ensures !HasRequiredHeaders(h) ==> r == m
    ensures HasRequiredHeaders(h) ==>
      && AsMap(r.entries) == AsMap(m.entries)[h[RESOURCE_NAME] := InfoFrom(h)]
      && |r.entries| <= |m.entries| + 1
      && (r.critical <==> exists i :: 0 <= i < |r.entries| && IsLow(r.entries[i]))
  {
    if HasRequiredHeaders(h) then
      var entries := Upsert(m.entries, InfoFrom(h));
      Monitor(entries, AnyLow(entries))
    else
      m
  }

  /** The monitor's invariant: a `Map` and a flag that agrees with it. */
  ghost predicate Valid(m: Monitor) {
    Distinct(m.entries) && (m.critical <==> exists k :: k in AsMap(m.entries) && IsLow(AsMap(m.entries)[k]))
  }

  /** With distinct names every entry is what the map view holds for its name. */
  lemma {:induction false} AsMapOfDistinct(entries: seq<RateLimitInfo>)
    requires Distinct(entries)
    ensures forall i :: 0 <= i < |entries| ==> AsMap(entries)[entries[i].resource] == entries[i]
  {
    if entries != [] {
      var rest := entries[1..];
      AsMapOfDistinct(rest);
      forall i | 0 <= i < |entries|
        ensures AsMap(entries)[entries[i].resource] == entries[i]
      {
        if i > 0 {
          assert entries[i] == rest[i - 1];
        }
      }
    }
  }

  /** Every name in the map view belongs to some entry. */
  lemma {:induction false} ResourceWitness(entries: seq<RateLimitInfo>, k: string) returns (i: nat)
    requires k in Resources(entries)
    ensures i < |entries| && entries[i].resource == k
  {
    if entries[0].resource == k {
      i := 0;
    } else {
      var j := ResourceWitness(entries[1..], k);
      i := j + 1;
    }
  }

  /** A low entry of a duplicate-free sequence is a low value of its map view. */
  lemma LowEntryIsLowValue(entries: seq<RateLimitInfo>)
    requires Distinct(entries)
    ensures (exists i :: 0 <= i < |entries| && IsLow(entries[i]))
        ==> (exists k :: k in AsMap(entries) && IsLow(AsMap(entries)[k]))
  {
    AsMapOfDistinct(entries);
    if i :| 0 <= i < |entries| && IsLow(entries[i]) {
      assert entries[i].resource in AsMap(entries);
    }
  }

  /** A low value of the map view is a low entry of the sequence. */
  lemma LowValueIsLowEntry(entries: seq<RateLimitInfo>)
    requires Distinct(entries)
    ensures (exists k :: k in AsMap(entries) && IsLow(AsMap(entries)[k]))
        ==> (exists i :: 0 <= i < |entries| && IsLow(entries[i]))
  {
    AsMapOfDistinct(entries);
    if k :| k in AsMap(entries) && IsLow(AsMap(entries)[k]) {
      var i := ResourceWitness(entries, k);
      assert AsMap(entries)[k] == entries[i];
    }
  }

  /** `Record` keeps the invariant: the flag is true iff some record in the map is low. */
  lemma RecordKeepsValid(m: Monitor, h: Headers)
    requires Valid(m)
    ensures Valid(Record(m, h))
  {
    if HasRequiredHeaders(h) {
      UpsertDistinct(m.entries, InfoFrom(h));
      LowEntryIsLowValue(Record(m, h).entries);
      LowValueIsLowEntry(Record(m, h).entries);
    }
  }

  /**
    The flag can drop back to false: when every record other than the one for
    the updated resource is healthy, a new record with enough quota left
    clears it, whatever the old record for that resource said.
   */
  lemma CriticalClearsWhenLastOffenderRecovers(m: Monitor, h: Headers)
    requires Distinct(m.entries) && HasRequiredHeaders(h)
    requires forall i :: 0 <= i < |m.entries| && m.entries[i].resource != h[RESOURCE_NAME] ==> !IsLow(m.entries[i])
    requires !IsLow(InfoFrom(h))
    ensures !Record(m, h).critical
  {
    var info := InfoFrom(h);
    var r := Record(m, h);
    UpsertDistinct(m.entries, info);
    forall i | 0 <= i < |r.entries| ensures !IsLow(r.entries[i]) {
      var y := r.entries[i];
      assert y in r.entries;
      if y != info {
        assert y in m.entries;
        assert y.resource != info.resource;
      }
    }
  }

  /** Headers as the API sends them for one resource. */
  function ExampleHeaders(resource: string, used: string, limit: string, remaining: string): Headers {
    map[RESOURCE_NAME := resource, USED_NAME := used, LIMIT_NAME := limit,
        REMAINING_NAME := remaining, RESET_NAME := "1700000000"]
  }

  /**
    Resource A with 20 of 100 left and B with 90 of 100 left make the monitor
    critical; B alone does not.
   */
  lemma CriticalExample()
    ensures var a := ExampleHeaders("A", "80", "100", "20");
      var b := ExampleHeaders("B", "10", "100", "90");
      && Record(Record(EMPTY_MONITOR, a), b).critical
      && !Record(EMPTY_MONITOR, b).critical
  {
    var a := ExampleHeaders("A", "80", "100", "20");
    var b := ExampleHeaders("B", "10", "100", "90");
    assert ToNumber("100") == Finite(100) by { assert DigitsValue("100") == 100 by { DigitsOf100(); } }
    assert ToNumber("20") == Finite(20) by { assert DigitsValue("20") == 20 by { DigitsOf20(); } }
    assert ToNumber("90") == Finite(90) by { assert DigitsValue("90") == 90 by { DigitsOf90(); } }
    var ia := InfoFrom(a);
    var ib := InfoFrom(b);
    assert IsLow(ia);
    assert !IsLow(ib);
    var m1 := Record(EMPTY_MONITOR, a);
    assert m1.entries == [ia];
    var m2 := Record(m1, b);
    assert m2.entries == [ia, ib];
    assert Record(EMPTY_MONITOR, b).entries == [ib];
  }

  lemma DigitsOf100()
    ensures AllDigits("100") && DigitsValue("100") == 100
  {
    assert "100"[..2] == "10";
    assert "10"[..1] == "1";
    assert "1"[..0] == "";
  }

  lemma DigitsOf20()
    ensures AllDigits("20") && DigitsValue("20") == 20
  {
    assert "20"[..1] == "2";
    assert "2"[..0] == "";
  }

  lemma DigitsOf90()
    ensures AllDigits("90") && DigitsValue("90") == 90
  {
    assert "90"[..1] == "9";
    assert "9"[..0] == "";
  }
}
