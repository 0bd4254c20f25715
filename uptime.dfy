/**
 * The uptime reported by the health endpoint: elapsed whole seconds since
 * the start instant (the clock reading lazily taken at the first health
 * request), split into hours, minutes and seconds and rendered as
 * "<h>h<m>m<s>s". There is no day component, so hours are unbounded.
 */
module Uptime {
  import opened Wrappers
  import opened Decimal

  /** Clock readings are nanoseconds on the system clock's scale (`SystemTime`). */
  const NANOS_PER_SEC: nat := 1_000_000_000

  /** An hours/minutes/seconds triple. */
  datatype Hms = Hms(hours: nat, minutes: nat, seconds: nat)

  /** Minutes and seconds are each below 60; hours are unbounded. */
  predicate Canonical(x: Hms) {
    x.minutes < 60 && x.seconds < 60
  }

  function TotalSeconds(x: Hms): nat {
    x.hours * 3600 + x.minutes * 60 + x.seconds
  }

  /** Lexicographic order on (hours, minutes, seconds). */
  predicate LexLe(x: Hms, y: Hms) {
    x.hours < y.hours
    || (x.hours == y.hours && x.minutes < y.minutes)
    || (x.hours == y.hours && x.minutes == y.minutes && x.seconds <= y.seconds)
  }

  /**
   * The three integer divisions of the health handler: t / 3600,
   * (t % 3600) / 60 and t % 60. They recombine to `t` with minutes and
   * seconds in 0..59.
   */
  function Split(t: nat): (r: Hms)
    ensures Canonical(r)
    ensures TotalSeconds(r) == t
  {
    Hms(t / 3600, (t % 3600) / 60, t % 60)
  }

  /** A canonical triple is determined by its total: Split is the only decomposition with minutes and seconds below 60. */
  lemma SplitUnique(t: nat, x: Hms)
    requires Canonical(x) && TotalSeconds(x) == t
    ensures x == Split(t)
  {
    var y := Split(t);
    LexLeIffTotal(x, y);
    LexLeIffTotal(y, x);
  }

  /** On canonical triples the lexicographic order is the order of their totals. */
  lemma LexLeIffTotal(x: Hms, y: Hms)
    requires Canonical(x) && Canonical(y)
    ensures LexLe(x, y) <==> TotalSeconds(x) <= TotalSeconds(y)
  {
    assert x.minutes * 60 + x.seconds < 3600;
    assert y.minutes * 60 + y.seconds < 3600;
    if x.hours < y.hours {
      assert x.hours * 3600 + 3600 <= y.hours * 3600;
    } else if y.hours < x.hours {
      assert y.hours * 3600 + 3600 <= x.hours * 3600;
    } else if x.minutes < y.minutes {
      assert x.minutes * 60 + 60 <= y.minutes * 60;
    } else if y.minutes < x.minutes {
      assert y.minutes * 60 + 60 <= x.minutes * 60;
    }
  }

  /** More elapsed seconds never give a lexicographically smaller triple, and conversely. */
  lemma SplitMonotone(t1: nat, t2: nat)
    ensures t1 <= t2 <==> LexLe(Split(t1), Split(t2))
  {
    LexLeIffTotal(Split(t1), Split(t2));
  }

  /** There is no day rollover: one day and one hour is reported as 25 hours. */
  lemma NoDayRollover()
    ensures Split(90000) == Hms(25, 0, 0)
    ensures UptimeString(90000) == "25h0m0s"
  {
    assert NatToString(25) == "25" by {
      assert NatToString(2) == "2";
    }
  }

  /**
   * `START_TIME.elapsed().unwrap_or_default().as_secs()`: the whole seconds
   * from `start` to `now`, truncated; zero when the clock reads earlier than
   * the start (the elapsed computation fails and defaults to a zero duration).
   */
  function UptimeSeconds(start: int, now: int): (t: nat)
    ensures now < start ==> t == 0
    ensures start <= now ==> t * NANOS_PER_SEC <= now - start < (t + 1) * NANOS_PER_SEC
  {
    var elapsed: Option<nat> := if start <= now then Some(now - start) else None;
    elapsed.GetOr(0) / NANOS_PER_SEC
  }

  /** Uptime never decreases as the clock advances, including across a clock that reads before the start. */
  lemma UptimeMonotone(start: int, now1: int, now2: int)
    requires now1 <= now2
    ensures UptimeSeconds(start, now1) <= UptimeSeconds(start, now2)
  {
    if start <= now1 {
      var d1, d2 := now1 - start, now2 - start;
      assert d1 / NANOS_PER_SEC <= d2 / NANOS_PER_SEC;
    }
  }

  /**
   * The `format!("{}h{}m{}s", ...)` text of `t` seconds: it reads back to
   * exactly the split of `t`.
   */
  function UptimeString(t: nat): (r: string)
    ensures ParseUptime(r) == Some(Split(t))
  {
    FormatRoundTrip(t / 3600, (t % 3600) / 60, t % 60);
    NatToString(t / 3600) + "h" + NatToString((t % 3600) / 60) + "m" + NatToString(t % 60) + "s"
  }

  /** A clock earlier than the start time is reported as "0h0m0s". */
  lemma ClockBeforeStart(start: int, now: int)
    requires now < start
    ensures UptimeString(UptimeSeconds(start, now)) == "0h0m0s"
  {
    var t := UptimeSeconds(start, now);
    assert t / 3600 == 0 && (t % 3600) / 60 == 0 && t % 60 == 0;
    ZeroText();
  }

  lemma ZeroText()
    ensures NatToString(0) + "h" + NatToString(0) + "m" + NatToString(0) + "s" == "0h0m0s"
  {
    assert NatToString(0) == "0";
  }

  /** Length of the longest prefix of `s` made of decimal digits. */
  function DigitRunLength(s: string): (k: nat)
    ensures k <= |s|
    ensures AllDigits(s[..k])
    ensures k < |s| ==> !IsDigit(s[k])
  {
    if |s| == 0 || !IsDigit(s[0]) then
      0
    else
      var k := 1 + DigitRunLength(s[1..]);
      assert forall i :: 1 <= i < k ==> s[..k][i] == s[1..][..k - 1][i - 1];
      k
  }

  /** Reads "<digits><unit>" from the front of `s`, returning the number and the rest. */
  function ReadField(s: string, unit: char): Option<(nat, string)> {
    var k := DigitRunLength(s);
    if 0 < k < |s| && s[k] == unit then Some((DigitsValue(s[..k]), s[k + 1..])) else None
  }

  /** The inverse of the uptime format: reads "<h>h<m>m<s>s" back into a triple. */
  function ParseUptime(s: string): Option<Hms> {
    match ReadField(s, 'h')
    case None => None
    case Some((h, rest1)) =>
      match ReadField(rest1, 'm')
      case None => None
      case Some((m, rest2)) =>
        match ReadField(rest2, 's')
        case None => None
        case Some((sec, rest3)) =>
          if rest3 == [] then Some(Hms(h, m, sec)) else None
  }

  lemma ReadFieldOf(d: string, unit: char, rest: string)
    requires |d| > 0 && AllDigits(d) && !IsDigit(unit)
    ensures ReadField(d + [unit] + rest, unit) == Some((DigitsValue(d), rest))
  {
    var s := d + [unit] + rest;
    assert s[..|d|] == d;
    assert s[|d|] == unit;
    var k := DigitRunLength(s);
    assert k == |d|;
    assert s[k + 1..] == rest;
  }

  /** Any three numbers rendered in decimal and joined by h, m and s read back to those numbers. */
  lemma {:induction false} FormatRoundTrip(h: nat, m: nat, sec: nat)
    ensures ParseUptime(NatToString(h) + "h" + NatToString(m) + "m" + NatToString(sec) + "s")
            == Some(Hms(h, m, sec))
  {
    var dh, dm, ds := NatToString(h), NatToString(m), NatToString(sec);
    var rest2 := ds + "s";
    var rest1 := dm + "m" + rest2;
    assert dh + "h" + dm + "m" + ds + "s" == dh + ['h'] + rest1;
    assert rest1 == dm + ['m'] + rest2;
    assert rest2 == ds + ['s'] + [];
    ReadFieldOf(dh, 'h', rest1);
    ReadFieldOf(dm, 'm', rest2);
    ReadFieldOf(ds, 's', []);
  }

  /** Distinct uptimes are reported as distinct strings. */
  lemma UptimeStringInjective(t1: nat, t2: nat)
    requires UptimeString(t1) == UptimeString(t2)
    ensures t1 == t2
  {
    assert Split(t1) == Split(t2);
  }
}
