/** Display helpers (lib/utils.ts): address shortening and relative time. */
module Utils {

  /** Shortens an address of ten or more characters to its first six and last four characters. */
  function TruncateAddress(address: string): (r: string)
    ensures |address| < 10 ==> r == address
    ensures |address| >= 10 ==> |r| == 13
    ensures |address| >= 10 ==> r[..6] == address[..6] && r[6..9] == "..." && r[9..] == address[|address| - 4..]
  {
    if |address| < 10 then address
    else address[..6] + "..." + address[|address| - 4..]
  }

  /** Shortening an already shortened address changes nothing. */
  lemma TruncateIdempotent(address: string)
    ensures TruncateAddress(TruncateAddress(address)) == TruncateAddress(address)
  {
    var r := TruncateAddress(address);
    if |address| >= 10 {
      assert r == r[..6] + r[6..9] + r[9..];
    }
  }

  // ----- decimal rendering of counts (template-literal interpolation of an integer) -----

  function DigitChar(d: nat): (c: char)
    requires d < 10
    ensures '0' <= c <= '9'
  {
    ['0', '1', '2', '3', '4', '5', '6', '7', '8', '9'][d]
  }

  predicate IsDigits(s: string) {
    forall i :: 0 <= i < |s| ==> '0' <= s[i] <= '9'
  }

  /** The decimal digits of n, without leading zeros. */
  function NatToString(n: nat): (r: string)
    ensures |r| >= 1 && IsDigits(r)
    ensures |r| > 1 ==> r[0] != '0'
  {
    if n < 10 then [DigitChar(n)] else NatToString(n / 10) + [DigitChar(n % 10)]
  }

  /** Reads a string of decimal digits back as a number. */
  function ParseDigits(s: string): nat
    requires IsDigits(s)
  {
    if s == [] then 0 else 10 * ParseDigits(s[..|s| - 1]) + (s[|s| - 1] as int - '0' as int)
  }

  lemma {:induction false} ParseNatToString(n: nat)
    ensures ParseDigits(NatToString(n)) == n
  {
    var s := NatToString(n);
    if n < 10 {
      assert s[..0] == [];
    } else {
      var init := NatToString(n / 10);
      assert s[..|s| - 1] == init;
      ParseNatToString(n / 10);
    }
  }

  // ----- relative time -----

  datatype TimeUnit = Sec | Min | Hour | Day

  function UnitName(u: TimeUnit): string {
    match u
    case Sec => "sec"
    case Min => "min"
    case Hour => "hour"
    case Day => "day"
  }

  /** `${count} ${unit}${count === 1 ? "" : "s"} ago` */
  function Ago(count: nat, u: TimeUnit): string {
    NatToString(count) + " " + UnitName(u) + (if count == 1 then "" else "s") + " ago"
  }

  /**
   * How long before `now` the instant `timestamp` lies, both in milliseconds since the epoch.
   * Math.floor and Dafny's division agree for the positive divisors used here.
   */
  function FormatRelativeTime(timestamp: int, now: int): string {
    var diffMs := now - timestamp;
    var diffSecs := diffMs / 1000;
    if diffSecs < 1 then "just now"
    else if diffSecs < 60 then Ago(diffSecs, Sec)
    else
      var diffMins := diffSecs / 60;
      if diffMins < 60 then Ago(diffMins, Min)
      else
        var diffHours := diffMins / 60;
        if diffHours < 24 then Ago(diffHours, Hour)
        else Ago(diffHours / 24, Day)
  }

  /** Length of a unit in milliseconds. */
  function UnitMs(u: TimeUnit): nat {
    match u
    case Sec => 1000
    case Min => 60 * 1000
    case Hour => 60 * 60 * 1000
    case Day => 24 * 60 * 60 * 1000
  }

  /** The largest unit not longer than the elapsed time, for an elapsed time of at least a second. */
  function UnitFor(diffMs: int): TimeUnit {
    if diffMs < UnitMs(Min) then Sec
    else if diffMs < UnitMs(Hour) then Min
    else if diffMs < UnitMs(Day) then Hour
    else Day
  }

  /**
   * The bucket is chosen by the elapsed time alone: under a second it is "just now";
   * otherwise the count in the largest unit that fits, rounded down.
   */
  lemma {:induction false} RelativeTimeBuckets(timestamp: int, now: int)
    ensures now - timestamp < 1000 ==> FormatRelativeTime(timestamp, now) == "just now"
    ensures now - timestamp >= 1000 ==>
      var d := now - timestamp;
      FormatRelativeTime(timestamp, now) == Ago(d / UnitMs(UnitFor(d)), UnitFor(d))
  {
    var d := now - timestamp;
    if d >= 1000 {
      // floor division by the constants composes: seconds to minutes to hours to days
      var secs := d / 1000;
      assert secs / 60 == d / 60000;
      assert secs / 60 / 60 == d / 3600000;
      assert secs / 60 / 60 / 24 == d / 86400000;
      assert secs < 60 <==> d < 60000;
      assert secs / 60 < 60 <==> d < 3600000;
      assert secs / 60 / 60 < 24 <==> d < 86400000;
    }
  }

  /** "just now" is shown exactly when less than a second has elapsed, including a timestamp in the future. */
  lemma JustNowExactly(timestamp: int, now: int)
    ensures FormatRelativeTime(timestamp, now) == "just now" <==> now - timestamp < 1000
  {
    RelativeTimeBuckets(timestamp, now);
    var d := now - timestamp;
    if d >= 1000 {
      var u := UnitFor(d);
      var r := Ago(d / UnitMs(u), u);
      assert r[0] == NatToString(d / UnitMs(u))[0];
      assert "just now"[0] == 'j';
    }
  }

  /** A unit is written in the plural exactly when the count is not 1. */
  lemma PluralUnlessOne(count: nat, u: TimeUnit)
    ensures var r := Ago(count, u);
      |r| >= 5 && (r[|r| - 5..] == "s ago" <==> count != 1)
  {
    var r := Ago(count, u);
    var stem := NatToString(count) + " " + UnitName(u);
    if count == 1 {
      assert r == stem + " ago";
      assert r[|r| - 5] == stem[|stem| - 1] != 's';
    } else {
      assert r == (stem + "s") + " ago";
      assert r[|r| - 5..] == "s ago";
    }
  }
}
