/**
 * The token-lifetime helpers of the frontend (frontend/src/utils/tokenUtils.js): when a login
 * token expires, how much time it has left in hours and minutes, how that is shown, and whether
 * it has expired. Decoding the token is abstracted to its outcome, and the clock is a parameter.
 */
module TokenUtils {
  import opened Wrappers
  import opened Text

  /**
   * What reading a stored token gives: nothing stored (`null` or the empty string), a payload
   * that `atob`/`JSON.parse` reject, or the payload's `exp` claim in whole seconds.
   */
  datatype Token = NoToken | Unreadable | WithExpiry(exp: int)

  /** Milliseconds in an hour and in a minute. */
  const MsPerHour: int := 1000 * 60 * 60
  const MsPerMinute: int := 1000 * 60

  /** `getTokenExpirationTime`: the expiry instant in milliseconds, when the token can be read. */
  function ExpirationTime(token: Token): (t: Option<int>)
    ensures t.Some? <==> token.WithExpiry?
    ensures t.Some? ==> t.value / 1000 == token.exp && t.value % 1000 == 0
  {
    match token
    case WithExpiry(exp) => Some(exp * 1000)
    case _ => None
  }

  /** The object `getTokenRemainingTime` returns. */
  datatype Remaining = Remaining(hours: int, minutes: int, total: int)

  /**
   * `getTokenRemainingTime` at instant `now` (milliseconds): nothing once the expiry is reached,
   * otherwise the time left, split into whole hours and the whole minutes of the last hour.
   */
  function RemainingTime(token: Token, now: int): (r: Option<Remaining>)
    ensures r.None? <==> ExpirationTime(token).None? || ExpirationTime(token).value <= now
    ensures r.Some? ==> r.value.total == ExpirationTime(token).value - now > 0
    ensures r.Some? ==> r.value.hours >= 0 && 0 <= r.value.minutes < 60
    ensures r.Some? ==> r.value.hours * MsPerHour + r.value.minutes * MsPerMinute <= r.value.total
    ensures r.Some? ==> r.value.total < r.value.hours * MsPerHour + (r.value.minutes + 1) * MsPerMinute
  {
    match ExpirationTime(token)
    case None => None
    case Some(expiry) =>
      var timeLeft := expiry - now;
      if timeLeft <= 0 then None
      else Some(Remaining(timeLeft / MsPerHour, (timeLeft % MsPerHour) / MsPerMinute, timeLeft))
  }

  /** Hours and minutes that bracket a time left as `RemainingTime` promises are the ones it computes. */
  lemma RemainingSplitUnique(total: int, hours: int, minutes: int)
    requires total > 0 && hours >= 0 && 0 <= minutes < 60
    requires hours * MsPerHour + minutes * MsPerMinute <= total < hours * MsPerHour + (minutes + 1) * MsPerMinute
    ensures hours == total / MsPerHour && minutes == (total % MsPerHour) / MsPerMinute
  {
    var rest := total - hours * MsPerHour;
    assert minutes * MsPerMinute <= rest < (minutes + 1) * MsPerMinute;
    assert 0 <= rest < MsPerHour;
    assert total == hours * MsPerHour + rest;
    assert total / MsPerHour == hours && total % MsPerHour == rest;
    assert rest == minutes * MsPerMinute + (rest - minutes * MsPerMinute);
  }

  /**
   * `isTokenExpired` at instant `now` (milliseconds): a token that is missing or unreadable counts
   * as expired; otherwise it has expired once `exp` is strictly below the current time in seconds,
   * compared as the exact quotient `Date.now() / 1000`.
   */
  function IsTokenExpired(token: Token, now: int): (expired: bool)
    ensures expired <==> ExpirationTime(token).None? || ExpirationTime(token).value < now
  {
    match token
    case WithExpiry(exp) =>
      assert (exp as real) < (now as real) / 1000.0 <==> exp * 1000 < now;
      (exp as real) < (now as real) / 1000.0
    case _ => true
  }

  /**
   * The two helpers disagree at exactly one instant: when `now` equals the expiry, no time is left
   * but the token is not yet expired. Everywhere else, no time left means expired.
   */
  lemma ExpiryBoundary(token: Token, now: int)
    ensures RemainingTime(token, now).None? <==>
      IsTokenExpired(token, now) || (token.WithExpiry? && token.exp * 1000 == now)
    ensures RemainingTime(token, now).Some? ==> !IsTokenExpired(token, now)
  {
  }

  /**
   * `formatTimeRemaining`: `'Expired'` for no time left, `"<h>h <m>m"` with at least one hour
   * left, otherwise `"<m>m"`.
   */
  function FormatTimeRemaining(timeLeft: Option<Remaining>): (s: string)
    ensures s == "Expired" <==> timeLeft.None?
    ensures timeLeft.Some? ==> |s| >= 2 && s[|s| - 1] == 'm'
  {
    match timeLeft
    case None => "Expired"
    case Some(t) =>
      var s := if t.hours > 0 then IntToString(t.hours) + "h " + IntToString(t.minutes) + "m"
               else IntToString(t.minutes) + "m";
      assert s[|s| - 1] == 'm' != "Expired"[6];
      s
  }

  /** Length of the run of decimal digits `s` starts with. */
  function DigitRun(s: string): (n: nat)
    ensures n <= |s| && AllDigits(s[..n]) && (n < |s| ==> !('0' <= s[n] <= '9'))
  {
    if s == [] || !('0' <= s[0] <= '9') then 0
    else
      var n := 1 + DigitRun(s[1..]);
      assert s[..n] == [s[0]] + s[1..][..n - 1];
      n
  }

  /** Digits followed by a non-digit: the digit run ends exactly at that character. */
  lemma {:induction false} DigitRunStops(x: string, c: char, y: string)
    requires AllDigits(x) && !('0' <= c <= '9')
    ensures DigitRun(x + [c] + y) == |x|
  {
    if x != [] {
      assert (x + [c] + y)[1..] == x[1..] + [c] + y;
      DigitRunStops(x[1..], c, y);
    }
  }

  /** A string of digits followed by a non-digit splits there in only one way. */
  lemma SplitAtNonDigit(x: string, y: string, x2: string, y2: string, c: char)
    requires AllDigits(x) && AllDigits(x2) && !('0' <= c <= '9')
    requires x + [c] + y == x2 + [c] + y2
    ensures x == x2 && y == y2
  {
    var s := x + [c] + y;
    DigitRunStops(x, c, y);
    DigitRunStops(x2, c, y2);
    assert x == s[..|x|] == x2;
    assert y == s[|x| + 1..] == y2;
  }

  /** What is shown with at least one hour left. */
  lemma ShownWithHours(t: Remaining)
    requires t.hours > 0 && t.minutes >= 0
    ensures FormatTimeRemaining(Some(t)) == NatToString(t.hours) + ['h'] + (" " + NatToString(t.minutes) + "m")
  {
  }

  /** What is shown with less than an hour left. */
  lemma ShownMinutes(t: Remaining)
    requires t.hours == 0 && t.minutes >= 0
    ensures FormatTimeRemaining(Some(t)) == NatToString(t.minutes) + ['m'] + []
  {
  }

  /**
   * The text shown tells the time left apart: two remaining times (as `RemainingTime` produces,
   * with no negative part) that are shown alike have the same hours and minutes.
   */
  lemma FormatTellsApart(a: Remaining, b: Remaining)
    requires a.hours >= 0 && a.minutes >= 0 && b.hours >= 0 && b.minutes >= 0
    requires FormatTimeRemaining(Some(a)) == FormatTimeRemaining(Some(b))
    ensures a.hours == b.hours && a.minutes == b.minutes
  {
    var s := FormatTimeRemaining(Some(a));
    var ha, ma, hb, mb := NatToString(a.hours), NatToString(a.minutes), NatToString(b.hours), NatToString(b.minutes);
    var ra, rb: nat;
    if a.hours > 0 {
      ShownWithHours(a);
      DigitRunStops(ha, 'h', " " + ma + "m");
      ra := |ha|;
    } else {
      ShownMinutes(a);
      DigitRunStops(ma, 'm', []);
      ra := |ma|;
    }
    if b.hours > 0 {
      ShownWithHours(b);
      DigitRunStops(hb, 'h', " " + mb + "m");
      rb := |hb|;
    } else {
      ShownMinutes(b);
      DigitRunStops(mb, 'm', []);
      rb := |mb|;
    }
    assert ra == DigitRun(s) == rb;
    if a.hours > 0 && b.hours > 0 {
      SplitAtNonDigit(ha, " " + ma + "m", hb, " " + mb + "m", 'h');
      assert ma == (" " + ma + "m")[1..|ma| + 1];
      assert mb == (" " + mb + "m")[1..|mb| + 1];
      NatToStringInjective(a.hours, b.hours);
      NatToStringInjective(a.minutes, b.minutes);
    } else if a.hours == 0 && b.hours == 0 {
      SplitAtNonDigit(ma, [], mb, [], 'm');
      NatToStringInjective(a.minutes, b.minutes);
    } else {
      assert false;
    }
  }
}
