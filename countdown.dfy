/**
 * The arithmetic of `updateCountdown` (script.js): the milliseconds left
 * before the deadline split into days, hours, minutes and seconds, and the
 * text and banner colour chosen from them. The clock is a parameter: the
 * caller passes `distance = deadline - now`.
 */
module Countdown {
  import opened Strings

  const MsPerSecond: nat := 1000
  const MsPerMinute: nat := 60 * 1000
  const MsPerHour: nat := 60 * 60 * 1000
  const MsPerDay: nat := 24 * 60 * 60 * 1000

  datatype Parts = Parts(days: nat, hours: nat, minutes: nat, seconds: nat)

  /** The whole milliseconds a split stands for. */
  function Millis(p: Parts): nat {
    p.days * MsPerDay + p.hours * MsPerHour + p.minutes * MsPerMinute + p.seconds * MsPerSecond
  }

  /** A split whose fields are in clock range. */
  predicate InRange(p: Parts) {
    p.hours < 24 && p.minutes < 60 && p.seconds < 60
  }

  /** Euclidean division by a positive constant has one quotient and one
      remainder; stated per divisor so the arithmetic stays linear. */
  lemma DivModDay(a: int, q: int, r: int)
    requires a == q * MsPerDay + r && 0 <= r < MsPerDay
    ensures a / MsPerDay == q && a % MsPerDay == r
  {
  }

  lemma DivModHour(a: int, q: int, r: int)
    requires a == q * MsPerHour + r && 0 <= r < MsPerHour
    ensures a / MsPerHour == q && a % MsPerHour == r
  {
  }

  lemma DivModMinute(a: int, q: int, r: int)
    requires a == q * MsPerMinute + r && 0 <= r < MsPerMinute
    ensures a / MsPerMinute == q && a % MsPerMinute == r
  {
  }

  lemma DivModSecond(a: int, q: int, r: int)
    requires a == q * MsPerSecond + r && 0 <= r < MsPerSecond
    ensures a / MsPerSecond == q && a % MsPerSecond == r
  {
  }

  /** `Math.floor` of the quotients the code takes; `distance` is not
      negative here, so JavaScript's `%` agrees with Dafny's. */
  function SplitDistance(distance: nat): (p: Parts)
    ensures InRange(p)
    ensures Millis(p) <= distance < Millis(p) + MsPerSecond
  {
    var p := Parts(
      distance / MsPerDay,
      (distance % MsPerDay) / MsPerHour,
      (distance % MsPerHour) / MsPerMinute,
      (distance % MsPerMinute) / MsPerSecond);
    SplitFacts(distance);
    p
  }

  /** The remainders the code takes from `distance` nest: the remainder by
      an hour is the part of the remainder by a day below its hours, and so
      on down to the second. */
  lemma SplitFacts(distance: nat)
    ensures var days, inDay := distance / MsPerDay, distance % MsPerDay;
            var hours, inHour := inDay / MsPerHour, inDay % MsPerHour;
            var minutes, inMinute := inHour / MsPerMinute, inHour % MsPerMinute;
            var seconds, rest := inMinute / MsPerSecond, inMinute % MsPerSecond;
            && distance % MsPerHour == inHour
            && distance % MsPerMinute == inMinute
            && hours < 24 && minutes < 60 && seconds < 60
            && distance == days * MsPerDay + hours * MsPerHour + minutes * MsPerMinute + seconds * MsPerSecond + rest
            && 0 <= rest < MsPerSecond
  {
    var days, inDay := distance / MsPerDay, distance % MsPerDay;
    var hours, inHour := inDay / MsPerHour, inDay % MsPerHour;
    var minutes, inMinute := inHour / MsPerMinute, inHour % MsPerMinute;
    var seconds, rest := inMinute / MsPerSecond, inMinute % MsPerSecond;
    DivModDay(distance, days, inDay);
    DivModHour(inDay, hours, inHour);
    DivModMinute(inHour, minutes, inMinute);
    DivModSecond(inMinute, seconds, rest);
    DivModHour(distance, days * 24 + hours, inHour);
    DivModMinute(distance, (days * 24 + hours) * 60 + minutes, inMinute);
  }

  /** The split is the only in-range decomposition of the distance, so
      days, hours, minutes and seconds are determined by it. */
  lemma SplitIsUnique(distance: nat, p: Parts)
    requires InRange(p)
    requires Millis(p) <= distance < Millis(p) + MsPerSecond
    ensures p == SplitDistance(distance)
  {
    var rest := distance - Millis(p);
    var inMinute := p.seconds * MsPerSecond + rest;
    var inHour := p.minutes * MsPerMinute + inMinute;
    var inDay := p.hours * MsPerHour + inHour;
    DivModDay(distance, p.days, inDay);
    DivModHour(inDay, p.hours, inHour);
    DivModMinute(inHour, p.minutes, inMinute);
    DivModSecond(inMinute, p.seconds, rest);
    SplitFacts(distance);
  }

  /** The text shown for a split: days, hours and minutes while a day or
      more is left, hours, minutes and seconds while an hour or more is,
      minutes and seconds after that. */
  function CountdownText(p: Parts): (r: string)
    ensures r != [] && r[|r| - 1] == (if p.days > 0 then 'm' else 's')
  {
    if p.days > 0 then
      NatToString(p.days) + "d " + NatToString(p.hours) + "h " + NatToString(p.minutes) + "m"
    else if p.hours > 0 then
      NatToString(p.hours) + "h " + NatToString(p.minutes) + "m " + NatToString(p.seconds) + "s"
    else
      NatToString(p.minutes) + "m " + NatToString(p.seconds) + "s"
  }

  /** The unit letters tell the three formats apart: days appear only
      while a day is left, seconds only once less than a day is. */
  lemma CountdownTextUnits(p: Parts)
    ensures 'd' in CountdownText(p) <==> p.days > 0
    ensures 'h' in CountdownText(p) <==> p.days > 0 || p.hours > 0
    ensures 's' in CountdownText(p) <==> p.days == 0
  {
    var d, h, m, sec := NatToString(p.days), NatToString(p.hours), NatToString(p.minutes), NatToString(p.seconds);
    forall c | c in "dhms" ensures c !in d && c !in h && c !in m && c !in sec {
      assert !('0' <= c <= '9');
    }
    if p.days > 0 {
      assert CountdownText(p) == d + "d " + h + "h " + m + "m";
    } else if p.hours > 0 {
      assert CountdownText(p) == h + "h " + m + "m " + sec + "s";
    } else {
      assert CountdownText(p) == m + "m " + sec + "s";
    }
  }

  /** One tick: the survey is closed, or the countdown shows `text`;
      `lastHour` is the branch that turns the banner red. */
  datatype Tick = Closed | Open(text: string, lastHour: bool)

  function UpdateCountdown(distance: int): (t: Tick)
    ensures t.Closed? <==> distance < 0
    ensures t.Open? ==> (t.lastHour <==> distance < MsPerHour)
    ensures t.Open? ==> t.text == CountdownText(SplitDistance(distance))
  {
    if distance < 0 then Closed
    else
      var p := SplitDistance(distance);
      Open(CountdownText(p), p.days == 0 && p.hours == 0)
  }

  /** Which of the three formats is shown is decided by the size of the
      distance alone. */
  lemma FormatByMagnitude(distance: nat)
    ensures SplitDistance(distance).days > 0 <==> distance >= MsPerDay
    ensures (SplitDistance(distance).days == 0 && SplitDistance(distance).hours > 0)
            <==> MsPerHour <= distance < MsPerDay
    ensures (SplitDistance(distance).days == 0 && SplitDistance(distance).hours == 0)
            <==> distance < MsPerHour
  {
    var p := SplitDistance(distance);
    assert Millis(p) <= distance < Millis(p) + MsPerSecond;
  }
}
