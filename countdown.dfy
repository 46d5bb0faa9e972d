/**
 * `updateCountdown` (script.js:378-400): the text of the four countdown
 * elements for a given number of milliseconds left before the wedding.
 * The difference comes in as an integer; reading the clock and parsing the
 * target date are not part of this model.
 */
module Countdown {
  import opened JsText
  import opened Arith

  const MsPerSecond := 1000
  const MsPerMinute := 1000 * 60
  const MsPerHour := 1000 * 60 * 60
  const MsPerDay := 1000 * 60 * 60 * 24

  /** The whole days, hours, minutes and seconds of a positive difference. */
  datatype Parts = Parts(days: nat, hours: nat, minutes: nat, seconds: nat)

  /** The text of the #days, #hours, #minutes and #seconds elements. */
  datatype Display = Display(days: string, hours: string, minutes: string, seconds: string)

  /** The four `Math.floor` computations. Each unit is taken from the remainder
      modulo the next larger unit; together they give the difference back up to
      the milliseconds dropped at the end. */
  function Split(diff: int): (p: Parts)
    requires diff > 0
    ensures p.hours < 24 && p.minutes < 60 && p.seconds < 60
    ensures p.days * MsPerDay + p.hours * MsPerHour + p.minutes * MsPerMinute
            + p.seconds * MsPerSecond + diff % MsPerSecond == diff
  {
    ModOfMultiple(diff, MsPerHour, 24);
    ModOfMultiple(diff, MsPerMinute, 60);
    ModOfMultiple(diff, MsPerSecond, 60);
    var p := Parts(diff / MsPerDay,
                   (diff % MsPerDay) / MsPerHour,
                   (diff % MsPerHour) / MsPerMinute,
                   (diff % MsPerMinute) / MsPerSecond);
    p
  }

  /** `String(n).padStart(2, '0')`. */
  function TwoDigits(n: nat): string {
    PadStart(NatToString(n), 2, '0')
  }

  /** What one call of `updateCountdown` writes into the four elements. */
  function UpdateCountdown(diff: int): (d: Display)
    ensures diff <= 0 ==> d == Zeros()
  {
    if diff <= 0 then Zeros()
    else
      var p := Split(diff);
      Display(NatToString(p.days), TwoDigits(p.hours), TwoDigits(p.minutes), TwoDigits(p.seconds))
  }

  /** The split is the only one with hours below 24 and minutes and seconds below
      60 that adds back up to the difference: an independent definition of it. */
  lemma SplitUnique(diff: int, p: Parts, ms: int)
    requires diff > 0 && 0 <= ms < MsPerSecond
    requires p.hours < 24 && p.minutes < 60 && p.seconds < 60
    requires p.days * MsPerDay + p.hours * MsPerHour + p.minutes * MsPerMinute
             + p.seconds * MsPerSecond + ms == diff
    ensures Split(diff) == p && diff % MsPerSecond == ms
  {
    var q := Split(diff);
    var rest := p.hours * MsPerHour + p.minutes * MsPerMinute + p.seconds * MsPerSecond + ms;
    assert 0 <= rest < MsPerDay;
    DivModUnique(diff, MsPerDay, p.days, rest);
    var rest' := p.minutes * MsPerMinute + p.seconds * MsPerSecond + ms;
    DivModUnique(rest, MsPerHour, p.hours, rest');
    var rest'' := p.seconds * MsPerSecond + ms;
    DivModUnique(rest', MsPerMinute, p.minutes, rest'');
    DivModUnique(rest'', MsPerSecond, p.seconds, ms);
  }

  /** For a positive difference the hours, minutes and seconds are always two
      digits, and every field reads back as the number the split computed. */
  lemma DisplayReadsBack(diff: int)
    requires diff > 0
    ensures var d, p := UpdateCountdown(diff), Split(diff);
      |d.hours| == 2 && |d.minutes| == 2 && |d.seconds| == 2
      && AllDigits(d.days) && AllDigits(d.hours) && AllDigits(d.minutes) && AllDigits(d.seconds)
      && DecimalValue(d.days) == p.days && DecimalValue(d.hours) == p.hours
      && DecimalValue(d.minutes) == p.minutes && DecimalValue(d.seconds) == p.seconds
  {
    var p := Split(diff);
    DecimalValueOfNatToString(p.days);
    PadStartTwoDigits(p.hours);
    PadStartTwoDigits(p.minutes);
    PadStartTwoDigits(p.seconds);
  }

  /** The countdown shows all zeros exactly when less than a second is left,
      which includes every moment from the target time on. */
  lemma ZeroDisplayIff(diff: int)
    ensures UpdateCountdown(diff) == Zeros() <==> diff < MsPerSecond
  {
    if 0 < diff < MsPerSecond {
      SplitUnique(diff, Parts(0, 0, 0, 0), diff);
      assert NatToString(0) == "0";
      assert TwoDigits(0) == "00";
    } else if diff >= MsPerSecond {
      NonZeroDisplay(diff);
    }
  }

  function Zeros(): Display {
    Display("0", "00", "00", "00")
  }

  /** From one second on, some unit of the split is non-zero. */
  lemma SplitNonZero(diff: int)
    requires diff >= MsPerSecond
    ensures var p := Split(diff); p.days > 0 || p.hours > 0 || p.minutes > 0 || p.seconds > 0
  {
  }

  /** The zero texts read back as zero. */
  lemma ZeroTextsValue()
    ensures DecimalValue("0") == 0 && DecimalValue("00") == 0
  {
    assert "00"[..1] == "0";
  }

  lemma NonZeroDisplay(diff: int)
    requires diff >= MsPerSecond
    ensures UpdateCountdown(diff) != Zeros()
  {
    var d, p := UpdateCountdown(diff), Split(diff);
    SplitNonZero(diff);
    ZeroTextsValue();
    if p.days > 0 {
      DecimalValueOfNatToString(p.days);
      assert d.days != "0";
    } else if p.hours > 0 {
      PadStartTwoDigits(p.hours);
      assert d.hours != "00";
    } else if p.minutes > 0 {
      PadStartTwoDigits(p.minutes);
      assert d.minutes != "00";
    } else {
      PadStartTwoDigits(p.seconds);
      assert d.seconds != "00";
    }
  }

  /** One day, one hour, one minute and 1.001 seconds, the last shown as 1 second. */
  lemma OneOfEachExample()
    ensures UpdateCountdown(90061001) == Display("1", "01", "01", "01")
  {
    SplitUnique(90061001, Parts(1, 1, 1, 1), 1);
    assert NatToString(1) == "1";
    assert TwoDigits(1) == "01";
  }
}
