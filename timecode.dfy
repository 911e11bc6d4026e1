/** `seconds_to_hms` (create_video.py:438-443) on a whole, non-negative
    number of seconds. */
module Timecode {
  import opened Wrappers
  import opened Text

  datatype Clock = Clock(hours: nat, minutes: nat, secs: nat)

  /** The three fields: `seconds // 3600`, `(seconds % 3600) // 60` and
      `seconds % 60`. They add back up to the duration, and minutes and
      seconds stay below sixty. */
  function ClockOf(seconds: nat): (c: Clock)
    ensures c.hours * 3600 + c.minutes * 60 + c.secs == seconds
    ensures c.minutes < 60 && c.secs < 60
  {
    var c := Clock(seconds / 3600, (seconds % 3600) / 60, seconds % 60);
    assert (seconds % 3600) % 60 == seconds % 60;
    c
  }

  /** `f"{n:02d}"`: at least two digits, padded with a zero. */
  function Pad2(n: nat): string {
    if n < 10 then "0" + DecimalString(n) else DecimalString(n)
  }

  function SecondsToHms(seconds: nat): string {
    var c := ClockOf(seconds);
    Pad2(c.hours) + ":" + Pad2(c.minutes) + ":" + Pad2(c.secs)
  }

  /** A padded field is made of digits, at least two, that read back as the
      number; below a hundred it is exactly two, and from ten on it is the
      plain decimal spelling, with no leading zero. */
  lemma Pad2Facts(n: nat)
    ensures AllDigits(Pad2(n)) && |Pad2(n)| >= 2
    ensures n < 100 ==> |Pad2(n)| == 2
    ensures n >= 10 ==> Pad2(n) == DecimalString(n) && Pad2(n)[0] != '0'
    ensures DecimalValue(Pad2(n)) == n
  {
    DecimalRoundTrip(n);
    if n < 10 {
      var p := Pad2(n);
      assert p[..1] == "0";
      assert p[1] == DecimalString(n)[0];
    } else if n < 100 {
      assert DecimalString(n) == DecimalString(n / 10) + [DigitChar(n % 10)];
    }
  }

  /** Reading an `HH:MM:SS` string back: the hours are everything before
      the last two fields. */
  function HmsSeconds(t: string): Option<nat> {
    if |t| >= 8 && t[|t| - 6] == ':' && t[|t| - 3] == ':'
       && AllDigits(t[..|t| - 6]) && AllDigits(t[|t| - 5..|t| - 3]) && AllDigits(t[|t| - 2..])
    then Some(DecimalValue(t[..|t| - 6]) * 3600 + DecimalValue(t[|t| - 5..|t| - 3]) * 60 + DecimalValue(t[|t| - 2..]))
    else None
  }

  /** Reading `h:m:s` back when the last two fields are two digits wide. */
  lemma {:induction false} HmsSecondsOfFields(h: string, m: string, s: string)
    requires AllDigits(h) && AllDigits(m) && AllDigits(s) && |h| >= 2 && |m| == 2 && |s| == 2
    ensures HmsSeconds(h + ":" + m + ":" + s) == Some(DecimalValue(h) * 3600 + DecimalValue(m) * 60 + DecimalValue(s))
  {
    var t := h + ":" + m + ":" + s;
    assert t == h + ([':'] + m + [':'] + s);
    assert |t| == |h| + 6;
    assert t[..|t| - 6] == h && t[|t| - 5..|t| - 3] == m && t[|t| - 2..] == s;
  }

  /** The formatted duration reads back as the same number of seconds. */
  lemma {:induction false} HmsRoundTrip(seconds: nat)
    ensures HmsSeconds(SecondsToHms(seconds)) == Some(seconds)
  {
    var c := ClockOf(seconds);
    Pad2Facts(c.hours);
    Pad2Facts(c.minutes);
    Pad2Facts(c.secs);
    HmsSecondsOfFields(Pad2(c.hours), Pad2(c.minutes), Pad2(c.secs));
  }

  /** Below a hundred hours the text is always eight characters. */
  lemma HmsWidth(seconds: nat)
    requires seconds < 360000
    ensures |SecondsToHms(seconds)| == 8
  {
    var c := ClockOf(seconds);
    Pad2Facts(c.hours);
    Pad2Facts(c.minutes);
    Pad2Facts(c.secs);
  }
}
