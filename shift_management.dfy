// The shift list's clock display (src/components/ShiftManagement.tsx,
// formatTime): a 24-hour "HH:MM" text shown as a 12-hour time with AM/PM.

module ShiftClock {

  import opened Wrappers
  import opened Text

  /** formatTime: split at ':', parseInt the hours (None is NaN), "PM" from 12 on, JavaScript's
      truncating `hour % 12` with 0 (and NaN) shown as 12; a text without ':' has the minutes
      `undefined`. */
  function FormatTime(time: string): string {
    var parts := Split(time, ':');
    ClockText(ParseInt(parts[0]), if |parts| > 1 then parts[1] else "undefined")
  }

  /** The display of a parsed hour and the minutes text. */
  function ClockText(hour: Option<int>, minutes: string): string {
    var ampm := if hour.Some? && hour.value >= 12 then "PM" else "AM";
    var rem := if hour.Some? then TruncRem(hour.value, 12) else 0;
    var displayHour := if rem != 0 then IntToString(rem) else "12";
    displayHour + ":" + minutes + " " + ampm
  }

  /** The 12-hour clock hour of a 24-hour hour. */
  function DisplayHour(hour: nat): nat {
    if hour % 12 == 0 then 12 else hour % 12
  }

  /** Reading a 12-hour time back as a 24-hour hour. */
  function To24(displayHour: nat, pm: bool): nat {
    displayHour % 12 + (if pm then 12 else 0)
  }

  /** For every hour of the day: the shown hour is in 1..12, "PM" exactly from noon on, midnight
      is 12 AM and noon 12 PM, and the 12-hour reading gives the hour back. */
  lemma DisplayHourFacts(hour: nat)
    requires hour < 24
    ensures 1 <= DisplayHour(hour) <= 12
    ensures hour == 0 ==> DisplayHour(hour) == 12
    ensures hour == 12 ==> DisplayHour(hour) == 12
    ensures To24(DisplayHour(hour), hour >= 12) == hour
  {
  }

  /** An "HH:MM" text of an hour below 24 is shown as that hour on the 12-hour clock, with the
      minutes passed through untouched. */
  lemma FormatTimeOfHour(hour: nat, minutes: string)
    requires hour < 24 && ':' !in minutes
    ensures FormatTime(Pad2(hour) + ":" + minutes)
      == NatToString(DisplayHour(hour)) + ":" + minutes + " " + (if hour >= 12 then "PM" else "AM")
  {
    var hh := Pad2(hour);
    assert ':' !in hh by {
      assert forall i :: 0 <= i < |hh| ==> IsDigit(hh[i]);
    }
    FormatTimeParts(hh, minutes);
    ParseIntDecimal(hh);
    ClockTextOfHour(hour, minutes);
  }

  /** The display of a non-negative hour. */
  lemma ClockTextOfHour(hour: nat, minutes: string)
    ensures ClockText(Some(hour), minutes)
      == NatToString(DisplayHour(hour)) + ":" + minutes + " " + (if hour >= 12 then "PM" else "AM")
  {
    var rem := TruncRem(hour, 12);
    assert rem == hour % 12;
    var shown := if rem != 0 then IntToString(rem) else "12";
    assert shown == NatToString(DisplayHour(hour)) by {
      if rem == 0 {
        assert NatToString(12) == NatToString(1) + [DigitChar(2)];
      }
    }
  }

  /** The text splits into the hour text, which is parsed, and the minutes. */
  lemma FormatTimeParts(hh: string, minutes: string)
    requires ':' !in hh && ':' !in minutes
    ensures FormatTime(hh + ":" + minutes) == ClockText(ParseInt(hh), minutes)
  {
    SplitAtSeparator(hh, ':', minutes);
    SplitNoSeparator(minutes, ':');
  }

  /** Hour texts that are not plain two-digit hours, read as parseInt reads them: leading
      whitespace is skipped, a sign is taken, "0x" introduces hexadecimal, and the remainder
      keeps the sign of a negative hour. */
  lemma FormatTimeLenientHours()
    ensures FormatTime(" 7:30") == "7:30 AM"
    ensures FormatTime("+13:05") == "1:05 PM"
    ensures FormatTime("-5:30") == "-5:30 AM"
    ensures FormatTime("0x1A:00") == "2:00 PM"
  {
    LeadingSpaceHour();
    PlusSignHour();
    MinusSignHour();
    HexHour();
  }

  lemma LeadingSpaceHour()
    ensures FormatTime(" 7:30") == "7:30 AM"
  {
    LeadingSpaceHourParts();
    LeadingSpaceHourParsed();
    LeadingSpaceHourClock();
  }

  lemma LeadingSpaceHourParts()
    ensures FormatTime(" 7:30") == ClockText(ParseInt(" 7"), "30")
  {
    assert " 7" + ":" + "30" == " 7:30";
    FormatTimeParts(" 7", "30");
  }

  lemma LeadingSpaceHourClock()
    ensures ClockText(Some(7), "30") == "7:30 AM"
  {
    assert NatToString(7) == "7";
    ClockTextOfHour(7, "30");
  }

  lemma LeadingSpaceHourParsed()
    ensures ParseInt(" 7") == Some(7)
  {
    assert " " + "7" == " 7";
    LeadingSpaceSkipped();
    ParsedSeven();
  }

  lemma LeadingSpaceSkipped()
    ensures ParseInt(" " + "7") == ParseInt("7")
  {
    ParseIntSkipsSpace(" ", "7");
  }

  lemma ParsedSeven()
    ensures ParseInt("7") == Some(7)
  {
    assert DigitsValue("7") == 7;
    ParseIntDecimal("7");
  }

  lemma PlusSignHour()
    ensures FormatTime("+13:05") == "1:05 PM"
  {
    PlusSignHourParts();
    PlusSignHourParsed();
    PlusSignHourClock();
  }

  lemma PlusSignHourParts()
    ensures FormatTime("+13:05") == ClockText(ParseInt("+13"), "05")
  {
    assert "+13" + ":" + "05" == "+13:05";
    FormatTimeParts("+13", "05");
  }

  lemma PlusSignHourClock()
    ensures ClockText(Some(13), "05") == "1:05 PM"
  {
    assert NatToString(1) == "1";
    ClockTextOfHour(13, "05");
  }

  lemma PlusSignHourParsed()
    ensures ParseInt("+13") == Some(13)
  {
    assert "+" + "13" == "+13";
    assert DigitsValue("13") == 13 by {
      assert "13"[..1] == "1";
    }
    ParseIntSign("13");
    ParseIntDecimal("13");
  }

  lemma MinusSignHour()
    ensures FormatTime("-5:30") == "-5:30 AM"
  {
    MinusSignHourParts();
    MinusSignHourParsed();
    MinusSignHourClock();
  }

  lemma MinusSignHourParts()
    ensures FormatTime("-5:30") == ClockText(ParseInt("-5"), "30")
  {
    assert "-5" + ":" + "30" == "-5:30";
    FormatTimeParts("-5", "30");
  }

  lemma MinusSignHourClock()
    ensures ClockText(Some(-5), "30") == "-5:30 AM"
  {
    assert IntToString(-5) == "-5" by {
      assert NatToString(5) == "5";
    }
    assert TruncRem(-5, 12) == -5;
  }

  lemma MinusSignHourParsed()
    ensures ParseInt("-5") == Some(-5)
  {
    assert "-" + "5" == "-5";
    ParsedFive();
    ParseIntSign("5");
  }

  lemma ParsedFive()
    ensures ParseInt("5") == Some(5)
  {
    assert DigitsValue("5") == 5;
    ParseIntDecimal("5");
  }

  lemma HexHour()
    ensures FormatTime("0x1A:00") == "2:00 PM"
  {
    HexHourParts();
    HexHourParsed();
    HexHourClock();
  }

  lemma HexHourParts()
    ensures FormatTime("0x1A:00") == ClockText(ParseInt("0x1A"), "00")
  {
    assert "0x1A" + ":" + "00" == "0x1A:00";
    FormatTimeParts("0x1A", "00");
  }

  lemma HexHourClock()
    ensures ClockText(Some(26), "00") == "2:00 PM"
  {
    assert NatToString(2) == "2";
    ClockTextOfHour(26, "00");
  }

  lemma HexHourParsed()
    ensures ParseInt("0x1A") == Some(26)
  {
    assert "0x" + "1A" == "0x1A";
    assert RadixValue("1A", 16) == 26 by {
      assert "1A"[..1] == "1";
      assert "1"[..0] == "";
    }
    ParseIntHex("1A");
  }
}
