/**
 * src/api/xmltv_api.rs: the string logic of the EPG endpoint, namely
 * reading a timeshift setting such as "-2:30", "+1" or ":45" as signed
 * minutes, and the guard around shifting an XMLTV timestamp
 * ("20240101120000 +0000"). The date arithmetic itself is a parameter.
 */
module XmltvApi {
  import opened Wrappers
  import opened RustChar
  import opened RustInt

  // ---------------------------------------------------------------------
  // str::split and its inverse
  // ---------------------------------------------------------------------

  /** The number of times c occurs in s. */
  function Count(s: string, c: char): nat
    decreases |s|
  {
    if |s| == 0 then 0 else (if s[0] == c then 1 else 0) + Count(s[1..], c)
  }

  /** `s.split(sep)`: the pieces between the separators, always at least one. */
  function Split(s: string, sep: char): (parts: seq<string>)
    ensures |parts| == Count(s, sep) + 1
    ensures forall i :: 0 <= i < |parts| ==> sep !in parts[i]
    decreases |s|
  {
    if |s| == 0 then [""]
    else
      var rest := Split(s[1..], sep);
      if s[0] == sep then [""] + rest
      else
        assert forall i :: 1 <= i < |rest| ==> rest[i] == rest[1..][i - 1];
        [[s[0]] + rest[0]] + rest[1..]
  }

  /** The pieces put back together with the separator between them. */
  function Join(parts: seq<string>, sep: char): string
    requires |parts| >= 1
    decreases |parts|
  {
    if |parts| == 1 then parts[0] else parts[0] + [sep] + Join(parts[1..], sep)
  }

  /** Splitting loses nothing: joining the pieces gives the text back. */
  lemma {:induction false} JoinSplit(s: string, sep: char)
    ensures Join(Split(s, sep), sep) == s
    decreases |s|
  {
    if |s| > 0 {
      JoinSplit(s[1..], sep);
      var rest := Split(s[1..], sep);
      if s[0] == sep {
        assert ([""] + rest)[1..] == rest;
      } else {
        var parts := [[s[0]] + rest[0]] + rest[1..];
        if |rest| == 1 {
          assert parts == [[s[0]] + rest[0]];
        } else {
          assert parts[1..] == rest[1..];
          assert Join(rest, sep) == rest[0] + [sep] + Join(rest[1..], sep);
        }
        assert s == [s[0]] + s[1..];
      }
    }
  }

  /** A piece free of the separator splits into itself. */
  lemma {:induction false} SplitPiece(a: string, sep: char)
    requires sep !in a
    ensures Split(a, sep) == [a]
    decreases |a|
  {
    if |a| > 0 {
      assert a[0] != sep;
      assert sep !in a[1..] by {
        forall k | 0 <= k < |a[1..]|
          ensures a[1..][k] != sep
        {
          assert a[1..][k] == a[k + 1];
        }
      }
      SplitPiece(a[1..], sep);
      assert [a[0]] + a[1..] == a;
    }
  }

  /** A piece free of the separator, then the separator, split into the piece and the split of the rest. */
  lemma {:induction false} SplitAfterPiece(a: string, b: string, sep: char)
    requires sep !in a
    ensures Split(a + [sep] + b, sep) == [a] + Split(b, sep)
    decreases |a|
  {
    var s := a + [sep] + b;
    if |a| == 0 {
      assert s == [sep] + b;
      assert s[1..] == b;
    } else {
      assert s[0] == a[0] && a[0] != sep;
      assert s[1..] == a[1..] + [sep] + b;
      assert sep !in a[1..] by {
        forall k | 0 <= k < |a[1..]|
          ensures a[1..][k] != sep
        {
          assert a[1..][k] == a[k + 1];
        }
      }
      SplitAfterPiece(a[1..], b, sep);
      var rest := Split(s[1..], sep);
      assert rest == [a[1..]] + Split(b, sep);
      assert [a[0]] + a[1..] == a;
      assert rest[1..] == Split(b, sep);
    }
  }

  /** Pieces free of the separator are what splitting their join gives. */
  lemma {:induction false} SplitJoin(parts: seq<string>, sep: char)
    requires |parts| >= 1
    requires forall i :: 0 <= i < |parts| ==> sep !in parts[i]
    ensures Split(Join(parts, sep), sep) == parts
    decreases |parts|
  {
    if |parts| == 1 {
      SplitPiece(parts[0], sep);
    } else {
      SplitJoin(parts[1..], sep);
      SplitAfterPiece(parts[0], Join(parts[1..], sep), sep);
      assert [parts[0]] + parts[1..] == parts;
    }
  }

  // ---------------------------------------------------------------------
  // parse_timeshift
  // ---------------------------------------------------------------------

  predicate IsSign(c: char) {
    c == '-' || c == '+'
  }

  /** `trim_start_matches(&['-', '+'])`: the text after every leading sign. */
  function TrimSigns(s: string): (r: string)
    ensures |r| <= |s| && r == s[|s| - |r|..]
    ensures |r| > 0 ==> !IsSign(r[0])
    ensures forall i :: 0 <= i < |s| - |r| ==> IsSign(s[i])
    decreases |s|
  {
    if |s| > 0 && IsSign(s[0]) then TrimSigns(s[1..]) else s
  }

  /** `parse().unwrap_or(0)` for an `i32`. */
  function NumberOrZero(s: string): int {
    ParseI32(s).GetOr(0)
  }

  /** The hour and minute numbers of an unsigned offset; without a colon the minutes are 0. */
  function Components(offset: string): (int, int) {
    if ':' in offset then
      var parts := Split(offset, ':');
      var hours := if parts[0] == "" then 0 else NumberOrZero(parts[0]);
      var minutes := if |parts| > 1 then NumberOrZero(parts[1]) else 0;
      (hours, minutes)
    else
      (NumberOrZero(offset), 0)
  }

  /** The total with the sign of the setting: negative when it starts with '-'. */
  function Signed(s: string, total: int): int {
    if |s| > 0 && s[0] == '-' then -total else total
  }

  /** `hours * 60 + minutes` without wrap-around. */
  function TotalMinutes(offset: string): int {
    Components(offset).0 * 60 + Components(offset).1
  }

  /**
   * `parse_timeshift` as written: in a release build `hours * 60 +
   * minutes` and `num * 60` wrap around in `i32`.
   */
  function ParseTimeshiftAsWritten(timeShift: Option<string>): (r: Option<int>)
    ensures r.Some? ==> r.value != 0
  {
    match timeShift
    case None => None
    case Some(text) =>
      var total := TotalAsWritten(TrimSigns(text));
      if total > 0 then Some(Signed(text, total)) else None
  }

  /** `total_minutes` as written, with each `i32` operation wrapping. */
  function TotalAsWritten(offset: string): int {
    var (hours, minutes) := Components(offset);
    if ':' in offset then WrapI32(WrapI32(hours * 60) + minutes) else WrapI32(hours * 60)
  }

  /**
   * `parse_timeshift` with the arithmetic it evidently intends: the
   * minutes are hours * 60 + minutes, and a total that does not fit the
   * `i32` result is rejected like a non-positive one.
   */
  function ParseTimeshift(timeShift: Option<string>): (r: Option<int>)
    ensures timeShift.None? ==> r.None?
    ensures r.Some? ==> r.value != 0 && I32Min <= r.value <= I32Max
    ensures r.Some? ==> (r.value < 0 <==> |timeShift.value| > 0 && timeShift.value[0] == '-')
    ensures r.Some? ==> r.value == Signed(timeShift.value, TotalMinutes(TrimSigns(timeShift.value)))
    ensures timeShift.Some? ==> (r.Some? <==> 0 < TotalMinutes(TrimSigns(timeShift.value)) <= I32Max)
  {
    match timeShift
    case None => None
    case Some(text) =>
      var total := TotalMinutes(TrimSigns(text));
      if 0 < total <= I32Max then Some(Signed(text, total)) else None
  }

  lemma ComponentsNoColon(offset: string)
    requires ':' !in offset
    ensures Components(offset) == (NumberOrZero(offset), 0)
  {
  }

  /** An offset "<hours>:<minutes>" has those components, an empty hour part counting as 0. */
  lemma ComponentsColon(hs: string, ms: string)
    requires ':' !in hs && ':' !in ms
    ensures Components(hs + ":" + ms) == (if hs == "" then 0 else NumberOrZero(hs), NumberOrZero(ms))
  {
    var offset := hs + ":" + ms;
    assert offset[|hs|] == ':';
    assert offset == hs + [':'] + ms;
    SplitAfterPiece(hs, ms, ':');
    SplitPiece(ms, ':');
  }

  /** Leading signs followed by a text that does not start with one are trimmed to that text. */
  lemma {:induction false} TrimSignPrefix(signs: string, body: string)
    requires forall i :: 0 <= i < |signs| ==> IsSign(signs[i])
    requires |body| > 0 ==> !IsSign(body[0])
    ensures TrimSigns(signs + body) == body
    decreases |signs|
  {
    if |signs| == 0 {
      assert signs + body == body;
    } else {
      assert (signs + body)[1..] == signs[1..] + body;
      TrimSignPrefix(signs[1..], body);
    }
  }

  /** A number written out reads back, and its text has neither sign nor colon. */
  lemma NumberOfDecimal(n: nat)
    requires n <= I32Max
    ensures NumberOrZero(ToDecimal(n)) == n
    ensures |ToDecimal(n)| > 0 && !IsSign(ToDecimal(n)[0]) && ':' !in ToDecimal(n)
  {
    NatToDecimalDigits(n);
    ParseToDecimal(n, true, I32Min, I32Max);
    NoColonInDigits(ToDecimal(n));
  }

  lemma NoColonInDigits(s: string)
    requires AllDigits(s)
    ensures ':' !in s
  {
    forall i | 0 <= i < |s|
      ensures s[i] != ':'
    {
      assert IsAsciiDigit(s[i]);
    }
  }

  /** Where no intermediate value leaves the `i32` range, the two readings agree. */
  lemma AsWrittenAgreesInRange(text: string)
    requires I32Min <= Components(TrimSigns(text)).0 * 60 <= I32Max
    requires I32Min <= Components(TrimSigns(text)).0 * 60 + Components(TrimSigns(text)).1 <= I32Max
    ensures ParseTimeshiftAsWritten(Some(text)) == ParseTimeshift(Some(text))
  {
    var body := TrimSigns(text);
    TotalInRange(body);
    assert TotalAsWritten(body) == TotalMinutes(body);
  }

  lemma TotalInRange(offset: string)
    requires I32Min <= Components(offset).0 * 60 <= I32Max
    requires I32Min <= Components(offset).0 * 60 + Components(offset).1 <= I32Max
    ensures TotalAsWritten(offset) == Components(offset).0 * 60 + Components(offset).1
  {
    var c := Components(offset);
    if ':' !in offset {
      ComponentsNoColon(offset);
    }
    assert WrapI32(c.0 * 60) == c.0 * 60;
  }

  /** A sign in front of a text that does not start with one: the sign is trimmed and decides the factor. */
  lemma SignedText(negative: bool, body: string)
    requires |body| > 0 && !IsSign(body[0])
    ensures var text := (if negative then "-" else "+") + body;
      TrimSigns(text) == body && (negative <==> text[0] == '-')
  {
    TrimSignPrefix(if negative then "-" else "+", body);
  }

  /** The corrected reading of a text whose trimmed components make a total in range. */
  lemma TimeshiftOfComponents(text: string, h: int, m: int)
    requires Components(TrimSigns(text)) == (h, m) && 0 < h * 60 + m <= I32Max
    ensures ParseTimeshift(Some(text)) == Some(Signed(text, h * 60 + m))
  {
    var body := TrimSigns(text);
    assert TotalMinutes(body) == h * 60 + m;
  }

  /** A sign, the hours and the minutes written out read back as that many minutes. */
  lemma TimeshiftHoursMinutes(negative: bool, h: nat, m: nat)
    requires h <= I32Max && m <= I32Max && 0 < h * 60 + m <= I32Max
    ensures var text := (if negative then "-" else "+") + ToDecimal(h) + ":" + ToDecimal(m);
      ParseTimeshift(Some(text)) == Some(if negative then -(h * 60 + m) else h * 60 + m)
  {
    var hs, ms := ToDecimal(h), ToDecimal(m);
    NumberOfDecimal(h);
    NumberOfDecimal(m);
    var sign := if negative then "-" else "+";
    var body := hs + ":" + ms;
    assert sign + hs + ":" + ms == sign + body;
    assert body[0] == hs[0];
    SignedText(negative, body);
    ComponentsColon(hs, ms);
    TimeshiftOfComponents(sign + body, h, m);
  }

  /** A sign and a whole number of hours read back as that many hours in minutes. */
  lemma TimeshiftHours(negative: bool, n: nat)
    requires 0 < n * 60 <= I32Max
    ensures var text := (if negative then "-" else "+") + ToDecimal(n);
      ParseTimeshift(Some(text)) == Some(if negative then -(n * 60) else n * 60)
  {
    var ns := ToDecimal(n);
    NumberOfDecimal(n);
    var sign := if negative then "-" else "+";
    SignedText(negative, ns);
    ComponentsNoColon(ns);
    TimeshiftOfComponents(sign + ns, n, 0);
  }

  /** The forms the source's comments name. */
  lemma TimeshiftNegativeHoursMinutes()
    ensures ParseTimeshift(Some("-2:30")) == Some(-150)
  {
    SmallDecimals();
    var text := "-" + ToDecimal(2) + ":" + ToDecimal(30);
    assert text == "-2:30";
    TimeshiftHoursMinutes(true, 2, 30);
  }

  lemma LargeDecimal()
    ensures ToDecimal(71582789) == "71582789"
  {
    assert NatToDecimal(71) == NatToDecimal(7) + [DigitChar(1)];
    assert NatToDecimal(715) == NatToDecimal(71) + [DigitChar(5)];
    assert NatToDecimal(7158) == NatToDecimal(715) + [DigitChar(8)];
    assert NatToDecimal(71582) == NatToDecimal(7158) + [DigitChar(2)];
    assert NatToDecimal(715827) == NatToDecimal(71582) + [DigitChar(7)];
    assert NatToDecimal(7158278) == NatToDecimal(715827) + [DigitChar(8)];
    assert NatToDecimal(71582789) == NatToDecimal(7158278) + [DigitChar(9)];
  }

  lemma SmallDecimals()
    ensures ToDecimal(0) == "0" && ToDecimal(1) == "1" && ToDecimal(2) == "2"
    ensures ToDecimal(15) == "15" && ToDecimal(30) == "30" && ToDecimal(45) == "45"
  {
    assert NatToDecimal(15) == NatToDecimal(1) + [DigitChar(5)];
    assert NatToDecimal(30) == NatToDecimal(3) + [DigitChar(0)];
    assert NatToDecimal(45) == NatToDecimal(4) + [DigitChar(5)];
  }

  lemma TimeshiftPlusHours()
    ensures ParseTimeshift(Some("+1")) == Some(60)
  {
    assert ToDecimal(1) == "1";
    TimeshiftHours(false, 1);
  }

  lemma TimeshiftZeroHours()
    ensures ParseTimeshift(Some("+0:15")) == Some(15)
  {
    SmallDecimals();
    var text := "+" + ToDecimal(0) + ":" + ToDecimal(15);
    assert text == "+0:15";
    TimeshiftHoursMinutes(false, 0, 15);
  }

  lemma TimeshiftMinutesOnly()
    ensures ParseTimeshift(Some(":45")) == Some(45)
  {
    assert ToDecimal(45) == "45";
    NumberOfDecimal(45);
    TrimSignPrefix("", ":45");
    assert "" + ":45" == ":45" && "" + ":" + "45" == ":45";
    ComponentsColon("", "45");
  }

  /** A component that does not parse counts as 0. */
  lemma TimeshiftUnparsable()
    ensures ParseTimeshift(Some("abc")) == None
    ensures ParseTimeshift(Some("x:30")) == Some(30)
  {
    UnparsableHours();
    UnparsableHoursWithMinutes();
  }

  /** The corrected reading of a text whose trimmed total is not positive. */
  lemma TimeshiftOfNonPositive(text: string)
    requires TotalMinutes(TrimSigns(text)) <= 0
    ensures ParseTimeshift(Some(text)) == None
  {
  }

  lemma UnparsableHours()
    ensures ParseTimeshift(Some("abc")) == None
  {
    ParseRejectsNonDigit("abc", true, I32Min, I32Max, 1);
    assert NumberOrZero("abc") == 0;
    TrimSignPrefix("", "abc");
    assert "" + "abc" == "abc";
    assert ':' !in "abc";
    ComponentsNoColon("abc");
    TimeshiftOfNonPositive("abc");
  }

  lemma UnparsableHoursWithMinutes()
    ensures ParseTimeshift(Some("x:30")) == Some(30)
  {
    assert !IsAsciiDigit('x');
    assert NumberOrZero("x") == 0;
    SmallDecimals();
    NumberOfDecimal(30);
    TrimSignPrefix("", "x:30");
    assert "" + "x:30" == "x:30" && "x" + ":" + "30" == "x:30";
    assert ':' !in "x";
    ComponentsColon("x", "30");
    TimeshiftOfComponents("x:30", 0, 30);
  }

  /** A zero shift is no shift. */
  lemma TimeshiftZero()
    ensures ParseTimeshift(Some("0")) == None
    ensures ParseTimeshift(None) == None
  {
    assert ToDecimal(0) == "0";
    NumberOfDecimal(0);
    TrimSignPrefix("", "0");
    assert "" + "0" == "0";
    ComponentsNoColon("0");
  }

  /** Every leading sign is stripped; only the first decides the sign. */
  lemma TimeshiftRepeatedSigns()
    ensures ParseTimeshift(Some("--+2")) == Some(-120)
    ensures ParseTimeshift(Some("+-2")) == Some(120)
  {
    assert ToDecimal(2) == "2";
    NumberOfDecimal(2);
    TrimSignPrefix("--+", "2");
    assert "--+" + "2" == "--+2";
    TrimSignPrefix("+-", "2");
    assert "+-" + "2" == "+-2";
    ComponentsNoColon("2");
  }

  /**
   * A shift of 71582789 hours is 4294967340 minutes, which wraps to 44
   * in `i32`: as written the setting reads as 44 minutes, where it is out
   * of range.
   */
  lemma TimeshiftOverflowWraps()
    ensures ParseTimeshiftAsWritten(Some("71582789")) == Some(44)
    ensures ParseTimeshift(Some("71582789")) == None
  {
    var text := "71582789";
    LargeDecimal();
    NumberOfDecimal(71582789);
    TrimSignPrefix("", text);
    assert "" + text == text;
    ComponentsNoColon(text);
    assert Components(text) == (71582789, 0);
    WrapOverflow();
    assert TotalAsWritten(text) == 44;
    assert TotalMinutes(text) == 4294967340;
  }

  /** 4294967340 is 2^32 + 44. */
  lemma WrapOverflow()
    ensures WrapI32(71582789 * 60) == 44
  {
    assert 71582789 * 60 == 0x1_0000_0000 + 44;
  }

  // ---------------------------------------------------------------------
  // time_correct
  // ---------------------------------------------------------------------

  /**
   * `time_correct`: a timestamp of the form "<date> <rest>" has its date
   * moved by `shift` (chrono's parse, add and format, None when the date
   * does not parse) and keeps the rest; any other text, and a date that
   * does not parse, come back unchanged.
   */
  function TimeCorrect(dateTime: string, shift: string -> Option<string>): (r: string)
    ensures Count(dateTime, ' ') != 1 ==> r == dateTime
  {
    var parts := Split(dateTime, ' ');
    if |parts| != 2 then dateTime
    else match shift(parts[0])
      case None => dateTime
      case Some(formatted) => formatted + " " + parts[1]
  }

  /**
   * When the date moves, the result is again "<date> <rest>": its date
   * is the shifted one and its rest is the original rest, verbatim.
   */
  lemma TimeCorrectKeepsRest(dateTime: string, shift: string -> Option<string>)
    requires Count(dateTime, ' ') == 1
    requires var parts := Split(dateTime, ' '); shift(parts[0]).Some? && ' ' !in shift(parts[0]).value
    ensures var parts := Split(dateTime, ' ');
      Split(TimeCorrect(dateTime, shift), ' ') == [shift(parts[0]).value, parts[1]]
  {
    var parts := Split(dateTime, ' ');
    var formatted := shift(parts[0]).value;
    assert Join([formatted, parts[1]], ' ') == formatted + " " + parts[1];
    SplitJoin([formatted, parts[1]], ' ');
  }

  /** A date that does not parse leaves the timestamp as it is. */
  lemma TimeCorrectUnparsedDate(dateTime: string, shift: string -> Option<string>)
    requires shift(Split(dateTime, ' ')[0]).None?
    ensures TimeCorrect(dateTime, shift) == dateTime
  {
  }
}
