/**
 * The relative-window parser and the range block that the statistics and the
 * timeseries handlers both carry, written once. Instants are milliseconds
 * since the epoch; `toISOString` is taken as a monotone injective encoding,
 * so the range bounds are kept as integers and compare as integers.
 */
module RangeResolver {
  import opened Wrappers
  import opened Text

  const MinuteMs: nat := 60 * 1000
  const HourMs: nat := 60 * 60 * 1000
  const DayMs: nat := 24 * 60 * 60 * 1000

  /** An inclusive interval `[from, to]` of instants. */
  datatype TimeRange = TimeRange(from: int, to: int)

  /** The single validation error of the range block: "Invalid from/to". */
  datatype RangeError = InvalidFromTo

  /** The unit group `(m|h|d)` of the pattern, matched case-insensitively. */
  predicate IsUnit(c: char) {
    c == 'm' || c == 'h' || c == 'd' || c == 'M' || c == 'H' || c == 'D'
  }

  function UnitMs(c: char): (ms: nat)
    requires IsUnit(c)
    ensures ms == MinuteMs || ms == HourMs || ms == DayMs
    ensures ms % MinuteMs == 0
  {
    if c == 'm' || c == 'M' then MinuteMs
    else if c == 'h' || c == 'H' then HourMs
    else DayMs
  }

  /** `n` of the unit `c`, in milliseconds. */
  function Duration(n: nat, c: char): nat
    requires IsUnit(c)
  {
    n * UnitMs(c)
  }

  /** The whole-string pattern `^(\d+)(m|h|d)$`. */
  predicate WindowShape(s: string) {
    |s| >= 2 && AllDigits(s[..|s| - 1]) && IsUnit(s[|s| - 1])
  }

  /** `parseWindowToMs`: `None` stands for `null`, the parameter being absent or empty. */
  function ParseWindowToMs(w: Option<string>): (r: Option<nat>)
    ensures r.Some? ==> r.value > 0
    ensures r.Some? ==> w.Some? && WindowShape(Trim(w.value))
  {
    if w.None? || w.value == "" then None
    else
      var s := Trim(w.value);
      if !WindowShape(s) then None
      else
        var n := DigitsValue(s[..|s| - 1]);
        var unit := ToLowerAscii(s[|s| - 1..])[0];
        if n <= 0 then None
        else if unit == 'm' then Some(n * MinuteMs)
        else if unit == 'h' then Some(n * HourMs)
        else if unit == 'd' then Some(n * DayMs)
        else None
  }

  /** The count and the unit of a string of the window shape. */
  function Count(t: string): nat
    requires WindowShape(t)
  {
    DigitsValue(t[..|t| - 1])
  }

  /** What the parser makes of a string once its trim has the window shape. */
  lemma ParseShaped(s: string)
    requires s != "" && WindowShape(Trim(s))
    ensures var t := Trim(s);
      ParseWindowToMs(Some(s)) == if Count(t) > 0 then Some(Duration(Count(t), t[|t| - 1])) else None
  {
    var t := Trim(s);
    var c := t[|t| - 1];
    var lower := ToLowerAscii(t[|t| - 1..])[0];
    assert lower == if 'A' <= c <= 'Z' then (c as int + 32) as char else c;
    assert lower == 'm' || lower == 'h' || lower == 'd';
    assert UnitMs(c) == if lower == 'm' then MinuteMs else if lower == 'h' then HourMs else DayMs;
  }

  /** Every padded `<digits><unit>` with a positive count is accepted, and the
      duration is the count times the unit. */
  lemma WindowAccepted(pre: string, digits: string, unit: char, post: string)
    requires AllSpace(pre) && AllSpace(post)
    requires |digits| > 0 && AllDigits(digits) && DigitsValue(digits) > 0
    requires IsUnit(unit)
    ensures ParseWindowToMs(Some(pre + digits + [unit] + post)) == Some(Duration(DigitsValue(digits), unit))
  {
    var core := digits + [unit];
    ShapedCore(digits, unit);
    var s := pre + digits + [unit] + post;
    assert Trim(s) == core by {
      assert s == pre + core + post;
      TrimPadded(pre, core, post);
    }
    ParseTrimmedTo(s, core);
    assert Count(core) == DigitsValue(digits);
  }

  lemma ParseTrimmedTo(s: string, core: string)
    requires Trim(s) == core && WindowShape(core)
    ensures ParseWindowToMs(Some(s)) == if Count(core) > 0 then Some(Duration(Count(core), core[|core| - 1])) else None
  {
    ParseShaped(s);
  }

  /** `<digits><unit>` has the window shape and is its own trim. */
  lemma ShapedCore(digits: string, unit: char)
    requires |digits| > 0 && AllDigits(digits) && IsUnit(unit)
    ensures var core := digits + [unit];
      WindowShape(core) && Trimmed(core) && core[..|core| - 1] == digits && core[|core| - 1] == unit
  {
    var core := digits + [unit];
    assert core[0] == digits[0] && IsDigit(core[0]);
    assert core[..|core| - 1] == digits;
  }

  /** Conversely, an accepted window trims to `<digits><unit>` with a positive
      count, and the duration is the count times the unit. */
  lemma WindowOnlyFromShape(s: string, ms: nat)
    requires ParseWindowToMs(Some(s)) == Some(ms)
    ensures var t := Trim(s);
      && WindowShape(t)
      && Count(t) > 0
      && ms == Duration(Count(t), t[|t| - 1])
  {
    ParseShaped(s);
  }

  /** An unpadded `<digits><unit>` with a positive count is accepted. */
  lemma WindowOfDigits(s: string, digits: string, unit: char)
    requires |digits| > 0 && AllDigits(digits) && DigitsValue(digits) > 0
    requires IsUnit(unit) && s == digits + [unit]
    ensures ParseWindowToMs(Some(s)) == Some(Duration(DigitsValue(digits), unit))
  {
    ShapedCore(digits, unit);
    assert s[|s| - 1] == unit && s[..|s| - 1] == digits;
    assert Count(s) == DigitsValue(digits);
    TrimOfTrimmed(s);
    ParseTrimmedTo(s, s);
  }

  /** Rendering a positive count in decimal and appending a unit parses back. */
  lemma WindowRoundTrip(n: nat, unit: char)
    requires n > 0 && IsUnit(unit)
    ensures ParseWindowToMs(Some(NatToDecimal(n) + [unit])) == Some(Duration(n, unit))
  {
    WindowOfDigits(NatToDecimal(n) + [unit], NatToDecimal(n), unit);
  }

  /** A zero count (`0h`, `000m`) is rejected. */
  lemma WindowZeroRejected(digits: string, unit: char)
    requires |digits| > 0 && AllDigits(digits) && DigitsValue(digits) == 0
    requires IsUnit(unit)
    ensures ParseWindowToMs(Some(digits + [unit])) == None
  {
    var s := digits + [unit];
    ShapedCore(digits, unit);
    TrimPadded([], s, []);
    assert [] + s + [] == s;
    ParseShaped(s);
  }

  /** A non-empty string that is its own trim and lacks the shape is rejected. */
  lemma UnshapedRejected(s: string)
    requires s != "" && Trimmed(s) && !WindowShape(s)
    ensures ParseWindowToMs(Some(s)) == None
  {
    TrimPadded([], s, []);
    assert [] + s + [] == s;
  }

  lemma RejectedExamples()
    ensures ParseWindowToMs(None) == None
    ensures ParseWindowToMs(Some("")) == None
    ensures ParseWindowToMs(Some("abc")) == None
    ensures ParseWindowToMs(Some("-5m")) == None
  {
    assert !IsDigit("abc"[0]);
    UnshapedRejected("abc");
    assert !IsDigit("-5m"[0]);
    UnshapedRejected("-5m");
  }

  lemma RejectedFractionAndUnit()
    ensures ParseWindowToMs(Some("1.5h")) == None
    ensures ParseWindowToMs(Some("5w")) == None
  {
    assert !IsDigit("1.5h"[1]);
    UnshapedRejected("1.5h");
    assert !IsUnit("5w"[1]);
    UnshapedRejected("5w");
  }

  lemma RejectedZeroHours()
    ensures ParseWindowToMs(Some("0h")) == None
  {
    assert "0" + ['h'] == "0h";
    assert DigitsValue("0") == 0;
    WindowZeroRejected("0", 'h');
  }

  lemma AcceptedHours()
    ensures ParseWindowToMs(Some("6h")) == Some(6 * HourMs)
  {
    assert DigitsValue("6") == 6;
    WindowOfDigits("6h", "6", 'h');
  }

  lemma LeadingZeroValue()
    ensures DigitsValue("015") == 15
  {
    assert DigitsValue("0") == 0 by { assert "0"[..0] == ""; }
    assert DigitsValue("01") == 1 by { assert "01"[..1] == "0"; }
    assert "015"[..2] == "01";
  }

  lemma AcceptedLeadingZero()
    ensures ParseWindowToMs(Some("015m")) == Some(15 * MinuteMs)
  {
    LeadingZeroValue();
    WindowOfDigits("015m", "015", 'm');
  }

  /** A query parameter counts only when present and non-empty (JavaScript truthiness). */
  predicate Present(p: Option<string>) {
    p.Some? && p.value != ""
  }

  /** The range block. `now` is the handler's clock reading and `parse` is
      `new Date(string)`, `None` where the result is an invalid date. */
  function ResolveRange(now: int, window: Option<string>, fromParam: Option<string>,
                        toParam: Option<string>, parse: string -> Option<int>): (r: Result<TimeRange, RangeError>)
    ensures r.Success? ==> r.value.from < r.value.to
    ensures r.Failure? <==>
      && ParseWindowToMs(window).None?
      && Present(fromParam) && Present(toParam)
      && !(parse(fromParam.value).Some? && parse(toParam.value).Some?
           && parse(fromParam.value).value < parse(toParam.value).value)
  {
    var windowMs := ParseWindowToMs(window);
    if windowMs.Some? then
      Success(TimeRange(now - windowMs.value, now))
    else if Present(fromParam) && Present(toParam) then
      var fromD, toD := parse(fromParam.value), parse(toParam.value);
      if fromD.None? || toD.None? || fromD.value >= toD.value then Failure(InvalidFromTo)
      else Success(TimeRange(fromD.value, toD.value))
    else
      Success(TimeRange(now - DayMs, now))
  }

  /** A valid window decides the range, whatever `from` and `to` say. */
  lemma WindowTakesPrecedence(now: int, window: Option<string>, fromParam: Option<string>,
                              toParam: Option<string>, parse: string -> Option<int>, ms: nat)
    requires ParseWindowToMs(window) == Some(ms)
    ensures ResolveRange(now, window, fromParam, toParam, parse) == Success(TimeRange(now - ms, now))
    ensures ms > 0
  {
  }

  /** Without a valid window, a usable `from`/`to` pair is taken exactly as parsed. */
  lemma ExplicitRangeUsed(now: int, window: Option<string>, fromParam: Option<string>,
                          toParam: Option<string>, parse: string -> Option<int>)
    requires ParseWindowToMs(window).None?
    requires Present(fromParam) && Present(toParam)
    requires parse(fromParam.value).Some? && parse(toParam.value).Some?
    requires parse(fromParam.value).value < parse(toParam.value).value
    ensures ResolveRange(now, window, fromParam, toParam, parse)
         == Success(TimeRange(parse(fromParam.value).value, parse(toParam.value).value))
  {
  }

  /** Without a valid window and without both bounds, the range is the last 24 hours. */
  lemma DefaultRangeUsed(now: int, window: Option<string>, fromParam: Option<string>,
                         toParam: Option<string>, parse: string -> Option<int>)
    requires ParseWindowToMs(window).None?
    requires !Present(fromParam) || !Present(toParam)
    ensures ResolveRange(now, window, fromParam, toParam, parse) == Success(TimeRange(now - DayMs, now))
  {
  }
}
