/** The text side of the booking form's time field: `time.split(":").map(Number)`
    as the booking handler reads it, and the "HH:MM" text the time picker's
    minimum is written in. */
module TimeText {
  import opened Common

  predicate IsDigit(ch: char)
  {
    '0' <= ch <= '9'
  }

  predicate AllDigits(s: string)
  {
    forall i :: 0 <= i < |s| ==> IsDigit(s[i])
  }

  function DigitValue(ch: char): (n: nat)
    requires IsDigit(ch)
    ensures n < 10
  {
    (ch as int) - ('0' as int)
  }

  function Digit(n: nat): (ch: char)
    requires n < 10
    ensures IsDigit(ch) && DigitValue(ch) == n
  {
    (('0' as int) + n) as char
  }

  /** Decimal value of a run of ASCII digits, most significant first; "" is 0. */
  function DecimalValue(s: string): nat
    requires AllDigits(s)
    decreases |s|
  {
    if |s| == 0 then 0 else DecimalValue(s[..|s| - 1]) * 10 + DigitValue(s[|s| - 1])
  }

  /** `Number(s)` restricted to digit strings: the empty string converts to 0, a
      run of digits to its decimal value, and anything else to NaN (None). */
  function NumberOf(s: string): (r: Option<nat>)
    ensures r.Some? <==> AllDigits(s)
    ensures s == "" ==> r == Some(0)
    ensures AllDigits(s) && |s| > 0 ==>
              r == Some(NumberOf(s[..|s| - 1]).value * 10 + DigitValue(s[|s| - 1]))
  {
    if AllDigits(s) then Some(DecimalValue(s)) else None
  }

  /** The decimal digits of `n`, without leading zeros. */
  function DecimalText(n: nat): (s: string)
    ensures |s| > 0 && AllDigits(s)
  {
    if n < 10 then [Digit(n)] else DecimalText(n / 10) + [Digit(n % 10)]
  }

  /** `Number` reads every number's decimal digits back as that number. */
  lemma {:induction false} NumberOfDecimalText(n: nat)
    ensures NumberOf(DecimalText(n)) == Some(n)
  {
    var s := DecimalText(n);
    if n < 10 {
      assert s[..0] == [];
    } else {
      NumberOfDecimalText(n / 10);
      assert s[..|s| - 1] == DecimalText(n / 10);
    }
  }

  /** `parts.join(sep)`. */
  function Join(parts: seq<string>, sep: char): string
    requires |parts| >= 1
  {
    if |parts| == 1 then parts[0] else parts[0] + [sep] + Join(parts[1..], sep)
  }

  predicate SeparatorFree(parts: seq<string>, sep: char)
  {
    forall i :: 0 <= i < |parts| ==> sep !in parts[i]
  }

  /** `s.split(sep)` for a one-character separator: the maximal separator-free
      pieces, in order, which join back to `s`. */
  function Split(s: string, sep: char): (parts: seq<string>)
    ensures |parts| >= 1
    ensures SeparatorFree(parts, sep)
    ensures Join(parts, sep) == s
    decreases |s|
  {
    if |s| == 0 then [""]
    else
      var rest := Split(s[1..], sep);
      if s[0] == sep then
        assert ([""] + rest)[1..] == rest;
        [""] + rest
      else
        var parts := [[s[0]] + rest[0]] + rest[1..];
        assert parts[1..] == rest[1..];
        assert |rest| > 1 ==> Join(rest, sep) == rest[0] + [sep] + Join(rest[1..], sep);
        assert Join(parts, sep) == [s[0]] + Join(rest, sep);
        assert s == [s[0]] + s[1..];
        parts
  }

  /** Split undoes Join when no piece contains the separator. */
  lemma {:induction false} SplitJoin(parts: seq<string>, sep: char)
    requires |parts| >= 1
    requires SeparatorFree(parts, sep)
    ensures Split(Join(parts, sep), sep) == parts
    decreases |parts|, |parts[0]|
  {
    if |parts| == 1 {
      SplitSeparatorFree(parts[0], sep);
    } else if |parts[0]| == 0 {
      var s := Join(parts, sep);
      assert s == [sep] + Join(parts[1..], sep);
      assert s[1..] == Join(parts[1..], sep);
      SplitJoin(parts[1..], sep);
      assert parts == [""] + parts[1..];
    } else {
      var s := Join(parts, sep);
      var shorter := [parts[0][1..]] + parts[1..];
      assert shorter[1..] == parts[1..];
      assert SeparatorFree(shorter, sep) by {
        forall i | 0 <= i < |shorter|
          ensures sep !in shorter[i]
        {
          if i == 0 {
            assert parts[0] == [parts[0][0]] + parts[0][1..];
          } else {
            assert shorter[i] == parts[i];
          }
        }
      }
      assert Join(shorter, sep) == s[1..];
      assert s[0] == parts[0][0] && parts[0][0] != sep;
      SplitJoin(shorter, sep);
      assert parts[0] == [parts[0][0]] + parts[0][1..];
    }
  }

  /** A separator-free string splits into itself. */
  lemma {:induction false} SplitSeparatorFree(s: string, sep: char)
    requires sep !in s
    ensures Split(s, sep) == [s]
    decreases |s|
  {
    if |s| > 0 {
      assert sep !in s[1..];
      SplitSeparatorFree(s[1..], sep);
      assert s == [s[0]] + s[1..];
    }
  }

  /** A wall-clock reading as `setHours(hours, minutes)` receives it; values past
      23 or 59 are allowed, as `setHours` carries them into the next day/hour. */
  datatype Clock = Clock(hours: nat, minutes: nat)
  {
    predicate Valid()
    {
      hours < 24 && minutes < 60
    }

    /** Minutes since midnight. */
    function MinuteOfDay(): nat
    {
      hours * 60 + minutes
    }
  }

  /** `const [hours, minutes] = time.split(":").map(Number)`, with the result
      None when either component is NaN: a missing second component is
      `undefined`, which `setHours` turns into NaN as well. */
  function ParseTime(time: string): (r: Option<Clock>)
    ensures r.Some? ==> |Split(time, ':')| >= 2
    ensures r.Some? ==> NumberOf(Split(time, ':')[0]) == Some(r.value.hours)
    ensures r.Some? ==> NumberOf(Split(time, ':')[1]) == Some(r.value.minutes)
    ensures r.None? ==> |Split(time, ':')| < 2
                        || !AllDigits(Split(time, ':')[0])
                        || !AllDigits(Split(time, ':')[1])
  {
    var parts := Split(time, ':');
    if |parts| < 2 then None
    else
      match (NumberOf(parts[0]), NumberOf(parts[1]))
      case (Some(h), Some(m)) => Some(Clock(h, m))
      case _ => None
  }

  function TwoDigits(n: nat): (s: string)
    requires n < 100
    ensures |s| == 2 && AllDigits(s)
  {
    [Digit(n / 10), Digit(n % 10)]
  }

  /** "HH:MM", zero-padded, as `toTimeString().slice(0, 5)` writes a clock. */
  function FormatClock(c: Clock): (s: string)
    requires c.Valid()
    ensures |s| == 5 && s[2] == ':'
    ensures AllDigits(s[..2]) && AllDigits(s[3..])
  {
    TwoDigits(c.hours) + ":" + TwoDigits(c.minutes)
  }

  lemma TwoDigitsValue(n: nat)
    requires n < 100
    ensures DecimalValue(TwoDigits(n)) == n
  {
    var s := TwoDigits(n);
    assert s[..1][..0] == [];
    assert DecimalValue(s[..1]) == n / 10;
  }

  /** Reading back a formatted clock gives the clock: the picker's minimum is
      text the booking handler's parser understands. */
  lemma ParseFormat(c: Clock)
    requires c.Valid()
    ensures ParseTime(FormatClock(c)) == Some(c)
  {
    var hh, mm := TwoDigits(c.hours), TwoDigits(c.minutes);
    assert FormatClock(c) == Join([hh, mm], ':');
    assert SeparatorFree([hh, mm], ':') by {
      assert forall i :: 0 <= i < 2 ==> hh[i] != ':' && mm[i] != ':';
    }
    SplitJoin([hh, mm], ':');
    TwoDigitsValue(c.hours);
    TwoDigitsValue(c.minutes);
  }
}
