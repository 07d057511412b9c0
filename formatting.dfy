/**
 * formatDuration (`H:MM:SS` / `M:SS`) and formatTimeHHMM (`HH:MM`), with a reader for
 * colon-separated decimal fields against which both are proved.
 */
module Formatting {
  import opened Wrappers

  predicate IsDigit(c: char) {
    '0' <= c <= '9'
  }

  predicate AllDigits(s: string) {
    forall i :: 0 <= i < |s| ==> IsDigit(s[i])
  }

  function Digit(d: nat): (c: char)
    requires d < 10
    ensures IsDigit(c) && c as int - '0' as int == d
  {
    "0123456789"[d]
  }

  /** `String(n)` for a non-negative integer: its decimal digits, without leading zeros. */
  function Decimal(n: nat): (s: string)
    ensures AllDigits(s) && 1 <= |s|
    ensures |s| == 1 <==> n < 10
    ensures 10 <= n < 100 ==> |s| == 2
  {
    if n < 10 then [Digit(n)] else Decimal(n / 10) + [Digit(n % 10)]
  }

  /** `String(n)` for any integer. */
  function IntString(n: int): string {
    if n < 0 then "-" + Decimal(-n) else Decimal(n)
  }

  /** `padStart(2, "0")`. */
  function PadStart2(s: string): (r: string)
    ensures |r| == if |s| < 2 then 2 else |s|
  {
    if |s| == 0 then "00" else if |s| == 1 then "0" + s else s
  }

  /** The remainder of JavaScript's `%`, which takes the sign of the dividend. */
  function JsRemainder(a: int, b: int): int
    requires b > 0
  {
    if a >= 0 then a % b else -((-a) % b)
  }

  /**
   * formatDuration: "0:00" for a non-positive (or missing) amount; otherwise `H:MM:SS` when there
   * are whole hours and `M:SS` when there are none. Divisions floor, as `Math.floor` of a positive quotient.
   */
  function FormatDuration(ms: int): (r: string)
    ensures |r| >= 4 && r[|r| - 3] == ':'
  {
    if ms <= 0 then "0:00"
    else
      var seconds := (ms / 1000) % 60;
      var minutes := (ms / 60000) % 60;
      var hours := ms / 3600000;
      if hours > 0 then
        IntString(hours) + ":" + PadStart2(IntString(minutes)) + ":" + PadStart2(IntString(seconds))
      else
        IntString(minutes) + ":" + PadStart2(IntString(seconds))
  }

  /** formatTimeHHMM: "00:00" for 0 (or missing); otherwise whole hours and minutes, each padded to two digits. */
  function FormatTimeHHMM(ms: int): (r: string)
    ensures ms >= 0 ==> |r| >= 5 && r[|r| - 3] == ':'
  {
    if ms == 0 then "00:00"
    else
      var totalMinutes := ms / 60000;
      var hours := totalMinutes / 60;
      var minutes := JsRemainder(totalMinutes, 60);
      PadStart2(IntString(hours)) + ":" + PadStart2(IntString(minutes))
  }

  // ---- reading a clock string back -------------------------------------------

  /** The value of a string of decimal digits. */
  function DigitsValue(s: string): nat
    requires AllDigits(s)
  {
    if s == [] then 0 else DigitsValue(s[..|s| - 1]) * 10 + (s[|s| - 1] as int - '0' as int)
  }

  /** The pieces of `s` between colons (`s.split(":")`). */
  function Fields(s: string): (r: seq<string>)
    ensures |r| >= 1
  {
    if s == [] then [""]
    else
      var rest := Fields(s[1..]);
      if s[0] == ':' then [""] + rest else [[s[0]] + rest[0]] + rest[1..]
  }

  /** The values of the fields, when each is a non-empty digit string. */
  function FieldValues(fs: seq<string>): Option<seq<nat>> {
    if fs == [] then Some([])
    else if fs[0] != [] && AllDigits(fs[0]) && FieldValues(fs[1..]).Some? then
      Some([DigitsValue(fs[0])] + FieldValues(fs[1..]).value)
    else
      None
  }

  /** The values of the colon-separated fields of `s`. */
  function ClockValues(s: string): Option<seq<nat>> {
    FieldValues(Fields(s))
  }

  /** Reads fields as base-60 digits, most significant first. */
  function Horner60(vs: seq<nat>): nat {
    if vs == [] then 0 else Horner60(vs[..|vs| - 1]) * 60 + vs[|vs| - 1]
  }

  lemma {:induction false} DecimalValue(n: nat)
    ensures DigitsValue(Decimal(n)) == n
  {
    if n >= 10 {
      DecimalValue(n / 10);
      assert Decimal(n)[..|Decimal(n)| - 1] == Decimal(n / 10);
    }
  }

  lemma {:induction false} LeadingZero(s: string)
    requires AllDigits(s)
    ensures AllDigits("0" + s) && DigitsValue("0" + s) == DigitsValue(s)
  {
    if s != [] {
      LeadingZero(s[..|s| - 1]);
      assert ("0" + s)[..|s|] == "0" + s[..|s| - 1];
    }
  }

  /** A padded decimal reads back as the number it shows. */
  lemma PaddedValue(n: nat)
    ensures AllDigits(PadStart2(Decimal(n))) && DigitsValue(PadStart2(Decimal(n))) == n
  {
    DecimalValue(n);
    LeadingZero(Decimal(n));
  }

  lemma {:induction false} FieldsOfPlain(a: string)
    requires ':' !in a
    ensures Fields(a) == [a]
  {
    if a != [] {
      FieldsOfPlain(a[1..]);
      assert [a[0]] + a[1..] == a;
    }
  }

  lemma {:induction false} FieldsOfJoin(a: string, b: string)
    requires ':' !in a
    ensures Fields(a + ":" + b) == [a] + Fields(b)
  {
    if a == [] {
      assert (a + ":" + b)[1..] == b;
    } else {
      assert (a + ":" + b)[1..] == a[1..] + ":" + b;
      FieldsOfJoin(a[1..], b);
      assert [a[0]] + a[1..] == a;
    }
  }

  lemma DigitsHaveNoColon(s: string)
    requires AllDigits(s)
    ensures ':' !in s
  {
  }

  lemma Horner60OfThree(a: nat, b: nat, c: nat)
    ensures Horner60([a, b]) == a * 60 + b
    ensures Horner60([a, b, c]) == (a * 60 + b) * 60 + c
  {
    assert [a][..0] == [];
    assert Horner60([a]) == a;
    assert [a, b][..1] == [a];
    assert Horner60([a, b]) == Horner60([a]) * 60 + b;
    assert [a, b, c][..2] == [a, b];
  }

  /** Whole minutes and whole hours are whole seconds divided further. */
  lemma TimeUnits(ms: int)
    requires ms >= 0
    ensures ms / 60000 == (ms / 1000) / 60
    ensures ms / 3600000 == (ms / 60000) / 60
  {
  }

  lemma FieldValuesOfTwo(a: string, b: string)
    requires a != [] && b != [] && AllDigits(a) && AllDigits(b)
    ensures FieldValues([a, b]) == Some([DigitsValue(a), DigitsValue(b)])
  {
    assert [b][1..] == [] && [b][0] == b;
    assert FieldValues([]) == Some([]);
    var rb := FieldValues([b]);
    assert rb.value == [DigitsValue(b)] + [];
    assert rb.value == [DigitsValue(b)];
    assert [a, b][1..] == [b];
    var rab := FieldValues([a, b]);
    assert rab.value == [DigitsValue(a)] + [DigitsValue(b)];
    assert rab.value == [DigitsValue(a), DigitsValue(b)];
    assert rb == Some(rb.value) && rab == Some(rab.value);
  }

  /** The fields and values of `A:B` and `A:B:C` for digit strings. */
  lemma ClockOfTwo(a: string, b: string)
    requires a != [] && b != [] && AllDigits(a) && AllDigits(b)
    ensures Fields(a + ":" + b) == [a, b]
    ensures ClockValues(a + ":" + b) == Some([DigitsValue(a), DigitsValue(b)])
  {
    FieldsOfJoin(a, b);
    FieldsOfPlain(b);
    FieldValuesOfTwo(a, b);
  }

  lemma ClockOfThree(a: string, b: string, c: string)
    requires a != [] && b != [] && c != [] && AllDigits(a) && AllDigits(b) && AllDigits(c)
    ensures Fields(a + ":" + b + ":" + c) == [a, b, c]
    ensures ClockValues(a + ":" + b + ":" + c) == Some([DigitsValue(a), DigitsValue(b), DigitsValue(c)])
  {
    FieldsOfThree(a, b, c);
    FieldValuesOfThree(a, b, c);
  }

  lemma FieldsOfThree(a: string, b: string, c: string)
    requires AllDigits(a) && AllDigits(b) && AllDigits(c)
    ensures Fields(a + ":" + b + ":" + c) == [a, b, c]
  {
    var bc := b + ":" + c;
    assert a + ":" + b + ":" + c == a + ":" + bc;
    DigitsHaveNoColon(a);
    DigitsHaveNoColon(b);
    DigitsHaveNoColon(c);
    FieldsOfJoin(a, bc);
    FieldsOfJoin(b, c);
    FieldsOfPlain(c);
  }

  lemma FieldValuesOfThree(a: string, b: string, c: string)
    requires a != [] && b != [] && c != [] && AllDigits(a) && AllDigits(b) && AllDigits(c)
    ensures FieldValues([a, b, c]) == Some([DigitsValue(a), DigitsValue(b), DigitsValue(c)])
  {
    FieldValuesOfTwo(b, c);
    var abc := [a, b, c];
    assert abc[0] == a && abc[1..] == [b, c];
    var tail := [DigitsValue(b), DigitsValue(c)];
    assert FieldValues(abc[1..]) == Some(tail);
    assert FieldValues(abc) == Some([DigitsValue(a)] + tail);
    assert [DigitsValue(a)] + tail == [DigitsValue(a), DigitsValue(b), DigitsValue(c)];
  }

  /**
   * formatDuration, read back: the whole seconds of `ms`, as hours (only when there are any),
   * minutes and seconds; every field after the first has two digits and is below 60.
   */
  lemma FormatDurationReadsBack(ms: int)
    requires ms > 0
    ensures ClockValues(FormatDuration(ms)).Some?
    ensures var vs := ClockValues(FormatDuration(ms)).value;
      && |vs| == (if ms >= 3600000 then 3 else 2)
      && (forall i :: 1 <= i < |vs| ==> vs[i] < 60)
      && Horner60(vs) == ms / 1000
    ensures var fs := Fields(FormatDuration(ms));
      forall i :: 1 <= i < |fs| ==> |fs[i]| == 2
    ensures Fields(FormatDuration(ms))[0] == Decimal(ClockValues(FormatDuration(ms)).value[0])
  {
    var seconds := (ms / 1000) % 60;
    var minutes := (ms / 60000) % 60;
    var hours := ms / 3600000;
    SexagesimalSplit(ms);
    Horner60OfThree(hours, minutes, seconds);
    if hours > 0 {
      ThreeFieldsRead(hours, minutes, seconds);
    } else {
      TwoFieldsRead(minutes, seconds);
    }
  }

  /** The whole seconds of a positive amount, split into hours, minutes below 60 and seconds below 60. */
  lemma SexagesimalSplit(ms: int)
    requires ms > 0
    ensures (ms / 1000) % 60 < 60 && (ms / 60000) % 60 < 60 && ms / 3600000 >= 0
    ensures ((ms / 3600000) * 60 + (ms / 60000) % 60) * 60 + (ms / 1000) % 60 == ms / 1000
    ensures ms / 3600000 > 0 <==> ms >= 3600000
  {
    TimeUnits(ms);
  }

  /** `M:SS` with seconds below 60 reads back as its two numbers, the second field two digits long. */
  lemma TwoFieldsRead(m: nat, sec: nat)
    requires sec < 60
    ensures var str := IntString(m) + ":" + PadStart2(IntString(sec));
      && ClockValues(str) == Some([m, sec])
      && Fields(str) == [Decimal(m), PadStart2(Decimal(sec))]
      && |PadStart2(Decimal(sec))| == 2
  {
    PaddedValue(sec);
    DecimalValue(m);
    ClockOfTwo(Decimal(m), PadStart2(Decimal(sec)));
  }

  /** `H:MM:SS` with minutes and seconds below 60 reads back as its three numbers, the last two fields two digits long. */
  lemma ThreeFieldsRead(h: nat, m: nat, sec: nat)
    requires m < 60 && sec < 60
    ensures var str := IntString(h) + ":" + PadStart2(IntString(m)) + ":" + PadStart2(IntString(sec));
      && ClockValues(str) == Some([h, m, sec])
      && Fields(str) == [Decimal(h), PadStart2(Decimal(m)), PadStart2(Decimal(sec))]
      && |PadStart2(Decimal(m))| == 2 && |PadStart2(Decimal(sec))| == 2
  {
    PaddedValue(m);
    PaddedValue(sec);
    DecimalValue(h);
    ClockOfThree(Decimal(h), PadStart2(Decimal(m)), PadStart2(Decimal(sec)));
  }

  /** Non-positive amounts, and positive ones below a second, all show as "0:00". */
  lemma FormatDurationOfLessThanASecond(ms: int)
    requires ms < 1000
    ensures FormatDuration(ms) == "0:00"
  {
    if ms > 0 {
      assert ms / 1000 == 0 && ms / 60000 == 0 && ms / 3600000 == 0;
      ZeroMinutesZeroSeconds();
      assert FormatDuration(ms) == IntString(0) + ":" + PadStart2(IntString(0));
    }
  }

  /** No minutes and no seconds show as "0:00". */
  lemma ZeroMinutesZeroSeconds()
    ensures IntString(0) + ":" + PadStart2(IntString(0)) == "0:00"
  {
    assert IntString(0) == "0";
    assert PadStart2("0") == "00";
  }

  /** formatTimeHHMM, read back: the whole minutes of a non-negative `ms`, as hours then minutes below 60, each field at least two digits. */
  lemma FormatTimeHHMMReadsBack(ms: int)
    requires ms >= 0
    ensures ClockValues(FormatTimeHHMM(ms)).Some?
    ensures var vs := ClockValues(FormatTimeHHMM(ms)).value;
      |vs| == 2 && vs[1] < 60 && Horner60(vs) == ms / 60000
    ensures var fs := Fields(FormatTimeHHMM(ms));
      |fs| == 2 && |fs[0]| >= 2 && |fs[1]| == 2
    ensures Fields(FormatTimeHHMM(ms))[0] == PadStart2(Decimal(ClockValues(FormatTimeHHMM(ms)).value[0]))
  {
    var totalMinutes := ms / 60000;
    var hours := totalMinutes / 60;
    var minutes := totalMinutes % 60;
    PaddedValue(hours);
    PaddedValue(minutes);
    Horner60OfThree(hours, minutes, 0);
    ClockOfTwo(PadStart2(Decimal(hours)), PadStart2(Decimal(minutes)));
    if ms == 0 {
      assert FormatTimeHHMM(ms) == PadStart2(Decimal(hours)) + ":" + PadStart2(Decimal(minutes));
    }
  }
}
