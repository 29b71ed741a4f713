/** The arithmetic helpers of WebCertificateDBTester.java: formatting a duration
    in milliseconds, drawing a random number in a range, and the guard on the
    number of certificates to add. */
module WebCertificateDBTester {
  import opened Wrappers
  import opened JavaLang

  //==========================================================================
  // msTimeFormat
  //==========================================================================

  /** The four fields msTimeFormat prints. */
  datatype TimeParts = TimeParts(hour: int, minute: int, second: int, millis: int)

  /** The long arithmetic of msTimeFormat: Java's truncating / and %, with the
      divisors 1000, 1000 * 60 and 1000 * 60 * 60 written out. */
  function MsTimeParts(ms: int): TimeParts {
    TimeParts(Rem(Quot(ms, 3_600_000), 24),
              Rem(Quot(ms, 60_000), 60),
              Rem(Quot(ms, 1000), 60),
              Rem(ms, 1000))
  }

  /** msTimeFormat: String.format("%02d:%02d:%02d.%d", hour, minute, second, millis). */
  function MsTimeFormat(ms: int): (s: string)
    ensures |s| >= 10
  {
    var t := MsTimeParts(ms);
    Pad2(t.hour) + ":" + Pad2(t.minute) + ":" + Pad2(t.second) + "." + IntToString(t.millis)
  }

  /** For a non-negative duration every field lies in its clock range. */
  lemma MsTimePartsRanges(ms: int)
    requires 0 <= ms
    ensures var t := MsTimeParts(ms);
            0 <= t.hour < 24 && 0 <= t.minute < 60 && 0 <= t.second < 60 && 0 <= t.millis < 1000
  {
  }

  /** For a non-negative dividend Java's / and % agree with Dafny's. */
  lemma QuotRemNonNegative(a: int, b: int)
    requires 0 <= a && 0 < b
    ensures Quot(a, b) == a / b && Rem(a, b) == a % b
  {
  }

  lemma MinutesFromSeconds(ms: int)
    requires 0 <= ms
    ensures ms / 60_000 == (ms / 1000) / 60
  {
  }

  lemma HoursFromMinutes(ms: int)
    requires 0 <= ms
    ensures ms / 3_600_000 == (ms / 60_000) / 60
  {
  }

  /** MsTimeParts of a non-negative duration in Dafny's division. */
  lemma MsTimePartsNonNegative(ms: int)
    requires 0 <= ms
    ensures MsTimeParts(ms)
            == TimeParts((ms / 3_600_000) % 24, (ms / 60_000) % 60, (ms / 1000) % 60, ms % 1000)
  {
    QuotRemNonNegative(ms, 3_600_000);
    QuotRemNonNegative(ms / 3_600_000, 24);
    QuotRemNonNegative(ms, 60_000);
    QuotRemNonNegative(ms / 60_000, 60);
    QuotRemNonNegative(ms, 1000);
    QuotRemNonNegative(ms / 1000, 60);
    QuotRemNonNegative(ms, 1000);
  }

  /** Within one day the fields add back up to the duration. */
  lemma MsTimePartsReconstruct(ms: int)
    requires 0 <= ms < 86_400_000
    ensures var t := MsTimeParts(ms);
            t.hour * 3_600_000 + t.minute * 60_000 + t.second * 1000 + t.millis == ms
  {
    MsTimePartsNonNegative(ms);
    MinutesFromSeconds(ms);
    HoursFromMinutes(ms);
    var s1 := ms / 1000;
    var m1 := ms / 60_000;
    var h := ms / 3_600_000;
    assert ms == s1 * 1000 + ms % 1000;
    assert s1 == m1 * 60 + s1 % 60;
    assert m1 == h * 60 + m1 % 60;
    assert h < 24;
  }

  /** Durations of a day or more wrap the hour field around 24. */
  lemma MsTimePartsWrapsAfterADay(ms: int)
    requires 0 <= ms
    ensures MsTimeParts(ms + 86_400_000) == MsTimeParts(ms)
  {
    MsTimePartsNonNegative(ms);
    MsTimePartsNonNegative(ms + 86_400_000);
    DayShift(ms);
    HoursPeriod(ms / 3_600_000);
    MinutesPeriod(ms / 60_000);
    SecondsPeriod(ms / 1000);
  }

  /** A day's worth of hours, minutes or seconds leaves the clock field as it was. */
  lemma HoursPeriod(x: int)
    ensures (x + 24) % 24 == x % 24
  {
  }

  lemma MinutesPeriod(x: int)
    ensures (x + 24 * 60) % 60 == x % 60
  {
  }

  lemma SecondsPeriod(x: int)
    ensures (x + 24 * 60 * 60) % 60 == x % 60
  {
  }

  /** A day later every quotient has moved on by a whole number of its
      wrap-around period. */
  lemma DayShift(ms: int)
    requires 0 <= ms
    ensures (ms + 86_400_000) / 3_600_000 == ms / 3_600_000 + 24
    ensures (ms + 86_400_000) / 60_000 == ms / 60_000 + 24 * 60
    ensures (ms + 86_400_000) / 1000 == ms / 1000 + 24 * 60 * 60
    ensures (ms + 86_400_000) % 1000 == ms % 1000
  {
  }

  /** Below one second only the millisecond field is non-zero. */
  lemma SubSecondParts(ms: int)
    requires 0 <= ms < 1000
    ensures MsTimeParts(ms) == TimeParts(0, 0, 0, ms)
  {
    assert Quot(ms, 3_600_000) == 0 && Quot(ms, 60_000) == 0 && Quot(ms, 1000) == 0;
  }

  /** The millisecond field is not padded: a duration under ten milliseconds
      prints as "00:00:00." and a single digit, ten characters in all. */
  lemma MillisNotPadded(ms: int)
    requires 0 <= ms < 10
    ensures MsTimeFormat(ms) == "00:00:00." + [DIGITS[ms]]
    ensures |MsTimeFormat(ms)| == 10
  {
    SubSecondParts(ms);
    assert Pad2(0) == "00";
  }

  /** The text of the fields, where they stand in the formatted string. */
  lemma MsTimeFormatLayout(ms: int)
    requires 0 <= ms
    ensures var s := MsTimeFormat(ms); var t := MsTimeParts(ms);
            |s| >= 10 && s[..2] == Pad2(t.hour) && s[2] == ':' && s[3..5] == Pad2(t.minute)
            && s[5] == ':' && s[6..8] == Pad2(t.second) && s[8] == '.' && s[9..] == IntToString(t.millis)
  {
    var t := MsTimeParts(ms);
    MsTimePartsRanges(ms);
    Pad2TwoDigits(t.hour);
    Pad2TwoDigits(t.minute);
    Pad2TwoDigits(t.second);
    FieldsLayout(Pad2(t.hour), Pad2(t.minute), Pad2(t.second), IntToString(t.millis));
  }

  /** Where three two-character fields and a last one stand in "hh:mm:ss.f". */
  lemma FieldsLayout(h: string, m: string, s: string, f: string)
    requires |h| == 2 && |m| == 2 && |s| == 2
    ensures var r := h + ":" + m + ":" + s + "." + f;
            |r| == 9 + |f| && r[..2] == h && r[2] == ':' && r[3..5] == m
            && r[5] == ':' && r[6..8] == s && r[8] == '.' && r[9..] == f
  {
  }

  /** Within a day the formatted text determines the duration: two different
      durations never print alike. */
  lemma MsTimeFormatInjective(a: int, b: int)
    requires 0 <= a < 86_400_000 && 0 <= b < 86_400_000
    requires MsTimeFormat(a) == MsTimeFormat(b)
    ensures a == b
  {
    var ta, tb := MsTimeParts(a), MsTimeParts(b);
    MsTimeFormatLayout(a);
    MsTimeFormatLayout(b);
    MsTimePartsRanges(a);
    MsTimePartsRanges(b);
    Pad2TwoDigits(ta.hour);
    Pad2TwoDigits(tb.hour);
    Pad2TwoDigits(ta.minute);
    Pad2TwoDigits(tb.minute);
    Pad2TwoDigits(ta.second);
    Pad2TwoDigits(tb.second);
    IntToStringRoundTrip(ta.millis);
    IntToStringRoundTrip(tb.millis);
    assert ta == tb;
    MsTimePartsReconstruct(a);
    MsTimePartsReconstruct(b);
  }

  //==========================================================================
  // getRandomNumberInRange
  //==========================================================================

  /** getRandomNumberInRange: min >= max is rejected; otherwise the int bound
      (max - min) + 1 goes to nextInt, which rejects a bound that overflowed to
      zero or below, and the draw is shifted by min. The draw itself is a
      nondeterministic choice below the bound. */
  method GetRandomNumberInRange(min: Int32, max: Int32) returns (r: Result<Int32, JavaException>)
    ensures r.Success? <==> min < max && max - min < INT_MAX
    ensures r.Success? ==> min <= r.value <= max
    ensures min >= max ==> r == Failure(IllegalArgument("Max must be greater than min"))
    ensures min < max && max - min >= INT_MAX ==> r == Failure(IllegalArgument("bound must be positive"))
  {
    if min >= max {
      return Failure(IllegalArgument("Max must be greater than min"));
    }
    var bound := WrapInt32(WrapInt32(max - min) + 1);
    if bound <= 0 {
      return Failure(IllegalArgument("bound must be positive"));   // Random.nextInt
    }
    var draw :| 0 <= draw < bound;
    r := Success(WrapInt32(draw + min));
  }

  //==========================================================================
  // testAddCertificates
  //==========================================================================

  /** The guard of testAddCertificates: a negative count is rejected before
      anything is added. */
  function TestAddCertificatesGuard(num: Int32): (r: Result<nat, JavaException>)
    ensures r.Success? <==> 0 <= num
    ensures r.Success? ==> r.value == num
    ensures r.Failure? ==> r.error == IllegalArgument("Cannot add negative number of certificates!")
  {
    if num < 0 then Failure(IllegalArgument("Cannot add negative number of certificates!"))
    else Success(num as nat)
  }
}
