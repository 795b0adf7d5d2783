/** The MS-DOS date and time of `Palmtree.DateTimeExtensions`, the packed
    pair ZIP headers carry (section 4.4.6 of PKWARE's APPNOTE.TXT):

      date: bits 15-9 year - 1980, bits 8-5 month, bits 4-0 day
      time: bits 15-11 hour, bits 10-5 minute, bits 4-0 second / 2

    The fields are disjoint, so the source's bitwise ORs of shifted fields
    are written here as sums of multiples of powers of two, and its masks
    and shifts as remainders and quotients. The conversions between local
    time and UTC around these functions are not modelled: a `DateTime` here
    is the local calendar date and clock time. */
module DosDateTime {
  import opened Wrappers
  import opened Primitives

  /** A .NET `DateTime`, to the second. */
  datatype DateTime = DateTime(year: int, month: int, day: int, hour: int, minute: int, second: int)

  predicate IsLeapYear(year: int)
  {
    year % 4 == 0 && (year % 100 != 0 || year % 400 == 0)
  }

  /** `DateTime.DaysInMonth(year, month)` in the proleptic Gregorian
      calendar. */
  function DaysInMonth(year: int, month: int): (r: int)
    requires 1 <= month <= 12
    ensures 28 <= r <= 31
    ensures month == 2 ==> (r == 29 <==> IsLeapYear(year))
  {
    if month == 2 then (if IsLeapYear(year) then 29 else 28)
    else if month in {4, 6, 9, 11} then 30
    else 31
  }

  /** The values `new DateTime(year, month, day, hour, minute, second)`
      accepts. */
  predicate ValidDateTime(t: DateTime)
  {
    1 <= t.year <= 9999 && 1 <= t.month <= 12 && 1 <= t.day <= DaysInMonth(t.year, t.month)
    && 0 <= t.hour <= 23 && 0 <= t.minute <= 59 && 0 <= t.second <= 59
  }

  /** The fields of a packed pair, before any check. */
  function SecondOf(dosTime: UInt16): int { dosTime % 32 * 2 }
  function MinuteOf(dosTime: UInt16): int { dosTime / 32 % 64 }
  function HourOf(dosTime: UInt16): int { dosTime / 2048 % 32 }
  function DayOf(dosDate: UInt16): int { dosDate % 32 }
  function MonthOf(dosDate: UInt16): int { dosDate / 32 % 16 }
  function YearOf(dosDate: UInt16): int { dosDate / 512 % 128 + 1980 }

  /** `FromDosDateTimeToDateTime`: the unpacked fields, or an argument error
      when the second, the minute, the hour, the month or the day is out of
      range. */
  function FromDos(dosDate: UInt16, dosTime: UInt16): (r: Result<DateTime>)
    ensures r.Ok? <==>
              SecondOf(dosTime) <= 59 && MinuteOf(dosTime) <= 59 && HourOf(dosTime) <= 23
              && 1 <= MonthOf(dosDate) <= 12 && 1 <= DayOf(dosDate)
              && DayOf(dosDate) <= DaysInMonth(YearOf(dosDate), MonthOf(dosDate))
    ensures r.Err? ==> r.error == Argument
    ensures r.Ok? ==> ValidDateTime(r.value) && 1980 <= r.value.year <= 2107 && r.value.second % 2 == 0
    ensures r.Ok? ==> r.value == DateTime(YearOf(dosDate), MonthOf(dosDate), DayOf(dosDate),
                                          HourOf(dosTime), MinuteOf(dosTime), SecondOf(dosTime))
  {
    var second := SecondOf(dosTime);
    if second > 59 then Err(Argument)
    else
      var minute := MinuteOf(dosTime);
      if minute > 59 then Err(Argument)
      else
        var hour := HourOf(dosTime);
        if hour > 23 then Err(Argument)
        else
          var month := MonthOf(dosDate);
          if month < 1 || month > 12 then Err(Argument)
          else
            var year := YearOf(dosDate);
            var day := DayOf(dosDate);
            if day < 1 then Err(Argument)
            else if day > DaysInMonth(year, month) then Err(Argument)
            else Ok(DateTime(year, month, day, hour, minute, second))
  }

  /** `FromDateTimeToDosDateTime`: the packed pair, or an out-of-range error
      for a year outside 1980..2107. */
  function ToDos(t: DateTime): (r: Result<(UInt16, UInt16)>)
    requires ValidDateTime(t)
    ensures r.Err? <==> !(1980 <= t.year <= 2107)
    ensures r.Err? ==> r.error == ArgumentOutOfRange
  {
    if !(1980 <= t.year <= 1980 + 127) then Err(ArgumentOutOfRange)
    else
      var date := (t.year - 1980) * 512 + t.month * 32 + t.day;
      var time := t.hour * 2048 + t.minute * 32 + t.second / 2;
      Ok((date, time))
  }

  /** Unpacking a packed date and time gives it back, the second rounded
      down to an even number. */
  lemma ToDosThenFromDos(t: DateTime)
    requires ValidDateTime(t) && 1980 <= t.year <= 2107
    ensures ToDos(t).Ok?
    ensures FromDos(ToDos(t).value.0, ToDos(t).value.1)
            == Ok(t.(second := t.second - t.second % 2))
  {
    var date, time := ToDos(t).value.0, ToDos(t).value.1;
    var y := t.year - 1980;
    assert date == (y * 16 + t.month) * 32 + t.day;
    assert DayOf(date) == t.day && date / 32 == y * 16 + t.month;
    assert MonthOf(date) == t.month && date / 512 == y;
    assert time == (t.hour * 64 + t.minute) * 32 + t.second / 2;
    assert time % 32 == t.second / 2 && time / 32 == t.hour * 64 + t.minute;
    assert MinuteOf(time) == t.minute && time / 2048 == t.hour;
  }

  /** Packing an unpacked pair gives the pair back: every bit of both
      words is a field. */
  lemma FromDosThenToDos(dosDate: UInt16, dosTime: UInt16)
    requires FromDos(dosDate, dosTime).Ok?
    ensures ToDos(FromDos(dosDate, dosTime).value) == Ok((dosDate, dosTime))
  {
    assert dosDate == (dosDate / 512 * 16 + MonthOf(dosDate)) * 32 + DayOf(dosDate);
    assert dosTime == (dosTime / 2048 * 64 + MinuteOf(dosTime)) * 32 + dosTime % 32;
  }

  /** `TryToDateTime` / `TryToDateTimeOffset`: null for the pair (0, 0) and
      for a pair that does not unpack. */
  function TryFromDos(dosDate: UInt16, dosTime: UInt16): (r: Option<DateTime>)
    ensures r.Some? <==> !(dosDate == 0 && dosTime == 0) && FromDos(dosDate, dosTime).Ok?
    ensures r.Some? ==> r.value == FromDos(dosDate, dosTime).value
  {
    if dosDate == 0 && dosTime == 0 then None
    else match FromDos(dosDate, dosTime)
      case Ok(t) => Some(t)
      case Err(_) => None
  }

  /** `TryToDosDateTime`: (0, 0) for a date the pair cannot hold. */
  function TryToDos(t: DateTime): (r: (UInt16, UInt16))
    requires ValidDateTime(t)
    ensures ToDos(t).Err? ==> r == (0, 0)
    ensures ToDos(t).Ok? ==> r == ToDos(t).value
  {
    match ToDos(t)
    case Ok(pair) => pair
    case Err(_) => (0, 0)
  }

  /** The pair (0, 0) does not unpack (day and month 0), so nothing a
      successful `TryToDosDateTime` returns reads as null. */
  lemma ZeroPairIsNotADate()
    ensures FromDos(0, 0).Err?
  {
  }

  /** A date the pair can hold survives `TryToDosDateTime` then
      `TryToDateTime`, to the even second. */
  lemma TryRoundTrip(t: DateTime)
    requires ValidDateTime(t) && 1980 <= t.year <= 2107
    ensures TryFromDos(TryToDos(t).0, TryToDos(t).1) == Some(t.(second := t.second - t.second % 2))
  {
    ToDosThenFromDos(t);
  }
}
