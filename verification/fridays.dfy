/**
 * `getFridaysInMonth(y, m)` and the host `new Date(y, m, 1)` constructor it
 * starts from. Months are zero-based at this boundary, as in the source.
 */
module Fridays {

  import opened Calendar

  /** The year the `Date(y, m, d)` constructor uses: two-digit years 0..99 mean 1900..1999. */
  function HostYear(y: int): (r: int)
    ensures 0 <= y <= 99 ==> r == 1900 + y
    ensures !(0 <= y <= 99) ==> r == y
  {
    if 0 <= y <= 99 then 1900 + y else y
  }

  /**
   * `new Date(y, m, 1)`: a zero-based month index outside 0..11 rolls over
   * into neighbouring years.
   */
  function FirstOfMonth(y: int, m: int): (d: Date)
    ensures ValidDate(d) && d.day == 1
    ensures 12 * d.year + d.month - 1 == 12 * HostYear(y) + m
    ensures 0 <= m < 12 ==> d.year == HostYear(y) && d.month == m + 1
  {
    Date(HostYear(y) + m / 12, m % 12 + 1, 1)
  }

  /** Weekdays advance by one per day within a month. */
  lemma WeekdayInMonth(y: int, mo: int, j: int)
    requires 1 <= mo <= 12 && 1 <= j
    ensures Weekday(Date(y, mo, j)) == (Weekday(Date(y, mo, 1)) + j - 1) % 7
  {
    var n := DayNumber(Date(y, mo, 1));
    assert DayNumber(Date(y, mo, j)) == n + j - 1;
    ModShift(n + 1, j - 1);
  }

  lemma ModShift(a: int, b: int)
    ensures (a + b) % 7 == (a % 7 + b) % 7
  {
    var q := a / 7;
    assert a == 7 * q + a % 7;
    assert a + b == 7 * q + (a % 7 + b);
  }

  /** Day `day` of zero-based month `m` of year `y` (as the host reads `y`) exists and is a Friday. */
  predicate IsFridayOf(y: int, m: int, day: int)
    requires 0 <= m < 12
  {
    1 <= day <= DaysInMonth(HostYear(y), m + 1) && Weekday(Date(HostYear(y), m + 1, day)) == Friday
  }

  /** Once `f` is the first Friday of a month, exactly the days `f + 7k` are Fridays. */
  lemma FridaysFrom(y: int, mo: int, f: int, day: int)
    requires 1 <= mo <= 12 && 1 <= f <= day
    requires Weekday(Date(y, mo, f)) == Friday
    ensures Weekday(Date(y, mo, day)) == Friday <==> (day - f) % 7 == 0
  {
    var w1 := Weekday(Date(y, mo, 1));
    WeekdayInMonth(y, mo, f);
    WeekdayInMonth(y, mo, day);
    ShiftedFriday(w1 + f - 1, day - f);
  }

  lemma ShiftedFriday(a: int, x: int)
    requires a % 7 == Friday
    ensures (a + x) % 7 == Friday <==> x % 7 == 0
  {
    ModShift(a, x);
    ModShift(Friday, x);
    assert (Friday + x) % 7 == (Friday + x % 7) % 7 by {
      ModShift(x, Friday);
    }
  }

  /** The first while loop of `getFridaysInMonth`: advance one day at a time until a Friday. */
  method FirstFriday(first: Date) returns (d: Date)
    requires ValidDate(first) && first.day == 1
    ensures ValidDate(d) && d.year == first.year && d.month == first.month && 1 <= d.day <= 7
    ensures Weekday(d) == Friday
    ensures forall j :: 1 <= j < d.day ==> Weekday(Date(first.year, first.month, j)) != Friday
  {
    var w1 := Weekday(first);
    ghost var target := 1 + (Friday - w1) % 7;
    ModShift(w1, (Friday - w1) % 7);
    assert (w1 + target - 1) % 7 == Friday;
    d := first;
    while Weekday(d) != Friday
      invariant ValidDate(d) && d.year == first.year && d.month == first.month && 1 <= d.day <= target
      invariant Weekday(d) == (w1 + d.day - 1) % 7
      invariant forall j :: 1 <= j < d.day ==> Weekday(Date(first.year, first.month, j)) != Friday
      decreases target - d.day
    {
      d := Advance(d, 1);
      WeekdayInMonth(first.year, first.month, d.day);
    }
  }

  /**
   * `getFridaysInMonth(y, m)`: step one day at a time from the first of the
   * month to its first Friday, then collect that day and every seventh day
   * after it while the month index still equals `m`.
   */
  method FridaysInMonth(y: int, m: int) returns (out: seq<Date>)
    ensures !(0 <= m < 12) ==> out == []
    ensures forall k :: 0 <= k < |out| ==>
      ValidDate(out[k]) && out[k].year == HostYear(y) && out[k].month == m + 1 && Weekday(out[k]) == Friday
    ensures forall k :: 0 < k < |out| ==> DayNumber(out[k]) == DayNumber(out[k - 1]) + 7
    ensures 0 <= m < 12 ==> 4 <= |out| <= 5 && 1 <= out[0].day <= 7
    ensures 0 <= m < 12 ==> forall day :: IsFridayOf(y, m, day) ==> Date(HostYear(y), m + 1, day) in out
  {
    var first := FirstOfMonth(y, m);
    var Y, M := first.year, first.month;
    var d := FirstFriday(first);
    var f := d.day;
    var dim := DaysInMonth(Y, M);
    out := [];
    while d.month - 1 == m
      invariant ValidDate(d)
      invariant 0 <= m < 12 ==> Y == HostYear(y) && M == m + 1
      invariant |out| > 0 ==> 0 <= m < 12
      invariant |out| == 0 ==> d == Date(Y, M, f)
      invariant forall k :: 0 <= k < |out| ==> out[k] == Date(Y, M, f + 7 * k) && ValidDate(out[k])
      invariant d.month - 1 == m ==> d == Date(Y, M, f + 7 * |out|)
      invariant |out| > 0 && d.month - 1 != m ==> f + 7 * |out| > dim
      invariant f + 7 * (|out| - 1) <= dim
      decreases dim - f - 7 * (|out| - 1)
    {
      out := out + [d];
      d := Advance(d, 7);
    }
    CollectedAreFridays(Y, M, f, out);
    if 0 <= m < 12 {
      CollectedAreAllFridays(Y, M, f, out);
    }
  }

  /** The days `f, f + 7, ...` collected after the first Friday `f` are Fridays. */
  lemma CollectedAreFridays(Y: int, M: int, f: int, out: seq<Date>)
    requires 1 <= M <= 12 && 1 <= f && Weekday(Date(Y, M, f)) == Friday
    requires forall k :: 0 <= k < |out| ==> out[k] == Date(Y, M, f + 7 * k)
    ensures forall k :: 0 <= k < |out| ==> Weekday(out[k]) == Friday
  {
    forall k | 0 <= k < |out|
      ensures Weekday(out[k]) == Friday
    {
      FridaysFrom(Y, M, f, f + 7 * k);
    }
  }

  /** When the collection ran past the month's end from its first Friday, no Friday is missing. */
  lemma CollectedAreAllFridays(Y: int, M: int, f: int, out: seq<Date>)
    requires 1 <= M <= 12 && 1 <= f && Weekday(Date(Y, M, f)) == Friday
    requires forall j :: 1 <= j < f ==> Weekday(Date(Y, M, j)) != Friday
    requires forall k :: 0 <= k < |out| ==> out[k] == Date(Y, M, f + 7 * k)
    requires f + 7 * |out| > DaysInMonth(Y, M)
    ensures forall day :: 1 <= day <= DaysInMonth(Y, M) && Weekday(Date(Y, M, day)) == Friday ==> Date(Y, M, day) in out
  {
    forall day | 1 <= day <= DaysInMonth(Y, M) && Weekday(Date(Y, M, day)) == Friday
      ensures Date(Y, M, day) in out
    {
      assert day >= f;
      FridaysFrom(Y, M, f, day);
      var k := (day - f) / 7;
      assert day == f + 7 * k;
      assert out[k] == Date(Y, M, day);
    }
  }
}
