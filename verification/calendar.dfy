/** Python's `datetime.datetime` values: the proleptic Gregorian calendar,
    years 1..9999, microsecond resolution, no time zone. */
module Calendar {
  import opened Wrappers

  datatype DateTime = DateTime(year: int, month: int, day: int,
                               hour: int, minute: int, second: int, micro: int)

  /** `datetime(1900, 1, 1)`: the value `strptime` starts from before it
      overwrites the fields its format names. */
  const Epoch := DateTime(1900, 1, 1, 0, 0, 0, 0)

  predicate IsLeap(y: int) {
    y % 4 == 0 && (y % 100 != 0 || y % 400 == 0)
  }

  function DaysInMonth(y: int, m: int): (n: int)
    requires 1 <= m <= 12
    ensures 28 <= n <= 31
    ensures m == 2 ==> (n == 29 <==> IsLeap(y))
  {
    if m == 2 then (if IsLeap(y) then 29 else 28)
    else if m == 4 || m == 6 || m == 9 || m == 11 then 30
    else 31
  }

  /** The range checks the `datetime` constructor performs. */
  predicate Valid(dt: DateTime) {
    && 1 <= dt.year <= 9999
    && 1 <= dt.month <= 12
    && 1 <= dt.day <= DaysInMonth(dt.year, dt.month)
    && 0 <= dt.hour <= 23
    && 0 <= dt.minute <= 59
    && 0 <= dt.second <= 59
    && 0 <= dt.micro <= 999999
  }

  /** `datetime(y, mo, d, h, mi, s, us)`: the value, or `None` where Python
      raises `ValueError`. */
  function Make(y: int, mo: int, d: int, h: int, mi: int, s: int, us: int): (r: Option<DateTime>)
    ensures r.Some? <==> Valid(DateTime(y, mo, d, h, mi, s, us))
    ensures r.Some? ==> r.value.year == y && r.value.month == mo && r.value.day == d
    ensures r.Some? ==> r.value.hour == h && r.value.minute == mi && r.value.second == s && r.value.micro == us
  {
    var dt := DateTime(y, mo, d, h, mi, s, us);
    if Valid(dt) then Some(dt) else None
  }

  /** `datetime(y, mo, d)`: midnight of that day. */
  function MakeDate(y: int, mo: int, d: int): (r: Option<DateTime>)
    ensures r.Some? <==> (1 <= y <= 9999 && 1 <= mo <= 12 && 1 <= d <= DaysInMonth(y, mo))
    ensures r.Some? ==> r.value == DateTime(y, mo, d, 0, 0, 0, 0)
  {
    Make(y, mo, d, 0, 0, 0, 0)
  }
}
