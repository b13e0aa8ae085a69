// The selection logic of the daily TeX writer: which samvatsara names and Kali years head
// the year, which next-yoga and next-karana previews follow each day's spans, when the year
// name flips, which day the solar-month end is measured from, when moonrise and moonset are
// suppressed, how each day's festival list is ordered, and which calendar slots are printed.
// The TeX text around these values is not modelled; a row holds the values it would show.

module DailyTex {
  import opened Wrappers
  import opened Strings

  // ---------------------------------------------------------------------------------------
  // cyclic indices

  /** Python's `(i % n) + 1`: the 1-based cyclic successor of `i` among `1..n`. */
  function CyclicSucc(i: int, n: int): (r: int)
    requires n > 0
    ensures 1 <= r <= n
    ensures 1 <= i < n ==> r == i + 1
    ensures i == n ==> r == 1
  {
    i % n + 1
  }

  lemma CyclicSuccInjective(i: int, j: int, n: int)
    requires n > 0 && 1 <= i <= n && 1 <= j <= n
    requires CyclicSucc(i, n) == CyclicSucc(j, n)
    ensures i == j
  {
  }

  const SamvatsaraCycle := 60
  const YogaCycle := 27
  const KaranaCycle := 60

  /** A year of the common era in which the first samvatsara (Prabhava) is current from January. */
  const PrabhavaYear := 1568

  /** The samvatsara current at the start of `year`, counted 1..60 from Prabhava. Python's
      `%` floors, so the remainder is never negative, as Dafny's is. */
  function SamvatsaraId(year: int): (id: int)
    ensures 1 <= id <= SamvatsaraCycle
    ensures (year - PrabhavaYear - (id - 1)) % SamvatsaraCycle == 0
  {
    (year - PrabhavaYear) % SamvatsaraCycle + 1
  }

  /** The second name printed is next year's samvatsara: the successor wraps 60 to 1. */
  lemma {:induction false} SamvatsaraSuccessor(year: int)
    ensures CyclicSucc(SamvatsaraId(year), SamvatsaraCycle) == SamvatsaraId(year + 1)
  {
    var x := year - PrabhavaYear;
    var q := x / 60;
    var r := x % 60;
    assert x == 60 * q + r;
    if r < 59 {
      assert x + 1 == 60 * q + (r + 1);
      assert (x + 1) % 60 == r + 1;
    } else {
      assert x + 1 == 60 * (q + 1) + 0;
      assert (x + 1) % 60 == 0;
    }
  }

  lemma {:induction false} SamvatsaraPeriodic(year: int)
    ensures SamvatsaraId(year + SamvatsaraCycle) == SamvatsaraId(year)
  {
    var x := year - PrabhavaYear;
    assert x + 60 == 60 * (x / 60 + 1) + x % 60;
  }

  /** No samvatsara repeats within one 60-year cycle. */
  lemma {:induction false} SamvatsaraDistinct(a: int, b: int)
    requires a < b < a + SamvatsaraCycle
    ensures SamvatsaraId(a) != SamvatsaraId(b)
  {
    var x, y := a - PrabhavaYear, b - PrabhavaYear;
    assert y - x == 60 * (y / 60 - x / 60) + (y % 60 - x % 60);
  }

  // ---------------------------------------------------------------------------------------
  // the title page

  /** The year, the two samvatsara numbers (until and from the solar new year) and the two
      Kali years printed on the title page. */
  datatype Title = Title(year: int, samvatsaras: (int, int), kaliYears: (int, int))

  function TitleOf(year: int): (t: Title)
    ensures t.year == year
    ensures t.samvatsaras.0 == SamvatsaraId(year)
    ensures t.samvatsaras.1 == SamvatsaraId(year + 1)
    ensures t.samvatsaras.0 != t.samvatsaras.1
    ensures t.kaliYears.0 - year == 3100 && t.kaliYears.1 == t.kaliYears.0 + 1
  {
    var id := SamvatsaraId(year);
    SamvatsaraSuccessor(year);
    Title(year, (id, CyclicSucc(id, SamvatsaraCycle)), (year + 3100, year + 3101))
  }

  // ---------------------------------------------------------------------------------------
  // the days

  /** One anga span of a day: the anga's number and its end, or `None` when it lasts past the day. */
  datatype Span = Span(id: int, end: Option<real>)

  /** The fields of one daily panchaanga that the selection logic reads. `gregorianMonth` and
      `gregorianDay` are the civil date of the slot; Julian Days are reals. */
  datatype Day = Day(
    gregorianMonth: int,
    gregorianDay: int,
    julianDayStart: real,
    jdSunrise: real,
    jdMoonrise: real,
    jdMoonset: real,
    yogaData: seq<Span>,
    karanaData: seq<Span>,
    solarMonthSunset: int,
    solarMonthEndTime: Option<real>,
    festivals: seq<string>)

  predicate LastDayOfYear(day: Day) {
    day.gregorianMonth == 12 && day.gregorianDay == 31
  }

  datatype PreviewKind = YogaPreview | KaranaPreview

  function SpansOf(day: Day, kind: PreviewKind): seq<Span> {
    match kind
    case YogaPreview => day.yogaData
    case KaranaPreview => day.karanaData
  }

  function CycleOf(kind: PreviewKind): nat {
    match kind
    case YogaPreview => YogaCycle
    case KaranaPreview => KaranaCycle
  }

  /** The span the loop variables of the span loop hold after day `d` has been processed:
      the last span of the latest day among `1..d` that has any. Day 0 is never processed. */
  function LastSpanUpTo(days: seq<Day>, kind: PreviewKind, d: nat): Option<Span>
    requires d < |days|
  {
    if d == 0 then None
    else
      var spans := SpansOf(days[d], kind);
      if |spans| > 0 then Some(spans[|spans| - 1]) else LastSpanUpTo(days, kind, d - 1)
  }

  /** The span variables are unbound after day `d` exactly when no day in `1..d` has a span. */
  lemma {:induction false} LastSpanNone(days: seq<Day>, kind: PreviewKind, d: nat)
    requires d < |days|
    ensures LastSpanUpTo(days, kind, d).None? <==> forall e :: 1 <= e <= d ==> |SpansOf(days[e], kind)| == 0
  {
    if d > 0 {
      LastSpanNone(days, kind, d - 1);
    }
  }

  /** The preview after a day's spans: the next anga's number, when the last span ends. */
  function Preview(last: Span, n: nat): (p: Option<int>)
    requires n > 0
    ensures p.Some? <==> last.end.Some?
    ensures p.Some? ==> 1 <= p.value <= n
    ensures p.Some? && 1 <= last.id < n ==> p.value == last.id + 1
    ensures p.Some? && last.id == n ==> p.value == 1
  {
    if last.end.Some? then Some(CyclicSucc(last.id, n)) else None
  }

  /** The year name (a samvatsara number) in effect after day `d`: the first name, until a day
      in `1..d` whose solar month at sunset is Mesha (1) switches it to the second. */
  function YearNameAfter(year: int, days: seq<Day>, d: nat): int
    requires d < |days|
  {
    if d == 0 then SamvatsaraId(year)
    else if days[d].solarMonthSunset == 1 then TitleOf(year).samvatsaras.1
    else YearNameAfter(year, days, d - 1)
  }

  predicate MeshaBy(days: seq<Day>, d: nat)
    requires d < |days|
  {
    exists e :: 1 <= e <= d && days[e].solarMonthSunset == 1
  }

  /** The year name is the second exactly when some day so far had its sunset in Mesha. */
  lemma {:induction false} YearNameFlips(year: int, days: seq<Day>, d: nat)
    requires d < |days|
    ensures YearNameAfter(year, days, d) == TitleOf(year).samvatsaras.1 <==> MeshaBy(days, d)
    ensures !MeshaBy(days, d) ==> YearNameAfter(year, days, d) == TitleOf(year).samvatsaras.0
  {
    if d > 0 {
      YearNameFlips(year, days, d - 1);
      if days[d].solarMonthSunset != 1 {
        if MeshaBy(days, d) {
          var e :| 1 <= e <= d && days[e].solarMonthSunset == 1;
          assert 1 <= e <= d - 1;
          assert MeshaBy(days, d - 1);
        }
      }
    }
  }

  /** Once flipped, the year name never reverts. */
  lemma {:induction false} YearNameNeverReverts(year: int, days: seq<Day>, d1: nat, d2: nat)
    requires d1 <= d2 < |days|
    requires YearNameAfter(year, days, d1) == TitleOf(year).samvatsaras.1
    ensures YearNameAfter(year, days, d2) == TitleOf(year).samvatsaras.1
    decreases d2 - d1
  {
    if d1 < d2 {
      YearNameNeverReverts(year, days, d1, d2 - 1);
    }
  }

  /** The solar-month end shown on a day: the solar month that ends, as the previous day's
      month at sunset, and the hours from the start of the day the end is reckoned on. */
  datatype MonthEnd = MonthEnd(rashi: int, hours: real)

  /** An end at or after the next sunrise is measured from the next day's start; an earlier
      one from this day's start. */
  function MonthEndOf(days: seq<Day>, d: nat): (r: Option<MonthEnd>)
    requires 1 <= d < |days| - 1
    ensures r.Some? <==> days[d].solarMonthEndTime.Some?
    ensures r.Some? ==> r.value.rashi == days[d - 1].solarMonthSunset
  {
    match days[d].solarMonthEndTime
    case None => None
    case Some(t) =>
      var reference := if t >= days[d + 1].jdSunrise then d + 1 else d;
      Some(MonthEnd(days[d - 1].solarMonthSunset, 24.0 * (t - days[reference].julianDayStart)))
  }

  /** When the instants are in their natural order (this day starts before the end, the next
      day starts before its sunrise), the hours shown are never negative, and an end before
      the next sunrise is shown as less than the hours from this day's start to that sunrise. */
  lemma MonthEndBounds(days: seq<Day>, d: nat)
    requires 1 <= d < |days| - 1
    requires days[d].solarMonthEndTime.Some?
    requires days[d].julianDayStart <= days[d].solarMonthEndTime.value
    requires days[d + 1].julianDayStart <= days[d + 1].jdSunrise
    ensures MonthEndOf(days, d).value.hours >= 0.0
    ensures days[d].solarMonthEndTime.value < days[d + 1].jdSunrise ==>
              MonthEndOf(days, d).value.hours < 24.0 * (days[d + 1].jdSunrise - days[d].julianDayStart)
  {
  }

  /** For consecutive days one Julian Day apart, an end measured from the next day reads 24
      hours less than the same instant measured from this day: it is shown as a time of the
      next day. */
  lemma MonthEndNextDay(days: seq<Day>, d: nat)
    requires 1 <= d < |days| - 1
    requires days[d].solarMonthEndTime.Some?
    requires days[d + 1].julianDayStart == days[d].julianDayStart + 1.0
    ensures days[d].solarMonthEndTime.value >= days[d + 1].jdSunrise ==>
              MonthEndOf(days, d).value.hours == 24.0 * (days[d].solarMonthEndTime.value - days[d].julianDayStart) - 24.0
    ensures days[d].solarMonthEndTime.value < days[d + 1].jdSunrise ==>
              MonthEndOf(days, d).value.hours == 24.0 * (days[d].solarMonthEndTime.value - days[d].julianDayStart)
  {
  }

  /** A moonrise or moonset time: hours from the day's start, or `None` (printed `---`) when
      it falls after the next day's sunrise. */
  function Shown(instant: real, dayStart: real, nextSunrise: real): (r: Option<real>)
    ensures r.None? <==> instant > nextSunrise
    ensures r.Some? ==> r.value <= 24.0 * (nextSunrise - dayStart)
    ensures r.Some? && dayStart <= instant ==> r.value >= 0.0
  {
    if instant > nextSunrise then None else Some(24.0 * (instant - dayStart))
  }

  /** Which of the two sun-and-moon macros is printed: rise first when the moon rises before
      it sets on that day. */
  datatype MoonOrder = RiseFirst | SetFirst

  /** The values one printed day shows. */
  datatype Row = Row(
    yogaNext: Option<int>,
    karanaNext: Option<int>,
    yearName: int,
    monthEnd: Option<MonthEnd>,
    moonrise: Option<real>,
    moonset: Option<real>,
    moonOrder: MoonOrder,
    festivals: seq<string>)

  /** Python's `UnboundLocalError` when the first processed days have no yoga (or karana)
      spans, so the span loop variables were never bound. */
  datatype WriterError = UnboundYoga | UnboundKarana

  /** What the writer prints for slot `d`, or the error it stops with there. */
  function RowAt(year: int, days: seq<Day>, d: nat): Result<Row, WriterError>
    requires 1 <= d < |days| - 1
  {
    var yoga := LastSpanUpTo(days, YogaPreview, d);
    var karana := LastSpanUpTo(days, KaranaPreview, d);
    if yoga.None? then Failure(UnboundYoga)
    else if karana.None? then Failure(UnboundKarana)
    else
      var day, next := days[d], days[d + 1];
      Success(Row(
        Preview(yoga.value, YogaCycle),
        Preview(karana.value, KaranaCycle),
        YearNameAfter(year, days, d),
        MonthEndOf(days, d),
        Shown(day.jdMoonrise, day.julianDayStart, next.jdSunrise),
        Shown(day.jdMoonset, day.julianDayStart, next.jdSunrise),
        if day.jdMoonrise < day.jdMoonset then RiseFirst else SetFirst,
        SortedUnique(day.festivals)))
  }

  /** A printed day lists its festivals sorted and without duplicates, orders the moon macros
      by rise and set, and names one of the two samvatsaras of the title. */
  lemma RowAtFacts(year: int, days: seq<Day>, d: nat)
    requires 1 <= d < |days| - 1
    requires RowAt(year, days, d).Success?
    ensures StrictlySorted(RowAt(year, days, d).value.festivals)
    ensures forall f :: f in RowAt(year, days, d).value.festivals <==> f in days[d].festivals
    ensures RowAt(year, days, d).value.moonOrder == RiseFirst <==> days[d].jdMoonrise < days[d].jdMoonset
    ensures RowAt(year, days, d).value.yearName == TitleOf(year).samvatsaras.0
         || RowAt(year, days, d).value.yearName == TitleOf(year).samvatsaras.1
  {
    YearNameFlips(year, days, d);
  }

  /** The writer stops at slot `d` with an unbound yoga exactly when no day in `1..d` has a
      yoga span. */
  lemma UnboundYogaIff(year: int, days: seq<Day>, d: nat)
    requires 1 <= d < |days| - 1
    ensures RowAt(year, days, d) == Failure(UnboundYoga) <==> forall e :: 1 <= e <= d ==> |days[e].yogaData| == 0
  {
    LastSpanNone(days, YogaPreview, d);
  }

  /** A day without yoga spans repeats the previous day's yoga preview, since the loop
      variables still hold that day's last span. */
  lemma EmptyDayRepeatsPreview(year: int, days: seq<Day>, d: nat)
    requires 2 <= d < |days| - 1
    requires |days[d].yogaData| == 0
    requires RowAt(year, days, d - 1).Success? && RowAt(year, days, d).Success?
    ensures RowAt(year, days, d).value.yogaNext == RowAt(year, days, d - 1).value.yogaNext
  {
  }

  /** One step of the writer's loop: the row it assembles from the loop's state is `RowAt`. */
  lemma RowAtIs(year: int, days: seq<Day>, d: nat, yoga: Span, karana: Span, row: Row)
    requires 1 <= d < |days| - 1
    requires LastSpanUpTo(days, YogaPreview, d) == Some(yoga)
    requires LastSpanUpTo(days, KaranaPreview, d) == Some(karana)
    requires row.yogaNext == Preview(yoga, YogaCycle) && row.karanaNext == Preview(karana, KaranaCycle)
    requires row.yearName == YearNameAfter(year, days, d)
    requires row.monthEnd == MonthEndOf(days, d)
    requires row.moonrise == Shown(days[d].jdMoonrise, days[d].julianDayStart, days[d + 1].jdSunrise)
    requires row.moonset == Shown(days[d].jdMoonset, days[d].julianDayStart, days[d + 1].jdSunrise)
    requires row.moonOrder == (if days[d].jdMoonrise < days[d].jdMoonset then RiseFirst else SetFirst)
    requires row.festivals == SortedUnique(days[d].festivals)
    ensures RowAt(year, days, d) == Success(row)
  {
  }

  // ---------------------------------------------------------------------------------------
  // the writer's loop

  /** The solar-month end shown on day `d`, as the writer computes it. */
  method MonthEndDisplay(days: seq<Day>, d: nat) returns (monthEnd: Option<MonthEnd>)
    requires 1 <= d < |days| - 1
    ensures monthEnd == MonthEndOf(days, d)
  {
    monthEnd := None;
    if days[d].solarMonthEndTime.Some? {
      var m := days[d - 1].solarMonthSunset;
      var t := days[d].solarMonthEndTime.value;
      if t >= days[d + 1].jdSunrise {
        monthEnd := Some(MonthEnd(m, 24.0 * (t - days[d + 1].julianDayStart)));
      } else {
        monthEnd := Some(MonthEnd(m, 24.0 * (t - days[d].julianDayStart)));
      }
    }
  }

  /** The moonrise and moonset shown for `day`, followed by `next`, and the macro order. */
  method MoonDisplay(day: Day, next: Day) returns (moonrise: Option<real>, moonset: Option<real>, order: MoonOrder)
    ensures moonrise == Shown(day.jdMoonrise, day.julianDayStart, next.jdSunrise)
    ensures moonset == Shown(day.jdMoonset, day.julianDayStart, next.jdSunrise)
    ensures order == RiseFirst <==> day.jdMoonrise < day.jdMoonset
  {
    moonrise := Some(24.0 * (day.jdMoonrise - day.julianDayStart));
    moonset := Some(24.0 * (day.jdMoonset - day.julianDayStart));
    if day.jdMoonrise > next.jdSunrise {
      moonrise := None;
    }
    if day.jdMoonset > next.jdSunrise {
      moonset := None;
    }
    order := if day.jdMoonrise < day.jdMoonset then RiseFirst else SetFirst;
  }

  /** A span loop: its loop variables end on the last span, or keep the value they had
      before the loop when there are no spans. */
  method LastSpan(spans: seq<Span>, before: Option<Span>) returns (last: Option<Span>)
    ensures |spans| == 0 ==> last == before
    ensures |spans| > 0 ==> last == Some(spans[|spans| - 1])
  {
    last := before;
    for k := 0 to |spans|
      invariant last == if k == 0 then before else Some(spans[k - 1])
    {
      last := Some(spans[k]);
    }
  }

  /** The body of the day loop for slot `d`: the span loops rebind the last yoga and karana,
      the year name flips on a Mesha sunset, and the day's row is assembled. The state passed
      in is the state after slot `d - 1`, and the state returned the state after slot `d`. */
  method WriteDay(days: seq<Day>, d: nat, secondName: int, year: int, yname: int, yoga: Option<Span>, karana: Option<Span>)
    returns (row: Result<Row, WriterError>, yname': int, yoga': Option<Span>, karana': Option<Span>)
    requires 1 <= d < |days| - 1
    requires secondName == TitleOf(year).samvatsaras.1
    requires yname == YearNameAfter(year, days, d - 1)
    requires yoga == LastSpanUpTo(days, YogaPreview, d - 1)
    requires karana == LastSpanUpTo(days, KaranaPreview, d - 1)
    ensures row == RowAt(year, days, d)
    ensures row.Success? ==> yname' == YearNameAfter(year, days, d)
    ensures row.Success? ==> yoga' == LastSpanUpTo(days, YogaPreview, d)
    ensures row.Success? ==> karana' == LastSpanUpTo(days, KaranaPreview, d)
  {
    var day := days[d];
    yname', karana' := yname, karana;
    yoga' := LastSpan(day.yogaData, yoga);
    if yoga'.None? {
      return Failure(UnboundYoga), yname', yoga', karana';
    }
    var yogaNext := None;
    if yoga'.value.end.Some? {
      yogaNext := Some((yoga'.value.id % 27) + 1);
    }
    karana' := LastSpan(day.karanaData, karana);
    if karana'.None? {
      return Failure(UnboundKarana), yname', yoga', karana';
    }
    var karanaNext := None;
    if karana'.value.end.Some? {
      karanaNext := Some((karana'.value.id % 60) + 1);
    }
    if day.solarMonthSunset == 1 {
      yname' := secondName;
    }
    var r := AssembleRow(year, days, d, yoga'.value, karana'.value, yogaNext, karanaNext, yname');
    row := Success(r);
  }

  /** The rest of the day's printout once the previews and the year name are known. */
  method AssembleRow(year: int, days: seq<Day>, d: nat, yoga: Span, karana: Span,
                     yogaNext: Option<int>, karanaNext: Option<int>, yname: int) returns (row: Row)
    requires 1 <= d < |days| - 1
    requires LastSpanUpTo(days, YogaPreview, d) == Some(yoga)
    requires LastSpanUpTo(days, KaranaPreview, d) == Some(karana)
    requires yogaNext == Preview(yoga, YogaCycle) && karanaNext == Preview(karana, KaranaCycle)
    requires yname == YearNameAfter(year, days, d)
    ensures RowAt(year, days, d) == Success(row)
  {
    var monthEnd := MonthEndDisplay(days, d);
    var moonrise, moonset, order := MoonDisplay(days[d], days[d + 1]);
    row := Row(yogaNext, karanaNext, yname, monthEnd, moonrise, moonset, order, SortedUnique(days[d].festivals));
    RowAtIs(year, days, d, yoga, karana, row);
  }

  /** `rows` are the rows printed for slots `1 .. |rows|`. */
  predicate Printed(year: int, days: seq<Day>, rows: seq<Row>) {
    |rows| + 1 < |days| && forall i :: 0 <= i < |rows| ==> RowAt(year, days, i + 1) == Success(rows[i])
  }

  lemma PrintedSnoc(year: int, days: seq<Day>, rows: seq<Row>, row: Row)
    requires Printed(year, days, rows) && |rows| + 2 < |days|
    requires RowAt(year, days, |rows| + 1) == Success(row)
    ensures Printed(year, days, rows + [row])
  {
  }

  /** The title and the day loop: slots `1 .. |days| - 2` in order (slot 0 and the last slot
      are read only as neighbours), stopping after the day dated 31 December. `rows` holds
      the days printed before it stopped or failed. */
  method WriteDailyTex(year: int, days: seq<Day>) returns (title: Title, rows: seq<Row>, err: Option<WriterError>)
    ensures title == TitleOf(year)
    ensures |rows| == 0 || |rows| + 2 <= |days|
    ensures forall i :: 0 <= i < |rows| ==> i + 2 < |days| && RowAt(year, days, i + 1) == Success(rows[i])
    ensures forall e :: 1 <= e < |rows| ==> e < |days| && !LastDayOfYear(days[e])
    ensures err.Some? ==> |rows| + 2 < |days| && RowAt(year, days, |rows| + 1) == Failure(err.value)
    ensures err.None? ==> |rows| + 2 >= |days| || (|rows| > 0 && LastDayOfYear(days[|rows|]))
  {
    var samvatsaraId := (year - 1568) % 60 + 1;
    var names := (samvatsaraId, samvatsaraId % 60 + 1);
    title := Title(year, names, (year + 3100, year + 3101));
    SamvatsaraSuccessor(year);
    var yname := names.0;
    var yoga: Option<Span> := None;
    var karana: Option<Span> := None;
    rows, err := [], None;
    var d := 1;
    while d < |days| - 1
      invariant 1 <= d && (d <= |days| - 1 || d == 1)
      invariant |rows| == d - 1
      invariant d < |days| ==> yname == YearNameAfter(year, days, d - 1)
      invariant d < |days| ==> yoga == LastSpanUpTo(days, YogaPreview, d - 1)
      invariant d < |days| ==> karana == LastSpanUpTo(days, KaranaPreview, d - 1)
      invariant |days| > 1 ==> Printed(year, days, rows)
      invariant forall e :: 1 <= e <= |rows| ==> !LastDayOfYear(days[e])
      decreases |days| - d
    {
      var row;
      row, yname, yoga, karana := WriteDay(days, d, names.1, year, yname, yoga, karana);
      if row.Failure? {
        err := Some(row.error);
        return;
      }
      PrintedSnoc(year, days, rows, row.value);
      rows := rows + [row.value];
      if LastDayOfYear(days[d]) {
        return;
      }
      d := d + 1;
    }
  }
}
