/** The computing parts of the study tracker's window (StudyApp.py): the
    interval dropdown, the total-time text under the chart, what
    `show_barplot` puts on screen, the Add Session button and the dates the
    calendar highlights. Widgets, layout and drawing are not modelled; a
    chart is the text it shows. */
module App {
  import opened Optional
  import opened Calendar
  import opened PyText
  import opened Sequences
  import opened Tracker

  // ---------------------------------------------------------------------------
  // The interval dropdown

  /** The choices `summarize_dropdown` offers; "Day" is preselected. */
  const DropdownOptions: set<string> := {"Day", "Week", "Month", "Year"}
  const DefaultOption: string := "Day"

  /** The dropdown entry that names an interval. */
  function OptionOf(iv: Interval): string {
    match iv
    case Day => "Day"
    case Week => "Week"
    case Month => "Month"
    case Year => "Year"
  }

  /** The interval a dropdown entry stands for. */
  function IntervalOfOption(choice: string): (iv: Interval)
    requires choice in DropdownOptions
    ensures OptionOf(iv) == choice
  {
    if choice == "Day" then Day
    else if choice == "Week" then Week
    else if choice == "Month" then Month
    else Year
  }

  function LowerChar(c: char): char {
    if 'A' <= c <= 'Z' then (c as int + 32) as char else c
  }

  /** `s.lower()` on ASCII letters. */
  function Lower(s: string): (r: string)
    ensures |r| == |s|
    ensures forall i :: 0 <= i < |s| ==> r[i] == LowerChar(s[i])
  {
    if |s| == 0 then [] else [LowerChar(s[0])] + Lower(s[1..])
  }

  /** Lowering twice is lowering once: the dropdown lowers its choice and
      `show_barplot` lowers it again. */
  lemma LowerIdempotent(s: string)
    ensures Lower(Lower(s)) == Lower(s)
  {
    var once := Lower(s);
    assert forall i :: 0 <= i < |s| ==> Lower(once)[i] == once[i];
  }

  /** Every dropdown entry, lowered, names an interval, and that interval's
      entry is the one chosen: the dropdown never asks for an interval
      `summarize_session` does not know. */
  lemma DropdownChoice(choice: string)
    requires choice in DropdownOptions
    ensures IntervalNamed(Lower(choice)).Some?
    ensures OptionOf(IntervalNamed(Lower(choice)).value) == choice
  {
    OptionNamesInterval(IntervalOfOption(choice));
  }

  /** Every interval is on offer in the dropdown, and its entry, lowered,
      names it. */
  lemma OptionNamesInterval(iv: Interval)
    ensures OptionOf(iv) in DropdownOptions
    ensures IntervalNamed(Lower(OptionOf(iv))) == Some(iv)
  {
    match iv
    case Day => DefaultIsDay();
    case Week => LowerWeek();
    case Month => LowerMonth();
    case Year => LowerYear();
  }

  lemma LowerWeek()
    ensures Lower("Week") == "week"
  {
  }

  lemma LowerMonth()
    ensures Lower("Month") == "month"
  {
  }

  lemma LowerYear()
    ensures Lower("Year") == "year"
  {
  }

  // ---------------------------------------------------------------------------
  // format_time

  /** `format_time`: "M minutes" below an hour, otherwise
      "H hours and M minutes" with `int(t / 60)` and `t % 60`. */
  function FormatTime(total: int): string {
    if total < 60 then IntToString(total) + " minutes"
    else
      var split := ConvertToHours(total);
      IntToString(split.0) + " hours and " + IntToString(split.1) + " minutes"
  }

  /** Reads a `format_time` text back as a number of minutes. */
  function ReadTime(text: string): Option<int> {
    ReadTimeWords(SplitOnSpace(text))
  }

  function ReadTimeWords(words: seq<string>): Option<int> {
    if |words| == 2 && words[1] == "minutes" then ParseInt(words[0])
    else if |words| == 5 && words[1] == "hours" && words[2] == "and" && words[4] == "minutes" then
      match (ParseInt(words[0]), ParseInt(words[3]))
      case (Some(h), Some(m)) => Some(h * 60 + m)
      case _ => None
    else None
  }

  /** The words of a `format_time` text: five words with the hours, and
      minutes below 60, from 60 minutes on; two words below that. */
  lemma FormatTimeWords(total: int)
    ensures total >= 60 ==> SplitOnSpace(FormatTime(total))
                            == [IntToString(total / 60), "hours", "and", IntToString(total % 60), "minutes"]
    ensures total < 60 ==> SplitOnSpace(FormatTime(total)) == [IntToString(total), "minutes"]
    ensures |SplitOnSpace(FormatTime(total))| == 5 <==> total >= 60
  {
    if total >= 60 {
      HoursTextWords(total);
    } else {
      MinutesTextWords(total);
    }
  }

  lemma HoursTextWords(total: int)
    requires total >= 60
    ensures SplitOnSpace(FormatTime(total))
            == [IntToString(total / 60), "hours", "and", IntToString(total % 60), "minutes"]
  {
    var h, m := IntToString(total / 60), IntToString(total % 60);
    HoursTextJoined(total);
    SplitJoin([h, "hours", "and", m, "minutes"]);
  }

  lemma HoursTextJoined(total: int)
    requires total >= 60
    ensures FormatTime(total)
            == JoinWithSpace([IntToString(total / 60), "hours", "and", IntToString(total % 60), "minutes"])
  {
    var h, m := IntToString(total / 60), IntToString(total % 60);
    assert FormatTime(total) == h + " hours and " + m + " minutes";
    HoursWordsJoined(h, m);
  }

  lemma HoursWordsJoined(h: string, m: string)
    ensures h + " hours and " + m + " minutes" == JoinWithSpace([h, "hours", "and", m, "minutes"])
  {
    JoinFive(h, "hours", "and", m, "minutes");
    assert h + " hours and " + m + " minutes" == h + " " + "hours" + " " + "and" + " " + m + " " + "minutes";
  }

  lemma MinutesTextWords(total: int)
    requires total < 60
    ensures SplitOnSpace(FormatTime(total)) == [IntToString(total), "minutes"]
  {
    var v := IntToString(total);
    assert FormatTime(total) == v + " " + "minutes";
    JoinTwo(v, "minutes");
    SplitJoin([v, "minutes"]);
  }

  /** No information is lost in the total-time text: it reads back as the
      total. */
  lemma FormatTimeReadsBack(total: int)
    ensures ReadTime(FormatTime(total)) == Some(total)
  {
    if total >= 60 {
      var q, r := total / 60, total % 60;
      HoursTextWords(total);
      ParseIntToString(q);
      ParseIntToString(r);
      ReadHoursWords(FormatTime(total), IntToString(q), IntToString(r), q, r, total);
    } else {
      MinutesTextWords(total);
      ParseIntToString(total);
    }
  }

  lemma ReadHoursWords(text: string, h: string, m: string, hours: int, minutes: int, total: int)
    requires SplitOnSpace(text) == [h, "hours", "and", m, "minutes"]
    requires ParseInt(h) == Some(hours) && ParseInt(m) == Some(minutes)
    requires hours * 60 + minutes == total
    ensures ReadTime(text) == Some(total)
  {
    var w := [h, "hours", "and", m, "minutes"];
    assert |w| == 5 && w[0] == h && w[1] == "hours" && w[2] == "and" && w[3] == m && w[4] == "minutes";
  }

  /** Just below an hour the total is given in minutes. */
  lemma FormatTimeBelowThreshold()
    ensures FormatTime(59) == "59 minutes"
  {
    TwoDigitText(59);
    assert IntToString(59) == "59";
  }

  /** From an hour on the total is given in hours and minutes. */
  lemma FormatTimeAtThreshold()
    ensures FormatTime(60) == "1 hours and 0 minutes"
  {
    OneDigitText(1);
    OneDigitText(0);
    assert ConvertToHours(60) == (1, 0);
  }

  // ---------------------------------------------------------------------------
  // show_barplot

  /** What the plot area shows: a bar per topic, keyed by topic and carrying
      its `annotate_bars` label, and the total-time line under the chart. */
  datatype Chart = Chart(bars: map<string, string>, totalText: string)

  /** The exceptions `show_barplot` lets through: OverflowError from the week
      window, OutOfBoundsDatetime from pandas, the TypeError of comparing a
      Date column that holds text with a Timestamp, and the TypeError of
      unpacking the bare None that `summarize_session` returns for an
      unknown interval name. */
  datatype PlotError = WeekOverflow | OutOfTimestampRange | CannotCompareDates | CannotUnpack

  const TotalPrefix: string := "Total time spent for this interval is "

  function TotalText(total: int): string {
    TotalPrefix + FormatTime(total)
  }

  /** The labelled bars of a grouped report. */
  function BarsOf(minutesByTopic: map<string, int>): (bars: map<string, string>)
    ensures bars.Keys == minutesByTopic.Keys
    ensures forall t :: t in bars ==> ReadBarLabel(bars[t]) == Some(minutesByTopic[t])
  {
    assert forall t :: t in minutesByTopic ==> ReadBarLabel(BarLabel(minutesByTopic[t])) == Some(minutesByTopic[t]) by {
      forall t | t in minutesByTopic
        ensures ReadBarLabel(BarLabel(minutesByTopic[t])) == Some(minutesByTopic[t])
      {
        BarLabelReadsBack(minutesByTopic[t]);
      }
    }
    map t | t in minutesByTopic :: BarLabel(minutesByTopic[t])
  }

  /** `show_barplot(option)`: `None` where the figure is None and the screen
      is left as it was (`pass`), otherwise the new chart. */
  function ShowBarplot(table: Table, option: string, today: Date): Result<Option<Chart>, PlotError>
    requires Valid(today)
  {
    match SummarizeSession(table, Lower(option), today)
    case NoData => Ok(None)
    case Report(minutesByTopic, total) => Ok(Some(Chart(BarsOf(minutesByTopic), TotalText(total))))
    case DateOverflow => Err(WeekOverflow)
    case OutOfBoundsDatetime => Err(OutOfTimestampRange)
    case DatesNotComparable => Err(CannotCompareDates)
    case NoSuchInterval => Err(CannotUnpack)
  }

  /** Reads the total-time line back as a number of minutes. */
  function ReadTotalText(text: string): Option<int> {
    if |text| >= |TotalPrefix| && text[..|TotalPrefix|] == TotalPrefix
    then ReadTime(text[|TotalPrefix|..])
    else None
  }

  lemma TotalTextReadsBack(total: int)
    ensures ReadTotalText(TotalText(total)) == Some(total)
  {
    var text := TotalText(total);
    assert text[..|TotalPrefix|] == TotalPrefix;
    assert text[|TotalPrefix|..] == FormatTime(total);
    FormatTimeReadsBack(total);
  }

  /** A chart shows, for the chosen interval, one bar per topic studied in
      its window, labelled with that topic's minutes there, and under it
      the minutes of all the window's rows. */
  lemma ChartShowsWindow(table: Table, option: string, today: Date)
    requires Valid(today)
    requires ShowBarplot(table, option, today).Ok? && ShowBarplot(table, option, today).value.Some?
    ensures IntervalNamed(Lower(option)).Some?
    ensures WindowOf(IntervalNamed(Lower(option)).value, today).Some?
    ensures var rows := Filter(table, WindowOf(IntervalNamed(Lower(option)).value, today).value);
            var chart := ShowBarplot(table, option, today).value.value;
            && (forall t :: t in chart.bars <==> HasTopic(rows, t))
            && (forall t :: t in chart.bars ==> ReadBarLabel(chart.bars[t]) == Some(TopicMinutes(rows, t)))
            && ReadTotalText(chart.totalText) == Some(TotalMinutes(rows))
  {
    var report := SummarizeSession(table, Lower(option), today);
    ReportOfWindow(table, Lower(option), today);
    var rows := Filter(table, WindowOf(IntervalNamed(Lower(option)).value, today).value);
    GrandTotalIsTotalMinutes(rows);
    TotalTextReadsBack(report.total);
  }

  /** Which outcome a redraw has: the screen stays as it was exactly when
      the day has no rows, the week overflows only in the first week of
      0001, pandas refuses the week, month and year bounds outside its
      Timestamp range, a Date column holding text cannot be compared, and
      the bare-None TypeError needs a name the dropdown never produces. */
  lemma ShowBarplotOutcome(table: Table, option: string, today: Date)
    requires Valid(today)
    ensures ShowBarplot(table, option, today) == Ok(None)
            <==> Lower(option) == "day" && forall i :: 0 <= i < |table| ==> table[i].date != today
    ensures ShowBarplot(table, option, today) == Err(WeekOverflow)
            <==> Lower(option) == "week" && Ordinal(today) <= 7
    ensures ShowBarplot(table, option, today) == Err(OutOfTimestampRange)
            <==> FirstBoundBeyond(Lower(option), today)
                 || (!DateColumnHasText(table) && BeyondTimestampRange(Lower(option), today))
    ensures ShowBarplot(table, option, today) == Err(CannotCompareDates)
            <==> && Lower(option) in {"week", "month", "year"}
                 && !(Lower(option) == "week" && Ordinal(today) <= 7)
                 && DateColumnHasText(table)
                 && !FirstBoundBeyond(Lower(option), today)
    ensures ShowBarplot(table, option, today) == Err(CannotUnpack)
            <==> Lower(option) !in ["day", "week", "month", "year"]
  {
    SummaryOutcome(table, Lower(option), today);
  }

  /** A choice made in the dropdown never ends in the TypeError. */
  lemma DropdownNeverUnpacksNone(table: Table, choice: string, today: Date)
    requires Valid(today) && choice in DropdownOptions
    ensures ShowBarplot(table, Lower(choice), today) != Err(CannotUnpack)
  {
    DropdownChoice(choice);
    LowerIdempotent(choice);
    KnownNameUnpacks(table, Lower(choice), today);
  }

  lemma KnownNameUnpacks(table: Table, option: string, today: Date)
    requires Valid(today) && IntervalNamed(Lower(option)).Some?
    ensures ShowBarplot(table, option, today) != Err(CannotUnpack)
  {
  }

  // ---------------------------------------------------------------------------
  // The Add Session button

  /** The three entry fields: topic, minutes (as typed) and description. */
  datatype Form = Form(topic: string, minutes: string, description: string)

  const EmptyForm: Form := Form("", "", "")

  /** What the window holds: the tracker table, the entry fields and the
      chart on display, if any. */
  datatype Screen = Screen(table: Table, form: Form, chart: Option<Chart>)

  /** The exceptions that abort the button's callback: ValueError from
      `int()` on the minutes field, and OverflowError or OutOfBoundsDatetime
      from `add_session`. */
  datatype EntryError = NotAnInteger | ClockOutOfRange | DateOutOfRange

  /** The screen after pressing Add Session, and the exception that ended
      the callback early, if any. */
  datatype Pressed = Pressed(screen: Screen, raised: Option<EntryError>)

  /** `session_entries.add_session`: parse the minutes, log the row, redraw
      the day chart and clear the fields. An exception leaves the rest of
      the callback undone; OutOfBoundsDatetime comes after the row was
      appended, so the table keeps it. */
  function PressAddSession(screen: Screen, now: Moment, today: Date): (r: Pressed)
    requires ValidMoment(now) && Valid(today)
    ensures r.raised == Some(NotAnInteger)
            <==> ParseInt(screen.form.minutes).None? || DigitCount(screen.form.minutes) > MaxStrDigits
    ensures r.raised == Some(ClockOutOfRange)
            <==> IntOfText(screen.form.minutes).Some?
                 && !StampInRange(MinuteStamp(now) - IntOfText(screen.form.minutes).value)
    ensures r.raised == Some(DateOutOfRange)
            <==> && IntOfText(screen.form.minutes).Some?
                 && StampInRange(MinuteStamp(now) - IntOfText(screen.form.minutes).value)
                 && !(ColumnConverts(screen.table) && InTimestampRange(today))
    ensures r.raised == Some(NotAnInteger) || r.raised == Some(ClockOutOfRange) ==> r.screen == screen
    ensures r.raised == Some(DateOutOfRange)
            ==> r.screen.form == screen.form && r.screen.chart == screen.chart
    ensures r.raised.None? ==> r.screen.form == EmptyForm
    ensures r.raised.None? || r.raised == Some(DateOutOfRange) ==> var t := r.screen.table;
                               && |t| == |screen.table| + 1
                               && t[..|screen.table|] == screen.table
                               && t[|screen.table|].topic == screen.form.topic
                               && t[|screen.table|].timeSpent == IntOfText(screen.form.minutes).value
                               && t[|screen.table|].description == screen.form.description
                               && t[|screen.table|].date == today
  {
    match IntOfText(screen.form.minutes)
    case None => Pressed(screen, Some(NotAnInteger))
    case Some(minutes) =>
      match AddSession(screen.table, screen.form.topic, minutes, screen.form.description, now, today)
      case Err(ClockOverflow) => Pressed(screen, Some(ClockOutOfRange))
      case Err(DateOutOfBounds(appended)) =>
        Pressed(Screen(appended, screen.form, screen.chart), Some(DateOutOfRange))
      case Ok(table) =>
        Pressed(Screen(table, EmptyForm, Redrawn(table, screen.chart, today)), None)
  }

  /** The chart after `show_barplot()` with its default "Day": the new chart
      when there is one, the previous one otherwise. */
  function Redrawn(table: Table, previous: Option<Chart>, today: Date): Option<Chart>
    requires Valid(today)
  {
    match ShowBarplot(table, DefaultOption, today)
    case Ok(Some(chart)) => Some(chart)
    case _ => previous
  }

  /** The default option asks for the day chart. */
  lemma DefaultIsDay()
    ensures Lower(DefaultOption) == "day"
  {
  }

  /** With a row dated today in the table, the day redraw always draws. */
  lemma DayChartAfterRow(table: Table, row: Session, today: Date)
    requires Valid(today) && row.date == today
    ensures ShowBarplot(table + [row], DefaultOption, today).Ok?
    ensures ShowBarplot(table + [row], DefaultOption, today).value.Some?
  {
    DefaultIsDay();
    DayRowsAfterRow(table, row, today);
    DaySummary(table + [row], today);
  }

  /** After a session is logged, the day chart is on screen with a bar for
      its topic labelled with the topic's minutes today, and the total line
      counts the minutes of all of today's rows. */
  lemma PressShowsSession(screen: Screen, now: Moment, today: Date)
    requires ValidMoment(now) && Valid(today)
    requires PressAddSession(screen, now, today).raised.None?
    ensures var after := PressAddSession(screen, now, today).screen;
            var rows := Filter(after.table, OnDay(today));
            && after.chart.Some?
            && screen.form.topic in after.chart.value.bars
            && ReadBarLabel(after.chart.value.bars[screen.form.topic]) == Some(TopicMinutes(rows, screen.form.topic))
            && ReadTotalText(after.chart.value.totalText) == Some(TotalMinutes(rows))
  {
    var after := PressAddSession(screen, now, today).screen;
    var row := after.table[|screen.table|];
    assert after.table == screen.table + [row];
    DayChartAfterRow(screen.table, row, today);
    assert after.chart == ShowBarplot(after.table, DefaultOption, today).value;
    DayChartContents(after.table, today);
    DayRowsAfterRow(screen.table, row, today);
    var rows := Filter(after.table, OnDay(today));
    assert rows[|rows| - 1] == row;
  }

  /** What a day chart shows, in terms of today's rows. */
  lemma DayChartContents(table: Table, today: Date)
    requires Valid(today)
    requires ShowBarplot(table, DefaultOption, today).Ok? && ShowBarplot(table, DefaultOption, today).value.Some?
    ensures var rows := Filter(table, OnDay(today));
            var chart := ShowBarplot(table, DefaultOption, today).value.value;
            && (forall t :: t in chart.bars <==> HasTopic(rows, t))
            && (forall t :: t in chart.bars ==> ReadBarLabel(chart.bars[t]) == Some(TopicMinutes(rows, t)))
            && ReadTotalText(chart.totalText) == Some(TotalMinutes(rows))
  {
    DefaultIsDay();
    assert IntervalNamed("day") == Some(Day);
    ChartShowsWindow(table, DefaultOption, today);
  }

  /** Letters in the minutes field, or an empty field, raise ValueError and
      change nothing. */
  lemma NonNumericMinutesChangeNothing(screen: Screen, now: Moment, today: Date)
    requires ValidMoment(now) && Valid(today)
    requires forall i :: 0 <= i < |screen.form.minutes| ==> !IsDigit(screen.form.minutes[i])
    ensures PressAddSession(screen, now, today) == Pressed(screen, Some(NotAnInteger))
  {
    ParseIntNeedsDigit(screen.form.minutes);
  }

  // ---------------------------------------------------------------------------
  // highlight_studied_dates

  /** `df['Date'].unique()`: the dates the calendar marks as studied, each
      once, in order of first appearance. */
  function HighlightedDates(table: Table): (dates: seq<Date>)
    ensures Distinct(dates)
    ensures forall i :: 0 <= i < |table| ==> table[i].date in dates
    ensures forall k :: 0 <= k < |dates| ==> exists i :: 0 <= i < |table| && table[i].date == dates[k]
  {
    var column := seq(|table|, i requires 0 <= i < |table| => table[i].date);
    var dates := Unique(column);
    assert forall k :: 0 <= k < |dates| ==> exists i :: 0 <= i < |table| && table[i].date == dates[k] by {
      forall k | 0 <= k < |dates|
        ensures exists i :: 0 <= i < |table| && table[i].date == dates[k]
      {
        var i :| 0 <= i < |column| && column[i] == dates[k];
      }
    }
    assert forall i :: 0 <= i < |table| ==> table[i].date in dates by {
      forall i | 0 <= i < |table| ensures table[i].date in dates {
        assert column[i] == table[i].date;
      }
    }
    dates
  }

  /** The calendar marks as many dates as there are distinct study dates. */
  lemma HighlightedDatesCount(table: Table)
    ensures |HighlightedDates(table)| == |set i | 0 <= i < |table| :: table[i].date|
  {
    var dates := HighlightedDates(table);
    DistinctCardinality(dates);
    var a := set x | x in dates;
    var b := set i | 0 <= i < |table| :: table[i].date;
    forall x | x in a ensures x in b {
      var k :| 0 <= k < |dates| && dates[k] == x;
      var i :| 0 <= i < |table| && table[i].date == dates[k];
    }
    assert a == b;
  }
}
