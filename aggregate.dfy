/**
 * Aggregator: the analytics block of the dashboard script (main.py, after the
 * videos table is fetched).  It narrows the table to a date range, attaches
 * the `YearMonth` cohort key, lists the months, selects the latest month's
 * videos, and sums the counters into totals and an engagement percentage.
 */
module Aggregate {
  import opened Wrappers
  import opened Calendar
  import opened Lex
  import opened MonthKey
  import opened Videos

  /** `df[mask]`: the elements that satisfy `keep`, in their original order. */
  function Where<T(!new)>(s: seq<T>, keep: T -> bool): (r: seq<T>)
    ensures |r| <= |s|
    ensures forall x :: x in r <==> x in s && keep(x)
  {
    if s == [] then []
    else if keep(s[0]) then [s[0]] + Where(s[1..], keep)
    else Where(s[1..], keep)
  }

  /** Masking distributes over concatenation: relative order is preserved. */
  lemma {:induction false} WhereAppend<T(!new)>(a: seq<T>, b: seq<T>, keep: T -> bool)
    ensures Where(a + b, keep) == Where(a, keep) + Where(b, keep)
  {
    if a != [] {
      assert (a + b)[0] == a[0] && (a + b)[1..] == a[1..] + b;
      WhereAppend(a[1..], b, keep);
    } else {
      assert a + b == b;
    }
  }

  /** A mask that keeps every element keeps the sequence as it is. */
  lemma {:induction false} WhereAll<T(!new)>(s: seq<T>, keep: T -> bool)
    requires forall x :: x in s ==> keep(x)
    ensures Where(s, keep) == s
  {
    if s != [] {
      assert s[0] in s;
      assert forall x :: x in s[1..] ==> x in s;
      WhereAll(s[1..], keep);
    }
  }

  // ----- date range -----

  /**
   * `start <= d < end + 1 day`: the start day from its midnight, the end day
   * up to (not including) the next midnight.
   */
  predicate InDateRange(t: int, startDay: int, endDay: int)
  {
    MidnightOf(startDay) <= t < MidnightOf(endDay) + SecondsPerDay
  }

  /** The range holds exactly the timestamps whose calendar day lies between the two dates, both included. */
  lemma InDateRangeByDay(t: int, startDay: int, endDay: int)
    ensures InDateRange(t, startDay, endDay) <==> startDay <= DayNumber(t) <= endDay
  {
    DayNumberBounds(t);
    if startDay <= DayNumber(t) {
      assert MidnightOf(startDay) <= MidnightOf(DayNumber(t));
    } else {
      assert MidnightOf(startDay) >= MidnightOf(DayNumber(t) + 1);
    }
    if DayNumber(t) <= endDay {
      assert MidnightOf(DayNumber(t)) <= MidnightOf(endDay);
    } else {
      assert MidnightOf(DayNumber(t)) >= MidnightOf(endDay + 1);
    }
  }

  /** A video at 23:59:59 of the end day is kept; one at the following midnight is not. */
  lemma EndDayBoundary(startDay: int, endDay: int)
    requires startDay <= endDay
    ensures InDateRange(MidnightOf(endDay) + SecondsPerDay - 1, startDay, endDay)
    ensures !InDateRange(MidnightOf(endDay + 1), startDay, endDay)
  {
  }

  /** The videos published within the range, in table order. */
  function InRange(videos: seq<VideoRecord>, startDay: int, endDay: int): (r: seq<VideoRecord>)
    ensures forall v :: v in r <==> v in videos && startDay <= DayNumber(v.publishDate) <= endDay
  {
    forall v | v in videos ensures InDateRange(v.publishDate, startDay, endDay) <==> startDay <= DayNumber(v.publishDate) <= endDay {
      InDateRangeByDay(v.publishDate, startDay, endDay);
    }
    Where(videos, (v: VideoRecord) => InDateRange(v.publishDate, startDay, endDay))
  }

  /** The message the dashboard shows about the date filter. */
  datatype Notice =
    | NoDateRange      // "Showing data for all available videos (no date range selected)."
    | NoVideosInRange  // "No videos found in the selected date range."
    | Filtered

  // ----- month cohorts -----

  /** A row of the table once the `YearMonth` column is attached. */
  datatype Row = Row(video: VideoRecord, yearMonth: string)

  predicate AllRepresentable(videos: seq<VideoRecord>)
  {
    forall v :: v in videos ==> Representable(v.publishDate)
  }

  /** `videos_df["YearMonth"] = videos_df["Publish Date"].dt.strftime("%Y-%m")`. */
  function WithYearMonth(videos: seq<VideoRecord>): (rows: seq<Row>)
    requires AllRepresentable(videos)
    ensures |rows| == |videos|
    ensures forall i :: 0 <= i < |rows| ==> rows[i].video == videos[i] && rows[i].yearMonth == KeyOf(videos[i].publishDate)
  {
    seq(|videos|, i requires 0 <= i < |videos| => Row(videos[i], KeyOf(videos[i].publishDate)))
  }

  function YearMonths(rows: seq<Row>): (keys: seq<string>)
    ensures |keys| == |rows|
    ensures forall i :: 0 <= i < |rows| ==> keys[i] == rows[i].yearMonth
  {
    seq(|rows|, i requires 0 <= i < |rows| => rows[i].yearMonth)
  }

  /** `sorted(videos_df["YearMonth"].unique())`. */
  function MonthOptions(rows: seq<Row>): (options: seq<string>)
    ensures Ascending(options)
    ensures forall k :: k in options <==> exists r :: r in rows && r.yearMonth == k
  {
    var keys := YearMonths(rows);
    var options := SortedUnique(keys);
    assert forall k :: k in keys <==> exists r :: r in rows && r.yearMonth == k by {
      forall k ensures k in keys <==> exists r :: r in rows && r.yearMonth == k {
        if k in keys {
          var i :| 0 <= i < |keys| && keys[i] == k;
          assert rows[i] in rows && rows[i].yearMonth == k;
        }
        if exists r :: r in rows && r.yearMonth == k {
          var r :| r in rows && r.yearMonth == k;
          var i :| 0 <= i < |rows| && rows[i] == r;
          assert keys[i] == k;
        }
      }
    }
    options
  }

  /** The default of the month selector: the last option, or none when there are no options. */
  function DefaultMonth(options: seq<string>): (selected: Option<string>)
    requires Ascending(options)
    ensures selected.None? <==> options == []
    ensures selected.Some? ==> selected.value in options
    ensures selected.Some? ==> forall k :: k in options && k != selected.value ==> Less(k, selected.value)
  {
    if options == [] then None
    else
      forall k | k in options ensures k == options[|options| - 1] || Less(k, options[|options| - 1]) {
        LastIsGreatest(options, k);
      }
      Some(options[|options| - 1])
  }

  /**
   * The default month is the month of the most recently published video in
   * the table, whichever row that is.
   */
  lemma DefaultIsLatestVideoMonth(rows: seq<Row>, latest: int)
    requires forall r :: r in rows ==> Representable(r.video.publishDate) && r.yearMonth == KeyOf(r.video.publishDate)
    requires 0 <= latest < |rows|
    requires forall r :: r in rows ==> r.video.publishDate <= rows[latest].video.publishDate
    ensures DefaultMonth(MonthOptions(rows)) == Some(rows[latest].yearMonth)
  {
    var options := MonthOptions(rows);
    var k := rows[latest].yearMonth;
    assert rows[latest] in rows;
    assert k in options;
    var selected := DefaultMonth(options).value;
    assert exists r :: r in rows && r.yearMonth == selected;
    var r :| r in rows && r.yearMonth == selected;
    KeyOfMonotone(r.video.publishDate, rows[latest].video.publishDate);
    if selected != k {
      LessTransitive(k, selected, k);
      LessIrreflexive(k);
    }
  }

  /** `videos_df[videos_df["YearMonth"] == selected_month]`. */
  function MonthView(rows: seq<Row>, month: string): (view: seq<Row>)
    ensures forall r :: r in view <==> r in rows && r.yearMonth == month
  {
    Where(rows, (r: Row) => r.yearMonth == month)
  }

  // ----- totals and engagement -----

  datatype Totals = Totals(views: int, likes: int, comments: int)

  /** Column sums of Views, Likes and Comments; all 0 for an empty table. */
  function ColumnTotals(videos: seq<VideoRecord>): (t: Totals)
    ensures videos == [] ==> t == Totals(0, 0, 0)
    ensures (forall v :: v in videos ==> NonNegativeRecord(v)) ==> t.views >= 0 && t.likes >= 0 && t.comments >= 0
  {
    if videos == [] then Totals(0, 0, 0)
    else
      var rest := ColumnTotals(videos[1..]);
      assert videos[0] in videos;
      assert forall v :: v in videos[1..] ==> v in videos;
      Totals(videos[0].views + rest.views, videos[0].likes + rest.likes, videos[0].comments + rest.comments)
  }

  /** Totals add up over any split of the table. */
  lemma {:induction false} TotalsAppend(a: seq<VideoRecord>, b: seq<VideoRecord>)
    ensures var ta, tb, t := ColumnTotals(a), ColumnTotals(b), ColumnTotals(a + b);
      t == Totals(ta.views + tb.views, ta.likes + tb.likes, ta.comments + tb.comments)
  {
    if a != [] {
      assert (a + b)[0] == a[0] && (a + b)[1..] == a[1..] + b;
      TotalsAppend(a[1..], b);
    } else {
      assert a + b == b;
    }
  }

  /** Narrowing a table of non-negative rows never increases its totals. */
  lemma {:induction false} WhereTotalsBounded(videos: seq<VideoRecord>, keep: VideoRecord -> bool)
    requires forall v :: v in videos ==> NonNegativeRecord(v)
    ensures var t, tw := ColumnTotals(videos), ColumnTotals(Where(videos, keep));
      tw.views <= t.views && tw.likes <= t.likes && tw.comments <= t.comments
  {
    if videos != [] {
      assert videos[0] in videos;
      assert forall v :: v in videos[1..] ==> v in videos;
      WhereTotalsBounded(videos[1..], keep);
    }
  }

  /**
   * `100 * (likes + comments) / views` over the table, and 0 when total views
   * are not positive.  An empty table divides by 1 (its likes and comments are
   * 0, so it gives 0 as well).  Exact: the two-decimal rounding is not modelled.
   */
  function Engagement(videos: seq<VideoRecord>): (pct: real)
    ensures var t := ColumnTotals(videos);
      t.views > 0 ==> pct * (t.views as real) == 100.0 * ((t.likes + t.comments) as real)
    ensures ColumnTotals(videos).views <= 0 ==> pct == 0.0
    ensures (forall v :: v in videos ==> NonNegativeRecord(v)) ==> pct >= 0.0
  {
    var t := ColumnTotals(videos);
    var totalViews := if videos == [] then 1 else t.views;
    if totalViews > 0 then ((t.likes + t.comments) as real / totalViews as real) * 100.0 else 0.0
  }

  /** Three videos with views 100, 200, 300, likes 10, 20, 30 and comments 1, 2, 3: totals 600, 60, 6 and 11% engagement. */
  lemma ThreeVideoExample(a: VideoRecord, b: VideoRecord, c: VideoRecord)
    requires a.views == 100 && a.likes == 10 && a.comments == 1
    requires b.views == 200 && b.likes == 20 && b.comments == 2
    requires c.views == 300 && c.likes == 30 && c.comments == 3
    ensures ColumnTotals([a, b, c]) == Totals(600, 60, 6)
    ensures Engagement([a, b, c]) == 11.0
  {
    assert [a, b, c][1..] == [b, c] && [b, c][1..] == [c] && [c][1..] == [];
    assert ColumnTotals([c]) == Totals(300, 30, 3);
    assert ColumnTotals([b, c]) == Totals(500, 50, 5);
  }

  // ----- the analytics block -----

  datatype Report = Report(
    notice: Notice,
    table: seq<Row>,
    monthOptions: seq<string>,
    selectedMonth: Option<string>,
    monthView: seq<Row>,
    totals: Totals,
    engagement: real)

  function VideosOf(rows: seq<Row>): (videos: seq<VideoRecord>)
    ensures |videos| == |rows|
    ensures forall i :: 0 <= i < |rows| ==> videos[i] == rows[i].video
  {
    seq(|rows|, i requires 0 <= i < |rows| => rows[i].video)
  }

  /**
   * The date filter with its fallback: a two-date range keeps the videos
   * published on those days, unless it keeps none, in which case the script
   * warns and keeps every video.
   */
  method FilterByDate(batch: seq<VideoRecord>, dateRange: seq<int>) returns (notice: Notice, videos: seq<VideoRecord>)
    ensures |dateRange| != 2 ==> notice == NoDateRange && videos == batch
    ensures |dateRange| == 2 && InRange(batch, dateRange[0], dateRange[1]) == [] ==>
      notice == NoVideosInRange && videos == batch
    ensures |dateRange| == 2 && InRange(batch, dateRange[0], dateRange[1]) != [] ==>
      notice == Filtered && videos == InRange(batch, dateRange[0], dateRange[1])
    ensures forall v :: v in videos ==> v in batch
  {
    videos := batch;
    if |dateRange| == 2 {
      var filtered := InRange(videos, dateRange[0], dateRange[1]);
      if filtered == [] {
        notice := NoVideosInRange;
      } else {
        videos := filtered;
        notice := Filtered;
      }
    } else {
      notice := NoDateRange;
    }
  }

  /**
   * The analytics block, step by step as the script runs it.  `dateRange` is
   * what the date picker returns (zero, one or two day numbers); the month
   * selector is left at its default, the latest month.
   */
  method Analyze(batch: seq<VideoRecord>, dateRange: seq<int>) returns (report: Report)
    requires AllRepresentable(batch)
    ensures |dateRange| != 2 ==> report.notice == NoDateRange && VideosOf(report.table) == batch
    ensures |dateRange| == 2 && InRange(batch, dateRange[0], dateRange[1]) == [] ==>
      report.notice == NoVideosInRange && VideosOf(report.table) == batch
    ensures |dateRange| == 2 && InRange(batch, dateRange[0], dateRange[1]) != [] ==>
      report.notice == Filtered && VideosOf(report.table) == InRange(batch, dateRange[0], dateRange[1])
    ensures forall i :: 0 <= i < |report.table| ==> report.table[i].yearMonth == KeyOf(report.table[i].video.publishDate)
    ensures report.monthOptions == MonthOptions(report.table)
    ensures report.selectedMonth == DefaultMonth(report.monthOptions)
    ensures report.selectedMonth.None? <==> report.table == []
    ensures report.selectedMonth.None? ==> report.monthView == []
    ensures report.selectedMonth.Some? ==> report.monthView == MonthView(report.table, report.selectedMonth.value)
    ensures report.totals == ColumnTotals(VideosOf(report.table))
    ensures report.engagement == Engagement(VideosOf(report.table))
  {
    var notice, videos := FilterByDate(batch, dateRange);
    assert AllRepresentable(videos);
    var table := WithYearMonth(videos);
    assert VideosOf(table) == videos;
    var options, selected, monthView := SelectMonth(table);
    report := Report(notice, table, options, selected, monthView, ColumnTotals(videos), Engagement(videos));
  }

  /**
   * The month selector left at its default: the sorted distinct keys, the
   * latest of them, and the rows of that month (an empty view when the table
   * is empty).
   */
  method SelectMonth(table: seq<Row>) returns (options: seq<string>, selected: Option<string>, monthView: seq<Row>)
    ensures options == MonthOptions(table)
    ensures selected == DefaultMonth(options)
    ensures selected.None? <==> table == []
    ensures selected.None? ==> monthView == []
    ensures selected.Some? ==> monthView == MonthView(table, selected.value)
  {
    options := MonthOptions(table);
    if table != [] {
      assert table[0] in table;
      assert table[0].yearMonth in options;
    }
    selected := DefaultMonth(options);
    monthView := if selected.Some? then MonthView(table, selected.value) else [];
  }
}
