/**
 * The grouping step of the '기록' (report) command: the time-sorted records
 * are scanned once, each lands in the dictionary entry of its local day
 * (created on first sight, with an empty check-in and check-out slot), and a
 * record overwrites the slot of its kind. The entries are then read back in
 * insertion order, one row per day, with a work duration only when both
 * slots are filled.
 *
 * The dictionary key in the source is the formatted date string; it is
 * modelled by the day number, which that string determines and is
 * determined by.
 */
module Report {
  import opened Options
  import opened Calendar
  import opened Events
  import opened WorkTime
  import opened Sequences

  /** One dictionary entry: `{ 출근: record | null, 퇴근: record | null }`. */
  datatype DaySlots = DaySlots(checkIn: Option<Event>, checkOut: Option<Event>)

  /** The dictionary being built: its keys in insertion order, and the entry of each key. */
  datatype Grouping = Grouping(order: seq<int>, slots: map<int, DaySlots>)

  /** One row of the report: day, check-in time, check-out time, work duration. */
  datatype DaySummary = DaySummary(day: int, checkInAt: Option<int>, checkOutAt: Option<int>,
                                   work: Option<WorkTime>)

  /** `recordsByDate[date][record.type] = record` */
  function Place(s: DaySlots, e: Event): DaySlots
  {
    match e.kind
    case CheckIn => s.(checkIn := Some(e))
    case CheckOut => s.(checkOut := Some(e))
  }

  /** One step of the scan. */
  function AddRecord(g: Grouping, e: Event): Grouping
  {
    var d := DayOf(e.timestamp);
    if d in g.slots then Grouping(g.order, g.slots[d := Place(g.slots[d], e)])
    else Grouping(g.order + [d], g.slots[d := Place(DaySlots(None, None), e)])
  }

  /** The dictionary after scanning all records, left to right. */
  function GroupOf(records: seq<Event>): Grouping
  {
    if |records| == 0 then Grouping([], map[])
    else AddRecord(GroupOf(records[..|records| - 1]), records[|records| - 1])
  }

  function DaysOf(records: seq<Event>): set<int>
  {
    set e | e in records :: DayOf(e.timestamp)
  }

  /** Index of the first record of day d: independent of the grouping. */
  function FirstSeen(records: seq<Event>, d: int): (r: nat)
    requires d in DaysOf(records)
    ensures r < |records| && DayOf(records[r].timestamp) == d
    ensures forall j :: 0 <= j < r ==> DayOf(records[j].timestamp) != d
  {
    var init := records[..|records| - 1];
    assert records == init + [records[|records| - 1]];
    if d in DaysOf(init) then
      var r := FirstSeen(init, d);
      assert records[r] == init[r];
      assert forall j :: 0 <= j < r ==> records[j] == init[j];
      r
    else
      assert forall j :: 0 <= j < |init| ==> init[j] in init;
      |records| - 1
  }

  predicate OfDayAndKind(e: Event, d: int, kind: Kind)
  {
    DayOf(e.timestamp) == d && e.kind == kind
  }

  /** The last record of day d and this kind, if any: independent of the grouping. */
  function LastOfKind(records: seq<Event>, d: int, kind: Kind): (r: Option<Event>)
    ensures r.None? <==> forall e :: e in records ==> !OfDayAndKind(e, d, kind)
    ensures r.Some? ==> exists i :: 0 <= i < |records| && records[i] == r.value
                                 && OfDayAndKind(r.value, d, kind)
                                 && forall j :: i < j < |records| ==> !OfDayAndKind(records[j], d, kind)
  {
    if |records| == 0 then None
    else
      var init := records[..|records| - 1];
      var last := records[|records| - 1];
      assert records == init + [last];
      if OfDayAndKind(last, d, kind) then Some(last)
      else
        var r := LastOfKind(init, d, kind);
        if r.Some? then
          var i :| 0 <= i < |init| && init[i] == r.value && OfDayAndKind(r.value, d, kind)
                   && forall j :: i < j < |init| ==> !OfDayAndKind(init[j], d, kind);
          assert records[i] == r.value;
          r
        else r
  }

  /** The dictionary has one key per day present, each once, and an entry for each key. */
  lemma {:induction false} GroupKeys(records: seq<Event>)
    ensures var g := GroupOf(records);
      && Distinct(g.order)
      && (forall d :: d in g.order <==> d in g.slots)
      && g.slots.Keys == DaysOf(records)
  {
    if |records| > 0 {
      var init := records[..|records| - 1];
      var last := records[|records| - 1];
      assert records == init + [last];
      GroupKeys(init);
      assert DaysOf(records) == DaysOf(init) + {DayOf(last.timestamp)};
    }
  }

  /** Each entry holds the last record of each kind seen for its day, or nothing if there was none. */
  lemma {:induction false} GroupSlots(records: seq<Event>, d: int)
    requires d in GroupOf(records).slots
    ensures GroupOf(records).slots[d] == DaySlots(LastOfKind(records, d, CheckIn), LastOfKind(records, d, CheckOut))
  {
    var init := records[..|records| - 1];
    var last := records[|records| - 1];
    assert records == init + [last];
    var g := GroupOf(init);
    if d in g.slots {
      GroupSlots(init, d);
    } else {
      GroupKeys(init);
      assert forall e :: e in init ==> DayOf(e.timestamp) != d;
      var _ := LastOfKind(init, d, CheckIn);
      var _ := LastOfKind(init, d, CheckOut);
    }
  }

  /** Every key of the dictionary's order is a day of the records, ordered by first sight. */
  predicate OrderedByFirstSeen(records: seq<Event>, o: seq<int>)
  {
    && (forall d :: d in o ==> d in DaysOf(records))
    && (forall i, j :: 0 <= i < j < |o| ==> FirstSeen(records, o[i]) < FirstSeen(records, o[j]))
  }

  /** Keys appear in the order in which their days were first seen. */
  lemma {:induction false} GroupFirstSeenOrder(records: seq<Event>)
    ensures OrderedByFirstSeen(records, GroupOf(records).order)
  {
    if |records| > 0 {
      var init := records[..|records| - 1];
      var last := records[|records| - 1];
      assert records == init + [last];
      GroupFirstSeenOrder(init);
      GroupKeys(init);
      FirstSeenOrderStep(init, last);
    }
  }

  lemma FirstSeenOrderStep(init: seq<Event>, last: Event)
    requires OrderedByFirstSeen(init, GroupOf(init).order)
    requires forall d :: d in GroupOf(init).order <==> d in GroupOf(init).slots
    requires GroupOf(init).slots.Keys == DaysOf(init)
    ensures OrderedByFirstSeen(init + [last], GroupOf(init + [last]).order)
  {
    var records := init + [last];
    assert records[..|records| - 1] == init;
    var o0 := GroupOf(init).order;
    var o := GroupOf(records).order;
    var d := DayOf(last.timestamp);
    assert DaysOf(records) == DaysOf(init) + {d};
    if d !in GroupOf(init).slots {
      assert o == o0 + [d];
      assert d !in DaysOf(init);
      assert FirstSeen(records, d) == |init|;
      forall i, j | 0 <= i < j < |o| ensures FirstSeen(records, o[i]) < FirstSeen(records, o[j]) {
        assert o[i] == o0[i];
        FirstSeenPrefix(init, last, o0[i]);
        if j < |o0| {
          assert o[j] == o0[j];
          FirstSeenPrefix(init, last, o0[j]);
        }
      }
    } else {
      assert o == o0;
      forall i, j | 0 <= i < j < |o| ensures FirstSeen(records, o[i]) < FirstSeen(records, o[j]) {
        FirstSeenPrefix(init, last, o0[i]);
        FirstSeenPrefix(init, last, o0[j]);
      }
    }
  }

  lemma FirstSeenPrefix(init: seq<Event>, last: Event, d: int)
    requires d in DaysOf(init)
    ensures d in DaysOf(init + [last]) && FirstSeen(init + [last], d) == FirstSeen(init, d)
  {
    assert (init + [last])[..|init|] == init;
  }

  /** For time-sorted records, the first-seen order of days is ascending by day. */
  lemma GroupOrderAscending(records: seq<Event>)
    requires SortedByTime(records)
    ensures var o := GroupOf(records).order;
      forall i, j :: 0 <= i < j < |o| ==> o[i] < o[j]
  {
    GroupFirstSeenOrder(records);
    var o := GroupOf(records).order;
    forall i, j | 0 <= i < j < |o| ensures o[i] < o[j] {
      var p, q := FirstSeen(records, o[i]), FirstSeen(records, o[j]);
      DayOfMonotone(records[p].timestamp, records[q].timestamp);
    }
  }

  function TimeOf(e: Option<Event>): Option<int>
  {
    if e.Some? then Some(e.value.timestamp) else None
  }

  /** One report row from one dictionary entry. */
  function Summarize(d: int, s: DaySlots): DaySummary
  {
    DaySummary(d, TimeOf(s.checkIn), TimeOf(s.checkOut),
               if s.checkIn.Some? && s.checkOut.Some?
               then Some(CalculateWorkHours(s.checkIn.value.timestamp, s.checkOut.value.timestamp))
               else None)
  }

  /** The rows `Object.entries(recordsByDate)` yields, in key insertion order. */
  function Rows(records: seq<Event>): seq<DaySummary>
  {
    var g := GroupOf(records);
    GroupKeys(records);
    seq(|g.order|, k requires 0 <= k < |g.order| => Summarize(g.order[k], g.slots[g.order[k]]))
  }

  /**
   * The rows cover each day present in the records exactly once, in the order
   * in which the days were first seen (ascending, for time-sorted records).
   */
  lemma RowsDays(records: seq<Event>)
    ensures var rows := Rows(records);
      && (forall k :: 0 <= k < |rows| ==> rows[k].day in DaysOf(records))
      && (forall d :: d in DaysOf(records) ==> exists k :: 0 <= k < |rows| && rows[k].day == d)
      && (forall i, j :: 0 <= i < j < |rows| ==> FirstSeen(records, rows[i].day) < FirstSeen(records, rows[j].day))
      && (SortedByTime(records) ==> forall i, j :: 0 <= i < j < |rows| ==> rows[i].day < rows[j].day)
  {
    RowsFollowOrder(records);
    RowsCoverDays(records);
    GroupFirstSeenOrder(records);
    if SortedByTime(records) {
      GroupOrderAscending(records);
    }
  }

  /** Row k is about the k-th key of the dictionary. */
  lemma RowsFollowOrder(records: seq<Event>)
    ensures var rows := Rows(records);
      && |rows| == |GroupOf(records).order|
      && forall k :: 0 <= k < |rows| ==> rows[k].day == GroupOf(records).order[k]
  {
  }

  /** Every day present in the records has a row, and every row is about such a day. */
  lemma RowsCoverDays(records: seq<Event>)
    ensures var rows := Rows(records);
      && (forall k :: 0 <= k < |rows| ==> rows[k].day in DaysOf(records))
      && (forall d :: d in DaysOf(records) ==> exists k :: 0 <= k < |rows| && rows[k].day == d)
  {
    GroupKeys(records);
    RowsFollowOrder(records);
    var o := GroupOf(records).order;
    var rows := Rows(records);
    forall d | d in DaysOf(records) ensures exists k :: 0 <= k < |rows| && rows[k].day == d {
      var k :| 0 <= k < |o| && o[k] == d;
      assert rows[k].day == d;
    }
  }

  /** Records spread over n consecutive days give at most n rows. */
  lemma RowsWithinDays(records: seq<Event>, lo: int, n: nat)
    requires forall e :: e in records ==> lo <= DayOf(e.timestamp) < lo + n
    ensures |Rows(records)| <= n
  {
    GroupKeys(records);
    RowsFollowOrder(records);
    var o := GroupOf(records).order;
    forall i | 0 <= i < |o| ensures lo <= o[i] < lo + n {
      assert o[i] in DaysOf(records);
    }
    DistinctDaysBound(o, lo, n);
  }

  /** A sequence of distinct days drawn from n consecutive days has at most n entries. */
  lemma DistinctDaysBound(s: seq<int>, lo: int, n: nat)
    requires Distinct(s)
    requires forall i :: 0 <= i < |s| ==> lo <= s[i] < lo + n
    ensures |s| <= n
  {
    DistinctCard(s);
    var days := set x | x in s;
    var range := Span(lo, n);
    assert days <= range;
    assert range == days + (range - days);
  }

  /** The n consecutive days from lo. */
  function Span(lo: int, n: nat): (r: set<int>)
    ensures |r| == n
    ensures forall x :: x in r <==> lo <= x < lo + n
  {
    if n == 0 then {} else Span(lo, n - 1) + {lo + n - 1}
  }

  /**
   * Each row shows the last check-in and the last check-out of its day, and a
   * work duration exactly when both are present, computed from those two.
   */
  lemma RowsSlots(records: seq<Event>, k: int)
    requires 0 <= k < |Rows(records)|
    ensures var r := Rows(records)[k];
      && r.checkInAt == TimeOf(LastOfKind(records, r.day, CheckIn))
      && r.checkOutAt == TimeOf(LastOfKind(records, r.day, CheckOut))
      && (r.work.Some? <==> r.checkInAt.Some? && r.checkOutAt.Some?)
      && (r.work.Some? ==> r.work.value == CalculateWorkHours(r.checkInAt.value, r.checkOutAt.value))
  {
    GroupKeys(records);
    var o := GroupOf(records).order;
    GroupSlots(records, o[k]);
  }

  /**
   * The scan and the read-back, as the command does them: a forEach over the
   * records filling the dictionary, then a forEach over its entries.
   */
  method GroupByDay(records: seq<Event>) returns (rows: seq<DaySummary>)
    ensures rows == Rows(records)
  {
    var order: seq<int> := [];
    var slots: map<int, DaySlots> := map[];
    var i := 0;
    while i < |records|
      invariant 0 <= i <= |records|
      invariant Grouping(order, slots) == GroupOf(records[..i])
    {
      var e := records[i];
      var d := DayOf(e.timestamp);
      assert records[..i + 1][..i] == records[..i];
      if d !in slots {
        order := order + [d];
        slots := slots[d := DaySlots(None, None)];
      }
      slots := slots[d := Place(slots[d], e)];
      i := i + 1;
    }
    assert records[..|records|] == records;
    GroupKeys(records);
    rows := [];
    var k := 0;
    while k < |order|
      invariant 0 <= k <= |order|
      invariant |rows| == k
      invariant forall j :: 0 <= j < k ==> rows[j] == Rows(records)[j]
    {
      rows := rows + [Summarize(order[k], slots[order[k]])];
      k := k + 1;
    }
  }
}
