/**
 * The four attendance commands of the bot: '출근' (check in), '퇴근' (check
 * out), '기록' (report) and '삭제' (delete), over the attendance collection.
 *
 * Each command is given twice: as a step function on the sequence of stored
 * events (what the command replies and what the collection holds afterwards),
 * and as a method of AttendanceStore that runs the same handler against the
 * collection with findOne / find / save / deleteMany, proved equal to the step
 * function. The lemmas state what the handlers promise, and that the store
 * invariant (one check-in and one check-out per user and local day, every
 * check-out after a same-day check-in) survives any sequence of commands.
 *
 * `now` is the instant the interaction arrives; the handler's local day is
 * the day of `now`.
 */
module Attendance {
  import opened Options
  import opened Calendar
  import opened Events
  import opened WorkTime
  import opened Ranges
  import opened Report

  /** The replies of '출근'. */
  datatype CheckInOutcome =
    | CheckedIn(at: int)                    // '출근 완료'
    | AlreadyCheckedIn(existingAt: int)     // '출근 실패', showing the earlier check-in

  /** The replies of '퇴근'. */
  datatype CheckOutOutcome =
    | NoCheckInRecord                       // '퇴근 실패': no check-in today
    | AlreadyCheckedOut(existingAt: int)    // '퇴근 실패', showing the earlier check-out
    | CheckedOut(checkInAt: int, checkOutAt: int, work: WorkTime)

  /** The replies of '기록'. */
  datatype ReportOutcome =
    | ReportInvalidDate                     // '조회 실패': not a keyword and not a date
    | NoRecords(period: Period)
    | Records(period: Period, rows: seq<DaySummary>)
    | ReportFailed                          // '조회 실패' from the catch: too many days for one embed

  /**
   * The most fields one Discord embed accepts. The report adds one field per
   * day; adding a field beyond this limit throws, and the report's catch
   * replies with the failure embed instead.
   */
  const MaxEmbedFields: nat := 25

  /** The replies of '삭제'; the day is the local day of the parsed date. */
  datatype DeleteOutcome =
    | DeleteInvalidDate
    | NothingToDelete(day: int)
    | Deleted(day: int, count: nat)

  // ---------------------------------------------------------------------
  // The handlers as step functions on the stored events

  /** '출근': refuse if today's check-in exists, otherwise store one at now. */
  function CheckInStep(events: seq<Event>, user: string, name: string, now: int): (CheckInOutcome, seq<Event>)
  {
    match FirstMatch(events, user, CheckIn, StartOfDay(now), EndOfDay(now))
    case Some(existing) => (AlreadyCheckedIn(existing.timestamp), events)
    case None => (CheckedIn(now), events + [Event(user, name, CheckIn, now)])
  }

  /** '퇴근': today's check-in is looked up first, then today's check-out. */
  function CheckOutStep(events: seq<Event>, user: string, name: string, now: int): (CheckOutOutcome, seq<Event>)
  {
    var lo, hi := StartOfDay(now), EndOfDay(now);
    match FirstMatch(events, user, CheckIn, lo, hi)
    case None => (NoCheckInRecord, events)
    case Some(checkIn) =>
      match FirstMatch(events, user, CheckOut, lo, hi)
      case Some(existing) => (AlreadyCheckedOut(existing.timestamp), events)
      case None =>
        (CheckedOut(checkIn.timestamp, now, CalculateWorkHours(checkIn.timestamp, now)),
         events + [Event(user, name, CheckOut, now)])
  }

  /**
   * '기록': resolve the window, read the user's records in it ascending, group
   * them by day; more days than one embed holds end in the failure reply.
   */
  function ReportOf(events: seq<Event>, user: string, option: Option<string>, now: int,
                    parse: string -> Option<int>): ReportOutcome
  {
    match ResolveReportRange(option, now, parse)
    case InvalidDate => ReportInvalidDate
    case Resolved(period, lo, hi) =>
      var records := Select(events, user, lo, hi);
      if |records| == 0 then NoRecords(period)
      else if |Rows(records)| > MaxEmbedFields then ReportFailed
      else Records(period, Rows(records))
  }

  /** '삭제': delete the user's records of the parsed day; zero deleted is a failure reply. */
  function DeleteStep(events: seq<Event>, user: string, option: string,
                      parse: string -> Option<int>): (DeleteOutcome, seq<Event>)
  {
    match ResolveDeleteRange(option, parse)
    case InvalidDate => (DeleteInvalidDate, events)
    case Resolved(period, lo, hi) =>
      var kept := Remove(events, user, lo, hi);
      RemoveSplits(events, user, lo, hi);
      var count := |events| - |kept|;
      if count == 0 then (NothingToDelete(period.day), kept) else (Deleted(period.day, count), kept)
  }

  // ---------------------------------------------------------------------
  // The collection and the handlers as they run against it

  /** The attendance collection: its documents in insertion order. */
  class AttendanceStore {
    var events: seq<Event>

    constructor (initial: seq<Event>)
      ensures events == initial
    {
      events := initial;
    }

    /** findOne: the first document in store order matching user, type and window. */
    method FindOne(user: string, kind: Kind, lo: int, hi: int) returns (r: Option<Event>)
      ensures r == FirstMatch(events, user, kind, lo, hi)
    {
      var i := 0;
      while i < |events|
        invariant 0 <= i <= |events|
        invariant FirstMatch(events, user, kind, lo, hi) == FirstMatch(events[i..], user, kind, lo, hi)
      {
        if IsMatch(events[i], user, kind, lo, hi) {
          return Some(events[i]);
        }
        assert events[i..][1..] == events[i + 1..];
        i := i + 1;
      }
      r := None;
    }

    /** find(...).sort({timestamp: 1}): the user's documents in the window, ascending by time. */
    method Find(user: string, lo: int, hi: int) returns (records: seq<Event>)
      ensures records == Select(events, user, lo, hi)
    {
      var matches: seq<Event> := [];
      var i := 0;
      while i < |events|
        invariant 0 <= i <= |events|
        invariant matches == Filter(events[..i], user, lo, hi)
      {
        assert events[..i + 1][..i] == events[..i];
        if InWindow(events[i], user, lo, hi) {
          matches := matches + [events[i]];
        }
        i := i + 1;
      }
      assert events[..i] == events;
      records := SortByTime(matches);
    }

    /** save: the new document goes after every existing one. */
    method Save(e: Event)
      modifies this
      ensures events == old(events) + [e]
    {
      events := events + [e];
    }

    /** deleteMany: drop the user's documents in the window, keeping the rest in order. */
    method DeleteMany(user: string, lo: int, hi: int) returns (deletedCount: nat)
      modifies this
      ensures events == Remove(old(events), user, lo, hi)
      ensures deletedCount == |Filter(old(events), user, lo, hi)|
      ensures deletedCount == |old(events)| - |events|
    {
      var kept: seq<Event> := [];
      var count := 0;
      var i := 0;
      while i < |events|
        invariant 0 <= i <= |events|
        invariant kept == Remove(events[..i], user, lo, hi)
        invariant count == |Filter(events[..i], user, lo, hi)|
      {
        assert events[..i + 1][..i] == events[..i];
        if InWindow(events[i], user, lo, hi) {
          count := count + 1;
        } else {
          kept := kept + [events[i]];
        }
        i := i + 1;
      }
      assert events[..i] == events;
      RemoveSplits(events, user, lo, hi);
      events := kept;
      deletedCount := count;
    }

    /** The '출근' handler. */
    method CheckIn(user: string, name: string, now: int) returns (r: CheckInOutcome)
      modifies this
      ensures (r, events) == CheckInStep(old(events), user, name, now)
    {
      var startOfDay, endOfDay := StartOfDay(now), EndOfDay(now);
      var existing := FindOne(user, Kind.CheckIn, startOfDay, endOfDay);
      if existing.Some? {
        return AlreadyCheckedIn(existing.value.timestamp);
      }
      Save(Event(user, name, Kind.CheckIn, now));
      r := CheckedIn(now);
    }

    /** The '퇴근' handler. */
    method CheckOut(user: string, name: string, now: int) returns (r: CheckOutOutcome)
      modifies this
      ensures (r, events) == CheckOutStep(old(events), user, name, now)
    {
      var startOfDay, endOfDay := StartOfDay(now), EndOfDay(now);
      var todayAttendance := FindOne(user, Kind.CheckIn, startOfDay, endOfDay);
      if todayAttendance.None? {
        return NoCheckInRecord;
      }
      var existingLeave := FindOne(user, Kind.CheckOut, startOfDay, endOfDay);
      if existingLeave.Some? {
        return AlreadyCheckedOut(existingLeave.value.timestamp);
      }
      Save(Event(user, name, Kind.CheckOut, now));
      var checkInAt := todayAttendance.value.timestamp;
      r := CheckedOut(checkInAt, now, CalculateWorkHours(checkInAt, now));
    }

    /** The '기록' handler; it only reads the collection. */
    method Report(user: string, option: Option<string>, now: int, parse: string -> Option<int>)
      returns (r: ReportOutcome)
      ensures r == ReportOf(events, user, option, now, parse)
    {
      var range := ResolveReportRange(option, now, parse);
      if range.InvalidDate? {
        return ReportInvalidDate;
      }
      var records := Find(user, range.start, range.end);
      if |records| == 0 {
        return NoRecords(range.period);
      }
      var rows := GroupByDay(records);
      if |rows| > MaxEmbedFields {
        return ReportFailed;
      }
      r := Records(range.period, rows);
    }

    /** The '삭제' handler. */
    method Delete(user: string, option: string, parse: string -> Option<int>) returns (r: DeleteOutcome)
      modifies this
      ensures (r, events) == DeleteStep(old(events), user, option, parse)
    {
      var range := ResolveDeleteRange(option, parse);
      if range.InvalidDate? {
        return DeleteInvalidDate;
      }
      var deletedCount := DeleteMany(user, range.start, range.end);
      if deletedCount == 0 {
        return NothingToDelete(range.period.day);
      }
      r := Deleted(range.period.day, deletedCount);
    }
  }

  // ---------------------------------------------------------------------
  // What each handler promises

  /** The findOne over today's window finds exactly the events of today. */
  lemma TodayMatches(events: seq<Event>, user: string, kind: Kind, now: int)
    ensures FirstMatch(events, user, kind, StartOfDay(now), EndOfDay(now)).None?
        <==> !HasOnDay(events, user, kind, DayOf(now))
    ensures var m := FirstMatch(events, user, kind, StartOfDay(now), EndOfDay(now));
      m.Some? ==> m.value in events && OnDay(m.value, user, kind, DayOf(now))
  {
    forall e | e in events
      ensures IsMatch(e, user, kind, StartOfDay(now), EndOfDay(now)) <==> OnDay(e, user, kind, DayOf(now))
    {
      DayMatch(e, user, kind, now);
    }
  }

  /**
   * A check-in is refused exactly when the user already has one today; a
   * refusal leaves the store as it was and shows that earlier check-in, and
   * otherwise exactly one check-in at now is appended.
   */
  lemma CheckInOutcomes(events: seq<Event>, user: string, name: string, now: int)
    ensures var (r, after) := CheckInStep(events, user, name, now);
      && (r.AlreadyCheckedIn? <==> HasOnDay(events, user, CheckIn, DayOf(now)))
      && (r.AlreadyCheckedIn? ==>
            after == events
            && exists e :: e in events && OnDay(e, user, CheckIn, DayOf(now)) && e.timestamp == r.existingAt)
      && (r.CheckedIn? ==> r.at == now && after == events + [Event(user, name, CheckIn, now)])
  {
    TodayMatches(events, user, CheckIn, now);
  }

  /** A second check-in on the same local day is refused and shows the first one's time. */
  lemma SecondCheckInRefused(events: seq<Event>, user: string, name: string, now: int,
                             name2: string, later: int)
    requires !HasOnDay(events, user, CheckIn, DayOf(now))
    requires DayOf(later) == DayOf(now)
    ensures var after := CheckInStep(events, user, name, now).1;
      CheckInStep(after, user, name2, later) == (AlreadyCheckedIn(now), after)
  {
    CheckInOutcomes(events, user, name, now);
    var after := CheckInStep(events, user, name, now).1;
    var e := Event(user, name, CheckIn, now);
    assert after == events + [e];
    TodayMatches(after, user, CheckIn, later);
    var m := FirstMatch(after, user, CheckIn, StartOfDay(later), EndOfDay(later));
    assert e in after && OnDay(e, user, CheckIn, DayOf(later));
    assert m.value in events || m.value == e;
  }

  /**
   * Check-out looks for today's check-in first: without one the reply is
   * "no check-in record" even if a check-out exists; with both it is "already
   * checked out". Only a success changes the store, appending one check-out
   * at now, and the work time runs from one of today's check-ins to now.
   */
  lemma CheckOutOutcomes(events: seq<Event>, user: string, name: string, now: int)
    ensures var (r, after) := CheckOutStep(events, user, name, now);
      var day := DayOf(now);
      && (r.NoCheckInRecord? <==> !HasOnDay(events, user, CheckIn, day))
      && (r.AlreadyCheckedOut? <==> HasOnDay(events, user, CheckIn, day) && HasOnDay(events, user, CheckOut, day))
      && (!r.CheckedOut? ==> after == events)
      && (r.AlreadyCheckedOut? ==>
            exists e :: e in events && OnDay(e, user, CheckOut, day) && e.timestamp == r.existingAt)
      && (r.CheckedOut? ==>
            && after == events + [Event(user, name, CheckOut, now)]
            && r.checkOutAt == now
            && r.work == CalculateWorkHours(r.checkInAt, now)
            && exists e :: e in events && OnDay(e, user, CheckIn, day) && e.timestamp == r.checkInAt)
  {
    TodayMatches(events, user, CheckIn, now);
    TodayMatches(events, user, CheckOut, now);
  }

  // ---------------------------------------------------------------------
  // The store invariant

  /** No user has two check-ins, or two check-outs, on one local day. */
  ghost predicate AtMostOnce(events: seq<Event>)
  {
    forall u, k, d :: CountOnDay(events, u, k, d) <= 1
  }

  /** Every check-out has a check-in of the same user on the same local day. */
  ghost predicate CheckOutsBacked(events: seq<Event>)
  {
    forall e :: e in events && e.kind == CheckOut ==> HasOnDay(events, e.userId, CheckIn, DayOf(e.timestamp))
  }

  ghost predicate Consistent(events: seq<Event>)
  {
    AtMostOnce(events) && CheckOutsBacked(events)
  }

  /** Appending an event keeps every check-out backed if the new one is backed. */
  lemma BackedAppend(events: seq<Event>, e: Event)
    requires CheckOutsBacked(events)
    requires e.kind == CheckOut ==> HasOnDay(events, e.userId, CheckIn, DayOf(e.timestamp))
    ensures CheckOutsBacked(events + [e])
  {
    var after := events + [e];
    forall x | x in after && x.kind == CheckOut
      ensures HasOnDay(after, x.userId, CheckIn, DayOf(x.timestamp))
    {
      assert x in events || x == e;
      var c :| c in events && OnDay(c, x.userId, CheckIn, DayOf(x.timestamp));
      assert c in after;
    }
  }

  /** Appending an event of a (user, kind, day) the store has none of keeps every count at most one. */
  lemma OnceAppend(events: seq<Event>, e: Event)
    requires AtMostOnce(events)
    requires !HasOnDay(events, e.userId, e.kind, DayOf(e.timestamp))
    ensures AtMostOnce(events + [e])
  {
    forall u, k, d ensures CountOnDay(events + [e], u, k, d) <= 1 {
      CountOnDayAppend(events, e, u, k, d);
      if OnDay(e, u, k, d) {
        assert CountOnDay(events, u, k, d) == 0;
      }
    }
  }

  lemma CheckInPreserves(events: seq<Event>, user: string, name: string, now: int)
    requires Consistent(events)
    ensures Consistent(CheckInStep(events, user, name, now).1)
  {
    CheckInOutcomes(events, user, name, now);
    var e := Event(user, name, CheckIn, now);
    if CheckInStep(events, user, name, now).0.CheckedIn? {
      OnceAppend(events, e);
      BackedAppend(events, e);
    }
  }

  lemma CheckOutPreserves(events: seq<Event>, user: string, name: string, now: int)
    requires Consistent(events)
    ensures Consistent(CheckOutStep(events, user, name, now).1)
  {
    CheckOutOutcomes(events, user, name, now);
    var e := Event(user, name, CheckOut, now);
    if CheckOutStep(events, user, name, now).0.CheckedOut? {
      OnceAppend(events, e);
      BackedAppend(events, e);
    }
  }

  /**
   * Deleting removes whole local days of one user, so a check-out that stays
   * keeps its check-in: the two share user and day, and the check-in would
   * only be removed together with it.
   */
  lemma DeletePreserves(events: seq<Event>, user: string, option: string, parse: string -> Option<int>)
    requires Consistent(events)
    ensures Consistent(DeleteStep(events, user, option, parse).1)
  {
    var range := ResolveDeleteRange(option, parse);
    if range.Resolved? {
      var t := parse(option).value;
      var (lo, hi) := (range.start, range.end);
      var after := Remove(events, user, lo, hi);
      forall u, k, d ensures CountOnDay(after, u, k, d) <= 1 {
        CountOnDayRemove(events, user, lo, hi, u, k, d);
      }
      forall x | x in after && x.kind == CheckOut
        ensures HasOnDay(after, x.userId, CheckIn, DayOf(x.timestamp))
      {
        var c :| c in events && OnDay(c, x.userId, CheckIn, DayOf(x.timestamp));
        DayRangeExact(t, x.timestamp);
        DayRangeExact(t, c.timestamp);
        assert !InWindow(c, user, lo, hi);
      }
    }
  }

  /** Under the invariant the check-out's work time runs from the day's only check-in. */
  lemma CheckOutUsesTheCheckIn(events: seq<Event>, user: string, name: string, now: int, c: Event)
    requires Consistent(events)
    requires c in events && OnDay(c, user, CheckIn, DayOf(now))
    ensures var r := CheckOutStep(events, user, name, now).0;
      r.CheckedOut? ==> r.checkInAt == c.timestamp && r.work == CalculateWorkHours(c.timestamp, now)
  {
    CheckOutOutcomes(events, user, name, now);
    var r := CheckOutStep(events, user, name, now).0;
    if r.CheckedOut? {
      var e :| e in events && OnDay(e, user, CheckIn, DayOf(now)) && e.timestamp == r.checkInAt;
      AtMostOneOnDay(events, e, c, user, CheckIn, DayOf(now));
    }
  }

  // ---------------------------------------------------------------------
  // Sequences of commands

  /** One interaction, with the arguments the handler reads. */
  datatype Command =
    | CheckInCmd(user: string, name: string, now: int)
    | CheckOutCmd(user: string, name: string, now: int)
    | ReportCmd(user: string, option: Option<string>, now: int)
    | DeleteCmd(user: string, date: string)

  /** The store after one command. */
  function Apply(events: seq<Event>, c: Command, parse: string -> Option<int>): seq<Event>
  {
    match c
    case CheckInCmd(u, n, t) => CheckInStep(events, u, n, t).1
    case CheckOutCmd(u, n, t) => CheckOutStep(events, u, n, t).1
    case ReportCmd(_, _, _) => events
    case DeleteCmd(u, o) => DeleteStep(events, u, o, parse).1
  }

  /** The store after a sequence of commands, handled one after another. */
  function Run(events: seq<Event>, cmds: seq<Command>, parse: string -> Option<int>): seq<Event>
    decreases |cmds|
  {
    if |cmds| == 0 then events else Run(Apply(events, cmds[0], parse), cmds[1..], parse)
  }

  lemma ApplyPreserves(events: seq<Event>, c: Command, parse: string -> Option<int>)
    requires Consistent(events)
    ensures Consistent(Apply(events, c, parse))
  {
    match c
    case CheckInCmd(u, n, t) => CheckInPreserves(events, u, n, t);
    case CheckOutCmd(u, n, t) => CheckOutPreserves(events, u, n, t);
    case ReportCmd(_, _, _) =>
    case DeleteCmd(u, o) => DeletePreserves(events, u, o, parse);
  }

  /** Any sequence of commands keeps the invariant. */
  lemma {:induction false} RunPreservesConsistency(events: seq<Event>, cmds: seq<Command>,
                                                   parse: string -> Option<int>)
    requires Consistent(events)
    ensures Consistent(Run(events, cmds, parse))
    decreases |cmds|
  {
    if |cmds| > 0 {
      ApplyPreserves(events, cmds[0], parse);
      RunPreservesConsistency(Apply(events, cmds[0], parse), cmds[1..], parse);
    }
  }

  /** Starting from an empty collection, every reachable store satisfies the invariant. */
  lemma ReachableConsistent(cmds: seq<Command>, parse: string -> Option<int>)
    ensures Consistent(Run([], cmds, parse))
  {
    assert forall u, k, d :: CountOnDay([], u, k, d) == 0;
    RunPreservesConsistency([], cmds, parse);
  }

  // ---------------------------------------------------------------------
  // Report and delete

  /**
   * A report is refused on an unreadable option; it says "no records" exactly
   * when the user has no event in the window; it fails when the events span
   * more days than one embed holds; and otherwise lists between one and
   * MaxEmbedFields days, built from the user's events in the window in
   * ascending order.
   */
  lemma ReportOutcomes(events: seq<Event>, user: string, option: Option<string>, now: int,
                       parse: string -> Option<int>)
    ensures var r := ReportOf(events, user, option, now, parse);
      var range := ResolveReportRange(option, now, parse);
      && (r.ReportInvalidDate? <==> range.InvalidDate?)
      && (r.NoRecords? <==> range.Resolved? && forall e :: e in events ==> !InWindow(e, user, range.start, range.end))
      && (r.ReportFailed? <==> range.Resolved? && |Rows(Select(events, user, range.start, range.end))| > MaxEmbedFields)
      && (r.NoRecords? || r.Records? ==> r.period == range.period)
      && (r.Records? ==>
            && r.rows == Rows(Select(events, user, range.start, range.end))
            && 0 < |r.rows| <= MaxEmbedFields)
  {
    var range := ResolveReportRange(option, now, parse);
    if range.Resolved? {
      var records := Select(events, user, range.start, range.end);
      if |records| > 0 {
        assert records[0] in records;
        assert DayOf(records[0].timestamp) in DaysOf(records);
        RowsDays(records);
      }
    }
  }

  /**
   * Only a '이번달' report can hit the embed limit: today and a date span one
   * day and this week seven, so they never fail for lack of fields.
   */
  lemma ShortReportsFit(events: seq<Event>, user: string, option: Option<string>, now: int,
                        parse: string -> Option<int>)
    requires ReportOption(option) != ThisMonth
    ensures !ReportOf(events, user, option, now, parse).ReportFailed?
  {
    var opt := ReportOption(option);
    var range := ResolveReportRange(option, now, parse);
    if range.Resolved? {
      var records := Select(events, user, range.start, range.end);
      if opt == ThisWeek {
        var w := DayOf(now) - WeekDay(DayOf(now));
        forall e | e in records ensures w <= DayOf(e.timestamp) < w + 7 {
          WeekRangeSpec(now, e.timestamp);
        }
        RowsWithinDays(records, w, 7);
      } else if opt == Today {
        forall e | e in records ensures DayOf(now) <= DayOf(e.timestamp) < DayOf(now) + 1 {
          DayWindow(now, e.timestamp);
        }
        RowsWithinDays(records, DayOf(now), 1);
      } else {
        var t := parse(opt).value;
        forall e | e in records ensures DayOf(t) <= DayOf(e.timestamp) < DayOf(t) + 1 {
          DayRangeExact(t, e.timestamp);
        }
        RowsWithinDays(records, DayOf(t), 1);
      }
    }
  }

  /** The user's events on one local day. */
  predicate OfUserOnDay(e: Event, user: string, day: int)
  {
    e.userId == user && DayOf(e.timestamp) == day
  }

  /**
   * Delete fails on an unparseable date and changes nothing then. Otherwise
   * it removes exactly the user's events of the date's local day, keeps every
   * other event, reports how many it removed, and replies "nothing to
   * delete" exactly when that count is zero.
   */
  lemma DeleteOutcomes(events: seq<Event>, user: string, option: string, parse: string -> Option<int>)
    ensures var (r, after) := DeleteStep(events, user, option, parse);
      && (r.DeleteInvalidDate? <==> parse(option).None?)
      && (r.DeleteInvalidDate? ==> after == events)
      && (parse(option).Some? ==>
            var day := DayOf(parse(option).value);
            && (forall e :: e in after <==> e in events && !OfUserOnDay(e, user, day))
            && (r.NothingToDelete? <==> forall e :: e in events ==> !OfUserOnDay(e, user, day))
            && (r.NothingToDelete? ==> r.day == day)
            && (r.Deleted? ==> r.day == day && r.count == |events| - |after|))
  {
    if parse(option).Some? {
      var t := parse(option).value;
      var range := DayRange(t);
      var (lo, hi) := (range.start, range.end);
      forall e ensures InWindow(e, user, lo, hi) <==> OfUserOnDay(e, user, DayOf(t)) {
        DayRangeExact(t, e.timestamp);
      }
      RemoveNothingIff(events, user, lo, hi);
    }
  }

  /** The deleted count is the number of the user's events on that day, all of which are gone. */
  lemma DeleteCount(events: seq<Event>, user: string, option: string, parse: string -> Option<int>)
    requires parse(option).Some?
    ensures var (r, after) := DeleteStep(events, user, option, parse);
      var range := DayRange(parse(option).value);
      && multiset(after) + multiset(Filter(events, user, range.start, range.end)) == multiset(events)
      && (r.Deleted? ==> r.count == |Filter(events, user, range.start, range.end)|)
  {
    var range := DayRange(parse(option).value);
    RemoveSplits(events, user, range.start, range.end);
  }

  /** After deleting a date, a report for that same date finds no records. */
  lemma DeleteThenReportEmpty(events: seq<Event>, user: string, date: string, now: int,
                              parse: string -> Option<int>)
    requires date != "" && date != Today && date != ThisWeek && date != ThisMonth
    requires parse(date).Some?
    ensures var after := DeleteStep(events, user, date, parse).1;
      ReportOf(after, user, Some(date), now, parse) == NoRecords(PeriodDay(DayOf(parse(date).value)))
  {
    var after := DeleteStep(events, user, date, parse).1;
    var range := DayRange(parse(date).value);
    ReportOutcomes(after, user, Some(date), now, parse);
    assert forall e :: e in after ==> !InWindow(e, user, range.start, range.end);
  }
}
