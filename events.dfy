/**
 * Attendance events and the queries the bot runs against its event
 * collection: findOne, find(...).sort({timestamp: 1}) and deleteMany, each
 * with a user and an inclusive [start, end] timestamp window.
 */
module Options {
  datatype Option<T> = None | Some(value: T)
}

module Events {
  import opened Options
  import opened Calendar

  /** The two record types, '출근' (check-in) and '퇴근' (check-out). */
  datatype Kind = CheckIn | CheckOut

  /** One stored attendance record: user id, user name at creation, type, instant. */
  datatype Event = Event(userId: string, username: string, kind: Kind, timestamp: int)

  /** The filter shared by every query: this user, timestamp within [lo, hi]. */
  predicate InWindow(e: Event, user: string, lo: int, hi: int)
  {
    e.userId == user && lo <= e.timestamp <= hi
  }

  predicate IsMatch(e: Event, user: string, kind: Kind, lo: int, hi: int)
  {
    InWindow(e, user, lo, hi) && e.kind == kind
  }

  /** findOne({userId, type, timestamp: {$gte: lo, $lte: hi}}): the first match in store order. */
  function FirstMatch(events: seq<Event>, user: string, kind: Kind, lo: int, hi: int): (r: Option<Event>)
    ensures r.None? <==> forall e :: e in events ==> !IsMatch(e, user, kind, lo, hi)
    ensures r.Some? ==> exists i :: 0 <= i < |events| && events[i] == r.value
                                 && IsMatch(r.value, user, kind, lo, hi)
                                 && forall j :: 0 <= j < i ==> !IsMatch(events[j], user, kind, lo, hi)
  {
    if |events| == 0 then None
    else if IsMatch(events[0], user, kind, lo, hi) then Some(events[0])
    else
      var r := FirstMatch(events[1..], user, kind, lo, hi);
      assert forall e :: e in events[1..] ==> e in events;
      assert forall e :: e in events ==> e == events[0] || e in events[1..];
      if r.Some? then
        var i :| 0 <= i < |events[1..]| && events[1..][i] == r.value
                 && IsMatch(r.value, user, kind, lo, hi)
                 && forall j :: 0 <= j < i ==> !IsMatch(events[1..][j], user, kind, lo, hi);
        assert events[i + 1] == r.value;
        assert forall j :: 0 <= j < i + 1 ==> !IsMatch(events[j], user, kind, lo, hi) by {
          forall j | 0 <= j < i + 1 ensures !IsMatch(events[j], user, kind, lo, hi) {
            if j > 0 { assert events[j] == events[1..][j - 1]; }
          }
        }
        r
      else r
  }

  /** find({userId, timestamp: {$gte: lo, $lte: hi}}) before sorting: the matches in store order. */
  function Filter(events: seq<Event>, user: string, lo: int, hi: int): (r: seq<Event>)
    ensures forall e :: e in r <==> e in events && InWindow(e, user, lo, hi)
  {
    if |events| == 0 then []
    else
      var init := events[..|events| - 1];
      var last := events[|events| - 1];
      assert events == init + [last];
      Filter(init, user, lo, hi) + (if InWindow(last, user, lo, hi) then [last] else [])
  }

  /** deleteMany with the same filter: what stays behind, in store order. */
  function Remove(events: seq<Event>, user: string, lo: int, hi: int): (r: seq<Event>)
    ensures forall e :: e in r <==> e in events && !InWindow(e, user, lo, hi)
  {
    if |events| == 0 then []
    else
      var init := events[..|events| - 1];
      var last := events[|events| - 1];
      assert events == init + [last];
      Remove(init, user, lo, hi) + (if InWindow(last, user, lo, hi) then [] else [last])
  }

  /** deleteMany splits the store: what is removed is exactly what find returns, and the rest stays. */
  lemma RemoveSplits(events: seq<Event>, user: string, lo: int, hi: int)
    ensures multiset(Remove(events, user, lo, hi)) + multiset(Filter(events, user, lo, hi)) == multiset(events)
    ensures |Remove(events, user, lo, hi)| + |Filter(events, user, lo, hi)| == |events|
  {
    RemoveSplitsMultiset(events, user, lo, hi);
    assert |multiset(Remove(events, user, lo, hi))| == |Remove(events, user, lo, hi)|;
    assert |multiset(Filter(events, user, lo, hi))| == |Filter(events, user, lo, hi)|;
  }

  lemma {:induction false} RemoveSplitsMultiset(events: seq<Event>, user: string, lo: int, hi: int)
    ensures multiset(Remove(events, user, lo, hi)) + multiset(Filter(events, user, lo, hi)) == multiset(events)
  {
    if |events| > 0 {
      var init, last := events[..|events| - 1], events[|events| - 1];
      assert events == init + [last];
      RemoveSplitsMultiset(init, user, lo, hi);
      FilterRemoveAppend(init, last, user, lo, hi);
      var kept, found := Remove(init, user, lo, hi), Filter(init, user, lo, hi);
      SplitStep(kept, found, init, last);
      if InWindow(last, user, lo, hi) {
        assert Remove(events, user, lo, hi) == kept;
        assert Filter(events, user, lo, hi) == found + [last];
      } else {
        assert Remove(events, user, lo, hi) == kept + [last];
        assert Filter(events, user, lo, hi) == found;
      }
    }
  }

  /** A split of init into two parts extends to init + [x] by adding x to either part. */
  lemma SplitStep<T>(kept: seq<T>, found: seq<T>, init: seq<T>, x: T)
    requires multiset(kept) + multiset(found) == multiset(init)
    ensures multiset(kept) + multiset(found + [x]) == multiset(init + [x])
    ensures multiset(kept + [x]) + multiset(found) == multiset(init + [x])
  {
    assert multiset(init + [x]) == multiset(init) + multiset{x};
    assert multiset(found + [x]) == multiset(found) + multiset{x};
    assert multiset(kept + [x]) == multiset(kept) + multiset{x};
  }

  /** One more event goes to exactly one side of the split. */
  lemma FilterRemoveAppend(init: seq<Event>, last: Event, user: string, lo: int, hi: int)
    ensures InWindow(last, user, lo, hi) ==>
      && Filter(init + [last], user, lo, hi) == Filter(init, user, lo, hi) + [last]
      && Remove(init + [last], user, lo, hi) == Remove(init, user, lo, hi)
    ensures !InWindow(last, user, lo, hi) ==>
      && Filter(init + [last], user, lo, hi) == Filter(init, user, lo, hi)
      && Remove(init + [last], user, lo, hi) == Remove(init, user, lo, hi) + [last]
  {
    assert (init + [last])[..|init|] == init;
  }

  /** Nothing is removed exactly when nothing matches the filter. */
  lemma RemoveNothingIff(events: seq<Event>, user: string, lo: int, hi: int)
    ensures |events| - |Remove(events, user, lo, hi)| == 0
        <==> forall e :: e in events ==> !InWindow(e, user, lo, hi)
  {
    RemoveSplits(events, user, lo, hi);
    var f := Filter(events, user, lo, hi);
    if |f| > 0 {
      assert f[0] in f;
    }
  }

  predicate SortedByTime(s: seq<Event>)
  {
    forall i, j :: 0 <= i < j < |s| ==> s[i].timestamp <= s[j].timestamp
  }

  /** No element of s is later than t. */
  predicate NotAfter(s: seq<Event>, t: int)
  {
    forall i :: 0 <= i < |s| ==> s[i].timestamp <= t
  }

  lemma NotAfterPermutation(a: seq<Event>, b: seq<Event>, t: int)
    requires multiset(a) == multiset(b) && NotAfter(b, t)
    ensures NotAfter(a, t)
  {
    forall i | 0 <= i < |a| ensures a[i].timestamp <= t {
      assert a[i] in multiset(b);
      var k :| 0 <= k < |b| && b[k] == a[i];
    }
  }

  lemma SortedAppend(s: seq<Event>, x: Event)
    requires SortedByTime(s) && NotAfter(s, x.timestamp)
    ensures SortedByTime(s + [x])
  {
  }

  /** Insert e into a time-sorted sequence after every element not later than it. */
  function InsertByTime(s: seq<Event>, e: Event): (r: seq<Event>)
    requires SortedByTime(s)
    ensures SortedByTime(r)
    ensures multiset(r) == multiset(s) + multiset{e}
  {
    if |s| == 0 then [e]
    else if s[|s| - 1].timestamp <= e.timestamp then
      SortedAppend(s, e);
      s + [e]
    else
      var init, last := s[..|s| - 1], s[|s| - 1];
      assert s == init + [last];
      var r0 := InsertByTime(init, e);
      assert NotAfter(init + [e], last.timestamp);
      NotAfterPermutation(r0, init + [e], last.timestamp);
      SortedAppend(r0, last);
      r0 + [last]
  }

  /** .sort({timestamp: 1}): ascending by time, a permutation of its input (stable insertion sort). */
  function SortByTime(s: seq<Event>): (r: seq<Event>)
    ensures SortedByTime(r)
    ensures multiset(r) == multiset(s)
  {
    if |s| == 0 then []
    else
      var init := s[..|s| - 1];
      assert s == init + [s[|s| - 1]];
      InsertByTime(SortByTime(init), s[|s| - 1])
  }

  /** The records a report reads: exactly the user's events in [lo, hi], ascending by time. */
  function Select(events: seq<Event>, user: string, lo: int, hi: int): (r: seq<Event>)
    ensures SortedByTime(r)
    ensures multiset(r) == multiset(Filter(events, user, lo, hi))
    ensures forall e :: e in r <==> e in events && InWindow(e, user, lo, hi)
    ensures |r| == |Filter(events, user, lo, hi)|
  {
    var f := Filter(events, user, lo, hi);
    var r := SortByTime(f);
    assert |r| == |multiset(r)| == |multiset(f)| == |f|;
    assert forall e :: e in r <==> e in multiset(r);
    assert forall e :: e in f <==> e in multiset(f);
    r
  }

  // ---------------------------------------------------------------------
  // Per-user, per-day counting, for the store invariant

  predicate OnDay(e: Event, user: string, kind: Kind, day: int)
  {
    e.userId == user && e.kind == kind && DayOf(e.timestamp) == day
  }

  /** How many events of this user and kind the store holds for this local day. */
  function CountOnDay(events: seq<Event>, user: string, kind: Kind, day: int): (n: nat)
    ensures n == 0 <==> forall e :: e in events ==> !OnDay(e, user, kind, day)
  {
    if |events| == 0 then 0
    else
      var init := events[..|events| - 1];
      var last := events[|events| - 1];
      assert events == init + [last];
      CountOnDay(init, user, kind, day) + (if OnDay(last, user, kind, day) then 1 else 0)
  }

  lemma {:induction false} CountOnDayAppend(events: seq<Event>, e: Event, user: string, kind: Kind, day: int)
    ensures CountOnDay(events + [e], user, kind, day)
         == CountOnDay(events, user, kind, day) + (if OnDay(e, user, kind, day) then 1 else 0)
  {
    assert (events + [e])[..|events|] == events;
  }

  /** Removing events never adds to any per-day count. */
  lemma {:induction false} CountOnDayRemove(events: seq<Event>, user: string, lo: int, hi: int,
                                            u: string, kind: Kind, day: int)
    ensures CountOnDay(Remove(events, user, lo, hi), u, kind, day) <= CountOnDay(events, u, kind, day)
  {
    if |events| > 0 {
      var init := events[..|events| - 1];
      var last := events[|events| - 1];
      var kept := Remove(init, user, lo, hi);
      assert events == init + [last];
      CountOnDayRemove(init, user, lo, hi, u, kind, day);
      CountOnDayAppend(init, last, u, kind, day);
      if InWindow(last, user, lo, hi) {
        assert Remove(events, user, lo, hi) == kept;
      } else {
        assert Remove(events, user, lo, hi) == kept + [last];
        CountOnDayAppend(kept, last, u, kind, day);
      }
    }
  }

  /** A count of at most one means any two such events are the same event. */
  lemma {:induction false} AtMostOneOnDay(events: seq<Event>, a: Event, b: Event, user: string, kind: Kind, day: int)
    requires CountOnDay(events, user, kind, day) <= 1
    requires a in events && OnDay(a, user, kind, day)
    requires b in events && OnDay(b, user, kind, day)
    ensures a == b
  {
    var init := events[..|events| - 1];
    var last := events[|events| - 1];
    assert events == init + [last];
    if a != last {
      assert a in init;
    }
    if b != last {
      assert b in init;
    }
    if a != last && b != last {
      AtMostOneOnDay(init, a, b, user, kind, day);
    }
  }

  /** The store holds an event of this user and kind on this local day. */
  predicate HasOnDay(events: seq<Event>, user: string, kind: Kind, day: int)
  {
    exists e :: e in events && OnDay(e, user, kind, day)
  }

  /** The day window of a findOne over [startOfDay, endOfDay] is the same as matching the day. */
  lemma DayMatch(e: Event, user: string, kind: Kind, now: int)
    ensures IsMatch(e, user, kind, StartOfDay(now), EndOfDay(now)) <==> OnDay(e, user, kind, DayOf(now))
  {
    DayWindow(now, e.timestamp);
  }
}
