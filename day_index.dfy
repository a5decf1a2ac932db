/**
  `build_day_map`: the index from calendar day to the events that touch it.
  Every event is appended to the bucket of each day from its start day to its
  end day inclusive, walking one day at a time, and each bucket is then sorted
  by `(start, end, name)`. Stepping past 9999-12-31 raises `OverflowError` in
  Python; here the build then fails with `DateOverflow`.
 */
module DayIndex {
  import opened Wrappers
  import opened Dates
  import opened Events

  /** `OverflowError: date value out of range` from `cur += timedelta(days=1)`. */
  datatype DayMapError = DateOverflow

  /**
    The events of `es` that touch day `d`, in the order of `es`. What it holds
    is stated by `BucketCount`, `BucketInOrder` and `DayMembership` below.
   */
  function Bucket(es: seq<Event>, d: Date): (r: seq<Event>)
    ensures |r| <= |es|
  {
    if es == [] then []
    else Bucket(es[..|es| - 1], d) + (if OverlapsDay(es[|es| - 1], d) then [es[|es| - 1]] else [])
  }

  /** An event whose day walk reaches 9999-12-31 and so tries to step past it. */
  predicate Overflowing(e: Event) {
    DateLe(e.start.DayOf(), e.end.DayOf()) && e.end.DayOf() == MaxDate
  }

  predicate Overflows(es: seq<Event>) {
    exists k :: 0 <= k < |es| && Overflowing(es[k])
  }

  /** Before a valid day's successor means on or before that day. */
  lemma BeforeNextDay(cur: Date, d: Date)
    requires cur.Valid() && d.Valid() && cur != MaxDate
    ensures DateLess(d, NextDay(cur).value) <==> DateLe(d, cur)
  {
    if DateLess(cur, d) {
      NoDayBetween(cur, d);
    }
  }

  /** One more event extends the bucket of each day it touches. */
  lemma BucketStep(es: seq<Event>, i: nat, d: Date)
    requires i < |es|
    ensures Bucket(es[..i + 1], d) == Bucket(es[..i], d) + (if OverlapsDay(es[i], d) then [es[i]] else [])
  {
    assert es[..i + 1][..i] == es[..i];
  }

  /** `walked` holds exactly the valid days from `d0` up to, not including, `cur`. */
  ghost predicate WalkedUpTo(walked: set<Date>, d0: Date, cur: Date) {
    forall d :: d in walked <==> d.Valid() && DateLe(d0, d) && DateLess(d, cur)
  }

  /** Visiting `cur` and stepping to the next day keeps the walk contiguous. */
  lemma WalkStep(walked: set<Date>, d0: Date, cur: Date)
    requires cur.Valid() && cur != MaxDate && DateLe(d0, cur) && WalkedUpTo(walked, d0, cur)
    ensures WalkedUpTo(walked + {cur}, d0, NextDay(cur).value)
  {
    forall d: Date | d.Valid()
      ensures DateLess(d, NextDay(cur).value) <==> DateLe(d, cur)
    {
      BeforeNextDay(cur, d);
    }
  }

  /** `m` is `dm` with `e` appended to the list of every day of `walked`, created if missing. */
  ghost predicate AppendedOn(m: map<Date, seq<Event>>, dm: map<Date, seq<Event>>, walked: set<Date>, e: Event) {
    m.Keys == dm.Keys + walked
    && forall d :: d in m ==> m[d] == (if d in dm then dm[d] else []) + (if d in walked then [e] else [])
  }

  /** `setdefault(cur, []).append(e)` on a day not visited before. */
  lemma AppendStep(m: map<Date, seq<Event>>, dm: map<Date, seq<Event>>, walked: set<Date>, e: Event, cur: Date)
    requires AppendedOn(m, dm, walked, e) && cur !in walked
    ensures AppendedOn(m[cur := (if cur in m then m[cur] else []) + [e]], dm, walked + {cur}, e)
  {
  }

  /** When the walk has passed the end day, it has visited exactly the days the event touches. */
  lemma WalkDone(walked: set<Date>, e: Event, cur: Date)
    requires ValidEvent(e) && cur.Valid() && !DateLe(cur, e.end.DayOf())
    requires WalkedUpTo(walked, e.start.DayOf(), cur)
    requires DateLe(e.start.DayOf(), cur)
    requires forall d :: d in walked ==> DateLe(d, e.end.DayOf())
    ensures forall d :: d in walked <==> d.Valid() && OverlapsDay(e, d)
  {
  }

  /**
    The inner loop of `build_day_map`: `setdefault(cur, []).append(e)` for each
    day `cur` from the start day of `e` to its end day, then one day on.
   */
  method AddEvent(dm: map<Date, seq<Event>>, e: Event) returns (r: Result<map<Date, seq<Event>>, DayMapError>)
    requires ValidEvent(e)
    requires forall d :: d in dm ==> d.Valid()
    ensures r.Err? <==> Overflowing(e)
    ensures r.Ok? ==> forall d :: d in r.value <==> d in dm || (d.Valid() && OverlapsDay(e, d))
    ensures r.Ok? ==> forall d :: d in r.value ==>
      r.value[d] == (if d in dm then dm[d] else []) + (if OverlapsDay(e, d) then [e] else [])
  {
    var d0, d1 := e.start.DayOf(), e.end.DayOf();
    var m := dm;
    var cur := d0;
    ghost var walked: set<Date> := {};
    while DateLe(cur, d1)
      invariant cur.Valid() && DateLe(d0, cur)
      invariant WalkedUpTo(walked, d0, cur)
      invariant forall d :: d in walked ==> DateLe(d, d1)
      invariant AppendedOn(m, dm, walked, e)
      decreases Ordinal(d1) - Ordinal(cur)
    {
      AppendStep(m, dm, walked, e, cur);
      m := m[cur := (if cur in m then m[cur] else []) + [e]];
      if cur == MaxDate {
        MaxDateIsLast(d1);
        return Err(DateOverflow);
      }
      DateLeOrdinal(cur, d1);
      NextDayOrdinal(cur);
      WalkStep(walked, d0, cur);
      walked := walked + {cur};
      cur := NextDay(cur).value;
    }
    if Overflowing(e) {
      MaxDateIsLast(cur);
    }
    WalkDone(walked, e, cur);
    return Ok(m);
  }

  /** The final loop of `build_day_map`: every list sorted in place by `(start, end, name)`. */
  method SortBuckets(dm: map<Date, seq<Event>>) returns (r: map<Date, seq<Event>>)
    ensures r.Keys == dm.Keys
    ensures forall d :: d in r ==> r[d] == SortEvents(dm[d])
  {
    r := dm;
    var keys := dm.Keys;
    while keys != {}
      invariant keys <= r.Keys && r.Keys == dm.Keys
      invariant forall d :: d in r ==> r[d] == if d in keys then dm[d] else SortEvents(dm[d])
      decreases keys
    {
      var d :| d in keys;
      r := r[d := SortEvents(r[d])];
      keys := keys - {d};
    }
  }

  /** The first loop of `build_day_map`: every event appended to the list of each day it touches. */
  method IndexEvents(events: seq<Event>) returns (r: Result<map<Date, seq<Event>>, DayMapError>)
    requires forall k :: 0 <= k < |events| ==> ValidEvent(events[k])
    ensures r.Err? <==> Overflows(events)
    ensures r.Ok? ==> forall d :: d in r.value <==> d.Valid() && Bucket(events, d) != []
    ensures r.Ok? ==> forall d :: d in r.value ==> r.value[d] == Bucket(events, d)
  {
    var dm: map<Date, seq<Event>> := map[];
    for i := 0 to |events|
      invariant forall k :: 0 <= k < i ==> !Overflowing(events[k])
      invariant Buckets(dm, events[..i])
    {
      var step := AddEvent(dm, events[i]);
      if step.Err? {
        assert Overflowing(events[i]);
        return Err(DateOverflow);
      }
      BucketsStep(dm, step.value, events, i);
      dm := step.value;
    }
    assert events[..|events|] == events;
    return Ok(dm);
  }

  /** `dm` maps exactly the days some event of `es` touches to their buckets. */
  ghost predicate Buckets(dm: map<Date, seq<Event>>, es: seq<Event>) {
    (forall d :: d in dm <==> d.Valid() && Bucket(es, d) != [])
    && (forall d :: d in dm ==> dm[d] == Bucket(es, d))
  }

  /** Adding the next event's days to the index of a prefix gives the index of the longer prefix. */
  lemma BucketsStep(dm: map<Date, seq<Event>>, m: map<Date, seq<Event>>, es: seq<Event>, i: nat)
    requires i < |es| && Buckets(dm, es[..i])
    requires forall d :: d in m <==> d in dm || (d.Valid() && OverlapsDay(es[i], d))
    requires forall d :: d in m ==>
      m[d] == (if d in dm then dm[d] else []) + (if OverlapsDay(es[i], d) then [es[i]] else [])
    ensures Buckets(m, es[..i + 1])
  {
    forall d
      ensures d in m <==> d.Valid() && Bucket(es[..i + 1], d) != []
      ensures d in m ==> m[d] == Bucket(es[..i + 1], d)
    {
      BucketStep(es, i, d);
    }
  }

  /**
    The dictionary `build_day_map` returns: a day is a key exactly when some
    event touches it, and its list holds those events sorted by
    `(start, end, name)`, equal keys in event order.
   */
  ghost predicate IsDayIndex(events: seq<Event>, dm: map<Date, seq<Event>>) {
    (forall d :: d in dm <==> d.Valid() && Bucket(events, d) != [])
    && (forall d :: d in dm ==> dm[d] == SortEvents(Bucket(events, d)))
  }

  /** `build_day_map`; no list in the result is empty and every list is sorted. */
  method BuildDayMap(events: seq<Event>) returns (r: Result<map<Date, seq<Event>>, DayMapError>)
    requires forall k :: 0 <= k < |events| ==> ValidEvent(events[k])
    ensures r.Err? <==> Overflows(events)
    ensures r.Ok? ==> IsDayIndex(events, r.value)
    ensures r.Ok? ==> forall d :: d in r.value ==> r.value[d] != [] && Sorted(r.value[d])
  {
    var index := IndexEvents(events);
    if index.Err? {
      return Err(index.error);
    }
    var sorted := SortBuckets(index.value);
    forall d | d in sorted
      ensures sorted[d] != [] && Sorted(sorted[d])
    {
      SortEventsSorted(Bucket(events, d));
    }
    return Ok(sorted);
  }

  // ---- what a bucket holds ----

  /**
    Each event sits in the bucket of day `d` once per time it occurs in the
    list if it touches `d`, and not at all otherwise.
   */
  lemma {:induction false} BucketCount(es: seq<Event>, d: Date, e: Event)
    ensures multiset(Bucket(es, d))[e] == if OverlapsDay(e, d) then multiset(es)[e] else 0
    decreases |es|
  {
    if es != [] {
      var n := |es| - 1;
      BucketCount(es[..n], d, e);
      assert es == es[..n] + [es[n]];
    }
  }

  /** A day has a bucket exactly when some event touches it. */
  lemma {:induction false} BucketNonEmpty(es: seq<Event>, d: Date)
    ensures Bucket(es, d) != [] <==> exists k :: 0 <= k < |es| && OverlapsDay(es[k], d)
    decreases |es|
  {
    if es != [] {
      var n := |es| - 1;
      BucketNonEmpty(es[..n], d);
      assert forall k :: 0 <= k < n ==> es[..n][k] == es[k];
    }
  }

  /** `idx` picks `b` out of `es`, in increasing positions. */
  ghost predicate PicksOut(idx: seq<nat>, es: seq<Event>, b: seq<Event>) {
    |idx| == |b|
    && (forall j :: 0 <= j < |idx| ==> idx[j] < |es| && es[idx[j]] == b[j])
    && (forall j, l :: 0 <= j < l < |idx| ==> idx[j] < idx[l])
  }

  /** Positions picked out of a prefix still pick out of the whole list, and the last one can follow. */
  lemma PicksOutExtend(idx: seq<nat>, es: seq<Event>, b: seq<Event>)
    requires es != [] && PicksOut(idx, es[..|es| - 1], b)
    ensures PicksOut(idx, es, b)
    ensures PicksOut(idx + [|es| - 1], es, b + [es[|es| - 1]])
  {
    var n := |es| - 1;
    forall j | 0 <= j < |idx|
      ensures idx[j] < n && es[idx[j]] == b[j]
    {
      assert es[..n][idx[j]] == es[idx[j]];
    }
  }

  /** A bucket keeps the relative order of the event list: it is a subsequence of it. */
  lemma {:induction false} BucketInOrder(es: seq<Event>, d: Date)
    ensures exists idx :: PicksOut(idx, es, Bucket(es, d))
    decreases |es|
  {
    if es == [] {
      assert PicksOut([], es, Bucket(es, d));
    } else {
      var n := |es| - 1;
      BucketInOrder(es[..n], d);
      var idx :| PicksOut(idx, es[..n], Bucket(es[..n], d));
      PicksOutExtend(idx, es, Bucket(es[..n], d));
      if OverlapsDay(es[n], d) {
        assert PicksOut(idx + [n], es, Bucket(es, d));
      } else {
        assert PicksOut(idx, es, Bucket(es, d));
      }
    }
  }

  /**
    The walk visits the right days: for a real day, the event is in its bucket
    exactly when the day lies between the event's start and end days.
   */
  lemma DayMembership(es: seq<Event>, d: Date, e: Event)
    requires e in es
    ensures e in Bucket(es, d) <==> OverlapsDay(e, d)
  {
    BucketCount(es, d, e);
    assert e in multiset(es);
  }
}
