/**
  The schedule entry and the order events are kept in: an `Event` is a frozen
  record of a name, a start and an end instant and a note; lists of events are
  sorted by the key `(start, end, name)` with Python's stable `list.sort`.
 */
module Events {
  import opened Dates

  datatype Event = Event(name: string, start: Instant, end: Instant, note: string)

  /** Instants a Python `datetime` can hold. */
  predicate ValidEvent(e: Event) {
    e.start.Valid() && e.end.Valid()
  }

  /**
    `Event.overlaps_day`: the event touches day `d`, judged by calendar day
    only; an event whose end day comes before its start day touches no day.
   */
  predicate OverlapsDay(e: Event, d: Date)
    ensures OverlapsDay(e, d) ==> DateLe(e.start.DayOf(), e.end.DayOf())
  {
    DateLe(e.start.DayOf(), d) && DateLe(d, e.end.DayOf())
  }

  /** For a real day, overlapping is the same as lying between the two day ordinals. */
  lemma OverlapsDayOrdinal(e: Event, d: Date)
    requires ValidEvent(e) && d.Valid()
    ensures OverlapsDay(e, d)
        <==> Ordinal(e.start.DayOf()) <= Ordinal(d) <= Ordinal(e.end.DayOf())
  {
    DateLeOrdinal(e.start.DayOf(), d);
    DateLeOrdinal(d, e.end.DayOf());
  }

  // ---- strings as Python compares them ----

  /** `a < b` on Python strings: lexicographic by code point, a proper prefix first. */
  predicate StrLess(a: string, b: string)
    decreases |a|
  {
    b != [] && (a == [] || a[0] < b[0] || (a[0] == b[0] && StrLess(a[1..], b[1..])))
  }

  lemma {:induction false} StrLessIrreflexive(a: string)
    ensures !StrLess(a, a)
    decreases |a|
  {
    if a != [] {
      StrLessIrreflexive(a[1..]);
    }
  }

  lemma {:induction false} StrLessTransitive(a: string, b: string, c: string)
    requires StrLess(a, b) && StrLess(b, c)
    ensures StrLess(a, c)
    decreases |a|
  {
    if a != [] && a[0] == b[0] && b[0] == c[0] {
      StrLessTransitive(a[1..], b[1..], c[1..]);
    }
  }

  lemma {:induction false} StrLessTotal(a: string, b: string)
    ensures StrLess(a, b) || a == b || StrLess(b, a)
    decreases |a|
  {
    if a != [] && b != [] && a[0] == b[0] {
      StrLessTotal(a[1..], b[1..]);
      if a[1..] == b[1..] {
        assert a == [a[0]] + a[1..] && b == [b[0]] + b[1..];
      }
    }
  }

  // ---- the sort key ----

  /** The sort key `(e.start, e.end, e.name)` of two events, compared as Python compares tuples. */
  predicate KeyLess(x: Event, y: Event) {
    InstantLess(x.start, y.start)
    || (x.start == y.start
        && (InstantLess(x.end, y.end) || (x.end == y.end && StrLess(x.name, y.name))))
  }

  /** Two events with equal keys (they may still differ in their notes). */
  predicate SameKey(x: Event, y: Event) {
    x.start == y.start && x.end == y.end && x.name == y.name
  }

  lemma KeyLessIrreflexive(x: Event, y: Event)
    requires SameKey(x, y)
    ensures !KeyLess(x, y)
  {
    InstantOrderTotal(x.start, x.start);
    InstantOrderTotal(x.end, x.end);
    StrLessIrreflexive(x.name);
  }

  lemma KeyLessTransitive(x: Event, y: Event, z: Event)
    requires KeyLess(x, y) && KeyLess(y, z)
    ensures KeyLess(x, z)
  {
    if InstantLess(x.start, y.start) && InstantLess(y.start, z.start) {
      InstantLessTransitive(x.start, y.start, z.start);
    } else if x.start == y.start && y.start == z.start {
      if InstantLess(x.end, y.end) && InstantLess(y.end, z.end) {
        InstantLessTransitive(x.end, y.end, z.end);
      } else if x.end == y.end && y.end == z.end {
        StrLessTransitive(x.name, y.name, z.name);
      }
    }
  }

  /** The key order is total: of two keys one is smaller, or they are equal. */
  lemma KeyLessTotal(x: Event, y: Event)
    ensures KeyLess(x, y) || SameKey(x, y) || KeyLess(y, x)
    ensures !(KeyLess(x, y) && KeyLess(y, x))
  {
    InstantOrderTotal(x.start, y.start);
    InstantOrderTotal(x.end, y.end);
    StrLessTotal(x.name, y.name);
    if KeyLess(x, y) && KeyLess(y, x) {
      KeyLessTransitive(x, y, x);
      KeyLessIrreflexive(x, x);
    }
  }

  /** No event is followed by one with a smaller key. */
  predicate Sorted(s: seq<Event>) {
    forall i, j :: 0 <= i < j < |s| ==> !KeyLess(s[j], s[i])
  }

  // ---- Python's stable sort ----

  /** Place `x` before the first element whose key is not smaller than its own. */
  function Insert(x: Event, s: seq<Event>): (r: seq<Event>)
    ensures multiset(r) == multiset(s) + multiset{x}
    ensures |r| == |s| + 1
  {
    if s == [] then [x]
    else if !KeyLess(s[0], x) then [x] + s
    else
      assert s == [s[0]] + s[1..];
      [s[0]] + Insert(x, s[1..])
  }

  /**
    `list.sort(key=lambda e: (e.start, e.end, e.name))`: events in key order,
    events with equal keys in their original order.
   */
  function SortEvents(s: seq<Event>): (r: seq<Event>)
    ensures multiset(r) == multiset(s)
    ensures |r| == |s|
  {
    if s == [] then []
    else
      assert s == [s[0]] + s[1..];
      Insert(s[0], SortEvents(s[1..]))
  }

  lemma {:induction false} InsertSorted(x: Event, s: seq<Event>)
    requires Sorted(s)
    ensures Sorted(Insert(x, s))
    decreases |s|
  {
    if s != [] && KeyLess(s[0], x) {
      InsertSorted(x, s[1..]);
      var r := Insert(x, s);
      forall j | 0 < j < |r| ensures !KeyLess(r[j], r[0]) {
        assert r[j] == Insert(x, s[1..])[j - 1];
        assert r[j] in multiset(s[1..]) + multiset{x};
        if r[j] == x {
          KeyLessTotal(s[0], x);
        } else {
          assert r[j] in s[1..];
          var m :| 0 <= m < |s[1..]| && s[1..][m] == r[j];
          assert s[m + 1] == r[j];
        }
      }
    } else if s != [] {
      var r := Insert(x, s);
      forall i, j | 0 <= i < j < |r| ensures !KeyLess(r[j], r[i]) {
        if i == 0 && KeyLess(r[j], x) {
          assert r[j] == s[j - 1];
          KeyLessTotal(s[0], x);
          if j - 1 > 0 {
            KeyLessTotal(s[j - 1], s[0]);
            if KeyLess(s[j - 1], s[0]) {
            } else if SameKey(s[j - 1], s[0]) {
            } else {
              KeyLessTransitive(s[0], s[j - 1], x);
            }
          }
        }
      }
    }
  }

  /** `SortEvents` leaves its result in key order. */
  lemma {:induction false} SortEventsSorted(s: seq<Event>)
    ensures Sorted(SortEvents(s))
  {
    if s != [] {
      SortEventsSorted(s[1..]);
      InsertSorted(s[0], SortEvents(s[1..]));
    }
  }

  /** The events with the same key as `k`, in the order they appear. */
  function WithKey(s: seq<Event>, k: Event): (r: seq<Event>)
    ensures |r| <= |s|
  {
    if s == [] then []
    else (if SameKey(s[0], k) then [s[0]] else []) + WithKey(s[1..], k)
  }

  lemma {:induction false} WithKeyInsert(x: Event, s: seq<Event>, k: Event)
    ensures WithKey(Insert(x, s), k) == (if SameKey(x, k) then [x] else []) + WithKey(s, k)
    decreases |s|
  {
    if s == [] {
      assert WithKey([x], k) == (if SameKey(x, k) then [x] else []) + WithKey([], k);
    } else if !KeyLess(s[0], x) {
      assert Insert(x, s)[1..] == s;
    } else {
      WithKeyInsert(x, s[1..], k);
      assert Insert(x, s)[1..] == Insert(x, s[1..]);
      if SameKey(s[0], k) && SameKey(x, k) {
        KeyLessIrreflexive(s[0], x);
      }
    }
  }

  /** Stability: among events with equal keys the original order survives the sort. */
  lemma {:induction false} SortEventsStable(s: seq<Event>, k: Event)
    ensures WithKey(SortEvents(s), k) == WithKey(s, k)
  {
    if s != [] {
      SortEventsStable(s[1..], k);
      WithKeyInsert(s[0], SortEvents(s[1..]), k);
    }
  }

  /** Sorting a list that is already in key order changes nothing. */
  lemma {:induction false} SortEventsOfSorted(s: seq<Event>)
    requires Sorted(s)
    ensures SortEvents(s) == s
  {
    if s != [] {
      assert Sorted(s[1..]) by {
        forall i, j | 0 <= i < j < |s[1..]| ensures !KeyLess(s[1..][j], s[1..][i]) {
          assert s[1..][j] == s[j + 1] && s[1..][i] == s[i + 1];
        }
      }
      SortEventsOfSorted(s[1..]);
      if |s| > 1 {
        assert !KeyLess(s[1], s[0]);
      }
      assert s == [s[0]] + s[1..];
    }
  }
}
