/**
  The record-normalisation part of `load_events`: each decoded entry of the
  schedule file becomes one `Event` (name and note trimmed, a `date` field
  meaning a one-instant event, a missing end meaning "ends when it starts", an
  inverted range swapped), the first entry whose date text does not parse
  aborts the whole load, and the events come out sorted by `(start, end, name)`.
 */
module Load {
  import opened Wrappers
  import opened Text
  import opened Dates
  import opened DateTimeText
  import opened Events

  /** One entry of the file's `events` list, already decoded: field name to the text of its value. */
  type Record = map<string, string>

  /** The name given to an entry whose name is missing or blank. */
  const DefaultName := "未命名事件"

  /** `str(item.get(key, ""))`. */
  function Field(item: Record, key: string): (r: string)
    ensures key !in item ==> r == ""
  {
    if key in item then item[key] else ""
  }

  /** `key in item and item.get(key)`: present, and truthy, which for a text means non-empty. */
  predicate Filled(item: Record, key: string) {
    key in item && item[key] != ""
  }

  lemma DefaultNameClean()
    ensures DefaultName != [] && Strip(DefaultName) == DefaultName
  {
    StripUnchanged(DefaultName);
  }

  /** The trimmed text of a field, which stripping again leaves as it is. */
  function Trimmed(item: Record, key: string): (r: string)
    ensures Strip(r) == r
  {
    StripIdempotent(Field(item, key));
    Strip(Field(item, key))
  }

  /** The trimmed name, or the default when nothing is left of it. */
  function NameOf(item: Record): (r: string)
    ensures r != [] && Strip(r) == r
    ensures Trimmed(item, "name") != [] ==> r == Trimmed(item, "name")
    ensures Trimmed(item, "name") == [] ==> r == DefaultName
  {
    var n := Trimmed(item, "name");
    if n == [] then DefaultNameClean(); DefaultName else n
  }

  /** The start and end as the entry writes them, before they are put in order. */
  function WrittenSpan(item: Record): (r: Result<(Instant, Instant), ParseError>)
    ensures r.Ok? ==> r.value.0.Valid() && r.value.1.Valid()
  {
    if Filled(item, "date") then
      match ParseDateTime(item["date"])
      case Err(e) => Err(e)
      case Ok(t) => Ok((t, t))
    else
      match ParseDateTime(Field(item, "start"))
      case Err(e) => Err(e)
      case Ok(s) =>
        if Filled(item, "end") then
          match ParseDateTime(item["end"])
          case Err(e) => Err(e)
          case Ok(t) => Ok((s, t))
        else Ok((s, s))
  }

  /** The event one entry becomes, or the error of the first of its date texts that fails. */
  function NormaliseRecord(item: Record): (r: Result<Event, ParseError>)
    ensures r.Ok? <==> WrittenSpan(item).Ok?
    ensures r.Err? ==> r.error == WrittenSpan(item).error
    ensures r.Ok? ==> ValidEvent(r.value) && InstantLe(r.value.start, r.value.end)
  {
    match WrittenSpan(item)
    case Err(e) => Err(e)
    case Ok((s, t)) =>
      InstantOrderTotal(s, t);
      if InstantLess(t, s) then Ok(Event(NameOf(item), t, s, Trimmed(item, "note")))
      else Ok(Event(NameOf(item), s, t, Trimmed(item, "note")))
  }

  /** What each entry becomes, in entry order. */
  function Outcomes(items: seq<Record>): (r: seq<Result<Event, ParseError>>)
    ensures |r| == |items|
    ensures forall k :: 0 <= k < |items| ==> r[k] == NormaliseRecord(items[k])
  {
    seq(|items|, k requires 0 <= k < |items| => NormaliseRecord(items[k]))
  }

  /** The events of a run of outcomes, or the first error among them. */
  function Collect(rs: seq<Result<Event, ParseError>>): (r: Result<seq<Event>, ParseError>)
    ensures r.Ok? ==> |r.value| == |rs|
  {
    if rs == [] then Ok([])
    else
      match Collect(rs[..|rs| - 1])
      case Err(e) => Err(e)
      case Ok(es) =>
        match rs[|rs| - 1]
        case Err(e) => Err(e)
        case Ok(ev) => Ok(es + [ev])
  }

  /** The entries one by one, stopping at the first that fails. */
  function NormaliseAll(items: seq<Record>): (r: Result<seq<Event>, ParseError>)
    ensures r.Ok? ==> |r.value| == |items|
    ensures r.Ok? ==> forall k :: 0 <= k < |r.value| ==> ValidEvent(r.value[k]) && InstantLe(r.value[k].start, r.value[k].end)
  {
    CollectOk(Outcomes(items));
    Collect(Outcomes(items))
  }

  /**
    `load_events` once the file is decoded: normalise every entry, then sort.
    No entry is dropped or duplicated: the loaded events are the normalised
    entries, one per entry, reordered by start.
   */
  function LoadSpec(items: seq<Record>): (r: Result<seq<Event>, ParseError>)
    ensures r.Ok? <==> NormaliseAll(items).Ok?
    ensures r.Err? ==> r.error == NormaliseAll(items).error
    ensures r.Ok? ==> |r.value| == |items| && Sorted(r.value)
    ensures r.Ok? ==> multiset(r.value) == multiset(NormaliseAll(items).value)
  {
    match NormaliseAll(items)
    case Err(e) => Err(e)
    case Ok(es) => SortEventsSorted(es); Ok(SortEvents(es))
  }

  /**
    The loop of `load_events` over the decoded entries: build each event,
    append it, and sort the list once every entry is in.
   */
  method LoadEvents(items: seq<Record>) returns (r: Result<seq<Event>, ParseError>)
    ensures r == LoadSpec(items)
    ensures r.Ok? ==> |r.value| == |items| && Sorted(r.value)
    ensures r.Ok? ==> forall e :: e in r.value ==> ValidEvent(e) && InstantLe(e.start, e.end)
  {
    ghost var outcomes := Outcomes(items);
    var events: seq<Event> := [];
    for i := 0 to |items|
      invariant Collect(outcomes[..i]) == Ok(events)
    {
      var o := NormaliseEntry(items[i]);
      if o.Err? {
        Failed(items, i, o.error);
        return Err(o.error);
      }
      CollectStep(outcomes, i);
      events := events + [o.value];
    }
    assert outcomes[..|items|] == outcomes;
    r := Ok(SortEvents(events));
    SortEventsSorted(events);
    forall e | e in r.value ensures ValidEvent(e) && InstantLe(e.start, e.end) {
      assert e in multiset(events);
      var k :| 0 <= k < |events| && events[k] == e;
      CollectOk(outcomes);
    }
  }

  /**
    The body of that loop for one entry: the name and note, the start and end
    read from `date` or from `start` and `end`, swapped when the end comes first.
   */
  method NormaliseEntry(item: Record) returns (r: Result<Event, ParseError>)
    ensures r == NormaliseRecord(item)
  {
    var name := Trimmed(item, "name");
    if name == [] {
      name := DefaultName;
    }
    var note := Trimmed(item, "note");
    var start, end;
    if Filled(item, "date") {
      var p := ParseDt(item["date"]);
      if p.Err? {
        return Err(p.error);
      }
      start := p.value;
      end := start;
    } else {
      var p := ParseDt(Field(item, "start"));
      if p.Err? {
        return Err(p.error);
      }
      start := p.value;
      if Filled(item, "end") {
        var q := ParseDt(item["end"]);
        if q.Err? {
          return Err(q.error);
        }
        end := q.value;
      } else {
        end := start;
      }
    }
    if InstantLess(end, start) {
      start, end := end, start;
    }
    return Ok(Event(name, start, end, note));
  }

  /** The loop's early return: the `i`-th entry fails after all before it succeeded. */
  lemma Failed(items: seq<Record>, i: nat, e: ParseError)
    requires i < |items| && Collect(Outcomes(items)[..i]).Ok? && NormaliseRecord(items[i]) == Err(e)
    ensures LoadSpec(items) == Err(e)
  {
    var rs := Outcomes(items);
    CollectStep(rs, i);
    CollectStops(rs, i + 1);
    assert rs[..|rs|] == rs;
  }

  // ---- collecting outcomes ----

  /** One more outcome extends the collected events or stops at its error. */
  lemma CollectStep(rs: seq<Result<Event, ParseError>>, i: nat)
    requires i < |rs| && Collect(rs[..i]).Ok?
    ensures Collect(rs[..i + 1]) == match rs[i]
      case Err(e) => Err(e)
      case Ok(ev) => Ok(Collect(rs[..i]).value + [ev])
  {
    assert rs[..i + 1][..i] == rs[..i];
  }

  /** Once a prefix fails, the whole run fails with the same error. */
  lemma {:induction false} CollectStops(rs: seq<Result<Event, ParseError>>, n: nat)
    requires n <= |rs| && Collect(rs[..n]).Err?
    ensures Collect(rs) == Collect(rs[..n])
    decreases |rs| - n
  {
    if n < |rs| {
      assert rs[..n + 1][..n] == rs[..n];
      CollectStops(rs, n + 1);
    } else {
      assert rs[..n] == rs;
    }
  }

  /** The run succeeds exactly when every outcome does, and then lists their events in order. */
  lemma {:induction false} CollectOk(rs: seq<Result<Event, ParseError>>)
    ensures Collect(rs).Ok? <==> forall k :: 0 <= k < |rs| ==> rs[k].Ok?
    ensures Collect(rs).Ok? ==> forall k :: 0 <= k < |rs| ==> Collect(rs).value[k] == rs[k].value
    decreases |rs|
  {
    if rs != [] {
      var n := |rs| - 1;
      CollectOk(rs[..n]);
      assert forall k :: 0 <= k < n ==> rs[..n][k] == rs[k];
    }
  }

  /** A failed run reports the first error in it. */
  lemma {:induction false} CollectFirstError(rs: seq<Result<Event, ParseError>>)
    requires Collect(rs).Err?
    ensures exists k :: (0 <= k < |rs| && rs[k] == Err(Collect(rs).error)
                         && forall j :: 0 <= j < k ==> rs[j].Ok?)
    decreases |rs|
  {
    var n := |rs| - 1;
    assert forall k :: 0 <= k < n ==> rs[..n][k] == rs[k];
    if Collect(rs[..n]).Err? {
      CollectFirstError(rs[..n]);
    } else {
      CollectOk(rs[..n]);
    }
  }

  // ---- what the whole load promises ----

  /**
    The load succeeds exactly when every entry does, and then holds one event
    per entry, the entry's own, in entry order before the sort.
   */
  lemma NormaliseAllOk(items: seq<Record>)
    ensures NormaliseAll(items).Ok? <==> forall k :: 0 <= k < |items| ==> NormaliseRecord(items[k]).Ok?
    ensures NormaliseAll(items).Ok? ==>
      forall k :: 0 <= k < |items| ==> NormaliseAll(items).value[k] == NormaliseRecord(items[k]).value
  {
    CollectOk(Outcomes(items));
  }

  /** A failed load reports the error of the first entry that fails. */
  lemma NormaliseAllFirstError(items: seq<Record>)
    requires NormaliseAll(items).Err?
    ensures exists k :: (0 <= k < |items| && NormaliseRecord(items[k]) == Err(NormaliseAll(items).error)
                         && forall j :: 0 <= j < k ==> NormaliseRecord(items[j]).Ok?)
  {
    CollectFirstError(Outcomes(items));
  }

  // ---- what one entry becomes ----

  /** The start and end are the written pair, in chronological order: nothing is lost by the swap. */
  lemma SwapKeepsBounds(item: Record)
    requires NormaliseRecord(item).Ok?
    ensures var e, w := NormaliseRecord(item).value, WrittenSpan(item).value;
      multiset{e.start, e.end} == multiset{w.0, w.1} && InstantLe(e.start, e.end)
  {
  }

  /** A range written in order is kept as written. */
  lemma OrderedSpanKept(item: Record)
    requires WrittenSpan(item).Ok? && InstantLe(WrittenSpan(item).value.0, WrittenSpan(item).value.1)
    ensures NormaliseRecord(item).value.start == WrittenSpan(item).value.0
    ensures NormaliseRecord(item).value.end == WrittenSpan(item).value.1
  {
    var w := WrittenSpan(item).value;
    InstantOrderTotal(w.0, w.1);
  }

  /** A non-empty `date` field makes a one-instant event and overrides `start` and `end`. */
  lemma DateFieldRule(item: Record)
    requires Filled(item, "date")
    ensures NormaliseRecord(item).Ok? <==> ParseDateTime(item["date"]).Ok?
    ensures NormaliseRecord(item).Ok? ==>
      NormaliseRecord(item).value.start == NormaliseRecord(item).value.end == ParseDateTime(item["date"]).value
    ensures NormaliseRecord(item).Err? ==> NormaliseRecord(item).error == ParseDateTime(item["date"]).error
    ensures NormaliseRecord(item) == NormaliseRecord(item - {"start", "end"})
  {
    var other := item - {"start", "end"};
    assert Filled(other, "date") && other["date"] == item["date"];
    assert Field(other, "name") == Field(item, "name") && Field(other, "note") == Field(item, "note");
  }

  /** Without a `date` field, a missing or empty `end` means the event ends when it starts. */
  lemma EndDefaultsToStart(item: Record)
    requires !Filled(item, "date") && !Filled(item, "end")
    ensures NormaliseRecord(item).Ok? <==> ParseDateTime(Field(item, "start")).Ok?
    ensures NormaliseRecord(item).Ok? ==>
      NormaliseRecord(item).value.start == NormaliseRecord(item).value.end == ParseDateTime(Field(item, "start")).value
  {
  }

  /** With neither `date` nor `start`, the entry fails on the empty start text. */
  lemma MissingStartFails(item: Record)
    requires !Filled(item, "date") && "start" !in item
    ensures NormaliseRecord(item) == Err(InvalidFormat(""))
  {
    EmptyTextRejected();
  }

  /** The start is parsed before the end, so a bad start is the error reported. */
  lemma StartErrorFirst(item: Record)
    requires !Filled(item, "date") && ParseDateTime(Field(item, "start")).Err?
    ensures NormaliseRecord(item) == Err(ParseDateTime(Field(item, "start")).error)
  {
  }

  /** The name is never blank: the trimmed name, or the default when nothing is left. */
  lemma NameRule(item: Record)
    requires NormaliseRecord(item).Ok?
    ensures var n := NormaliseRecord(item).value.name;
      n != [] && Strip(n) == n
      && (Strip(Field(item, "name")) != [] ==> n == Strip(Field(item, "name")))
      && (Strip(Field(item, "name")) == [] ==> n == DefaultName)
  {
  }

  /** The note is the written note without surrounding whitespace; a missing note is empty. */
  lemma NoteRule(item: Record)
    requires NormaliseRecord(item).Ok?
    ensures var n := NormaliseRecord(item).value.note;
      n == Strip(Field(item, "note")) && Strip(n) == n && ("note" !in item ==> n == "")
  {
    StripIdempotent(Field(item, "note"));
  }
}
