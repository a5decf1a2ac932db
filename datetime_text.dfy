/**
  Reading and writing the date/time text of the schedule file: `parse_dt`
  tries `DT_FORMATS` in order on the stripped text, and the tooltip's `fmt`
  writes an instant back, as a bare date at exactly midnight and to the
  minute otherwise.
 */
module DateTimeText {
  import opened Wrappers
  import opened Text
  import opened Dates
  import opened Strptime

  const DateFormat := "%Y-%m-%d"
  const MinuteFormat := " %H:%M"
  const SecondFormat := ":%S"

  /** `DT_FORMATS`, in the order `parse_dt` tries them: `"%Y-%m-%d"`, then with ` %H:%M`, then with `:%S` too. */
  const DtFormats: seq<string> := [DateFormat, DateFormat + MinuteFormat, DateFormat + MinuteFormat + SecondFormat]

  const DateDirectives: seq<Directive> := [Field(Year), Lit('-'), Field(Month), Lit('-'), Field(Day)]
  const MinuteDirectives: seq<Directive> := [Spaces, Field(Hour), Lit(':'), Field(Minute)]
  const SecondDirectives: seq<Directive> := [Lit(':'), Field(Second)]

  /** The `ValueError` that `parse_dt` raises; `text` is the stripped input. */
  datatype ParseError = InvalidFormat(text: string)

  /** `parse_dt` as a function: the first format that parses the stripped text wins. */
  function ParseDateTime(s: string): (r: Result<Instant, ParseError>)
    ensures r.Ok? ==> r.value.Valid()
  {
    FirstParse(Strip(s), 0)
  }

  /** `parse_dt` from the `k`-th format on, each format taken in its compiled form. */
  function FirstParse(t: string, k: nat): (r: Result<Instant, ParseError>)
    requires k <= |DtFormats|
    ensures r.Ok? ==> r.value.Valid()
    ensures r.Err? ==> r.error == InvalidFormat(t)
    decreases |DtFormats| - k
  {
    if k == |DtFormats| then Err(InvalidFormat(t))
    else match StrptimeCompiled(t, DtDirectives[k])
      case Ok(i) => Ok(i)
      case Err(_) => FirstParse(t, k + 1)
  }

  /**
    `parse_dt(s)`: strip, try each format in order, return the first success,
    raise otherwise. It never falls back to a default instant.
   */
  method ParseDt(s: string) returns (r: Result<Instant, ParseError>)
    ensures r == ParseDateTime(s)
    ensures r.Ok? ==> r.value.Valid()
    ensures r.Ok? ==>
      exists k :: 0 <= k < |DtFormats| && Parse(Strip(s), DtFormats[k]) == Ok(r.value)
        && (forall j :: 0 <= j < k ==> Parse(Strip(s), DtFormats[j]).Err?)
    ensures r.Err? <==> forall k :: 0 <= k < |DtFormats| ==> Parse(Strip(s), DtFormats[k]).Err?
    ensures r.Err? ==> r.error.text == Strip(s)
  {
    var t := Strip(s);
    FirstParseSpec(t, 0);
    for k := 0 to |DtFormats|
      invariant forall j :: 0 <= j < k ==> Parse(t, DtFormats[j]).Err?
      invariant FirstParse(t, 0) == FirstParse(t, k)
    {
      var p := Parse(t, DtFormats[k]);
      if p.Ok? {
        FirstParseHit(t, k, p.value);
        return Ok(p.value);
      }
      FirstParseSkip(t, k);
    }
    return Err(InvalidFormat(t));
  }

  /** The first format that parses decides; the text fails only when every format fails. */
  lemma {:induction false} FirstParseSpec(t: string, k: nat)
    requires k <= |DtFormats|
    ensures FirstParse(t, k).Ok? ==>
      exists j :: k <= j < |DtFormats| && Parse(t, DtFormats[j]) == Ok(FirstParse(t, k).value)
        && (forall i :: k <= i < j ==> Parse(t, DtFormats[i]).Err?)
    ensures FirstParse(t, k).Err? <==> forall j :: k <= j < |DtFormats| ==> Parse(t, DtFormats[j]).Err?
    decreases |DtFormats| - k
  {
    if k < |DtFormats| {
      FirstParseSpec(t, k + 1);
      ParseByDirectives(t, k);
    }
  }

  /**
    The formats as `_strptime` compiles them; it keeps compiled formats in a
    cache, so each one is compiled once.
   */
  const DtDirectives: seq<seq<Directive>> :=
    [DateDirectives, DateDirectives + MinuteDirectives, DateDirectives + MinuteDirectives + SecondDirectives]

  /** `strptime` with one of the formats is matching with its compiled form. */
  lemma ParseByDirectives(t: string, k: nat)
    requires k < |DtFormats|
    ensures Parse(t, DtFormats[k]) == StrptimeCompiled(t, DtDirectives[k])
  {
    CompiledFormats();
  }

  lemma CompiledFormats()
    ensures Compile(DtFormats[0]) == Some(DateDirectives)
    ensures Compile(DtFormats[1]) == Some(DateDirectives + MinuteDirectives)
    ensures Compile(DtFormats[2]) == Some(DateDirectives + MinuteDirectives + SecondDirectives)
  {
    var none: seq<Directive> := [];
    CompileDate("", none);
    assert DateFormat + "" == DateFormat && DateDirectives + none == DateDirectives;
    CompiledMinuteFormat();
    CompiledSecondFormat();
  }

  lemma CompiledSeconds()
    ensures Compile(SecondFormat) == Some(SecondDirectives)
  {
    var none: seq<Directive> := [];
    CompileField('S', "", none);
    assert "%S" == ['%', 'S'] + "";
    assert [Field(Second)] + none == SecondDirectives[1..];
    CompileLiteral(':', "%S", SecondDirectives[1..]);
    assert SecondFormat == [':'] + "%S";
    assert [Lit(':')] + SecondDirectives[1..] == SecondDirectives;
  }

  lemma CompiledMinuteFormat()
    ensures Compile(DtFormats[1]) == Some(DateDirectives + MinuteDirectives)
  {
    var none: seq<Directive> := [];
    CompileTime("", none);
    assert MinuteFormat + "" == MinuteFormat && MinuteDirectives + none == MinuteDirectives;
    CompileDate(MinuteFormat, MinuteDirectives);
  }

  lemma CompiledSecondFormat()
    ensures Compile(DtFormats[2]) == Some(DateDirectives + MinuteDirectives + SecondDirectives)
  {
    CompiledSeconds();
    CompileTime(SecondFormat, SecondDirectives);
    CompileDate(MinuteFormat + SecondFormat, MinuteDirectives + SecondDirectives);
    assert DtFormats[2] == DateFormat + (MinuteFormat + SecondFormat);
    assert DateDirectives + (MinuteDirectives + SecondDirectives) == DateDirectives + MinuteDirectives + SecondDirectives;
  }

  lemma CompileTime(rest: string, ds: seq<Directive>)
    requires Compile(rest) == Some(ds)
    ensures Compile(MinuteFormat + rest) == Some(MinuteDirectives + ds)
  {
    CompileMinute(rest, ds);
    CompileSpace("%H:%M" + rest, MinuteDirectives[1..] + ds);
    assert MinuteFormat + rest == " " + ("%H:%M" + rest);
    assert [Spaces] + (MinuteDirectives[1..] + ds) == MinuteDirectives + ds;
  }

  lemma CompileField(c: char, rest: string, ds: seq<Directive>)
    requires FieldOf(c).Some? && Compile(rest) == Some(ds)
    ensures Compile(['%', c] + rest) == Some([Field(FieldOf(c).value)] + ds)
  {
    var f := ['%', c] + rest;
    assert f[0] == '%' && f[1] == c && f[2..] == rest;
  }

  lemma CompileLiteral(c: char, rest: string, ds: seq<Directive>)
    requires c != '%' && !IsSpace(c) && Compile(rest) == Some(ds)
    ensures Compile([c] + rest) == Some([Lit(c)] + ds)
  {
    var f := [c] + rest;
    assert f[0] == c && f[1..] == rest;
  }

  lemma CompileSpace(rest: string, ds: seq<Directive>)
    requires rest != [] && !IsSpace(rest[0]) && Compile(rest) == Some(ds)
    ensures Compile(" " + rest) == Some([Spaces] + ds)
  {
    var f := " " + rest;
    assert f[1..] == rest;
    assert TrimStart(f) == TrimStart(rest) == rest;
  }

  lemma CompileMinute(rest: string, ds: seq<Directive>)
    requires Compile(rest) == Some(ds)
    ensures Compile("%H:%M" + rest) == Some(MinuteDirectives[1..] + ds)
  {
    CompileField('M', rest, ds);
    assert "%M" + rest == ['%', 'M'] + rest;
    CompileLiteral(':', "%M" + rest, [Field(Minute)] + ds);
    assert ":%M" + rest == [':'] + ("%M" + rest);
    CompileField('H', ":%M" + rest, [Lit(':')] + ([Field(Minute)] + ds));
    assert "%H:%M" + rest == ['%', 'H'] + (":%M" + rest);
    assert [Field(Hour)] + ([Lit(':')] + ([Field(Minute)] + ds)) == MinuteDirectives[1..] + ds;
  }

  lemma CompileDate(rest: string, ds: seq<Directive>)
    requires Compile(rest) == Some(ds)
    ensures Compile(DateFormat + rest) == Some(DateDirectives + ds)
  {
    CompileDay(rest, ds);
    var d3 := DateDirectives[2..] + ds;
    var r3 := ['%', 'm', '-', '%', 'd'] + rest;
    CompileLiteral('-', r3, d3);
    assert [Lit('-')] + d3 == DateDirectives[1..] + ds;
    CompileField('Y', ['-'] + r3, DateDirectives[1..] + ds);
    DateFormatSplit(rest);
    assert [Field(Year)] + (DateDirectives[1..] + ds) == DateDirectives + ds;
  }

  lemma DateFormatSplit(rest: string)
    ensures DateFormat + rest == ['%', 'Y'] + (['-'] + (['%', 'm', '-', '%', 'd'] + rest))
  {
    var a, b, c := ['%', 'Y'], ['-'], ['%', 'm', '-', '%', 'd'];
    assert DateFormat == a + b + c;
    assert (a + b + c) + rest == a + (b + (c + rest));
  }

  lemma CompileDay(rest: string, ds: seq<Directive>)
    requires Compile(rest) == Some(ds)
    ensures Compile(['%', 'm', '-', '%', 'd'] + rest) == Some(DateDirectives[2..] + ds)
  {
    CompileField('d', rest, ds);
    var r1 := ['%', 'd'] + rest;
    CompileLiteral('-', r1, [Field(Day)] + ds);
    CompileField('m', ['-'] + r1, [Lit('-')] + ([Field(Day)] + ds));
    assert ['%', 'm', '-', '%', 'd'] + rest == ['%', 'm'] + (['-'] + r1);
    assert [Field(Month)] + ([Lit('-')] + ([Field(Day)] + ds)) == DateDirectives[2..] + ds;
  }

  // ---- writing ----

  /** A number as two decimal digits (`%02d`). */
  function Pad2(n: int): (r: string)
    requires 0 <= n <= 99
    ensures |r| == 2 && IsDigit(r[0]) && IsDigit(r[1])
  {
    [DigitChar(n / 10), DigitChar(n % 10)]
  }

  /** A year as four decimal digits. */
  function Pad4(n: int): (r: string)
    requires 0 <= n <= 9999
    ensures |r| == 4
  {
    Pad2(n / 100) + Pad2(n % 100)
  }

  /** `d.strftime("%Y-%m-%d")`. */
  function DateText(d: Date): (r: string)
    requires d.Valid()
    ensures |r| == 10
  {
    Pad4(d.year) + "-" + Pad2(d.month) + "-" + Pad2(d.day)
  }

  /** `dt.strftime("%Y-%m-%d %H:%M")`. */
  function MinuteText(i: Instant): (r: string)
    requires i.Valid()
    ensures |r| == 16
  {
    DateText(i.DayOf()) + " " + Pad2(i.hour) + ":" + Pad2(i.minute)
  }

  /** `dt.strftime("%Y-%m-%d %H:%M:%S")`, the third accepted input form. */
  function SecondText(i: Instant): (r: string)
    requires i.Valid()
    ensures |r| == 19
  {
    MinuteText(i) + ":" + Pad2(i.second)
  }

  /** The tooltip's `fmt`: a bare date at exactly midnight, otherwise date and minute. */
  function Fmt(i: Instant): (r: string)
    requires i.Valid()
    ensures |r| == (if i.IsMidnight() then 10 else 16)
  {
    if i.hour == 0 && i.minute == 0 && i.second == 0 then DateText(i.DayOf()) else MinuteText(i)
  }

  /** `i` with its seconds set to zero: what survives writing with `Fmt`. */
  function ToMinute(i: Instant): Instant {
    i.(second := 0)
  }

  // ---- reading back what was written ----

  lemma Pad2At(s: string, p: nat, n: int)
    requires 0 <= n <= 99 && p + 2 <= |s| && s[p..p + 2] == Pad2(n)
    ensures DigitAt(s, p) && DigitAt(s, p + 1) && Two(s, p) == n
  {
    assert s[p] == Pad2(n)[0] && s[p + 1] == Pad2(n)[1];
  }

  /** The first alternative of a two-digit directive reads back a canonical two-digit number. */
  lemma FieldFirstAlt(k: FieldKind, s: string, p: nat, n: int)
    requires p + 2 <= |s| && 0 <= n <= 99 && s[p..p + 2] == Pad2(n)
    requires k == Month ==> 1 <= n <= 12
    requires k == Day ==> 1 <= n <= 31
    requires k == Hour ==> n <= 23
    requires k == Minute || k == Second ==> n <= 59
    requires k != Year
    ensures FieldAlts(k, s, p) != [] && FieldAlts(k, s, p)[0] == Alt(2, n)
  {
    Pad2At(s, p, n);
  }

  lemma YearFirstAlt(s: string, p: nat, y: int)
    requires p + 4 <= |s| && 0 <= y <= 9999 && s[p..p + 4] == Pad4(y)
    ensures FieldAlts(Year, s, p) == [Alt(4, y)]
  {
    var w := s[p..p + 4];
    assert w == Pad2(y / 100) + Pad2(y % 100);
    assert s[p..p + 2] == w[..2] == Pad2(y / 100);
    assert s[p + 2..p + 4] == w[2..] == Pad2(y % 100);
    Pad2At(s, p, y / 100);
    Pad2At(s, p + 2, y % 100);
  }

  /** The pieces of a canonical `YYYY-MM-DD` at the head of a text. */
  lemma DateChars(s: string, d: Date)
    requires d.Valid() && 10 <= |s| && s[..10] == DateText(d)
    ensures s[..4] == Pad4(d.year) && s[4] == '-' && s[5..7] == Pad2(d.month)
      && s[7] == '-' && s[8..10] == Pad2(d.day)
  {
    var w := s[..10];
    assert w == Pad4(d.year) + "-" + Pad2(d.month) + "-" + Pad2(d.day);
    assert s[..4] == w[..4] && s[5..7] == w[5..7] && s[8..10] == w[8..10];
    assert s[4] == w[4] && s[7] == w[7];
  }

  /** The month and day directives read a canonical `MM-DD` at positions 5 to 9. */
  lemma MonthDayPart(s: string, d: Date, tail: seq<Directive>, acc: Instant)
    requires d.Valid() && 10 <= |s| && s[5..7] == Pad2(d.month) && s[7] == '-' && s[8..10] == Pad2(d.day)
    requires MatchFrom(tail, s, 10, acc.(month := d.month, day := d.day)).Some?
    ensures MatchFrom(DateDirectives[2..] + tail, s, 5, acc)
         == MatchFrom(tail, s, 10, acc.(month := d.month, day := d.day))
  {
    var a1 := acc.(month := d.month);
    var ds := DateDirectives[2..] + tail;
    FieldFirstAlt(Day, s, 8, d.day);
    assert ds[2..][1..] == tail;
    FirstAltWins(ds[2..], s, 8, a1);
    assert ds[1..][1..] == ds[2..];
    FirstAltWins(ds[1..], s, 7, a1);
    FieldFirstAlt(Month, s, 5, d.month);
    FirstAltWins(ds, s, 5, acc);
  }

  /** The date directives read a canonical date off the first ten characters. */
  lemma DatePart(s: string, d: Date, tail: seq<Directive>, acc: Instant)
    requires d.Valid() && 10 <= |s| && s[..10] == DateText(d)
    requires MatchFrom(tail, s, 10, acc.(year := d.year, month := d.month, day := d.day)).Some?
    ensures MatchFrom(DateDirectives + tail, s, 0, acc)
         == MatchFrom(tail, s, 10, acc.(year := d.year, month := d.month, day := d.day))
  {
    var a1 := acc.(year := d.year);
    var ds := DateDirectives + tail;
    DateChars(s, d);
    assert ds[2..] == DateDirectives[2..] + tail;
    MonthDayPart(s, d, tail, a1);
    assert ds[1..][1..] == ds[2..];
    FirstAltWins(ds[1..], s, 4, a1);
    YearFirstAlt(s, 0, d.year);
    FirstAltWins(ds, s, 0, acc);
  }

  /** `\s+` takes exactly one character when a single space is followed by a non-space. */
  lemma SingleSpace(s: string, p: nat)
    requires p + 1 < |s| && IsSpace(s[p]) && !IsSpace(s[p + 1])
    ensures Alts(Spaces, s, p) == [Alt(1, 0)]
  {
    assert SpaceRun(s, p + 1) == 0;
    assert SpaceRun(s, p) == 1;
    assert SpaceAlts(1) == [Alt(1, 0)] + SpaceAlts(0);
  }

  lemma MinuteChars(s: string, i: Instant)
    requires i.Valid() && 16 <= |s| && s[10..16] == " " + Pad2(i.hour) + ":" + Pad2(i.minute)
    ensures s[10] == ' ' && s[11..13] == Pad2(i.hour) && s[13] == ':' && s[14..16] == Pad2(i.minute)
  {
    var w, h, m := s[10..16], Pad2(i.hour), Pad2(i.minute);
    assert w == [' ', h[0], h[1], ':', m[0], m[1]];
    assert s[11] == w[1] && s[12] == w[2] && s[14] == w[4] && s[15] == w[5];
    assert s[11..13] == [s[11], s[12]] && s[14..16] == [s[14], s[15]];
  }

  /** The hour and minute directives read a canonical `HH:MM` at positions 11 to 15. */
  lemma HourMinutePart(s: string, i: Instant, tail: seq<Directive>, acc: Instant)
    requires i.Valid() && 16 <= |s| && s[11..13] == Pad2(i.hour) && s[13] == ':' && s[14..16] == Pad2(i.minute)
    requires MatchFrom(tail, s, 16, acc.(hour := i.hour, minute := i.minute)).Some?
    ensures MatchFrom(MinuteDirectives[1..] + tail, s, 11, acc)
         == MatchFrom(tail, s, 16, acc.(hour := i.hour, minute := i.minute))
  {
    var a1 := acc.(hour := i.hour);
    var ds := MinuteDirectives[1..] + tail;
    FieldFirstAlt(Minute, s, 14, i.minute);
    assert ds[2..][1..] == tail;
    FirstAltWins(ds[2..], s, 14, a1);
    assert ds[1..][1..] == ds[2..];
    FirstAltWins(ds[1..], s, 13, a1);
    FieldFirstAlt(Hour, s, 11, i.hour);
    FirstAltWins(ds, s, 11, acc);
  }

  /** The minute directives read a canonical ` HH:MM` at positions 10 to 15. */
  lemma MinutePart(s: string, i: Instant, tail: seq<Directive>, acc: Instant)
    requires i.Valid() && 16 <= |s| && s[10..16] == " " + Pad2(i.hour) + ":" + Pad2(i.minute)
    requires MatchFrom(tail, s, 16, acc.(hour := i.hour, minute := i.minute)).Some?
    ensures MatchFrom(MinuteDirectives + tail, s, 10, acc)
         == MatchFrom(tail, s, 16, acc.(hour := i.hour, minute := i.minute))
  {
    var ds := MinuteDirectives + tail;
    MinuteChars(s, i);
    assert ds[1..] == MinuteDirectives[1..] + tail;
    HourMinutePart(s, i, tail, acc);
    assert IsDigit(s[11]) by {
      Pad2At(s, 11, i.hour);
    }
    SingleSpace(s, 10);
    FirstAltWins(ds, s, 10, acc);
  }

  /** The seconds directives read a canonical `:SS` at positions 16 to 18. */
  lemma SecondPart(s: string, i: Instant, acc: Instant)
    requires i.Valid() && |s| == 19 && s[16..19] == ":" + Pad2(i.second)
    ensures MatchFrom(SecondDirectives, s, 16, acc) == Some(Matched(acc.(second := i.second), 19))
  {
    assert s[16] == ':' && s[17..19] == Pad2(i.second) by {
      var w := s[16..19];
      assert w[0] == s[16] && w[1..3] == s[17..19];
    }
    FieldFirstAlt(Second, s, 17, i.second);
    var ds := SecondDirectives;
    assert ds[1..][1..] == [];
    FirstAltWins(ds[1..], s, 17, acc);
    FirstAltWins(ds, s, 16, acc);
  }

  lemma StripCanonical(s: string)
    requires 10 <= |s| && IsDigit(s[0]) && IsDigit(s[|s| - 1])
    ensures Strip(s) == s
  {
    StripUnchanged(s);
  }

  /** How one format fares on a text, from where the first regex match ends. */
  lemma ParseOutcome(t: string, k: nat, ds: seq<Directive>, m: Matched)
    requires k < |DtFormats| && Compile(DtFormats[k]) == Some(ds)
    requires MatchFrom(ds, t, 0, Defaults) == Some(m)
    ensures m.end != |t| ==> Parse(t, DtFormats[k]) == Err(UnconvertedData)
    ensures m.end == |t| && m.fields.Valid() ==> Parse(t, DtFormats[k]) == Ok(m.fields)
  {
  }

  /** A format that fails hands the text on to the next one. */
  lemma FirstParseSkip(t: string, k: nat)
    requires k < |DtFormats| && Parse(t, DtFormats[k]).Err?
    ensures FirstParse(t, k) == FirstParse(t, k + 1)
  {
    ParseByDirectives(t, k);
  }

  /** A format that succeeds decides the result. */
  lemma FirstParseHit(t: string, k: nat, i: Instant)
    requires k < |DtFormats| && Parse(t, DtFormats[k]) == Ok(i)
    ensures FirstParse(t, k) == Ok(i)
  {
    ParseByDirectives(t, k);
  }

  /** What the first format makes of a text that begins with a canonical date. */
  lemma FirstFormatReads(s: string, d: Date)
    requires d.Valid() && 10 <= |s| && s[..10] == DateText(d)
    ensures Parse(s, DtFormats[0])
         == if |s| == 10 then Ok(Instant(d.year, d.month, d.day, 0, 0, 0)) else Err(UnconvertedData)
  {
    var a := Defaults.(year := d.year, month := d.month, day := d.day);
    CompiledFormats();
    assert DateDirectives + [] == DateDirectives;
    DatePart(s, d, [], Defaults);
    ParseOutcome(s, 0, DateDirectives, Matched(a, 10));
  }

  /** What the second format makes of a text that begins with a canonical date and minute. */
  lemma SecondFormatReads(s: string, i: Instant)
    requires i.Valid() && 16 <= |s| && s[..16] == MinuteText(i)
    ensures Parse(s, DtFormats[1]) == if |s| == 16 then Ok(ToMinute(i)) else Err(UnconvertedData)
  {
    var d := i.DayOf();
    var a := Defaults.(year := d.year, month := d.month, day := d.day);
    var b := a.(hour := i.hour, minute := i.minute);
    CompiledFormats();
    MinuteTextParts(s, i);
    assert MinuteDirectives + [] == MinuteDirectives;
    MinutePart(s, i, [], a);
    DatePart(s, d, MinuteDirectives, Defaults);
    ParseOutcome(s, 1, DateDirectives + MinuteDirectives, Matched(b, 16));
  }

  /** The third format reads a canonical text with seconds exactly. */
  lemma ThirdFormatReads(s: string, i: Instant)
    requires i.Valid() && s == SecondText(i)
    ensures Parse(s, DtFormats[2]) == Ok(i)
  {
    var d := i.DayOf();
    var a := Defaults.(year := d.year, month := d.month, day := d.day);
    var b := a.(hour := i.hour, minute := i.minute);
    CompiledFormats();
    assert s[..16] == MinuteText(i);
    MinuteTextParts(s, i);
    assert s[16..19] == ":" + Pad2(i.second);
    SecondPart(s, i, b);
    MinutePart(s, i, SecondDirectives, a);
    assert DateDirectives + MinuteDirectives + SecondDirectives == DateDirectives + (MinuteDirectives + SecondDirectives);
    DatePart(s, d, MinuteDirectives + SecondDirectives, Defaults);
    ParseOutcome(s, 2, DateDirectives + MinuteDirectives + SecondDirectives, Matched(i, 19));
  }

  lemma MinuteTextParts(s: string, i: Instant)
    requires i.Valid() && 16 <= |s| && s[..16] == MinuteText(i)
    ensures s[..10] == DateText(i.DayOf())
    ensures s[10..16] == " " + Pad2(i.hour) + ":" + Pad2(i.minute)
  {
    assert s[..10] == s[..16][..10];
    assert s[10..16] == s[..16][10..16];
  }

  lemma DateTextEnds(d: Date)
    requires d.Valid()
    ensures IsDigit(DateText(d)[0]) && IsDigit(DateText(d)[9])
  {
    var s := DateText(d);
    assert s[0] == Pad4(d.year)[0] == Pad2(d.year / 100)[0];
    assert s[9] == Pad2(d.day)[1];
  }

  /** Ends of a text that begins with a canonical date; the text is then left as it is by `Strip`. */
  lemma CanonicalStrip(s: string, d: Date, last: nat)
    requires d.Valid() && 10 <= |s| && s[..10] == DateText(d)
    requires last == |s| - 1 && IsDigit(s[last])
    ensures Strip(s) == s
  {
    DateTextEnds(d);
    assert s[0] == s[..10][0];
    StripCanonical(s);
  }

  lemma ParsedByFirst(s: string, i: Instant)
    requires Strip(s) == s && Parse(s, DtFormats[0]) == Ok(i)
    ensures ParseDateTime(s) == Ok(i)
  {
    FirstParseHit(s, 0, i);
  }

  lemma ParsedBySecond(s: string, i: Instant)
    requires Strip(s) == s && Parse(s, DtFormats[0]).Err? && Parse(s, DtFormats[1]) == Ok(i)
    ensures ParseDateTime(s) == Ok(i)
  {
    FirstParseSkip(s, 0);
    FirstParseHit(s, 1, i);
  }

  lemma ParsedByThird(s: string, i: Instant)
    requires Strip(s) == s && Parse(s, DtFormats[0]).Err? && Parse(s, DtFormats[1]).Err?
    requires Parse(s, DtFormats[2]) == Ok(i)
    ensures ParseDateTime(s) == Ok(i)
  {
    FirstParseSkip(s, 0);
    FirstParseSkip(s, 1);
    FirstParseHit(s, 2, i);
  }

  /** A canonical date text parses, with the first format, to that day at midnight. */
  lemma ParseDateText(d: Date)
    requires d.Valid()
    ensures ParseDateTime(DateText(d)) == Ok(Instant(d.year, d.month, d.day, 0, 0, 0))
  {
    var s := DateText(d);
    assert s[..10] == s;
    DateTextEnds(d);
    CanonicalStrip(s, d, 9);
    FirstFormatReads(s, d);
    ParsedByFirst(s, Instant(d.year, d.month, d.day, 0, 0, 0));
  }

  lemma MinuteTextReads(s: string, i: Instant)
    requires i.Valid() && s == MinuteText(i)
    ensures Strip(s) == s && Parse(s, DtFormats[0]).Err? && Parse(s, DtFormats[1]) == Ok(ToMinute(i))
  {
    assert s[..16] == s;
    MinuteTextParts(s, i);
    assert s[15] == Pad2(i.minute)[1];
    CanonicalStrip(s, i.DayOf(), 15);
    FirstFormatReads(s, i.DayOf());
    SecondFormatReads(s, i);
  }

  /** The first two formats leave characters over on any text longer than the minute form. */
  lemma LongerTextReads(s: string, i: Instant)
    requires i.Valid() && 16 < |s| && s[..16] == MinuteText(i) && IsDigit(s[|s| - 1])
    ensures Strip(s) == s && Parse(s, DtFormats[0]).Err? && Parse(s, DtFormats[1]).Err?
  {
    MinuteTextParts(s, i);
    CanonicalStrip(s, i.DayOf(), |s| - 1);
    FirstFormatReads(s, i.DayOf());
    SecondFormatReads(s, i);
  }

  lemma SecondTextShape(i: Instant)
    requires i.Valid()
    ensures SecondText(i)[..16] == MinuteText(i) && IsDigit(SecondText(i)[18])
  {
    assert SecondText(i)[18] == Pad2(i.second)[1];
  }

  /** A canonical date-and-minute text fails the first format and parses with the second. */
  lemma ParseMinuteText(i: Instant)
    requires i.Valid()
    ensures ParseDateTime(MinuteText(i)) == Ok(ToMinute(i))
  {
    MinuteTextReads(MinuteText(i), i);
    ParsedBySecond(MinuteText(i), ToMinute(i));
  }

  /** A canonical text with seconds fails the first two formats and parses exactly with the third. */
  lemma ParseSecondText(i: Instant)
    requires i.Valid()
    ensures ParseDateTime(SecondText(i)) == Ok(i)
  {
    SecondTextShape(i);
    LongerTextReads(SecondText(i), i);
    ThirdFormatReads(SecondText(i), i);
    ParsedByThird(SecondText(i), i);
  }

  lemma FmtRoundTrip(i: Instant)
    requires i.Valid()
    ensures ParseDateTime(Fmt(i)) == Ok(ToMinute(i))
  {
    if i.IsMidnight() {
      ParseDateText(i.DayOf());
    } else {
      ParseMinuteText(i);
    }
  }

  /** A well-formed `YYYY-MM-DD` text naming a real day. */
  predicate WellFormedDateText(s: string) {
    |s| == 10 && DigitAt(s, 0) && DigitAt(s, 1) && DigitAt(s, 2) && DigitAt(s, 3) && s[4] == '-'
    && DigitAt(s, 5) && DigitAt(s, 6) && s[7] == '-' && DigitAt(s, 8) && DigitAt(s, 9)
    && TextDate(s).Valid()
  }

  /** The day a `YYYY-MM-DD` text names, digit by digit. */
  function TextDate(s: string): Date
    requires |s| == 10 && DigitAt(s, 0) && DigitAt(s, 1) && DigitAt(s, 2) && DigitAt(s, 3)
    requires DigitAt(s, 5) && DigitAt(s, 6) && DigitAt(s, 8) && DigitAt(s, 9)
  {
    Date(100 * Two(s, 0) + Two(s, 2), Two(s, 5), Two(s, 8))
  }

  lemma Pad2OfTwo(s: string, p: nat)
    requires DigitAt(s, p) && DigitAt(s, p + 1)
    ensures Pad2(Two(s, p)) == s[p..p + 2]
  {
    assert DigitChar(DigitValue(s[p])) == s[p];
    assert DigitChar(DigitValue(s[p + 1])) == s[p + 1];
  }

  /** A year below 10000 is written as its two hundreds digits and its two last digits. */
  lemma Pad4Split(hi: int, lo: int)
    requires 0 <= hi <= 99 && 0 <= lo <= 99
    ensures Pad4(100 * hi + lo) == Pad2(hi) + Pad2(lo)
  {
    assert (100 * hi + lo) / 100 == hi && (100 * hi + lo) % 100 == lo;
  }

  /** Writing back the day a well-formed date text names gives the text itself. */
  lemma DateTextOfTextDate(s: string)
    requires WellFormedDateText(s)
    ensures DateText(TextDate(s)) == s
  {
    var d := TextDate(s);
    Pad2OfTwo(s, 0);
    Pad2OfTwo(s, 2);
    Pad2OfTwo(s, 5);
    Pad2OfTwo(s, 8);
    Pad4Split(Two(s, 0), Two(s, 2));
    assert s[..4] == s[0..2] + s[2..4];
    assert s == s[..4] + "-" + s[5..7] + "-" + s[8..10];
  }

  /** `fmt(parse_dt(s)) == s` for every well-formed date-only text. */
  lemma DateTextRoundTrip(s: string)
    requires WellFormedDateText(s)
    ensures ParseDateTime(s).Ok? && ParseDateTime(s).value.IsMidnight()
    ensures Fmt(ParseDateTime(s).value) == s
  {
    var d := TextDate(s);
    DateTextOfTextDate(s);
    ParseDateText(d);
    assert Instant(d.year, d.month, d.day, 0, 0, 0).DayOf() == d;
  }

  /** The empty text matches none of the formats. */
  lemma EmptyTextRejected()
    ensures ParseDateTime("") == Err(InvalidFormat(""))
  {
    CompiledFormats();
    assert MatchFrom(DateDirectives, "", 0, Defaults).None?;
    assert MatchFrom(DateDirectives + MinuteDirectives, "", 0, Defaults).None?;
    assert MatchFrom(DateDirectives + MinuteDirectives + SecondDirectives, "", 0, Defaults).None?;
    FirstParseSkip("", 0);
    FirstParseSkip("", 1);
    FirstParseSkip("", 2);
  }
}
