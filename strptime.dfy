/**
  `datetime.strptime(text, format)` for the directives this program uses
  (`%Y %m %d %H %M %S`), as CPython's `_strptime` carries it out: the format
  is compiled into a regular expression (each directive becomes a fixed set of
  alternatives, each run of whitespace becomes `\s+`, every other character
  matches itself), the expression is matched at the start of the text with
  ordinary backtracking, the FIRST match found must then cover the whole text
  ("unconverted data remains" otherwise), and finally the fields must form a
  valid `datetime` (a real calendar day, second at most 59).
 */
module Strptime {
  import opened Wrappers
  import opened Text
  import opened Dates

  datatype FieldKind = Year | Month | Day | Hour | Minute | Second

  /** One element of a compiled format. */
  datatype Directive = Lit(c: char) | Spaces | Field(kind: FieldKind)

  /** One way a directive can match at a position: how many characters it takes and the number it reads. */
  datatype Alt = Alt(len: nat, value: int)

  /** A successful regex match: the fields read so far and where the match ends. */
  datatype Matched = Matched(fields: Instant, end: nat)

  datatype StrptimeError =
    | BadDirective          // a `%` directive this model does not know, or a stray `%`
    | NoMatch               // "time data ... does not match format ..."
    | UnconvertedData       // "unconverted data remains: ..."
    | OutOfRange            // the `datetime` constructor rejected the fields

  /** What `_strptime` starts from before any directive sets a field. */
  const Defaults := Instant(1900, 1, 1, 0, 0, 0)

  function FieldOf(c: char): Option<FieldKind> {
    if c == 'Y' then Some(Year)
    else if c == 'm' then Some(Month)
    else if c == 'd' then Some(Day)
    else if c == 'H' then Some(Hour)
    else if c == 'M' then Some(Minute)
    else if c == 'S' then Some(Second)
    else None
  }

  /**
    The compilation of a format string into directives: each directive stands
    for at least one character of the format, and only a `%` can make it fail.
   */
  function Compile(f: string): (r: Option<seq<Directive>>)
    ensures r.Some? ==> |r.value| <= |f|
    ensures (forall i :: 0 <= i < |f| ==> f[i] != '%') ==> r.Some?
    decreases |f|
  {
    if f == [] then Some([])
    else if f[0] == '%' then
      if |f| < 2 then None
      else match FieldOf(f[1])
        case None => None
        case Some(k) => Prepend(Field(k), Compile(f[2..]))
    else if IsSpace(f[0]) then
      var rest := TrimStart(f);
      TrimStartSpec(f);
      assert |rest| < |f| by { assert rest != f; }
      Prepend(Spaces, Compile(rest))
    else Prepend(Lit(f[0]), Compile(f[1..]))
  }

  function Prepend(d: Directive, r: Option<seq<Directive>>): (p: Option<seq<Directive>>)
    ensures p.Some? <==> r.Some?
    ensures p.Some? ==> |p.value| == |r.value| + 1
  {
    match r
    case None => None
    case Some(ds) => Some([d] + ds)
  }

  // Character tests at a position that may lie past the end of the text.

  predicate CharAt(s: string, i: nat, c: char) {
    i < |s| && s[i] == c
  }

  predicate InRange(s: string, i: nat, lo: char, hi: char) {
    i < |s| && lo <= s[i] <= hi
  }

  predicate DigitAt(s: string, i: nat) {
    InRange(s, i, '0', '9')
  }

  function Two(s: string, i: nat): int
    requires DigitAt(s, i) && DigitAt(s, i + 1)
  {
    10 * DigitValue(s[i]) + DigitValue(s[i + 1])
  }

  /**
    The alternatives of a directive's regular expression that match at `p`,
    in the order the expression lists them:
    `%Y` is `\d\d\d\d`, `%m` is `1[0-2]|0[1-9]|[1-9]`,
    `%d` is `3[01]|[12]\d|0[1-9]|[1-9]| [1-9]`, `%H` is `2[0-3]|[0-1]\d|\d`,
    `%M` is `[0-5]\d|\d` and `%S` is `6[0-1]|[0-5]\d|\d`.
   */
  function FieldAlts(k: FieldKind, s: string, p: nat): seq<Alt> {
    match k
    case Year =>
      if DigitAt(s, p) && DigitAt(s, p + 1) && DigitAt(s, p + 2) && DigitAt(s, p + 3)
      then [Alt(4, 100 * Two(s, p) + Two(s, p + 2))] else []
    case Month =>
      (if CharAt(s, p, '1') && InRange(s, p + 1, '0', '2') then [Alt(2, Two(s, p))] else [])
      + (if CharAt(s, p, '0') && InRange(s, p + 1, '1', '9') then [Alt(2, Two(s, p))] else [])
      + (if InRange(s, p, '1', '9') then [Alt(1, DigitValue(s[p]))] else [])
    case Day =>
      (if CharAt(s, p, '3') && InRange(s, p + 1, '0', '1') then [Alt(2, Two(s, p))] else [])
      + (if InRange(s, p, '1', '2') && DigitAt(s, p + 1) then [Alt(2, Two(s, p))] else [])
      + (if CharAt(s, p, '0') && InRange(s, p + 1, '1', '9') then [Alt(2, Two(s, p))] else [])
      + (if InRange(s, p, '1', '9') then [Alt(1, DigitValue(s[p]))] else [])
      + (if CharAt(s, p, ' ') && InRange(s, p + 1, '1', '9') then [Alt(2, DigitValue(s[p + 1]))] else [])
    case Hour =>
      (if CharAt(s, p, '2') && InRange(s, p + 1, '0', '3') then [Alt(2, Two(s, p))] else [])
      + (if InRange(s, p, '0', '1') && DigitAt(s, p + 1) then [Alt(2, Two(s, p))] else [])
      + (if DigitAt(s, p) then [Alt(1, DigitValue(s[p]))] else [])
    case Minute =>
      (if InRange(s, p, '0', '5') && DigitAt(s, p + 1) then [Alt(2, Two(s, p))] else [])
      + (if DigitAt(s, p) then [Alt(1, DigitValue(s[p]))] else [])
    case Second =>
      (if CharAt(s, p, '6') && InRange(s, p + 1, '0', '1') then [Alt(2, Two(s, p))] else [])
      + (if InRange(s, p, '0', '5') && DigitAt(s, p + 1) then [Alt(2, Two(s, p))] else [])
      + (if DigitAt(s, p) then [Alt(1, DigitValue(s[p]))] else [])
  }

  /** Length of the run of whitespace starting at `p`. */
  function SpaceRun(s: string, p: nat): (n: nat)
    ensures p + n <= |s| || n == 0
    decreases |s| - p
  {
    if p < |s| && IsSpace(s[p]) then 1 + SpaceRun(s, p + 1) else 0
  }

  /** `\s+` is greedy: the longest run first, then each shorter one down to one character. */
  function SpaceAlts(n: nat): seq<Alt> {
    if n == 0 then [] else [Alt(n, 0)] + SpaceAlts(n - 1)
  }

  function Alts(d: Directive, s: string, p: nat): seq<Alt> {
    match d
    case Lit(c) => if CharAt(s, p, c) then [Alt(1, 0)] else []
    case Spaces => SpaceAlts(SpaceRun(s, p))
    case Field(k) => FieldAlts(k, s, p)
  }

  /** `\s+` offers runs of one to `n` characters. */
  lemma {:induction false} SpaceAltsFit(n: nat)
    ensures forall k :: 0 <= k < |SpaceAlts(n)| ==> SpaceAlts(n)[k].len <= n
  {
    if n > 0 {
      SpaceAltsFit(n - 1);
    }
  }

  /** No alternative of a directive runs past the end of the text. */
  lemma AltsFit(d: Directive, s: string, p: nat)
    ensures Fits(Alts(d, s, p), s, p)
  {
    match d
    case Lit(_) =>
    case Spaces => SpaceAltsFit(SpaceRun(s, p));
    case Field(k) => FieldAltsFit(k, s, p);
  }

  /** Each alternative of a field's expression lies within the text. */
  lemma FieldAltsFit(k: FieldKind, s: string, p: nat)
    ensures Fits(FieldAlts(k, s, p), s, p)
  {
    match k
    case Year =>
    case Month => MonthFit(s, p);
    case Day => DayFit(s, p);
    case Hour => HourFit(s, p);
    case Minute =>
    case Second => SecondFit(s, p);
  }

  // One lemma per field with several alternatives keeps each proof small.

  lemma MonthFit(s: string, p: nat)
    ensures Fits(FieldAlts(Month, s, p), s, p)
  {
  }

  lemma DayFit(s: string, p: nat)
    ensures Fits(FieldAlts(Day, s, p), s, p)
  {
  }

  lemma HourFit(s: string, p: nat)
    ensures Fits(FieldAlts(Hour, s, p), s, p)
  {
  }

  lemma SecondFit(s: string, p: nat)
    ensures Fits(FieldAlts(Second, s, p), s, p)
  {
  }

  /** Record the number a directive read. */
  function Apply(d: Directive, a: Alt, acc: Instant): Instant {
    match d
    case Field(k) =>
      (match k
       case Year => acc.(year := a.value)
       case Month => acc.(month := a.value)
       case Day => acc.(day := a.value)
       case Hour => acc.(hour := a.value)
       case Minute => acc.(minute := a.value)
       case Second => acc.(second := a.value))
    case _ => acc
  }

  /**
    The first match of the directives at `p` in backtracking order, the way
    `re.match` finds it: each directive tries its alternatives in order and
    takes the first one with which the rest of the expression matches.
   */
  function MatchFrom(ds: seq<Directive>, s: string, p: nat, acc: Instant): (r: Option<Matched>)
    ensures r.Some? ==> p <= r.value.end
    decreases |ds|, 0
  {
    if ds == [] then Some(Matched(acc, p))
    else TryAlts(ds[0], ds[1..], s, p, acc, Alts(ds[0], s, p))
  }

  /** Every alternative in `alts` ends within the text. */
  predicate Fits(alts: seq<Alt>, s: string, p: nat) {
    forall k :: 0 <= k < |alts| ==> p + alts[k].len <= |s|
  }

  function TryAlts(d: Directive, rest: seq<Directive>, s: string, p: nat, acc: Instant, alts: seq<Alt>): (r: Option<Matched>)
    ensures r.Some? ==> p <= r.value.end
    decreases |rest|, |alts|
  {
    if alts == [] then None
    else
      var m := MatchFrom(rest, s, p + alts[0].len, Apply(d, alts[0], acc));
      if m.Some? then m else TryAlts(d, rest, s, p, acc, alts[1..])
  }

  /**
    `datetime.strptime` with an already compiled format: the text must be
    matched to its end, and a result is a valid instant.
   */
  function StrptimeCompiled(text: string, ds: seq<Directive>): (r: Result<Instant, StrptimeError>)
    ensures r.Ok? ==> r.value.Valid()
  {
    match MatchFrom(ds, text, 0, Defaults)
    case None => Err(NoMatch)
    case Some(m) =>
      if m.end != |text| then Err(UnconvertedData)
      else if !m.fields.Valid() then Err(OutOfRange)
      else Ok(m.fields)
  }

  /** A match that starts within the text also ends within it. */
  lemma {:induction false} MatchWithin(ds: seq<Directive>, s: string, p: nat, acc: Instant)
    requires p <= |s|
    ensures MatchFrom(ds, s, p, acc).Some? ==> MatchFrom(ds, s, p, acc).value.end <= |s|
    decreases |ds|, 0
  {
    if ds != [] {
      AltsFit(ds[0], s, p);
      TryWithin(ds[0], ds[1..], s, p, acc, Alts(ds[0], s, p));
    }
  }

  lemma {:induction false} TryWithin(d: Directive, rest: seq<Directive>, s: string, p: nat, acc: Instant, alts: seq<Alt>)
    requires p <= |s| && Fits(alts, s, p)
    ensures TryAlts(d, rest, s, p, acc, alts).Some? ==> TryAlts(d, rest, s, p, acc, alts).value.end <= |s|
    decreases |rest|, |alts|
  {
    if alts != [] {
      MatchWithin(rest, s, p + alts[0].len, Apply(d, alts[0], acc));
      TryWithin(d, rest, s, p, acc, alts[1..]);
    }
  }

  /**
    "Unconverted data remains" means the first match stopped short of the
    end of the text, never that it ran past it.
   */
  lemma UnconvertedStopsShort(text: string, ds: seq<Directive>)
    requires StrptimeCompiled(text, ds) == Err(UnconvertedData)
    ensures MatchFrom(ds, text, 0, Defaults).Some?
    ensures MatchFrom(ds, text, 0, Defaults).value.end < |text|
  {
    MatchWithin(ds, text, 0, Defaults);
  }

  /** `datetime.strptime(text, f)`. */
  function Parse(text: string, f: string): (r: Result<Instant, StrptimeError>)
    ensures r.Ok? ==> r.value.Valid()
  {
    match Compile(f)
    case None => Err(BadDirective)
    case Some(ds) => StrptimeCompiled(text, ds)
  }

  /** When a directive's first alternative lets the rest match, that is the match. */
  lemma FirstAltWins(ds: seq<Directive>, s: string, p: nat, acc: Instant)
    requires ds != [] && Alts(ds[0], s, p) != []
    requires MatchFrom(ds[1..], s, p + Alts(ds[0], s, p)[0].len, Apply(ds[0], Alts(ds[0], s, p)[0], acc)).Some?
    ensures MatchFrom(ds, s, p, acc)
         == MatchFrom(ds[1..], s, p + Alts(ds[0], s, p)[0].len, Apply(ds[0], Alts(ds[0], s, p)[0], acc))
  {
    MatchStep(ds, s, p, acc);
    TryFirst(ds[0], ds[1..], s, p, acc, Alts(ds[0], s, p));
  }

  /** One step of the match: the first directive tries its alternatives. */
  lemma MatchStep(ds: seq<Directive>, s: string, p: nat, acc: Instant)
    requires ds != []
    ensures MatchFrom(ds, s, p, acc) == TryAlts(ds[0], ds[1..], s, p, acc, Alts(ds[0], s, p))
  {
  }

  /** The first alternative is taken when the rest matches after it. */
  lemma TryFirst(d: Directive, rest: seq<Directive>, s: string, p: nat, acc: Instant, alts: seq<Alt>)
    requires alts != []
    requires MatchFrom(rest, s, p + alts[0].len, Apply(d, alts[0], acc)).Some?
    ensures TryAlts(d, rest, s, p, acc, alts) == MatchFrom(rest, s, p + alts[0].len, Apply(d, alts[0], acc))
  {
  }
}
