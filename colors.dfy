/**
  The colour helpers of the theme: `_hex_to_rgb` reads `#RRGGBB` into three
  integers with `int(…, 16)` on the slices `[0:2]`, `[2:4]` and `[4:6]` after
  dropping every leading `#`, and `_rgb_to_hex` writes three integers back
  with the format `#{r:02X}{g:02X}{b:02X}`.
 */
module Colors {
  import opened Wrappers
  import opened Text

  /** `ValueError: invalid literal for int() with base 16: '…'`, with the offending slice. */
  datatype ColorError = InvalidHexLiteral(text: string)

  predicate IsHexDigit(c: char) {
    '0' <= c <= '9' || 'a' <= c <= 'f' || 'A' <= c <= 'F'
  }

  /** The digits `%X` writes. */
  predicate IsUpperHexDigit(c: char) {
    '0' <= c <= '9' || 'A' <= c <= 'F'
  }

  predicate AllHex(s: string) {
    forall k :: 0 <= k < |s| ==> IsHexDigit(s[k])
  }

  function HexDigitValue(c: char): (v: int)
    requires IsHexDigit(c)
    ensures 0 <= v < 16
  {
    if c <= '9' then c as int - '0' as int
    else if c <= 'F' then c as int - 'A' as int + 10
    else c as int - 'a' as int + 10
  }

  function HexDigitChar(v: int): (c: char)
    requires 0 <= v < 16
    ensures IsUpperHexDigit(c) && IsHexDigit(c) && HexDigitValue(c) == v
  {
    if v < 10 then ('0' as int + v) as char else ('A' as int + v - 10) as char
  }

  /** The number a run of base-16 digits spells, most significant first. */
  function HexValue(ds: string): (v: int)
    requires AllHex(ds)
    ensures 0 <= v
    decreases |ds|
  {
    if ds == [] then 0 else HexValue(ds[..|ds| - 1]) * 16 + HexDigitValue(ds[|ds| - 1])
  }

  /** Python's `s[i:j]` for `0 <= i <= j`: the bounds are clipped to the text. */
  function Slice(s: string, i: nat, j: nat): (r: string)
    requires i <= j
    ensures |r| <= j - i
    ensures j <= |s| ==> r == s[i..j]
  {
    var lo := if i < |s| then i else |s|;
    var hi := if j < |s| then j else |s|;
    s[lo..hi]
  }

  /** `h.lstrip("#")`. */
  function StripHashes(h: string): (r: string)
    ensures r == [] || r[0] != '#'
    ensures |r| <= |h| && r == h[|h| - |r|..]
    ensures forall i :: 0 <= i < |h| - |r| ==> h[i] == '#'
  {
    if h != [] && h[0] == '#' then StripHashes(h[1..]) else h
  }

  /**
    The whitespace `int()` skips around its digits. An ASCII character is
    skipped only when it is a tab, a line feed, a vertical tab, a form feed, a
    carriage return or a space, so the separators U+001C to U+001F that
    `str.isspace` accepts are not. Any other character `str.isspace` accepts is
    first turned into a space, and so is skipped.
   */
  predicate IsIntSpace(c: char) {
    IsSpace(c) && !('\U{1C}' <= c <= '\U{1F}')
  }

  /** The number of `int()` whitespace characters `x` starts with. */
  function IntLead(x: string): (n: nat)
    ensures n <= |x|
    ensures forall k :: 0 <= k < n ==> IsIntSpace(x[k])
    ensures n < |x| ==> !IsIntSpace(x[n])
  {
    if x != [] && IsIntSpace(x[0]) then 1 + IntLead(x[1..]) else 0
  }

  /** The text `int()` reads its sign and digits from: the input without surrounding `int()` whitespace. */
  function IntStrip(x: string): (r: string)
    ensures |r| <= |x|
    ensures r != [] ==> !IsIntSpace(r[0]) && !IsIntSpace(r[|r| - 1])
    ensures x != [] && !IsIntSpace(x[0]) && !IsIntSpace(x[|x| - 1]) ==> r == x
    decreases |x|
  {
    if x != [] && IsIntSpace(x[0]) then IntStrip(x[1..])
    else if x != [] && IsIntSpace(x[|x| - 1]) then IntStrip(x[..|x| - 1])
    else x
  }

  /**
    What `IntStrip` keeps is the slice of the input after its leading `int()`
    whitespace, and only `int()` whitespace follows it: nothing but that
    whitespace is dropped.
   */
  lemma {:induction false} IntStripSpec(x: string)
    ensures IntLead(x) + |IntStrip(x)| <= |x|
    ensures IntStrip(x) == x[IntLead(x)..IntLead(x) + |IntStrip(x)|]
    ensures forall k :: IntLead(x) + |IntStrip(x)| <= k < |x| ==> IsIntSpace(x[k])
    decreases |x|
  {
    if x != [] && IsIntSpace(x[0]) {
      var y := x[1..];
      IntStripSpec(y);
      assert IntStrip(x) == IntStrip(y);
      assert IntLead(x) == IntLead(y) + 1;
      ShiftSlice(x, IntLead(y), IntStrip(y));
    } else if x != [] && IsIntSpace(x[|x| - 1]) {
      IntStripSpec(x[..|x| - 1]);
      IntStripBack(x);
    }
  }

  /** A slice of `x[1..]` followed only by spaces is the same slice of `x`, one further on. */
  lemma ShiftSlice(x: string, n: nat, r: string)
    requires x != [] && n + |r| <= |x| - 1 && r == x[1..][n..n + |r|]
    requires forall k :: n + |r| <= k < |x| - 1 ==> IsIntSpace(x[1..][k])
    ensures r == x[n + 1..n + 1 + |r|]
    ensures forall k :: n + 1 + |r| <= k < |x| ==> IsIntSpace(x[k])
  {
    forall k | n + 1 + |r| <= k < |x|
      ensures IsIntSpace(x[k])
    {
      assert x[k] == x[1..][k - 1];
    }
  }

  /** The step of `IntStripSpec` that drops a trailing space after a non-space. */
  lemma IntStripBack(x: string)
    requires x != [] && !IsIntSpace(x[0]) && IsIntSpace(x[|x| - 1])
    requires var y, r := x[..|x| - 1], IntStrip(x[..|x| - 1]);
      && IntLead(y) + |r| <= |y| && r == y[IntLead(y)..IntLead(y) + |r|]
      && forall k :: IntLead(y) + |r| <= k < |y| ==> IsIntSpace(y[k])
    ensures IntLead(x) + |IntStrip(x)| <= |x|
    ensures IntStrip(x) == x[IntLead(x)..IntLead(x) + |IntStrip(x)|]
    ensures forall k :: IntLead(x) + |IntStrip(x)| <= k < |x| ==> IsIntSpace(x[k])
  {
    var y, r := x[..|x| - 1], IntStrip(x);
    assert r == IntStrip(y);
    assert IntLead(x) == 0;
    assert |x| >= 2 && y[0] == x[0];
    assert IntLead(y) == 0;
    assert y[..|r|] == x[..|r|];
    forall k | |r| <= k < |x|
      ensures IsIntSpace(x[k])
    {
      if k < |x| - 1 {
        assert x[k] == y[k];
      }
    }
  }


  /** One or two base-16 digits spell at most 255, and one digit at most 15. */
  lemma SmallHexValue(ds: string)
    requires AllHex(ds) && |ds| <= 2
    ensures HexValue(ds) <= if |ds| <= 1 then 15 else 255
  {
    if |ds| == 2 {
      TwoDigits(ds);
    } else if |ds| == 1 {
      assert ds[..0] == [];
    }
  }

  /**
    `int(x, 16)` for the texts of at most two characters `_hex_to_rgb` hands it:
    surrounding whitespace is ignored, one sign is allowed, and at least one
    base-16 digit must remain.
   */
  function IntBase16(x: string): (r: Result<int, ColorError>)
    requires |x| <= 2
    ensures var t := IntStrip(x);
      r.Ok? <==> (t != [] && AllHex(t)) || (|t| >= 2 && (t[0] == '+' || t[0] == '-') && AllHex(t[1..]))
    ensures var t := IntStrip(x); t != [] && AllHex(t) ==> r == Ok(HexValue(t))
    ensures var t := IntStrip(x); |t| >= 2 && t[0] == '+' && AllHex(t[1..]) ==> r == Ok(HexValue(t[1..]))
    ensures var t := IntStrip(x); |t| >= 2 && t[0] == '-' && AllHex(t[1..]) ==> r == Ok(-HexValue(t[1..]))
    ensures r.Err? ==> r.error == InvalidHexLiteral(x)
    ensures AllHex(x) && x != [] ==> r == Ok(HexValue(x))
    ensures r.Ok? ==> -15 <= r.value <= 255
  {
    var t := IntStrip(x);
    if t != [] && (t[0] == '+' || t[0] == '-') then
      var ds := t[1..];
      if ds != [] && AllHex(ds) then
        SmallHexValue(ds);
        Ok(if t[0] == '-' then -HexValue(ds) else HexValue(ds))
      else Err(InvalidHexLiteral(x))
    else if t != [] && AllHex(t) then
      SmallHexValue(t);
      Ok(HexValue(t))
    else
      Err(InvalidHexLiteral(x))
  }

  /** A field holding a separator character that `str.isspace` accepts still does not read. */
  lemma SeparatorNotSkipped()
    ensures IntBase16("\U{1C}F") == Err(InvalidHexLiteral("\U{1C}F"))
    ensures IntBase16(" F") == Ok(15)
  {
    assert IntStrip(" F") == IntStrip("F") == "F";
    assert AllHex("F") && "F"[..0] == [];
  }

  /** `_hex_to_rgb`: the red, green and blue fields, or the first field that does not read. */
  function HexToRgb(h: string): (r: Result<(int, int, int), ColorError>)
    ensures r.Ok? ==> -15 <= r.value.0 <= 255 && -15 <= r.value.1 <= 255 && -15 <= r.value.2 <= 255
    ensures |StripHashes(h)| <= 4 ==> r.Err?
  {
    Fields(StripHashes(h))
  }

  /** `int(s[0:2], 16), int(s[2:4], 16), int(s[4:6], 16)` on the text left after the hashes. */
  function Fields(s: string): (r: Result<(int, int, int), ColorError>)
    ensures r.Ok? ==> -15 <= r.value.0 <= 255 && -15 <= r.value.1 <= 255 && -15 <= r.value.2 <= 255
    ensures |s| <= 4 ==> r.Err?
  {
    match IntBase16(Slice(s, 0, 2))
    case Err(e) => Err(e)
    case Ok(red) =>
      match IntBase16(Slice(s, 2, 4))
      case Err(e) => Err(e)
      case Ok(green) =>
        match IntBase16(Slice(s, 4, 6))
        case Err(e) => Err(e)
        case Ok(blue) => Ok((red, green, blue))
  }

  /** The shortest `%X` text of a non-negative number. */
  function HexDigits(n: nat): (r: string)
    ensures r != [] && AllHex(r) && HexValue(r) == n
    ensures forall k :: 0 <= k < |r| ==> IsUpperHexDigit(r[k])
  {
    if n < 16 then [HexDigitChar(n)]
    else
      var r := HexDigits(n / 16) + [HexDigitChar(n % 16)];
      assert r[..|r| - 1] == HexDigits(n / 16);
      r
  }

  /** `format(n, "02X")`: zero-padded to two characters, a minus sign counting toward the width. */
  function Hex02(n: int): string {
    if n < 0 then "-" + HexDigits(-n)
    else if n < 16 then "0" + HexDigits(n)
    else HexDigits(n)
  }

  /**
    `_rgb_to_hex`. Its text for components in 0..255 is described by
    `RgbToHexShape`, and `HexRoundTrip` reads it back.
   */
  function RgbToHex(r: int, g: int, b: int): (s: string)
    ensures s != [] && s[0] == '#'
  {
    "#" + Hex02(r) + Hex02(g) + Hex02(b)
  }

  // ---- the codec for components in 0..255 ----

  /** A component in 0..255 is written as exactly two upper-case digits that read back as it. */
  lemma Hex02Byte(n: int)
    requires 0 <= n <= 255
    ensures |Hex02(n)| == 2 && AllHex(Hex02(n)) && HexValue(Hex02(n)) == n
    ensures IsUpperHexDigit(Hex02(n)[0]) && IsUpperHexDigit(Hex02(n)[1])
  {
    if n < 16 {
      var s := Hex02(n);
      assert s == ['0', HexDigitChar(n)];
      assert s[..1] == ['0'];
    } else {
      assert HexDigits(n) == HexDigits(n / 16) + [HexDigitChar(n % 16)];
    }
  }

  /** For components in 0..255 the text is `#` and six upper-case hex digits. */
  lemma RgbToHexShape(r: int, g: int, b: int)
    requires 0 <= r <= 255 && 0 <= g <= 255 && 0 <= b <= 255
    ensures |RgbToHex(r, g, b)| == 7 && RgbToHex(r, g, b)[0] == '#'
    ensures forall k :: 1 <= k < 7 ==> IsUpperHexDigit(RgbToHex(r, g, b)[k])
  {
    Hex02Byte(r);
    Hex02Byte(g);
    Hex02Byte(b);
  }

  /** A two-digit text reads as sixteen times its first digit plus its second. */
  lemma TwoDigits(x: string)
    requires |x| == 2 && AllHex(x)
    ensures HexValue(x) == HexDigitValue(x[0]) * 16 + HexDigitValue(x[1])
    ensures 0 <= HexValue(x) <= 255
  {
    var a := x[..1];
    assert a[..0] == [];
    assert HexValue(a) == HexDigitValue(x[0]);
  }

  /** Six hex digits after any `#`s read as three fields in 0..255, two digits each. */
  lemma SixDigitsDecode(h: string)
    requires var s := StripHashes(h); |s| >= 6 && AllHex(s[0..2]) && AllHex(s[2..4]) && AllHex(s[4..6])
    ensures var s := StripHashes(h);
      HexToRgb(h) == Ok((HexValue(s[0..2]), HexValue(s[2..4]), HexValue(s[4..6])))
    ensures HexToRgb(h).Ok?
      && 0 <= HexToRgb(h).value.0 <= 255 && 0 <= HexToRgb(h).value.1 <= 255 && 0 <= HexToRgb(h).value.2 <= 255
  {
    SixDigitFields(StripHashes(h));
  }

  /** Six hex digits read as three fields in 0..255, two digits each. */
  lemma SixDigitFields(s: string)
    requires |s| >= 6 && AllHex(s[0..2]) && AllHex(s[2..4]) && AllHex(s[4..6])
    ensures Fields(s) == Ok((HexValue(s[0..2]), HexValue(s[2..4]), HexValue(s[4..6])))
    ensures 0 <= HexValue(s[0..2]) <= 255 && 0 <= HexValue(s[2..4]) <= 255 && 0 <= HexValue(s[4..6]) <= 255
  {
    var a, b, c := s[0..2], s[2..4], s[4..6];
    TwoDigits(a);
    TwoDigits(b);
    TwoDigits(c);
    assert Slice(s, 0, 2) == a && Slice(s, 2, 4) == b && Slice(s, 4, 6) == c;
  }

  /** Reading what `_rgb_to_hex` wrote gives back the three components. */
  lemma HexRoundTrip(r: int, g: int, b: int)
    requires 0 <= r <= 255 && 0 <= g <= 255 && 0 <= b <= 255
    ensures HexToRgb(RgbToHex(r, g, b)) == Ok((r, g, b))
  {
    Hex02Byte(r);
    Hex02Byte(g);
    Hex02Byte(b);
    var fields := Hex02(r) + Hex02(g) + Hex02(b);
    assert RgbToHex(r, g, b) == "#" + fields;
    HashIgnored(fields);
    FieldsDecode(Hex02(r), Hex02(g), Hex02(b));
  }

  /** The upper-case form of a hex digit, as `%X` writes it. */
  function UpperHexDigit(c: char): (u: char)
    requires IsHexDigit(c)
    ensures IsUpperHexDigit(u) && HexDigitValue(u) == HexDigitValue(c)
  {
    if 'a' <= c <= 'f' then (c as int - 'a' as int + 'A' as int) as char else c
  }

  /** Writing a digit's value gives the digit back in upper case. */
  lemma DigitRewrite(c: char)
    requires IsHexDigit(c)
    ensures HexDigitChar(HexDigitValue(c)) == UpperHexDigit(c)
  {
  }

  /** `%02X` of a value below 256 is its two base-16 digits. */
  lemma Hex02Digits(d0: int, d1: int)
    requires 0 <= d0 < 16 && 0 <= d1 < 16
    ensures Hex02(d0 * 16 + d1) == [HexDigitChar(d0), HexDigitChar(d1)]
  {
    var v := d0 * 16 + d1;
    Base16Split(d0, d1);
    if d0 == 0 {
      assert Hex02(v) == "0" + [HexDigitChar(d1)];
    } else {
      assert HexDigits(v) == HexDigits(d0) + [HexDigitChar(d1)];
    }
  }

  /** Sixteen times a digit plus a digit divides back into the two digits. */
  lemma Base16Split(d0: int, d1: int)
    requires 0 <= d0 < 16 && 0 <= d1 < 16
    ensures (d0 * 16 + d1) / 16 == d0 && (d0 * 16 + d1) % 16 == d1
  {
  }

  /** Writing what a two-digit field reads as gives the field back in upper case. */
  lemma PairRewrite(x: string)
    requires |x| == 2 && AllHex(x)
    ensures Hex02(HexValue(x)) == [UpperHexDigit(x[0]), UpperHexDigit(x[1])]
  {
    TwoDigits(x);
    DigitRewrite(x[0]);
    DigitRewrite(x[1]);
    Hex02Digits(HexDigitValue(x[0]), HexDigitValue(x[1]));
  }

  /** Three two-digit fields side by side read as their three values. */
  lemma FieldsDecode(p0: string, p1: string, p2: string)
    requires |p0| == 2 && |p1| == 2 && |p2| == 2 && AllHex(p0) && AllHex(p1) && AllHex(p2)
    ensures HexToRgb(p0 + p1 + p2) == Ok((HexValue(p0), HexValue(p1), HexValue(p2)))
  {
    var h := p0 + p1 + p2;
    assert StripHashes(h) == h;
    assert Slice(h, 0, 2) == p0 && Slice(h, 2, 4) == p1 && Slice(h, 4, 6) == p2;
  }

  /**
    Writing the three values read from six digits gives the digits back, in
    upper case: with `FieldsDecode`, `_rgb_to_hex(*_hex_to_rgb(h))` is `h`
    upper-cased behind a `#`.
   */
  lemma FieldsRewrite(p0: string, p1: string, p2: string)
    requires |p0| == 2 && |p1| == 2 && |p2| == 2 && AllHex(p0) && AllHex(p1) && AllHex(p2)
    ensures RgbToHex(HexValue(p0), HexValue(p1), HexValue(p2))
      == ['#', UpperHexDigit(p0[0]), UpperHexDigit(p0[1]), UpperHexDigit(p1[0]),
               UpperHexDigit(p1[1]), UpperHexDigit(p2[0]), UpperHexDigit(p2[1])]
  {
    PairRewrite(p0);
    PairRewrite(p1);
    PairRewrite(p2);
  }

  /** A leading `#` is ignored, so any number of them is. */
  lemma HashIgnored(h: string)
    ensures HexToRgb("#" + h) == HexToRgb(h)
  {
    assert ("#" + h)[1..] == h;
  }

  /** The three-digit shorthand is not understood: its blue field is the empty slice. */
  lemma ShorthandRejected()
    ensures HexToRgb("#FFF") == Err(InvalidHexLiteral(""))
  {
    var s := "FFF";
    assert "#FFF"[1..] == s && StripHashes(s) == s;
    assert Slice(s, 0, 2) == "FF" && Slice(s, 2, 4) == "F" && Slice(s, 4, 6) == "";
    assert AllHex("FF") && AllHex("F");
    assert IntBase16("FF").Ok? && IntBase16("F").Ok?;
    assert IntBase16("") == Err(InvalidHexLiteral(""));
  }

  /** A two-character field that is a minus sign and a digit reads as a negative number. */
  lemma NegativeField(x: string)
    requires |x| == 2 && x[0] == '-' && IsHexDigit(x[1])
    ensures IntBase16(x) == Ok(-HexDigitValue(x[1]))
  {
    var ds := x[1..];
    assert ds == [x[1]] && ds[..0] == [];
    assert AllHex(ds) && HexValue(ds) == HexDigitValue(x[1]);
  }

  /** A sign inside a field is accepted by `int`, so a malformed colour can still read. */
  lemma SignedFieldReads()
    ensures HexToRgb("-1FFFF") == Ok((-1, 255, 255))
  {
    var h := "-1FFFF";
    assert StripHashes(h) == h;
    assert Slice(h, 0, 2) == "-1" && Slice(h, 2, 4) == "FF" && Slice(h, 4, 6) == "FF";
    NegativeField("-1");
    TwoDigits("FF");
  }

  /** A component above 255 widens the text beyond seven characters. */
  lemma WideComponent()
    ensures RgbToHex(256, 0, 0) == "#1000000"
  {
    assert HexDigits(16) == HexDigits(1) + ['0'] == "10";
    assert HexDigits(256) == HexDigits(16) + ['0'] == "100";
    assert Hex02(0) == "00";
  }
}
