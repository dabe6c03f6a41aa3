/** The matte-colour option: `parse_color` reads `#RRGGBB` or `R,G,B` and
    falls back to white whenever the text is anything else or a conversion
    fails. */
module ColorSpec {
  import opened Common
  import opened Decimal

  /** Python's `str.isspace()`: the characters `str.strip()` removes. */
  predicate IsSpace(c: char) {
    ('\t' <= c <= '\r') || ('\U{1C}' <= c <= '\U{1F}') || c == ' ' || c == '\U{85}'
    || c == '\U{A0}' || c == '\U{1680}' || ('\U{2000}' <= c <= '\U{200A}')
    || c == '\U{2028}' || c == '\U{2029}' || c == '\U{202F}' || c == '\U{205F}' || c == '\U{3000}'
  }

  predicate AllSpace(w: string) {
    forall i :: 0 <= i < |w| ==> IsSpace(w[i])
  }

  /** `s.lstrip()`: the longest suffix of `s` that does not start with white space. */
  function TrimLeft(s: string): (r: string)
    ensures |r| <= |s| && r == s[|s| - |r|..]
    ensures AllSpace(s[..|s| - |r|])
    ensures |r| > 0 ==> !IsSpace(r[0])
  {
    if |s| > 0 && IsSpace(s[0]) then TrimLeft(s[1..]) else s
  }

  /** `s.rstrip()`: the longest prefix of `s` that does not end with white space. */
  function TrimRight(s: string): (r: string)
    ensures |r| <= |s| && r == s[..|r|]
    ensures AllSpace(s[|r|..])
    ensures |r| > 0 ==> !IsSpace(r[|r| - 1])
  {
    if |s| > 0 && IsSpace(s[|s| - 1]) then TrimRight(s[..|s| - 1]) else s
  }

  /** `s.strip()`. */
  function Strip(s: string): (r: string)
    ensures |r| > 0 ==> !IsSpace(r[0]) && !IsSpace(r[|r| - 1])
  {
    TrimRight(TrimLeft(s))
  }

  lemma {:induction false} TrimLeftSpaces(w: string, s: string)
    requires AllSpace(w)
    ensures TrimLeft(w + s) == TrimLeft(s)
  {
    if |w| > 0 {
      assert (w + s)[1..] == w[1..] + s;
      TrimLeftSpaces(w[1..], s);
    } else {
      assert w + s == s;
    }
  }

  lemma {:induction false} TrimRightSpaces(s: string, w: string)
    requires AllSpace(w)
    ensures TrimRight(s + w) == TrimRight(s)
  {
    if |w| > 0 {
      assert (s + w)[..|s + w| - 1] == s + w[..|w| - 1];
      TrimRightSpaces(s, w[..|w| - 1]);
    } else {
      assert s + w == s;
    }
  }

  /** Trimming the left of `s + w` when `w` is white space: either `s` was
      all white space, or the trailing `w` survives untouched. */
  lemma {:induction false} TrimLeftAppend(s: string, w: string)
    requires AllSpace(w)
    ensures TrimLeft(s + w) == (if TrimLeft(s) == [] then [] else TrimLeft(s) + w)
  {
    if |s| == 0 {
      assert s + w == w;
      TrimLeftAll(w);
    } else if IsSpace(s[0]) {
      assert (s + w)[1..] == s[1..] + w;
      TrimLeftAppend(s[1..], w);
    }
  }

  lemma {:induction false} TrimLeftAll(w: string)
    requires AllSpace(w)
    ensures TrimLeft(w) == []
  {
    if |w| > 0 {
      TrimLeftAll(w[1..]);
    }
  }

  lemma {:induction false} TrimRightAll(w: string)
    requires AllSpace(w)
    ensures TrimRight(w) == []
  {
    if |w| > 0 {
      TrimRightAll(w[..|w| - 1]);
    }
  }

  /** White space around a string does not change what `strip()` returns. */
  lemma StripIgnoresPadding(w1: string, s: string, w2: string)
    requires AllSpace(w1) && AllSpace(w2)
    ensures Strip(w1 + s + w2) == Strip(s)
  {
    assert w1 + s + w2 == w1 + (s + w2);
    TrimLeftSpaces(w1, s + w2);
    TrimLeftAppend(s, w2);
    if TrimLeft(s) == [] {
      TrimRightAll([]);
    } else {
      TrimRightSpaces(TrimLeft(s), w2);
    }
  }

  /** A string that neither starts nor ends with white space is its own strip. */
  lemma StripUnpadded(s: string)
    requires |s| > 0 ==> !IsSpace(s[0]) && !IsSpace(s[|s| - 1])
    ensures Strip(s) == s
  {
  }

  /** One hexadecimal digit of either case. */
  function HexDigitValue(c: char): (d: Option<nat>)
    ensures d.Some? <==> IsDigit(c) || 'a' <= c <= 'f' || 'A' <= c <= 'F'
    ensures d.Some? ==> d.value < 16
  {
    if IsDigit(c) then Some(DigitValue(c))
    else if 'a' <= c <= 'f' then Some(c as int - 'a' as int + 10)
    else if 'A' <= c <= 'F' then Some(c as int - 'A' as int + 10)
    else None
  }

  /** `int(pair, 16)` for a two-character pair of hexadecimal digits. */
  function HexPair(p: string): (r: Option<Byte>)
    requires |p| == 2
    ensures r.Some? <==> HexDigitValue(p[0]).Some? && HexDigitValue(p[1]).Some?
    ensures r.Some? ==> r.value == 16 * HexDigitValue(p[0]).value + HexDigitValue(p[1]).value
  {
    var hi, lo := HexDigitValue(p[0]), HexDigitValue(p[1]);
    if hi.Some? && lo.Some? then Some(16 * hi.value + lo.value) else None
  }

  /** The index of the first `c` in `s`. */
  function FirstIndex(s: string, c: char): (i: nat)
    requires c in s
    ensures i < |s| && s[i] == c && c !in s[..i]
  {
    if s[0] == c then 0 else 1 + FirstIndex(s[1..], c)
  }

  /** `s.split(sep)`: the pieces between separators, always at least one. */
  function Split(s: string, sep: char): (parts: seq<string>)
    ensures |parts| >= 1
    ensures forall k :: 0 <= k < |parts| ==> sep !in parts[k]
    decreases |s|
  {
    if sep !in s then [s]
    else
      var i := FirstIndex(s, sep);
      [s[..i]] + Split(s[i + 1..], sep)
  }

  /** `sep.join(parts)`. */
  function Join(parts: seq<string>, sep: char): string
    requires |parts| >= 1
  {
    if |parts| == 1 then parts[0] else parts[0] + [sep] + Join(parts[1..], sep)
  }

  /** Splitting undoes joining pieces that hold no separator. */
  lemma {:induction false} SplitJoin(parts: seq<string>, sep: char)
    requires |parts| >= 1
    requires forall k :: 0 <= k < |parts| ==> sep !in parts[k]
    ensures Split(Join(parts, sep), sep) == parts
  {
    if |parts| > 1 {
      var s := Join(parts, sep);
      var p := parts[0];
      assert s == p + [sep] + Join(parts[1..], sep);
      assert s[|p|] == sep;
      assert s[..|p|] == p;
      assert FirstIndex(s, sep) == |p|;
      assert s[|p| + 1..] == Join(parts[1..], sep);
      SplitJoin(parts[1..], sep);
    }
  }

  /** Joining undoes splitting. */
  lemma {:induction false} JoinSplit(s: string, sep: char)
    ensures Join(Split(s, sep), sep) == s
    decreases |s|
  {
    if sep in s {
      var i := FirstIndex(s, sep);
      var rest := Split(s[i + 1..], sep);
      var parts := Split(s, sep);
      assert parts == [s[..i]] + rest;
      assert parts[0] == s[..i] && parts[1..] == rest;
      JoinSplit(s[i + 1..], sep);
      assert Join(parts, sep) == s[..i] + [sep] + Join(rest, sep);
      assert s == s[..i] + [sep] + s[i + 1..];
    }
  }

  /** The `#RRGGBB` notation after stripping: seven characters, the first `#`. */
  predicate HashForm(t: string) {
    |t| == 7 && t[0] == '#'
  }

  /** The `#RRGGBB` branch: white unless all three pairs are hexadecimal. */
  function HashColor(t: string): Rgb
    requires HashForm(t)
  {
    var r, g, b := HexPair(t[1..3]), HexPair(t[3..5]), HexPair(t[5..7]);
    if r.Some? && g.Some? && b.Some? then Rgb(r.value, g.value, b.value) else White
  }

  /** The `R,G,B` branch: white unless there are three parts, each an
      integer once stripped; each integer is clamped. */
  function DecimalColor(parts: seq<string>): Rgb {
    if |parts| == 3 then
      var r, g, b := ParseInt(Strip(parts[0])), ParseInt(Strip(parts[1])), ParseInt(Strip(parts[2]));
      if r.Some? && g.Some? && b.Some? then Rgb(Clamp(r.value), Clamp(g.value), Clamp(b.value))
      else White
    else White
  }

  function ParseColor(s: string): (c: Rgb)
    ensures c != White ==> HashForm(Strip(s)) || |Split(Strip(s), ',')| == 3
  {
    var t := Strip(s);
    if HashForm(t) then HashColor(t) else DecimalColor(Split(t, ','))
  }

  /** A `#` form is never read as decimal: if any of its six characters is
      not a hexadecimal digit the result is white. */
  lemma HashFormInvalidIsWhite(s: string, k: nat)
    requires HashForm(Strip(s)) && 1 <= k < 7
    requires HexDigitValue(Strip(s)[k]).None?
    ensures ParseColor(s) == White
  {
    var t := Strip(s);
    if k < 3 {
      assert t[1..3][k - 1] == t[k];
    } else if k < 5 {
      assert t[3..5][k - 3] == t[k];
    } else {
      assert t[5..7][k - 5] == t[k];
    }
  }

  /** A `#` form whose three pairs are hexadecimal digits, in either case,
      gives the three pairs' values. */
  lemma HashFormValid(s: string)
    requires HashForm(Strip(s))
    requires HexPair(Strip(s)[1..3]).Some? && HexPair(Strip(s)[3..5]).Some? && HexPair(Strip(s)[5..7]).Some?
    ensures ParseColor(s)
            == Rgb(HexPair(Strip(s)[1..3]).value, HexPair(Strip(s)[3..5]).value, HexPair(Strip(s)[5..7]).value)
  {
  }

  /** Three parts of which one is not an integer give white. */
  lemma DecimalColorWhite(parts: seq<string>, j: nat)
    requires |parts| == 3 && j < 3
    requires ParseInt(Strip(parts[j])).None?
    ensures DecimalColor(parts) == White
  {
    if j == 0 {
      assert ParseInt(Strip(parts[0])).None?;
    } else if j == 1 {
      assert ParseInt(Strip(parts[1])).None?;
    } else {
      assert ParseInt(Strip(parts[2])).None?;
    }
  }

  /** Three comma-separated parts of which one is not an integer give white. */
  lemma NonIntegerPartIsWhite(s: string, j: nat)
    requires !HashForm(Strip(s)) && |Split(Strip(s), ',')| == 3 && j < 3
    requires ParseInt(Strip(Split(Strip(s), ',')[j])).None?
    ensures ParseColor(s) == White
  {
    DecimalColorWhite(Split(Strip(s), ','), j);
  }

  /** Outside the `#` form, a text without exactly two commas is white. */
  lemma WrongArityIsWhite(s: string)
    requires !HashForm(Strip(s))
    requires |Split(Strip(s), ',')| != 3
    ensures ParseColor(s) == White
  {
  }

  /** White space around the option's text is ignored. */
  lemma ParseIgnoresPadding(w1: string, s: string, w2: string)
    requires AllSpace(w1) && AllSpace(w2)
    ensures ParseColor(w1 + s + w2) == ParseColor(s)
  {
    StripIgnoresPadding(w1, s, w2);
  }

  function HexDigitChar(d: nat): (c: char)
    requires d < 16
    ensures HexDigitValue(c) == Some(d)
  {
    if d < 10 then DigitChar(d) else ('A' as int + d - 10) as char
  }

  /** The two upper-case hexadecimal digits of a byte. */
  function HexByte(x: Byte): (p: string)
    ensures |p| == 2 && HexPair(p) == Some(x)
  {
    [HexDigitChar(x / 16), HexDigitChar(x % 16)]
  }

  /** `#RRGGBB`, the notation of the option's default `#FFFFFF`. */
  function FormatHex(c: Rgb): (s: string)
    ensures |s| == 7
  {
    "#" + HexByte(c.r) + HexByte(c.g) + HexByte(c.b)
  }

  /** `R,G,B` in decimal. */
  function FormatDecimal(c: Rgb): string {
    NatToDecimal(c.r) + "," + NatToDecimal(c.g) + "," + NatToDecimal(c.b)
  }

  /** Every colour written as `#RRGGBB` parses back to itself. */
  lemma HexRoundTrip(c: Rgb)
    ensures ParseColor(FormatHex(c)) == c
  {
    var t := FormatHex(c);
    assert !IsSpace(t[0]);
    assert t[6] == HexByte(c.b)[1];
    StripUnpadded(t);
    assert t[1..3] == HexByte(c.r);
    assert t[3..5] == HexByte(c.g);
    assert t[5..7] == HexByte(c.b);
  }

  /** `str(x)` for any integer. */
  function FormatInt(x: int): (s: string)
    ensures |s| >= 1 && ',' !in s && '#' != s[0]
    ensures !IsSpace(s[0]) && !IsSpace(s[|s| - 1])
  {
    if x < 0 then "-" + NatToDecimal(-x) else NatToDecimal(x)
  }

  lemma FormatIntParses(x: int)
    ensures Strip(FormatInt(x)) == FormatInt(x)
    ensures ParseInt(FormatInt(x)) == Some(x)
  {
    StripUnpadded(FormatInt(x));
    if x < 0 {
      ParseIntRoundTrip(-x);
    } else {
      ParseIntRoundTrip(x);
    }
  }

  lemma SplitThree(a: string, b: string, c: string)
    requires ',' !in a && ',' !in b && ',' !in c
    ensures Split(a + "," + b + "," + c, ',') == [a, b, c]
  {
    calc {
      Join([a, b, c], ',');
      a + [','] + Join([b, c], ',');
      { assert [a, b, c][1..] == [b, c]; }
      a + [','] + (b + [','] + Join([c], ','));
      { assert [b, c][1..] == [c]; }
      a + "," + b + "," + c;
    }
    SplitJoin([a, b, c], ',');
  }

  /** Outside the `#` form, three comma-separated parts that each read as an
      integer once stripped give those integers, each clamped to [0, 255]. */
  lemma ParseThreeParts(s: string, a: string, b: string, c: string, x: int, y: int, z: int)
    requires !HashForm(Strip(s)) && Split(Strip(s), ',') == [a, b, c]
    requires ParseInt(Strip(a)) == Some(x) && ParseInt(Strip(b)) == Some(y)
    requires ParseInt(Strip(c)) == Some(z)
    ensures ParseColor(s) == Rgb(Clamp(x), Clamp(y), Clamp(z))
  {
    assert ParseColor(s) == DecimalColor([a, b, c]);
    assert [a, b, c][0] == a && [a, b, c][1] == b && [a, b, c][2] == c;
  }

  /** Three comma-separated integers, whatever their size or sign, give
      each one clamped to [0, 255]. */
  lemma DecimalClamps(x: int, y: int, z: int)
    ensures ParseColor(FormatInt(x) + "," + FormatInt(y) + "," + FormatInt(z))
            == Rgb(Clamp(x), Clamp(y), Clamp(z))
  {
    var a, b, c := FormatInt(x), FormatInt(y), FormatInt(z);
    var t := a + "," + b + "," + c;
    assert t[0] == a[0] && t[|t| - 1] == c[|c| - 1];
    StripUnpadded(t);
    assert !HashForm(t);
    SplitThree(a, b, c);
    FormatIntParses(x);
    FormatIntParses(y);
    FormatIntParses(z);
    ParseThreeParts(t, a, b, c, x, y, z);
  }

  /** Every colour written as `R,G,B` parses back to itself. */
  lemma DecimalRoundTrip(c: Rgb)
    ensures ParseColor(FormatDecimal(c)) == c
  {
    DecimalClamps(c.r, c.g, c.b);
  }

  /** Worked example: `10,20,300` clamps its blue channel. */
  lemma ExampleClamped(s: string)
    requires s == "10,20,300"
    ensures ParseColor(s) == Rgb(10, 20, 255)
  {
    var x, y, z := 10, 20, 300;
    assert FormatInt(x) == "10" by {
      assert NatToDecimal(1) == "1";
    }
    assert FormatInt(y) == "20" by {
      assert NatToDecimal(2) == "2";
    }
    assert FormatInt(z) == "300" by {
      assert NatToDecimal(3) == "3";
      assert NatToDecimal(30) == "30";
    }
    assert FormatInt(x) + "," + FormatInt(y) + "," + FormatInt(z) == s;
    DecimalClamps(x, y, z);
  }

  /** Worked example: `garbage` falls back to white. */
  lemma ExampleGarbage(t: string)
    requires t == "garbage"
    ensures ParseColor(t) == White
  {
    StripUnpadded(t);
    assert ',' !in t by {
      forall i | 0 <= i < |t| ensures t[i] != ',' {}
    }
    WrongArityIsWhite(t);
  }
}
