/** `hex_to_rgb` of app/background_removal.py: strip every leading '#', then
    read the slices [0:2], [2:4] and [4:6] with Python's `int(field, 16)`. */
module HexColor {
  import opened Results

  /** The tuple returned by hex_to_rgb, in the order of the three slices. */
  type Rgb = (int, int, int)

  /** A string of n '#' characters. */
  function Hashes(n: nat): (r: string)
    ensures |r| == n && forall k :: 0 <= k < n ==> r[k] == '#'
  {
    if n == 0 then [] else ['#'] + Hashes(n - 1)
  }

  /** `s.lstrip('#')`: a suffix of s that does not start with '#'. */
  function StripHashes(s: string): (r: string)
    ensures |r| <= |s|
    ensures r == [] || r[0] != '#'
  {
    if |s| > 0 && s[0] == '#' then StripHashes(s[1..]) else s
  }

  /** What lstrip removes is a run of '#' and nothing else. */
  lemma {:induction false} StripHashesSplits(s: string)
    ensures s == Hashes(|s| - |StripHashes(s)|) + StripHashes(s)
  {
    if |s| > 0 && s[0] == '#' {
      StripHashesSplits(s[1..]);
      assert s == ['#'] + s[1..];
    } else {
      assert s == Hashes(0) + s;
    }
  }

  /** Python's slice `s[i:i+2]`, clamped to the end of s. */
  function Field(s: string, i: nat): (r: string)
    ensures |r| <= 2
    ensures i + 2 <= |s| ==> r == s[i..i + 2]
    ensures i < |s| < i + 2 ==> r == s[i..]
    ensures |s| <= i ==> r == []
  {
    var lo := if i < |s| then i else |s|;
    var hi := if i + 2 < |s| then i + 2 else |s|;
    s[lo..hi]
  }

  predicate IsHexDigit(c: char)
  {
    '0' <= c <= '9' || 'a' <= c <= 'f' || 'A' <= c <= 'F'
  }

  predicate AllHexDigits(s: string)
  {
    forall k :: 0 <= k < |s| ==> IsHexDigit(s[k])
  }

  function DigitValue(c: char): (d: nat)
    requires IsHexDigit(c)
    ensures d < 16
  {
    if '0' <= c <= '9' then c as nat - '0' as nat
    else if 'a' <= c <= 'f' then c as nat - 'a' as nat + 10
    else c as nat - 'A' as nat + 10
  }

  function Pow16(n: nat): (p: nat)
    ensures p >= 1
  {
    if n == 0 then 1 else 16 * Pow16(n - 1)
  }

  /** The value of a string of hex digits, most significant digit first. */
  function DigitsValue(ds: string): (v: nat)
    requires AllHexDigits(ds)
    ensures v < Pow16(|ds|)
  {
    if ds == [] then 0 else 16 * DigitsValue(ds[..|ds| - 1]) + DigitValue(ds[|ds| - 1])
  }

  /** The ASCII characters Python's int() skips around its digits: the
      C-locale whitespace tab, line feed, vertical tab, form feed, carriage
      return and space. An ASCII string reaches the digit parser unchanged,
      so the separators 0x1C..0x1F, which str.isspace() accepts, are not skipped. */
  predicate IsSpace(c: char)
  {
    c == ' ' || 9 <= c as int <= 13
  }

  function TrimStart(s: string): (r: string)
    ensures |r| <= |s|
    ensures r == [] || !IsSpace(r[0])
  {
    if |s| > 0 && IsSpace(s[0]) then TrimStart(s[1..]) else s
  }

  function TrimEnd(s: string): (r: string)
    ensures |r| <= |s|
    ensures r == [] || !IsSpace(r[|r| - 1])
  {
    if |s| > 0 && IsSpace(s[|s| - 1]) then TrimEnd(s[..|s| - 1]) else s
  }

  /** At least one hex digit and nothing else: the value, else None. */
  function ParseDigits(ds: string): (r: Option<nat>)
  {
    if ds != [] && AllHexDigits(ds) then Some(DigitsValue(ds)) else None
  }

  /** An optional sign followed by hex digits. */
  function ParseSigned(t: string): (r: Option<int>)
  {
    if |t| > 0 && (t[0] == '+' || t[0] == '-') then
      match ParseDigits(t[1..])
      case None => None
      case Some(v) => Some(if t[0] == '-' then -(v as int) else v as int)
    else
      match ParseDigits(t)
      case None => None
      case Some(v) => Some(v as int)
  }

  /** Python's `int(f, 16)` on an ASCII string: surrounding whitespace, an
      optional sign and at least one hex digit; None where Python raises
      ValueError. */
  function ParseHexInt(f: string): (r: Option<int>)
    ensures f == [] ==> r == None
  {
    ParseSigned(TrimEnd(TrimStart(f)))
  }

  /** `hex_to_rgb(hex_color)`: Err(ValueError) as soon as one slice is not an integer. */
  function HexToRgb(hexColor: string): (r: Result<Rgb>)
  {
    FieldsToRgb(StripHashes(hexColor))
  }

  /** The three slices of an already stripped code, each read with int(., 16). */
  function FieldsToRgb(h: string): (r: Result<Rgb>)
  {
    var c0 := ParseHexInt(Field(h, 0));
    var c1 := ParseHexInt(Field(h, 2));
    var c2 := ParseHexInt(Field(h, 4));
    if c0.Some? && c1.Some? && c2.Some? then Ok((c0.value, c1.value, c2.value)) else Err(ValueError)
  }

  /** A parsed slice of at most two characters lies in -15..255: two digits
      give at most 0xFF, and a sign leaves room for one digit only. */
  lemma {:induction false} FieldRange(f: string)
    requires |f| <= 2
    ensures ParseHexInt(f).Some? ==> -15 <= ParseHexInt(f).value <= 255
  {
  }

  /** Every component hex_to_rgb returns lies in -15..255; a component is
      negative only when its slice carries a minus sign. */
  lemma {:induction false} HexToRgbRange(hexColor: string)
    ensures HexToRgb(hexColor).Ok? ==>
      var (c0, c1, c2) := HexToRgb(hexColor).value;
      -15 <= c0 <= 255 && -15 <= c1 <= 255 && -15 <= c2 <= 255
  {
    var h := StripHashes(hexColor);
    FieldRange(Field(h, 0));
    FieldRange(Field(h, 2));
    FieldRange(Field(h, 4));
  }

  /** Fewer than five characters after the '#'s leave the slice [4:6] empty,
      and int('', 16) raises. */
  lemma {:induction false} HexToRgbTooShort(hexColor: string)
    requires |StripHashes(hexColor)| < 5
    ensures HexToRgb(hexColor) == Err(ValueError)
  {
  }

  lemma {:induction false} StripHashesAfterHashes(n: nat, s: string)
    ensures StripHashes(Hashes(n) + s) == StripHashes(s)
  {
    if n > 0 {
      assert (Hashes(n) + s)[0] == '#';
      assert (Hashes(n) + s)[1..] == Hashes(n - 1) + s;
      StripHashesAfterHashes(n - 1, s);
    } else {
      assert Hashes(0) + s == s;
    }
  }

  /** lstrip removes every leading '#', however many there are. */
  lemma {:induction false} HexToRgbIgnoresHashes(n: nat, hexColor: string)
    ensures HexToRgb(Hashes(n) + hexColor) == HexToRgb(hexColor)
  {
    StripHashesAfterHashes(n, hexColor);
  }

  lemma {:induction false} StripHashesAppend(s: string, t: string)
    requires StripHashes(s) != []
    ensures StripHashes(s + t) == StripHashes(s) + t
  {
    if s[0] == '#' {
      assert (s + t)[1..] == s[1..] + t;
      StripHashesAppend(s[1..], t);
    } else {
      assert (s + t)[0] == s[0];
    }
  }

  /** Only the first six characters after the '#'s are read. */
  lemma {:induction false} HexToRgbIgnoresTail(hexColor: string, tail: string)
    requires |StripHashes(hexColor)| >= 6
    ensures HexToRgb(hexColor + tail) == HexToRgb(hexColor)
  {
    var h := StripHashes(hexColor);
    StripHashesAppend(hexColor, tail);
    assert Field(h + tail, 0) == Field(h, 0);
    assert Field(h + tail, 2) == Field(h, 2);
    assert Field(h + tail, 4) == Field(h, 4);
  }

  lemma {:induction false} TrimmedAlready(f: string)
    requires f != [] && !IsSpace(f[0]) && !IsSpace(f[|f| - 1])
    ensures TrimEnd(TrimStart(f)) == f
  {
  }

  lemma {:induction false} TwoDigitsValue(f: string)
    requires |f| == 2 && AllHexDigits(f)
    ensures DigitsValue(f) == 16 * DigitValue(f[0]) + DigitValue(f[1])
  {
  }

  /** A slice of two hex digits is read as 16 * first + second. */
  lemma {:induction false} TwoDigitField(f: string)
    requires |f| == 2 && AllHexDigits(f)
    ensures ParseHexInt(f) == Some(16 * DigitValue(f[0]) + DigitValue(f[1]))
  {
    TrimmedAlready(f);
    TwoDigitsValue(f);
    assert f[0] != '+' && f[0] != '-';
  }

  /** Six hex digits after the '#'s: each component is the value of its pair
      of digits and lies in 0..255. */
  lemma {:induction false} HexToRgbWellFormed(hexColor: string)
    requires |StripHashes(hexColor)| >= 6 && AllHexDigits(StripHashes(hexColor)[..6])
    ensures var h := StripHashes(hexColor);
      HexToRgb(hexColor) == Ok((16 * DigitValue(h[0]) + DigitValue(h[1]),
                                16 * DigitValue(h[2]) + DigitValue(h[3]),
                                16 * DigitValue(h[4]) + DigitValue(h[5])))
    ensures var (c0, c1, c2) := HexToRgb(hexColor).value;
      0 <= c0 <= 255 && 0 <= c1 <= 255 && 0 <= c2 <= 255
  {
    var h := StripHashes(hexColor);
    PairField(h, 0);
    PairField(h, 2);
    PairField(h, 4);
  }

  /** The slice at an even offset below 6 of a string whose first six
      characters are hex digits. */
  lemma {:induction false} PairField(h: string, i: nat)
    requires |h| >= 6 && AllHexDigits(h[..6]) && i + 2 <= 6
    ensures IsHexDigit(h[i]) && IsHexDigit(h[i + 1])
    ensures ParseHexInt(Field(h, i)) == Some(16 * DigitValue(h[i]) + DigitValue(h[i + 1]))
  {
    assert h[..6][i] == h[i] && h[..6][i + 1] == h[i + 1];
    var f := Field(h, i);
    assert f[0] == h[i] && f[1] == h[i + 1];
    TwoDigitField(f);
  }

  lemma {:induction false} HexToRgbRed()
    ensures HexToRgb("#FF0000") == Ok((255, 0, 0))
  {
    var h := "FF0000";
    assert "#FF0000"[1..] == h;
    assert StripHashes(h) == h;
    assert Field(h, 0) == "FF" && Field(h, 2) == "00" && Field(h, 4) == "00";
    TwoDigitField("FF");
    TwoDigitField("00");
  }

  lemma {:induction false} HexToRgbGreen()
    ensures HexToRgb("00FF00") == Ok((0, 255, 0))
  {
    var h := "00FF00";
    assert StripHashes(h) == h;
    assert Field(h, 0) == "00" && Field(h, 2) == "FF" && Field(h, 4) == "00";
    TwoDigitField("FF");
    TwoDigitField("00");
  }

  /** The default argument of remove_background names white. */
  lemma {:induction false} HexToRgbWhite()
    ensures HexToRgb("#FFFFFF") == Ok((255, 255, 255))
  {
    var h := "FFFFFF";
    assert "#FFFFFF"[1..] == h;
    assert StripHashes(h) == h;
    assert Field(h, 0) == "FF" && Field(h, 2) == "FF" && Field(h, 4) == "FF";
    TwoDigitField("FF");
  }

  /** Malformed codes raise instead of falling back to white. */
  lemma {:induction false} HexToRgbRejects()
    ensures HexToRgb("zzz") == Err(ValueError)
    ensures HexToRgb("#") == Err(ValueError)
    ensures HexToRgb("zzzzzz") == Err(ValueError)
  {
    HexToRgbTooShort("zzz");
    HexToRgbTooShort("#");
    assert StripHashes("zzzzzz") == "zzzzzz";
    var f := Field("zzzzzz", 0);
    assert f == "zz";
    TrimmedAlready(f);
    assert !IsHexDigit(f[0]);
  }

  /** The ASCII separator 0x1C is not whitespace to int(), so a code that
      starts with it raises. */
  lemma {:induction false} HexToRgbRejectsSeparator()
    ensures HexToRgb("\U{1C}f0000") == Err(ValueError)
  {
    var h := "\U{1C}f0000";
    assert StripHashes(h) == h;
    var f := Field(h, 0);
    assert f == "\U{1C}f";
    TrimmedAlready(f);
    assert !IsHexDigit(f[0]) && f[0] != '+' && f[0] != '-';
  }

  /** A one-character slice (the last one of a five-character code) is read
      as a single digit. */
  lemma {:induction false} OneDigitField(f: string)
    requires |f| == 1 && IsHexDigit(f[0])
    ensures ParseHexInt(f) == Some(DigitValue(f[0]))
  {
  }

  /** int() accepts a sign in front of the digit. */
  lemma {:induction false} SignedField(f: string)
    requires |f| == 2 && (f[0] == '+' || f[0] == '-') && IsHexDigit(f[1])
    ensures ParseHexInt(f) == Some(if f[0] == '-' then -(DigitValue(f[1]) as int) else DigitValue(f[1]) as int)
  {
  }

  /** int() skips whitespace around the digit. */
  lemma {:induction false} SpacedField(f: string)
    requires |f| == 2 && IsSpace(f[0]) && IsHexDigit(f[1])
    ensures ParseHexInt(f) == Some(DigitValue(f[1]))
  {
    assert TrimStart(f) == TrimStart(f[1..]);
    OneDigitField(f[1..]);
  }

  lemma {:induction false} HexToRgbShort()
    ensures HexToRgb("12345") == Ok((0x12, 0x34, 5))
  {
    var h := "12345";
    assert StripHashes(h) == h;
    assert Field(h, 0) == "12" && Field(h, 2) == "34" && Field(h, 4) == "5";
    TwoDigitField("12");
    TwoDigitField("34");
    OneDigitField("5");
  }

  lemma {:induction false} HexToRgbSignsAndSpaces()
    ensures HexToRgb(" f+1-2") == Ok((15, 1, -2))
  {
    var h := " f+1-2";
    assert StripHashes(h) == h;
    assert Field(h, 0) == " f" && Field(h, 2) == "+1" && Field(h, 4) == "-2";
    SpacedField(" f");
    SignedField("+1");
    SignedField("-2");
  }
}
