/**
 * The string operations of the Python runtime that the coordinator relies on:
 * `str.startswith`, `str.split(",")` and `",".join(...)`, `int(s, 16)`,
 * `uuid.UUID.hex` and the decimal rendering of an `int` inside an f-string.
 */
module Text {
  import opened Options

  /** `s.startswith(prefix)`: `s` is `prefix` followed by some rest. */
  predicate StartsWith(s: string, prefix: string)
    ensures StartsWith(s, prefix) <==> exists rest :: s == prefix + rest
  {
    assert |prefix| <= |s| ==> s == s[..|prefix|] + s[|prefix|..];
    |prefix| <= |s| && s[..|prefix|] == prefix
  }

  /** Number of occurrences of `c` in `s`. */
  function Count(s: string, c: char): nat {
    if s == [] then 0 else (if s[0] == c then 1 else 0) + Count(s[1..], c)
  }

  // ---------------------------------------------------------------------------
  // split and join
  // ---------------------------------------------------------------------------

  /**
   * `s.split(sep)` with an explicit one-character separator: every occurrence
   * of the separator cuts, empty pieces are kept, and `"".split(",")` is `[""]`.
   */
  function Split(s: string, sep: char): (parts: seq<string>)
    ensures |parts| == Count(s, sep) + 1
    ensures forall i :: 0 <= i < |parts| ==> sep !in parts[i]
  {
    if s == [] then [[]]
    else
      var rest := Split(s[1..], sep);
      if s[0] == sep then [[]] + rest
      else [[s[0]] + rest[0]] + rest[1..]
  }

  /** `sep.join(parts)`. */
  function Join(parts: seq<string>, sep: char): string {
    if |parts| == 0 then []
    else if |parts| == 1 then parts[0]
    else parts[0] + [sep] + Join(parts[1..], sep)
  }

  lemma JoinPrependChar(c: char, p: string, tail: seq<string>, sep: char)
    ensures Join([[c] + p] + tail, sep) == [c] + Join([p] + tail, sep)
  {
    var l1 := [[c] + p] + tail;
    var l2 := [p] + tail;
    assert l1[1..] == tail == l2[1..];
  }

  /** Joining the pieces of a split gives back the original string. */
  lemma {:induction false} JoinSplit(s: string, sep: char)
    ensures Join(Split(s, sep), sep) == s
  {
    if s != [] {
      var rest := Split(s[1..], sep);
      JoinSplit(s[1..], sep);
      if s[0] == sep {
        var parts := [[]] + rest;
        assert parts[1..] == rest;
        assert Join(parts, sep) == [] + [sep] + Join(rest, sep);
      } else {
        assert rest == [rest[0]] + rest[1..];
        JoinPrependChar(s[0], rest[0], rest[1..], sep);
      }
    }
  }

  /** Splitting a separator-free prefix glued to `t` glues it to the first piece of `t`. */
  lemma {:induction false} SplitPrefix(p: string, t: string, sep: char)
    requires sep !in p
    ensures Split(p + t, sep) == [p + Split(t, sep)[0]] + Split(t, sep)[1..]
  {
    if p != [] {
      assert (p + t)[1..] == p[1..] + t;
      assert (p + t)[0] == p[0];
      SplitPrefix(p[1..], t, sep);
      assert [p[0]] + (p[1..] + Split(t, sep)[0]) == p + Split(t, sep)[0];
    } else {
      assert p + t == t;
      var parts := Split(t, sep);
      assert parts == [parts[0]] + parts[1..];
      assert p + parts[0] == parts[0];
    }
  }

  /** Splitting a join of separator-free pieces gives back the pieces. */
  lemma {:induction false} SplitJoin(parts: seq<string>, sep: char)
    requires |parts| > 0
    requires forall i :: 0 <= i < |parts| ==> sep !in parts[i]
    ensures Split(Join(parts, sep), sep) == parts
  {
    if |parts| == 1 {
      SplitPrefix(parts[0], [], sep);
      assert parts[0] + [] == parts[0];
    } else {
      var tail := Join(parts[1..], sep);
      SplitJoin(parts[1..], sep);
      var rest := [sep] + tail;
      assert Join(parts, sep) == parts[0] + rest;
      assert rest[1..] == tail;
      assert Split(rest, sep) == [[]] + parts[1..];
      SplitPrefix(parts[0], rest, sep);
      assert parts[0] + [] == parts[0];
      assert ([[]] + parts[1..])[1..] == parts[1..];
      assert parts == [parts[0]] + parts[1..];
    }
  }

  // ---------------------------------------------------------------------------
  // int(s, 16)
  // ---------------------------------------------------------------------------

  predicate IsHexDigit(c: char) {
    '0' <= c <= '9' || 'a' <= c <= 'f' || 'A' <= c <= 'F'
  }

  function HexDigitValue(c: char): (v: nat)
    requires IsHexDigit(c)
    ensures v < 16
  {
    if '0' <= c <= '9' then c as int - '0' as int
    else if 'a' <= c <= 'f' then c as int - 'a' as int + 10
    else c as int - 'A' as int + 10
  }

  /** The lower-case digit for `d`, as `uuid.UUID.hex` writes it. */
  function HexChar(d: nat): (c: char)
    requires d < 16
    ensures IsHexDigit(c) && !('A' <= c <= 'F')
    ensures HexDigitValue(c) == d
  {
    if d < 10 then ('0' as int + d) as char else ('a' as int + d - 10) as char
  }

  /**
   * The characters Python's `int()` skips around a number. Below 127 these
   * are only the C white space, 9 to 13 and the space: the separators 28 to
   * 31 count as white space for `str.isspace()` but not for `int()`. Above
   * 127 they are the Unicode white-space code points, which `int()` first
   * turns into spaces.
   */
  predicate IsSpace(c: char) {
    var n := c as int;
    || 9 <= n <= 13 || n == 32
    || n == 0x85 || n == 0xA0 || n == 0x1680
    || 0x2000 <= n <= 0x200A || n == 0x2028 || n == 0x2029
    || n == 0x202F || n == 0x205F || n == 0x3000
  }

  function TrimStart(s: string): (t: string)
    ensures t == [] || !IsSpace(t[0])
    ensures |t| <= |s| && t == s[|s| - |t|..]
  {
    if s != [] && IsSpace(s[0]) then TrimStart(s[1..]) else s
  }

  function TrimEnd(s: string): (t: string)
    ensures t == [] || !IsSpace(t[|t| - 1])
    ensures |t| <= |s| && t == s[..|t|]
  {
    if s != [] && IsSpace(s[|s| - 1]) then TrimEnd(s[..|s| - 1]) else s
  }

  /** `s.strip()` for the white space `int()` skips. */
  function Strip(s: string): string {
    TrimEnd(TrimStart(s))
  }

  predicate IsDigitOrUnderscore(c: char) {
    IsHexDigit(c) || c == '_'
  }

  /** Hex digits, where a single underscore may stand between two digits. */
  predicate WellFormedDigits(s: string) {
    && |s| > 0
    && (forall i :: 0 <= i < |s| ==> IsDigitOrUnderscore(s[i]))
    && (forall i :: 0 <= i < |s| && s[i] == '_' ==> 0 < i < |s| - 1 && IsHexDigit(s[i + 1]))
  }

  /** The value of a digit string, underscores skipped. */
  function DigitsValue(s: string): nat
    requires forall i :: 0 <= i < |s| ==> IsDigitOrUnderscore(s[i])
  {
    if s == [] then 0
    else
      var last := s[|s| - 1];
      assert IsDigitOrUnderscore(last);
      if last == '_' then DigitsValue(s[..|s| - 1])
      else DigitsValue(s[..|s| - 1]) * 16 + HexDigitValue(last)
  }

  /** The digits of `t` once an optional `0x`/`0X` prefix, and one underscore after it, are dropped. */
  function DropHexPrefix(t: string): string {
    if |t| >= 2 && t[0] == '0' && (t[1] == 'x' || t[1] == 'X') then
      if |t| >= 3 && t[2] == '_' then t[3..] else t[2..]
    else t
  }

  /** An unsigned hex numeral with an optional `0x` prefix. */
  function ParseUnsignedHex(u: string): Option<nat> {
    var digits := DropHexPrefix(u);
    if WellFormedDigits(digits) then Some(DigitsValue(digits)) else None
  }

  /** A hex numeral with an optional sign in front. */
  function ParseSignedHex(t: string): Option<int> {
    if |t| > 0 && t[0] == '-' then
      match ParseUnsignedHex(t[1..])
      case Some(v) => Some(-(v as int))
      case None => None
    else if |t| > 0 && t[0] == '+' then
      match ParseUnsignedHex(t[1..])
      case Some(v) => Some(v as int)
      case None => None
    else
      match ParseUnsignedHex(t)
      case Some(v) => Some(v as int)
      case None => None
  }

  /**
   * `int(s, 16)`: surrounding white space, an optional sign, an optional
   * `0x` prefix, then digits; `None` stands for the `ValueError` Python raises.
   */
  function ParseHexInt(s: string): (r: Option<int>)
    ensures AllSpace(s) ==> r == None
  {
    StripBlank(s);
    ParseSignedHex(Strip(s))
  }

  /** Nothing but white space strips to the empty string. */
  lemma StripBlank(s: string)
    ensures AllSpace(s) ==> Strip(s) == []
  {
    if AllSpace(s) {
      assert s + [] == s;
      TrimStartSpaces(s, []);
    }
  }

  function Pow16(k: nat): (p: nat)
    ensures p >= 1
  {
    if k == 0 then 1 else 16 * Pow16(k - 1)
  }

  lemma {:induction false} Pow16Add(a: nat, b: nat)
    ensures Pow16(a + b) == Pow16(a) * Pow16(b)
  {
    if a > 0 {
      Pow16Add(a - 1, b);
      assert Pow16(a + b) == 16 * Pow16(a - 1 + b);
    }
  }

  /** `n` as exactly `width` lower-case hex digits, zero-padded, as `uuid.UUID.hex` renders its 128 bits. */
  function HexString(n: nat, width: nat): (s: string)
    ensures |s| == width
    ensures forall i :: 0 <= i < |s| ==> IsHexDigit(s[i]) && !('A' <= s[i] <= 'F')
  {
    if width == 0 then [] else HexString(n / 16, width - 1) + [HexChar(n % 16)]
  }

  lemma {:induction false} HexStringValue(n: nat, width: nat)
    requires n < Pow16(width)
    ensures DigitsValue(HexString(n, width)) == n
  {
    if width > 0 {
      var s := HexString(n, width);
      var front := HexString(n / 16, width - 1);
      assert s[..|s| - 1] == front;
      HexStringValue(n / 16, width - 1);
    }
  }

  lemma HexDigitIsPlain(c: char)
    requires IsHexDigit(c)
    ensures !IsSpace(c) && c != '-' && c != '+' && c != 'x' && c != 'X' && c != '_'
  {
  }

  /** A non-empty string of hex digits alone. */
  predicate PlainDigits(s: string) {
    |s| > 0 && forall i :: 0 <= i < |s| ==> IsHexDigit(s[i])
  }

  /** `strip()` leaves alone a string that neither starts nor ends with white space. */
  lemma StripUnpadded(t: string)
    requires |t| > 0 && !IsSpace(t[0]) && !IsSpace(t[|t| - 1])
    ensures Strip(t) == t
  {
    assert TrimStart(t) == t;
  }

  /** Without a sign in front, `int(_, 16)` reads the numeral as it stands. */
  lemma UnsignedReading(t: string, v: nat)
    requires |t| > 0 && t[0] != '-' && t[0] != '+' && ParseUnsignedHex(t) == Some(v)
    ensures ParseSignedHex(t) == Some(v as int)
  {
  }

  /** Plain digits are well formed. */
  lemma PlainDigitsWellFormed(s: string)
    requires PlainDigits(s)
    ensures WellFormedDigits(s)
  {
    forall i | 0 <= i < |s| ensures IsDigitOrUnderscore(s[i]) && s[i] != '_' {
      HexDigitIsPlain(s[i]);
    }
  }

  /** `int(_, 16)` reads plain digits as their value. */
  lemma ParsePlainDigits(s: string)
    requires PlainDigits(s)
    ensures WellFormedDigits(s)
    ensures ParseHexInt(s) == Some(DigitsValue(s) as int)
  {
    HexDigitIsPlain(s[0]);
    HexDigitIsPlain(s[|s| - 1]);
    StripUnpadded(s);
    if |s| >= 2 {
      HexDigitIsPlain(s[1]);
    }
    assert DropHexPrefix(s) == s;
    PlainDigitsWellFormed(s);
    UnsignedReading(s, DigitsValue(s));
  }

  /** `int(_, 16)` reads `0x` followed by plain digits as the value of the digits. */
  lemma ParsePrefixedDigits(s: string)
    requires PlainDigits(s)
    ensures ParseHexInt("0x" + s) == Some(DigitsValue(s) as int)
  {
    PlainDigitsWellFormed(s);
    HexDigitIsPlain(s[0]);
    HexDigitIsPlain(s[|s| - 1]);
    var p := "0x" + s;
    assert p[|p| - 1] == s[|s| - 1];
    StripUnpadded(p);
    assert p[2] == s[0] && p[2..] == s;
    assert DropHexPrefix(p) == s;
    UnsignedReading(p, DigitsValue(s));
  }

  lemma TrimStartSpace(c: char, t: string)
    requires IsSpace(c)
    ensures TrimStart([c] + t) == TrimStart(t)
  {
    assert ([c] + t)[1..] == t;
  }

  lemma TrimEndSpace(t: string, c: char)
    requires IsSpace(c)
    ensures TrimEnd(t + [c]) == TrimEnd(t)
  {
    assert (t + [c])[..|t|] == t;
  }

  /** Plain digits are an unsigned numeral without a prefix. */
  lemma PlainUnsigned(s: string)
    requires PlainDigits(s)
    ensures ParseUnsignedHex(s) == Some(DigitsValue(s))
  {
    PlainDigitsWellFormed(s);
    HexDigitIsPlain(s[0]);
    if |s| >= 2 {
      HexDigitIsPlain(s[1]);
    }
    assert DropHexPrefix(s) == s;
  }

  /** A sign in front of an unsigned numeral gives its value or the negation of it. */
  lemma SignedReading(t: string, v: nat)
    requires |t| > 0 && (t[0] == '+' || t[0] == '-') && ParseUnsignedHex(t[1..]) == Some(v)
    ensures t[0] == '+' ==> ParseSignedHex(t) == Some(v as int)
    ensures t[0] == '-' ==> ParseSignedHex(t) == Some(-(v as int))
  {
  }

  /** A `+` in front of plain digits, before any white space is stripped. */
  lemma PlusReading(s: string)
    requires PlainDigits(s)
    ensures ParseSignedHex("+" + s) == Some(DigitsValue(s) as int)
  {
    PlainUnsigned(s);
    var p := "+" + s;
    assert p[1..] == s;
    SignedReading(p, DigitsValue(s));
  }

  /** A `-` in front of plain digits, before any white space is stripped. */
  lemma MinusReading(s: string)
    requires PlainDigits(s)
    ensures ParseSignedHex("-" + s) == Some(-(DigitsValue(s) as int))
  {
    PlainUnsigned(s);
    var m := "-" + s;
    assert m[1..] == s;
    SignedReading(m, DigitsValue(s));
  }

  /** `int(_, 16)` reads plain digits after a `+` as their value. */
  lemma ParsePlusDigits(s: string)
    requires PlainDigits(s)
    ensures ParseHexInt("+" + s) == Some(DigitsValue(s) as int)
  {
    HexDigitIsPlain(s[|s| - 1]);
    var p := "+" + s;
    assert p[|p| - 1] == s[|s| - 1];
    StripUnpadded(p);
    PlusReading(s);
  }

  /** `int(_, 16)` reads plain digits after a `-` as the negation of their value. */
  lemma ParseMinusDigits(s: string)
    requires PlainDigits(s)
    ensures ParseHexInt("-" + s) == Some(-(DigitsValue(s) as int))
  {
    HexDigitIsPlain(s[|s| - 1]);
    var m := "-" + s;
    assert m[|m| - 1] == s[|s| - 1];
    StripUnpadded(m);
    MinusReading(s);
  }

  /** An underscore between digits adds nothing to their value. */
  lemma {:induction false} DigitsValueSkip(a: string, b: string)
    requires forall i :: 0 <= i < |a| ==> IsDigitOrUnderscore(a[i])
    requires forall i :: 0 <= i < |b| ==> IsDigitOrUnderscore(b[i])
    ensures forall i :: 0 <= i < |a + "_" + b| ==> IsDigitOrUnderscore((a + "_" + b)[i])
    ensures DigitsValue(a + "_" + b) == DigitsValue(a + b)
  {
    var t := a + "_" + b;
    assert forall i :: 0 <= i < |t| ==> t[i] == if i < |a| then a[i] else if i == |a| then '_' else b[i - |a| - 1];
    if b == [] {
      assert t[..|t| - 1] == a && a + b == a;
    } else {
      var front := b[..|b| - 1];
      DigitsValueSkip(a, front);
      assert t[..|t| - 1] == a + "_" + front;
      assert (a + b)[..|a + b| - 1] == a + front;
      assert t[|t| - 1] == (a + b)[|a + b| - 1];
    }
  }

  /** Two runs of digits joined by one underscore are well formed, and worth the digits run together. */
  lemma GroupedDigits(a: string, b: string)
    requires PlainDigits(a) && PlainDigits(b)
    ensures WellFormedDigits(a + "_" + b) && PlainDigits(a + b)
    ensures DigitsValue(a + "_" + b) == DigitsValue(a + b)
  {
    var t := a + "_" + b;
    var u := a + b;
    forall i | 0 <= i < |a| ensures IsDigitOrUnderscore(a[i]) && a[i] != '_' { HexDigitIsPlain(a[i]); }
    forall i | 0 <= i < |b| ensures IsDigitOrUnderscore(b[i]) && b[i] != '_' { HexDigitIsPlain(b[i]); }
    DigitsValueSkip(a, b);
    assert forall i :: 0 <= i < |t| ==> t[i] == if i < |a| then a[i] else if i == |a| then '_' else b[i - |a| - 1];
    assert forall i :: 0 <= i < |u| ==> u[i] == if i < |a| then a[i] else b[i - |a|];
  }

  /** Two runs of digits joined by one underscore, before any white space is stripped. */
  lemma GroupedReading(a: string, b: string)
    requires PlainDigits(a) && PlainDigits(b)
    ensures PlainDigits(a + b)
    ensures ParseSignedHex(a + "_" + b) == Some(DigitsValue(a + b) as int)
  {
    var t := a + "_" + b;
    GroupedDigits(a, b);
    HexDigitIsPlain(a[0]);
    if |a| >= 2 {
      HexDigitIsPlain(a[1]);
      assert t[1] == a[1];
    } else {
      assert t[1] == '_';
    }
    assert t[0] == a[0];
    assert DropHexPrefix(t) == t;
    UnsignedReading(t, DigitsValue(t));
  }

  /** `int(_, 16)` reads two runs of digits joined by one underscore as the digits run together. */
  lemma ParseGroupedDigits(a: string, b: string)
    requires PlainDigits(a) && PlainDigits(b)
    ensures ParseHexInt(a + "_" + b) == ParseHexInt(a + b)
  {
    var t := a + "_" + b;
    HexDigitIsPlain(a[0]);
    HexDigitIsPlain(b[|b| - 1]);
    assert t[0] == a[0] && t[|t| - 1] == b[|b| - 1];
    StripUnpadded(t);
    GroupedReading(a, b);
    ParsePlainDigits(a + b);
  }

  /** A run of characters that `int()` skips. */
  predicate AllSpace(w: string) {
    forall i :: 0 <= i < |w| ==> IsSpace(w[i])
  }

  lemma {:induction false} TrimStartSpaces(w: string, t: string)
    requires AllSpace(w)
    ensures TrimStart(w + t) == TrimStart(t)
  {
    if w == [] {
      assert w + t == t;
    } else {
      assert w + t == [w[0]] + (w[1..] + t);
      TrimStartSpace(w[0], w[1..] + t);
      TrimStartSpaces(w[1..], t);
    }
  }

  lemma {:induction false} TrimEndSpaces(t: string, w: string)
    requires AllSpace(w)
    ensures TrimEnd(t + w) == TrimEnd(t)
  {
    if w == [] {
      assert t + w == t;
    } else {
      var front := w[..|w| - 1];
      assert t + w == (t + front) + [w[|w| - 1]];
      TrimEndSpace(t + front, w[|w| - 1]);
      TrimEndSpaces(t, front);
    }
  }

  /** `strip()` removes any white space on either side of a string that has none at its ends. */
  lemma StripPadded(w: string, s: string, v: string)
    requires AllSpace(w) && AllSpace(v)
    requires |s| > 0 && !IsSpace(s[0]) && !IsSpace(s[|s| - 1])
    ensures Strip(w + s + v) == s
  {
    var r := s + v;
    assert w + s + v == w + r;
    TrimStartSpaces(w, r);
    assert r[0] == s[0];
    assert TrimStart(r) == r;
    TrimEndSpaces(s, v);
    assert TrimEnd(s) == s;
  }

  /** `int(_, 16)` reads plain digits with white space on either side as the value of the digits. */
  lemma ParsePaddedDigits(w: string, s: string, v: string)
    requires AllSpace(w) && AllSpace(v) && PlainDigits(s)
    ensures ParseHexInt(w + s + v) == Some(DigitsValue(s) as int)
  {
    HexDigitIsPlain(s[0]);
    HexDigitIsPlain(s[|s| - 1]);
    StripPadded(w, s, v);
    StripUnpadded(s);
    ParsePlainDigits(s);
  }

  /** The separators 28 to 31 are not skipped: a code with one of them in front is a `ValueError`. */
  lemma SeparatorNotSkipped(c: char, s: string)
    requires 28 <= c as int <= 31 && PlainDigits(s)
    ensures ParseHexInt([c] + s) == None
  {
    var t := [c] + s;
    HexDigitIsPlain(s[|s| - 1]);
    assert t[|t| - 1] == s[|s| - 1];
    StripUnpadded(t);
    assert DropHexPrefix(t) == t;
    assert !IsDigitOrUnderscore(t[0]);
  }

  /** Reading back a rendered code with `int(_, 16)` gives the number it was rendered from. */
  lemma ParseHexString(n: nat, width: nat)
    requires 0 < width && n < Pow16(width)
    ensures ParseHexInt(HexString(n, width)) == Some(n)
  {
    ParsePlainDigits(HexString(n, width));
    HexStringValue(n, width);
  }

  /**
   * `int(_, 16)` is not injective on strings: a rendered code with `0x` in
   * front, or with white space around it, names the same number.
   */
  lemma AliasesOfHexString(n: nat, width: nat, w: string, v: string)
    requires 0 < width && n < Pow16(width) && AllSpace(w) && AllSpace(v)
    ensures ParseHexInt("0x" + HexString(n, width)) == Some(n)
    ensures ParseHexInt(w + HexString(n, width) + v) == Some(n)
  {
    ParsePrefixedDigits(HexString(n, width));
    ParsePaddedDigits(w, HexString(n, width), v);
    HexStringValue(n, width);
  }

  // ---------------------------------------------------------------------------
  // Decimal rendering of an int
  // ---------------------------------------------------------------------------

  function DigitChar(d: nat): (c: char)
    requires d < 10
    ensures '0' <= c <= '9' && c as int - '0' as int == d
  {
    ('0' as int + d) as char
  }

  /** The decimal digits of `n`, most significant first, without leading zeros. */
  function NatString(n: nat): (s: string)
    ensures |s| > 0 && (|s| > 1 ==> s[0] != '0')
    ensures forall i :: 0 <= i < |s| ==> '0' <= s[i] <= '9'
  {
    if n < 10 then [DigitChar(n)] else NatString(n / 10) + [DigitChar(n % 10)]
  }

  /** `f"{n}"` for an `int`. */
  function DecimalString(n: int): (s: string)
    ensures n < 0 ==> |s| > 1 && s[0] == '-' && AllDigits(s[1..])
    ensures n >= 0 ==> |s| > 0 && AllDigits(s)
  {
    if n < 0 then "-" + NatString(-n) else NatString(n)
  }

  /** Reference reading of a string of decimal digits. */
  ghost function NatValue(s: string): int
    requires forall i :: 0 <= i < |s| ==> '0' <= s[i] <= '9'
  {
    if s == [] then 0 else NatValue(s[..|s| - 1]) * 10 + (s[|s| - 1] as int - '0' as int)
  }

  ghost predicate AllDigits(s: string) {
    forall i :: 0 <= i < |s| ==> '0' <= s[i] <= '9'
  }

  /** Reference reading of an optionally negative decimal numeral. */
  ghost function DecimalValue(s: string): int {
    if |s| > 0 && s[0] == '-' && AllDigits(s[1..]) then -NatValue(s[1..])
    else if AllDigits(s) then NatValue(s)
    else 0
  }

  lemma {:induction false} NatStringValue(n: nat)
    ensures NatValue(NatString(n)) == n
  {
    if n >= 10 {
      var s := NatString(n);
      assert s[..|s| - 1] == NatString(n / 10);
      NatStringValue(n / 10);
    }
  }

  /** A minus sign followed by digits reads as the negated digits. */
  lemma NegatedValue(t: string)
    requires AllDigits(t)
    ensures DecimalValue("-" + t) == -NatValue(t)
  {
    assert ("-" + t)[1..] == t;
  }

  /** Digits alone read as their value. */
  lemma UnsignedValue(t: string)
    requires |t| > 0 && AllDigits(t)
    ensures DecimalValue(t) == NatValue(t)
  {
    assert t[0] != '-';
  }

  /** The rendered decimal numeral reads back as the number. */
  lemma {:induction false} DecimalRoundTrip(n: int)
    ensures DecimalValue(DecimalString(n)) == n
  {
    if n < 0 {
      NegatedValue(NatString(-n));
      NatStringValue(-n);
    } else {
      UnsignedValue(NatString(n));
      NatStringValue(n);
    }
  }
}
