/**
 * String helpers with Python semantics: `str.strip`, `str.split`, `str.endswith`,
 * `int(...)`, `str(int)` and `os.path.join` on POSIX.
 */
module Text {
  import opened Wrappers

  /** Python's `str.isspace` for a single character. */
  predicate IsSpace(c: char)
  {
    var n := c as int;
    (9 <= n <= 13) || (28 <= n <= 32) || n == 0x85 || n == 0xA0 || n == 0x1680
    || (0x2000 <= n <= 0x200A) || n == 0x2028 || n == 0x2029 || n == 0x202F || n == 0x205F
    || n == 0x3000
  }

  predicate AllSpace(s: string)
  {
    forall i :: 0 <= i < |s| ==> IsSpace(s[i])
  }

  /** Drops leading whitespace. */
  function TrimLeft(s: string): (r: string)
    ensures |r| <= |s| && s[|s| - |r|..] == r
    ensures AllSpace(s[..|s| - |r|])
    ensures r == [] || !IsSpace(r[0])
  {
    if s != [] && IsSpace(s[0]) then
      var r := TrimLeft(s[1..]);
      assert forall i :: 1 <= i < |s| - |r| ==> s[i] == s[1..][i - 1];
      r
    else
      s
  }

  /** Drops trailing whitespace. */
  function TrimRight(s: string): (r: string)
    ensures |r| <= |s| && s[..|r|] == r
    ensures AllSpace(s[|r|..])
    ensures r == [] || !IsSpace(r[|r| - 1])
  {
    if s != [] && IsSpace(s[|s| - 1]) then
      var r := TrimRight(s[..|s| - 1]);
      assert forall i :: |r| <= i < |s| - 1 ==> s[i] == s[..|s| - 1][i];
      r
    else
      s
  }

  /** Python's `str.strip()`. */
  function Strip(s: string): string
  {
    TrimRight(TrimLeft(s))
  }

  /** A stripped string is empty exactly when the input is all whitespace (Python: `not s.strip()`). */
  lemma StripEmptyIffAllSpace(s: string)
    ensures Strip(s) == [] <==> AllSpace(s)
  {
    var l := TrimLeft(s);
    if Strip(s) == [] {
      assert AllSpace(l[0..]);
      assert l == [];
      forall i | 0 <= i < |s| ensures IsSpace(s[i]) {
        assert s[i] == s[..|s| - |l|][i];
      }
    } else {
      var r := Strip(s);
      assert r[0] == l[0];
      assert l[0] == s[|s| - |l|];
    }
  }

  /** The result of strip neither starts nor ends with whitespace. */
  lemma StripEnds(s: string)
    ensures var r := Strip(s); r == [] || (!IsSpace(r[0]) && !IsSpace(r[|r| - 1]))
  {
    var l := TrimLeft(s);
    var r := TrimRight(l);
    if r != [] {
      assert r[0] == l[0];
    }
  }

  /** Strip leaves a string alone when it neither starts nor ends with whitespace. */
  lemma StripIdentity(s: string)
    requires s != [] && !IsSpace(s[0]) && !IsSpace(s[|s| - 1])
    ensures Strip(s) == s
  {
    assert TrimLeft(s) == s;
    assert TrimRight(s) == s;
  }

  predicate StartsWith(s: string, prefix: string)
  {
    |prefix| <= |s| && s[..|prefix|] == prefix
  }

  /** Python's `str.endswith`. */
  predicate EndsWith(s: string, suffix: string)
  {
    |suffix| <= |s| && s[|s| - |suffix|..] == suffix
  }

  // ---------------------------------------------------------------------------
  // Splitting and joining on one separator character

  /** Index of the first occurrence of `c`, or `|s|` when there is none. */
  function IndexOf(s: string, c: char): (i: nat)
    ensures i <= |s|
    ensures i < |s| ==> s[i] == c
    ensures forall j :: 0 <= j < i ==> s[j] != c
  {
    if s == [] then 0 else if s[0] == c then 0 else 1 + IndexOf(s[1..], c)
  }

  /** Python's `s.split(sep)` for a one-character separator. */
  function Split(s: string, sep: char): (parts: seq<string>)
    ensures |parts| >= 1
    decreases |s|
  {
    var i := IndexOf(s, sep);
    if i == |s| then [s] else [s[..i]] + Split(s[i + 1..], sep)
  }

  /** `sep.join(parts)`. */
  function Join(parts: seq<string>, sep: char): string
  {
    if parts == [] then "" else if |parts| == 1 then parts[0] else parts[0] + [sep] + Join(parts[1..], sep)
  }

  /** Splitting a joined sequence gives the parts back, provided no part contains the separator. */
  lemma {:induction false} SplitJoin(parts: seq<string>, sep: char)
    requires |parts| >= 1
    requires forall k :: 0 <= k < |parts| ==> sep !in parts[k]
    ensures Split(Join(parts, sep), sep) == parts
  {
    if |parts| == 1 {
      assert Join(parts, sep) == parts[0];
    } else {
      var s := Join(parts, sep);
      var rest := Join(parts[1..], sep);
      assert s == parts[0] + [sep] + rest;
      var i := IndexOf(s, sep);
      IndexOfAfterPrefix(parts[0], sep, rest);
      assert i == |parts[0]|;
      assert s[..i] == parts[0];
      assert s[i + 1..] == rest;
      SplitJoin(parts[1..], sep);
    }
  }

  lemma {:induction false} IndexOfAfterPrefix(p: string, sep: char, rest: string)
    requires sep !in p
    ensures IndexOf(p + [sep] + rest, sep) == |p|
  {
    if p != [] {
      assert (p + [sep] + rest)[1..] == p[1..] + [sep] + rest;
      IndexOfAfterPrefix(p[1..], sep, rest);
    }
  }

  /** `s.split(sep)[0]`: the text before the first separator. */
  function FirstPart(s: string, sep: char): (r: string)
    ensures StartsWith(s, r) && sep !in r
    ensures |r| < |s| ==> s[|r|] == sep
  {
    var r := s[..IndexOf(s, sep)];
    assert forall j :: 0 <= j < |r| ==> r[j] != sep;
    r
  }

  /** One past the last occurrence of `c`, or 0 when there is none. */
  function AfterLast(s: string, c: char): (k: nat)
    ensures k <= |s|
    ensures 0 < k ==> s[k - 1] == c
    ensures forall j :: k <= j < |s| ==> s[j] != c
  {
    if s == [] then 0 else if s[|s| - 1] == c then |s| else AfterLast(s[..|s| - 1], c)
  }

  /** `s.split(sep)[-1]`: the text after the last separator. */
  function LastPart(s: string, sep: char): (r: string)
    ensures EndsWith(s, r) && sep !in r
    ensures |r| < |s| ==> s[|s| - |r| - 1] == sep
  {
    var r := s[AfterLast(s, sep)..];
    assert forall j :: 0 <= j < |r| ==> r[j] != sep;
    r
  }

  /** `s.replace(a, b)` for single characters. */
  function ReplaceChar(s: string, a: char, b: char): (r: string)
    ensures |r| == |s|
    ensures a != b ==> a !in r
    ensures forall i :: 0 <= i < |s| && s[i] != a ==> r[i] == s[i]
    ensures forall i :: 0 <= i < |s| && s[i] == a ==> r[i] == b
  {
    seq(|s|, i requires 0 <= i < |s| => if s[i] == a then b else s[i])
  }

  /** Replacing back undoes a replacement whose new character did not occur before. */
  lemma ReplaceCharUndo(s: string, a: char, b: char)
    requires b !in s
    ensures ReplaceChar(ReplaceChar(s, a, b), b, a) == s
  {
    var r := ReplaceChar(s, a, b);
    forall i | 0 <= i < |s| ensures ReplaceChar(r, b, a)[i] == s[i] {
      assert s[i] != b;
    }
  }

  // ---------------------------------------------------------------------------
  // Decimal integers: `str(n)` and the parsing done by `int(s)` and by pydantic

  predicate IsDigit(c: char)
  {
    '0' <= c <= '9'
  }

  predicate AllDigits(s: string)
  {
    forall i :: 0 <= i < |s| ==> IsDigit(s[i])
  }

  function DigitValue(c: char): nat
    requires IsDigit(c)
  {
    c as int - '0' as int
  }

  function DigitChar(d: nat): (c: char)
    requires d < 10
    ensures IsDigit(c) && DigitValue(c) == d
  {
    ('0' as int + d) as char
  }

  /** Value of a string of ASCII digits, most significant first. */
  function DigitsValue(s: string): nat
    requires AllDigits(s)
  {
    if s == [] then 0 else DigitsValue(s[..|s| - 1]) * 10 + DigitValue(s[|s| - 1])
  }

  /** Canonical decimal digits of a natural number. */
  function NatDigits(n: nat): (s: string)
    ensures |s| >= 1 && AllDigits(s)
  {
    if n < 10 then [DigitChar(n)] else NatDigits(n / 10) + [DigitChar(n % 10)]
  }

  /** Python's `str(n)` for an int. */
  function DecimalString(n: int): string
  {
    if n < 0 then "-" + NatDigits(-n) else NatDigits(n)
  }

  /** An optional sign followed by one or more ASCII digits. */
  function ParseDecimal(s: string): (r: Option<int>)
    ensures r.Some? ==> |s| >= 1
  {
    if |s| >= 2 && s[0] == '-' && AllDigits(s[1..]) then Some(-(DigitsValue(s[1..]) as int))
    else if |s| >= 2 && s[0] == '+' && AllDigits(s[1..]) then Some(DigitsValue(s[1..]))
    else if |s| >= 1 && AllDigits(s) then Some(DigitsValue(s))
    else None
  }

  lemma {:induction false} DigitsValueOfNatDigits(n: nat)
    ensures DigitsValue(NatDigits(n)) == n
  {
    if n >= 10 {
      var s := NatDigits(n);
      assert s[..|s| - 1] == NatDigits(n / 10);
      DigitsValueOfNatDigits(n / 10);
    }
  }

  /** `str` and decimal parsing are inverse: the text written for an integer reads back as it. */
  lemma DecimalRoundTrip(n: int)
    ensures ParseDecimal(DecimalString(n)) == Some(n)
  {
    if n < 0 {
      DigitsValueOfNatDigits(-n);
      assert DecimalString(n)[1..] == NatDigits(-n);
    } else {
      DigitsValueOfNatDigits(n);
    }
  }

  /**
   * Python's default bound on the digits of a decimal integer string
   * (`sys.get_int_max_str_digits()`): `int` raises ValueError beyond it.
   */
  const MaxStrDigits := 4300

  /** The number of digits `str(n)` writes. */
  function DigitCount(n: int): nat
  {
    |NatDigits(if n < 0 then -n else n)|
  }

  /**
   * Python's `int(s)` in base 10: surrounding whitespace is ignored, a sign is allowed,
   * single underscores may separate digits, and at most `MaxStrDigits` digits are read.
   */
  function PyInt(s: string): Option<int>
  {
    SignedDigitGroups(Strip(s))
  }

  /** An optional sign followed by digit groups. */
  function SignedDigitGroups(t: string): Option<int>
  {
    if |t| >= 1 && (t[0] == '-' || t[0] == '+') then
      match DigitGroups(t[1..])
      case Some(v) => Some(if t[0] == '-' then -(v as int) else v)
      case None => None
    else
      match DigitGroups(t)
      case Some(v) => Some(v)
      case None => None
  }

  /**
   * Digits with single underscores between them; their value. More than `MaxStrDigits`
   * digits, underscores not counted, are refused.
   */
  function DigitGroups(s: string): (r: Option<nat>)
    ensures r.Some? ==> |s| >= 1 && IsDigit(s[0]) && IsDigit(s[|s| - 1])
    ensures r.Some? ==> |DropUnderscores(s)| <= MaxStrDigits
  {
    if |s| >= 1 && IsDigit(s[0]) && IsDigit(s[|s| - 1])
      && (forall i :: 0 <= i < |s| ==> IsDigit(s[i]) || s[i] == '_')
      && (forall i :: 0 <= i < |s| - 1 ==> !(s[i] == '_' && s[i + 1] == '_'))
      && |DropUnderscores(s)| <= MaxStrDigits
    then
      DropUnderscoresDigits(s);
      Some(DigitsValue(DropUnderscores(s)))
    else None
  }

  /** `s` with every underscore removed. */
  function DropUnderscores(s: string): (r: string)
    ensures '_' !in s ==> r == s
  {
    if s == [] then [] else (if s[0] == '_' then [] else [s[0]]) + DropUnderscores(s[1..])
  }

  lemma DigitGroupsOfDigits(d: string)
    requires |d| >= 1 && AllDigits(d) && |d| <= MaxStrDigits
    ensures DigitGroups(d) == Some(DigitsValue(d))
  {
    NoUnderscoreInDigits(d);
    forall i | 0 <= i < |d| ensures IsDigit(d[i]) || d[i] == '_' {
      assert IsDigit(d[i]);
    }
    forall i | 0 <= i < |d| - 1 ensures !(d[i] == '_' && d[i + 1] == '_') {
      assert IsDigit(d[i]);
    }
  }

  lemma NoUnderscoreInDigits(d: string)
    requires AllDigits(d)
    ensures '_' !in d
  {
    forall i | 0 <= i < |d| ensures d[i] != '_' {
      assert IsDigit(d[i]);
    }
  }

  /** `int` refuses a string of more than `MaxStrDigits` digits: Python raises ValueError. */
  lemma PyIntRefusesLong(s: string)
    requires AllDigits(s) && |s| > MaxStrDigits
    ensures PyInt(s) == None
  {
    assert IsDigit(s[0]) && IsDigit(s[|s| - 1]);
    StripIdentity(s);
    NoUnderscoreInDigits(s);
  }

  /**
   * `int(str(n)) == n`, within Python's digit bound: the integer a COPY line writes reads back
   * as the same integer.
   */
  lemma PyIntOfDecimal(n: int)
    requires DigitCount(n) <= MaxStrDigits
    ensures PyInt(DecimalString(n)) == Some(n)
  {
    var m: nat := if n < 0 then -n else n;
    var d := NatDigits(m);
    var s := DecimalString(n);
    assert s[|s| - 1] == d[|d| - 1];
    assert !IsSpace(s[0]) && !IsSpace(s[|s| - 1]);
    StripIdentity(s);
    SignedOfDecimal(n);
  }

  lemma SignedOfDecimal(n: int)
    requires DigitCount(n) <= MaxStrDigits
    ensures SignedDigitGroups(DecimalString(n)) == Some(n)
  {
    var m: nat := if n < 0 then -n else n;
    var d := NatDigits(m);
    DigitsValueOfNatDigits(m);
    DigitGroupsOfDigits(d);
    if n < 0 {
      SignedOfMinus(d);
    } else {
      assert IsDigit(d[0]);
    }
  }

  /** A minus sign before digits reads as the negated value of the digits. */
  lemma SignedOfMinus(d: string)
    requires |d| >= 1 && DigitGroups(d).Some?
    ensures SignedDigitGroups("-" + d) == Some(-(DigitGroups(d).value as int))
  {
    assert ("-" + d)[1..] == d;
  }

  // ---------------------------------------------------------------------------
  // pydantic's lax reading of a string as an `int`

  predicate HasDigit(s: string)
  {
    exists c :: c in s && IsDigit(c)
  }

  /** Underscores only between other characters, never two in a row. */
  predicate UnderscoresSeparate(t: string)
  {
    && |t| >= 1 && t[0] != '_' && t[|t| - 1] != '_'
    && forall i :: 0 <= i < |t| - 1 ==> !(t[i] == '_' && t[i + 1] == '_')
  }

  /** A signed decimal, or failing that one whose underscores separate its characters. */
  function UnderscoredDecimal(t: string): (r: Option<int>)
    ensures r.Some? ==> HasDigit(t)
  {
    if ParseDecimal(t).Some? then
      ParseDecimalDigit(t);
      ParseDecimal(t)
    else if UnderscoresSeparate(t) && ParseDecimal(DropUnderscores(t)).Some? then
      ParseDecimalDigit(DropUnderscores(t));
      DropUnderscoresSubset(t);
      ParseDecimal(DropUnderscores(t))
    else None
  }

  predicate AllZeros(s: string)
  {
    forall i :: 0 <= i < |s| ==> s[i] == '0'
  }

  /**
   * pydantic's (version 2, lax mode) reading of a string as an `int`: surrounding whitespace is
   * ignored, a sign is allowed, single underscores may separate characters, and a fraction of
   * zeros only after the first dot is dropped. The result always comes from a digit of `s`.
   */
  function LaxInt(s: string): (r: Option<int>)
    ensures r.Some? ==> HasDigit(s)
  {
    var t := Strip(s);
    StripSubset(s);
    if UnderscoredDecimal(t).Some? then UnderscoredDecimal(t)
    else
      var d := IndexOf(t, '.');
      if d < |t| && AllZeros(t[d + 1..]) then
        assert forall c :: c in t[..d] ==> c in t;
        UnderscoredDecimal(t[..d])
      else None
  }

  lemma ParseDecimalDigit(u: string)
    requires ParseDecimal(u).Some?
    ensures HasDigit(u)
  {
    assert u[|u| - 1] in u;
  }

  lemma StripSubset(s: string)
    ensures forall c :: c in Strip(s) ==> c in s
  {
    var l := TrimLeft(s);
    assert forall c :: c in TrimRight(l) ==> c in l;
    assert forall c :: c in l ==> c in s;
  }

  /** Leading whitespace before a string that does not start with whitespace is dropped. */
  lemma {:induction false} TrimLeftSpaces(pre: string, u: string)
    requires AllSpace(pre) && (u == [] || !IsSpace(u[0]))
    ensures TrimLeft(pre + u) == u
  {
    if pre != [] {
      assert (pre + u)[1..] == pre[1..] + u;
      TrimLeftSpaces(pre[1..], u);
    }
  }

  /** Trailing whitespace after a string that does not end with whitespace is dropped. */
  lemma {:induction false} TrimRightSpaces(u: string, post: string)
    requires AllSpace(post) && (u == [] || !IsSpace(u[|u| - 1]))
    ensures TrimRight(u + post) == u
  {
    if post != [] {
      assert (u + post)[..|u + post| - 1] == u + post[..|post| - 1];
      TrimRightSpaces(u, post[..|post| - 1]);
    }
  }

  /** The decimal text of an integer with blanks around it reads as that integer. */
  lemma LaxIntPadded(n: int, pre: string, post: string)
    requires AllSpace(pre) && AllSpace(post)
    ensures LaxInt(pre + DecimalString(n) + post) == Some(n)
  {
    PaddedStrip(n, pre, post);
    DecimalRoundTrip(n);
    assert UnderscoredDecimal(DecimalString(n)) == Some(n);
  }

  /** Stripping the padded decimal text of `n` leaves that text. */
  lemma PaddedStrip(n: int, pre: string, post: string)
    requires AllSpace(pre) && AllSpace(post)
    ensures Strip(pre + DecimalString(n) + post) == DecimalString(n)
  {
    DecimalShape(n);
    StripPadding(pre, DecimalString(n), post);
  }

  /** Stripping a text with no blank at either end, padded with blanks, leaves the text. */
  lemma StripPadding(pre: string, d: string, post: string)
    requires AllSpace(pre) && AllSpace(post)
    requires |d| >= 1 && !IsSpace(d[0]) && !IsSpace(d[|d| - 1])
    ensures Strip(pre + d + post) == d
  {
    var u := d + post;
    assert u[0] == d[0];
    TrimLeftSpaces(pre, u);
    assert pre + d + post == pre + u;
    TrimRightSpaces(d, post);
  }

  /** The decimal text of an integer followed by `.0` reads as that integer. */
  lemma LaxIntZeroFraction(n: int)
    ensures LaxInt(DecimalString(n) + ".0") == Some(n)
  {
    var d := DecimalString(n);
    var t := d + ".0";
    DecimalShape(n);
    StripIdentity(t);
    NotDecimalWithDot(d);
    DotZeroSplit(d);
    DecimalRoundTrip(n);
    assert UnderscoredDecimal(t[..IndexOf(t, '.')]) == Some(n);
  }

  /** In `d + ".0"` with no dot in `d`, the first dot ends `d` and only a zero follows it. */
  lemma DotZeroSplit(d: string)
    requires '.' !in d
    ensures var t := d + ".0";
      IndexOf(t, '.') == |d| && t[..|d|] == d && AllZeros(t[|d| + 1..])
  {
    var t := d + ".0";
    assert t == d + ['.'] + "0";
    IndexOfAfterPrefix(d, '.', "0");
    assert t[|d| + 1..] == "0";
  }

  /** The decimal text of an integer: no blanks at its ends, no dot and no underscore. */
  lemma DecimalShape(n: int)
    ensures var d := DecimalString(n);
      |d| >= 1 && !IsSpace(d[0]) && IsDigit(d[|d| - 1]) && '.' !in d && '_' !in d
  {
    var m: nat := if n < 0 then -n else n;
    var d := DecimalString(n);
    assert d[|d| - 1] == NatDigits(m)[|NatDigits(m)| - 1];
    assert forall c :: c in NatDigits(m) ==> IsDigit(c);
  }

  /** A decimal followed by `.0` is not itself a decimal, with or without its underscores. */
  lemma NotDecimalWithDot(d: string)
    requires '_' !in d
    ensures ParseDecimal(d + ".0").None?
    ensures UnderscoredDecimal(d + ".0").None?
  {
    var t := d + ".0";
    assert t[|t| - 2] == '.';
    assert !AllDigits(t);
    if d != [] {
      assert t[1..][|t| - 3] == '.';
    }
    assert '_' !in t;
  }

  /** Digits and underscores lose their underscores and leave digits. */
  lemma {:induction false} DropUnderscoresDigits(s: string)
    requires forall i :: 0 <= i < |s| ==> IsDigit(s[i]) || s[i] == '_'
    ensures AllDigits(DropUnderscores(s))
  {
    if s != [] {
      assert forall i :: 0 <= i < |s| - 1 ==> s[1..][i] == s[i + 1];
      DropUnderscoresDigits(s[1..]);
    }
  }

  /** Removing underscores keeps only characters of the input. */
  lemma {:induction false} DropUnderscoresSubset(s: string)
    ensures forall c :: c in DropUnderscores(s) ==> c in s
  {
    if s != [] {
      DropUnderscoresSubset(s[1..]);
      assert forall c :: c in s[1..] ==> c in s;
    }
  }

  /** Removing underscores distributes over concatenation. */
  lemma {:induction false} DropUnderscoresAppend(x: string, y: string)
    ensures DropUnderscores(x + y) == DropUnderscores(x) + DropUnderscores(y)
  {
    if x == [] {
      assert x + y == y;
    } else {
      assert (x + y)[0] == x[0] && (x + y)[1..] == x[1..] + y;
      DropUnderscoresAppend(x[1..], y);
    }
  }

  /** Two digit groups joined by one underscore read as the number their digits spell. */
  lemma LaxIntGrouped(a: string, b: string)
    requires |a| >= 1 && |b| >= 1 && AllDigits(a) && AllDigits(b)
    ensures LaxInt(a + "_" + b) == Some(DigitsValue(a + b))
  {
    var t := a + "_" + b;
    GroupedShape(a, b);
    StripIdentity(t);
    ParseDigits(a + b);
    assert UnderscoredDecimal(t) == Some(DigitsValue(a + b));
  }

  /** A string of digits reads as the number they spell. */
  lemma ParseDigits(d: string)
    requires |d| >= 1 && AllDigits(d)
    ensures ParseDecimal(d) == Some(DigitsValue(d))
  {
    assert IsDigit(d[0]);
  }

  lemma GroupedShape(a: string, b: string)
    requires |a| >= 1 && |b| >= 1 && AllDigits(a) && AllDigits(b)
    ensures var t := a + "_" + b;
      && IsDigit(t[0]) && IsDigit(t[|t| - 1])
      && ParseDecimal(t).None? && UnderscoresSeparate(t) && DropUnderscores(t) == a + b
  {
    var t := a + "_" + b;
    assert t[0] == a[0] && t[|t| - 1] == b[|b| - 1];
    GroupedNotDecimal(a, b);
    GroupedSeparate(a, b);
    GroupedDrop(a, b);
  }

  lemma GroupedNotDecimal(a: string, b: string)
    requires |a| >= 1 && AllDigits(a)
    ensures ParseDecimal(a + "_" + b).None?
  {
    var t := a + "_" + b;
    assert t[0] == a[0];
    assert t[|a|] == '_' && t[1..][|a| - 1] == '_';
  }

  lemma GroupedSeparate(a: string, b: string)
    requires |a| >= 1 && |b| >= 1 && AllDigits(a) && AllDigits(b)
    ensures UnderscoresSeparate(a + "_" + b)
  {
    var t := a + "_" + b;
    assert t[0] == a[0] && t[|t| - 1] == b[|b| - 1];
    forall i | 0 <= i < |t| - 1 ensures !(t[i] == '_' && t[i + 1] == '_') {
      if i < |a| - 1 {
        assert t[i] == a[i];
      } else if i == |a| - 1 {
        assert t[i] == a[i];
      } else {
        assert t[i + 1] == b[i + 1 - |a| - 1];
      }
    }
  }

  lemma GroupedDrop(a: string, b: string)
    requires AllDigits(a) && AllDigits(b)
    ensures DropUnderscores(a + "_" + b) == a + b
  {
    var x := a + "_";
    DropUnderscoresAppend(x, b);
    DropUnderscoresAppend(a, "_");
    assert DropUnderscores("_") == [];
    DigitsNoUnderscore(a);
    DigitsNoUnderscore(b);
    assert DropUnderscores(x) == a + [] == a;
  }

  lemma DigitsNoUnderscore(a: string)
    requires AllDigits(a)
    ensures DropUnderscores(a) == a
  {
    forall i | 0 <= i < |a| ensures a[i] != '_' {
      assert IsDigit(a[i]);
    }
  }

  /** POSIX `os.path.join(directory, name)`. */
  function PathJoin(directory: string, name: string): (p: string)
    ensures |name| >= 1 && name[0] != '/' ==> EndsWith(p, name)
  {
    if |name| >= 1 && name[0] == '/' then name
    else if directory == [] || directory[|directory| - 1] == '/' then directory + name
    else directory + "/" + name
  }

  /** Joining one directory with two relative names gives two paths unless the names are equal. */
  lemma PathJoinInjective(directory: string, a: string, b: string)
    requires |a| >= 1 && a[0] != '/' && |b| >= 1 && b[0] != '/'
    requires PathJoin(directory, a) == PathJoin(directory, b)
    ensures a == b
  {
    var p := PathJoin(directory, a);
    var pre := |p| - |a|;
    assert a == p[pre..];
    assert b == p[pre..];
  }
}
