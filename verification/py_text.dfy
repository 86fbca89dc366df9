/**
 Python's text-to-integer conversion as the ingestion code uses it: `int(cell)` on
 a CSV cell, and its left inverse `str(n)`.

 `int()` first maps every non-ASCII whitespace character to a space and leaves
 ASCII characters as they are; it then skips leading and trailing ASCII
 whitespace (tab, line feed, vertical tab, form feed, carriage return, space),
 takes an optional sign, and needs one or more decimal digits in which single
 underscores may separate digits. So the ASCII separators U+001C..U+001F, which
 `str.isspace()` counts as whitespace, are not skipped. Digits are the ASCII
 digits and the fullwidth digits U+FF10..U+FF19 that Japanese spreadsheets
 produce; the other Unicode decimal-digit blocks Python also accepts are not
 modelled.
 */
module PyText {
  import opened Common

  /** The characters `int()` skips around a number. */
  predicate IsIntSpace(c: char) {
    var n := c as int;
    || 0x09 <= n <= 0x0D
    || n == 0x20
    || n == 0x85 || n == 0xA0 || n == 0x1680
    || 0x2000 <= n <= 0x200A
    || n == 0x2028 || n == 0x2029 || n == 0x202F || n == 0x205F || n == 0x3000
  }

  predicate AllIntSpace(w: string) {
    forall i :: 0 <= i < |w| ==> IsIntSpace(w[i])
  }

  predicate IsAsciiDigit(c: char) {
    '0' <= c <= '9'
  }

  predicate IsDigit(c: char) {
    IsAsciiDigit(c) || '\U{FF10}' <= c <= '\U{FF19}'
  }

  function DigitValue(c: char): (d: nat)
    requires IsDigit(c)
    ensures d < 10
  {
    if IsAsciiDigit(c) then c as int - '0' as int else c as int - '\U{FF10}' as int
  }

  /** The ASCII digit that `str()` writes for `d`. */
  function DigitChar(d: nat): (c: char)
    requires d < 10
    ensures IsAsciiDigit(c) && DigitValue(c) == d
  {
    ('0' as int + d) as char
  }

  /** `s` with its leading `int()` whitespace removed. */
  function StripStart(s: string): (t: string)
    ensures |t| > 0 ==> !IsIntSpace(t[0])
  {
    if |s| > 0 && IsIntSpace(s[0]) then StripStart(s[1..]) else s
  }

  /** `s` with its trailing `int()` whitespace removed. */
  function StripEnd(s: string): (t: string)
    ensures |t| > 0 ==> !IsIntSpace(t[|t| - 1])
  {
    if |s| > 0 && IsIntSpace(s[|s| - 1]) then StripEnd(s[..|s| - 1]) else s
  }

  /** What is left of `StripEnd(s)` is a prefix of `s`. */
  lemma {:induction false} StripEndPrefix(s: string)
    ensures |StripEnd(s)| <= |s| && StripEnd(s) == s[..|StripEnd(s)|]
  {
    if |s| > 0 && IsIntSpace(s[|s| - 1]) {
      StripEndPrefix(s[..|s| - 1]);
    }
  }

  /** The text `int()` reads the number from: `s` without surrounding whitespace. */
  function Strip(s: string): (t: string)
    ensures |t| > 0 ==> !IsIntSpace(t[0]) && !IsIntSpace(t[|t| - 1])
  {
    var u := StripStart(s);
    StripEndPrefix(u);
    StripEnd(u)
  }

  /**
   The value of a run of digits in which single underscores may separate two
   digits (`1_000`), or None when the text is not such a run. Read from the
   right: the run is a digit, or a shorter run followed by a digit, or a
   shorter run followed by `_` and a digit.
   */
  function DigitRun(t: string): (r: Option<nat>)
    ensures r.Some? ==> |t| > 0 && IsDigit(t[0]) && IsDigit(t[|t| - 1])
  {
    if |t| == 0 || !IsDigit(t[|t| - 1]) then None
    else if |t| == 1 then Some(DigitValue(t[0]))
    else
      var init := if t[|t| - 2] == '_' then t[..|t| - 2] else t[..|t| - 1];
      match DigitRun(init)
      case None => None
      case Some(v) => Some(v * 10 + DigitValue(t[|t| - 1]))
  }

  /**
   Python's `int(s)` on a string, None where Python raises ValueError. A cell
   that parses ends, after whitespace, in a digit, and only a leading `-` gives
   a negative value.
   */
  function ParseInt(s: string): (r: Option<int>)
    ensures r.Some? ==> |Strip(s)| > 0 && IsDigit(Strip(s)[|Strip(s)| - 1])
    ensures r.Some? && r.value < 0 ==> Strip(s)[0] == '-'
  {
    var t := Strip(s);
    var negative := |t| > 0 && t[0] == '-';
    var digits := if |t| > 0 && (t[0] == '-' || t[0] == '+') then t[1..] else t;
    match DigitRun(digits)
    case None => None
    case Some(v) => var n: int := if negative then -(v as int) else v; Some(n)
  }

  /** Python's `str(n)` for a non-negative integer. */
  function ShowNat(n: nat): (s: string)
    ensures |s| > 0
    ensures forall i :: 0 <= i < |s| ==> IsAsciiDigit(s[i])
  {
    if n < 10 then [DigitChar(n)] else ShowNat(n / 10) + [DigitChar(n % 10)]
  }

  /** Python's `str(n)`: a `-` exactly for negative numbers, then ASCII digits. */
  function ShowInt(n: int): (s: string)
    ensures |s| > 0 && (s[0] == '-' <==> n < 0)
    ensures forall i :: 0 < i < |s| ==> IsAsciiDigit(s[i])
  {
    if n < 0 then "-" + ShowNat(-n) else ShowNat(n)
  }

  /** Reading back the digits `str()` writes gives the number. */
  lemma {:induction false} DigitRunShowNat(n: nat)
    ensures DigitRun(ShowNat(n)) == Some(n)
  {
    if n >= 10 {
      var t := ShowNat(n);
      DigitRunShowNat(n / 10);
      assert t[..|t| - 1] == ShowNat(n / 10);
      assert IsAsciiDigit(t[|t| - 2]);
    }
  }

  /** Text that neither starts nor ends with whitespace is read as it is. */
  lemma StripUnpadded(s: string)
    requires |s| > 0 && !IsIntSpace(s[0]) && !IsIntSpace(s[|s| - 1])
    ensures Strip(s) == s
  {
  }

  /** `int(str(n)) == n` for every integer `n`. */
  lemma ParseShowRoundTrip(n: int)
    ensures ParseInt(ShowInt(n)) == Some(n)
  {
    var s := ShowInt(n);
    if n < 0 {
      DigitRunShowNat(-n);
      assert s[1..] == ShowNat(-n);
      assert IsAsciiDigit(s[|s| - 1]);
    } else {
      DigitRunShowNat(n);
      assert IsAsciiDigit(s[0]) && IsAsciiDigit(s[|s| - 1]);
    }
    StripUnpadded(s);
  }

  /** Stripping leading whitespace looks through a prefix that is all whitespace. */
  lemma {:induction false} StripStartConcat(s: string, w: string)
    ensures StripStart(s + w) == if AllIntSpace(s) then StripStart(w) else StripStart(s) + w
  {
    if |s| == 0 {
      assert s + w == w;
    } else if IsIntSpace(s[0]) {
      assert (s + w)[1..] == s[1..] + w;
      StripStartConcat(s[1..], w);
      if AllIntSpace(s[1..]) {
        forall i | 0 < i < |s|
          ensures IsIntSpace(s[i])
        {
          assert s[i] == s[1..][i - 1];
        }
      }
    }
  }

  /** Trailing whitespace is stripped whatever precedes it. */
  lemma {:induction false} StripEndConcat(s: string, w: string)
    requires AllIntSpace(w)
    ensures StripEnd(s + w) == StripEnd(s)
  {
    if |w| == 0 {
      assert s + w == s;
    } else {
      var x := s + w;
      assert x[|x| - 1] == w[|w| - 1];
      assert x[..|x| - 1] == s + w[..|w| - 1];
      StripEndConcat(s, w[..|w| - 1]);
    }
  }

  lemma {:induction false} StripStartAllSpace(w: string)
    requires AllIntSpace(w)
    ensures StripStart(w) == []
  {
    if |w| > 0 {
      StripStartAllSpace(w[1..]);
    }
  }

  /** Whitespace around a cell never changes what `int()` reads from it. */
  lemma ParseIntIgnoresPadding(w: string, s: string, w2: string)
    requires AllIntSpace(w) && AllIntSpace(w2)
    ensures ParseInt(w + s + w2) == ParseInt(s)
  {
    assert w + s + w2 == w + (s + w2);
    StripStartConcat(w, s + w2);
    StripStartConcat(s, w2);
    if AllIntSpace(s) {
      StripStartAllSpace(s);
      StripStartAllSpace(w2);
    } else {
      StripEndConcat(StripStart(s), w2);
    }
    assert Strip(w + s + w2) == Strip(s);
  }

  /** A sign directly before a digit run is the sign of the number. */
  lemma SignedDigitRun(sign: char, d: string)
    requires sign == '-' || sign == '+'
    requires DigitRun(d).Some?
    ensures ParseInt([sign] + d) == Some(if sign == '-' then -(DigitRun(d).value as int) else DigitRun(d).value)
  {
    var s := [sign] + d;
    assert s[0] == sign && s[|s| - 1] == d[|d| - 1];
    StripUnpadded(s);
    assert s[1..] == d;
  }

  /** A digit run reads as its value with no sign or a `+`, and as its negation after a `-`. */
  lemma ParseIntSign(d: string)
    requires DigitRun(d).Some?
    ensures ParseInt(d) == Some(DigitRun(d).value)
    ensures ParseInt("+" + d) == Some(DigitRun(d).value)
    ensures ParseInt("-" + d) == Some(-(DigitRun(d).value as int))
  {
    StripUnpadded(d);
    SignedDigitRun('+', d);
    SignedDigitRun('-', d);
  }

  /** A sign followed by a space is never a number. */
  lemma ParseIntSpaceAfterSign(sign: char, s: string)
    requires sign == '-' || sign == '+'
    ensures ParseInt([sign, ' '] + s) == None
  {
    var x := [sign, ' '] + s;
    assert StripStart(x) == x;
    StripEndPrefix(x);
    var t := StripEnd(x);
    assert Strip(x) == t;
    if |t| >= 2 {
      assert t[1] == ' ';
      assert DigitRun(t[1..]) == None;
    } else if |t| == 1 {
      assert t[1..] == [];
    }
  }

  /** One step of `DigitRun` from the right, with `cut` the separator-aware width of the last digit. */
  lemma DigitRunLast(t: string, cut: nat)
    requires |t| >= 2 && IsDigit(t[|t| - 1])
    requires cut == if t[|t| - 2] == '_' then 2 else 1
    ensures DigitRun(t).Some? <==> DigitRun(t[..|t| - cut]).Some?
    ensures DigitRun(t).Some? ==> DigitRun(t).value == DigitRun(t[..|t| - cut]).value * 10 + DigitValue(t[|t| - 1])
  {
  }

  /** An underscore between two digit runs does not change the value. */
  lemma {:induction false} UnderscoreSeparatorIgnored(a: string, b: string)
    requires DigitRun(a).Some? && DigitRun(b).Some?
    ensures DigitRun(a + "_" + b) == DigitRun(a + b)
    decreases |b|
  {
    var x := a + "_" + b;
    var y := a + b;
    assert x[|x| - 1] == b[|b| - 1] && y[|y| - 1] == b[|b| - 1];
    if |b| == 1 {
      assert x[|x| - 2] == '_' && x[..|x| - 2] == a;
      assert y[|y| - 2] == a[|a| - 1] && y[..|y| - 1] == a;
      DigitRunLast(x, 2);
      DigitRunLast(y, 1);
    } else {
      var cut := if b[|b| - 2] == '_' then 2 else 1;
      var init := b[..|b| - cut];
      assert x[|x| - 2] == b[|b| - 2] && y[|y| - 2] == b[|b| - 2];
      assert x[..|x| - cut] == a + "_" + init;
      assert y[..|y| - cut] == a + init;
      DigitRunLast(b, cut);
      DigitRunLast(x, cut);
      DigitRunLast(y, cut);
      UnderscoreSeparatorIgnored(a, init);
    }
  }

  /** Two underscores in a row, or a leading underscore, make a run invalid. */
  lemma {:induction false} DoubleUnderscoreRejected(a: string, b: string)
    ensures DigitRun(a + "__" + b) == None
    ensures DigitRun("_" + b) == None
    decreases |b|
  {
    var x := a + "__" + b;
    assert ("_" + b)[0] == '_';
    if |b| == 0 {
      assert x[|x| - 1] == '_';
    } else if !IsDigit(b[|b| - 1]) {
      assert x[|x| - 1] == b[|b| - 1];
    } else if |b| == 1 {
      assert x[|x| - 2] == '_' && x[..|x| - 2] == a + "_";
      assert (a + "_")[|a|] == '_';
    } else if b[|b| - 2] == '_' {
      assert x[|x| - 2] == '_' && x[..|x| - 2] == a + "__" + b[..|b| - 2];
      DoubleUnderscoreRejected(a, b[..|b| - 2]);
    } else {
      assert x[|x| - 2] == b[|b| - 2] && x[..|x| - 1] == a + "__" + b[..|b| - 1];
      DoubleUnderscoreRejected(a, b[..|b| - 1]);
    }
  }

  /** A cell ending in anything other than a digit or whitespace is not a number. */
  lemma TrailingNonDigitRejected(s: string, c: char)
    requires !IsDigit(c) && !IsIntSpace(c)
    ensures ParseInt(s + [c]) == None
  {
    StripStartConcat(s, [c]);
    var u := StripStart(s + [c]);
    assert |u| > 0 && u[|u| - 1] == c;
    assert StripEnd(u) == u;
  }

  /** `int(' 12\n')` is 12 and `int('\u30005')` is 5, but `int('\x1c5')` raises. */
  lemma ParseIntPadded()
    ensures ParseInt(" 12\n") == Some(12)
    ensures ParseInt("\U{3000}5") == Some(5)
    ensures ParseInt("\U{1C}5") == None
  {
    assert StripStart(" 12\n") == "12\n";
    assert StripEnd("12\n") == "12";
    assert StripStart("\U{3000}5") == "5";
    StripUnpadded("\U{1C}5");
  }

  lemma ParseIntUnderscores()
    ensures ParseInt("1_000") == Some(1000)
    ensures ParseInt("1__0") == None
    ensures ParseInt("_1") == None
  {
    StripUnpadded("1_000");
    assert DigitRun("1") == Some(1);
    assert DigitRun("1_0") == Some(10);
    assert DigitRun("1_00") == Some(100);
    assert "1_000"[..4] == "1_00";
    assert DigitRun("1_000") == Some(1000);
    StripUnpadded("1__0");
    StripUnpadded("_1");
  }

  lemma ParseIntSigned()
    ensures ParseInt("-7") == Some(-7)
    ensures ParseInt("+3") == Some(3)
    ensures ParseInt("- 5") == None
  {
    StripUnpadded("-7");
    StripUnpadded("+3");
    StripUnpadded("- 5");
  }

  lemma ParseIntRejects()
    ensures ParseInt("") == None
    ensures ParseInt("12a") == None
  {
    StripUnpadded("12a");
  }

  /** `int('１２')` is 12: fullwidth digits are decimal digits to Python. */
  lemma ParseIntFullwidth()
    ensures ParseInt("\U{FF11}\U{FF12}") == Some(12)
  {
    StripUnpadded("\U{FF11}\U{FF12}");
  }
}
