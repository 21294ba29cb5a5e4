/** Decimal text: rendering a non-negative int the way Python's `str` does,
    zero-padded rendering, and Python's `int()` applied to a string. */
module Decimal {
  import opened Basics

  predicate IsDigit(c: char) {
    '0' <= c <= '9'
  }

  predicate AllDigits(s: string) {
    forall i :: 0 <= i < |s| ==> IsDigit(s[i])
  }

  function DigitValue(c: char): nat
    requires IsDigit(c)
  {
    c as int - '0' as int
  }

  function DigitChar(d: nat): (c: char)
    requires d < 10
    ensures IsDigit(c) && DigitValue(c) == d
  {
    ('0' as int + d) as char
  }

  /** Value of a run of digits, most significant first (the empty run is 0). */
  function DigitsValue(s: string): nat
    requires AllDigits(s)
  {
    if |s| == 0 then 0 else DigitsValue(s[..|s| - 1]) * 10 + DigitValue(s[|s| - 1])
  }

  function Pow10(n: nat): nat {
    if n == 0 then 1 else 10 * Pow10(n - 1)
  }

  /** `str(n)` for a non-negative int: digits only, no leading zero, and
      reading the digits back gives `n`. */
  function NatToString(n: nat): (s: string)
    ensures |s| > 0 && AllDigits(s)
    ensures DigitsValue(s) == n
    ensures |s| > 1 ==> s[0] != '0'
  {
    if n < 10 then [DigitChar(n)]
    else
      var prefix := NatToString(n / 10);
      var s := prefix + [DigitChar(n % 10)];
      assert s[..|s| - 1] == prefix;
      s
  }

  /** `f"{n:0{w}d}"`: `n` written in exactly `w` digits with leading zeros. */
  function ZeroPad(n: nat, w: nat): (s: string)
    requires n < Pow10(w)
    ensures |s| == w && AllDigits(s)
    ensures DigitsValue(s) == n
  {
    if w == 0 then []
    else
      var prefix := ZeroPad(n / 10, w - 1);
      var s := prefix + [DigitChar(n % 10)];
      assert s[..|s| - 1] == prefix;
      s
  }

  /** The characters `int()` strips around its text: the ASCII whitespace
      `" \t\n\v\f\r"` and the non-ASCII characters for which `str.isspace()`
      holds. The ASCII separators U+001C to U+001F satisfy `str.isspace()`
      but are not stripped: `int()` only maps non-ASCII spaces to `' '`
      before it skips ASCII whitespace. */
  predicate IsPySpace(c: char) {
    var n := c as int;
    || n == 0x20
    || 0x09 <= n <= 0x0D
    || n == 0x85
    || n == 0xA0
    || n == 0x1680
    || 0x2000 <= n <= 0x200A
    || n == 0x2028
    || n == 0x2029
    || n == 0x202F
    || n == 0x205F
    || n == 0x3000
  }

  function StripLeft(s: string): string {
    if |s| > 0 && IsPySpace(s[0]) then StripLeft(s[1..]) else s
  }

  function StripRight(s: string): string {
    if |s| > 0 && IsPySpace(s[|s| - 1]) then StripRight(s[..|s| - 1]) else s
  }

  /** A base-10 literal body: digits, where an underscore may only sit
      between two digits. */
  predicate IsDigitGroup(s: string) {
    && |s| > 0
    && IsDigit(s[0])
    && (forall i :: 0 <= i < |s| ==> IsDigit(s[i]) || s[i] == '_')
    && (forall i :: 0 <= i < |s| && s[i] == '_' ==> i + 1 < |s| && IsDigit(s[i + 1]))
  }

  function RemoveUnderscores(s: string): (r: string)
    ensures (forall i :: 0 <= i < |s| ==> IsDigit(s[i]) || s[i] == '_') ==> AllDigits(r)
  {
    if |s| == 0 then []
    else
      var rest := RemoveUnderscores(s[1..]);
      if s[0] == '_' then rest else [s[0]] + rest
  }

  /** Value of an accepted literal body. */
  function GroupValue(s: string): nat
    requires IsDigitGroup(s)
  {
    DigitsValue(RemoveUnderscores(s))
  }

  /** The text `int()` accepts once surrounding whitespace is gone: one
      optional sign, then a digit group. */
  predicate IsIntLiteral(t: string) {
    || IsDigitGroup(t)
    || (|t| > 0 && (t[0] == '+' || t[0] == '-') && IsDigitGroup(t[1..]))
  }

  /** Python's `int(s)` on a string: surrounding whitespace is ignored, one
      optional sign, then a digit group; anything else is a `ValueError`,
      modelled as `None`. */
  function ParseInt(s: string): (r: Option<int>)
    ensures r.Some? <==> IsIntLiteral(StripRight(StripLeft(s)))
    ensures r.Some? && r.value < 0 ==> StripRight(StripLeft(s))[0] == '-'
  {
    var t := StripRight(StripLeft(s));
    if |t| > 0 && (t[0] == '+' || t[0] == '-') then
      if IsDigitGroup(t[1..]) then
        var v: int := GroupValue(t[1..]);
        Some(if t[0] == '-' then -v else v)
      else None
    else if IsDigitGroup(t) then Some(GroupValue(t))
    else None
  }

  lemma {:induction false} RemoveUnderscoresOfDigits(s: string)
    requires AllDigits(s)
    ensures RemoveUnderscores(s) == s
  {
    if |s| > 0 {
      RemoveUnderscoresOfDigits(s[1..]);
      assert [s[0]] + s[1..] == s;
    }
  }

  /** `int()` reads a plain run of ASCII digits as its decimal value. */
  lemma ParseIntDigits(s: string)
    requires |s| > 0 && AllDigits(s)
    ensures ParseInt(s) == Some(DigitsValue(s))
  {
    assert IsDigit(s[0]) && IsDigit(s[|s| - 1]);
    assert StripLeft(s) == s;
    assert StripRight(s) == s;
    assert s[0] != '+' && s[0] != '-';
    assert IsDigitGroup(s) by {
      forall i | 0 <= i < |s|
        ensures s[i] != '_'
      {
        assert IsDigit(s[i]);
      }
    }
    RemoveUnderscoresOfDigits(s);
    assert GroupValue(s) == DigitsValue(s);
  }

  /** `int()` is more lenient than a digit check: it ignores surrounding
      spaces ... */
  lemma ParseIntSpaces()
    ensures ParseInt(" 7") == Some(7)
  {
    assert IsPySpace(' ');
    assert " 7"[1..] == "7";
    assert StripLeft(" 7") == "7";
    assert StripRight("7") == "7";
    assert IsDigitGroup("7");
    assert RemoveUnderscores("7") == "7" by { assert "7"[1..] == []; }
    assert DigitsValue("7") == 7;
  }

  /** ... accepts a sign ... */
  lemma ParseIntSign()
    ensures ParseInt("-7") == Some(-7)
  {
    assert StripLeft("-7") == "-7";
    assert StripRight("-7") == "-7";
    assert "-7"[1..] == "7";
    assert IsDigitGroup("7");
    assert RemoveUnderscores("7") == "7" by { assert "7"[1..] == []; }
    assert DigitsValue("7") == 7;
  }

  /** ... and underscores between digits, but not a leading underscore. */
  lemma ParseIntUnderscores()
    ensures ParseInt("1_0") == Some(10)
    ensures ParseInt("_1") == None
  {
    ParseIntInnerUnderscore("1_0");
    ParseIntLeadingUnderscore("_1");
  }

  lemma ParseIntInnerUnderscore(s: string)
    requires s == "1_0"
    ensures ParseInt(s) == Some(10)
  {
    assert StripLeft(s) == s;
    assert StripRight(s) == s;
    assert s[0] != '+' && s[0] != '-';
    assert IsDigitGroup(s) by {
      assert IsDigit(s[0]) && IsDigit(s[2]);
    }
    assert RemoveUnderscores(s) == "10" by {
      assert s[1..] == "_0";
      assert s[1..][1..] == "0";
      assert RemoveUnderscores("0") == "0" by { assert "0"[1..] == []; }
    }
    assert DigitsValue("10") == 10 by {
      assert "10"[..1] == "1";
    }
  }

  lemma ParseIntLeadingUnderscore(s: string)
    requires s == "_1"
    ensures ParseInt(s) == None
  {
    assert StripLeft(s) == s;
    assert StripRight(s) == s;
    assert s[0] != '+' && s[0] != '-';
    assert !IsDigitGroup(s);
  }

  /** ... and the ASCII information separators, which `str.isspace()`
      accepts, are not stripped: `int("\x1c7")` raises. */
  lemma ParseIntFileSeparator(s: string)
    requires |s| == 2 && s[0] == '\U{1C}' && IsDigit(s[1])
    ensures ParseInt(s) == None
  {
    assert !IsPySpace(s[0]) && !IsPySpace(s[1]);
    assert StripLeft(s) == s;
    assert StripRight(s) == s;
    assert s[0] != '+' && s[0] != '-';
    assert !IsDigit(s[0]);
  }
}
