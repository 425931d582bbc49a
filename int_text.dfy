/**
 * Python's `int(text)` and `str(n)` on decimal text, as far as the power
 * driver relies on them: `is_int` asks whether `int` accepts a text and the
 * driver then uses the value.
 *
 * `int(text)` ignores surrounding whitespace, accepts one optional sign and
 * then a group of decimal digits in which single underscores may separate
 * digits ("1_0" is ten); everything else raises ValueError.
 */
module IntText {
  import opened Wrappers

  /** The six ASCII whitespace characters that `int` strips. */
  predicate IsSpace(c: char) {
    c == ' ' || c == '\t' || c == '\n' || c == '\r' || c == '\U{B}' || c == '\U{C}'
  }

  predicate IsDigit(c: char) {
    '0' <= c <= '9'
  }

  function DigitValue(c: char): (d: nat)
    requires IsDigit(c)
    ensures d < 10
  {
    c as int - '0' as int
  }

  function DigitChar(d: nat): (c: char)
    requires d < 10
    ensures IsDigit(c) && DigitValue(c) == d
  {
    (d + '0' as int) as char
  }

  /** `s` with its leading whitespace removed. */
  function TrimStart(s: string): (r: string)
    ensures |r| <= |s| && r == s[|s| - |r|..]
    ensures r == [] || !IsSpace(r[0])
    ensures forall i :: 0 <= i < |s| - |r| ==> IsSpace(s[i])
  {
    if s != [] && IsSpace(s[0]) then
      var r := TrimStart(s[1..]);
      assert s[1..][|s| - 1 - |r|..] == s[|s| - |r|..];
      assert forall i :: 1 <= i < |s| - |r| ==> s[i] == s[1..][i - 1];
      r
    else s
  }

  /** `s` with its trailing whitespace removed. */
  function TrimEnd(s: string): (r: string)
    ensures |r| <= |s| && r == s[..|r|]
    ensures r == [] || !IsSpace(r[|r| - 1])
    ensures forall i :: |r| <= i < |s| ==> IsSpace(s[i])
  {
    if s != [] && IsSpace(s[|s| - 1]) then
      var r := TrimEnd(s[..|s| - 1]);
      assert s[..|s| - 1][..|r|] == s[..|r|];
      r
    else s
  }

  /** What `int` looks at once the surrounding whitespace is gone. */
  function Strip(s: string): string {
    TrimEnd(TrimStart(s))
  }

  /**
   * A digit group as `int` accepts it: it starts with a digit, and every
   * underscore in it is followed by a digit (so none is doubled or trailing).
   */
  predicate IsDigitGroup(s: string) {
    && |s| > 0
    && IsDigit(s[0])
    && (forall i :: 0 <= i < |s| ==> IsDigit(s[i]) || s[i] == '_')
    && (forall i :: 0 <= i < |s| && s[i] == '_' ==> i + 1 < |s| && IsDigit(s[i + 1]))
  }

  /** The value of the digits of `s`, the underscores skipped. */
  function GroupValue(s: string): nat
    requires forall i :: 0 <= i < |s| ==> IsDigit(s[i]) || s[i] == '_'
  {
    if s == [] then 0
    else if s[|s| - 1] == '_' then GroupValue(s[..|s| - 1])
    else GroupValue(s[..|s| - 1]) * 10 + DigitValue(s[|s| - 1])
  }

  /** `int(text)`: the value, or None where Python raises ValueError. */
  function ParseInt(text: string): Option<int> {
    ParseStripped(Strip(text))
  }

  /** `int` on text whose surrounding whitespace is already gone. */
  function ParseStripped(t: string): Option<int> {
    if |t| > 0 && (t[0] == '+' || t[0] == '-') then
      var digits := t[1..];
      if IsDigitGroup(digits) then
        assert digits[0] == t[1];
        var magnitude: int := GroupValue(digits);
        Some(if t[0] == '-' then -magnitude else magnitude)
      else None
    else if IsDigitGroup(t) then
      Some(GroupValue(t))
    else None
  }

  /** `str(n)` for a natural number: its decimal digits, no leading zero. */
  function NatToString(n: nat): (s: string)
    ensures |s| >= 1 && (forall i :: 0 <= i < |s| ==> IsDigit(s[i]))
    ensures |s| > 1 ==> s[0] != '0'
  {
    if n < 10 then [DigitChar(n)] else NatToString(n / 10) + [DigitChar(n % 10)]
  }

  /** `str(n)`: a minus sign for a negative number, then the digits. */
  function IntToString(n: int): (s: string)
    ensures |s| >= 1
  {
    if n < 0 then "-" + NatToString(-n) else NatToString(n)
  }

  lemma {:induction false} GroupValueOfNatToString(n: nat)
    ensures GroupValue(NatToString(n)) == n
  {
    var s := NatToString(n);
    if n >= 10 {
      assert s[..|s| - 1] == NatToString(n / 10);
      GroupValueOfNatToString(n / 10);
    }
  }

  /** Text without whitespace at either end is what `int` looks at. */
  lemma StripUnpadded(s: string)
    requires s != [] && !IsSpace(s[0]) && !IsSpace(s[|s| - 1])
    ensures Strip(s) == s
  {
  }

  /** `int(str(n)) == n`: the decimal rendering of any integer parses back to it. */
  lemma ParseIntToString(n: int)
    ensures ParseInt(IntToString(n)) == Some(n)
  {
    var s := IntToString(n);
    var digits := NatToString(if n < 0 then -n else n);
    StripUnpadded(s);
    GroupValueOfNatToString(if n < 0 then -n else n);
    if n < 0 {
      assert s[1..] == digits;
    }
  }

  /** Stripping twice strips nothing more, so `int(text) == int(text.strip())`. */
  lemma ParseIntOfStripped(text: string)
    ensures Strip(Strip(text)) == Strip(text)
    ensures ParseInt(Strip(text)) == ParseInt(text)
  {
    var t := Strip(text);
    if t != [] {
      assert t[0] == TrimStart(text)[0];
      StripUnpadded(t);
    }
  }

  /** Text of nothing but whitespace, the empty text included, is no number. */
  lemma ParseIntOfBlank(text: string)
    requires forall i :: 0 <= i < |text| ==> IsSpace(text[i])
    ensures Strip(text) == []
    ensures ParseInt(text) == None
  {
  }

  /**
   * A character other than a digit or an underscore, a sign only at the
   * front, makes `int` raise.
   */
  lemma ParseIntOfForeignChar(text: string, i: nat)
    requires i < |Strip(text)|
    requires !IsDigit(Strip(text)[i]) && Strip(text)[i] != '_'
    requires i == 0 ==> Strip(text)[i] != '+' && Strip(text)[i] != '-'
    ensures ParseInt(text) == None
  {
    var t := Strip(text);
    if |t| > 0 && (t[0] == '+' || t[0] == '-') {
      assert t[1..][i - 1] == t[i];
    }
  }

  /** A doubled or trailing underscore makes `int` raise. */
  lemma ParseIntOfStrayUnderscore(text: string, i: nat)
    requires i < |Strip(text)| && Strip(text)[i] == '_'
    requires i + 1 == |Strip(text)| || Strip(text)[i + 1] == '_'
    ensures ParseInt(text) == None
  {
    var t := Strip(text);
    if |t| > 0 && (t[0] == '+' || t[0] == '-') {
      assert i >= 1;
      assert t[1..][i - 1] == t[i];
      if i + 1 < |t| {
        assert t[1..][i] == t[i + 1];
      }
    }
  }
}
