/** The few pieces of Python's text handling the tracker relies on:
    `str(n)` for integers, `int(s)` for the minutes typed into the form and
    `strftime('%H:%M')` for wall-clock times, together with `s.split(' ')`
    and `' '.join`, with which the labels are read back. Only ASCII digits
    and ASCII whitespace are modelled. */
module PyText {
  import opened Optional

  predicate IsDigit(c: char) {
    '0' <= c <= '9'
  }

  predicate AllDigits(s: string) {
    forall i :: 0 <= i < |s| ==> IsDigit(s[i])
  }

  function DigitChar(n: int): (c: char)
    requires 0 <= n < 10
    ensures IsDigit(c) && DigitValue(c) == n
  {
    "0123456789"[n]
  }

  function DigitValue(c: char): int
    requires IsDigit(c)
  {
    c as int - '0' as int
  }

  // ---------------------------------------------------------------------------
  // str(n)

  /** The decimal digits of `n`, without leading zeros. */
  function NatToString(n: nat): (s: string)
    ensures 1 <= |s| && AllDigits(s)
    ensures s[0] == '0' ==> n == 0
  {
    if n < 10 then [DigitChar(n)]
    else NatToString(n / 10) + [DigitChar(n % 10)]
  }

  /** `str(i)` for a Python int: a minus sign for negatives, then the digits. */
  function IntToString(i: int): (s: string)
    ensures |s| >= 1 && ' ' !in s
    ensures s[0] == '-' <==> i < 0
  {
    if i < 0 then "-" + NatToString(-i) else NatToString(i)
  }

  lemma OneDigitText(n: int)
    requires 0 <= n < 10
    ensures IntToString(n) == [DigitChar(n)]
  {
  }

  lemma TwoDigitText(n: int)
    requires 10 <= n < 100
    ensures IntToString(n) == [DigitChar(n / 10), DigitChar(n % 10)]
  {
    assert NatToString(n / 10) == [DigitChar(n / 10)];
  }

  /** The number a string of decimal digits denotes. */
  function DigitsValue(s: string): nat
    requires AllDigits(s)
  {
    if |s| == 0 then 0
    else DigitsValue(s[..|s| - 1]) * 10 + DigitValue(s[|s| - 1])
  }

  lemma {:induction false} NatToStringValue(n: nat)
    ensures DigitsValue(NatToString(n)) == n
  {
    if n >= 10 {
      var s := NatToString(n / 10);
      var t := s + [DigitChar(n % 10)];
      assert t[..|t| - 1] == s;
      NatToStringValue(n / 10);
    }
  }

  // ---------------------------------------------------------------------------
  // int(s)

  /** The ASCII characters Python's `int()` strips as whitespace: space,
      tab, line feed, vertical tab, form feed and carriage return. The
      separators 0x1C-0x1F, which `str.split()` treats as whitespace, are
      not stripped by `int()`. */
  predicate IsSpace(c: char) {
    c == ' ' || 9 <= c as int <= 13
  }

  function StripStart(s: string): (r: string)
    ensures |r| <= |s| && r == s[|s| - |r|..]
    ensures |r| > 0 ==> !IsSpace(r[0])
  {
    if |s| > 0 && IsSpace(s[0]) then StripStart(s[1..]) else s
  }

  function StripEnd(s: string): (r: string)
    ensures |r| <= |s| && r == s[..|r|]
    ensures |r| > 0 ==> !IsSpace(r[|r| - 1])
  {
    if |s| > 0 && IsSpace(s[|s| - 1]) then StripEnd(s[..|s| - 1]) else s
  }

  function Strip(s: string): string {
    StripEnd(StripStart(s))
  }

  /** A run of digits in which single underscores may separate digits, as
      `int()` accepts after the sign: "1_000" but not "_1", "1_" or "1__0". */
  predicate DigitGroups(s: string) {
    && |s| > 0
    && IsDigit(s[0])
    && IsDigit(s[|s| - 1])
    && (forall i :: 0 <= i < |s| ==> IsDigit(s[i]) || s[i] == '_')
    && (forall i :: 0 <= i < |s| - 1 && s[i] == '_' ==> s[i + 1] != '_')
  }

  function DropUnderscores(s: string): (r: string)
    requires forall i :: 0 <= i < |s| ==> IsDigit(s[i]) || s[i] == '_'
    ensures AllDigits(r)
    ensures AllDigits(s) ==> r == s
  {
    if |s| == 0 then []
    else if s[0] == '_' then DropUnderscores(s[1..])
    else [s[0]] + DropUnderscores(s[1..])
  }

  /** `int(s)` for base 10 with no limit on the number of digits: None where
      Python raises ValueError. */
  function ParseInt(s: string): Option<int> {
    ParseSigned(Strip(s))
  }

  /** `int()` after whitespace is stripped: an optional sign, then digit groups. */
  function ParseSigned(b: string): Option<int> {
    if |b| > 0 && (b[0] == '-' || b[0] == '+') then
      match ParseDigitGroups(b[1..])
      case Some(v) => Some(if b[0] == '-' then -v else v)
      case None => None
    else ParseDigitGroups(b)
  }

  function ParseDigitGroups(t: string): (r: Option<int>)
    ensures r.Some? <==> DigitGroups(t)
    ensures r.Some? ==> r.value >= 0
  {
    if DigitGroups(t) then Some(DigitsValue(DropUnderscores(t))) else None
  }

  /** `int()` only succeeds on text holding at least one digit: anything else
      raises ValueError. */
  lemma ParseIntNeedsDigit(s: string)
    requires forall i :: 0 <= i < |s| ==> !IsDigit(s[i])
    ensures ParseInt(s) == None
  {
    var a := StripStart(s);
    var b := StripEnd(a);
    assert forall i :: 0 <= i < |a| ==> a[i] == s[|s| - |a| + i];
    if |b| > 0 {
      assert b[0] == a[0];
      assert !IsDigit(b[0]);
      if |b| > 1 {
        assert b[1] == a[1];
        assert !IsDigit(b[1]);
      }
    }
  }

  /** `int(str(i)) == i`: the decimal text of an integer reads back as that
      integer. */
  lemma ParseIntToString(i: int)
    ensures ParseInt(IntToString(i)) == Some(i)
  {
    var n: nat := if i < 0 then -i else i;
    var s, digits := IntToString(i), NatToString(n);
    DigitsParse(digits);
    NatToStringValue(n);
    StripUnchanged(s);
    if i < 0 {
      assert s[1..] == digits;
    } else {
      assert s == digits;
    }
  }

  /** Text without whitespace at either end is left alone by `strip()`. */
  lemma StripUnchanged(s: string)
    requires |s| > 0 && !IsSpace(s[0]) && !IsSpace(s[|s| - 1])
    ensures Strip(s) == s
  {
    assert StripStart(s) == s;
  }

  /** A non-empty run of plain digits is one digit group. */
  lemma DigitsParse(d: string)
    requires |d| > 0 && AllDigits(d)
    ensures ParseDigitGroups(d) == Some(DigitsValue(d))
  {
    assert DigitGroups(d);
  }

  /** CPython's default bound on the digits `int()` converts
      (`sys.get_int_max_str_digits()`), in force from 3.11 on and in the
      security releases 3.7.14, 3.8.14, 3.9.14 and 3.10.7. */
  const MaxStrDigits: nat := 4300

  /** The number of ASCII digits in `s`. */
  function DigitCount(s: string): nat {
    if |s| == 0 then 0 else (if IsDigit(s[0]) then 1 else 0) + DigitCount(s[1..])
  }

  /** `int(s)` under the default digit bound: text that is otherwise a valid
      integer still raises ValueError when it holds more than 4300 digits.
      Underscores, the sign and the stripped whitespace are not digits. */
  function IntOfText(s: string): Option<int> {
    if DigitCount(s) > MaxStrDigits then None else ParseInt(s)
  }

  lemma {:induction false} DigitCountOfDigits(s: string)
    requires AllDigits(s)
    ensures DigitCount(s) == |s|
  {
    if |s| > 0 {
      DigitCountOfDigits(s[1..]);
    }
  }

  /** `int(str(i)) == i` under the digit bound, for every integer whose
      decimal text stays within it. */
  lemma IntOfTextToString(i: int)
    requires |NatToString(if i < 0 then -i else i)| <= MaxStrDigits
    ensures IntOfText(IntToString(i)) == Some(i)
  {
    var digits := NatToString(if i < 0 then -i else i);
    DigitCountOfDigits(digits);
    if i < 0 {
      assert IntToString(i)[1..] == digits;
    }
    ParseIntToString(i);
  }

  /** A well-formed run of more than 4300 digits is refused: the bound, not
      the syntax, raises. */
  lemma LongDigitsRefused(s: string)
    requires |s| > MaxStrDigits && AllDigits(s)
    ensures ParseInt(s).Some?
    ensures IntOfText(s) == None
  {
    DigitCountOfDigits(s);
    DigitsReadAsInt(s);
  }

  /** A non-empty run of plain digits reads as the number it denotes. */
  lemma DigitsReadAsInt(d: string)
    requires |d| > 0 && AllDigits(d)
    ensures ParseInt(d) == Some(DigitsValue(d))
  {
    StripUnchanged(d);
    assert IsDigit(d[0]);
    assert ParseSigned(d) == ParseDigitGroups(d);
    DigitsParse(d);
  }

  // ---------------------------------------------------------------------------
  // s.split(' ') and ' '.join(words)

  /** The position of the first `c` in `s`. */
  function IndexOf(s: string, c: char): (i: nat)
    requires c in s
    ensures i < |s| && s[i] == c && c !in s[..i]
  {
    if s[0] == c then 0
    else
      assert c in s[1..] by {
        var k :| 0 <= k < |s| && s[k] == c;
        assert s[1..][k - 1] == c;
      }
      var j := IndexOf(s[1..], c);
      assert s[..j + 1] == [s[0]] + s[1..][..j];
      j + 1
  }

  /** `s.split(' ')`: the pieces between single spaces, empty pieces kept. */
  function SplitOnSpace(s: string): (words: seq<string>)
    ensures |words| >= 1
    ensures forall k :: 0 <= k < |words| ==> ' ' !in words[k]
    decreases |s|
  {
    if ' ' !in s then [s]
    else
      var i := IndexOf(s, ' ');
      [s[..i]] + SplitOnSpace(s[i + 1..])
  }

  /** `' '.join(words)`. */
  function JoinWithSpace(words: seq<string>): string
    requires |words| >= 1
  {
    if |words| == 1 then words[0]
    else words[0] + " " + JoinWithSpace(words[1..])
  }

  lemma JoinTwo(a: string, b: string)
    ensures JoinWithSpace([a, b]) == a + " " + b
  {
    assert [a, b][1..] == [b];
  }

  lemma JoinFour(a: string, b: string, c: string, d: string)
    ensures JoinWithSpace([a, b, c, d]) == a + " " + b + " " + c + " " + d
  {
    assert [a, b, c, d][1..] == [b, c, d];
    assert [b, c, d][1..] == [c, d];
    JoinTwo(c, d);
  }

  lemma JoinFive(a: string, b: string, c: string, d: string, e: string)
    ensures JoinWithSpace([a, b, c, d, e]) == a + " " + b + " " + c + " " + d + " " + e
  {
    assert [a, b, c, d, e][1..] == [b, c, d, e];
    JoinFour(b, c, d, e);
  }

  /** Splitting a space-joined list of space-free words gives the words back. */
  lemma {:induction false} SplitJoin(words: seq<string>)
    requires |words| >= 1
    requires forall k :: 0 <= k < |words| ==> ' ' !in words[k]
    ensures SplitOnSpace(JoinWithSpace(words)) == words
  {
    if |words| > 1 {
      var w := words[0];
      var rest := JoinWithSpace(words[1..]);
      var s := w + " " + rest;
      assert JoinWithSpace(words) == s;
      assert s[|w|] == ' ';
      var i := IndexOf(s, ' ');
      assert i == |w| by {
        assert s[..|w|] == w;
      }
      assert s[..i] == w;
      assert s[i + 1..] == rest;
      SplitJoin(words[1..]);
      assert SplitOnSpace(s) == [w] + SplitOnSpace(rest);
      assert words == [w] + words[1..];
    }
  }

  // ---------------------------------------------------------------------------
  // strftime('%H:%M')

  /** A zero-padded two-digit number, as `%H` and `%M` print. */
  function Pad2(n: int): (s: string)
    requires 0 <= n < 100
    ensures |s| == 2 && AllDigits(s)
  {
    [DigitChar(n / 10), DigitChar(n % 10)]
  }

  /** `strftime('%H:%M')` of the wall-clock minute `minute` of a day. */
  function ClockText(minute: int): (s: string)
    requires 0 <= minute < 1440
    ensures |s| == 5 && s[2] == ':'
  {
    Pad2(minute / 60) + ":" + Pad2(minute % 60)
  }

  /** Reads `HH:MM` text back as a minute of the day. */
  function ParseClock(s: string): (r: Option<int>)
    ensures r.Some? ==> 0 <= r.value < 1440
  {
    if |s| == 5 && s[2] == ':' && AllDigits(s[..2]) && AllDigits(s[3..]) then
      var h := DigitsValue(s[..2]);
      var m := DigitsValue(s[3..]);
      if h < 24 && m < 60 then Some(h * 60 + m) else None
    else None
  }

  /** Every wall-clock minute reads back from its `HH:MM` text. */
  lemma ParseClockText(minute: int)
    requires 0 <= minute < 1440
    ensures ParseClock(ClockText(minute)) == Some(minute)
  {
    var s := ClockText(minute);
    var h, m := minute / 60, minute % 60;
    assert s[..2] == Pad2(h) && s[3..] == Pad2(m);
    Pad2Value(h);
    Pad2Value(m);
  }

  lemma Pad2Value(n: int)
    requires 0 <= n < 100
    ensures DigitsValue(Pad2(n)) == n
  {
    var s := Pad2(n);
    assert s[..1][..0] == [];
    assert s[..1] == [DigitChar(n / 10)];
  }
}
