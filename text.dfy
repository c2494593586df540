/** The text the debugger shows and reads: Python's `str` of an integer, Python's
    `int` of a string (as the jump command uses it), the prompt label, and the
    one-line description of a universe with its location cut to the last 75
    characters. */
module Text {

  datatype Option<+T> = None | Some(value: T)

  /** Hour, minute and second of a capture (fields 3, 4 and 5 of `time.localtime()`). */
  datatype Clock = Clock(hour: int, minute: int, second: int)

  /** How many trailing characters of "file:line" a description keeps. */
  const LocationWidth: nat := 75

  predicate IsDigit(c: char) {
    '0' <= c <= '9'
  }

  predicate AllDigits(s: string) {
    forall k :: 0 <= k < |s| ==> IsDigit(s[k])
  }

  function DigitValue(c: char): (d: nat)
    requires IsDigit(c)
    ensures d < 10
  {
    c as int - '0' as int
  }

  function DigitChar(d: nat): (c: char)
    requires d < 10
    ensures IsDigit(c) && DigitValue(c) == d
  {
    ('0' as int + d) as char
  }

  // ---------------------------------------------------------------------------
  // str(n)

  /** Decimal digits of `n`, most significant first, without leading zeros. */
  function NatToString(n: nat): (s: string)
    ensures 1 <= |s| && AllDigits(s)
    ensures n < 10 <==> |s| == 1
    decreases n
  {
    if n < 10 then [DigitChar(n)] else NatToString(n / 10) + [DigitChar(n % 10)]
  }

  /** Python's `str` of an int: a minus sign for negatives, then the digits; no padding. */
  function IntToString(n: int): (s: string)
    ensures 1 <= |s| && (s[0] == '-' <==> n < 0)
    ensures IsDigit(s[|s| - 1])
  {
    if n < 0 then "-" + NatToString(-n) else NatToString(n)
  }

  // ---------------------------------------------------------------------------
  // int(s)

  /** The ASCII characters Python's `int` strips around its argument. */
  predicate IsSpace(c: char) {
    var k := c as int;
    k == 32 || 9 <= k <= 13 || 28 <= k <= 31
  }

  /** The first index at or after `i` that holds no whitespace (or `|s|`). */
  function SkipSpaces(s: string, i: nat): (j: nat)
    requires i <= |s|
    ensures i <= j <= |s|
    ensures forall k :: i <= k < j ==> IsSpace(s[k])
    ensures j == |s| || !IsSpace(s[j])
    decreases |s| - i
  {
    if i < |s| && IsSpace(s[i]) then SkipSpaces(s, i + 1) else i
  }

  /** The smallest `k` with `lo <= k <= j` such that `s[k..j]` is all whitespace. */
  function SkipSpacesBack(s: string, lo: nat, j: nat): (k: nat)
    requires lo <= j <= |s|
    ensures lo <= k <= j
    ensures forall m :: k <= m < j ==> IsSpace(s[m])
    ensures k == lo || !IsSpace(s[k - 1])
  {
    if j > lo && IsSpace(s[j - 1]) then SkipSpacesBack(s, lo, j - 1) else j
  }

  /** Python's `str.strip()` over ASCII whitespace. */
  function Strip(s: string): (r: string)
    ensures |r| <= |s|
    ensures r == [] || (!IsSpace(r[0]) && !IsSpace(r[|r| - 1]))
  {
    var a := SkipSpaces(s, 0);
    s[a..SkipSpacesBack(s, a, |s|)]
  }

  /** The digit part Python's `int` accepts in base 10: ASCII digits, where a single
      underscore may separate two digits. Leading zeros are allowed. */
  predicate WellFormedDigits(s: string) {
    && |s| > 0 && IsDigit(s[0]) && IsDigit(s[|s| - 1])
    && (forall k :: 0 <= k < |s| ==> IsDigit(s[k]) || s[k] == '_')
    && (forall i, j :: 0 <= i && j == i + 1 < |s| && s[i] == '_' ==> IsDigit(s[j]))
  }

  /** The digits of `s` with the separating underscores taken out. */
  function DropUnderscores(s: string): (r: string)
    ensures |r| <= |s| && AllDigits(r)
  {
    if s == [] then []
    else (if IsDigit(s[0]) then [s[0]] else []) + DropUnderscores(s[1..])
  }

  lemma {:induction false} DropUnderscoresOfDigits(s: string)
    requires AllDigits(s)
    ensures DropUnderscores(s) == s
  {
    if s != [] {
      DropUnderscoresOfDigits(s[1..]);
      assert [s[0]] + s[1..] == s;
    }
  }

  /** The number the digit string `s` denotes in base 10. */
  function DigitsValue(s: string): nat
    requires AllDigits(s)
  {
    if s == [] then 0 else 10 * DigitsValue(s[..|s| - 1]) + DigitValue(s[|s| - 1])
  }

  function ParseDigits(s: string): Option<nat> {
    if WellFormedDigits(s) then Some(DigitsValue(DropUnderscores(s))) else None
  }

  /** Python's `int(s)` in base 10; `None` where Python raises `ValueError`. */
  function ParseInt(s: string): Option<int> {
    ParseSigned(Strip(s))
  }

  /** An optional sign followed by the digit part. */
  function ParseSigned(t: string): Option<int> {
    var signed := |t| > 0 && (t[0] == '+' || t[0] == '-');
    var magnitude := ParseDigits(if signed then t[1..] else t);
    if magnitude.None? then None
    else if signed && t[0] == '-' then Some(0 - magnitude.value as int)
    else Some(magnitude.value as int)
  }

  lemma {:induction false} DigitsValueOfNatToString(n: nat)
    ensures DigitsValue(NatToString(n)) == n
    decreases n
  {
    var s := NatToString(n);
    if n < 10 {
      assert s[..|s| - 1] == [];
    } else {
      assert s[..|s| - 1] == NatToString(n / 10);
      DigitsValueOfNatToString(n / 10);
    }
  }

  lemma ParseDigitsOfNatToString(n: nat)
    ensures ParseDigits(NatToString(n)) == Some(n)
  {
    DropUnderscoresOfDigits(NatToString(n));
    DigitsValueOfNatToString(n);
  }

  lemma StripOfDigits(s: string)
    requires |s| > 0 && !IsSpace(s[0]) && !IsSpace(s[|s| - 1])
    ensures Strip(s) == s
  {
  }

  /** Without surrounding whitespace, `int` is the sign-and-digits parse. */
  lemma ParseIntOfUnpadded(s: string)
    requires |s| > 0 && !IsSpace(s[0]) && !IsSpace(s[|s| - 1])
    ensures ParseInt(s) == ParseSigned(s)
  {
    StripOfDigits(s);
  }

  lemma ParseSignedOfMinus(d: string, v: nat)
    requires ParseDigits(d) == Some(v)
    ensures ParseSigned("-" + d) == Some(0 - v)
  {
    assert ("-" + d)[1..] == d;
  }

  lemma ParseSignedOfDigits(d: string, v: nat)
    requires |d| > 0 && IsDigit(d[0]) && ParseDigits(d) == Some(v)
    ensures ParseSigned(d) == Some(v)
  {
  }

  lemma ParseIntOfNonNegative(n: int)
    requires n >= 0
    ensures ParseInt(IntToString(n)) == Some(n)
  {
    var d := NatToString(n);
    assert IsDigit(d[0]);
    ParseDigitsOfNatToString(n);
    ParseSignedOfDigits(d, n);
    ParseIntOfUnpadded(d);
  }

  lemma ParseIntOfNegative(n: int)
    requires n < 0
    ensures ParseInt(IntToString(n)) == Some(n)
  {
    var d := NatToString(-n);
    ParseDigitsOfNatToString(-n);
    ParseSignedOfMinus(d, -n);
    ParseIntOfUnpadded("-" + d);
  }

  /** `int(str(n)) == n`: every number the debugger prints reads back as itself. */
  lemma ParseIntOfIntToString(n: int)
    ensures ParseInt(IntToString(n)) == Some(n)
  {
    if n < 0 {
      ParseIntOfNegative(n);
    } else {
      ParseIntOfNonNegative(n);
    }
  }

  /** A string with no ASCII digit in it is not an integer. */
  lemma ParseIntNeedsDigit(s: string)
    requires forall k :: 0 <= k < |s| ==> !IsDigit(s[k])
    ensures ParseInt(s) == None
  {
    var a := SkipSpaces(s, 0);
    var t := s[a..SkipSpacesBack(s, a, |s|)];
    assert Strip(s) == t;
    assert t == [] || t[0] in s;
  }

  // ---------------------------------------------------------------------------
  // Prompt and description

  /** The prompt label after the universe with serial `serial` (index `serial - 1`). */
  function Prompt(serial: int): string {
    "(Pdb:" + IntToString(serial - 1) + ") "
  }

  /** Python's `s[-75:]`: the last 75 characters of `s`, or all of it when shorter. */
  function LastCharacters(s: string): (r: string)
    ensures |r| == if |s| <= LocationWidth then |s| else LocationWidth
    ensures r == s[|s| - |r|..]
  {
    if |s| <= LocationWidth then s else s[|s| - LocationWidth..]
  }

  /** The location part of a description: the tail of "file:line". */
  function Location(filename: string, lineno: int): (r: string)
    ensures |r| <= LocationWidth
    ensures var full := filename + ":" + IntToString(lineno);
            |r| <= |full| && r == full[|full| - |r|..] && (|full| <= LocationWidth ==> r == full)
  {
    LastCharacters(filename + ":" + IntToString(lineno))
  }

  /** "<index>: <pid> [<h>:<m>:<s>] <location>", with index = serial - 1. */
  function Description(serial: int, pid: int, at: Clock, location: string): string {
    IntToString(serial - 1) + ": " + Details(pid, at, location)
  }

  /** The part of a description after "<index>: ". */
  function Details(pid: int, at: Clock, location: string): string {
    IntToString(pid) + " [" + IntToString(at.hour) + ":" + IntToString(at.minute) + ":"
      + IntToString(at.second) + "] " + location
  }

  /** The leading field of a line, up to (not including) its first colon. */
  function BeforeColon(s: string): (r: string)
    ensures |r| <= |s| && r == s[..|r|] && ':' !in r
    ensures |r| < |s| ==> s[|r|] == ':'
  {
    if s == [] || s[0] == ':' then [] else [s[0]] + BeforeColon(s[1..])
  }

  lemma {:induction false} BeforeColonOfField(x: string, y: string)
    requires ':' !in x && |y| > 0 && y[0] == ':'
    ensures BeforeColon(x + y) == x
  {
    if x != [] {
      assert (x + y)[1..] == x[1..] + y;
      assert x[0] in x;
      BeforeColonOfField(x[1..], y);
      assert [x[0]] + x[1..] == x;
    }
  }

  /** A printed number holds no colon. */
  lemma NoColonInNumber(n: int)
    ensures ':' !in IntToString(n)
  {
    var x := IntToString(n);
    var d := NatToString(if n < 0 then -n else n);
    forall k | 0 <= k < |x| ensures x[k] != ':' {
      if n < 0 && k > 0 {
        assert x[k] == d[k - 1];
      }
    }
  }

  lemma DescriptionStartsWithIndex(serial: int, pid: int, at: Clock, location: string)
    ensures BeforeColon(Description(serial, pid, at, location)) == IntToString(serial - 1)
  {
    var x := IntToString(serial - 1);
    var y := ": " + Details(pid, at, location);
    assert Description(serial, pid, at, location) == x + y;
    NoColonInNumber(serial - 1);
    BeforeColonOfField(x, y);
  }

  /** The index a listing line starts with reads back as `serial - 1`: what the
      user copies from the listing is what the jump command expects. */
  lemma DescriptionIndexReadsBack(serial: int, pid: int, at: Clock, location: string)
    ensures ParseInt(BeforeColon(Description(serial, pid, at, location))) == Some(serial - 1)
  {
    DescriptionStartsWithIndex(serial, pid, at, location);
    ParseIntOfIntToString(serial - 1);
  }
}
