/** How JavaScript prints and parses the whole numbers that appear in topic names. */
module Decimal {
  import opened Wrappers

  const DIGITS: string := "0123456789"
  /** The characters ECMAScript counts as white space or line terminators. */
  const WHITESPACE: string :=
    " \t\n\r\U{B}\U{C}\U{A0}\U{FEFF}\U{1680}\U{2000}\U{2001}\U{2002}\U{2003}\U{2004}\U{2005}\U{2006}"
    + "\U{2007}\U{2008}\U{2009}\U{200A}\U{2028}\U{2029}\U{202F}\U{205F}\U{3000}"

  /** Value of a digit in the given radix, 10 or 16. */
  function DigitOf(c: char, radix: nat): (r: Option<nat>)
  {
    if '0' <= c <= '9' then Some(c as int - '0' as int)
    else if radix == 16 && 'a' <= c <= 'f' then Some(c as int - 'a' as int + 10)
    else if radix == 16 && 'A' <= c <= 'F' then Some(c as int - 'A' as int + 10)
    else None
  }

  function DigitChar(d: nat): (c: char)
    requires d < 10
    ensures DigitOf(c, 10) == Some(d)
  {
    DIGITS[d]
  }

  /** Template-string printing of a non-negative whole number. */
  function Print(n: nat): (s: string)
    ensures s != [] && forall c | c in s :: '0' <= c <= '9'
  {
    if n < 10 then [DigitChar(n)] else Print(n / 10) + [DigitChar(n % 10)]
  }

  function PrintInt(n: int): string { if n < 0 then "-" + Print(-n) else Print(n) }

  /** Folds the leading digits of `s` into `value`. */
  function Digits(s: string, radix: nat, value: nat): nat {
    if s == [] then value
    else
      match DigitOf(s[0], radix)
      case None => value
      case Some(d) => Digits(s[1..], radix, (if radix == 16 then 16 * value else 10 * value) + d)
  }

  function Magnitude(s: string, radix: nat): Option<nat> {
    if s == [] || DigitOf(s[0], radix).None? then None else Some(Digits(s, radix, 0))
  }

  predicate IsWhite(c: char) { c in WHITESPACE }

  lemma NeverWhite(c: char)
    requires '0' <= c <= '9' || c in "-+x"
    ensures !IsWhite(c)
  {}

  function TrimStart(s: string): string {
    if s != [] && IsWhite(s[0]) then TrimStart(s[1..]) else s
  }

  /** parseInt without a radix; None is NaN. */
  function ParseInt(s: string): Option<int> {
    var t := TrimStart(s);
    var negative := t != [] && t[0] == '-';
    var u := if t != [] && t[0] in "+-" then t[1..] else t;
    var hex := |u| >= 2 && u[0] == '0' && u[1] in "xX";
    match if hex then Magnitude(u[2..], 16) else Magnitude(u, 10)
    case None => None
    case Some(m) =>
      var value: int := m;
      Some(if negative then -value else value)
  }

  lemma {:induction false} DigitsAppend(a: string, c: char, value: nat)
    requires forall d | d in a :: '0' <= d <= '9'
    requires '0' <= c <= '9'
    ensures Digits(a + [c], 10, value) == 10 * Digits(a, 10, value) + DigitOf(c, 10).value
    decreases |a|
  {
    if a == [] {
      assert a + [c] == [c] && [c][1..] == [];
      assert Digits([c], 10, value) == Digits([], 10, 10 * value + DigitOf(c, 10).value);
    } else {
      assert a[0] in a && (a + [c])[0] == a[0] && (a + [c])[1..] == a[1..] + [c];
      assert forall d | d in a[1..] :: d in a;
      DigitsAppend(a[1..], c, 10 * value + DigitOf(a[0], 10).value);
    }
  }

  lemma {:induction false} DigitsOfPrint(n: nat)
    ensures Digits(Print(n), 10, 0) == n
  {
    if n < 10 {
      assert [DigitChar(n)][1..] == [];
      assert Digits([DigitChar(n)], 10, 0) == Digits([], 10, n);
    } else {
      DigitsOfPrint(n / 10);
      DigitsAppend(Print(n / 10), DigitChar(n % 10), 0);
    }
  }

  /** Decimal digits are neither white space nor a sign nor a hexadecimal prefix. */
  lemma ParseUnsigned(s: string, negative: bool)
    requires s != [] && forall c | c in s :: '0' <= c <= '9'
    ensures ParseInt(if negative then "-" + s else s)
         == Some(if negative then -(Digits(s, 10, 0) as int) else Digits(s, 10, 0))
  {
    hide Digits, IsWhite;
    var t := if negative then "-" + s else s;
    assert s[0] in s;
    NeverWhite(s[0]);
    NeverWhite('-');
    assert TrimStart(t) == t;
    if |s| > 1 {
      assert s[1] in s;
    }
    if negative {
      assert t[1..] == s;
    }
  }

  /** parseInt reads back what a number prints as, sign included. */
  lemma ParsePrinted(n: int)
    ensures ParseInt(PrintInt(n)) == Some(n)
  {
    hide Print, Digits;
    var m := if n < 0 then -n else n;
    DigitsOfPrint(m);
    var s := Print(m);
    ParseUnsigned(s, n < 0);
  }

  lemma {:induction false} TrimSpace(space: string, rest: string)
    requires forall c | c in space :: IsWhite(c)
    ensures TrimStart(space + rest) == TrimStart(rest)
  {
    if space == "" {
      assert space + rest == rest;
    } else {
      assert space[0] in space && (space + rest)[1..] == space[1..] + rest;
      TrimSpace(space[1..], rest);
    }
  }

  lemma SameTrimmed(a: string, b: string)
    requires TrimStart(a) == TrimStart(b)
    ensures ParseInt(a) == ParseInt(b)
  {}

  lemma {:induction false} DigitsStop(s: string, rest: string, value: nat)
    requires forall c | c in s :: '0' <= c <= '9'
    requires rest != "" ==> !('0' <= rest[0] <= '9')
    ensures Digits(s + rest, 10, value) == Digits(s, 10, value)
    decreases |s|
  {
    if s == "" {
      assert s + rest == rest;
    } else {
      assert s[0] in s && (s + rest)[0] == s[0] && (s + rest)[1..] == s[1..] + rest;
      assert forall c | c in s[1..] :: c in s;
      DigitsStop(s[1..], rest, 10 * value + DigitOf(s[0], 10).value);
    }
  }

  /** Only zero prints with a zero in front. */
  lemma {:induction false} PrintedZeroFirst(n: nat)
    ensures Print(n)[0] == '0' ==> n == 0 && |Print(n)| == 1
  {
    if n >= 10 {
      PrintedZeroFirst(n / 10);
    }
  }

  lemma ParseDigits(s: string, rest: string, negative: bool)
    requires s != "" && (forall c | c in s :: '0' <= c <= '9') && Digits(s + rest, 10, 0) == Digits(s, 10, 0)
    requires rest != "" && |s| == 1 && s[0] == '0' ==> rest[0] !in "xX"
    ensures ParseInt(if negative then "-" + (s + rest) else s + rest)
         == Some(if negative then -(Digits(s, 10, 0) as int) else Digits(s, 10, 0))
  {
    hide Digits, IsWhite;
    var all := s + rest;
    var t := if negative then "-" + all else all;
    assert s[0] in s && all[0] == s[0];
    NeverWhite(s[0]);
    NeverWhite('-');
    assert TrimStart(t) == t;
    if |s| > 1 {
      assert s[1] in s && all[1] == s[1];
    } else if rest != "" {
      assert all[1] == rest[0];
    }
    if negative {
      assert t[1..] == all;
    }
  }

  /** parseInt skips white space in front and stops at what is not a digit. */
  lemma ParseAmongOthers(space: string, n: int, rest: string)
    requires forall c | c in space :: IsWhite(c)
    requires rest != "" ==> !('0' <= rest[0] <= '9') && (n == 0 ==> rest[0] !in "xX")
    ensures ParseInt(space + PrintInt(n) + rest) == Some(n)
  {
    hide Print, Digits, ParseInt, TrimStart;
    var m := if n < 0 then -n else n;
    var s := Print(m);
    DigitsOfPrint(m);
    DigitsStop(s, rest, 0);
    PrintedZeroFirst(m);
    assert s[0] in s;
    TrimSpace(space, PrintInt(n) + rest);
    assert space + PrintInt(n) + rest == space + (PrintInt(n) + rest);
    ParseDigits(s, rest, n < 0);
    assert PrintInt(n) + rest == (if n < 0 then "-" + (s + rest) else s + rest);
    SameTrimmed(space + PrintInt(n) + rest, PrintInt(n) + rest);
  }

  lemma HexExample()
    ensures ParseInt("0x1F") == Some(31)
  {
    hide IsWhite;
    NeverWhite('0');
    assert "0x1F"[2..] == "1F" && "1F"[1..] == "F" && "F"[1..] == "";
    assert Digits("", 16, 31) == 31 && Digits("F", 16, 1) == 31 && Digits("1F", 16, 0) == 31;
  }

  lemma PlusExample()
    ensures ParseInt("+7") == Some(7)
  {
    hide IsWhite;
    NeverWhite('+');
    assert "+7"[1..] == "7" && "7"[1..] == "" && Digits("", 10, 7) == 7 && Digits("7", 10, 0) == 7;
  }

  lemma ZerosExample()
    ensures ParseInt("007z") == Some(7)
  {
    hide IsWhite;
    NeverWhite('0');
    assert "007z"[1..] == "07z" && "07z"[1..] == "7z" && "7z"[1..] == "z";
    assert Digits("z", 10, 7) == 7 && Digits("7z", 10, 0) == 7 && Digits("07z", 10, 0) == 7;
    assert Digits("007z", 10, 0) == 7;
  }

  /** Hexadecimal digits behind 0x are read as such; a plus sign and leading zeros are accepted. */
  lemma ParseExamples()
    ensures ParseInt("0x1F") == Some(31) && ParseInt("+7") == Some(7) && ParseInt("007z") == Some(7)
  {
    HexExample();
    PlusExample();
    ZerosExample();
  }

  /** What has no digit in front is not a number. */
  lemma NotNumbers()
    ensures ParseInt("") == None && ParseInt("-") == None && ParseInt("x1") == None && ParseInt("0x") == None
  {
    hide IsWhite, Digits;
    NeverWhite('-');
    NeverWhite('x');
    NeverWhite('0');
    assert "-"[1..] == "" && "0x"[2..] == "";
    assert TrimStart("-") == "-" && TrimStart("x1") == "x1" && TrimStart("0x") == "0x";
  }
}
