/** Number printing and lib/src/SafeParser.hpp's tolerant number parsing. */
module SafeParser {
  import opened Bytes
  import opened Wrappers

  // ----- digits -----

  /** std::from_chars accepts hexadecimal digits of either case. */
  function DigitValue(c: char): nat {
    if '0' <= c <= '9' then (c - '0') as nat
    else if 'a' <= c <= 'f' then (c - 'a') as nat + 10
    else if 'A' <= c <= 'F' then (c - 'A') as nat + 10
    else 99
  }

  predicate IsDigit(c: char) {
    '0' <= c <= '9'
  }

  function DigitChar(d: nat): (c: char)
    requires d < 16
    ensures DigitValue(c) == d && (IsDigit(c) <==> d < 10)
  {
    if d < 10 then '0' + d as char else 'a' + (d - 10) as char
  }

  predicate AllDigits(s: string, base: nat) {
    forall i :: 0 <= i < |s| ==> DigitValue(s[i]) < base
  }

  function Value(s: string, base: nat): nat {
    if s == "" then 0 else Value(s[..|s| - 1], base) * base + DigitValue(s[|s| - 1])
  }

  /** std::to_string for base 10. */
  function Print(n: nat, base: nat): (s: string)
    requires 2 <= base <= 16
    ensures s != ""
    decreases n
  {
    if n < base then [DigitChar(n)]
    else
      assert n / base < n by { Shrinks(n, base); }
      Print(n / base, base) + [DigitChar(n % base)]
  }

  lemma Shrinks(n: nat, base: nat)
    requires 2 <= base <= n
    ensures n / base < n
  {
    var q := n / base;
    Divides(n, base);
    AtLeastTwice(q, base);
  }

  lemma AtLeastTwice(q: nat, base: nat)
    requires 2 <= base
    ensures q * base >= q + q
  {
    assert q * base == q * 2 + q * (base - 2);
  }

  lemma Divides(n: nat, base: nat)
    requires 2 <= base
    ensures n == (n / base) * base + n % base
  {
  }

  lemma AppendDigit(s: string, c: char, base: nat)
    ensures Value(s + [c], base) == Value(s, base) * base + DigitValue(c)
  {
    assert (s + [c])[..|s|] == s;
  }

  lemma {:induction false} PrintDigits(n: nat, base: nat)
    requires 2 <= base <= 16
    ensures AllDigits(Print(n, base), base)
    ensures base <= 10 ==> forall i :: 0 <= i < |Print(n, base)| ==> IsDigit(Print(n, base)[i])
    decreases n
  {
    hide DigitChar, DigitValue, IsDigit;
    if n >= base {
      Shrinks(n, base);
      PrintDigits(n / base, base);
    }
  }

  lemma {:induction false} PrintValue(n: nat, base: nat)
    requires 2 <= base <= 16
    ensures Value(Print(n, base), base) == n
    decreases n
  {
    hide DigitChar, DigitValue, Value;
    if n < base {
      assert Value([DigitChar(n)], base) == n by {
        AppendDigit("", DigitChar(n), base);
        assert "" + [DigitChar(n)] == [DigitChar(n)];
        EmptyValue(base);
      }
    } else {
      Shrinks(n, base);
      PrintValue(n / base, base);
      AppendDigit(Print(n / base, base), DigitChar(n % base), base);
      Divides(n, base);
    }
  }

  lemma EmptyValue(base: nat)
    ensures Value("", base) == 0
  {
  }

  /** A printed number has digits only and reads as itself. */
  lemma PrintParses(n: nat, base: nat)
    requires 2 <= base <= 16
    ensures AllDigits(Print(n, base), base) && Value(Print(n, base), base) == n
    ensures base <= 10 ==> forall i :: 0 <= i < |Print(n, base)| ==> IsDigit(Print(n, base)[i])
  {
    PrintDigits(n, base);
    PrintValue(n, base);
  }

  // ----- trimming -----

  predicate IsWhitespace(c: char) {
    c == ' ' || c == '\t' || c == '\n' || c == '\r'
  }

  predicate AllWhitespace(s: string) {
    forall i :: 0 <= i < |s| ==> IsWhitespace(s[i])
  }

  function TrimFront(s: string): string {
    if s != "" && IsWhitespace(s[0]) then TrimFront(s[1..]) else s
  }

  function TrimBack(s: string): string {
    if s != "" && IsWhitespace(s[|s| - 1]) then TrimBack(s[..|s| - 1]) else s
  }

  function Trim(s: string): string {
    TrimBack(TrimFront(s))
  }

  method TrimView(text: string) returns (s: string)
    ensures s == Trim(text)
  {
    s := text;
    while s != "" && IsWhitespace(s[0])
      invariant TrimFront(s) == TrimFront(text)
      decreases |s|
    {
      s := s[1..];
    }
    while s != "" && IsWhitespace(s[|s| - 1])
      invariant TrimBack(s) == Trim(text)
      decreases |s|
    {
      s := s[..|s| - 1];
    }
  }

  lemma {:induction false} TrimFrontPadding(pad: string, s: string)
    requires AllWhitespace(pad) && s != "" && !IsWhitespace(s[0])
    ensures TrimFront(pad + s) == s
  {
    if pad == "" {
      assert pad + s == s;
    } else {
      assert (pad + s)[1..] == pad[1..] + s;
      TrimFrontPadding(pad[1..], s);
    }
  }

  lemma {:induction false} TrimBackPadding(s: string, pad: string)
    requires AllWhitespace(pad) && s != "" && !IsWhitespace(s[|s| - 1])
    ensures TrimBack(s + pad) == s
  {
    if pad == "" {
      assert s + pad == s;
    } else {
      assert (s + pad)[..|s + pad| - 1] == s + pad[..|pad| - 1];
      TrimBackPadding(s, pad[..|pad| - 1]);
    }
  }

  /** Trimming takes exactly the padding off. */
  lemma TrimPadding(before: string, s: string, after: string)
    requires AllWhitespace(before) && AllWhitespace(after)
    requires s != "" && !IsWhitespace(s[0]) && !IsWhitespace(s[|s| - 1])
    ensures Trim(before + s + after) == s
  {
    assert before + s + after == before + (s + after);
    TrimFrontPadding(before, s + after);
    TrimBackPadding(s, after);
  }

  // ----- parsing -----

  /** std::from_chars over the whole of s: at least one digit, only digits, and a 64-bit value. */
  function FromDigits(s: string, base: nat): Option<uint64> {
    if s != "" && AllDigits(s, base) && Value(s, base) < TWO64 then Some(Value(s, base)) else None
  }

  predicate HasHexPrefix(s: string) {
    |s| >= 2 && s[0] == '0' && (s[1] == 'x' || s[1] == 'X')
  }

  function FromUnsigned(s: string): Option<uint64> {
    if HasHexPrefix(s) then FromDigits(s[2..], 16) else FromDigits(s, 10)
  }

  function FromTrimmed(s: string): Option<uint64> {
    if s == "" then None
    else if s[0] == '+' then FromUnsigned(s[1..])
    else if s[0] == '-' then None
    else FromUnsigned(s)
  }

  function FromChars64(text: string): Option<uint64> {
    FromTrimmed(Trim(text))
  }

  /** A text is accepted exactly if it is not empty, holds nothing but digits and its value fits. */
  lemma AcceptedIff(s: string, base: nat)
    ensures FromDigits(s, base).Some? <==>
            |s| > 0 && (forall c :: c in s ==> DigitValue(c) < base) && Value(s, base) < TWO64
  {
  }

  lemma SignIsSkipped(sign: string, s: string)
    requires IsSign(sign) && s != "" && IsDigit(s[0])
    ensures FromTrimmed(sign + s) == FromUnsigned(s)
  {
    hide FromUnsigned;
    if sign == "" {
      assert sign + s == s;
    } else {
      assert (sign + s)[1..] == s;
    }
  }

  method FromCharsUint64(text: string) returns (r: Option<uint64>)
    ensures r == FromChars64(text)
  {
    var s := TrimView(text);
    if s == "" {
      return None;
    }
    var negative := false;
    if s[0] == '+' {
      s := s[1..];
      if s == "" {
        return None;
      }
    } else if s[0] == '-' {
      negative := true;
      s := s[1..];
      if s == "" {
        return None;
      }
    }
    var base := 10;
    if HasHexPrefix(s) {
      base := 16;
      s := s[2..];
      if s == "" {
        return None;
      }
    }
    r := FromDigits(s, base);
    if negative {
      r := None;
    }
  }

  function FromChars32(text: string): Option<uint32> {
    var r := FromChars64(text);
    if r.Some? && r.value < TWO32 then Some(r.value) else None
  }

  predicate IsSign(s: string) {
    s == "" || s == "+"
  }

  lemma PrintedIsPlain(n: nat)
    ensures var s := Print(n, 10);
            IsDigit(s[0]) && IsDigit(s[|s| - 1]) && !HasHexPrefix(s)
  {
    PrintParses(n, 10);
    assert |Print(n, 10)| >= 2 ==> IsDigit(Print(n, 10)[1]);
  }

  /** A printed number reads back, with or without a plus sign and padding, exactly when it fits 64 bits. */
  lemma DecimalReadsBack(before: string, sign: string, n: nat, after: string)
    requires AllWhitespace(before) && AllWhitespace(after) && IsSign(sign)
    ensures FromChars64(before + (sign + Print(n, 10)) + after) == if n < TWO64 then Some(n) else None
  {
    var s := Print(n, 10);
    PrintedIsPlain(n);
    PrintParses(n, 10);
    assert sign + s != "" && !IsWhitespace((sign + s)[0]) && !IsWhitespace((sign + s)[|sign + s| - 1]);
    hide Trim, Value, Print, FromTrimmed, IsWhitespace;
    TrimPadding(before, sign + s, after);
    SignIsSkipped(sign, s);
  }

  /** A minus sign is refused whatever number follows. */
  lemma NegativeRefused(before: string, n: nat, after: string)
    requires AllWhitespace(before) && AllWhitespace(after)
    ensures FromChars64(before + ("-" + Print(n, 10)) + after) == None
  {
    var s := "-" + Print(n, 10);
    PrintedIsPlain(n);
    assert s != "" && !IsWhitespace(s[0]) && !IsWhitespace(s[|s| - 1]);
    hide Trim, Print, FromUnsigned, IsWhitespace;
    TrimPadding(before, s, after);
  }

  lemma LastDigitNotSpace(n: nat)
    ensures var s := Print(n, 16); !IsWhitespace(s[|s| - 1])
  {
    PrintParses(n, 16);
  }

  lemma HexReadsBack(before: string, sign: string, x: char, n: nat, after: string)
    requires AllWhitespace(before) && AllWhitespace(after) && IsSign(sign) && (x == 'x' || x == 'X')
    ensures FromChars64(before + (sign + (['0', x] + Print(n, 16))) + after) == if n < TWO64 then Some(n) else None
  {
    var d := Print(n, 16);
    var s := ['0', x] + d;
    PrintParses(n, 16);
    LastDigitNotSpace(n);
    assert sign + s != "" && !IsWhitespace((sign + s)[0]) && !IsWhitespace((sign + s)[|sign + s| - 1]);
    hide Trim, Value, Print, FromTrimmed, IsWhitespace;
    TrimPadding(before, sign + s, after);
    SignIsSkipped(sign, s);
    assert s[2..] == d;
  }

  lemma Uint32ReadsBack(n: nat)
    ensures FromChars32(Print(n, 10)) == if n < TWO32 then Some(n) else None
  {
    DecimalReadsBack("", "", n, "");
    assert "" + ("" + Print(n, 10)) + "" == Print(n, 10);
    hide FromChars64, Print;
  }

  lemma PrintedSamples()
    ensures Print(431, 16) == "1af" && Print(120, 10) == "120"
  {
    assert Print(1, 16) == "1" && Print(26, 16) == "1a" && Print(1, 10) == "1" && Print(12, 10) == "12";
  }

  const SMALL_HEX: string := "0123456789abcdef"
  const CAPITAL_HEX: string := "0123456789ABCDEF"

  /** Sixteen hexadecimal digits, six of them in two cases; no other character is a digit. */
  lemma DigitValueIs(c: char)
    ensures DigitValue(c) < 16 <==> c in SMALL_HEX || c in CAPITAL_HEX
    ensures DigitValue(c) < 16 ==> SMALL_HEX[DigitValue(c)] == c || CAPITAL_HEX[DigitValue(c)] == c
    ensures IsDigit(c) <==> DigitValue(c) < 10
  {
    if DigitValue(c) < 16 {
      assert SMALL_HEX[DigitValue(c)] == c || CAPITAL_HEX[DigitValue(c)] == c;
    }
  }

  /** Digits are read from the left; padding and a plus sign are skipped. */
  lemma ReadExamples()
    ensures FromChars64(" +0x1af\n") == Some(431) && FromChars64("\t120 ") == Some(120)
  {
    hide Print, FromChars64;
    PrintedSamples();
    HexReadsBack(" ", "+", 'x', 431, "\n");
    DecimalReadsBack("\t", "", 120, " ");
    assert " " + ("+" + (['0', 'x'] + "1af")) + "\n" == " +0x1af\n";
    assert "\t" + ("" + "120") + " " == "\t120 ";
  }
}
