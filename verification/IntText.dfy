/** Numbers as text and back (kernel/string.c): itoa fills a buffer in place, atoi reads one. */
module IntText {
  const DIGITS := "0123456789abcdef"
  const INT_MAX := 0x7FFF_FFFF
  const NUL := '\0'

  // ----- dividing by the base -----

  /** The quotient by the base, by repeated subtraction. */
  function High(v: nat, base: nat): (q: nat)
    requires base >= 2
    ensures (v >= base ==> 0 < q < v) && (v < base ==> q == 0)
  {
    if v < base then 0 else 1 + High(v - base, base)
  }

  /** The lowest digit in the base. */
  function Low(v: nat, base: nat): (r: nat)
    requires base >= 2
    ensures r < base && (v < base ==> r == v)
  {
    if v < base then v else Low(v - base, base)
  }

  lemma {:induction false} HighLow(v: nat, base: nat)
    requires base >= 2
    ensures v == High(v, base) * base + Low(v, base) && v / base == High(v, base) && v % base == Low(v, base)
  {
    if v >= base {
      HighLow(v - base, base);
      assert v == (High(v - base, base) + 1) * base + Low(v, base);
    }
    QuotientIs(v, base, High(v, base), Low(v, base));
  }

  lemma QuotientIs(v: nat, b: nat, q: nat, r: nat)
    requires b >= 2 && v == q * b + r && r < b
    ensures v / b == q && v % b == r
  {
    var q', r' := v / b, v % b;
    assert v == b * q' + r';
    assert (q - q') * b == r' - r;
    if q > q' {
      Mono(1, q - q', b);
    } else if q < q' {
      Mono(q - q', -1, b);
    }
  }

  lemma Mono(a: int, b: int, c: int)
    requires a <= b && c >= 0
    ensures a * c <= b * c
  {
    assert (b - a) * c >= 0;
  }

  // ----- the text of a number -----

  function DigitChar(d: nat): (c: char)
    requires d < 16
  {
    if d < 10 then (d + '0' as int) as char else (d - 10 + 'a' as int) as char
  }

  lemma DigitTable(d: nat)
    requires d < 16
    ensures DIGITS[d] == DigitChar(d)
  {
  }

  /** The digits of v, most significant first. */
  function Digits(v: nat, base: nat): (r: string)
    requires 2 <= base <= 16
    ensures |r| >= 1
  {
    if v < base then [DigitChar(v)] else Digits(High(v, base), base) + [DigitChar(Low(v, base))]
  }

  function Text(value: int, base: nat): string
    requires 2 <= base <= 16
  {
    if value < 0 then "-" + Digits(-value, base) else Digits(value, base)
  }

  /** The number that a digit stands for. */
  function DigitValue(c: char): nat {
    if '0' <= c <= '9' then c as nat - '0' as nat
    else if 'a' <= c <= 'f' then c as nat - 'a' as nat + 10 else 0
  }

  function Value(s: string, base: nat): nat {
    if s == [] then 0 else Value(s[..|s| - 1], base) * base + DigitValue(s[|s| - 1])
  }

  lemma DigitOf(d: nat)
    requires d < 16
    ensures DigitValue(DigitChar(d)) == d && (d < 10 ==> '0' <= DigitChar(d) <= '9')
  {
  }

  lemma ValueSnoc(s: string, c: char, base: nat)
    ensures Value(s + [c], base) == Value(s, base) * base + DigitValue(c)
  {
    assert (s + [c])[..|s|] == s;
  }

  /** The digits of a number in any base stand for that number. */
  lemma {:induction false} DigitsStandForTheNumber(v: nat, base: nat)
    requires 2 <= base <= 16
    ensures Value(Digits(v, base), base) == v
  {
    if v < base {
      DigitOf(v);
      ValueSnoc([], DigitChar(v), base);
      assert [] + [DigitChar(v)] == Digits(v, base);
    } else {
      DigitOf(Low(v, base));
      HighLow(v, base);
      DigitsStandForTheNumber(High(v, base), base);
      ValueSnoc(Digits(High(v, base), base), DigitChar(Low(v, base)), base);
    }
  }

  // ----- itoa -----

  /** The digits of v, least significant first, as the loop produces them. */
  ghost function LowFirst(v: nat, base: nat): (r: string)
    requires 2 <= base <= 16
    ensures |r| >= 1
  {
    if v < base then [DigitChar(v)] else [DigitChar(Low(v, base))] + LowFirst(High(v, base), base)
  }

  ghost function Reverse(s: string): (r: string)
    ensures |r| == |s| && forall i :: 0 <= i < |s| ==> r[i] == s[|s| - 1 - i]
  {
    if s == [] then [] else Reverse(s[1..]) + [s[0]]
  }

  lemma {:induction false} LowFirstReversed(v: nat, base: nat)
    requires 2 <= base <= 16
    ensures Reverse(LowFirst(v, base)) == Digits(v, base)
  {
    if v < base {
      assert Reverse([DigitChar(v)]) == [DigitChar(v)];
    } else {
      LowFirstReversed(High(v, base), base);
      assert LowFirst(v, base)[1..] == LowFirst(High(v, base), base);
    }
  }

  /** rest is what remains of all behind its first n characters. */
  ghost predicate Remains(all: string, n: nat, rest: string) {
    n + |rest| == |all| && forall i {:trigger rest[i]} :: 0 <= i < |rest| ==> rest[i] == all[n + i]
  }

  lemma RemainsNext(all: string, n: nat, rest: string, rest': string, digit: char)
    requires Remains(all, n, rest) && rest == [digit] + rest'
    ensures Remains(all, n + 1, rest') && n < |all| && all[n] == digit
  {
    assert rest[0] == digit && forall i :: 0 <= i < |rest'| ==> rest'[i] == rest[i + 1];
  }

  /** One round: the lowest digit, the rest of the number, and whether there is a rest. */
  method NextDigit(value: nat, base: nat, ghost all: string, ghost n: nat) returns (digit: char, v: nat, more: bool)
    requires 2 <= base <= 16 && true == Remains(all, n, LowFirst(value, base))
    ensures n < |all| && digit == all[n]
    ensures true == Remains(all, n + 1, if more then LowFirst(v, base) else [])
  {
    var tmp := value;
    HighLow(tmp, base);
    v := tmp / base;
    DigitTable(tmp - v * base);
    digit := DIGITS[tmp - v * base];
    more := v != 0;
    RemainsNext(all, n, LowFirst(value, base), if more then LowFirst(v, base) else [], digit);
  }

  /** The digit loop: the lowest digit comes first. */
  method WriteDigits(value: nat, str: array<char>, base: nat, start: nat) returns (ptr: nat)
    requires 2 <= base <= 16 && start + |LowFirst(value, base)| < str.Length
    modifies str
    ensures ptr == start + |LowFirst(value, base)| && str[start..ptr] == LowFirst(value, base)
    ensures forall i :: 0 <= i < str.Length && !(start <= i < ptr) ==> str[i] == old(str[i])
  {
    var v: nat, more := value, true;
    ptr := start;
    ghost var all := LowFirst(value, base);
    while more
      invariant start <= ptr <= start + |all|
        && true == Remains(all, ptr - start, if more then LowFirst(v, base) else [])
      invariant forall i {:trigger str[i]} :: start <= i < ptr ==> str[i] == all[i - start]
      invariant forall i {:trigger str[i]} :: 0 <= i < str.Length && !(start <= i < ptr) ==> str[i] == old(str[i])
      decreases |all| - (ptr - start)
    {
      var digit;
      digit, v, more := NextDigit(v, base, all, ptr - start);
      str[ptr] := digit;
      ptr := ptr + 1;
    }
  }

  /** Swaps from both ends until the pointers meet. */
  method ReverseInPlace(str: array<char>, start: nat, end: nat)
    requires start < end < str.Length
    modifies str
    ensures str[start..end] == Reverse(old(str[start..end]))
    ensures forall i :: 0 <= i < str.Length && !(start <= i < end) ==> str[i] == old(str[i])
  {
    ghost var s, both := str[..], start + end - 1;
    var ptr, ptr1 := end - 1, start;
    while ptr1 < ptr
      invariant start <= ptr1 <= ptr + 1 && ptr1 + ptr == both
      invariant forall i {:trigger str[i]} :: 0 <= i < str.Length && !(start <= i < end) ==> str[i] == s[i]
      invariant forall i {:trigger str[i]} :: start <= i < ptr1 || ptr < i < end ==> str[i] == s[both - i]
      invariant forall i {:trigger str[i]} :: ptr1 <= i <= ptr ==> str[i] == s[i]
    {
      var tmp := str[ptr];
      str[ptr] := str[ptr1];
      ptr := ptr - 1;
      str[ptr1] := tmp;
      ptr1 := ptr1 + 1;
    }
    ReversedAt(str[start..end], s[start..end]);
  }

  lemma ReversedAt(r: string, s: string)
    requires |r| == |s| && forall i {:trigger r[i]} :: 0 <= i < |s| ==> r[i] == s[|s| - 1 - i]
    ensures r == Reverse(s)
  {
  }

  /** The digits of a number that is not negative, and the zero behind them. */
  method WriteMagnitude(value: nat, str: array<char>, base: nat, start: nat) returns (end: nat)
    requires 2 <= base <= 16 && start + |Digits(value, base)| < str.Length
    modifies str
    ensures end == start + |Digits(value, base)| && str[start..end] == Digits(value, base) && str[end] == NUL
    ensures forall i :: 0 <= i < str.Length && !(start <= i <= end) ==> str[i] == old(str[i])
  {
    LowFirstReversed(value, base);
    end := WriteDigits(value, str, base, start);
    str[end] := NUL;
    assert str[start..end] == LowFirst(value, base);
    ReverseInPlace(str, start, end);
  }

  /** Writes the text of a number and a terminating zero to the front of the buffer. Only base 10 has negative
      numbers, and the most negative one has no negation to write. */
  method Itoa(value: int, str: array<char>, base: nat)
    requires 2 <= base <= 16 && -INT_MAX <= value <= INT_MAX && (value < 0 ==> base == 10)
    requires |Text(value, base)| < str.Length
    modifies str
    ensures var n := |Text(value, base)|; str[..n] == Text(value, base) && str[n] == NUL
    ensures forall i :: |Text(value, base)| < i < str.Length ==> str[i] == old(str[i])
  {
    var end: nat;
    if value < 0 && base == 10 {
      str[0] := '-';
      end := WriteMagnitude(-value, str, base, 1);
      assert str[..end] == [str[0]] + str[1..end];
    } else {
      end := WriteMagnitude(value, str, base, 0);
    }
  }

  // ----- atoi -----

  predicate IsDigit(c: char) { '0' <= c <= '9' }

  /** What the leading digits of s add to the number read so far. */
  ghost function Run(s: string, acc: nat): (r: nat)
    ensures r >= acc
  {
    if s == [] || !IsDigit(s[0]) then acc else Run(s[1..], acc * 10 + DigitValue(s[0]))
  }

  ghost function SkipBlanks(s: string): string {
    if s != [] && (s[0] == ' ' || s[0] == '\t') then SkipBlanks(s[1..]) else s
  }

  ghost function Unsigned(s: string): string {
    if s != [] && (s[0] == '-' || s[0] == '+') then s[1..] else s
  }

  /** The number at the front of a text: blanks, a sign, digits. */
  ghost function Parsed(s: string): int {
    var t := SkipBlanks(s);
    var n: int := Run(Unsigned(t), 0);
    if t != [] && t[0] == '-' then -n else n
  }

  /** The buffer holds the text s, ended by a zero. */
  ghost predicate Holds(str: array<char>, s: string)
    reads str
  {
    |s| < str.Length && str[..|s|] == s && str[|s|] == NUL && NUL !in s
  }

  /** Reads the number at the front of the text. No sum on the way exceeds the final one, so nothing overflows if the
      magnitude fits. */
  method Atoi(str: array<char>, ghost s: string) returns (r: int)
    requires Holds(str, s) && Run(Unsigned(SkipBlanks(s)), 0) <= INT_MAX
    ensures r == Parsed(s)
  {
    var p, result, sign := 0, 0, 1;
    while str[p] == ' ' || str[p] == '\t'
      invariant p <= |s| && SkipBlanks(s[p..]) == SkipBlanks(s)
      decreases |s| - p
    {
      assert str[p] == str[..|s|][p] && s[p..][1..] == s[p + 1..];
      p := p + 1;
    }
    assert p < |s| ==> str[p] == str[..|s|][p];
    ghost var t := s[p..];
    assert t == SkipBlanks(s);
    if str[p] == '-' {
      sign := -1;
      p := p + 1;
    } else if str[p] == '+' {
      p := p + 1;
    }
    assert s[p..] == Unsigned(t);
    while '0' <= str[p] && str[p] <= '9'
      invariant p <= |s| && 0 <= result <= INT_MAX && Run(s[p..], result) == Run(Unsigned(t), 0)
      decreases |s| - p
    {
      assert str[p] == str[..|s|][p] && s[p..][1..] == s[p + 1..];
      assert Run(s[p..], result) == Run(s[p + 1..], result * 10 + DigitValue(str[p]));
      result := result * 10 + (str[p] as int - '0' as int);
      p := p + 1;
    }
    assert p < |s| ==> str[p] == str[..|s|][p];
    return result * sign;
  }

  // ----- there and back -----

  lemma {:induction false} RunAppend(s: string, c: char, acc: nat)
    requires IsDigit(c) && forall i :: 0 <= i < |s| ==> IsDigit(s[i])
    ensures Run(s + [c], acc) == Run(s, acc) * 10 + DigitValue(c)
  {
    if s == [] {
      assert (s + [c])[1..] == [];
    } else {
      RunAppend(s[1..], c, acc * 10 + DigitValue(s[0]));
      assert (s + [c])[1..] == s[1..] + [c];
    }
  }

  lemma {:induction false} DecimalRuns(v: nat)
    ensures forall i :: 0 <= i < |Digits(v, 10)| ==> IsDigit(Digits(v, 10)[i])
    ensures Run(Digits(v, 10), 0) == v
  {
    if v < 10 {
      DigitOf(v);
      RunAppend([], DigitChar(v), 0);
      assert [] + [DigitChar(v)] == Digits(v, 10);
    } else {
      DigitOf(Low(v, 10));
      HighLow(v, 10);
      DecimalRuns(High(v, 10));
      RunAppend(Digits(High(v, 10), 10), DigitChar(Low(v, 10)), 0);
    }
  }

  /** Reading the decimal text of a number gives the number. */
  lemma ParsedText(value: int)
    ensures Parsed(Text(value, 10)) == value && NUL !in Text(value, 10)
    ensures Run(Unsigned(SkipBlanks(Text(value, 10))), 0) == if value < 0 then -value else value
  {
    var n := if value < 0 then -value else value;
    DecimalRuns(n);
    var d := Digits(n, 10);
    assert IsDigit(d[0]);
    assert value < 0 ==> ("-" + d)[1..] == d;
  }

  /** Blanks in front, a plus sign before a number that is not negative and anything but a digit behind make no
      difference to what is read. */
  lemma ParsedInContext(blanks: string, sign: string, value: int, rest: string)
    requires forall i :: 0 <= i < |blanks| ==> blanks[i] == ' ' || blanks[i] == '\t'
    requires sign == "" || (sign == "+" && value >= 0)
    requires rest != [] ==> !IsDigit(rest[0])
    ensures Parsed(blanks + (sign + Text(value, 10) + rest)) == value
  {
    var n := if value < 0 then -value else value;
    var d := Digits(n, 10);
    var t := sign + Text(value, 10) + rest;
    DecimalRuns(n);
    assert IsDigit(d[0]);
    assert t[0] == if sign == "+" then '+' else if value < 0 then '-' else d[0];
    SkipsBlanks(blanks, t);
    assert Unsigned(t) == d + rest;
    RunStops(d, rest, 0);
  }

  lemma {:induction false} SkipsBlanks(blanks: string, t: string)
    requires forall i :: 0 <= i < |blanks| ==> blanks[i] == ' ' || blanks[i] == '\t'
    requires t != [] && t[0] != ' ' && t[0] != '\t'
    ensures SkipBlanks(blanks + t) == t
  {
    if blanks != [] {
      SkipsBlanks(blanks[1..], t);
      assert (blanks + t)[1..] == blanks[1..] + t;
    } else {
      assert blanks + t == t;
    }
  }

  lemma {:induction false} RunStops(d: string, rest: string, acc: nat)
    requires (forall i :: 0 <= i < |d| ==> IsDigit(d[i])) && (rest != [] ==> !IsDigit(rest[0]))
    ensures Run(d + rest, acc) == Run(d, acc)
  {
    if d != [] {
      RunStops(d[1..], rest, acc * 10 + DigitValue(d[0]));
      assert (d + rest)[1..] == d[1..] + rest;
    } else {
      assert d + rest == rest;
    }
  }

  /** atoi(itoa(value, 10)) == value for every 32-bit value but the most negative one. */
  method ThereAndBack(value: int, str: array<char>) returns (r: int)
    requires -INT_MAX <= value <= INT_MAX && |Text(value, 10)| < str.Length
    modifies str
    ensures r == value
  {
    Itoa(value, str, 10);
    ParsedText(value);
    r := Atoi(str, Text(value, 10));
  }
}
