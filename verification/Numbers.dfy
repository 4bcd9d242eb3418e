/** Number printing of the terminal (kernel/src/terminal/terminal.cpp:26-89). */
module Numbers {
  import opened Memory
  import opened Options
  import opened Arithmetic

  const INT_MIN: int := -0x8000_0000
  const ZERO: byte := 48
  const MINUS: byte := 45

  /** An int of the source. */
  predicate IsInt(x: int) { INT_MIN <= x <= 0x7FFF_FFFF }

  // Division in C truncates towards zero, and negating INT_MIN wraps around.

  function DivC(x: int, y: int): int
    requires y > 0
  {
    if x >= 0 then x / y else -(-x / y)
  }

  function ModC(x: int, y: int): int
    requires y > 0
  {
    if x >= 0 then x % y else -(-x % y)
  }

  function NegC(x: int): int { if x == INT_MIN then x else -x }

  /** The quotient is rounded towards zero, the remainder has the sign of x, and
      negation is that of 32 bits. */
  lemma DivisionInC(x: int, y: int)
    requires y > 0
    ensures x == y * DivC(x, y) + ModC(x, y) && -y < ModC(x, y) < y
    ensures if x >= 0 then ModC(x, y) >= 0 else ModC(x, y) <= 0
  {
    DivMod(if x >= 0 then x else -x, y);
    if x < 0 { assert y * -(-x / y) == -(y * (-x / y)); }
  }

  lemma NegationInC(x: int)
    requires IsInt(x)
    ensures IsInt(NegC(x)) && (NegC(x) + x) % 0x1_0000_0000 == 0
  {
  }

  // Numerals.

  /** A digit as a character, and a character as a digit. */
  function DigitChar(d: int): byte { (if d < 10 then 48 + d else 55 + d) % 0x100 }

  function CharDigit(c: byte): int { if c < 65 then c - 48 else c - 55 }

  lemma InCharacters(d: int)
    requires -36 < d < 36
    ensures DigitChar(d) == if d < 10 then '0' as int + d else 'A' as int + (d - 10)
    ensures d >= 0 ==> CharDigit(DigitChar(d)) == d
    ensures ZERO == '0' as int && MINUS == '-' as int
  {
  }

  function Pow(b: nat, k: nat): nat { if k == 0 then 1 else b * Pow(b, k - 1) }

  /** The number a numeral means, most significant digit first. */
  function Value(t: seq<byte>, base: nat): int {
    if |t| == 0 then 0 else Value(t[..|t| - 1], base) * base + CharDigit(t[|t| - 1])
  }

  function Reverse(s: seq<byte>): (r: seq<byte>)
    ensures |r| == |s|
  {
    if |s| == 0 then [] else Reverse(s[1..]) + [s[0]]
  }

  lemma {:induction false} ReverseAt(s: seq<byte>, k: nat)
    requires k < |s|
    ensures Reverse(s)[k] == s[|s| - 1 - k]
  {
    if k < |s| - 1 { ReverseAt(s[1..], k); }
  }

  /** The low digits of num, least significant first, in at most room characters. */
  function LowDigits(num: int, base: nat, room: nat): (t: seq<byte>)
    requires base > 0
    ensures |t| <= room
    decreases room
  {
    if num == 0 || room == 0 then [] else [DigitChar(ModC(num, base))] + LowDigits(DivC(num, base), base, room - 1)
  }

  lemma DivMod(v: nat, d: nat)
    requires d > 0
    ensures v == d * (v / d) + v % d && v % d < d
  {
  }

  lemma ModStep(v: nat, b: nat, w: nat)
    requires b > 0 && w > 0
    ensures b * w > 0 && v % (b * w) == b * (v / b % w) + v % b
  {
    var q, r := v / b, v % b;
    var t, s := q / w, q % w;
    DivMod(v, b);
    DivMod(q, w);
    Regroup(b, w, t, s);
    BelowProduct(b, s, r, w);
    Positive(b, w);
    Division(v, b * w, t, b * s + r);
  }

  lemma Regroup(b: nat, w: nat, t: nat, s: nat)
    ensures b * (w * t + s) == b * w * t + b * s
  {
  }

  lemma BelowProduct(b: nat, s: nat, r: nat, w: nat)
    requires s < w && r < b
    ensures b * s + r < b * w
  {
    var d := w - s - 1;
    assert b * d >= 0;
    assert b * w == b * (s + 1 + d) == b * s + b + b * d;
  }

  lemma Positive(b: nat, w: nat)
    requires b > 0 && w > 0
    ensures b * w > 0
  {
  }

  lemma {:induction false} PowPositive(b: nat, k: nat)
    requires b > 0
    ensures Pow(b, k) > 0
  {
    if k > 0 {
      PowPositive(b, k - 1);
      Positive(b, Pow(b, k - 1));
    }
  }

  lemma AppendDigit(t: seq<byte>, d: nat, base: nat)
    requires d < 36
    ensures Value(t + [DigitChar(d)], base) == base * Value(t, base) + d
  {
  }

  lemma NothingPrinted(base: nat, room: nat)
    requires base > 0
    ensures Value(Reverse(LowDigits(0, base, room)), base) == 0
  {
  }

  lemma PowStep(b: nat, k: nat)
    requires b > 0 && k > 0
    ensures Pow(b, k) == b * Pow(b, k - 1) && Pow(b, k - 1) > 0 && Pow(b, k) > 0
  {
    PowPositive(b, k);
    PowPositive(b, k - 1);
  }

  /** The printed digits mean the number modulo what the room can hold. */
  lemma DigitsMeanNumber(num: nat, base: nat, room: nat)
    requires 2 <= base <= 36
    ensures Pow(base, room) > 0
    ensures Value(Reverse(LowDigits(num, base, room)), base) == num % Pow(base, room)
  {
    hide Value, Reverse, LowDigits, Pow;
    PowPositive(base, room);
    DigitsMeanRemainder(num, base, room);
  }

  function Remainder(v: nat, d: nat): nat
    requires d > 0
  {
    v % d
  }

  lemma {:induction false} DigitsMeanRemainder(num: nat, base: nat, room: nat)
    requires 2 <= base <= 36 && Pow(base, room) > 0
    ensures Value(Reverse(LowDigits(num, base, room)), base) == Remainder(num, Pow(base, room))
    decreases room
  {
    hide Value, Reverse, LowDigits, Pow, DigitChar, Remainder;
    if num == 0 {
      NothingPrinted(base, room);
      NoRemainder(0, Pow(base, room));
    } else if room == 0 {
      NoRoom(num, base);
      NoRemainder(num, 1);
    } else {
      var q, d := num / base, num % base;
      PowStep(base, room);
      RemainderStep(num, base, Pow(base, room - 1));
      DigitsMeanRemainder(q, base, room - 1);
      PrintedDigit(num, base, room);
      AppendDigit(Reverse(LowDigits(q, base, room - 1)), d, base);
    }
  }

  lemma NoRemainder(v: nat, d: nat)
    requires d > 0 && (v == 0 || d == 1)
    ensures Remainder(v, d) == 0
  {
  }

  lemma RemainderStep(v: nat, b: nat, w: nat)
    requires b > 0 && w > 0
    ensures b * w > 0 && Remainder(v, b * w) == b * Remainder(v / b, w) + v % b
  {
    ModStep(v, b, w);
  }

  /** A number that fits is printed without leading zeroes. */
  lemma {:induction false} NoLeadingZero(num: nat, base: nat, room: nat)
    requires 2 <= base <= 36 && 0 < num < Pow(base, room)
    ensures var t := Reverse(LowDigits(num, base, room)); |t| > 0 && t[0] != '0' as int
    decreases room
  {
    hide LowDigits, Reverse, DigitChar, Pow, Value;
    NoRoom(num, base);
    var q := num / base;
    PrintedDigit(num, base, room);
    if q > 0 {
      PowStep(base, room);
      QuotientFits(num, base, Pow(base, room - 1));
      NoLeadingZero(q, base, room - 1);
    } else {
      OneDigit(num, base);
      NoDigits(q, base, room - 1);
      InCharacters(num);
    }
  }

  lemma OneDigit(num: nat, base: nat)
    requires 0 < num && 0 < base <= 36 && num / base == 0
    ensures num % base == num < 36
  {
    DivMod(num, base);
  }

  lemma QuotientFits(num: nat, base: nat, w: nat)
    requires base > 0 && num < base * w
    ensures num / base < w
  {
    DivMod(num, base);
    if num / base >= w { Multiples(base, num / base - w + 1); }
  }

  lemma NoRoom(num: nat, base: nat)
    requires base > 0
    ensures Value(Reverse(LowDigits(num, base, 0)), base) == 0 && Pow(base, 0) == 1 && num % 1 == 0
  {
  }

  lemma ZeroMod(d: nat)
    requires d > 0
    ensures 0 % d == 0
  {
  }

  lemma PrintedDigit(num: nat, base: nat, room: nat)
    requires num > 0 && 2 <= base && room > 0
    ensures Reverse(LowDigits(num, base, room)) ==
      Reverse(LowDigits(num / base, base, room - 1)) + [DigitChar(num % base)]
  {
  }

  // Hexadecimal.

  function HexText(value: word, n: nat): seq<byte>
    requires n > 0
  {
    if value == 0 then (if n > 1 then [ZERO] else []) else Reverse(LowDigits(value, 16, n - 1))
  }

  /** Whatever the size of the buffer, the text means the value modulo 16^(n-1). */
  lemma HexInverts(value: word, n: nat)
    requires n > 0
    ensures Pow(16, n - 1) > 0 && Value(HexText(value, n), 16) == value % Pow(16, n - 1)
  {
    hide LowDigits, Reverse;
    PowPositive(16, n - 1);
    if value == 0 {
      ZeroMod(Pow(16, n - 1));
    } else {
      DigitsMeanNumber(value, 16, n - 1);
    }
  }

  lemma NoDigits(num: int, base: nat, room: nat)
    requires base > 0 && (num == 0 || room == 0)
    ensures LowDigits(num, base, room) == [] && Reverse([]) == []
  {
  }

  lemma HexStep(v: nat, room: nat, t: seq<byte>, t': seq<byte>)
    requires v > 0 && room > 0 && t' == [DigitChar(v % 16)] + t
    ensures Reverse(LowDigits(v, 16, room)) + t == Reverse(LowDigits(v / 16, 16, room - 1)) + t'
  {
  }

  /** hexToString fills the buffer from its end and returns where the text starts. */
  method HexToString(value: word, buffer: array<byte>, n: nat) returns (start: nat)
    requires 0 < n <= buffer.Length
    modifies buffer
    ensures start < n && buffer[start..n] == HexText(value, n) + [0]
    ensures buffer[..start] == old(buffer[..start]) && buffer[n..] == old(buffer[n..])
  {
    hide LowDigits, Reverse, DigitChar;
    start := n - 1;
    buffer[start] := 0;
    if value == 0 {
      if n > 1 {
        start := start - 1;
        buffer[start] := ZERO;
      }
    } else {
      var v: nat := value;
      ghost var goal := HexText(value, n) + [0];
      assert buffer[start..n] == [0];
      while v > 0 && start > 0
        invariant 0 <= start < n
        invariant goal == Reverse(LowDigits(v, 16, start)) + buffer[start..n]
        invariant buffer[..start] == old(buffer[..start]) && buffer[n..] == old(buffer[n..])
      {
        ghost var t := buffer[start..n];
        start := start - 1;
        buffer[start] := DigitChar(v % 16);
        assert buffer[start..n] == [DigitChar(v % 16)] + t;
        HexStep(v, start + 1, t, buffer[start..n]);
        v := v / 16;
      }
      NoDigits(v, 16, start);
      assert [] + buffer[start..n] == buffer[start..n];
    }
  }

  // Decimal.

  /** The characters before they are reversed. */
  function ItoaChars(num: int, base: nat, n: nat): (t: seq<byte>)
    requires base > 0 && n > 0
    ensures |t| < n
  {
    var negative := num < 0 && base == 10;
    var digits := LowDigits(if negative then NegC(num) else num, base, n - 1);
    if negative && |digits| < n - 1 then digits + [MINUS] else digits
  }

  function ItoaText(num: int, base: nat, n: nat): seq<byte>
    requires base > 0 && n > 0
  {
    if num == 0 then [ZERO] else Reverse(ItoaChars(num, base, n))
  }

  /** The reversal at the end of itoa. */
  method ReverseInPlace(str: array<byte>, n: nat)
    requires n <= str.Length
    modifies str
    ensures str[..n] == Reverse(old(str[..n])) && str[n..] == old(str[n..])
  {
    hide Reverse;
    ghost var chars := str[..n];
    var start, end := 0, n - 1;
    while start < end
      invariant 0 <= start && start + end == n - 1 && end >= -1
      invariant forall k :: 0 <= k < start ==> str[k] == chars[n - 1 - k]
      invariant forall k :: end < k < n ==> str[k] == chars[n - 1 - k]
      invariant forall k :: start <= k <= end ==> str[k] == chars[k]
      invariant str[n..] == old(str[n..])
    {
      str[start], str[end] := str[end], str[start];
      start := start + 1;
      end := end - 1;
    }
    forall k | 0 <= k < n
      ensures str[k] == Reverse(chars)[k]
    {
      ReverseAt(chars, k);
    }
  }

  lemma DigitStep(v: int, base: nat, room: nat, t: seq<byte>, t': seq<byte>)
    requires v != 0 && base > 0 && room > 0 && t' == t + [DigitChar(ModC(v, base))]
    ensures t + LowDigits(v, base, room) == t' + LowDigits(DivC(v, base), base, room - 1)
  {
  }

  /** The digit loop of itoa. */
  method WriteDigits(num: int, str: array<byte>, base: nat, n: nat) returns (i: nat)
    requires base > 0 && 0 < n <= str.Length
    modifies str
    ensures i < n && str[..i] == LowDigits(num, base, n - 1)
    ensures str[i..] == old(str[i..])
  {
    hide LowDigits, DivC, ModC, DigitChar;
    var v := num;
    ghost var digits := LowDigits(num, base, n - 1);
    i := 0;
    assert str[..0] + digits == digits;
    while v != 0 && i < n - 1
      invariant 0 <= i <= n - 1
      invariant digits == str[..i] + LowDigits(v, base, n - 1 - i)
      invariant str[i..] == old(str[i..])
      decreases n - 1 - i
    {
      ghost var t := str[..i];
      str[i] := DigitChar(ModC(v, base));
      assert str[..i + 1] == t + [DigitChar(ModC(v, base))];
      DigitStep(v, base, n - 1 - i, t, str[..i + 1]);
      v := DivC(v, base);
      i := i + 1;
    }
    NoDigits(v, base, n - 1 - i);
  }

  /** The digits and, where it fits, the sign. */
  method WriteChars(num: int, str: array<byte>, base: nat, n: nat) returns (i: nat)
    requires base > 0 && 0 < n <= str.Length
    modifies str
    ensures i < n && str[..i] == ItoaChars(num, base, n)
    ensures str[i..] == old(str[i..])
  {
    hide LowDigits, NegC;
    var negative := num < 0 && base == 10;
    var v := if negative then NegC(num) else num;
    i := WriteDigits(v, str, base, n);
    if negative && i < n - 1 {
      ghost var digits, rest := str[..i], str[i..];
      str[i] := MINUS;
      assert str[..i + 1] == digits + [MINUS] && str[i + 1..] == rest[1..];
      i := i + 1;
    }
  }

  /** itoa; a buffer of no size gives NULL, and zero takes two bytes whatever n says. */
  method Itoa(num: int, str: array<byte>, base: nat, n: nat) returns (ok: bool)
    requires IsInt(num) && base > 0 && n <= str.Length && (num == 0 && n > 0 ==> 2 <= str.Length)
    modifies str
    ensures ok <==> n > 0
    ensures !ok ==> str[..] == old(str[..])
    ensures ok ==> var t := ItoaText(num, base, n);
      |t| < str.Length && str[..|t| + 1] == t + [0] && str[|t| + 1..] == old(str[|t| + 1..])
  {
    hide LowDigits, Reverse, Value, DigitChar, ItoaChars, ItoaText;
    if n == 0 {
      return false;
    }
    ok := true;
    TextOf(num, base, n);
    if num == 0 {
      str[0] := ZERO;
      str[1] := 0;
      assert str[..2] == [ZERO] + [0];
      return;
    }
    var i := WriteChars(num, str, base, n);
    ghost var chars := str[..i];
    str[i] := 0;
    ghost var tail := str[i..];
    assert tail == [0] + old(str[i + 1..]);
    assert str[..i] == chars;
    ReverseInPlace(str, i);
    assert str[i..] == tail;
    TextThenZero(str[..], i, ItoaText(num, base, n), old(str[i + 1..]));
  }

  /** A text, its terminator, and the rest of the buffer. */
  lemma TextThenZero(s: seq<byte>, i: nat, t: seq<byte>, rest: seq<byte>)
    requires i < |s| && s[..i] == t && s[i..] == [0] + rest
    ensures |t| == i && s[..i + 1] == t + [0] && s[i + 1..] == rest
  {
    assert s[i..][1..] == rest && s[i] == s[i..][0];
  }

  lemma TextOf(num: int, base: nat, n: nat)
    requires base > 0 && n > 0
    ensures num == 0 ==> ItoaText(num, base, n) == [ZERO]
    ensures num != 0 ==> ItoaText(num, base, n) == Reverse(ItoaChars(num, base, n))
  {
  }

  predicate AllDecimal(t: seq<byte>) { forall k :: 0 <= k < |t| ==> 48 <= t[k] < 58 }

  /** The number a decimal text means, if it is one. */
  function ParseDecimal(t: seq<byte>): Option<int> {
    var digits := if |t| > 0 && t[0] == MINUS then t[1..] else t;
    if |digits| == 0 || !AllDecimal(digits) then None
    else Some(if |digits| < |t| then -Value(digits, 10) else Value(t, 10))
  }

  lemma {:induction false} DecimalDigits(num: nat, room: nat, k: nat)
    requires num < Pow(10, k)
    ensures |LowDigits(num, 10, room)| <= k && AllDecimal(LowDigits(num, 10, room))
    decreases k
  {
    if num > 0 && room > 0 {
      assert Pow(10, k) == 10 * Pow(10, k - 1);
      DecimalDigits(num / 10, room - 1, k - 1);
      var c, t := DigitChar(num % 10), LowDigits(num / 10, 10, room - 1);
      assert forall j :: 0 <= j < |[c] + t| ==> 48 <= ([c] + t)[j] < 58;
    }
  }

  lemma ReverseDecimal(t: seq<byte>)
    requires AllDecimal(t)
    ensures AllDecimal(Reverse(t))
  {
  }

  lemma {:induction false} ReverseAppend(t: seq<byte>, c: byte)
    ensures Reverse(t + [c]) == [c] + Reverse(t)
  {
    if |t| > 0 {
      assert (t + [c])[1..] == t[1..] + [c];
      ReverseAppend(t[1..], c);
    } else {
      assert t + [c] == [c] && [c][1..] == [];
    }
  }

  lemma {:induction false} PowGrows(b: nat, j: nat, k: nat)
    requires b > 0 && j <= k
    ensures 0 < Pow(b, j) <= Pow(b, k)
    decreases k
  {
    PowPositive(b, j);
    if j < k {
      PowGrows(b, j, k - 1);
      assert b * Pow(b, k - 1) == Pow(b, k - 1) + (b - 1) * Pow(b, k - 1);
    }
  }

  lemma TenDigits()
    ensures Pow(10, 10) == 10_000_000_000
  {
  }

  /** The digits of the absolute value, in a buffer of twelve bytes or more. */
  lemma AbsoluteValue(num: nat, n: nat)
    requires 0 < num <= 0x7FFF_FFFF && n >= 12
    ensures var digits := LowDigits(num, 10, n - 1);
      0 < |digits| < n - 1 && AllDecimal(Reverse(digits)) && Value(Reverse(digits), 10) == num
  {
    TenDigits();
    DecimalDigits(num, n - 1, 10);
    ReverseDecimal(LowDigits(num, 10, n - 1));
    DigitsMeanNumber(num, 10, n - 1);
    PowGrows(10, 10, n - 1);
    SmallMod(num, Pow(10, n - 1));
  }

  lemma SmallMod(x: nat, d: nat)
    requires x < d
    ensures x % d == x
  {
  }

  /** Printing in base 10 with room for twelve bytes can be parsed back exactly for
      the ints other than the smallest: its negation wraps, so its digits print as
      other characters. */
  lemma DecimalInverts(num: int, n: nat)
    requires IsInt(num) && n >= 12
    ensures ParseDecimal(ItoaText(num, 10, n)) == Some(num) <==> num != INT_MIN
  {
    hide LowDigits, Value, Reverse;
    if num == INT_MIN {
      SmallestIsNoNumeral(n);
    } else if num > 0 {
      AbsoluteValue(num, n);
    } else if num < 0 {
      AbsoluteValue(-num, n);
      ReverseAppend(LowDigits(-num, 10, n - 1), MINUS);
    } else {
      ZeroText();
    }
  }

  /** In any base and any buffer: a sign where it is asked for and fits, and digits that
      mean the number as far as there is room. Other negative numbers are printed digit
      by digit as C divides. */
  lemma ItoaInParts(num: int, base: nat, n: nat)
    requires IsInt(num) && num != 0 && 2 <= base <= 36 && n > 0
    ensures Pow(base, n - 1) > 0
    ensures num > 0 || (base == 10 && num > INT_MIN) ==>
              var a := if num > 0 then num else -num;
              var digits := Reverse(LowDigits(a, base, n - 1));
              && ItoaText(num, base, n) == (if num < 0 && |digits| < n - 1 then ['-' as int] else []) + digits
              && Value(digits, base) == a % Pow(base, n - 1)
    ensures num < 0 && base != 10 ==> ItoaText(num, base, n) == Reverse(LowDigits(num, base, n - 1))
  {
    hide LowDigits, Value, Reverse, Pow;
    PowPositive(base, n - 1);
    if num > 0 || (base == 10 && num > INT_MIN) {
      var a := if num > 0 then num else -num;
      DigitsMeanNumber(a, base, n - 1);
      ReverseAppend(LowDigits(a, base, n - 1), MINUS);
      assert [] + Reverse(LowDigits(a, base, n - 1)) == Reverse(LowDigits(a, base, n - 1));
    }
  }

  lemma ZeroText()
    ensures ParseDecimal([ZERO]) == Some(0)
  {
    var t := [ZERO];
    assert t[..0] == [];
    assert Value(t, 10) == Value(t[..0], 10) * 10 + CharDigit(ZERO) == 0;
  }

  lemma SmallestIsNoNumeral(n: nat)
    requires n >= 12
    ensures ParseDecimal(ItoaText(INT_MIN, 10, n)) == None
  {
    var chars := ItoaChars(INT_MIN, 10, n);
    assert LowDigits(INT_MIN, 10, n - 1)[0] == DigitChar(-8) == 40;
    var t := Reverse(chars);
    ReverseAt(chars, |chars| - 1);
    assert t[|t| - 1] == 40;
  }
}
