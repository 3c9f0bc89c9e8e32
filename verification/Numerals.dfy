/** Number printing: the digit loop of CreateNumeric and the in-place Reverse. */
module Numerals {
  const NUL: char := 0 as char
  const BUFFER := 12
  const INT_MIN := -0x8000_0000
  const INT_MAX := 0x7FFF_FFFF

  const LETTERS_BACK: string := "zyxwvutsrqponmlkjihgfedcba"
  const DIGITS_BACK: string := "987654321"
  const DIGITS: string := "123456789"
  const LETTERS: string := "abcdefghijklmnopqrstuvwxyz"

  /** Digit characters on both sides of zero, so that a negative remainder finds the digit of its absolute value. */
  const VALUES: string := LETTERS_BACK + DIGITS_BACK + ['0'] + DIGITS + LETTERS

  /** Division as the source has it: towards zero. */
  function Quotient(n: int, base: int): (v: int)
    requires 2 <= base
  {
    if n >= 0 then n / base else -(-n / base)
  }

  function Abs(n: int): (v: nat) { if n < 0 then -n else n }

  function DigitChar(d: int): (ch: char)
    requires 0 <= d < 36
  {
    if d < 10 then '0' + d as char else 'a' + (d - 10) as char
  }

  function DigitValue(c: char): (v: int) {
    if '0' <= c <= '9' then (c - '0') as int else if 'a' <= c <= 'z' then (c - 'a') as int + 10 else -1
  }

  predicate BaseOk(base: int) { 2 <= base <= 36 }

  // ---------- the digits ----------

  lemma DivisionFacts(a: int, base: int)
    requires 0 <= a && 2 <= base
    ensures a == a / base * base + a % base && 0 <= a % base < base && 0 <= a / base * base <= a
    ensures a > 0 ==> a / base < a
  {
  }

  /** Dividing towards zero: the quotient shrinks and keeps the sign, the remainder has the digit as its absolute
      value, and the product in the loop is no larger than the number, so nothing overflows. */
  lemma QuotientShrinks(n: int, base: int)
    requires 2 <= base
    ensures Abs(Quotient(n, base)) == Abs(n) / base
    ensures n != 0 ==> Abs(Quotient(n, base)) < Abs(n)
    ensures Quotient(n, base) != 0 ==> (Quotient(n, base) < 0 <==> n < 0)
    ensures -base < n - Quotient(n, base) * base < base && Abs(n - Quotient(n, base) * base) == Abs(n) % base
    ensures Abs(Quotient(n, base) * base) <= Abs(n)
  {
    var a := Abs(n);
    DivisionFacts(a, base);
    if n < 0 { Negated(a / base, base); }
  }

  lemma Negated(q: int, base: int)
    ensures (-q) * base == -(q * base)
  {
  }

  lemma LettersAt(k: int)
    requires 0 <= k < 26
    ensures |LETTERS| == 26 && LETTERS[k] == 'a' + k as char
  {
  }

  lemma LettersBackAt(k: int)
    requires 0 <= k < 26
    ensures |LETTERS_BACK| == 26 && LETTERS_BACK[25 - k] == 'a' + k as char
  {
  }

  lemma DigitsAt(k: int)
    requires 1 <= k <= 9
    ensures |DIGITS| == |DIGITS_BACK| == 9 && DIGITS[k - 1] == DIGITS_BACK[9 - k] == '0' + k as char
  {
  }

  /** The table gives every remainder, negative ones included, the digit of its absolute value. */
  lemma Table(d: int)
    requires -36 < d < 36
    ensures |VALUES| == 71 && VALUES[35 + d] == DigitChar(Abs(d)) && DigitValue(VALUES[35 + d]) == Abs(d)
  {
    LettersAt(0);
    LettersBackAt(0);
    DigitsAt(1);
    if Abs(d) >= 10 {
      LettersAt(Abs(d) - 10);
      LettersBackAt(Abs(d) - 10);
    } else if d != 0 {
      DigitsAt(Abs(d));
    }
  }

  /** The digits of n as the loop emits them, lowest first. */
  function Digits(n: int, base: int): (s: string)
    requires BaseOk(base)
    decreases Abs(n)
  {
    QuotientShrinks(n, base);
    var q := Quotient(n, base);
    [DigitChar(Abs(n - q * base))] + if q == 0 then [] else Digits(q, base)
  }

  /** All that the loop emits before the terminator. */
  function Emitted(n: int, base: int): (s: string)
    requires BaseOk(base)
  {
    Digits(n, base) + if n < 0 then ['-'] else []
  }

  function Reversed(s: string): (r: string)
    ensures |r| == |s|
  {
    if s == [] then [] else Reversed(s[1..]) + [s[0]]
  }

  /** The number a string of digits denotes, highest digit first. */
  function Horner(s: string, base: int): (v: int) {
    if s == [] then 0 else Horner(s[..|s| - 1], base) * base + DigitValue(s[|s| - 1])
  }

  /** The number a string with an optional minus sign denotes. */
  function Denotes(s: string, base: int): (v: int) {
    if s != [] && s[0] == '-' then -Horner(s[1..], base) else Horner(s, base)
  }

  lemma {:induction false} DigitsDenote(n: int, base: int)
    requires BaseOk(base)
    ensures Horner(Reversed(Digits(n, base)), base) == Abs(n)
    decreases Abs(n)
  {
    QuotientShrinks(n, base);
    var q := Quotient(n, base);
    Table(n - q * base);
    if q != 0 { DigitsDenote(q, base); }
    DivisionFacts(Abs(n), base);
    ReversedFirst(DigitChar(Abs(n - q * base)), if q == 0 then [] else Digits(q, base), base);
  }

  /** Reversing puts the lowest digit last, where it counts for itself. */
  lemma ReversedFirst(c: char, rest: string, base: int)
    ensures Horner(Reversed([c] + rest), base) == Horner(Reversed(rest), base) * base + DigitValue(c)
  {
  }

  lemma {:induction false} ReversedLast(s: string, c: char)
    ensures Reversed(s + [c]) == [c] + Reversed(s)
  {
    if s == [] {
      assert [c][1..] == [];
    } else {
      ReversedLast(s[1..], c);
      assert (s + [c])[1..] == s[1..] + [c];
    }
  }

  lemma NoMinus(n: int, base: int)
    requires BaseOk(base)
    ensures forall c | c in Digits(n, base) :: c != '-' && c != NUL
    decreases Abs(n)
  {
    QuotientShrinks(n, base);
    var q := Quotient(n, base);
    Table(n - q * base);
    if q != 0 { NoMinus(q, base); }
  }

  lemma {:induction false} ReversedMembers(s: string, c: char)
    ensures c in Reversed(s) <==> c in s
  {
    if s != [] {
      ReversedMembers(s[1..], c);
      assert s == [s[0]] + s[1..];
    }
  }

  /** The whole emitted string, reversed, denotes the number with its sign, for every int and every base. */
  lemma WholeDenotes(n: int, base: int)
    requires BaseOk(base)
    ensures Denotes(Reversed(Emitted(n, base)), base) == n
  {
    var ds := Digits(n, base);
    DigitsDenote(n, base);
    if n < 0 {
      ReversedLast(ds, '-');
      assert Reversed(Emitted(n, base))[1..] == Reversed(ds);
    } else {
      assert Emitted(n, base) == ds;
      NoMinus(n, base);
      ReversedMembers(ds, '-');
    }
  }

  // ---------- how much the buffer must hold ----------

  function Power(base: int, k: nat): (v: int) {
    if k == 0 then 1 else base * Power(base, k - 1)
  }

  lemma DivideBound(a: int, base: int, m: int)
    requires 0 <= a && 2 <= base
    ensures a / base < m <==> a < base * m
  {
    DivisionFacts(a, base);
    var q := a / base;
    if q < m { assert (q + 1) * base <= m * base by { MulMono(q + 1, m, base); } }
    if q >= m { MulMono(m, q, base); }
  }

  lemma MulMono(x: int, y: int, base: int)
    requires x <= y && 0 <= base
    ensures x * base <= y * base
  {
  }

  /** A number has at most k digits exactly when it is below the k-th power of the base. */
  lemma {:induction false} DigitCount(n: int, base: int, k: nat)
    requires BaseOk(base) && 0 < k
    ensures |Digits(n, base)| <= k <==> Abs(n) < Power(base, k)
    decreases k
  {
    QuotientShrinks(n, base);
    var q := Quotient(n, base);
    DivideBound(Abs(n), base, Power(base, k - 1));
    if k > 1 && q != 0 {
      DigitCount(q, base, k - 1);
    } else if q == 0 {
      PowerPositive(base, k - 1);
    }
  }

  lemma PowerPositive(base: int, k: nat)
    requires 2 <= base
    ensures 1 <= Power(base, k)
  {
  }

  lemma {:induction false} PowerMono(b: int, c: int, k: nat)
    requires 2 <= b <= c
    ensures Power(b, k) <= Power(c, k)
  {
    if k > 0 {
      PowerMono(b, c, k - 1);
      PowerPositive(b, k - 1);
      MulMono(b, c, Power(b, k - 1));
      MulMono(Power(b, k - 1), Power(c, k - 1), c);
    }
  }

  /** What is emitted fits the buffer together with the terminator. */
  predicate FitsBuffer(n: int, base: int)
    requires BaseOk(base)
  {
    |Emitted(n, base)| + 1 <= BUFFER
  }

  /** The buffer suffices exactly for numbers of at most eleven digits, ten with a minus sign. */
  lemma FitsIff(n: int, base: int)
    requires BaseOk(base)
    ensures FitsBuffer(n, base) <==> Abs(n) < Power(base, if n < 0 then 10 else 11)
  {
    DigitCount(n, base, if n < 0 then 10 else 11);
  }

  lemma Powers()
    ensures Power(9, 10) == 3486784401 && Power(8, 10) == 1073741824 && Power(9, 11) == 31381059609
  {
  }

  /** The buffer suffices for every 32-bit int exactly in bases 9 to 36. */
  lemma BufferSufficesIff(base: int)
    requires BaseOk(base)
    ensures (forall n | INT_MIN <= n <= INT_MAX :: FitsBuffer(n, base)) <==> 9 <= base
  {
    Powers();
    if 9 <= base {
      forall n | INT_MIN <= n <= INT_MAX
        ensures FitsBuffer(n, base)
      {
        FitsIff(n, base);
        PowerMono(9, base, 10);
        PowerMono(9, base, 11);
      }
    } else {
      FitsIff(INT_MIN, base);
      PowerMono(base, 8, 10);
      assert !FitsBuffer(INT_MIN, base);
    }
  }

  // ---------- what is returned ----------

  /** As written, Reverse is handed a pointer to the last character before the terminator. */
  function Returned(n: int, base: int): (s: string)
    requires BaseOk(base)
  {
    var e := Emitted(n, base);
    Reversed(e[|e| - 1..])
  }

  /** As written, the result denotes the number exactly when the number is a single digit. */
  lemma ReturnedDenotesIff(n: int, base: int)
    requires BaseOk(base)
    ensures Denotes(Returned(n, base), base) == n <==> 0 <= n < base
  {
    var e := Emitted(n, base);
    var c := e[|e| - 1];
    assert e[|e| - 1..] == [c];
    assert Reversed([c]) == [c];
    if n < 0 {
      assert c == '-';
      assert Denotes([c], base) == 0;
    } else {
      assert e == Digits(n, base);
      LastDigit(n, base);
      NoMinus(n, base);
      assert c in e;
      assert Horner([c], base) == DigitValue(c);
    }
  }

  lemma {:induction false} LastDigit(n: int, base: int)
    requires BaseOk(base) && 0 <= n
    ensures var ds := Digits(n, base);
            0 <= DigitValue(ds[|ds| - 1]) < base && (DigitValue(ds[|ds| - 1]) == n <==> n < base)
    decreases n
  {
    QuotientShrinks(n, base);
    DivisionFacts(n, base);
    var q := Quotient(n, base);
    Table(n - q * base);
    if q != 0 { LastDigit(q, base); MulMono(1, q, base); }
  }

  // ---------- the loops ----------

  /** The n characters from start on are followed by the first terminator. */
  ghost predicate IsString(s: seq<char>, start: nat, n: nat) {
    start + n < |s| && s[start + n] == NUL && forall k | start <= k < start + n :: s[k] != NUL
  }

  method Length(str: array<char>, start: nat, ghost n: nat) returns (length: nat)
    requires IsString(str[..], start, n)
    ensures length == n
  {
    length := 0;
    while str[start + length] != NUL
      invariant length <= n
      decreases n - length
    {
      assert str[..][start + length] == str[start + length];
      length := length + 1;
    }
    assert str[..][start + length] == str[start + length];
  }

  lemma {:induction false} ReversedIndex(s: string, k: nat)
    requires k < |s|
    ensures Reversed(s)[k] == s[|s| - 1 - k]
  {
    if k < |s| - 1 { ReversedIndex(s[1..], k); }
  }

  /** The loop of Reverse: swapping from both ends. */
  method SwapEnds(str: array<char>, start: nat, length: nat)
    requires start + length <= str.Length
    modifies str
    ensures forall k | 0 <= k < str.Length ::
              str[k] == if start <= k < start + length then old(str[start + start + length - 1 - k]) else old(str[k])
  {
    var i := length;
    while i >= length / 2 + 1
      invariant length / 2 <= i <= length
      invariant forall k | 0 <= k < str.Length ::
                  str[k] == if start <= k < start + length - i || start + i <= k < start + length
                            then old(str[start + start + length - 1 - k]) else old(str[k])
    {
      var c := str[start + length - i];
      str[start + length - i] := str[start + i - 1];
      str[start + i - 1] := c;
      i := i - 1;
    }
  }

  /** Reverses the string at start in place and touches nothing else. */
  method Reverse(str: array<char>, start: nat, ghost n: nat)
    requires IsString(str[..], start, n)
    modifies str
    ensures str[..] == old(str[..start]) + Reversed(old(str[start..start + n])) + old(str[start + n..])
  {
    var length := Length(str, start, n);
    SwapEnds(str, start, length);
    ghost var was := old(str[start..start + n]);
    ghost var whole := old(str[..start]) + Reversed(was) + old(str[start + n..]);
    assert |was| == n && |Reversed(was)| == n;
    forall k | 0 <= k < str.Length
      ensures str[k] == whole[k]
    {
      if start <= k < start + n {
        ReversedIndex(was, k - start);
        assert whole[k] == Reversed(was)[k - start] == was[n - 1 - (k - start)];
      }
    }
    assert str[..] == whole;
  }

  /** The character that the loop's body takes from the table for n. */
  function NextChar(n: int, base: int): (c: char)
    requires BaseOk(base) && INT_MIN <= n <= INT_MAX
  {
    QuotientShrinks(n, base);
    Table(n - Quotient(n, base) * base);
    VALUES[35 + (n - Quotient(n, base) * base)]
  }

  /** Emitting one more digit. */
  lemma DigitsStep(digits: string, done: string, n: int, base: int)
    requires BaseOk(base) && INT_MIN <= n <= INT_MAX && digits == done + Digits(n, base)
    ensures var q := Quotient(n, base); var next := done + [NextChar(n, base)];
            && |digits| > |done| && INT_MIN <= q <= INT_MAX && Abs(q) <= Abs(n) && (q != 0 ==> Abs(q) < Abs(n))
            && (q != 0 ==> (q < 0 <==> n < 0))
            && digits == if q == 0 then next else next + Digits(q, base)
  {
    QuotientShrinks(n, base);
    Table(n - Quotient(n, base) * base);
  }

  /** The digit loop. tmp is the number from which the last digit was taken. overrun tells that a digit would go past
      the end of the buffer, which is where the model's run ends. */
  method EmitDigits(c: array<char>, number: int, base: int) returns (at: nat, tmp: int, overrun: bool)
    requires BaseOk(base) && INT_MIN <= number <= INT_MAX
    modifies c
    ensures overrun <==> |Digits(number, base)| > c.Length
    ensures !overrun ==> at == |Digits(number, base)| <= c.Length && c[..at] == Digits(number, base)
    ensures tmp < 0 <==> number < 0
  {
    hide Digits, Quotient, DigitChar, DigitValue, NextChar;
    ghost var digits := Digits(number, base);
    var n, more := number, true;
    at, tmp, overrun := 0, number, false;
    while more
      invariant at <= |digits| && at <= c.Length && (tmp < 0 <==> number < 0)
      invariant more ==> digits == c[..at] + Digits(n, base) && (n < 0 <==> number < 0)
      invariant !more ==> at == |digits| && c[..at] == digits
      invariant INT_MIN <= n <= INT_MAX
      decreases more, Abs(n)
    {
      ghost var done := c[..at];
      DigitsStep(digits, done, n, base);
      if at == c.Length {
        return at, tmp, true;
      }
      tmp := n;
      n := Quotient(tmp, base);
      c[at] := NextChar(tmp, base);
      at := at + 1;
      assert c[..at] == done + [c[at - 1]];
      more := n != 0;
    }
  }

  lemma NoTerminatorInside(n: int, base: int)
    requires BaseOk(base)
    ensures |Emitted(n, base)| >= 1 && forall c | c in Emitted(n, base) :: c != NUL
  {
    NoMinus(n, base);
  }

  /** The buffer after the loop, the sign and the terminator, which is at end. */
  method EmitNumber(c: array<char>, number: int, base: int) returns (end: nat, overrun: bool)
    requires BaseOk(base) && INT_MIN <= number <= INT_MAX && c.Length == BUFFER
    modifies c
    ensures overrun <==> !FitsBuffer(number, base)
    ensures !overrun ==> end == |Emitted(number, base)| && 1 <= end < BUFFER && c[..end] == Emitted(number, base)
    ensures !overrun ==> c[end] == NUL && forall k | 0 <= k < end :: c[k] != NUL
  {
    hide Digits;
    var tmp;
    end, tmp, overrun := EmitDigits(c, number, base);
    if overrun || end + (if tmp < 0 then 1 else 0) >= c.Length {
      return end, true;
    }
    ghost var ds := c[..end];
    if tmp < 0 {
      c[end] := '-';
      end := end + 1;
    }
    c[end] := NUL;
    ghost var e := Emitted(number, base);
    assert c[..end] == e;
    NoTerminatorInside(number, base);
    forall k | 0 <= k < end
      ensures c[k] != NUL
    {
      assert c[k] == e[k] && e[k] in e;
    }
  }

  /** The buffer and the place in it that is returned. For a base out of range the buffer comes back as allocated. The
      buffer is overrun exactly when the number with its sign and terminator does not fit. */
  method CreateNumeric(number: int, base: int) returns (c: array<char>, at: nat, overrun: bool)
    requires INT_MIN <= number <= INT_MAX && 0 <= base < 256
    ensures fresh(c) && c.Length == BUFFER
    ensures overrun <==> BaseOk(base) && !FitsBuffer(number, base)
    ensures !BaseOk(base) ==> at == 0
    ensures BaseOk(base) && !overrun ==>
              && at + 1 == |Emitted(number, base)| < BUFFER && c[..at + 1] == Emitted(number, base)
              && IsString(c[..], at, 1) && c[at..at + 1] == Returned(number, base)
  {
    hide Emitted;
    c := new char[BUFFER];
    at, overrun := 0, false;
    if base < 2 || base > 36 {
      return;
    }
    at, overrun := EmitNumber(c, number, base);
    if overrun {
      return;
    }
    at := at - 1;
    ghost var e := Emitted(number, base);
    assert c[at] == e[at];
    Reverse(c, at, 1);
    assert e[at..] == [e[at]] && Reversed([e[at]]) == [e[at]];
  }

  /** CreateNumeric with the repair that its last line asks for: reversing from the start of the buffer. */
  method CreateNumericWhole(number: int, base: int) returns (c: array<char>, overrun: bool, ghost n: nat)
    requires INT_MIN <= number <= INT_MAX && BaseOk(base)
    ensures fresh(c) && (overrun <==> !FitsBuffer(number, base))
    ensures !overrun ==> n < c.Length && IsString(c[..], 0, n) && Denotes(c[..n], base) == number
  {
    hide Emitted, Denotes;
    c := new char[BUFFER];
    var end;
    end, overrun := EmitNumber(c, number, base);
    n := end;
    if overrun {
      return;
    }
    ghost var e := c[..end];
    Reverse(c, 0, n);
    assert c[..n] == Reversed(e);
    WholeDenotes(number, base);
    NoTerminatorInside(number, base);
    forall k | 0 <= k < n
      ensures c[k] != NUL
    {
      ReversedIndex(e, k);
      assert c[k] == c[..n][k] && e[n - 1 - k] in e;
    }
  }
}
