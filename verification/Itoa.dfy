/** `itoa`, and the shared-memory names made with it. */
module Itoa {
  import opened Common

  const INT_MIN := -0x8000_0000
  const INT_MAX := 0x7FFF_FFFF

  type int32 = x: int | INT_MIN <= x <= INT_MAX

  type Base = b: int | 2 <= b <= 36 witness 10

  /** C's division and remainder truncate towards zero. */
  function Quot(a: int, b: Base): int {
    if a >= 0 then a / b else -((-a) / b)
  }

  function Rem(a: int, b: Base): int {
    if a >= 0 then a % b else -((-a) % b)
  }

  lemma PositiveBounds(a: nat, b: Base)
    ensures a == b * (a / b) + a % b && 0 <= a % b < b
    ensures a > 0 ==> 0 <= a / b < a
  {
    var q, r := a / b, a % b;
    assert a == b * q + r;
    TwiceAtMost(q, b);
  }

  lemma TwiceAtMost(q: nat, b: Base)
    ensures b * q >= 2 * q
  {
  }

  lemma DivisionBounds(a: int, b: Base)
    ensures a > 0 ==> 0 <= Quot(a, b) < a && 0 <= Rem(a, b) < b
    ensures a < 0 ==> a < Quot(a, b) <= 0 && 0 <= -Rem(a, b) < b
    ensures a == 0 ==> Quot(a, b) == Rem(a, b) == 0
  {
    PositiveBounds(if a >= 0 then a else -a, b);
  }

  function Size(a: int): nat {
    if a >= 0 then a else -a
  }

  /** The character of a remainder, which is negative for a negative number. */
  function DigitChar(rem: int): char
    requires -36 < rem < 36
  {
    if rem > 9 then (rem - 10 + 'a' as int) as char else (rem + '0' as int) as char
  }

  /** The digits as the loop produces them, the least significant first. */
  function LowDigits(num: int, base: Base): seq<char>
    decreases Size(num)
  {
    DivisionBounds(num, base);
    if num == 0 then [] else [DigitChar(Rem(num, base))] + LowDigits(Quot(num, base), base)
  }

  /** Negation in 32 bits: INT_MIN has no opposite, and wraps round to itself. */
  function Negated(num: int): int {
    if num == INT_MIN then INT_MIN else -num
  }

  /** The string written, without its terminator. */
  function Text(num: int, base: Base): seq<char> {
    if num == 0 then "0"
    else if num < 0 && base == 10 then "-" + Reversed(LowDigits(Negated(num), base))
    else Reversed(LowDigits(num, base))
  }

  method Swap(str: array<char>, i: nat, j: nat)
    requires i < str.Length && j < str.Length
    modifies str
    ensures str[..] == old(str[..])[i := old(str[j])][j := old(str[i])]
  {
    var temp := str[i];
    str[i] := str[j];
    str[j] := temp;
  }

  method Reverse(str: array<char>, length: nat)
    requires length <= str.Length
    modifies str
    ensures str[..length] == Reversed(old(str[..length]))
    ensures str[length..] == old(str[length..])
  {
    ghost var before := str[..];
    var start, end := 0, length - 1;
    while start < end
      invariant 0 <= start && end == length - 1 - start && start <= end + 2
      invariant forall k | start <= k <= end :: str[k] == before[k]
      invariant forall k | 0 <= k < start || end < k < length :: str[k] == before[length - 1 - k]
      invariant forall k | length <= k < str.Length :: str[k] == before[k]
    {
      Swap(str, start, end);
      assert forall k | 0 <= k < str.Length :: str[k] == str[..][k];
      start := start + 1;
      end := end - 1;
    }
  }

  method Itoa(number: int32, str: array<char>, base: Base)
    requires str.Length > |Text(number, base)|
    modifies str
    ensures
      var n := |Text(number, base)|;
      str[..n] == Text(number, base) && str[n] == NUL && str[n + 1..] == old(str[n + 1..])
  {
    hide LowDigits, Reversed, Text;
    TextIs(number, base);
    var i := 0;
    var num := number;
    var isNegative := false;
    if num == 0 {
      str[i] := '0';
      i := i + 1;
      str[i] := NUL;
      return;
    }
    if num < 0 && base == 10 {
      isNegative := true;
      num := Negated(num);
    }
    i := WriteDigits(num, str, base);
    if isNegative {
      ghost var digits := str[..i];
      str[i] := '-';
      assert str[..i + 1] == digits + "-";
      i := i + 1;
    }
    str[i] := NUL;
    ghost var written, tail := str[..i], str[i..];
    assert Text(number, base) == Reversed(written);
    Reverse(str, i);
    assert str[..i] == Text(number, base);
    assert str[i..] == tail;
    assert str[i] == tail[0] && str[i + 1..] == tail[1..];
  }

  /** The text is the reverse of what the loops have written. */
  lemma TextIs(number: int, base: Base)
    ensures number == 0 ==> Text(number, base) == ['0']
    ensures number < 0 && base == 10 ==> Text(number, base) == Reversed(LowDigits(Negated(number), base) + "-")
    ensures number != 0 && !(number < 0 && base == 10) ==> Text(number, base) == Reversed(LowDigits(number, base))
  {
    if number < 0 && base == 10 { ReversedNegative(LowDigits(Negated(number), base)); }
  }

  /** The digit loop. */
  method WriteDigits(number: int, str: array<char>, base: Base) returns (i: nat)
    requires |LowDigits(number, base)| < str.Length
    modifies str
    ensures i == |LowDigits(number, base)| && str[..i] == LowDigits(number, base)
    ensures str[i..] == old(str[i..])
  {
    i := 0;
    var num := number;
    ghost var digits := LowDigits(number, base);
    while num != 0
      invariant i <= |digits| && str[..i] + LowDigits(num, base) == digits
      invariant str[|digits|..] == old(str[|digits|..])
      decreases Size(num)
    {
      DivisionBounds(num, base);
      var rem := Rem(num, base);
      ghost var written := str[..i];
      LowDigitsStep(written, num, base);
      str[i] := DigitChar(rem);
      assert str[..i + 1] == written + [DigitChar(rem)];
      i := i + 1;
      num := Quot(num, base);
    }
    assert str[..i] == digits;
  }

  lemma LowDigitsStep(written: seq<char>, num: int, base: Base)
    requires num != 0
    ensures -36 < Rem(num, base) < 36
    ensures written + LowDigits(num, base) == (written + [DigitChar(Rem(num, base))]) + LowDigits(Quot(num, base), base)
  {
    DivisionBounds(num, base);
  }

  lemma ReversedNegative(digits: seq<char>)
    ensures Reversed(digits + "-") == "-" + Reversed(digits)
  {
  }

  // ----- reading the text back

  function DigitValue(c: char, base: Base): Option<nat> {
    var v := if '0' <= c <= '9' then c as int - '0' as int
             else if 'a' <= c <= 'z' then c as int - 'a' as int + 10
             else -1;
    if 0 <= v < base then Some(v) else None
  }

  function ParseDigits(s: seq<char>, base: Base): Option<nat> {
    if s == [] then Some(0)
    else OneMore(ParseDigits(s[..|s| - 1], base), DigitValue(s[|s| - 1], base), base)
  }

  function OneMore(front: Option<nat>, digit: Option<nat>, base: Base): Option<nat> {
    if front.Some? && digit.Some? then Some(base * front.value + digit.value) else None
  }

  /** Digits in the base; in base 10 also a minus sign and digits. */
  function Parse(s: seq<char>, base: Base): Option<int> {
    if s == [] then None
    else if s[0] == '-' then
      if base != 10 || |s| == 1 then None
      else
        match ParseDigits(s[1..], base)
        case Some(n) => var v: int := n; Some(-v)
        case None => None
    else
      match ParseDigits(s, base)
      case Some(n) => Some(n)
      case None => None
  }

  lemma DigitRoundTrip(d: nat, base: Base)
    requires d < base
    ensures DigitValue(DigitChar(d), base) == Some(d) && DigitChar(d) != '-' && DigitChar(d) != NUL
  {
  }

  lemma ReversedStep(d: char, rest: seq<char>)
    ensures Reversed([d] + rest) == Reversed(rest) + [d]
  {
  }

  lemma {:induction false} ParseLowDigits(num: nat, base: Base)
    ensures ParseDigits(Reversed(LowDigits(num, base)), base) == Some(num)
    ensures '-' !in LowDigits(num, base) && NUL !in LowDigits(num, base)
    ensures num > 0 ==> LowDigits(num, base) != []
  {
    if num != 0 {
      hide Reversed;
      PositiveBounds(num, base);
      var d, q := num % base, num / base;
      ParseLowDigits(q, base);
      ReversedStep(DigitChar(d), LowDigits(q, base));
      DigitRoundTrip(d, base);
      ParseAppend(Reversed(LowDigits(q, base)), DigitChar(d), base);
      assert LowDigits(num, base) == [DigitChar(d)] + LowDigits(q, base);
    } else {
      assert Reversed(LowDigits(0, base)) == [];
    }
  }

  lemma ParseAppend(s: seq<char>, c: char, base: Base)
    ensures ParseDigits(s + [c], base) == OneMore(ParseDigits(s, base), DigitValue(c, base), base)
  {
    assert (s + [c])[..|s|] == s;
  }

  lemma {:induction false} BadFirst(s: seq<char>, base: Base)
    requires s != [] && DigitValue(s[0], base) == None
    ensures ParseDigits(s, base) == None
  {
    if |s| > 1 { BadFirst(s[..|s| - 1], base); }
  }

  /** The most significant digit of a negative number comes out below the character '0'. */
  lemma {:induction false} NegativeTop(num: int, base: Base)
    requires num < 0
    ensures
      var low := LowDigits(num, base);
      low != [] && low[|low| - 1] < '0'
    decreases Size(num)
  {
    DivisionBounds(num, base);
    var q := Quot(num, base);
    if q != 0 {
      NegativeTop(q, base);
    } else {
      assert LowDigits(q, base) == [];
      SmallQuotient(num, base);
    }
  }

  lemma SmallQuotient(num: int, base: Base)
    requires num < 0 && Quot(num, base) == 0
    ensures Rem(num, base) < 0
  {
    PositiveBounds(-num, base);
  }

  lemma PositiveRoundTrip(num: int, base: Base)
    requires num >= 0
    ensures Parse(Text(num, base), base) == Some(num)
  {
    if num == 0 {
      assert Text(0, base) == ['0'];
      ParseAppend([], '0', base);
      assert [] + ['0'] == ['0'];
    } else {
      hide Reversed, LowDigits, ParseDigits;
      ParseLowDigits(num, base);
      var t := Reversed(LowDigits(num, base));
      assert t[0] == LowDigits(num, base)[|t| - 1];
    }
  }

  lemma NegativeRoundTrip(num: int)
    requires num < 0 && num != INT_MIN
    ensures Parse(Text(num, 10), 10) == Some(num)
  {
    hide Reversed, LowDigits, ParseDigits;
    ParseLowDigits(-num, 10);
    var t := Reversed(LowDigits(-num, 10));
    assert ("-" + t)[1..] == t;
  }

  lemma NegativeUnreadable(num: int, base: Base)
    requires num < 0 && base != 10
    ensures Parse(Text(num, base), base) == None
  {
    hide LowDigits, ParseDigits;
    NegativeTop(num, base);
    BadFirst(Text(num, base), base);
  }

  /** After the minus sign of INT_MIN come digits of a number that is still negative. */
  lemma IntMinUnreadable()
    ensures Parse(Text(-0x8000_0000, 10), 10) == None
  {
    hide LowDigits, ParseDigits;
    NegativeTop(INT_MIN, 10);
    var t := Reversed(LowDigits(INT_MIN, 10));
    BadFirst(t, 10);
    assert ("-" + t)[1..] == t;
  }

  /** The text reads back as the number exactly when the number is not negative, or the base is
      10 and the number has an opposite. The comment in the source says that other negative
      numbers are taken as unsigned; they are not. */
  lemma RoundTripIff(num: int32, base: Base)
    ensures Parse(Text(num, base), base) == Some(num) <==> num >= 0 || (base == 10 && num != -0x8000_0000)
  {
    if num >= 0 {
      PositiveRoundTrip(num, base);
    } else if base == 10 && num == INT_MIN {
      IntMinUnreadable();
    } else if base == 10 {
      NegativeRoundTrip(num);
    } else {
      NegativeUnreadable(num, base);
    }
  }

  /** In base 2 minus one is written as the character before '0'. */
  lemma MinusOneInBinary()
    ensures Text(-1, 2) == "/" && Parse("/", 2) == None
  {
    assert LowDigits(0, 2) == [];
    assert LowDigits(-1, 2) == ['/'];
    BadFirst("/", 2);
  }

  /** The digits above nine are the letters from 'a' on. */
  lemma LetterDigits()
    ensures Text(255, 16) == "ff" && Text(35, 36) == "z" && Text(-25, 10) == "-25"
    ensures Parse("2", 2) == None && Parse("a", 10) == None
  {
    hide LowDigits, ParseDigits;
    NextDigit(35, 0, 35, 36);
    NextDigit(255, 15, 15, 16);
    NextDigit(15, 0, 15, 16);
    NextDigit(25, 2, 5, 10);
    NextDigit(2, 0, 2, 10);
    NoDigit(36);
    NoDigit(16);
    NoDigit(10);
    BadFirst("2", 2);
    BadFirst("a", 10);
  }

  lemma NextDigit(num: nat, q: nat, d: nat, base: Base)
    requires num > 0 && num / base == q && num % base == d
    ensures -36 < d < 36 && LowDigits(num, base) == [DigitChar(d)] + LowDigits(q, base)
  {
  }

  lemma NoDigit(base: Base)
    ensures LowDigits(0, base) == []
  {
  }

  // ----- the buffer

  function Pow2(k: nat): nat {
    if k == 0 then 1 else 2 * Pow2(k - 1)
  }

  lemma {:induction false} DigitCount(num: nat, base: Base, k: nat)
    requires num < Pow2(k)
    ensures |LowDigits(num, base)| <= k
  {
    if num != 0 {
      PositiveBounds(num, base);
      TwiceAtMost(num / base, base);
      DigitCount(num / base, base, k - 1);
    }
  }

  lemma Pow2Of31()
    ensures Pow2(31) == 0x8000_0000
  {
    assert Pow2(8) == 0x100;
    assert Pow2(16) == 0x1_0000;
    assert Pow2(24) == 0x100_0000;
  }

  /** A number that is not negative needs at most 32 characters, terminator included. */
  lemma FitsIn32(num: int32, base: Base)
    requires num >= 0
    ensures |Text(num, base)| + 1 <= 32
  {
    Pow2Of31();
    DigitCount(num, base, 31);
  }

  lemma {:induction false} Ones(k: nat)
    ensures |LowDigits(Pow2(k) - 1, 2)| == k
  {
    if k != 0 {
      Ones(k - 1);
      assert (Pow2(k) - 1) / 2 == Pow2(k - 1) - 1;
    }
  }

  /** The bound is attained: INT_MAX in base 2. */
  lemma BoundAttained()
    ensures |Text(0x7FFF_FFFF, 2)| + 1 == 32
  {
    Pow2Of31();
    Ones(31);
  }

  // ----- the names of shared-memory units

  const MMAP_KEY_SIZE := 32

  lemma NoNul(num: nat)
    ensures NUL !in Text(num, 10)
  {
    hide LowDigits, ParseDigits;
    ParseLowDigits(num, 10);
    if num > 0 {
      forall k | 0 <= k < |Text(num, 10)|
        ensures Text(num, 10)[k] != NUL
      {
        assert Text(num, 10)[k] in LowDigits(num, 10);
      }
    }
  }

  /** The text of a number, padded with NULs to the size of a name. */
  ghost predicate IsName(name: seq<char>, num: nat) {
    var t := Text(num, 10);
    |name| == MMAP_KEY_SIZE && |t| < MMAP_KEY_SIZE && name[..|t|] == t &&
    forall k | |t| <= k < MMAP_KEY_SIZE :: name[k] == NUL
  }

  lemma NamesDiffer(a: seq<char>, b: seq<char>, m: nat, n: nat)
    requires IsName(a, m) && IsName(b, n) && m != n
    ensures a != b
  {
    hide Text;
    var s, t := Text(m, 10), Text(n, 10);
    NoNul(m);
    NoNul(n);
    PositiveRoundTrip(m, 10);
    PositiveRoundTrip(n, 10);
    assert a == b ==> s == t;
  }

  /** The static counter behind the names. */
  class KeyCounter {
    var unitKeyIndex: int32

    constructor ()
      ensures unitKeyIndex == 1
    {
      unitKeyIndex := 1;
    }

    /** The name field of the next node. Incrementing INT_MAX would overflow. */
    method AugmentNode() returns (name: seq<char>)
      requires 0 <= unitKeyIndex < INT_MAX
      modifies this
      ensures unitKeyIndex == old(unitKeyIndex) + 1
      ensures IsName(name, old(unitKeyIndex)) && |name| == 32
    {
      var buff := new char[MMAP_KEY_SIZE](_ => NUL);
      FitsIn32(unitKeyIndex, 10);
      Itoa(unitKeyIndex, buff, 10);
      unitKeyIndex := unitKeyIndex + 1;
      name := buff[..];
      hide Text;
      ghost var n := |Text(old(unitKeyIndex), 10)|;
      assert forall k | n < k < MMAP_KEY_SIZE :: name[k] == buff[n + 1..][k - n - 1];
      assert name[..n] == buff[..n];
    }
  }

  /** As many names as the counter has room for: no two are alike. */
  method Names(count: nat) returns (names: seq<seq<char>>)
    requires count < INT_MAX
    ensures |names| == count
    ensures forall i, j | 0 <= i < j < count :: names[i] != names[j]
  {
    hide IsName;
    var counter := new KeyCounter();
    names := [];
    for i := 0 to count
      invariant counter.unitKeyIndex == i + 1 && fresh(counter) && |names| == i
      invariant forall k | 0 <= k < i :: IsName(names[k], k + 1)
    {
      var name := counter.AugmentNode();
      names := names + [name];
    }
    forall i, j | 0 <= i < j < count
      ensures names[i] != names[j]
    {
      NamesDiffer(names[i], names[j], i + 1, j + 1);
    }
  }
}
