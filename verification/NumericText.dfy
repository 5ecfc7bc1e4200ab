/** Integer printing and parsing on values: what NumericString.h writes and what it accepts. */
module NumericText {
  import opened Collections

  // ----- division, with its nonlinear facts kept in one place ----------------------------------

  function Quotient(v: nat, b: nat): nat
    requires b > 0
  {
    v / b
  }

  function Remainder(v: nat, b: nat): nat
    requires b > 0
  {
    v % b
  }

  function Times(a: nat, b: nat): nat {
    a * b
  }

  lemma Division(v: nat, b: nat)
    requires b >= 2
    ensures v == Times(Quotient(v, b), b) + Remainder(v, b) && Remainder(v, b) < b
    ensures v > 0 ==> Quotient(v, b) < v
    ensures Quotient(v, b) == 0 <==> v < b
  {
    var q := v / b;
    assert v == q * b + v % b;
    if q >= 1 {
      assert q * b >= q * 2 by { TimesMonotone(2, b, q); }
    }
  }

  lemma TimesMonotone(x: nat, y: nat, z: nat)
    requires x <= y
    ensures z * x <= z * y
  {
    assert z * y == z * x + z * (y - x);
  }

  /** The overflow guard: the partial result is at most max / b exactly when a digit 0 can be appended without
      exceeding max. */
  lemma GuardIsExact(acc: nat, b: nat, max: nat)
    requires b >= 1
    ensures acc <= Quotient(max, b) <==> Times(acc, b) <= max
  {
    var q := max / b;
    assert max == q * b + max % b;
    if acc >= q + 1 {
      TimesMonotone(q + 1, acc, b);
      assert b * (q + 1) == q * b + b;
    } else {
      TimesMonotone(acc, q, b);
    }
  }

  lemma HornerGrows(acc: nat, b: nat)
    requires b >= 1
    ensures acc <= Times(acc, b)
  {
    TimesMonotone(1, b, acc);
  }

  // ----- printing ------------------------------------------------------------------------------

  const HEX := "0123456789ABCDEF"

  function DigitChar(d: nat): char
    requires d < 16
  {
    HEX[d]
  }

  function Repeat(c: char, n: nat): (s: string)
    ensures |s| == n && forall i :: 0 <= i < n ==> s[i] == c
  {
    seq(n, _ => c)
  }

  function Reverse<T>(s: seq<T>): (r: seq<T>)
    ensures |r| == |s| && forall i :: 0 <= i < |s| ==> r[i] == s[|s| - 1 - i]
  {
    seq(|s|, i requires 0 <= i < |s| => s[|s| - 1 - i])
  }

  /** The separator written after a digit, if it closes a group of three, and the group counter after it. */
  function Group(base: nat, sep: Option<char>, count: nat): string {
    if sep.Some? && base == 10 && count + 1 == 3 then [sep.value] else []
  }

  function NextCount(base: nat, sep: Option<char>, count: nat): nat {
    if sep.None? || base != 10 then count else if count + 1 == 3 then 0 else count + 1
  }

  /** The digits of v as the loop writes them, least significant first, with a separator after every
      third one in base 10. */
  function Emit(v: nat, base: nat, sep: Option<char>, count: nat): string
    requires 2 <= base <= 16
    decreases v
  {
    Division(v, base);
    [DigitChar(Remainder(v, base))] + Group(base, sep, count) +
    if v < base then [] else Emit(Quotient(v, base), base, sep, NextCount(base, sep, count))
  }

  function Positive(n: int): nat {
    if n > 0 then n else 0
  }

  function Magnitude(v: int): nat {
    if v < 0 then -v else v
  }

  function Prefix(base: nat, prefix: bool): string {
    if prefix && base == 8 then "0" else if prefix && base == 16 then "0x" else ""
  }

  function Sign(v: int): string {
    if v < 0 then "-" else ""
  }

  /** Zero padding stands between the prefix and the digits; any other padding before the sign. */
  function Zeros(v: int, base: nat, prefix: bool, width: int, fill: char, digits: nat): nat {
    if fill == '0' then Positive(width - |Sign(v)| - |Prefix(base, prefix)| - digits) else 0
  }

  function Body(v: int, base: nat, sep: Option<char>): string
    requires 2 <= base <= 16
  {
    Reverse(Emit(Magnitude(v), base, sep, 0))
  }

  /** The text without the padding in front of the sign. */
  function Core(v: int, base: nat, prefix: bool, width: int, fill: char, sep: Option<char>): string
    requires 2 <= base <= 16
  {
    var body := Body(v, base, sep);
    Sign(v) + Prefix(base, prefix) + Repeat('0', Zeros(v, base, prefix, width, fill, |body|)) + body
  }

  function Text(v: int, base: nat, prefix: bool, width: int, fill: char, sep: Option<char>): string
    requires 2 <= base <= 16
  {
    var core := Core(v, base, prefix, width, fill, sep);
    (if fill == '0' then "" else Repeat(fill, Positive(width - |core|))) + core
  }

  /** The text is padded to the width and never beyond it. */
  lemma WidthReached(v: int, base: nat, prefix: bool, width: int, fill: char, sep: Option<char>)
    requires 2 <= base <= 16
    ensures var bare := |Sign(v)| + |Prefix(base, prefix)| + |Body(v, base, sep)|;
            |Text(v, base, prefix, width, fill, sep)| == if width > bare then width else bare
  {
  }

  // ----- separators ----------------------------------------------------------------------------

  function DigitCount(v: nat, base: nat): (n: nat)
    requires 2 <= base <= 16
    ensures n >= 1
    decreases v
  {
    Division(v, base);
    if v < base then 1 else 1 + DigitCount(Quotient(v, base), base)
  }

  /** The separators are the only difference to the plain digits. */
  lemma {:induction false} SeparatorsOnlyAdded(v: nat, sep: char, count: nat)
    requires sep !in HEX && count < 3
    ensures Without(Emit(v, 10, Some(sep), count), sep) == Emit(v, 10, None, 0)
    decreases v
  {
    hide Quotient, Remainder, Times;
    Division(v, 10);
    var digit, group := [DigitChar(Remainder(v, 10))], Group(10, Some(sep), count);
    WithoutConcat(digit, group, sep);
    WithoutAbsent(digit, sep);
    if v < 10 {
    } else {
      var next := NextCount(10, Some(sep), count);
      SeparatorsOnlyAdded(Quotient(v, 10), sep, next);
      WithoutConcat(digit + group, Emit(Quotient(v, 10), 10, Some(sep), next), sep);
    }
  }

  lemma DigitCharIsHex(d: nat)
    requires d < 16
    ensures DigitChar(d) in HEX
  {
  }

  /** What is written last: in front of the number, once it is reversed. */
  lemma LastWritten(v: nat, sep: char, count: nat)
    requires count < 3
    ensures var s := Emit(v, 10, Some(sep), count);
            s != [] && (v < 10 ==> s[|s| - 1] == if count == 2 then sep else DigitChar(Remainder(v, 10)))
    ensures v >= 10 ==>
      var s, rest := Emit(v, 10, Some(sep), count), Emit(Quotient(v, 10), 10, Some(sep), if count == 2 then 0 else count + 1);
      rest != [] && s[|s| - 1] == rest[|rest| - 1]
  {
    hide Quotient, Remainder, Times, DigitChar;
    Division(v, 10);
    if v >= 10 {
      EmitCharacters(Quotient(v, 10), 10, Some(sep), NextCount(10, Some(sep), count));
    }
  }

  lemma NextDigitCount(v: nat)
    ensures Quotient(v, 10) < v || v < 10
    ensures DigitCount(v, 10) == if v < 10 then 1 else 1 + DigitCount(Quotient(v, 10), 10)
  {
    hide Quotient, Remainder, Times;
    Division(v, 10);
  }

  /** A separator is also written in front of the first digit when the digits fill whole groups of three. */
  lemma {:induction false} LeadingSeparatorIff(v: nat, sep: char, count: nat)
    requires sep !in HEX && count < 3
    ensures Emit(v, 10, Some(sep), count) != []
    ensures var s := Emit(v, 10, Some(sep), count);
            s[|s| - 1] == sep <==> (count + DigitCount(v, 10)) % 3 == 0
    decreases v
  {
    hide Quotient, Remainder, Times, DigitChar, Emit, DigitCount;
    LastWritten(v, sep, count);
    NextDigitCount(v);
    Division(v, 10);
    DigitCharIsHex(Remainder(v, 10));
    if v < 10 {
    } else {
      LeadingSeparatorIff(Quotient(v, 10), sep, if count == 2 then 0 else count + 1);
    }
  }

  // ----- parsing -------------------------------------------------------------------------------

  /** Overflow stands for a result that does not fit a signed type, which the guard has let through; in an
      unsigned type the result wraps around. */
  datatype Scanned = Going(result: nat, significant: bool) | Rejected | Overflow

  function DigitValue(c: char): Option<nat> {
    if '0' <= c <= '9' then Some((c - '0') as nat)
    else if 'a' <= c <= 'f' then Some(10 + (c - 'a') as nat)
    else if 'A' <= c <= 'F' then Some(10 + (c - 'A') as nat)
    else None
  }

  /** Digits up to 7 are taken in every base, 8 and 9 in bases 10 and 16, letters in base 16. */
  predicate Accepted(d: nat, base: nat) {
    d < 8 || (d < 10 && (base == 10 || base == 16)) || base == 16
  }

  predicate Skipped(c: char, base: nat, thSep: char) {
    base == 10 && c == thSep && (c == '.' || c == ',' || c == ' ')
  }

  function Append(st: Scanned, d: nat, base: nat, signed: bool, max: nat): Scanned
    requires st.Going? && base > 0
  {
    if st.result > Quotient(max, base) then Rejected
    else
      var sum := Times(st.result, base) + d;
      if sum <= max then Going(sum, true)
      else if signed then Overflow
      else Going(Remainder(sum, max + 1), true)
  }

  /** One turn of the loop. */
  function ScanChar(c: char, st: Scanned, base: nat, signed: bool, max: nat, thSep: char): Scanned
    requires base > 0
  {
    if !st.Going? then st
    else if DigitValue(c).Some? then
      var d := DigitValue(c).value;
      if d == 0 && !st.significant then st
      else if !Accepted(d, base) then Rejected
      else Append(st, d, base, signed, max)
    else if Skipped(c, base, thSep) then st
    else Rejected
  }

  function Scan(s: string, st: Scanned, base: nat, signed: bool, max: nat, thSep: char): Scanned
    requires base > 0
  {
    if s == [] then st
    else ScanChar(s[|s| - 1], Scan(s[..|s| - 1], st, base, signed, max, thSep), base, signed, max, thSep)
  }

  predicate IsSpace(c: char) {
    c == ' ' || '\t' <= c <= '\r'
  }

  function SkipSpaces(s: string): string {
    if s != [] && IsSpace(s[0]) then SkipSpaces(s[1..]) else s
  }

  datatype Parsed = Failed | Undefined | Value(value: int)

  /** The whole of strToInt; signed says whether the type has negative values. */
  function Parse(s: string, base: nat, signed: bool, max: nat, thSep: char): Parsed
    requires base > 0
  {
    var t := SkipSpaces(s);
    if t == [] then Failed
    else
      var negative := base == 10 && t[0] == '-';
      if negative && !signed then Failed
      else
        var digits := if negative || t[0] == '+' then t[1..] else t;
        match Scan(digits, Going(0, false), base, signed, max, thSep)
        case Going(n, _) => Value(if negative then -(n as int) else n)
        case Rejected => Failed
        case Overflow => Undefined
  }

  lemma {:induction false} ScanConcat(a: string, b: string, st: Scanned, base: nat, signed: bool, max: nat, thSep: char)
    requires base > 0
    ensures Scan(a + b, st, base, signed, max, thSep)
         == Scan(b, Scan(a, st, base, signed, max, thSep), base, signed, max, thSep)
  {
    if b == [] {
      assert a + b == a;
    } else {
      var n := |a + b|;
      assert (a + b)[..n - 1] == a + b[..|b| - 1] && (a + b)[n - 1] == b[|b| - 1];
      ScanConcat(a, b[..|b| - 1], st, base, signed, max, thSep);
    }
  }

  lemma ScanOne(c: char, st: Scanned, base: nat, signed: bool, max: nat, thSep: char)
    requires base > 0
    ensures Scan([c], st, base, signed, max, thSep) == ScanChar(c, st, base, signed, max, thSep)
  {
    assert [c][..0] == [];
    assert Scan([c][..0], st, base, signed, max, thSep) == st;
  }

  // ----- the guard -----------------------------------------------------------------------------

  /** The value a sequence of digits stands for. */
  function Numeral(digits: seq<nat>, base: nat): nat {
    if digits == [] then 0 else Times(Numeral(digits[..|digits| - 1], base), base) + digits[|digits| - 1]
  }

  ghost predicate AreDigits(digits: seq<nat>, base: nat) {
    forall i :: 0 <= i < |digits| ==> digits[i] < 16 && Accepted(digits[i], base)
  }

  ghost function Characters(digits: seq<nat>, base: nat): string
    requires AreDigits(digits, base)
  {
    seq(|digits|, i requires 0 <= i < |digits| => DigitChar(digits[i]))
  }

  lemma DigitCharValue(d: nat)
    requires d < 16
    ensures DigitValue(DigitChar(d)) == Some(d)
  {
  }

  lemma ZeroTimes(base: nat)
    ensures Times(0, base) == 0
  {
  }

  /** A string of digits that the base accepts is read as the number it stands for when that number is within
      range. Beyond it, in a signed type, the guard stops the loop or the result does not fit; an unsigned type
      gets the remainder exactly when the guard lets every digit pass. */
  lemma {:induction false} DigitsReadExactlyInRange(digits: seq<nat>, base: nat, signed: bool, max: nat, thSep: char)
    requires 2 <= base <= 16 && AreDigits(digits, base)
    ensures var st, n := Scan(Characters(digits, base), Going(0, false), base, signed, max, thSep), Numeral(digits, base);
            if n <= max then st == Going(n, n > 0)
            else if signed then !st.Going?
            else st == if GuardPasses(digits, base, max) then Going(Remainder(n, max + 1), true) else Rejected
  {
    hide Quotient, Remainder, Times, DigitChar, DigitValue, GuardPasses;
    if !signed {
      UnsignedReadIffGuardPasses(digits, base, max, thSep);
    }
    ZeroTimes(base);
    if digits == [] {
    } else {
      var most, d := digits[..|digits| - 1], digits[|digits| - 1];
      var s := Characters(digits, base);
      assert s[..|s| - 1] == Characters(most, base);
      DigitsReadExactlyInRange(most, base, signed, max, thSep);
      DigitCharValue(d);
      HornerGrows(Numeral(most, base), base);
      if Numeral(digits, base) <= max {
        GuardIsExact(Numeral(most, base), base, max);
      }
    }
  }

  /** The first digit that takes the number out of range is noticed by the guard exactly when the number
      would be out of range with a digit 0 in its place, too; otherwise the result does not fit a signed type
      and wraps around in an unsigned one. */
  lemma FirstDigitBeyondIsRejectedIff(digits: seq<nat>, base: nat, signed: bool, max: nat, thSep: char)
    requires 2 <= base <= 16 && AreDigits(digits, base) && digits != []
    requires var most := digits[..|digits| - 1]; Numeral(most, base) <= max < Numeral(digits, base)
    ensures var st, n := Scan(Characters(digits, base), Going(0, false), base, signed, max, thSep),
                         Times(Numeral(digits[..|digits| - 1], base), base);
            st == if n > max then Rejected
                  else if signed then Overflow
                  else Going(Remainder(Numeral(digits, base), max + 1), true)
  {
    hide Quotient, Times, DigitChar, DigitValue;
    ZeroTimes(base);
    var most, s := digits[..|digits| - 1], Characters(digits, base);
    assert s[..|s| - 1] == Characters(most, base);
    DigitsReadExactlyInRange(most, base, signed, max, thSep);
    DigitCharValue(digits[|digits| - 1]);
    GuardIsExact(Numeral(most, base), base, max);
  }

  /** A digit takes the number out of range. */
  predicate BeyondAt(digits: seq<nat>, j: nat, base: nat, max: nat) {
    0 < j <= |digits| && Numeral(digits[..j - 1], base) <= max < Numeral(digits[..j], base)
  }

  /** In a signed type every numeral out of range has one such digit, at which the loop ends: with a refusal
      exactly when the number would be out of range with a digit 0 in its place, too. */
  lemma {:induction false} SignedBeyondIsRejectedIff(digits: seq<nat>, base: nat, max: nat, thSep: char)
      returns (j: nat)
    requires 2 <= base <= 16 && AreDigits(digits, base) && Numeral(digits, base) > max
    ensures BeyondAt(digits, j, base, max)
    ensures Scan(Characters(digits, base), Going(0, false), base, true, max, thSep)
         == if Times(Numeral(digits[..j - 1], base), base) > max then Rejected else Overflow
  {
    hide Quotient, Times, DigitChar, DigitValue;
    var most, s := digits[..|digits| - 1], Characters(digits, base);
    if Numeral(most, base) <= max {
      j := |digits|;
      assert digits[..j] == digits;
      FirstDigitBeyondIsRejectedIff(digits, base, true, max, thSep);
    } else {
      j := SignedBeyondIsRejectedIff(most, base, max, thSep);
      assert most[..j] == digits[..j] && most[..j - 1] == digits[..j - 1];
      assert s[..|s| - 1] == Characters(most, base);
    }
  }

  // ----- unsigned types, where the result wraps around -----------------------------------------

  lemma {:induction false} RemainderOfShift(x: nat, k: nat, m: nat)
    requires m > 0
    ensures Remainder(x + Times(k, m), m) == Remainder(x, m)
  {
    if k == 0 {
      assert Times(0, m) == 0;
    } else {
      RemainderOfShift(x, k - 1, m);
      assert Times(k, m) == Times(k - 1, m) + m;
      RemainderOfNext(x + Times(k - 1, m), m);
    }
  }

  lemma RemainderOfNext(x: nat, m: nat)
    requires m > 0
    ensures Remainder(x + m, m) == Remainder(x, m)
  {
    var q, r, q', r' := x / m, x % m, (x + m) / m, (x + m) % m;
    assert x == q * m + r && x + m == q' * m + r';
    if q' > q + 1 {
      TimesMonotone(q + 2, q', m);
    } else if q' < q + 1 {
      TimesMonotone(q', q, m);
    }
    assert (q + 1) * m == q * m + m;
  }

  /** Wrapping around before a digit is appended or only afterwards makes no difference. */
  lemma WrapBeforeDigit(n: nat, b: nat, d: nat, m: nat)
    requires m > 0
    ensures Remainder(Times(Remainder(n, m), b) + d, m) == Remainder(Times(n, b) + d, m)
  {
    var q, r := n / m, n % m;
    assert n == q * m + r;
    assert n * b == (q * b) * m + r * b;
    RemainderOfShift(r * b + d, q * b, m);
  }

  lemma RemainderInRange(n: nat, m: nat)
    requires m > 0
    ensures Remainder(n, m) < m && (n < m ==> Remainder(n, m) == n)
  {
  }

  /** The guard lets every digit pass: what the digits in front of it have wrapped around to is small
      enough. */
  ghost predicate GuardPasses(digits: seq<nat>, base: nat, max: nat)
    requires base > 0
  {
    forall k: nat :: k < |digits| ==> Remainder(Numeral(digits[..k], base), max + 1) <= Quotient(max, base)
  }

  lemma GuardPassesNext(digits: seq<nat>, base: nat, max: nat)
    requires base > 0 && digits != []
    ensures var most := digits[..|digits| - 1];
            GuardPasses(digits, base, max) <==>
            GuardPasses(most, base, max) && Remainder(Numeral(most, base), max + 1) <= Quotient(max, base)
  {
    hide Numeral, Remainder, Quotient;
    var most := digits[..|digits| - 1];
    assert forall k: nat :: k < |most| ==> most[..k] == digits[..k];
    if GuardPasses(digits, base, max) {
      assert GuardPasses(most, base, max);
    }
  }

  /** An unsigned numeral, in range or not, is accepted exactly when the guard lets every digit pass, and is
      then read as its remainder; otherwise it is refused. */
  lemma {:induction false} UnsignedReadIffGuardPasses(digits: seq<nat>, base: nat, max: nat, thSep: char)
    requires 2 <= base <= 16 && AreDigits(digits, base)
    ensures var st, n := Scan(Characters(digits, base), Going(0, false), base, false, max, thSep), Numeral(digits, base);
            st == if GuardPasses(digits, base, max) then Going(Remainder(n, max + 1), n > 0) else Rejected
  {
    hide Quotient, Remainder, Times, DigitChar, DigitValue, GuardPasses;
    ZeroTimes(base);
    RemainderInRange(Numeral(digits, base), max + 1);
    if digits == [] {
      assert GuardPasses([], base, max) by { NothingToPass(base, max); }
    } else {
      var most, d := digits[..|digits| - 1], digits[|digits| - 1];
      var s, r := Characters(digits, base), Remainder(Numeral(most, base), max + 1);
      assert s[..|s| - 1] == Characters(most, base);
      UnsignedReadIffGuardPasses(most, base, max, thSep);
      GuardPassesNext(digits, base, max);
      DigitCharValue(d);
      HornerGrows(Numeral(most, base), base);
      WrapBeforeDigit(Numeral(most, base), base, d, max + 1);
      RemainderInRange(Times(r, base) + d, max + 1);
      RemainderInRange(Numeral(most, base), max + 1);
    }
  }

  /** The same for the whole of strToInt. */
  lemma UnsignedParseIffGuardPasses(digits: seq<nat>, base: nat, max: nat, thSep: char)
    requires 2 <= base <= 16 && AreDigits(digits, base) && digits != []
    ensures Parse(Characters(digits, base), base, false, max, thSep)
         == if GuardPasses(digits, base, max) then Value(Remainder(Numeral(digits, base), max + 1)) else Failed
  {
    hide Remainder, GuardPasses, Numeral, Scan;
    UnsignedReadIffGuardPasses(digits, base, max, thSep);
    var s := Characters(digits, base);
    assert s[0] == DigitChar(digits[0]) && DigitChar(digits[0]) in HEX;
    assert SkipSpaces(s) == s;
  }

  lemma NothingToPass(base: nat, max: nat)
    requires base > 0
    ensures GuardPasses([], base, max)
  {
  }

  // ----- printing, then parsing ----------------------------------------------------------------

  predicate DigitsAccepted(v: nat, base: nat)
    requires 2 <= base <= 16
    decreases v
  {
    Division(v, base);
    Accepted(Remainder(v, base), base) && (v >= base ==> DigitsAccepted(Quotient(v, base), base))
  }

  /** Scanning printed digits that the base accepts yields the number again. */
  lemma {:induction false} ScanPrintedDigits(
    v: nat, base: nat, sep: Option<char>, count: nat, significant: bool, signed: bool, max: nat, thSep: char)
    requires 2 <= base <= 16 && v <= max && DigitsAccepted(v, base)
    requires sep.Some? && base == 10 ==> sep.value == thSep && thSep in "., "
    ensures Scan(Reverse(Emit(v, base, sep, count)), Going(0, significant), base, signed, max, thSep)
         == Going(v, v > 0 || significant)
    decreases v
  {
    hide Quotient, Remainder, Times, DigitChar, DigitValue, Accepted, Scan, Reverse, Group, NextCount;
    Division(v, base);
    ZeroTimes(base);
    var d, q, group := Remainder(v, base), Quotient(v, base), Group(base, sep, count);
    var st, next := Going(0, significant), NextCount(base, sep, count);
    var rest := if v < base then [] else Emit(q, base, sep, next);
    if v >= base {
      ScanPrintedDigits(q, base, sep, next, significant, signed, max, thSep);
    } else {
      ScanNothing(st, base, signed, max, thSep);
    }
    GroupIsSkipped(base, sep, count, thSep);
    ScanUnit(DigitChar(d), group, rest, st, base, signed, max, thSep);
    DigitCharValue(d);
    GuardIsExact(q, base, max);
  }

  lemma ScanNothing(st: Scanned, base: nat, signed: bool, max: nat, thSep: char)
    requires base > 0
    ensures Scan(Reverse([]), st, base, signed, max, thSep) == st
  {
  }

  lemma GroupIsSkipped(base: nat, sep: Option<char>, count: nat, thSep: char)
    requires sep.Some? && base == 10 ==> sep.value == thSep && thSep in "., "
    ensures |Group(base, sep, count)| <= 1
    ensures forall i :: 0 <= i < |Group(base, sep, count)| ==> Skipped(Group(base, sep, count)[i], base, thSep)
  {
  }

  /** The unit a turn of the printing loop writes adds one digit to what was scanned before it. */
  lemma ScanUnit(c: char, group: string, rest: string, st: Scanned, base: nat, signed: bool, max: nat, thSep: char)
    requires base > 0 && |group| <= 1 && forall i :: 0 <= i < |group| ==> Skipped(group[i], base, thSep)
    ensures Scan(Reverse([c] + group + rest), st, base, signed, max, thSep)
         == ScanChar(c, Scan(Reverse(rest), st, base, signed, max, thSep), base, signed, max, thSep)
  {
    hide ScanChar, Skipped;
    var before := Scan(Reverse(rest), st, base, signed, max, thSep);
    assert Reverse([c] + group + rest) == Reverse(rest) + Reverse(group) + [c];
    ScanConcat(Reverse(rest) + Reverse(group), [c], st, base, signed, max, thSep);
    ScanConcat(Reverse(rest), Reverse(group), st, base, signed, max, thSep);
    ScanGroup(group, before, base, signed, max, thSep);
    ScanOne(c, before, base, signed, max, thSep);
  }

  lemma ScanGroup(group: string, st: Scanned, base: nat, signed: bool, max: nat, thSep: char)
    requires base > 0 && |group| <= 1 && forall i :: 0 <= i < |group| ==> Skipped(group[i], base, thSep)
    ensures Scan(Reverse(group), st, base, signed, max, thSep) == st
  {
    if |group| == 1 {
      assert Reverse(group) == [group[0]];
      ScanOne(group[0], st, base, signed, max, thSep);
    } else {
      assert Reverse(group) == [];
    }
  }

  /** What the parser makes of printed text: it needs base 10 and a signed type for a negative number, has
      no case for the hexadecimal prefix, and knows the digits above 7 in bases 10 and 16 only. */
  predicate Readable(v: int, base: nat, prefix: bool, signed: bool)
    requires 2 <= base <= 16
  {
    (v < 0 ==> base == 10 && signed) && !(prefix && base == 16) && DigitsAccepted(Magnitude(v), base)
  }

  /** All numbers are readable in these bases, which leaves out 9 and 11 to 15. */
  lemma {:induction false} DigitsAcceptedInBase(v: nat, base: nat)
    requires 2 <= base <= 8 || base == 10 || base == 16
    ensures DigitsAccepted(v, base)
    decreases v
  {
    hide Quotient, Remainder, Times;
    Division(v, base);
    if v < base {
    } else {
      DigitsAcceptedInBase(Quotient(v, base), base);
    }
  }

  /** A character that stops the scan wherever it stands. */
  predicate Stops(c: char, base: nat, thSep: char) {
    if DigitValue(c).Some? then !Accepted(DigitValue(c).value, base) else !Skipped(c, base, thSep)
  }

  lemma {:induction false} StopsScan(s: string, i: nat, st: Scanned, base: nat, signed: bool, max: nat, thSep: char)
    requires base > 0 && i < |s| && Stops(s[i], base, thSep)
    ensures !Scan(s, st, base, signed, max, thSep).Going?
  {
    if i == |s| - 1 {
    } else {
      StopsScan(s[..|s| - 1], i, st, base, signed, max, thSep);
    }
  }

  /** Printed digits are digits and, in base 10, separators. */
  predicate DigitOrSeparator(c: char, base: nat, sep: Option<char>) {
    DigitValue(c).Some? || (base == 10 && sep == Some(c))
  }

  lemma {:induction false} EmitCharacters(v: nat, base: nat, sep: Option<char>, count: nat)
    requires 2 <= base <= 16
    ensures var s := Emit(v, base, sep, count);
            s != [] && DigitValue(s[0]).Some? && forall i :: 0 <= i < |s| ==> DigitOrSeparator(s[i], base, sep)
    decreases v
  {
    hide Quotient, Remainder, Times, DigitChar, DigitValue;
    Division(v, base);
    DigitCharValue(Remainder(v, base));
    if v < base {
    } else {
      EmitCharacters(Quotient(v, base), base, sep, NextCount(base, sep, count));
    }
  }

  /** A digit the base does not accept shows up in the text. */
  lemma {:induction false} UnacceptedIsPrinted(v: nat, base: nat, sep: Option<char>, count: nat, thSep: char)
      returns (i: nat)
    requires 2 <= base <= 16 && !DigitsAccepted(v, base)
    ensures i < |Emit(v, base, sep, count)| && Stops(Emit(v, base, sep, count)[i], base, thSep)
    decreases v
  {
    hide Quotient, Remainder, Times, DigitChar, DigitValue, Accepted;
    Division(v, base);
    DigitCharValue(Remainder(v, base));
    if Accepted(Remainder(v, base), base) {
      var k := UnacceptedIsPrinted(Quotient(v, base), base, sep, NextCount(base, sep, count), thSep);
      i := 1 + |Group(base, sep, count)| + k;
    } else {
      i := 0;
    }
  }

  // ----- leading characters --------------------------------------------------------------------

  lemma {:induction false} SkipPadding(n: nat, s: string)
    ensures SkipSpaces(Repeat(' ', n) + s) == SkipSpaces(s)
  {
    var t := Repeat(' ', n) + s;
    if n == 0 {
      assert t == s;
    } else {
      assert t[1..] == Repeat(' ', n - 1) + s;
      SkipPadding(n - 1, s);
    }
  }

  /** Leading spaces that are separators may as well be scanned; what is skipped is only space. */
  lemma {:induction false} SkipIsHarmless(s: string, st: Scanned, base: nat, signed: bool, max: nat, thSep: char)
    requires base > 0 && s != [] && !IsSpace(s[|s| - 1])
    requires forall i :: 0 <= i < |s| && IsSpace(s[i]) ==> Skipped(s[i], base, thSep)
    ensures var t := SkipSpaces(s);
            t != [] && t[0] in s && !IsSpace(t[0]) &&
            Scan(t, st, base, signed, max, thSep) == Scan(s, st, base, signed, max, thSep)
  {
    if IsSpace(s[0]) {
      SkipIsHarmless(s[1..], st, base, signed, max, thSep);
      assert s == [s[0]] + s[1..];
      ScanConcat([s[0]], s[1..], st, base, signed, max, thSep);
      ScanOne(s[0], st, base, signed, max, thSep);
    }
  }

  lemma {:induction false} ScanZeros(n: nat, base: nat, signed: bool, max: nat, thSep: char)
    requires base > 0
    ensures Scan(Repeat('0', n), Going(0, false), base, signed, max, thSep) == Going(0, false)
  {
    if n == 0 {
    } else {
      var s := Repeat('0', n);
      assert s[..n - 1] == Repeat('0', n - 1);
      ScanZeros(n - 1, base, signed, max, thSep);
    }
  }

  /** The part of the text behind the sign. */
  function Unsigned(v: int, base: nat, prefix: bool, zeros: nat, sep: Option<char>): string
    requires 2 <= base <= 16
  {
    Prefix(base, prefix) + Repeat('0', zeros) + Body(v, base, sep)
  }

  lemma ScanUnsigned(
    v: int, base: nat, prefix: bool, zeros: nat, sep: Option<char>, signed: bool, max: nat, thSep: char)
    requires 2 <= base <= 16 && Magnitude(v) <= max && DigitsAccepted(Magnitude(v), base)
    requires !(prefix && base == 16)
    requires sep.Some? && base == 10 ==> sep.value == thSep && thSep in "., "
    ensures Scan(Unsigned(v, base, prefix, zeros, sep), Going(0, false), base, signed, max, thSep)
         == Going(Magnitude(v), v != 0)
  {
    hide Scan, DigitsAccepted, Emit;
    var body := Body(v, base, sep);
    var k := |Prefix(base, prefix)| + zeros;
    assert Unsigned(v, base, prefix, zeros, sep) == Repeat('0', k) + body;
    ScanConcat(Repeat('0', k), body, Going(0, false), base, signed, max, thSep);
    ScanZeros(k, base, signed, max, thSep);
    ScanPrintedDigits(Magnitude(v), base, sep, 0, false, signed, max, thSep);
  }

  /** Behind the sign stand only digits, separators and the x of the hexadecimal prefix; the last is a digit. */
  lemma UnsignedCharacters(v: int, base: nat, prefix: bool, zeros: nat, sep: Option<char>)
    requires 2 <= base <= 16
    ensures var s := Unsigned(v, base, prefix, zeros, sep);
            s != [] && DigitValue(s[|s| - 1]).Some? &&
            forall i :: 0 <= i < |s| ==> DigitOrSeparator(s[i], base, sep) || s[i] == 'x'
  {
    hide Emit;
    EmitCharacters(Magnitude(v), base, sep, 0);
    var e := Emit(Magnitude(v), base, sep, 0);
    var s, k := Unsigned(v, base, prefix, zeros, sep), |Prefix(base, prefix)| + zeros;
    forall i | k <= i < |s|
      ensures s[i] == e[|e| - 1 - (i - k)]
    {
    }
  }

  /** Whatever makes printed text unreadable puts a character into it that stops the scan. */
  lemma UnreadableStops(v: int, base: nat, prefix: bool, zeros: nat, sep: Option<char>, thSep: char)
      returns (i: nat)
    requires 2 <= base <= 16 && (!DigitsAccepted(Magnitude(v), base) || (prefix && base == 16))
    ensures i < |Unsigned(v, base, prefix, zeros, sep)|
    ensures Stops(Unsigned(v, base, prefix, zeros, sep)[i], base, thSep)
  {
    hide Emit, DigitsAccepted;
    var s := Unsigned(v, base, prefix, zeros, sep);
    if prefix && base == 16 {
      i := 1;
      assert s[1] == 'x';
    } else {
      var j := UnacceptedIsPrinted(Magnitude(v), base, sep, 0, thSep);
      var e := Emit(Magnitude(v), base, sep, 0);
      i := |s| - 1 - j;
      assert s[i] == e[j];
    }
  }

  // ----- the round trip ------------------------------------------------------------------------

  /** Padding in front of the sign is skipped. */
  lemma PaddingIsSkipped(v: int, base: nat, prefix: bool, width: int, fill: char, sep: Option<char>)
    requires 2 <= base <= 16 && (fill == ' ' || fill == '0')
    ensures SkipSpaces(Text(v, base, prefix, width, fill, sep))
         == SkipSpaces(Core(v, base, prefix, width, fill, sep))
  {
    hide Core;
    var core := Core(v, base, prefix, width, fill, sep);
    if fill == ' ' {
      SkipPadding(Positive(width - |core|), core);
    } else {
      assert "" + core == core;
    }
  }

  lemma CoreIsSigned(v: int, base: nat, prefix: bool, width: int, fill: char, sep: Option<char>)
    requires 2 <= base <= 16
    ensures Core(v, base, prefix, width, fill, sep)
         == Sign(v) + Unsigned(v, base, prefix, Zeros(v, base, prefix, width, fill, |Body(v, base, sep)|), sep)
  {
    hide Body, Zeros;
  }

  lemma ParseNegative(
    v: int, base: nat, prefix: bool, zeros: nat, sep: Option<char>, signed: bool, max: nat, thSep: char)
    requires 2 <= base <= 16 && v < 0 && -v <= max
    requires sep.Some? && base == 10 ==> sep.value == thSep && thSep in "., "
    ensures Parse("-" + Unsigned(v, base, prefix, zeros, sep), base, signed, max, thSep) == Value(v)
        <==> Readable(v, base, prefix, signed)
  {
    hide Unsigned, Scan, DigitsAccepted;
    var rest := Unsigned(v, base, prefix, zeros, sep);
    var t := "-" + rest;
    assert t[1..] == rest && SkipSpaces(t) == t;
    if base != 10 {
      StopsScan(t, 0, Going(0, false), base, signed, max, thSep);
    } else {
      DigitsAcceptedInBase(-v, base);
      ScanUnsigned(v, base, prefix, zeros, sep, signed, max, thSep);
    }
  }

  lemma ParseNonNegative(
    v: int, base: nat, prefix: bool, zeros: nat, sep: Option<char>, signed: bool, max: nat, thSep: char)
    requires 2 <= base <= 16 && 0 <= v <= max
    requires sep.Some? && base == 10 ==> sep.value == thSep && thSep in "., "
    ensures Parse(Unsigned(v, base, prefix, zeros, sep), base, signed, max, thSep) == Value(v)
        <==> Readable(v, base, prefix, signed)
  {
    hide Unsigned, Scan, DigitsAccepted;
    var s, st := Unsigned(v, base, prefix, zeros, sep), Going(0, false);
    UnsignedCharacters(v, base, prefix, zeros, sep);
    SkipIsHarmless(s, st, base, signed, max, thSep);
    var t := SkipSpaces(s);
    assert t[0] != '-' && t[0] != '+';
    if Readable(v, base, prefix, signed) {
      ScanUnsigned(v, base, prefix, zeros, sep, signed, max, thSep);
    } else {
      var i := UnreadableStops(v, base, prefix, zeros, sep, thSep);
      StopsScan(s, i, st, base, signed, max, thSep);
    }
  }

  /** Printing and then parsing gives back the value exactly when the text is readable: for every value of
      the type but its minimum, every base, prefix, width, blank or zero fill, and separator the parser
      is told about. */
  lemma RoundTripIffReadable(
    v: int, base: nat, prefix: bool, width: int, fill: char, sep: Option<char>, signed: bool, max: nat, thSep: char)
    requires 2 <= base <= 16 && Magnitude(v) <= max && (fill == ' ' || fill == '0')
    requires sep.Some? && base == 10 ==> sep.value == thSep && thSep in "., "
    ensures Parse(Text(v, base, prefix, width, fill, sep), base, signed, max, thSep) == Value(v)
        <==> Readable(v, base, prefix, signed)
  {
    hide Text, Core, Unsigned, Scan, Readable;
    PaddingIsSkipped(v, base, prefix, width, fill, sep);
    CoreIsSigned(v, base, prefix, width, fill, sep);
    var zeros := Zeros(v, base, prefix, width, fill, |Body(v, base, sep)|);
    var rest := Unsigned(v, base, prefix, zeros, sep);
    if v < 0 {
      ParseNegative(v, base, prefix, zeros, sep, signed, max, thSep);
    } else {
      assert "" + rest == rest;
      ParseNonNegative(v, base, prefix, zeros, sep, signed, max, thSep);
    }
  }

  // ----- separators the parser is not told about -----------------------------------------------

  lemma {:induction false} FewDigitsHaveNoSeparator(v: nat, sep: char, count: nat)
    requires count + DigitCount(v, 10) < 3
    ensures Emit(v, 10, Some(sep), count) == Emit(v, 10, None, 0)
    decreases v
  {
    hide Quotient, Remainder, Times, DigitChar;
    Division(v, 10);
    if v < 10 {
    } else {
      FewDigitsHaveNoSeparator(Quotient(v, 10), sep, count + 1);
    }
  }

  lemma {:induction false} GroupHasLeadingSeparator(v: nat, sep: char, count: nat)
    requires count + DigitCount(v, 10) == 3
    ensures Emit(v, 10, Some(sep), count) == Emit(v, 10, None, 0) + [sep]
    ensures |Emit(v, 10, None, 0)| == 3 - count
    decreases v
  {
    hide Quotient, Remainder, Times, DigitChar;
    Division(v, 10);
    if v < 10 {
    } else {
      GroupHasLeadingSeparator(Quotient(v, 10), sep, count + 1);
    }
  }

  /** From three digits on, the fourth character from the end is a separator. */
  lemma {:induction false} FourthIsSeparator(v: nat, sep: char, count: nat)
    requires count < 3 <= count + DigitCount(v, 10)
    ensures var s := Emit(v, 10, Some(sep), count);
            |s| > 3 - count && s[3 - count] == sep && (|s| == 4 - count ==> count + DigitCount(v, 10) == 3)
    decreases v
  {
    hide Quotient, Remainder, Times, DigitChar;
    Division(v, 10);
    if v < 10 {
    } else if count < 2 {
      FourthIsSeparator(Quotient(v, 10), sep, count + 1);
    } else {
      EmitCharacters(Quotient(v, 10), 10, Some(sep), 0);
    }
  }

  /** Where a separator that the parser does not skip does no harm: there is none, or it stands in front of
      the three digits of a non-negative number, where strToInt takes it for white space or a plus. */
  predicate HarmlessSeparator(v: int, width: int, fill: char, sep: char) {
    DigitCount(Magnitude(v), 10) < 3 ||
    (DigitCount(Magnitude(v), 10) == 3 && v >= 0 && (sep == '+' || IsSpace(sep)) && !(fill == '0' && width > 4))
  }

  /** The text behind the sign has the separator as its fourth character from the end. */
  lemma SeparatorPosition(v: int, prefix: bool, zeros: nat, sep: char)
    requires DigitCount(Magnitude(v), 10) >= 3
    ensures var s := Unsigned(v, 10, prefix, zeros, Some(sep));
            |s| >= 4 && s[|s| - 4] == sep &&
            (|s| == 4 ==> zeros == 0 && DigitCount(Magnitude(v), 10) == 3)
  {
    hide Emit, DigitCount;
    FourthIsSeparator(Magnitude(v), sep, 0);
    var e, s := Emit(Magnitude(v), 10, Some(sep), 0), Unsigned(v, 10, prefix, zeros, Some(sep));
    assert s[|s| - 4] == Body(v, 10, Some(sep))[|e| - 4];
  }

  /** Behind three digits the parser would have to get past the separator, which stops it. */
  lemma NegativeIsStopped(
    v: int, prefix: bool, zeros: nat, sep: char, signed: bool, max: nat, thSep: char)
    requires v < 0 && DigitCount(Magnitude(v), 10) >= 3 && Stops(sep, 10, thSep)
    ensures Parse("-" + Unsigned(v, 10, prefix, zeros, Some(sep)), 10, signed, max, thSep) != Value(v)
  {
    hide Unsigned, Scan, DigitCount, Stops;
    var rest := Unsigned(v, 10, prefix, zeros, Some(sep));
    var t := "-" + rest;
    assert t[1..] == rest && SkipSpaces(t) == t;
    SeparatorPosition(v, prefix, zeros, sep);
    StopsScan(rest, |rest| - 4, Going(0, false), 10, signed, max, thSep);
  }

  lemma {:induction false} NoTwoSeparators(v: nat, sep: char, count: nat)
    requires DigitValue(sep).None?
    ensures var s := Emit(v, 10, Some(sep), count); s != [] && (|s| >= 2 && s[|s| - 1] == sep ==> s[|s| - 2] != sep)
    decreases v
  {
    hide Quotient, Remainder, Times, DigitChar, DigitValue;
    Division(v, 10);
    DigitCharValue(Remainder(v, 10));
    if v < 10 {
    } else {
      NoTwoSeparators(Quotient(v, 10), sep, NextCount(10, Some(sep), count));
      EmitCharacters(Quotient(v, 10), 10, Some(sep), NextCount(10, Some(sep), count));
    }
  }

  lemma BehindLeadingSpace(v: int, prefix: bool, zeros: nat, sep: char)
    ensures var s := Unsigned(v, 10, prefix, zeros, Some(sep));
            |s| >= 2 && IsSpace(s[0]) ==> !IsSpace(s[1]) && s[1] != '+' && s[1] != '-'
  {
    hide Emit;
    var e, s := Emit(Magnitude(v), 10, Some(sep), 0), Unsigned(v, 10, prefix, zeros, Some(sep));
    EmitCharacters(Magnitude(v), 10, Some(sep), 0);
    if |s| >= 2 && IsSpace(s[0]) {
      assert zeros == 0 && s[0] == e[|e| - 1] && s[1] == e[|e| - 2];
      NoTwoSeparators(Magnitude(v), sep, 0);
    }
  }

  /** A stopping character behind the first is met by the scan. */
  lemma InnerIsStopped(s: string, i: nat, v: int, signed: bool, max: nat, thSep: char)
    requires 0 < i < |s| && Stops(s[i], 10, thSep)
    requires IsSpace(s[0]) ==> !IsSpace(s[1]) && s[1] != '+' && s[1] != '-'
    ensures Parse(s, 10, signed, max, thSep) != Value(v)
  {
    hide Scan, Stops;
    var st := Going(0, false);
    StopsScan(s, i, st, 10, signed, max, thSep);
    StopsScan(s[1..], i - 1, st, 10, signed, max, thSep);
    assert s[1..][0] == s[1];
    assert SkipSpaces(s) == if IsSpace(s[0]) then s[1..] else s;
  }

  /** Three digits behind a leading separator. */
  lemma LeadingSeparatorReadIff(v: nat, sep: char, signed: bool, max: nat, thSep: char)
    requires DigitCount(v, 10) == 3 && Stops(sep, 10, thSep) && v <= max
    ensures Parse(Body(v, 10, Some(sep)), 10, signed, max, thSep) == Value(v) <==> sep == '+' || IsSpace(sep)
  {
    hide Scan, Stops, Emit, DigitCount;
    GroupHasLeadingSeparator(v, sep, 0);
    EmitCharacters(v, 10, None, 0);
    ThreeDigitsAreNotZero(v);
    var s, digits, st := Body(v, 10, Some(sep)), Body(v, 10, None), Going(0, false);
    assert s == [sep] + digits && s[1..] == digits && s[0] == sep;
    assert DigitValue(digits[0]).Some? by { assert digits[0] == Emit(v, 10, None, 0)[2]; }
    assert SkipSpaces(s) == if IsSpace(sep) then digits else s;
    StopsScan(s, 0, st, 10, signed, max, thSep);
    DigitsAcceptedInBase(v, 10);
    ScanPrintedDigits(v, 10, None, 0, false, signed, max, thSep);
  }

  lemma ThreeDigitsAreNotZero(v: nat)
    requires DigitCount(v, 10) == 3
    ensures v > 0
  {
  }

  lemma SeparatedNonNegative(
    v: nat, prefix: bool, zeros: nat, sep: char, signed: bool, max: nat, thSep: char)
    requires DigitCount(v, 10) >= 3 && Stops(sep, 10, thSep) && v <= max
    ensures Parse(Unsigned(v, 10, prefix, zeros, Some(sep)), 10, signed, max, thSep) == Value(v)
        <==> DigitCount(v, 10) == 3 && zeros == 0 && (sep == '+' || IsSpace(sep))
  {
    hide Parse, DigitCount, Stops, Body;
    var s := Unsigned(v, 10, prefix, zeros, Some(sep));
    SeparatorPosition(v, prefix, zeros, sep);
    BehindLeadingSpace(v, prefix, zeros, sep);
    if DigitCount(v, 10) == 3 && zeros == 0 {
      assert s == Body(v, 10, Some(sep));
      LeadingSeparatorReadIff(v, sep, signed, max, thSep);
    } else {
      InnerIsStopped(s, |s| - 4, v, signed, max, thSep);
    }
  }

  lemma ParseSkips(s: string, t: string, signed: bool, max: nat, thSep: char)
    requires SkipSpaces(s) == SkipSpaces(t)
    ensures Parse(s, 10, signed, max, thSep) == Parse(t, 10, signed, max, thSep)
  {
  }

  /** What is printed with a separator that the parser does not skip. */
  lemma SeparatedRoundTripIff(
    v: int, prefix: bool, width: int, fill: char, sep: char, signed: bool, max: nat, thSep: char)
    requires Magnitude(v) <= max && (fill == ' ' || fill == '0') && Stops(sep, 10, thSep)
    ensures Parse(Text(v, 10, prefix, width, fill, Some(sep)), 10, signed, max, thSep) == Value(v)
        <==> Readable(v, 10, prefix, signed) && HarmlessSeparator(v, width, fill, sep)
  {
    hide Text, Core, Parse, Readable, DigitCount, Stops, Emit, Unsigned;
    if DigitCount(Magnitude(v), 10) < 3 {
      FewDigitsHaveNoSeparator(Magnitude(v), sep, 0);
      SameText(v, prefix, width, fill, sep);
      RoundTripIffReadable(v, 10, prefix, width, fill, None, signed, max, thSep);
    } else {
      PaddingIsSkipped(v, 10, prefix, width, fill, Some(sep));
      CoreIsSigned(v, 10, prefix, width, fill, Some(sep));
      var zeros := Zeros(v, 10, prefix, width, fill, |Body(v, 10, Some(sep))|);
      var rest := Unsigned(v, 10, prefix, zeros, Some(sep));
      ParseSkips(Text(v, 10, prefix, width, fill, Some(sep)), Core(v, 10, prefix, width, fill, Some(sep)),
        signed, max, thSep);
      if v < 0 {
        NegativeIsStopped(v, prefix, zeros, sep, signed, max, thSep);
      } else {
        assert "" + rest == rest;
        SeparatedNonNegative(v, prefix, zeros, sep, signed, max, thSep);
        NonNegativeIsReadable(v, prefix, signed);
        if DigitCount(v, 10) == 3 {
          GroupHasLeadingSeparator(v, sep, 0);
        }
      }
    }
  }

  lemma SameText(v: int, prefix: bool, width: int, fill: char, sep: char)
    requires Emit(Magnitude(v), 10, Some(sep), 0) == Emit(Magnitude(v), 10, None, 0)
    ensures Text(v, 10, prefix, width, fill, Some(sep)) == Text(v, 10, prefix, width, fill, None)
  {
    hide Emit;
  }

  lemma NonNegativeIsReadable(v: nat, prefix: bool, signed: bool)
    ensures Readable(v, 10, prefix, signed)
  {
    DigitsAcceptedInBase(v, 10);
  }

  predicate DecimalDigit(c: char) {
    '0' <= c <= '9'
  }

  /** Printing and then parsing gives back the value exactly when the text is readable and its separator, if
      any, is one that the parser skips or that does no harm: for every value of the type but its minimum,
      every base, prefix and width, blank or zero fill, and every separator that is not itself a digit. */
  lemma RoundTripIff(
    v: int, base: nat, prefix: bool, width: int, fill: char, sep: Option<char>, signed: bool, max: nat, thSep: char)
    requires 2 <= base <= 16 && Magnitude(v) <= max && (fill == ' ' || fill == '0')
    requires sep.Some? ==> !DecimalDigit(sep.value)
    ensures Parse(Text(v, base, prefix, width, fill, sep), base, signed, max, thSep) == Value(v)
        <==> Readable(v, base, prefix, signed) &&
             (base == 10 && sep.Some? ==> Skipped(sep.value, 10, thSep) || HarmlessSeparator(v, width, fill, sep.value))
  {
    hide Text, Parse, Readable, HarmlessSeparator;
    if base == 10 && sep.Some? && !Skipped(sep.value, 10, thSep) {
      SeparatedRoundTripIff(v, prefix, width, fill, sep.value, signed, max, thSep);
    } else {
      RoundTripIffReadable(v, base, prefix, width, fill, sep, signed, max, thSep);
    }
  }

  /** The separator of many locales is refused, also when the parser is told about it. */
  lemma ApostropheIsRefused(max: nat)
    requires max >= 1000
    ensures Text(1000, 10, false, -1, ' ', Some('\'')) == "1'000"
    ensures Parse("1'000", 10, false, max, '\'') != Value(1000)
  {
    hide Parse, Text, DigitCount;
    ThousandWithApostrophe();
    FourDigits();
    SeparatedRoundTripIff(1000, false, -1, ' ', '\'', false, max, '\'');
  }

  lemma ThousandWithApostrophe()
    ensures Text(1000, 10, false, -1, ' ', Some('\'')) == "1'000"
  {
    hide Emit;
    EmitThousand('\'');
    assert Reverse("000'1") == "1'000";
  }

  lemma EmitThousand(sep: char)
    ensures Emit(1000, 10, Some(sep), 0) == "000" + [sep] + "1"
  {
    assert Quotient(1000, 10) == 100 && Quotient(100, 10) == 10 && Quotient(10, 10) == 1;
    assert Emit(1, 10, Some(sep), 0) == "1";
    assert Emit(10, 10, Some(sep), 2) == "0" + [sep] + "1";
    assert Emit(100, 10, Some(sep), 1) == "00" + [sep] + "1";
  }

  lemma FourDigits()
    ensures DigitCount(1000, 10) == 4
  {
    assert Quotient(1000, 10) == 100 && Quotient(100, 10) == 10 && Quotient(10, 10) == 1;
    assert DigitCount(10, 10) == 2;
    assert DigitCount(100, 10) == 3;
  }

  /** In bases 2 to 8, 10 and 16 every number from 0 to max survives, without the hexadecimal prefix. */
  lemma RoundTripInDocumentedBases(
    v: nat, base: nat, prefix: bool, width: int, fill: char, sep: Option<char>, signed: bool, max: nat, thSep: char)
    requires (2 <= base <= 8 || base == 10 || (base == 16 && !prefix)) && v <= max && (fill == ' ' || fill == '0')
    requires sep.Some? && base == 10 ==> sep.value == thSep && thSep in "., "
    ensures Parse(Text(v, base, prefix, width, fill, sep), base, signed, max, thSep) == Value(v)
  {
    hide Text, Parse, DigitsAccepted;
    DigitsAcceptedInBase(v, base);
    RoundTripIffReadable(v, base, prefix, width, fill, sep, signed, max, thSep);
  }

  /** In base 9 the number 8 is printed but not read back. */
  lemma EightIsLostInBaseNine(max: nat)
    requires max >= 8
    ensures Text(8, 9, false, -1, ' ', None) == "8"
    ensures Parse("8", 9, true, max, ',') == Failed
  {
    EightInBaseNine();
    assert SkipSpaces("8") == "8";
    ScanOne('8', Going(0, false), 9, true, max, ',');
  }

  lemma EightInBaseNine()
    ensures Text(8, 9, false, -1, ' ', None) == "8"
  {
    assert Quotient(8, 9) == 0 && Remainder(8, 9) == 8;
    assert Emit(8, 9, None, 0) == "8";
    assert Reverse("8") == "8";
  }

  /** As 8-bit unsigned numbers, 256 and 2560 are both read as 0. */
  lemma OutOfRangeIsReadAsZero()
    ensures Parse("256", 10, false, 255, ',') == Value(0)
    ensures Parse("2560", 10, false, 255, ',') == Value(0)
  {
    hide Parse, GuardPasses, Numeral, Remainder;
    var three, four := [2, 5, 6], [2, 5, 6, 0];
    PrefixNumerals(three, four);
    UnsignedParseIffGuardPasses(three, 10, 255, ',');
    UnsignedParseIffGuardPasses(four, 10, 255, ',');
    assert Characters(three, 10) == "256" && Characters(four, 10) == "2560";
  }

  lemma PrefixNumerals(three: seq<nat>, four: seq<nat>)
    requires three == [2, 5, 6] && four == [2, 5, 6, 0]
    ensures Remainder(Numeral(three, 10), 256) == Remainder(Numeral(four, 10), 256) == 0
    ensures GuardPasses(three, 10, 255) && GuardPasses(four, 10, 255)
  {
    assert four[..3] == three && four[..2] == three[..2] == [2, 5] && four[..1] == three[..1] == [2, 5][..1] == [2];
    assert four[..0] == three[..0] == [2][..0] == [];
    assert Numeral([], 10) == 0 && Numeral([2], 10) == 2 && Numeral([2, 5], 10) == 25;
    assert Numeral(three, 10) == 256 && Numeral(four, 10) == 2560;
  }

  /** Three digits are printed with a separator in front of them. */
  lemma HundredHasLeadingSeparator()
    ensures Text(100, 10, false, -1, ' ', Some(',')) == ",100"
  {
    assert Quotient(100, 10) == 10 && Quotient(10, 10) == 1;
    assert Emit(1, 10, Some(','), 2) == "1,";
    assert Emit(10, 10, Some(','), 1) == "01,";
    assert Emit(100, 10, Some(','), 0) == "001,";
  }

  // ----- the characters, told apart from the functions that read and print them ----------------

  const UPPER := "0123456789ABCDEF"
  const LOWER := "0123456789abcdef"

  /** A digit is printed as the character at its position among the capital hexadecimal digits; it is read
      from that position among the capital and among the small ones, and other characters are no digits. */
  lemma DigitCharacters(d: nat, c: char)
    requires d < 16
    ensures DigitChar(d) == UPPER[d] && DigitValue(UPPER[d]) == DigitValue(LOWER[d]) == Some(d)
    ensures DigitValue(c).Some? <==> c in UPPER || c in LOWER
  {
    if DigitValue(c).Some? {
      var k := DigitValue(c).value;
      assert c == UPPER[k] || c == LOWER[k];
    }
  }

  /** The characters spell the digits, each in capital or small letters. */
  ghost predicate Spells(s: string, digits: seq<nat>) {
    |s| == |digits| && forall i :: 0 <= i < |s| ==> digits[i] < 16 && (s[i] == UPPER[digits[i]] || s[i] == LOWER[digits[i]])
  }

  lemma {:induction false} SameDigitsScanAlike(s: string, t: string, base: nat, signed: bool, max: nat, thSep: char)
    requires base > 0 && |s| == |t|
    requires forall i :: 0 <= i < |s| ==> DigitValue(s[i]).Some? && DigitValue(s[i]) == DigitValue(t[i])
    ensures Scan(s, Going(0, false), base, signed, max, thSep) == Scan(t, Going(0, false), base, signed, max, thSep)
  {
    hide DigitValue;
    if s == [] {
    } else {
      SameDigitsScanAlike(s[..|s| - 1], t[..|t| - 1], base, signed, max, thSep);
    }
  }

  /** However its digits are spelled, a numeral is read as DigitsReadExactlyInRange says. */
  lemma SpelledIsReadAlike(s: string, digits: seq<nat>, base: nat, signed: bool, max: nat, thSep: char)
    requires 2 <= base <= 16 && AreDigits(digits, base) && Spells(s, digits)
    ensures Scan(s, Going(0, false), base, signed, max, thSep)
         == Scan(Characters(digits, base), Going(0, false), base, signed, max, thSep)
  {
    hide DigitValue, DigitChar, Scan;
    forall i | 0 <= i < |s|
      ensures DigitValue(s[i]) == DigitValue(Characters(digits, base)[i]) == Some(digits[i])
    {
      DigitCharacters(digits[i], s[i]);
    }
    SameDigitsScanAlike(s, Characters(digits, base), base, signed, max, thSep);
  }

  /** White space is blank, tabulator, line feed, vertical tabulator, form feed and carriage return. */
  ghost predicate AllSpace(s: string) {
    forall i :: 0 <= i < |s| ==> s[i] in [' ', '\t', '\n', '\U{000b}', '\U{000c}', '\r']
  }

  lemma {:induction false} SpaceIsSkipped(w: string, s: string)
    requires AllSpace(w) && (s == [] || s[0] !in [' ', '\t', '\n', '\U{000b}', '\U{000c}', '\r'])
    ensures SkipSpaces(w + s) == s
  {
    if w == [] {
      assert w + s == s;
    } else {
      assert (w + s)[1..] == w[1..] + s;
      SpaceIsSkipped(w[1..], s);
    }
  }

  lemma FirstIsDigit(s: string, digits: seq<nat>)
    requires Spells(s, digits) && digits != []
    ensures s != [] && (s[0] in UPPER || s[0] in LOWER)
  {
  }

  /** A spelled numeral within range is read as its value behind any white space, negated behind a minus in
      base 10 for a signed type, and unchanged behind a plus or without a sign. */
  lemma SignedNumeralIsRead(
    w: string, sign: string, s: string, digits: seq<nat>, base: nat, signed: bool, max: nat, thSep: char)
    requires 2 <= base <= 16 && AreDigits(digits, base) && Spells(s, digits) && digits != []
    requires AllSpace(w) && Numeral(digits, base) <= max
    requires sign == "" || sign == "+" || sign == "-"
    ensures Parse(w + (sign + s), base, signed, max, thSep) ==
      if sign != "-" then Value(Numeral(digits, base))
      else if base == 10 && signed then Value(-(Numeral(digits, base) as int))
      else Failed
  {
    hide Scan, Numeral, DigitChar, Spells, AreDigits, AllSpace, SkipSpaces;
    SpelledIsReadAlike(s, digits, base, signed, max, thSep);
    DigitsReadExactlyInRange(digits, base, signed, max, thSep);
    var t := sign + s;
    FirstIsDigit(s, digits);
    SpaceIsSkipped(w, t);
    assert sign != "" ==> t[1..] == s;
    if sign == "" {
      assert t == s;
    } else if sign == "-" && base != 10 {
      StopsScan(t, 0, Going(0, false), base, signed, max, thSep);
      NeverOverflows(t, base, signed, max, thSep);
    }
  }

  /** A minus is no digit in any base, so that the loop ends there with false. */
  lemma NeverOverflows(t: string, base: nat, signed: bool, max: nat, thSep: char)
    requires base > 0 && t != [] && t[0] == '-'
    ensures Scan(t, Going(0, false), base, signed, max, thSep) == Rejected
  {
    assert t == [t[0]] + t[1..];
    ScanConcat([t[0]], t[1..], Going(0, false), base, signed, max, thSep);
    ScanOne(t[0], Going(0, false), base, signed, max, thSep);
    RejectedStays(t[1..], base, signed, max, thSep);
  }

  lemma {:induction false} RejectedStays(s: string, base: nat, signed: bool, max: nat, thSep: char)
    requires base > 0
    ensures Scan(s, Rejected, base, signed, max, thSep) == Rejected
  {
    if s == [] {
    } else {
      RejectedStays(s[..|s| - 1], base, signed, max, thSep);
    }
  }

  /** Nothing but white space is no number; a sign with nothing behind it is taken for 0. */
  lemma NoDigits(w: string, base: nat, signed: bool, max: nat, thSep: char)
    requires base > 0 && AllSpace(w)
    ensures Parse(w, base, signed, max, thSep) == Failed
    ensures Parse(w + "+", base, signed, max, thSep) == Value(0)
    ensures base == 10 && signed ==> Parse(w + "-", base, signed, max, thSep) == Value(0)
  {
    SpaceIsSkipped(w, "");
    assert w + "" == w;
    SpaceIsSkipped(w, "+");
    SpaceIsSkipped(w, "-");
    assert "+"[1..] == "" && "-"[1..] == "";
  }

  /** A separator the parser is told about may stand anywhere among the digits. */
  lemma SeparatorsAnywhere(a: string, b: string, signed: bool, max: nat, thSep: char)
    requires thSep == '.' || thSep == ',' || thSep == ' '
    ensures Scan(a + [thSep] + b, Going(0, false), 10, signed, max, thSep)
         == Scan(a + b, Going(0, false), 10, signed, max, thSep)
  {
    hide Scan;
    var st := Going(0, false);
    ScanConcat(a + [thSep], b, st, 10, signed, max, thSep);
    ScanConcat(a, [thSep], st, 10, signed, max, thSep);
    ScanConcat(a, b, st, 10, signed, max, thSep);
    ScanOne(thSep, Scan(a, st, 10, signed, max, thSep), 10, signed, max, thSep);
  }

  /** A character that is neither a digit the base accepts nor the separator told makes any text a failure:
      in other bases than 10 there are no separators. */
  lemma StrangersAreRefused(s: string, i: nat, base: nat, signed: bool, max: nat, thSep: char)
    requires 2 <= base <= 16 && i < |s| && s[i] !in UPPER && s[i] !in LOWER
    requires base == 10 ==> s[i] != thSep || s[i] !in "., "
    ensures !Scan(s, Going(0, false), base, signed, max, thSep).Going?
  {
    DigitCharacters(0, s[i]);
    StopsScan(s, i, Going(0, false), base, signed, max, thSep);
  }

  // ----- printed digits as a numeral -----------------------------------------------------------

  /** The digits that are printed, the most significant first, in any base: they are below the base, the
      first is not 0 unless it is the only one, and they are a numeral for the number. */
  lemma {:induction false} PrintedIsNumeral(v: nat, base: nat, sep: Option<char>) returns (digits: seq<nat>)
    requires 2 <= base <= 16 && (base != 10 || sep == None)
    ensures digits != [] && (forall i :: 0 <= i < |digits| ==> digits[i] < base) && (digits[0] == 0 ==> |digits| == 1)
    ensures Numeral(digits, base) == v && (digits[0] == 0 ==> v == 0)
    ensures |Reverse(Emit(v, base, sep, 0))| == |digits|
    ensures forall i :: 0 <= i < |digits| ==> Reverse(Emit(v, base, sep, 0))[i] == UPPER[digits[i]]
    decreases v
  {
    hide Quotient, Remainder, Times, DigitChar, Numeral, Reverse;
    Division(v, base);
    var d := Remainder(v, base);
    DigitCharacters(d, 'x');
    if v < base {
      digits := [d];
      OneDigit(v, base);
      assert Reverse([DigitChar(d)]) == [DigitChar(d)] by { ReverseLast(DigitChar(d), []); }
    } else {
      var more := PrintedIsNumeral(Quotient(v, base), base, sep);
      digits := more + [d];
      AppendDigit(more, d, base);
      ReverseLast(DigitChar(d), Emit(Quotient(v, base), base, sep, 0));
    }
  }

  lemma OneDigit(v: nat, base: nat)
    requires 2 <= base && v < base
    ensures Remainder(v, base) == v && Numeral([v], base) == v
  {
    assert [v][..0] == [];
    assert Numeral([], base) == 0 && Times(0, base) == 0;
  }

  lemma AppendDigit(digits: seq<nat>, d: nat, base: nat)
    ensures Numeral(digits + [d], base) == Times(Numeral(digits, base), base) + d
  {
    assert (digits + [d])[..|digits|] == digits;
  }

  lemma ReverseLast(c: char, s: string)
    ensures Reverse([c] + [] + s) == Reverse(s) + [c] && Reverse([c]) == [c]
  {
  }

  /** Every fourth character from the end is a separator, and no other is. */
  lemma {:induction false} SeparatorPositions(v: nat, sep: char, count: nat, i: nat)
    requires sep !in UPPER && count < 3 && i < |Emit(v, 10, Some(sep), count)|
    ensures Emit(v, 10, Some(sep), count)[i] == sep <==> (i + count) % 4 == 3
    decreases v
  {
    hide Emit;
    var unit, next := if count == 2 then 2 else 1, if count == 2 then 0 else count + 1;
    EmitDecimal(v, sep, count);
    if i >= unit {
      SeparatorPositions(Quotient(v, 10), sep, next, i - unit);
    }
  }

  /** The first characters of the text from a digit on: the digit and, if it completes a group, a separator. */
  lemma EmitDecimal(v: nat, sep: char, count: nat)
    requires sep !in UPPER && count < 3
    ensures var unit, next := if count == 2 then 2 else 1, if count == 2 then 0 else count + 1;
            var text, q := Emit(v, 10, Some(sep), count), Quotient(v, 10);
            |text| >= unit && text[0] != sep && (count == 2 ==> text[1] == sep) &&
            text[unit..] == (if v < 10 then [] else Emit(q, 10, Some(sep), next)) && (v >= 10 ==> q < v)
  {
    hide Quotient, Remainder, Times, DigitChar;
    Division(v, 10);
    DigitCharacters(Remainder(v, 10), sep);
  }

  /** Letters in either case have their value; 7 is a digit in base 2, too; white space, signs and separators. */
  lemma ReadExamples()
    ensures Parse("ff", 16, false, 255, ',') == Parse("FF", 16, false, 255, ',') == Value(255)
    ensures Parse("7", 2, true, 127, ',') == Value(7)
    ensures Parse("\t -12", 10, true, 127, ',') == Value(-12)
  {
    hide Parse, Scan, Numeral;
    ExampleNumerals();
    assert AreDigits([15, 15], 16) && AreDigits([7], 2) && AreDigits([1, 2], 10);
    assert Spells("ff", [15, 15]) && Spells("FF", [15, 15]) && Spells("7", [7]) && Spells("12", [1, 2]);
    SignedNumeralIsRead("", "", "ff", [15, 15], 16, false, 255, ',');
    SignedNumeralIsRead("", "", "FF", [15, 15], 16, false, 255, ',');
    SignedNumeralIsRead("", "", "7", [7], 2, true, 127, ',');
    SignedNumeralIsRead("\t ", "-", "12", [1, 2], 10, true, 127, ',');
    assert "" + ("" + "ff") == "ff" && "" + ("" + "FF") == "FF" && "" + ("" + "7") == "7";
    assert "\t " + ("-" + "12") == "\t -12";
  }

  lemma ExampleNumerals()
    ensures Numeral([15, 15], 16) == 255 && Numeral([7], 2) == 7 && Numeral([1, 2], 10) == 12
  {
    AppendDigit([], 15, 16);
    AppendDigit([15], 15, 16);
    AppendDigit([], 7, 2);
    AppendDigit([], 1, 10);
    AppendDigit([1], 2, 10);
    assert [] + [15] == [15] && [15] + [15] == [15, 15] && [] + [7] == [7] && [] + [1] == [1] && [1] + [2] == [1, 2];
  }

  /** Zero padding stands behind the prefix or the sign, any other in front of it. */
  lemma LayoutExamples()
    ensures Text(255, 16, true, 8, '0', None) == "0x0000FF" && Text(255, 16, true, 8, ' ', None) == "    0xFF"
    ensures Text(-12, 10, false, 6, '0', None) == "-00012" && Text(-12, 10, false, 6, ' ', None) == "   -12"
    ensures Text(8, 8, true, 6, '0', None) == "000010" && Text(8, 8, true, 6, '*', None) == "***010"
  {
    hide Body;
    ExampleBodies();
    assert Repeat('0', 4) == "0000" && Repeat(' ', 4) == "    " && Repeat('0', 3) == "000" && Repeat(' ', 3) == "   ";
    assert Repeat('*', 3) == "***" && Repeat('0', 0) == "";
  }

  lemma ExampleBodies()
    ensures Body(255, 16, None) == "FF" && Body(-12, 10, None) == "12" && Body(8, 8, None) == "10"
  {
    assert Quotient(255, 16) == 15 && Remainder(255, 16) == 15 && Quotient(15, 16) == 0 && Remainder(15, 16) == 15;
    assert Quotient(12, 10) == 1 && Remainder(12, 10) == 2 && Quotient(1, 10) == 0 && Remainder(1, 10) == 1;
    assert Quotient(8, 8) == 1 && Remainder(8, 8) == 0 && Quotient(1, 8) == 0 && Remainder(1, 8) == 1;
    assert Emit(15, 16, None, 0) == "F" && Emit(255, 16, None, 0) == "FF";
    assert Emit(1, 10, None, 0) == "1" && Emit(12, 10, None, 0) == "21";
    assert Emit(1, 8, None, 0) == "1" && Emit(8, 8, None, 0) == "01";
  }
}
