/** The loops of shared/include/Poco/NumericString.h, proved to compute what NumericText describes. */
module NumericStrings {
  import opened Collections
  import opened NumericText

  /** BadBase is the false result, RangeError the exception of Impl::Ptr. When the text fills the buffer
      exactly, the terminating zero has no cell in it: NoTerminator is where the model stops. */
  datatype Printed = BadBase | RangeError | NoTerminator | Printed(size: nat)

  /** *ptr++ = c on the wrapped pointer, which admits as many characters as the buffer has cells. */
  method Push(result: array<char>, n: nat, c: char) returns (ok: bool)
    requires n <= result.Length
    modifies result
    ensures ok <==> n < result.Length
    ensures ok ==> result[..n + 1] == old(result[..n]) + [c]
  {
    ok := n < result.Length;
    if ok {
      result[n] := c;
    }
  }

  /** while ((ptr - result) < width) *ptr++ = fill; */
  method Fill(result: array<char>, start: nat, width: int, c: char) returns (ok: bool, n: nat)
    requires start <= result.Length
    modifies result
    ensures ok <==> start + Positive(width - start) <= result.Length
    ensures ok ==> n == start + Positive(width - start) && result[..n] == old(result[..start]) + Repeat(c, n - start)
  {
    n := start;
    assert Repeat(c, 0) == [];
    while n < width
      invariant start <= n <= result.Length && n <= start + Positive(width - start)
      invariant result[..n] == old(result[..start]) + Repeat(c, n - start)
    {
      assert Repeat(c, n + 1 - start) == Repeat(c, n - start) + [c];
      ok := Push(result, n, c);
      if !ok {
        return;
      }
      n := n + 1;
    }
    ok := true;
  }

  /** The digit table is symmetric, so that the negative remainders of a negative value need no case. */
  const TABLE := "FEDCBA9876543210123456789ABCDEF"

  /** C++ division truncates toward zero. */
  function Truncated(a: int, b: nat): int
    requires b > 0
  {
    if a >= 0 then Quotient(a, b) else -(Quotient(-a, b) as int)
  }

  lemma TableIsSymmetric(d: nat)
    requires d < 16
    ensures TABLE[15 + d] == TABLE[15 - d] == DigitChar(d)
  {
  }

  /** value - quotient * base, where both have the sign of the value. */
  function SignedRemainder(value: int, base: nat): int
    requires base > 0
  {
    var q := Truncated(value, base);
    value - (if q >= 0 then Times(q, base) else -(Times(-q, base) as int))
  }

  lemma SignedDivision(value: int, base: nat)
    requires 2 <= base <= 16
    ensures var d: int := Remainder(Magnitude(value), base);
            d < 16 && SignedRemainder(value, base) == if value < 0 then -d else d
    ensures Magnitude(Truncated(value, base)) == Quotient(Magnitude(value), base)
  {
    hide Quotient, Remainder, Times;
    Division(Magnitude(value), base);
    ZeroTimes(base);
  }

  lemma TableDigit(value: int, base: nat)
    requires 2 <= base <= 16
    ensures var r := SignedRemainder(value, base);
            -16 < r < 16 && TABLE[15 + r] == DigitChar(Remainder(Magnitude(value), base))
    ensures Magnitude(Truncated(value, base)) == Quotient(Magnitude(value), base)
  {
    hide Quotient, Remainder, SignedRemainder, Truncated;
    SignedDivision(value, base);
    TableIsSymmetric(Remainder(Magnitude(value), base));
  }

  /** One turn of the digit loop: a digit and, when it closes a group, a separator. */
  method PrintDigit(value: int, base: nat, result: array<char>, start: nat, thSep: Option<char>, thCount: nat)
      returns (ok: bool, n: nat, quotient: int, count: nat)
    requires 2 <= base <= 16 && start <= result.Length
    modifies result
    ensures var unit := [DigitChar(Remainder(Magnitude(value), base))] + Group(base, thSep, thCount);
            (ok <==> start + |unit| <= result.Length) &&
            (ok ==> n == start + |unit| && result[..n] == old(result[..start]) + unit)
    ensures quotient == Truncated(value, base) && count == NextCount(base, thSep, thCount)
  {
    hide Quotient, Remainder, Times, DigitChar;
    TableDigit(value, base);
    n, count, quotient := start, thCount, Truncated(value, base);
    var c := TABLE[15 + SignedRemainder(value, base)];
    ok := Push(result, n, c);
    if ok {
      n := n + 1;
    }
    if thSep.Some? && base == 10 {
      count := count + 1;
      if count == 3 {
        if ok {
          ok := Push(result, n, thSep.value);
          n := n + 1;
        }
        count := 0;
      }
    }
  }

  lemma EmitUnit(v: nat, base: nat, sep: Option<char>, count: nat) returns (unit: string)
    requires 2 <= base <= 16
    ensures unit == [DigitChar(Remainder(v, base))] + Group(base, sep, count)
    ensures unit <= Emit(v, base, sep, count)
    ensures Emit(v, base, sep, count)[|unit|..]
         == if Quotient(v, base) == 0 then [] else Emit(Quotient(v, base), base, sep, NextCount(base, sep, count))
  {
    hide Quotient, Remainder, Times, DigitChar, Group, NextCount;
    Division(v, base);
    unit := [DigitChar(Remainder(v, base))] + Group(base, sep, count);
  }

  /** The loop that writes the digits, least significant first; the sign is that of the last value divided. */
  method PrintDigits(value: int, base: nat, result: array<char>, thSep: Option<char>)
      returns (ok: bool, n: nat, negative: bool)
    requires 2 <= base <= 16
    modifies result
    ensures var text := Emit(Magnitude(value), base, thSep, 0);
            (ok <==> |text| <= result.Length) && (ok ==> n == |text| && result[..n] == text)
    ensures ok ==> (negative <==> value < 0)
  {
    hide Quotient, Remainder, Times, DigitChar, Group, NextCount, Emit;
    var v, thCount, tmpVal := value, 0, value;
    n, negative := 0, false;
    ghost var text := Emit(Magnitude(value), base, thSep, 0);
    ghost var rest := text;
    while true
      invariant n <= result.Length
      invariant (tmpVal < 0 <==> value < 0) && (v < 0 <==> value < 0) && (value == 0 <==> v == 0)
      invariant rest == Emit(Magnitude(v), base, thSep, thCount)
      invariant text == result[..n] + rest
      decreases Magnitude(v)
    {
      Division(Magnitude(v), base);
      TableDigit(v, base);
      ghost var written := result[..n];
      ghost var unit := EmitUnit(Magnitude(v), base, thSep, thCount);
      assert written + rest == written + unit + rest[|unit|..];
      tmpVal, rest := v, rest[|unit|..];
      ok, n, v, thCount := PrintDigit(v, base, result, n, thSep, thCount);
      if !ok {
        return;
      }
      if v == 0 {
        break;
      }
    }
    negative := tmpVal < 0;
  }

  /** The reversal at the end, in place. */
  method ReverseInPlace(result: array<char>, size: nat)
    requires size <= result.Length
    modifies result
    ensures result[..size] == Reverse(old(result[..size]))
    ensures forall k :: size <= k < result.Length ==> result[k] == old(result[k])
  {
    var ptrr, ptr := 0, size - 1;
    while ptrr < ptr
      invariant 0 <= ptrr <= ptr + 1 <= size && ptrr + ptr == size - 1
      invariant forall k :: 0 <= k < ptrr ==> result[k] == old(result[size - 1 - k])
      invariant forall k :: ptr < k < size ==> result[k] == old(result[size - 1 - k])
      invariant forall k :: ptrr <= k <= ptr ==> result[k] == old(result[k])
      invariant forall k :: size <= k < result.Length ==> result[k] == old(result[k])
    {
      var tmp := result[ptr];
      result[ptr] := result[ptrr];
      ptr := ptr - 1;
      result[ptrr] := tmp;
      ptrr := ptrr + 1;
    }
  }

  /** The text as it stands in the buffer before the reversal. */
  ghost function Backwards(v: int, base: nat, prefix: bool, width: int, fill: char, sep: Option<char>): string
    requires 2 <= base <= 16
  {
    Reverse(Text(v, base, prefix, width, fill, sep))
  }

  lemma ReverseTwice<T>(s: seq<T>)
    ensures Reverse(Reverse(s)) == s
  {
  }

  lemma ReverseConcat(a: string, b: string)
    ensures Reverse(a + b) == Reverse(b) + Reverse(a)
  {
  }

  lemma ReverseRepeat(c: char, n: nat)
    ensures Reverse(Repeat(c, n)) == Repeat(c, n)
  {
  }

  lemma CoreParts(v: int, base: nat, prefix: bool, width: int, fill: char, sep: Option<char>)
    requires 2 <= base <= 16
    ensures Reverse(Core(v, base, prefix, width, fill, sep)) == CoreBackwards(v, base, prefix, width, fill, sep)
  {
    hide Emit, Zeros, Prefix, Reverse, Repeat;
    var digits := Emit(Magnitude(v), base, sep, 0);
    var body := Reverse(digits);
    ReverseTwice(digits);
    var zeros := Repeat('0', Zeros(v, base, prefix, width, fill, |body|));
    ReverseConcat(Sign(v) + Prefix(base, prefix) + zeros, body);
    ReverseConcat(Sign(v) + Prefix(base, prefix), zeros);
    ReverseConcat(Sign(v), Prefix(base, prefix));
    ReverseRepeat('0', |zeros|);
    assert Reverse(Sign(v)) == Sign(v) by { ReverseSign(v); }
    var p, sign := Reverse(Prefix(base, prefix)), Sign(v);
    assert digits + (zeros + (p + sign)) == digits + zeros + p + sign;
  }

  lemma ReverseSign(v: int)
    ensures Reverse(Sign(v)) == Sign(v)
  {
  }

  /** The four parts that the loops write one after the other. */
  lemma BackwardsParts(v: int, base: nat, prefix: bool, width: int, fill: char, sep: Option<char>)
    requires 2 <= base <= 16
    ensures Backwards(v, base, prefix, width, fill, sep) ==
      CoreBackwards(v, base, prefix, width, fill, sep) +
      if fill == '0' then "" else Repeat(fill, Positive(width - |CoreBackwards(v, base, prefix, width, fill, sep)|))
  {
    hide Core, CoreBackwards, Reverse, Repeat;
    CoreParts(v, base, prefix, width, fill, sep);
    var core := Core(v, base, prefix, width, fill, sep);
    var padding := if fill == '0' then "" else Repeat(fill, Positive(width - |core|));
    ReverseConcat(padding, core);
    if fill == '0' {
      assert Reverse("") == "";
    } else {
      ReverseRepeat(fill, |padding|);
    }
  }

  ghost function CoreBackwards(v: int, base: nat, prefix: bool, width: int, fill: char, sep: Option<char>): string
    requires 2 <= base <= 16
  {
    var digits := Emit(Magnitude(v), base, sep, 0);
    digits + Repeat('0', Zeros(v, base, prefix, width, fill, |digits|)) + Reverse(Prefix(base, prefix)) + Sign(v)
  }

  /** Zero padding up to the width, with room for the prefix and the sign. */
  method PrintZeros(
    result: array<char>, start: nat, ghost value: int, negative: bool, base: nat, prefix: bool, width: int, fill: char)
      returns (ok: bool, n: nat)
    requires start <= result.Length && (negative <==> value < 0)
    modifies result
    ensures var zeros := Zeros(value, base, prefix, width, fill, start);
            (ok <==> start + zeros <= result.Length) &&
            (ok ==> n == start + zeros && result[..n] == old(result[..start]) + Repeat('0', zeros))
  {
    ok, n := true, start;
    assert Repeat('0', 0) == [];
    if fill == '0' {
      var w := width;
      if negative { w := w - 1; }
      if prefix && base == 8 { w := w - 1; }
      if prefix && base == 16 { w := w - 2; }
      ok, n := Fill(result, n, w, fill);
    }
  }

  /** Everything up to the sign. */
  method PrintCore(
    value: int, base: nat, result: array<char>, prefix: bool, width: int, fill: char, thSep: Option<char>)
      returns (ok: bool, n: nat)
    requires 2 <= base <= 16
    modifies result
    ensures var core := CoreBackwards(value, base, prefix, width, fill, thSep);
            (ok <==> |core| <= result.Length) && (ok ==> n == |core| && result[..n] == core)
  {
    hide Emit;
    var negative;
    ok, n, negative := PrintDigits(value, base, result, thSep);
    if !ok {
      return;
    }
    hide Zeros;
    ghost var digits := result[..n];
    ok, n := PrintZeros(result, n, value, negative, base, prefix, width, fill);
    if !ok {
      return;
    }
    ghost var padded := digits + Repeat('0', Zeros(value, base, prefix, width, fill, |digits|));
    ok, n := PushAll(result, n, if prefix && base == 8 then "0" else if prefix && base == 16 then "x0" else "");
    if !ok {
      return;
    }
    assert result[..n] == padded + Reverse(Prefix(base, prefix));
    if negative {
      ok := Push(result, n, '-');
      n := n + 1;
    }
  }

  method IntToStr(
    value: int, base: nat, result: array<char>, prefix: bool, width: int, fill: char, thSep: Option<char>)
      returns (r: Printed)
    requires result.Length > 0 || 2 <= base <= 16
    modifies result
    ensures base < 2 || base > 16 ==> r == BadBase && result[0] == '\0'
    ensures 2 <= base <= 16 ==>
      var text := Text(value, base, prefix, width, fill, thSep);
      if |text| > result.Length then r == RangeError
      else if |text| == result.Length then r == NoTerminator
      else r == Printed(|text|) && result[..|text|] == text && result[|text|] == '\0'
  {
    if base < 2 || base > 16 {
      result[0] := '\0';
      return BadBase;
    }
    hide Text, CoreBackwards;
    BackwardsParts(value, base, prefix, width, fill, thSep);
    var ok, n := PrintCore(value, base, result, prefix, width, fill, thSep);
    if !ok {
      return RangeError;
    }
    if fill != '0' {
      ok, n := Fill(result, n, width, fill);
      if !ok {
        return RangeError;
      }
    }
    assert result[..n] == Backwards(value, base, prefix, width, fill, thSep);
    if n == result.Length {
      return NoTerminator;
    }
    result[n] := '\0';
    ReverseInPlace(result, n);
    ReverseTwice(Text(value, base, prefix, width, fill, thSep));
    r := Printed(n);
  }

  /** One cell for one digit leaves none for the terminator. */
  method OneCellHasNoTerminator() returns (r: Printed)
    ensures r == NoTerminator
  {
    var result := new char[1];
    assert Emit(7, 10, None, 0) == "7" by { assert Quotient(7, 10) == 0 && Remainder(7, 10) == 7; }
    assert Text(7, 10, false, -1, ' ', None) == "7";
    r := IntToStr(7, 10, result, false, -1, ' ', None);
  }

  /** The characters of the base prefix, written backwards. */
  method PushAll(result: array<char>, start: nat, s: string) returns (ok: bool, n: nat)
    requires start <= result.Length
    modifies result
    ensures ok <==> start + |s| <= result.Length
    ensures ok ==> n == start + |s| && result[..n] == old(result[..start]) + s
  {
    n := start;
    while n - start < |s|
      invariant start <= n <= result.Length && n - start <= |s|
      invariant result[..n] == old(result[..start]) + s[..n - start]
    {
      assert s[..n + 1 - start] == s[..n - start] + [s[n - start]];
      ok := Push(result, n, s[n - start]);
      if !ok {
        return;
      }
      n := n + 1;
    }
    assert s[..|s|] == s;
    ok := true;
  }

  /** The switch on one character. */
  method TakeChar(c: char, result: nat, significant: bool, base: nat, signed: bool, max: nat, thSep: char)
      returns (next: Scanned)
    requires base > 0
    ensures next == ScanChar(c, Going(result, significant), base, signed, max, thSep)
  {
    var digit;
    if c == '0' && !significant {
      return Going(result, significant);
    } else if '0' <= c <= '7' {
      digit := (c - '0') as nat;
    } else if c == '8' || c == '9' {
      if base != 10 && base != 16 {
        return Rejected;
      }
      digit := (c - '0') as nat;
    } else if 'a' <= c <= 'f' {
      if base != 16 {
        return Rejected;
      }
      digit := 10 + (c - 'a') as nat;
    } else if 'A' <= c <= 'F' {
      if base != 16 {
        return Rejected;
      }
      digit := 10 + (c - 'A') as nat;
    } else if c == '.' || c == ',' || c == ' ' {
      return if base == 10 && thSep == c then Going(result, significant) else Rejected;
    } else {
      return Rejected;
    }
    var limitCheck := Quotient(max, base);
    if result > limitCheck {
      return Rejected;
    }
    var sum := Times(result, base) + digit;
    if sum <= max {
      next := Going(sum, true);
    } else {
      next := if signed then Overflow else Going(Remainder(sum, max + 1), true);
    }
  }

  /** The loop over the characters behind the sign. */
  method ScanDigits(digits: string, base: nat, signed: bool, max: nat, thSep: char) returns (st: Scanned)
    requires base > 0
    ensures st == Scan(digits, Going(0, false), base, signed, max, thSep)
  {
    hide ScanChar;
    st := Going(0, false);
    var p := 0;
    while p < |digits|
      invariant p <= |digits| && st.Going?
      invariant st == Scan(digits[..p], Going(0, false), base, signed, max, thSep)
    {
      assert digits[..p + 1][..p] == digits[..p];
      st := TakeChar(digits[p], st.result, st.significant, base, signed, max, thSep);
      if !st.Going? {
        StoppedStays(digits, p + 1, base, signed, max, thSep);
        return;
      }
      p := p + 1;
    }
    assert digits[..p] == digits;
  }

  /** None is a null pointer; otherwise the characters in front of the terminating zero. */
  method StrToInt(pStr: Option<string>, base: nat, signed: bool, max: nat, thSep: char) returns (r: Parsed)
    requires base > 0
    ensures r == if pStr == None then Failed else Parse(pStr.value, base, signed, max, thSep)
  {
    hide Scan;
    if pStr.None? {
      return Failed;
    }
    var s, p := pStr.value, 0;
    assert s[0..] == s;
    while p < |s| && IsSpace(s[p])
      invariant p <= |s| && SkipSpaces(s[p..]) == SkipSpaces(s)
    {
      p := p + 1;
    }
    if p == |s| {
      return Failed;
    }
    var t := s[p..];
    var sign: int := 1;
    if base == 10 && t[0] == '-' {
      if !signed {
        return Failed;
      }
      sign := -1;
      t := t[1..];
    } else if t[0] == '+' {
      t := t[1..];
    }
    var st := ScanDigits(t, base, signed, max, thSep);
    match st {
      case Going(result, _) => r := Value(if sign < 0 then -(result as int) else result);
      case Rejected => r := Failed;
      case Overflow => r := Undefined;
    }
  }

  /** Once the loop has stopped, what follows does not matter. */
  lemma {:induction false} StoppedStays(s: string, n: nat, base: nat, signed: bool, max: nat, thSep: char)
    requires base > 0 && n <= |s| && !Scan(s[..n], Going(0, false), base, signed, max, thSep).Going?
    ensures Scan(s, Going(0, false), base, signed, max, thSep) == Scan(s[..n], Going(0, false), base, signed, max, thSep)
  {
    if n == |s| {
      assert s[..n] == s;
    } else {
      var t := s[..|s| - 1];
      assert t[..n] == s[..n];
      StoppedStays(t, n, base, signed, max, thSep);
    }
  }
}
