/** Integers as text: `_itoa`, `_uitoa` and `isNumeric` of NumberToString.h. */
module Numbers {
  import opened Text

  predicate Digit(c: char) {
    '0' <= c <= '9'
  }

  predicate ExponentStart(c: char) {
    Digit(c) || c == '-' || c == '+'
  }

  predicate AllIn(s: string, set_: string) {
    forall i | 0 <= i < |s| :: s[i] in set_
  }

  const HEX := "0123456789ABCDEFabcdef"
  const OCTAL := "01234567"

  /** The digits after the first character, with the decimal point and the
      exponent each seen at most once. */
  predicate NumericTail(s: string, decimal: bool, scientific: bool)
    decreases |s|
  {
    if AtEnd(s) then true
    else if s[0] == '.' then !decimal && !scientific && NumericTail(s[1..], true, scientific)
    else if s[0] == 'e' || s[0] == 'E' then
      !scientific && ExponentStart(At(s, 1)) && NumericTail(s[2..], decimal, true)
    else Digit(s[0]) && NumericTail(s[1..], decimal, scientific)
  }

  predicate Numeric(s: string) {
    if AtEnd(s) then false
    else if s[0] == '.' then NumericTail(s[1..], true, false)
    else if s[0] == '0' then
      var c := At(s, 1);
      if c == '.' then NumericTail(s[2..], true, false)
      else if c == 'e' || c == 'E' then ExponentStart(At(s, 2)) && NumericTail(s[3..], false, true)
      else if c == 'x' then AllIn(s[2..], HEX)
      else if '1' <= c <= '7' then AllIn(s[1..], OCTAL)
      else c == NUL
    else (s[0] == '+' || s[0] == '-' || Digit(s[0])) && NumericTail(s[1..], false, false)
  }

  lemma NumericStart(s: string)
    requires Numeric(s)
    ensures s != "" && (s[0] in "+-." || '0' <= s[0] <= '9')
  {
  }

  /** The scan of `isNumeric`, one character pointer and two flags. */
  method IsNumeric(s: string) returns (ok: bool)
    ensures ok == Numeric(s)
  {
    if AtEnd(s) {
      return false;
    }
    var p, decimal, scientific := 1, false, false;
    match s[0] {
      case '.' => decimal := true;
      case '0' =>
        if At(s, 1) == '.' {
          decimal := true;
          p := 2;
        } else if At(s, 1) == 'e' || At(s, 1) == 'E' {
          if !ExponentStart(At(s, 2)) {
            return false;
          }
          scientific := true;
          p := 3;
        } else if At(s, 1) == 'x' {
          return forall i | 2 <= i < |s| :: s[i] in HEX;
        } else if '1' <= At(s, 1) <= '7' {
          return forall i | 1 <= i < |s| :: s[i] in OCTAL;
        } else {
          return At(s, 1) == NUL;
        }
      case c =>
        if !(c == '+' || c == '-' || Digit(c)) {
          return false;
        }
    }
    while p < |s| && s[p] != NUL
      invariant p <= |s|
      invariant Numeric(s) == NumericTail(s[p..], decimal, scientific)
      decreases |s| - p
    {
      assert s[p..][1..] == s[p + 1..];
      if s[p] == '.' {
        if decimal || scientific {
          return false;
        }
        decimal := true;
      } else if s[p] == 'e' || s[p] == 'E' {
        if scientific || !ExponentStart(At(s, p + 1)) {
          return false;
        }
        assert s[p..][2..] == s[p + 2..];
        scientific := true;
        p := p + 1;
      } else if !Digit(s[p]) {
        return false;
      }
      p := p + 1;
    }
    ok := true;
  }

  /** The characters a number can consist of: none of them is white space, a
      quote, a bracket, a separator or the start of a comment. */
  predicate NumberChar(c: char) {
    Digit(c) || 'A' <= c <= 'F' || 'a' <= c <= 'f' || c in ".+-x"
  }

  predicate NumberChars(s: string) {
    forall i | 0 <= i < |s| :: NumberChar(s[i])
  }

  lemma {:induction false} NumericTailChars(s: string, decimal: bool, scientific: bool)
    requires NulFree(s) && NumericTail(s, decimal, scientific)
    ensures NumberChars(s)
    decreases |s|
  {
    if s != "" {
      var k := if s[0] == 'e' || s[0] == 'E' then 2 else 1;
      NumericTailChars(s[k..], decimal || s[0] == '.', scientific || k == 2);
      forall i | 0 <= i < |s| ensures NumberChar(s[i]) {
        if i >= k { assert s[i] == s[k..][i - k]; }
      }
    }
  }

  lemma {:induction false} NumericChars(s: string)
    requires NulFree(s) && Numeric(s)
    ensures s != "" && NumberChars(s) && (Digit(s[0]) || s[0] in ".+-")
  {
    var c := At(s, 1);
    if s[0] != '0' {
      NumericTailChars(s[1..], s[0] == '.', false);
      assert forall i | 1 <= i < |s| :: s[i] == s[1..][i - 1];
    } else if c == '.' || c == 'e' || c == 'E' {
      var k := if c == '.' then 2 else 3;
      NumericTailChars(s[k..], c == '.', c != '.');
      assert forall i | k <= i < |s| :: s[i] == s[k..][i - k];
    } else if c == 'x' {
      assert forall i | 2 <= i < |s| :: s[i] == s[2..][i - 2];
    } else if c != NUL {
      assert forall i | 1 <= i < |s| :: s[i] == s[1..][i - 1];
    }
  }

  // ---------- integers to text ----------

  function Pow10(k: nat): nat {
    if k == 0 then 1 else 10 * Pow10(k - 1)
  }

  function LastDigit(n: nat): (c: char)
    ensures Digit(c)
  {
    (n % 10 + 48) as char
  }

  function Digits(n: nat): (s: string)
    ensures s != "" && forall i | 0 <= i < |s| :: Digit(s[i])
  {
    (if n < 10 then "" else Digits(n / 10)) + [LastDigit(n)]
  }

  function Decimal(v: int): string {
    if v < 0 then "-" + Digits(-v) else Digits(v)
  }

  lemma {:induction false} DigitsLength(n: nat, k: nat)
    requires n < Pow10(k) && k > 0
    ensures |Digits(n)| <= k
  {
    if n >= 10 {
      DigitsLength(n / 10, k - 1);
    }
  }

  /** The buffer size `getLenSize` gives an integer type of `bytes` bytes. */
  function GetLen(bytes: nat): nat {
    match bytes
    case 1 => 5
    case 2 => 7
    case 4 => 12
    case 8 => 22
    case _ => 41
  }

  /** The least power of two that no signed integer of that width reaches. */
  function Limit(bytes: nat): (n: int)
    ensures n >= 0
  {
    match bytes
    case 1 => 0x80
    case 2 => 0x8000
    case 4 => 0x8000_0000
    case 8 => 0x8000_0000_0000_0000
    case _ => 0
  }

  lemma Widest()
    ensures Limit(8) * 2 < Pow10(20) && Limit(4) * 2 < Pow10(10) && Limit(2) * 2 < Pow10(5) && Limit(1) * 2 < Pow10(3)
    ensures Limit(8) < Pow10(19)
  {
    assert Pow10(3) == 1000;
    assert Pow10(5) == 100 * Pow10(3) by { assert Pow10(5) == 10 * Pow10(4); }
    assert Pow10(8) == 1000 * Pow10(5) by { assert Pow10(8) == 10 * Pow10(7) == 100 * Pow10(6); }
    assert Pow10(10) == 100 * Pow10(8) by { assert Pow10(10) == 10 * Pow10(9); }
    assert Pow10(13) == 1000 * Pow10(10) by { assert Pow10(13) == 10 * Pow10(12) == 100 * Pow10(11); }
    assert Pow10(16) == 1000 * Pow10(13) by { assert Pow10(16) == 10 * Pow10(15) == 100 * Pow10(14); }
    assert Pow10(19) == 1000 * Pow10(16) by { assert Pow10(19) == 10 * Pow10(18) == 100 * Pow10(17); }
    assert Pow10(20) == 10 * Pow10(19);
  }

  /** How many digits the largest magnitude of that width has at most. */
  function MaxDigits(bytes: nat): nat {
    match bytes
    case 1 => 3
    case 2 => 5
    case 4 => 10
    case _ => 20
  }

  predicate Width(bytes: nat) {
    bytes in {1, 2, 4, 8}
  }

  /** The digits of `n` in front of those already written. */
  function Pending(n: nat): string {
    if n == 0 then "" else Digits(n)
  }

  lemma DigitsSplit(n: nat)
    ensures Digits(n) == Pending(n / 10) + [LastDigit(n)]
  {
  }

  lemma PendingStep(n: nat)
    requires n > 0
    ensures Pending(n) == Pending(n / 10) + [LastDigit(n)]
  {
  }

  /** The do-while loop both converters share: fills `buffer` backwards from
      index `runner` with the digits of `n` and returns the index before them. */
  method FillDigits(buffer: array<char>, runner: nat, n: nat) returns (left: int)
    requires |Digits(n)| <= runner + 1 <= buffer.Length
    modifies buffer
    ensures left == runner - |Digits(n)|
    ensures buffer[left + 1..runner + 1] == Digits(n)
  {
    hide *;
    DigitsSplit(n);
    var value := n / 10;
    buffer[runner] := LastDigit(n);
    left := runner - 1;
    assert buffer[left + 1..runner + 1] == [LastDigit(n)];
    while value != 0
      invariant -1 <= left < runner && value >= 0
      invariant Pending(value) + buffer[left + 1..runner + 1] == Digits(n)
    {
      ghost var done := buffer[left + 1..runner + 1];
      PendingStep(value);
      var c := LastDigit(value);
      Regroup(Pending(value / 10), c, done);
      assert |Digits(n)| == |Pending(value / 10)| + 1 + |done|;
      buffer[left] := c;
      assert buffer[left + 1..runner + 1] == done;
      assert buffer[left..runner + 1] == [c] + done;
      left := left - 1;
      value := value / 10;
    }
    NothingPending();
    assert "" + buffer[left + 1..runner + 1] == buffer[left + 1..runner + 1];
  }

  lemma Regroup(a: string, c: char, b: string)
    ensures a + [c] + b == a + ([c] + b)
  {
  }

  lemma NothingPending()
    ensures Pending(0) == ""
  {
  }

  /** The buffer has room for the digits, the sign and the terminator. */
  lemma SignedFits(bytes: nat, value: nat)
    requires Width(bytes) && value <= Limit(bytes) && (bytes == 8 ==> value < Limit(8))
    ensures |Digits(value)| + 2 <= GetLen(bytes)
  {
    Widest();
    DigitsLength(value, if bytes == 8 then 19 else MaxDigits(bytes));
  }

  lemma DecimalText(v: int)
    ensures Decimal(v) == if v < 0 then "-" + Digits(-v) else Digits(v)
  {
  }

  /** `_itoa` for an integer of `bytes` bytes; `long` has eight. The minimum of
      the widest type has no positive counterpart and is not in its domain. */
  method Itoa(bytes: nat, val: int) returns (s: string)
    requires Width(bytes) && -Limit(bytes) <= val < Limit(bytes)
    requires val != -Limit(8)
    ensures s == Decimal(val)
  {
    hide *;
    var negative := val < 0;
    var value := if negative then -val else val;
    SignedFits(bytes, value);
    DecimalText(val);
    var len := GetLen(bytes);
    var buffer := new char[len];
    buffer[len - 1] := NUL;
    var runner := FillDigits(buffer, len - 2, value);
    if negative {
      ghost var digits := buffer[runner + 1..len - 1];
      buffer[runner] := '-';
      assert buffer[runner + 1..len - 1] == digits && buffer[runner..runner + 1] == "-";
      assert buffer[runner..len - 1] == buffer[runner..runner + 1] + buffer[runner + 1..len - 1];
      return buffer[runner..len - 1];
    }
    return buffer[runner + 1..len - 1];
  }

  method Uitoa(bytes: nat, val: nat) returns (s: string)
    requires Width(bytes) && val < 2 * Limit(bytes)
    ensures s == Decimal(val)
  {
    Widest();
    var len := GetLen(bytes);
    var buffer := new char[len];
    buffer[len - 1] := NUL;
    DigitsLength(val, MaxDigits(bytes));
    var runner := FillDigits(buffer, len - 2, val);
    return buffer[runner + 1..len - 1];
  }

  /** The integer a decimal text denotes. */
  function Denotes(s: string): int {
    if s == "" then 0
    else if s[0] == '-' then -Denotes(s[1..])
    else Denotes(s[..|s| - 1]) * 10 + (s[|s| - 1] as int - 48)
  }

  lemma {:induction false} DigitsDenote(n: nat)
    ensures Denotes(Digits(n)) == n
  {
    var s := Digits(n);
    if n < 10 {
      assert s[..0] == "";
    } else {
      assert s[..|s| - 1] == Digits(n / 10);
      DigitsDenote(n / 10);
    }
  }

  lemma {:induction false} DigitsTail(s: string, i: nat)
    requires i <= |s| && forall k | 0 <= k < |s| :: Digit(s[k])
    ensures NumericTail(s[i..], false, false)
    decreases |s| - i
  {
    if i < |s| {
      DigitsTail(s, i + 1);
      assert s[i..][1..] == s[i + 1..];
    }
  }

  lemma {:induction false} LeadingDigit(n: nat)
    requires n > 0
    ensures Digits(n)[0] != '0'
  {
    if n >= 10 { LeadingDigit(n / 10); }
  }

  /** The text of every integer denotes that integer and is accepted as a number. */
  lemma DecimalIsNumeric(v: int)
    ensures Denotes(Decimal(v)) == v && Numeric(Decimal(v)) && NulFree(Decimal(v))
  {
    var n := if v < 0 then -v else v;
    var s := Digits(n);
    if v > 0 {
      LeadingDigit(n);
    }
    hide Digits, NumericTail;
    DigitsDenote(n);
    DigitsTail(s, 0);
    DigitsTail(s, 1);
    assert s[0..] == s;
    if v < 0 {
      assert ("-" + s)[1..] == s;
    } else if v == 0 {
      ZeroDigit();
    }
  }

  lemma ZeroDigit()
    ensures Digits(0) == "0"
  {
  }

  // ---------- the grammar of accepted numbers ----------

  predicate AllDigits(s: string) {
    forall i | 0 <= i < |s| :: '0' <= s[i] <= '9'
  }

  predicate Fraction(s: string) {
    s == "" || (s[0] == '.' && AllDigits(s[1..]))
  }

  predicate Exponent(s: string) {
    s == "" || (|s| >= 2 && (s[0] == 'e' || s[0] == 'E') && (s[1] == '+' || s[1] == '-' || '0' <= s[1] <= '9')
                && AllDigits(s[2..]))
  }

  /** What follows the first character of a decimal number. */
  predicate Parts(s: string, digits: string, fraction: string, exponent: string) {
    s == digits + fraction + exponent && AllDigits(digits) && Fraction(fraction) && Exponent(exponent)
  }

  ghost predicate Decimals(s: string) {
    exists a, b, c :: Parts(s, a, b, c)
  }

  ghost predicate AfterPoint(s: string) {
    exists a, c :: Parts(s, a, "", c)
  }

  lemma {:induction false} PartsOf(s: string, decimal: bool, scientific: bool) returns (a: string, b: string, c: string)
    requires NulFree(s) && NumericTail(s, decimal, scientific)
    ensures Parts(s, a, b, c) && (decimal || scientific ==> b == "") && (scientific ==> c == "")
    decreases |s|
  {
    a, b, c := "", "", "";
    if s != "" {
      if s[0] == '.' {
        a, b, c := PartsOf(s[1..], true, scientific);
        PointInFront(s, a, c);
        a, b := "", ['.'] + a;
      } else if s[0] == 'e' || s[0] == 'E' {
        a, b, c := PartsOf(s[2..], decimal, true);
        ExponentInFront(s, a);
        a, c := "", [s[0], s[1]] + a;
      } else {
        a, b, c := PartsOf(s[1..], decimal, scientific);
        DigitInFront(s, a, b, c);
        a := [s[0]] + a;
      }
    }
  }

  lemma PointInFront(s: string, a: string, c: string)
    requires s != "" && s[0] == '.' && Parts(s[1..], a, "", c)
    ensures Parts(s, "", ['.'] + a, c)
  {
    assert s == [s[0]] + s[1..] && (['.'] + a)[1..] == a;
  }

  lemma ExponentInFront(s: string, a: string)
    requires |s| >= 2 && (s[0] == 'e' || s[0] == 'E') && ExponentStart(s[1]) && Parts(s[2..], a, "", "")
    ensures Parts(s, "", "", [s[0], s[1]] + a)
  {
    assert s == [s[0], s[1]] + s[2..] && ([s[0], s[1]] + a)[2..] == a;
  }

  lemma DigitInFront(s: string, a: string, b: string, c: string)
    requires s != "" && '0' <= s[0] <= '9' && Parts(s[1..], a, b, c)
    ensures Parts(s, [s[0]] + a, b, c)
  {
    assert s == [s[0]] + s[1..];
    assert [s[0]] + a + b + c == [s[0]] + (a + b + c);
  }

  lemma {:induction false} PartsAreAccepted(s: string, decimal: bool, scientific: bool, a: string, b: string, c: string)
    requires NulFree(s) && Parts(s, a, b, c) && (decimal || scientific ==> b == "") && (scientific ==> c == "")
    ensures NumericTail(s, decimal, scientific)
    decreases |s|
  {
    if a != "" {
      assert s[1..] == a[1..] + b + c;
      PartsAreAccepted(s[1..], decimal, scientific, a[1..], b, c);
    } else if b != "" {
      assert s[1..] == b[1..] + "" + c;
      PartsAreAccepted(s[1..], true, scientific, b[1..], "", c);
    } else if c != "" {
      assert s[2..] == c[2..] + "" + "";
      PartsAreAccepted(s[2..], decimal, true, c[2..], "", "");
    }
  }

  lemma DecimalsIff(s: string)
    requires NulFree(s)
    ensures NumericTail(s, false, false) <==> Decimals(s)
    ensures NumericTail(s, true, false) <==> AfterPoint(s)
  {
    if NumericTail(s, false, false) { var a, b, c := PartsOf(s, false, false); }
    if NumericTail(s, true, false) { var a, b, c := PartsOf(s, true, false); }
    if a, b, c :| Parts(s, a, b, c) { PartsAreAccepted(s, false, false, a, b, c); }
    if a, c :| Parts(s, a, "", c) { PartsAreAccepted(s, true, false, a, "", c); }
  }

  lemma ExponentIff(s: string)
    requires NulFree(s) && s != "" && (s[0] == 'e' || s[0] == 'E')
    ensures ExponentStart(At(s, 1)) && NumericTail(s[if |s| > 2 then 2 else |s|..], false, true) <==> Exponent(s)
  {
    if |s| >= 2 {
      var rest := s[2..];
      if NumericTail(rest, false, true) {
        var a, b, c := PartsOf(rest, false, true);
        assert rest == a + "" + "" == a;
      }
      if AllDigits(rest) {
        assert rest == rest + "" + "";
        PartsAreAccepted(rest, false, true, rest, "", "");
      }
    }
  }

  ghost predicate AfterZero(rest: string) {
    || rest == ""
    || (rest[0] == '.' && AfterPoint(rest[1..]))
    || ((rest[0] == 'e' || rest[0] == 'E') && Exponent(rest))
    || (rest[0] == 'x' && forall i | 1 <= i < |rest| :: rest[i] in "0123456789ABCDEFabcdef")
    || ('1' <= rest[0] <= '7' && forall i | 1 <= i < |rest| :: rest[i] in "01234567")
  }

  lemma AfterZeroIff(s: string)
    requires NulFree(s) && s != "" && s[0] == '0'
    ensures Numeric(s) <==> AfterZero(s[1..])
  {
    hide NumericTail, AfterPoint, Exponent;
    var rest := s[1..];
    if rest != "" {
      assert At(s, 1) == rest[0] && s[2..] == rest[1..];
      if rest[0] == '.' {
        DecimalsIff(rest[1..]);
      } else if rest[0] == 'e' || rest[0] == 'E' {
        ExponentIff(rest);
        if |rest| > 1 { assert s[3..] == rest[2..]; }
      } else if rest[0] == 'x' {
        assert forall i | 0 <= i < |s[2..]| :: s[2..][i] == rest[i + 1];
        assert forall i | 1 <= i < |rest| :: rest[i] == s[2..][i - 1];
      }
    }
  }

  /** The accepted numbers: a sign or a digit other than zero, further digits, a fraction
      and an exponent, each of them possibly empty; the same behind a point or a zero; and
      hexadecimal and octal numbers. */
  lemma NumericIff(s: string)
    requires NulFree(s)
    ensures Numeric(s) <==>
            s != "" &&
            match s[0]
            case '.' => AfterPoint(s[1..])
            case '0' => AfterZero(s[1..])
            case c => (c == '+' || c == '-' || '1' <= c <= '9') && Decimals(s[1..])
  {
    hide NumericTail, Decimals, AfterPoint, AfterZero;
    if s != "" {
      DecimalsIff(s[1..]);
      if s[0] == '0' { AfterZeroIff(s); }
    }
  }
}
