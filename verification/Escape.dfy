/** String escapes: `UnfixString` writes them, `FixString` reads them
    (JSONWorker.cpp; string escapes of section 7 of RFC 8259). */
module Escape {
  import opened Text

  // ---------- writing ----------

  function HexDigit(d: int): (c: char)
    requires 0 <= d < 16
  {
    var n := d + 48;
    (if n > 57 then n + 7 else n) as char
  }

  function ToUTF8(c: char): string {
    var p := c as int % 256;
    "\\u00" + [HexDigit(p / 16), HexDigit(p % 16)]
  }

  /** One character as `UnfixString` writes it, with `quote` in place of the
      escaped quote character (the normaliser later replaces it by `MARK`). */
  function EscapeChar(c: char, quote: char): string {
    if c == '\"' then ['\\', quote]
    else if c == '\\' then "\\\\"
    else if c == '\t' then "\\t"
    else if c == '\n' then "\\n"
    else if c == '\r' then "\\r"
    else if c == '/' then "\\/"
    else if c == '\U{8}' then "\\b"
    else if c == '\U{C}' then "\\f"
    else if c as int % 256 < 32 || c as int % 256 > 126 then ToUTF8(c)
    else [c]
  }

  function Escaped(s: string, quote: char): string {
    if AtEnd(s) then "" else EscapeChar(s[0], quote) + Escaped(s[1..], quote)
  }

  function Unfix(value: string, flag: bool): string {
    if flag then Escaped(value, '\"') else value
  }

  lemma EscapedFrom(s: string, p: nat, quote: char)
    requires p <= |s|
    ensures Escaped(s[p..], quote)
            == if p == |s| || s[p] == NUL then "" else EscapeChar(s[p], quote) + Escaped(s[p + 1..], quote)
  {
    assert p < |s| ==> s[p..][1..] == s[p + 1..];
  }

  lemma Regroup(a: string, b: string, c: string)
    ensures a + (b + c) == a + b + c
  {
  }

  method UnfixString(value: string, flag: bool) returns (res: string)
    ensures res == Unfix(value, flag)
  {
    if !flag {
      return value;
    }
    hide EscapeChar, Escaped;
    res := "";
    var p := 0;
    assert value[p..] == value;
    while p < |value| && value[p] != NUL
      invariant 0 <= p <= |value|
      invariant res + Escaped(value[p..], '\"') == Escaped(value, '\"')
    {
      EscapedFrom(value, p, '\"');
      var c := EscapeChar(value[p], '\"');
      Regroup(res, c, Escaped(value[p + 1..], '\"'));
      res := res + c;
      p := p + 1;
    }
    EscapedFrom(value, p, '\"');
  }

  // ---------- reading ----------

  /** A hexadecimal digit after `Hex` has pulled letters down; byte arithmetic. */
  function Nibble(c: char): (n: int)
    ensures 0 <= n < 256
  {
    var n := (c as int - 48) % 256;
    if n > 48 then n - 39 else if n > 9 then (n - 7) % 256 else n
  }

  /** Bitwise or. */
  function Or(a: nat, b: nat): nat {
    if a == 0 then b
    else if b == 0 then a
    else 2 * Or(a / 2, b / 2) + (if a % 2 == 1 || b % 2 == 1 then 1 else 0)
  }

  function Hex(a: char, b: char): char {
    var hi, lo := Nibble(a) * 16 % 256, Nibble(b);
    (if lo < 16 then hi + lo else Or(hi, lo) % 256) as char
  }

  function FromOctal(a: char, b: char, c: char): char {
    var x, y, z := (a as int - 48) % 256, (b as int - 48) % 256, (c as int - 48) % 256;
    (Or(Or(x * 64, y * 8), z) % 256) as char
  }

  /** The escape whose text after the backslash is `s`: the character it stands
      for and how many characters it uses. */
  function SpecialChar(s: string): (r: Outcome<(char, nat)>)
    ensures r.Done? ==> r.value.1 >= 1
  {
    var c := At(s, 0);
    if c == MARK then Done(('\"', 1))
    else if c == 't' then Done(('\t', 1))
    else if c == 'n' then Done(('\n', 1))
    else if c == 'r' then Done(('\r', 1))
    else if c == '\\' then Done(('\\', 1))
    else if c == '/' then Done(('/', 1))
    else if c == 'b' then Done(('\U{8}', 1))
    else if c == 'f' then Done(('\U{C}', 1))
    else if c == 'v' then Done(('\U{B}', 1))
    else if c == 'u' then
      if |s| < 4 then Overrun else Done((Hex(At(s, 3), At(s, 4)), 5))
    else if c == 'x' then
      if |s| < 2 then Overrun else Done((Hex(At(s, 1), At(s, 2)), 3))
    else if '0' <= c <= '7' then
      if |s| < 2 then Overrun else Done((FromOctal(At(s, 0), At(s, 1), At(s, 2)), 3))
    else Done((c, 1))
  }

  /** The next character `FixString` appends and how many characters it reads
      for it. */
  function NextChar(s: string): (r: Outcome<(char, nat)>)
    requires !AtEnd(s)
    ensures r.Done? ==> 1 <= r.value.1 <= |s|
  {
    if s[0] != '\\' then Done((s[0], 1))
    else
      match SpecialChar(s[1..])
      case Overrun => Overrun
      case Done((c, used)) => if used > |s| - 1 then Overrun else Done((c, 1 + used))
  }

  function Unescaped(s: string): Outcome<string>
    decreases |s|
  {
    if AtEnd(s) then Done("")
    else
      match NextChar(s)
      case Overrun => Overrun
      case Done((c, used)) => Prepend([c], Unescaped(s[used..]))
  }

  /** The flag `FixString` sets: it met a backslash. */
  predicate Encoded(s: string) {
    '\\' in CStr(s)
  }

  /** One turn of the loop of `FixString`. */
  lemma UnescapeStep(text: string, value: string, p: nat, next: Outcome<(char, nat)>)
    requires p < |value| && value[p] != NUL && next == NextChar(value[p..])
    ensures Prepend(text, Unescaped(value[p..]))
         == if next.Overrun? then Overrun
            else Prepend(text + [next.value.0], Unescaped(value[p + next.value.1..]))
    ensures value[p] == '\\' ==> Encoded(value[p..])
    ensures value[p] != '\\' ==>
              next.Done? && next.value.1 == 1 && Encoded(value[p..]) == Encoded(value[p + 1..])
  {
    assert value[p..][1..] == value[p + 1..];
    if next.Done? {
      var (c, used) := next.value;
      assert value[p..][used..] == value[p + used..];
      PrependTwice(text, [c], Unescaped(value[p + used..]));
    }
  }

  lemma UnescapeEnd(text: string, s: string)
    requires AtEnd(s)
    ensures Prepend(text, Unescaped(s)) == Done(text) && !Encoded(s)
  {
    assert text + "" == text;
  }

  /** The text `FixString` stores, or `Overrun`, and the flag it sets. */
  method FixString(value: string) returns (res: Outcome<string>, flag: bool)
    ensures res == Unescaped(value)
    ensures res.Done? ==> flag == Encoded(value)
  {
    hide NextChar, Unescaped, Encoded;
    flag := false;
    var text := "";
    var p := 0;
    PrependNothing(Unescaped(value));
    assert value[0..] == value;
    while p < |value| && value[p] != NUL
      invariant 0 <= p <= |value|
      invariant Prepend(text, Unescaped(value[p..])) == Unescaped(value)
      invariant flag ==> Encoded(value)
      invariant !flag ==> (Encoded(value) <==> Encoded(value[p..]))
      decreases |value| - p
    {
      var next := NextChar(value[p..]);
      UnescapeStep(text, value, p, next);
      if value[p] == '\\' {
        flag := true;
      }
      if next.Overrun? {
        return Overrun, flag;
      }
      text := text + [next.value.0];
      p := p + next.value.1;
    }
    UnescapeEnd(text, value[p..]);
    res := Done(text);
  }

  // ---------- the codec round trip ----------

  predicate QuoteForm(quote: char) {
    quote == '\"' || quote == MARK
  }

  lemma NibbleRoundTrip(d: int)
    requires 0 <= d < 16
    ensures Nibble(HexDigit(d)) == d
  {
  }

  lemma HexRoundTrip(c: char)
    requires c as int < 256
    ensures Hex(HexDigit(c as int / 16), HexDigit(c as int % 16)) == c
  {
    NibbleRoundTrip(c as int / 16);
    NibbleRoundTrip(c as int % 16);
    assert c as int / 16 * 16 % 256 + c as int % 16 == c as int;
  }

  /** One escape sequence, wherever it stands. */
  lemma OneEscape(s: string, c: char, used: nat)
    requires s != "" && s[0] == '\\' && used < |s|
    requires SpecialChar(s[1..]) == Done((c, used))
    ensures Unescaped(s) == Prepend([c], Unescaped(s[1 + used..]))
  {
  }

  lemma SpecialCharU(s: string)
    requires |s| >= 5 && s[0] == 'u'
    ensures SpecialChar(s) == Done((Hex(s[3], s[4]), 5))
  {
  }

  lemma UTF8Shape(c: char)
    requires c as int < 256
    ensures var e := ToUTF8(c);
            && |e| == 6 && e[0] == '\\' && e[1] == 'u'
            && e[4] == HexDigit(c as int / 16) && e[5] == HexDigit(c as int % 16)
  {
    hide HexDigit;
    assert c as int % 256 == c as int;
  }

  lemma UTF8RoundTrip(c: char, rest: string)
    requires c as int < 256
    ensures SpecialChar((ToUTF8(c) + rest)[1..]) == Done((c, 5))
  {
    hide *;
    UTF8Shape(c);
    var s := (ToUTF8(c) + rest)[1..];
    SpecialCharU(s);
    HexRoundTrip(c);
  }

  lemma EscapeCharRoundTrip(c: char, quote: char, rest: string)
    requires c != NUL && c as int < 256 && QuoteForm(quote)
    ensures Unescaped(EscapeChar(c, quote) + rest) == Prepend([c], Unescaped(rest))
  {
    var e := EscapeChar(c, quote);
    var s := e + rest;
    if e[0] == '\\' {
      assert s[|e|..] == rest;
      if e == ToUTF8(c) {
        UTF8RoundTrip(c, rest);
        OneEscape(s, c, 5);
      } else {
        assert s[1..][0] == e[1];
        OneEscape(s, c, 1);
      }
    } else {
      assert s[1..] == rest;
    }
  }

  /** Reading back what was written gives the string up to its first NUL, whether
      the escaped quotes are still `\"` or have been normalised. */
  lemma {:induction false} EscapeRoundTrip(s: string, quote: char)
    requires Bytes(s) && QuoteForm(quote)
    ensures Unescaped(Escaped(s, quote)) == Done(CStr(s))
  {
    if !AtEnd(s) {
      EscapeCharRoundTrip(s[0], quote, Escaped(s[1..], quote));
      EscapeRoundTrip(s[1..], quote);
    }
  }

  /** The value of a hexadecimal digit of either case. */
  function HexValue(c: char): int {
    if '0' <= c <= '9' then c as int - 48 else if 'a' <= c <= 'f' then c as int - 87 else c as int - 55
  }

  predicate IsHex(c: char) {
    '0' <= c <= '9' || 'a' <= c <= 'f' || 'A' <= c <= 'F'
  }

  lemma HexReads(a: char, b: char)
    requires IsHex(a) && IsHex(b)
    ensures 0 <= HexValue(a) < 16 && 0 <= HexValue(b) < 16 && Hex(a, b) as int == 16 * HexValue(a) + HexValue(b)
  {
    assert Nibble(a) == HexValue(a) && Nibble(b) == HexValue(b);
  }

  /** `\uXXXX` stands for its last two digits, and `\xXX` for both of its own. */
  lemma HexEscapes(w: char, x: char, a: char, b: char, rest: string)
    requires IsHex(a) && IsHex(b)
    ensures HexValue(a) < 16 && HexValue(b) < 16
    ensures var c := (16 * HexValue(a) + HexValue(b)) as char;
            && Unescaped(['\\', 'u', w, x, a, b] + rest) == Prepend([c], Unescaped(rest))
            && Unescaped(['\\', 'x', a, b] + rest) == Prepend([c], Unescaped(rest))
  {
    HexReads(a, b);
    hide Hex, HexValue;
    var s, t := ['\\', 'u', w, x, a, b] + rest, ['\\', 'x', a, b] + rest;
    assert s[1..] == ['u', w, x, a, b] + rest && t[1..] == ['x', a, b] + rest;
    assert s[6..] == rest && t[4..] == rest;
  }

  /** `q` with `k` zero bits behind it. */
  function Shifted(q: nat, k: nat): nat {
    if k == 0 then q else 2 * Shifted(q, k - 1)
  }

  lemma {:induction false} OrAdds(q: nat, b: nat, k: nat)
    requires b < Shifted(1, k)
    ensures Or(Shifted(q, k), b) == Shifted(q, k) + b
  {
    if k > 0 {
      OrAdds(q, b / 2, k - 1);
    }
  }

  lemma ShiftedBy3(q: nat)
    ensures Shifted(q, 3) == 8 * q
  {
    assert Shifted(q, 1) == 2 * Shifted(q, 0);
    assert Shifted(q, 2) == 2 * Shifted(q, 1);
  }

  lemma ShiftedBy6(q: nat)
    ensures Shifted(q, 6) == 64 * q
  {
    ShiftedBy3(q);
    assert Shifted(q, 4) == 2 * Shifted(q, 3);
    assert Shifted(q, 5) == 2 * Shifted(q, 4);
  }

  lemma OctalReads(x: char, y: char, z: char)
    requires '0' <= x <= '7' && '0' <= y <= '7' && '0' <= z <= '7'
    ensures FromOctal(x, y, z) as int == (64 * (x as int - 48) + 8 * (y as int - 48) + (z as int - 48)) % 256
  {
    hide Or;
    var i, j, k := x as int - 48, y as int - 48, z as int - 48;
    assert i % 256 == i && j % 256 == j && k % 256 == k;
    OrOctal(i, j, k);
  }

  lemma OrOctal(i: nat, j: nat, k: nat)
    requires i < 8 && j < 8 && k < 8
    ensures Or(Or(i * 64, j * 8), k) == 64 * i + 8 * j + k
  {
    hide Or;
    OrBelow64(i, j * 8);
    OrBelow8(8 * i + j, k);
  }

  lemma OrBelow8(q: nat, b: nat)
    requires b < 8
    ensures Or(8 * q, b) == 8 * q + b
  {
    hide Or;
    ShiftedBy3(q);
    ShiftedBy3(1);
    OrAdds(q, b, 3);
  }

  lemma OrBelow64(q: nat, b: nat)
    requires b < 64
    ensures Or(q * 64, b) == q * 64 + b
  {
    hide Or;
    ShiftedBy6(q);
    ShiftedBy6(1);
    OrAdds(q, b, 6);
  }

  /** Three octal digits stand for the lowest byte of their value. */
  lemma OctalEscape(x: char, y: char, z: char, rest: string)
    requires '0' <= x <= '7' && '0' <= y <= '7' && '0' <= z <= '7'
    ensures var n := (64 * (x as int - 48) + 8 * (y as int - 48) + (z as int - 48)) % 256;
            Unescaped(['\\', x, y, z] + rest) == Prepend([n as char], Unescaped(rest))
  {
    hide FromOctal;
    OctalReads(x, y, z);
    var s := ['\\', x, y, z] + rest;
    assert s[1..] == [x, y, z] + rest && s[4..] == rest;
  }

  /** Every other escape is one character long, and stands for itself if it has no
      meaning of its own. */
  lemma ShortEscape(c: char, rest: string)
    requires c != NUL && c != 'u' && c != 'x' && !('0' <= c <= '7')
    ensures var m := match c
                     case '\U{1}' => '\"'
                     case 't' => '\t'
                     case 'n' => '\n'
                     case 'r' => '\r'
                     case 'b' => '\U{8}'
                     case 'f' => '\U{C}'
                     case 'v' => '\U{B}'
                     case _ => c;
            Unescaped(['\\', c] + rest) == Prepend([m], Unescaped(rest))
  {
    var s := ['\\', c] + rest;
    assert s[1..] == [c] + rest && s[2..] == rest;
  }

  /** Hence the codec is lossless exactly on the strings that hold no NUL. */
  lemma LosslessIffNulFree(s: string)
    requires Bytes(s)
    ensures Unescaped(Unfix(s, true)) == Done(s) <==> NulFree(s)
  {
    EscapeRoundTrip(s, '\"');
  }

  /** Escaped text is printable ASCII without an unescaped quote: every quote in
      it directly follows a backslash that starts an escape. */
  predicate Printable(e: string) {
    if e == "" then true
    else if e[0] == '\\' then |e| >= 2 && 32 <= e[1] as int <= 126 && Printable(e[2..])
    else 32 <= e[0] as int <= 126 && e[0] != '\"' && Printable(e[1..])
  }

  lemma PrintableConcat(a: string, b: string)
    requires Printable(a) && Printable(b)
    ensures Printable(a + b)
    decreases |a|
  {
    if a == "" {
      assert a + b == b;
    } else if a[0] == '\\' {
      assert (a + b)[2..] == a[2..] + b;
      PrintableConcat(a[2..], b);
    } else {
      assert (a + b)[1..] == a[1..] + b;
      PrintableConcat(a[1..], b);
    }
  }

  lemma {:induction false} EscapedIsPrintable(s: string)
    requires Bytes(s)
    ensures Printable(Escaped(s, '\"'))
  {
    if !AtEnd(s) {
      var e := EscapeChar(s[0], '\"');
      if |e| == 6 {
        assert e[2..] == "00" + e[4..] && Printable("00" + e[4..]) by {
          assert Printable(e[5..]);
          assert e[4..][1..] == e[5..] && Printable(e[4..]);
          assert ("0" + e[4..])[1..] == e[4..] && Printable("0" + e[4..]);
          assert ("00" + e[4..])[1..] == "0" + e[4..];
        }
      }
      assert Printable(e);
      EscapedIsPrintable(s[1..]);
      PrintableConcat(e, Escaped(s[1..], '\"'));
    }
  }

  /** A text without backslashes is its own reading. */
  lemma {:induction false} PlainIsItself(s: string)
    requires '\\' !in s && NulFree(s)
    ensures Unescaped(s) == Done(s)
  {
    if s != "" {
      PlainIsItself(s[1..]);
      assert [s[0]] + s[1..] == s;
    }
  }

  /** The flag set while reading makes writing lossless: a text that decodes to
      NUL-free bytes is rewritten to a text that decodes to the same bytes. */
  lemma FlagIsLossless(raw: string, s: string, flag: bool)
    requires NulFree(raw) && Unescaped(raw) == Done(s)
    requires flag == Encoded(raw)
    requires Bytes(s) && NulFree(s)
    ensures Unescaped(Unfix(s, flag)) == Done(s)
  {
    if flag {
      EscapeRoundTrip(s, '\"');
    } else {
      PlainIsItself(raw);
    }
  }
}
