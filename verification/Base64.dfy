/** Base64 as in JSON_Base64.cpp (section 4 of RFC 4648). */
module Base64 {
  import opened Text

  type Byte = x: int | 0 <= x < 256

  const UPPER: string := "ABCDEFGHIJKLM" + "NOPQRSTUVWXYZ"
  const LOWER: string := "abcdefghijklm" + "nopqrstuvwxyz"
  const CHARS: string := UPPER + LOWER + "0123456789" + "+/"

  /** The 80 entries of the inverse table, for the characters from '+' to 'z'. */
  const INVERSE: seq<int> :=
    [62, 48, 49, 50, 63] + [52, 53, 54, 55, 56, 57, 58, 59, 60, 61] + [249, 250, 251, 252, 253, 254, 255]
    + [0, 1, 2, 3, 4, 5, 6, 7, 8, 9, 10, 11, 12] + [13, 14, 15, 16, 17, 18, 19, 20, 21, 22, 23, 24, 25]
    + [20, 21, 22, 23, 24, 25]
    + [26, 27, 28, 29, 30, 31, 32, 33, 34, 35, 36, 37, 38] + [39, 40, 41, 42, 43, 44, 45, 46, 47, 48, 49, 50, 51]

  function LetterCode(i: nat): int {
    if i < 26 then 65 + i else if i < 52 then 71 + i else if i < 62 then i - 4 else if i == 62 then 43 else 47
  }

  function InverseCode(k: nat): int {
    if k == 0 then 62 else if k < 4 then 47 + k else if k == 4 then 63 else if k < 15 then 47 + k
    else if k < 22 then 234 + k else if k < 48 then k - 22 else k - 28
  }

  lemma UpperLetters(i: nat)
    requires i < 26
    ensures |UPPER| == 26 && UPPER[i] as int == 65 + i
  {
  }

  lemma LowerLetters(i: nat)
    requires i < 26
    ensures |LOWER| == 26 && LOWER[i] as int == 97 + i
  {
  }

  lemma Letters(i: nat)
    requires i < 64
    ensures |CHARS| == 64 && CHARS[i] as int == LetterCode(i)
  {
    UpperLetters(if i < 26 then i else 0);
    LowerLetters(if 26 <= i < 52 then i - 26 else 0);
  }

  lemma Inverses(k: nat)
    requires k < 80
    ensures |INVERSE| == 80 && INVERSE[k] == InverseCode(k)
  {
  }

  /** `toBinary`; outside the table the code of the character '0' comes back. */
  function ToBinary(c: char): Byte {
    if c as int < 43 || c as int > 122 then 48
    else
      Inverses(c as int - 43);
      INVERSE[c as int - 43]
  }

  function Letter(i: nat): char
    requires i < 64
  {
    Letters(i);
    CHARS[i]
  }

  predicate InAlphabet(c: char) {
    'A' <= c <= 'Z' || 'a' <= c <= 'z' || '0' <= c <= '9' || c == '+' || c == '/'
  }

  /** The inverse table inverts the alphabet. */
  lemma TableIsInverse(i: nat)
    requires i < 64
    ensures ToBinary(Letter(i)) == i && InAlphabet(Letter(i))
  {
    Letters(i);
    Inverses(LetterCode(i) - 43);
  }

  lemma AlphabetIsInverted(c: char)
    requires InAlphabet(c)
    ensures ToBinary(c) < 64 && Letter(ToBinary(c)) == c
  {
    Inverses(c as int - 43);
    Letters(InverseCode(c as int - 43));
  }

  // ---------- encoding ----------

  type Sextet = x: int | 0 <= x < 64

  /** The four six-bit groups of three bytes. */
  function S0(a: Byte): Sextet { a / 4 }

  function S1(a: Byte, b: Byte): Sextet { a % 4 * 16 + b / 16 }

  function S2(b: Byte, c: Byte): Sextet { b % 16 * 4 + c / 64 }

  function S3(c: Byte): Sextet { c % 64 }

  function Quad(a: Byte, b: Byte, c: Byte): (s: string)
    ensures |s| == 4
  {
    [Letter(S0(a)), Letter(S1(a, b)), Letter(S2(b, c)), Letter(S3(c))]
  }

  /** `json_encode64`. */
  function Encode(b: seq<Byte>): string {
    if |b| >= 3 then Quad(b[0], b[1], b[2]) + Encode(b[3..])
    else if |b| == 2 then Quad(b[0], b[1], 0)[..3] + "="
    else if |b| == 1 then Quad(b[0], 0, 0)[..2] + "=="
    else ""
  }

  // ---------- decoding ----------

  function First(w: Byte, x: Byte): Byte {
    (w as int * 4 + x / 16 % 4) % 256
  }

  function Second(x: Byte, y: Byte): Byte {
    (x as int % 16 * 16 + y / 4 % 16) % 256
  }

  function Third(y: Byte, z: Byte): Byte {
    (y as int % 4 * 64 + z) % 256
  }

  /** Four characters that are not padded. */
  function FullQuad(t: string): (b: seq<Byte>)
    requires |t| >= 4
    ensures |b| == 3
  {
    var w, x, y, z := ToBinary(t[0]), ToBinary(t[1]), ToBinary(t[2]), ToBinary(t[3]);
    [First(w, x), Second(x, y), Third(y, z)]
  }

  /** The last four characters, which may end in padding. */
  function LastQuad(t: string): seq<Byte>
    requires |t| >= 4
  {
    if t[2] == '=' then FullQuad(t)[..1] else if t[3] == '=' then FullQuad(t)[..2] else FullQuad(t)
  }

  /** The groups of four; characters left over at the end are ignored. */
  function Quads(t: string): seq<Byte> {
    if |t| < 4 then [] else if |t| < 8 then LastQuad(t) else FullQuad(t) + Quads(t[4..])
  }

  function FirstForeign(t: string): (r: nat)
    ensures r <= |t| && (r < |t| ==> !InAlphabet(t[r])) && forall i | 0 <= i < r :: InAlphabet(t[i])
  {
    if t == "" || !InAlphabet(t[0]) then 0 else 1 + FirstForeign(t[1..])
  }

  /** The check in front of decoding: the first foreign character must begin one or
      two padding characters that end the text. */
  predicate Accepts(t: string) {
    var pos := FirstForeign(t);
    pos < |t| ==> t[pos] == '=' && (pos == |t| - 1 || (pos == |t| - 2 && t[pos + 1] == '='))
  }

  /** `json_decode64`. */
  function Decode(t: string): seq<Byte> {
    if Accepts(t) then Quads(t) else []
  }

  // ---------- there and back ----------

  lemma Split4(n: int, q: int, r: int)
    requires 0 <= r < 4 && n == q * 4 + r
    ensures n / 4 == q && n % 4 == r
  {
  }

  lemma Split16(n: int, q: int, r: int)
    requires 0 <= r < 16 && n == q * 16 + r
    ensures n / 16 == q && n % 16 == r
  {
  }

  lemma Split64(n: int, q: int, r: int)
    requires 0 <= r < 64 && n == q * 64 + r
    ensures n / 64 == q && n % 64 == r
  {
  }

  lemma FirstBack(a: Byte, b: Byte)
    ensures First(S0(a), S1(a, b)) == a
  {
    Split16(S1(a, b), a % 4, b / 16);
  }

  lemma SecondBack(a: Byte, b: Byte, c: Byte)
    ensures Second(S1(a, b), S2(b, c)) == b
  {
    Split16(S1(a, b), a % 4, b / 16);
    Split4(S2(b, c), b % 16, c / 64);
    hide S1, S2;
    SecondJoins(S1(a, b), S2(b, c), b);
  }

  lemma SecondJoins(x: Sextet, y: Sextet, b: Byte)
    requires x % 16 == b / 16 && y / 4 == b % 16
    ensures Second(x, y) == b
  {
    Split16(b, b / 16, b % 16);
  }

  lemma ThirdBack(b: Byte, c: Byte)
    ensures Third(S2(b, c), S3(c)) == c
  {
    Split4(S2(b, c), b % 16, c / 64);
  }

  /** The four letters of a group and what they stand for. */
  lemma QuadLetters(a: Byte, b: Byte, c: Byte)
    ensures var q := Quad(a, b, c);
            && InAlphabet(q[0]) && InAlphabet(q[1]) && InAlphabet(q[2]) && InAlphabet(q[3])
            && ToBinary(q[0]) == S0(a) && ToBinary(q[1]) == S1(a, b)
            && ToBinary(q[2]) == S2(b, c) && ToBinary(q[3]) == S3(c)
  {
    hide ToBinary, Letter, InAlphabet, S0, S1, S2, S3;
    TableIsInverse(S0(a));
    TableIsInverse(S1(a, b));
    TableIsInverse(S2(b, c));
    TableIsInverse(S3(c));
  }

  lemma QuadDecodes(a: Byte, b: Byte, c: Byte, rest: string)
    ensures FullQuad(Quad(a, b, c) + rest) == [a, b, c]
    ensures forall i | 0 <= i < 4 :: InAlphabet(Quad(a, b, c)[i])
  {
    hide ToBinary, Quad, InAlphabet, First, Second, Third, S0, S1, S2, S3;
    QuadLetters(a, b, c);
    FirstBack(a, b);
    SecondBack(a, b, c);
    ThirdBack(b, c);
  }

  lemma NotPadding(c: char)
    requires InAlphabet(c)
    ensures c != '='
  {
  }

  lemma {:induction false} QuadsOfEncode(b: seq<Byte>)
    ensures Quads(Encode(b)) == b
  {
    hide Quad, FullQuad, InAlphabet;
    if |b| >= 3 {
      QuadsOfEncode(b[3..]);
      var q := Quad(b[0], b[1], b[2]);
      QuadDecodes(b[0], b[1], b[2], Encode(b[3..]));
      NotPadding(q[2]);
      NotPadding(q[3]);
      assert (q + Encode(b[3..]))[4..] == Encode(b[3..]);
      assert b == [b[0], b[1], b[2]] + b[3..];
    } else if |b| == 2 {
      PaddedOnce(b[0], b[1]);
    } else if |b| == 1 {
      PaddedTwice(b[0]);
    }
  }

  lemma PaddedOnce(a: Byte, b: Byte)
    ensures LastQuad(Quad(a, b, 0)[..3] + "=") == [a, b]
  {
    var q := Quad(a, b, 0);
    QuadDecodes(a, b, 0, "");
    assert q + "" == q;
    var t := q[..3] + "=";
    NotPadding(q[2]);
    hide Quad, ToBinary;
    assert t[0] == q[0] && t[1] == q[1] && t[2] == q[2];
    assert FullQuad(t)[..2] == FullQuad(q)[..2];
  }

  lemma PaddedTwice(a: Byte)
    ensures LastQuad(Quad(a, 0, 0)[..2] + "==") == [a]
  {
    var q := Quad(a, 0, 0);
    QuadDecodes(a, 0, 0, "");
    assert q + "" == q;
    var t := q[..2] + "==";
    hide Quad, ToBinary;
    assert t[0] == q[0] && t[1] == q[1] && t[2] == '=';
    assert FullQuad(t)[..1] == FullQuad(q)[..1];
  }

  lemma {:induction false} ForeignAfter(s: string, t: string)
    requires forall i | 0 <= i < |s| :: InAlphabet(s[i])
    ensures FirstForeign(s + t) == |s| + FirstForeign(t)
  {
    if s == "" {
      assert s + t == t;
    } else {
      assert (s + t)[1..] == s[1..] + t;
      ForeignAfter(s[1..], t);
    }
  }

  /** Every encoding passes the decoder's check. */
  lemma {:induction false} EncodingIsAccepted(b: seq<Byte>)
    ensures Accepts(Encode(b))
  {
    hide Quad, InAlphabet;
    if |b| >= 3 {
      EncodingIsAccepted(b[3..]);
      QuadDecodes(b[0], b[1], b[2], "");
      ForeignAfter(Quad(b[0], b[1], b[2]), Encode(b[3..]));
    } else if |b| == 2 {
      QuadDecodes(b[0], b[1], 0, "");
      ForeignAfter(Quad(b[0], b[1], 0)[..3], "=");
    } else if |b| == 1 {
      QuadDecodes(b[0], 0, 0, "");
      ForeignAfter(Quad(b[0], 0, 0)[..2], "==");
    }
  }

  /** Decoding an encoding gives the bytes back. */
  lemma DecodeEncode(b: seq<Byte>)
    ensures Decode(Encode(b)) == b
  {
    EncodingIsAccepted(b);
    QuadsOfEncode(b);
  }

  /** What is not a text over the alphabet, followed by at most two padding characters,
      decodes to nothing, and neither does less than a group. */
  lemma DecodesToNothingIff(t: string)
    ensures Decode(t) == [] <==>
            |t| < 4 || !forall i | 0 <= i < |t| ::
                          InAlphabet(t[i]) || (t[i] == '=' && (i == |t| - 1 || (i == |t| - 2 && t[|t| - 1] == '=')))
  {
    QuadsAreSome(t);
    var pos := FirstForeign(t);
    if pos < |t| && Accepts(t) {
      assert forall i | 0 <= i < pos :: InAlphabet(t[i]);
    }
    hide Quads, FirstForeign;
  }

  lemma QuadsAreSome(t: string)
    ensures Quads(t) == [] <==> |t| < 4
  {
  }

  /** Full groups of alphabet characters, with padding only at the end and no stray
      bits in front of it. */
  predicate Canonical(t: string) {
    if t == "" then true
    else if |t| < 4 then false
    else
      && InAlphabet(t[0]) && InAlphabet(t[1])
      && ((InAlphabet(t[2]) && InAlphabet(t[3]) && Canonical(t[4..]))
          || (|t| == 4 && t[3] == '='
              && if t[2] == '=' then ToBinary(t[1]) % 16 == 0 else InAlphabet(t[2]) && ToBinary(t[2]) % 4 == 0))
  }

  lemma {:induction false} EncodingIsCanonical(b: seq<Byte>)
    ensures Canonical(Encode(b))
  {
    hide InAlphabet, ToBinary, Quad;
    if |b| >= 3 {
      var q := Quad(b[0], b[1], b[2]);
      QuadLetters(b[0], b[1], b[2]);
      EncodingIsCanonical(b[3..]);
      assert (q + Encode(b[3..]))[4..] == Encode(b[3..]);
    } else if |b| == 2 {
      QuadLetters(b[0], b[1], 0);
      NotPadding(Quad(b[0], b[1], 0)[2]);
    } else if |b| == 1 {
      QuadLetters(b[0], 0, 0);
    }
  }

  lemma SextetZero(w: Sextet, x: Sextet)
    ensures S0(First(w, x)) == w
  {
    assert First(w, x) == w as int * 4 + x / 16;
    Split4(First(w, x), w, x / 16);
  }

  lemma SextetOne(w: Sextet, x: Sextet, y: Sextet)
    ensures S1(First(w, x), Second(x, y)) == x
  {
    assert First(w, x) == w as int * 4 + x / 16;
    Split4(First(w, x), w, x / 16);
    assert Second(x, y) == x as int % 16 * 16 + y / 4;
    Split16(Second(x, y), x % 16, y / 4);
  }

  lemma SextetTwo(x: Sextet, y: Sextet, z: Sextet)
    ensures S2(Second(x, y), Third(y, z)) == y
  {
    assert Second(x, y) == x as int % 16 * 16 + y / 4;
    Split16(Second(x, y), x % 16, y / 4);
    assert Third(y, z) == y as int % 4 * 64 + z;
    Split64(Third(y, z), y % 4, z);
  }

  lemma SextetThree(y: Sextet, z: Sextet)
    ensures S3(Third(y, z)) == z
  {
    assert Third(y, z) == y as int % 4 * 64 + z;
    Split64(Third(y, z), y % 4, z);
  }

  lemma QuadEncodes(t: string)
    requires |t| == 4 && forall i | 0 <= i < 4 :: InAlphabet(t[i])
    ensures var b := FullQuad(t); Quad(b[0], b[1], b[2]) == t
  {
    hide ToBinary, Letter, InAlphabet, First, Second, Third, S0, S1, S2, S3;
    AlphabetIsInverted(t[0]);
    AlphabetIsInverted(t[1]);
    AlphabetIsInverted(t[2]);
    AlphabetIsInverted(t[3]);
    var w, x, y, z := ToBinary(t[0]), ToBinary(t[1]), ToBinary(t[2]), ToBinary(t[3]);
    SextetZero(w, x);
    SextetOne(w, x, y);
    SextetTwo(x, y, z);
    SextetThree(y, z);
  }

  lemma EmptyText()
    ensures Accepts("") && Encode(Quads("")) == ""
  {
  }

  lemma {:induction false} CanonicalComesBack(t: string)
    requires Canonical(t)
    ensures Accepts(t) && Encode(Quads(t)) == t
    decreases |t|
  {
    hide InAlphabet, ToBinary, Accepts, Encode, Quads;
    if t == "" {
      assert Accepts("") && Encode(Quads("")) == "" by { EmptyText(); }
    } else {
      if InAlphabet(t[2]) && InAlphabet(t[3]) && Canonical(t[4..]) {
        CanonicalComesBack(t[4..]);
        assert t == t[..4] + t[4..] && t[..4] == [t[0], t[1], t[2], t[3]];
        FullGroup(t[..4], t[4..]);
      } else if t[2] == '=' {
        LastGroupTwo(t);
      } else {
        LastGroupOne(t);
      }
    }
  }

  lemma AcceptsMore(q: string, rest: string)
    requires Accepts(rest) && forall i | 0 <= i < |q| :: InAlphabet(q[i])
    ensures Accepts(q + rest)
  {
    ForeignAfter(q, rest);
    hide InAlphabet, FirstForeign;
  }

  lemma AcceptsPadding(q: string, pad: string)
    requires (pad == "=" || pad == "==") && forall i | 0 <= i < |q| :: InAlphabet(q[i])
    ensures Accepts(q + pad)
  {
    assert FirstForeign(pad) == 0;
    AcceptsMore(q, pad);
  }

  lemma FullQuadOfPrefix(t: string)
    requires |t| >= 4
    ensures FullQuad(t) == FullQuad(t[..4])
  {
    hide ToBinary, First, Second, Third;
  }

  predicate Group(q: string) {
    |q| == 4 && forall i | 0 <= i < 4 :: InAlphabet(q[i])
  }

  lemma GroupIsNotPadded(q: string)
    requires Group(q)
    ensures |q| == 4 && q[2] != '=' && q[3] != '=' && forall i | 0 <= i < |q| :: InAlphabet(q[i])
  {
    NotPadding(q[2]);
    NotPadding(q[3]);
  }

  lemma GroupReencoded(q: string, rest: string)
    requires Group(q) && Encode(Quads(rest)) == rest && (rest == "" || |rest| >= 4)
    ensures Encode(Quads(q + rest)) == q + rest
  {
    hide *;
    GroupIsNotPadded(q);
    var t := q + rest;
    assert t[4..] == rest && t[..4] == q;
    QuadEncodes(q);
    FullQuadOfPrefix(t);
    QuadsStep(t);
    EncodeStep(FullQuad(q), Quads(rest));
  }

  lemma FullGroup(q: string, rest: string)
    requires Group(q) && Accepts(rest) && Encode(Quads(rest)) == rest && (rest == "" || |rest| >= 4)
    ensures Accepts(q + rest) && Encode(Quads(q + rest)) == q + rest
  {
    hide *;
    GroupIsNotPadded(q);
    AcceptsMore(q, rest);
    GroupReencoded(q, rest);
  }

  lemma QuadsStep(t: string)
    requires |t| >= 4 && t[2] != '=' && t[3] != '='
    ensures !(4 < |t| < 8) ==> Quads(t) == FullQuad(t) + Quads(t[4..])
  {
    hide FullQuad;
    if |t| == 4 {
      assert t[4..] == "" && FullQuad(t) + [] == FullQuad(t);
    }
  }

  lemma EncodeStep(b: seq<Byte>, rest: seq<Byte>)
    requires |b| == 3
    ensures Encode(b + rest) == Quad(b[0], b[1], b[2]) + Encode(rest)
  {
    hide Quad;
    assert (b + rest)[3..] == rest;
  }

  /** Two octets of a group with one padding character. */
  lemma ReencodeTwo(t: string)
    requires |t| >= 3 && InAlphabet(t[0]) && InAlphabet(t[1]) && InAlphabet(t[2]) && ToBinary(t[2]) % 4 == 0
    ensures var a, b := First(ToBinary(t[0]), ToBinary(t[1])), Second(ToBinary(t[1]), ToBinary(t[2]));
            Quad(a, b, 0)[..3] == t[..3]
  {
    hide InAlphabet, ToBinary, Letter, First, Second, Third, S0, S1, S2, S3;
    AlphabetIsInverted(t[0]);
    AlphabetIsInverted(t[1]);
    AlphabetIsInverted(t[2]);
    var w, x, y := ToBinary(t[0]), ToBinary(t[1]), ToBinary(t[2]);
    SextetZero(w, x);
    SextetOne(w, x, y);
    SextetTwo(x, y, 0);
    NoStrayBits(y);
  }

  lemma NoStrayBits(y: Sextet)
    ensures y % 4 == 0 ==> Third(y, 0) == 0
    ensures y % 16 == 0 ==> Second(y, 0) == 0
  {
  }

  lemma ReencodeOne(t: string)
    requires |t| >= 2 && InAlphabet(t[0]) && InAlphabet(t[1]) && ToBinary(t[1]) % 16 == 0
    ensures Quad(First(ToBinary(t[0]), ToBinary(t[1])), 0, 0)[..2] == t[..2]
  {
    hide InAlphabet, ToBinary, Letter, First, Second, Third, S0, S1, S2, S3;
    AlphabetIsInverted(t[0]);
    AlphabetIsInverted(t[1]);
    var w, x := ToBinary(t[0]), ToBinary(t[1]);
    SextetZero(w, x);
    SextetOne(w, x, 0);
    NoStrayBits(x);
  }

  lemma LastGroupOne(t: string)
    requires |t| == 4 && InAlphabet(t[0]) && InAlphabet(t[1]) && InAlphabet(t[2]) && t[3] == '='
    requires ToBinary(t[2]) % 4 == 0
    ensures Accepts(t) && Encode(Quads(t)) == t
  {
    ReencodeTwo(t);
    NotPadding(t[2]);
    hide *;
    PaddedIsAccepted(t);
    PaddedEncodes(t, First(ToBinary(t[0]), ToBinary(t[1])), Second(ToBinary(t[1]), ToBinary(t[2])));
  }

  lemma PaddedIsAccepted(t: string)
    requires |t| == 4 && InAlphabet(t[0]) && InAlphabet(t[1]) && InAlphabet(t[2]) && t[3] == '='
    ensures Accepts(t)
  {
    hide *;
    var q, rest := t[..3], "=";
    assert t == q + rest && q[0] == t[0] && q[1] == t[1] && q[2] == t[2];
    AcceptsPadding(q, rest);
  }

  lemma PaddedEncodes(t: string, a: Byte, b: Byte)
    requires |t| == 4 && t[2] != '=' && t[3] == '=' && Quad(a, b, 0)[..3] == t[..3]
    requires a == First(ToBinary(t[0]), ToBinary(t[1])) && b == Second(ToBinary(t[1]), ToBinary(t[2]))
    ensures Encode(Quads(t)) == t
  {
    hide *;
    QuadsOfPadded(t);
    EncodeEnd([a, b]);
    assert t[..3] + "=" == t;
  }

  lemma QuadsOfPadded(t: string)
    requires |t| == 4 && t[2] != '=' && t[3] == '='
    ensures Quads(t) == [First(ToBinary(t[0]), ToBinary(t[1])), Second(ToBinary(t[1]), ToBinary(t[2]))]
  {
    hide ToBinary, First, Second, Third;
  }

  lemma LastGroupTwo(t: string)
    requires |t| == 4 && InAlphabet(t[0]) && InAlphabet(t[1]) && t[2] == '=' && t[3] == '=' && ToBinary(t[1]) % 16 == 0
    ensures Accepts(t) && Encode(Quads(t)) == t
  {
    hide InAlphabet, ToBinary, Quad, FirstForeign, Accepts, First, Second, Third, Encode;
    assert t == t[..2] + "==" && t[..2] == [t[0], t[1]];
    AcceptsPadding(t[..2], "==");
    ReencodeOne(t);
    var b := Quads(t);
    assert b == [First(ToBinary(t[0]), ToBinary(t[1]))];
    EncodeEnd(b);
  }

  /** Encoding what was decoded gives the text back exactly for canonical texts. */
  lemma EncodeDecodeIff(t: string)
    ensures Encode(Decode(t)) == t <==> Canonical(t)
  {
    if Canonical(t) {
      CanonicalComesBack(t);
    } else {
      EncodingIsCanonical(Decode(t));
    }
  }

  // ---------- the loops of the source ----------

  lemma EncodeEnd(b: seq<Byte>)
    requires |b| < 3
    ensures Encode(b) == if |b| == 2 then Quad(b[0], b[1], 0)[..3] + "="
                         else if |b| == 1 then Quad(b[0], 0, 0)[..2] + "==" else ""
  {
    hide Quad;
  }

  method JsonEncode64(binary: seq<Byte>) returns (result: string)
    ensures result == Encode(binary)
  {
    hide Quad, Encode;
    var misaligned := |binary| % 3;
    var aligned := (|binary| - misaligned) / 3;
    result := "";
    var i, at := 0, 0;
    while i < aligned
      invariant 0 <= i <= aligned && 0 <= at && at + 3 * (aligned - i) + misaligned == |binary|
      invariant result + Encode(binary[at..]) == Encode(binary)
    {
      EncodeStep(binary[at..at + 3], binary[at + 3..]);
      assert binary[at..] == binary[at..at + 3] + binary[at + 3..];
      result := result + Quad(binary[at], binary[at + 1], binary[at + 2]);
      i, at := i + 1, at + 3;
    }
    EncodeEnd(binary[at..]);
    if misaligned == 2 {
      result := result + Quad(binary[at], binary[at + 1], 0)[..3] + "=";
    } else if misaligned == 1 {
      result := result + Quad(binary[at], 0, 0)[..2] + "==";
    }
  }

  method JsonDecode64(encoded: string) returns (result: seq<Byte>)
    ensures result == Decode(encoded)
  {
    hide FullQuad, Accepts;
    if !Accepts(encoded) {
      return [];
    }
    result := [];
    var aligned := |encoded| / 4;
    if aligned != 0 {
      aligned := aligned - 1;
      var i, at := 0, 0;
      while i < aligned
        invariant 0 <= i <= aligned && at == 4 * i
        invariant result + Quads(encoded[at..]) == Quads(encoded)
      {
        FullQuadOfPrefix(encoded[at..]);
        assert encoded[at..][4..] == encoded[at + 4..] && encoded[at..][..4] == encoded[at..at + 4];
        result := result + FullQuad(encoded[at..at + 4]);
        i, at := i + 1, at + 4;
      }
      result := result + LastQuad(encoded[at..]);
    }
  }
}
