/** Which texts the normaliser leaves as they are: raw dumps of unfetched nodes, and
    strings and names as the writer escapes them. */
module JsonNormal {
  import opened Text
  import Escape
  import opened Normaliser
  import opened JsonNode
  import opened JsonWriter
  import opened JsonRoundTrip

  // ---------- normalising what was written ----------

  /** Characters that stay as they are outside strings. */
  predicate Solid(c: char) {
    Legal(c) && !Blank(c) && c != '\"' && c != '/' && c != '#'
  }

  predicate AllSolid(t: string) {
    forall i | 0 <= i < |t| :: Solid(t[i])
  }

  /** `t` in front of any text is normalised to `out`. */
  ghost predicate NormalisesTo(t: string, out: string) {
    forall rest :: Normal(t + rest, true) == Prepend(out, Normal(rest, true))
  }

  lemma NormalConcat(a: string, out: string, b: string, out': string)
    requires NormalisesTo(a, out) && NormalisesTo(b, out')
    ensures NormalisesTo(a + b, out + out')
  {
    hide Normal;
    forall rest ensures Normal(a + b + rest, true) == Prepend(out + out', Normal(rest, true)) {
      assert a + b + rest == a + (b + rest);
      PrependTwice(out, out', Normal(rest, true));
    }
  }

  lemma NormalPiece(t: string, out: string)
    requires t != "" && t[0] != NUL
    requires forall rest :: Piece(t + rest, true) == Closed(out, |t|)
    ensures NormalisesTo(t, out)
  {
    hide Piece;
    forall rest ensures Normal(t + rest, true) == Prepend(out, Normal(rest, true)) {
      assert (t + rest)[|t|..] == rest && (t + rest)[0] == t[0];
    }
  }

  lemma {:induction false} NormalSolid(t: string)
    requires AllSolid(t)
    ensures NormalisesTo(t, t)
  {
    hide Normal;
    if t == "" {
      forall rest ensures Normal(t + rest, true) == Prepend(t, Normal(rest, true)) {
        assert t + rest == rest;
        PrependNothing(Normal(rest, true));
      }
    } else {
      var c := t[0];
      forall rest ensures Piece([c] + rest, true) == Closed([c], 1) {
        assert ([c] + rest)[0] == c;
      }
      NormalPiece([c], [c]);
      NormalSolid(t[1..]);
      NormalConcat([c], [c], t[1..], t[1..]);
      assert [c] + t[1..] == t;
    }
  }

  lemma {:induction false} PlainIsSolid(t: string)
    requires Plain(t)
    ensures AllSolid(t)
  {
  }

  /** Marks stand only where an escaped quote was. */
  predicate MarksEscaped(b: string) {
    if b == "" then true
    else if b[0] == '\\' then |b| >= 2 && MarksEscaped(b[2..])
    else b[0] != MARK && MarksEscaped(b[1..])
  }

  lemma DumpConcat(a: string, b: string, usedMark: bool)
    ensures Dump(a + b, usedMark) == Dump(a, usedMark) + Dump(b, usedMark)
  {
  }

  lemma QuotedChar(c: char, t: string)
    requires c != '\"' && c != '\\' && c != NUL
    ensures Normaliser.Quoted([c] + t, true) == Then([c], 1, Normaliser.Quoted(t, true))
  {
    var s := [c] + t;
    assert s[0] == c && s[1..] == t;
  }

  lemma QuotedEscape(c: char, t: string)
    ensures Normaliser.Quoted(['\\', c] + t, true)
         == Then(['\\', if c == '\"' then MARK else c], 2, Normaliser.Quoted(t, true))
  {
    var s := ['\\', c] + t;
    assert s[0] == '\\' && s[1] == c && s[2..] == t;
  }

  function DumpChar(c: char, usedMark: bool): char {
    if usedMark && c == MARK then '\"' else c
  }

  lemma DumpFirst(b: string, usedMark: bool, k: nat, more: string)
    requires k <= |b| && 1 <= k <= 2
    ensures Dump(b, usedMark) + more
         == (if k == 1 then [DumpChar(b[0], usedMark)] else [DumpChar(b[0], usedMark), DumpChar(b[1], usedMark)])
            + (Dump(b[k..], usedMark) + more)
  {
    var head := if k == 1 then [DumpChar(b[0], usedMark)] else [DumpChar(b[0], usedMark), DumpChar(b[1], usedMark)];
    assert b == b[..k] + b[k..];
    DumpConcat(b[..k], b[k..], usedMark);
    assert Dump(b[..k], usedMark) == head;
    assert Dump(b, usedMark) == head + Dump(b[k..], usedMark);
    assert head + Dump(b[k..], usedMark) + more == head + (Dump(b[k..], usedMark) + more);
  }

  /** A dumped string body is read back as it was. */
  lemma {:induction false} QuotedBody(b: string, usedMark: bool, rest: string)
    requires Body(b) && (usedMark ==> MarksEscaped(b))
    ensures Normaliser.Quoted(Dump(b, usedMark) + ("\"" + rest), true) == Closed(b, |b| + 1)
  {
    var more := "\"" + rest;
    hide Normaliser.Quoted, Dump;
    if b == "" {
      DumpNothing(usedMark);
      QuotedEnd(rest);
      assert "" + more == more;
    } else {
      var k := if b[0] == '\\' then 2 else 1;
      DumpFirst(b, usedMark, k, more);
      QuotedBody(b[k..], usedMark, rest);
      if k == 1 {
        QuotedChar(b[0], Dump(b[1..], usedMark) + more);
        assert [b[0]] + b[1..] == b;
      } else {
        QuotedEscape(DumpChar(b[1], usedMark), Dump(b[2..], usedMark) + more);
        assert [b[0], b[1]] + b[2..] == b;
      }
    }
  }

  lemma DumpNothing(usedMark: bool)
    ensures Dump("", usedMark) == ""
  {
  }

  lemma QuotedEnd(rest: string)
    ensures Normaliser.Quoted("\"" + rest, true) == Closed("", 1)
  {
    assert ("\"" + rest)[0] == '\"';
  }

  lemma PieceAtQuote(s: string, out: string, used: nat)
    requires s != "" && s[0] == '\"' && Normaliser.Quoted(s[1..], true) == Closed(out, used)
    ensures Piece(s, true) == Closed("\"" + out + "\"", 1 + used)
  {
    hide Normaliser.Quoted;
  }

  lemma StringParts(inner: string, rest: string)
    ensures var s := "\"" + inner + "\"" + rest;
            s != "" && s[0] == '\"' && s[1..] == inner + ("\"" + rest)
  {
  }

  lemma StringPiece(inner: string, out: string, rest: string)
    requires Normaliser.Quoted(inner + ("\"" + rest), true) == Closed(out, |inner| + 1)
    ensures Piece("\"" + inner + "\"" + rest, true) == Closed("\"" + out + "\"", |inner| + 2)
  {
    hide *;
    StringParts(inner, rest);
    PieceAtQuote("\"" + inner + "\"" + rest, out, |inner| + 1);
  }

  lemma NormalString(b: string, usedMark: bool)
    requires Body(b) && (usedMark ==> MarksEscaped(b))
    ensures NormalisesTo("\"" + Dump(b, usedMark) + "\"", "\"" + b + "\"")
  {
    hide Piece, Normaliser.Quoted, Body, MarksEscaped, NormalisesTo;
    var inner := Dump(b, usedMark);
    forall rest ensures Piece("\"" + inner + "\"" + rest, true) == Closed("\"" + b + "\"", |inner| + 2) {
      QuotedBody(b, usedMark, rest);
      StringPiece(inner, b, rest);
    }
    NormalPiece("\"" + inner + "\"", "\"" + b + "\"");
  }

  lemma NormalChars(t: string)
    requires forall i | 0 <= i < |t| :: t[i] in "[]{},:"
    ensures NormalisesTo(t, t)
  {
    NormalSolid(t);
  }

  // ---------- strings and names ----------

  /** A stored string whose flag tells the writer what it needs to know. */
  predicate Storable(text: string, encoded: bool) {
    NulFree(text) && if encoded then Bytes(text) else '\\' !in text && '\"' !in text
  }

  /** The normalised body the writer's text for a stored string turns into. */
  function RawBody(text: string, encoded: bool): string {
    if encoded then Escape.Escaped(text, MARK) else text
  }

  lemma {:induction false} EscapedMarks(s: string)
    requires NulFree(s) && Bytes(s)
    ensures var e := Escape.Escaped(s, MARK);
            Body(e) && MarksEscaped(e) && Dump(e, true) == Escape.Escaped(s, '\"')
  {
    if s != "" {
      EscapedMarks(s[1..]);
      var e, tail := Escape.EscapeChar(s[0], MARK), Escape.Escaped(s[1..], MARK);
      EscapedCharMarks(s[0], tail);
      DumpConcat(e, tail, true);
    }
  }

  lemma EscapedCharMarks(c: char, tail: string)
    requires c != NUL && c as int < 256 && Body(tail) && MarksEscaped(tail)
    ensures var e := Escape.EscapeChar(c, MARK);
            Body(e + tail) && MarksEscaped(e + tail) && Dump(e, true) == Escape.EscapeChar(c, '\"')
  {
    var e := Escape.EscapeChar(c, MARK);
    if e == Escape.ToUTF8(c) && e[0] == '\\' {
      Escape.UTF8Shape(c);
      HexDigitsArePlain(c);
      hide Escape.EscapeChar, Escape.ToUTF8, Escape.HexDigit;
      PlainInFront(e[5], tail);
      PlainInFront(e[4], [e[5]] + tail);
      PlainInFront(e[3], [e[4]] + ([e[5]] + tail));
      PlainInFront(e[2], [e[3]] + ([e[4]] + ([e[5]] + tail)));
      assert (e + tail)[2..] == [e[2]] + ([e[3]] + ([e[4]] + ([e[5]] + tail)));
    } else if |e| == 2 {
      assert (e + tail)[2..] == tail;
    } else {
      assert (e + tail)[1..] == tail;
    }
  }

  lemma HexDigitsArePlain(c: char)
    requires c as int < 256
    ensures var e := Escape.ToUTF8(c);
            forall i | 2 <= i < 6 :: e[i] != '\\' && e[i] != '\"' && e[i] != NUL && e[i] != MARK
  {
  }

  lemma PlainInFront(c: char, s: string)
    requires c != '\\' && c != '\"' && c != NUL && c != MARK && Body(s) && MarksEscaped(s)
    ensures Body([c] + s) && MarksEscaped([c] + s)
  {
    assert ([c] + s)[1..] == s;
  }

  lemma {:induction false} QuoteFreeIsBody(s: string)
    requires NulFree(s) && '\\' !in s && '\"' !in s
    ensures Body(s)
  {
    if s != "" { QuoteFreeIsBody(s[1..]); }
  }

  /** The written form of a stored string normalises to its raw body, which reads
      back as the string. */
  lemma StoredString(text: string, encoded: bool)
    requires Storable(text, encoded)
    ensures var b := RawBody(text, encoded);
            && Body(b) && Escape.Unescaped(b) == Done(text)
            && NormalisesTo("\"" + Escape.Unfix(text, encoded) + "\"", "\"" + b + "\"")
  {
    hide NormalisesTo, Body, MarksEscaped;
    if encoded {
      EscapedMarks(text);
      Escape.EscapeRoundTrip(text, MARK);
      CStrOfText(text);
      NormalString(Escape.Escaped(text, MARK), true);
    } else {
      QuoteFreeIsBody(text);
      Escape.PlainIsItself(text);
      NormalString(text, false);
    }
  }

  // ---------- unfetched text ----------

  predicate Clean(r: Raw) {
    match r
    case Lit(_) => true
    case Quoted(body) => MarksEscaped(body)
    case Arr(items) => forall i | 0 <= i < |items| :: Clean(items[i])
    case Obj(members) => forall i | 0 <= i < |members| :: CleanMember(members[i])
  }

  predicate CleanMember(m: Member) {
    MarksEscaped(m.name) && Clean(m.value)
  }

  lemma DumpSolid(t: string, usedMark: bool)
    requires AllSolid(t)
    ensures Dump(t, usedMark) == t
  {
  }

  /** The raw dump of well-formed text normalises to that text. */
  lemma {:induction false} NormalFlat(r: Raw, usedMark: bool)
    requires WellFormed(r) && (usedMark ==> Clean(r))
    ensures NormalisesTo(Dump(Flat(r), usedMark), Flat(r))
    decreases r, 1
  {
    hide NormalisesTo, FlatItems, FlatMembers, Dump, WellFormedMember, Body;
    match r
    case Lit(t) =>
      LiteralIsPlain(t);
      PlainIsSolid(t);
      DumpSolid(t, usedMark);
      NormalSolid(t);
    case Quoted(b) =>
      DumpAround("\"", b, "\"", usedMark);
      NormalString(b, usedMark);
    case Arr(items) =>
      NormalFlatItems(items, usedMark);
      DumpAround("[", FlatItems(items), "]", usedMark);
      NormalAround("[", Dump(FlatItems(items), usedMark), FlatItems(items), "]");
    case Obj(members) =>
      NormalFlatMembers(members, usedMark);
      DumpAround("{", FlatMembers(members), "}", usedMark);
      NormalAround("{", Dump(FlatMembers(members), usedMark), FlatMembers(members), "}");
  }

  lemma DumpAround(open: string, inner: string, close: string, usedMark: bool)
    requires MARK !in open && MARK !in close
    ensures Dump(open + inner + close, usedMark) == open + Dump(inner, usedMark) + close
  {
  }

  lemma NormalAround(open: string, inner: string, out: string, close: string)
    requires forall i | 0 <= i < |open| :: open[i] in "[]{},:"
    requires forall i | 0 <= i < |close| :: close[i] in "[]{},:"
    requires NormalisesTo(inner, out)
    ensures NormalisesTo(open + inner + close, open + out + close)
  {
    hide NormalisesTo;
    NormalChars(open);
    NormalChars(close);
    NormalConcat(open, open, inner, out);
    NormalConcat(open + inner, open + out, close, close);
  }

  lemma {:induction false} NormalFlatItems(items: seq<Raw>, usedMark: bool)
    requires forall i | 0 <= i < |items| :: WellFormed(items[i]) && (usedMark ==> Clean(items[i]))
    ensures NormalisesTo(Dump(FlatItems(items), usedMark), FlatItems(items))
    decreases items, 0
  {
    hide NormalisesTo, Flat, Dump, WellFormed, Clean;
    if items == [] {
      NormalChars("");
      DumpSolid("", usedMark);
    } else {
      NormalFlat(items[0], usedMark);
      if |items| > 1 {
        var tail := FlatItems(items[1..]);
        NormalFlatItems(items[1..], usedMark);
        Listed(Flat(items[0]), tail, usedMark);
      } else {
        assert Flat(items[0]) + "" == Flat(items[0]);
      }
    }
  }

  lemma Listed(first: string, tail: string, usedMark: bool)
    requires NormalisesTo(Dump(first, usedMark), first) && NormalisesTo(Dump(tail, usedMark), tail)
    ensures NormalisesTo(Dump(first + ("," + tail), usedMark), first + ("," + tail))
  {
    NormalAround(",", Dump(tail, usedMark), tail, "");
    hide NormalisesTo;
    DumpConcat(first, "," + tail, usedMark);
    DumpConcat(",", tail, usedMark);
    DumpSolid(",", usedMark);
    assert "," + Dump(tail, usedMark) + "" == "," + Dump(tail, usedMark) && "," + tail + "" == "," + tail;
    NormalConcat(Dump(first, usedMark), first, "," + Dump(tail, usedMark), "," + tail);
  }

  lemma {:induction false} NormalFlatMember(m: Member, usedMark: bool)
    requires WellFormedMember(m) && (usedMark ==> CleanMember(m))
    ensures NormalisesTo(Dump(FlatMember(m), usedMark), FlatMember(m))
    decreases m, 2
  {
    hide NormalisesTo, Flat, Dump, Body, MarksEscaped;
    var name, value := m.name, Flat(m.value);
    NormalString(name, usedMark);
    NormalFlat(m.value, usedMark);
    NormalAround(":", Dump(value, usedMark), value, "");
    assert ":" + Dump(value, usedMark) + "" == ":" + Dump(value, usedMark) && ":" + value + "" == ":" + value;
    NormalConcat("\"" + Dump(name, usedMark) + "\"", "\"" + name + "\"", ":" + Dump(value, usedMark), ":" + value);
    DumpAround("\"", name, "\":", usedMark);
    DumpConcat("\"" + name + "\":", value, usedMark);
    assert "\"" + name + "\":" + value == "\"" + name + "\"" + (":" + value);
    assert "\"" + Dump(name, usedMark) + "\":" + Dump(value, usedMark)
        == "\"" + Dump(name, usedMark) + "\"" + (":" + Dump(value, usedMark));
  }

  lemma {:induction false} NormalFlatMembers(members: seq<Member>, usedMark: bool)
    requires forall i | 0 <= i < |members| :: WellFormedMember(members[i]) && (usedMark ==> CleanMember(members[i]))
    ensures NormalisesTo(Dump(FlatMembers(members), usedMark), FlatMembers(members))
    decreases members, 0
  {
    hide NormalisesTo, FlatMember, Dump, WellFormedMember, CleanMember;
    if members == [] {
      NormalChars("");
      DumpSolid("", usedMark);
    } else {
      NormalFlatMember(members[0], usedMark);
      if |members| > 1 {
        NormalFlatMembers(members[1..], usedMark);
        Listed(FlatMember(members[0]), FlatMembers(members[1..]), usedMark);
      } else {
        assert FlatMember(members[0]) + "" == FlatMember(members[0]);
      }
    }
  }
}
