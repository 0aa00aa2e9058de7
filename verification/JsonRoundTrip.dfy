/** Parsing undoes writing, whatever part of a tree has been fetched. */
module JsonRoundTrip {
  import opened Text
  import Escape
  import Normaliser
  import Numbers
  import Scanner
  import opened JsonNode
  import opened JsonWriter

  // ---------- a grammar of normalised texts ----------

  /** Normalised JSON text as a tree; string bodies are still escaped. */
  datatype Raw = Lit(text: string) | Quoted(body: string) | Arr(items: seq<Raw>) | Obj(members: seq<Member>)
  datatype Member = Member(name: string, value: Raw)

  function Flat(r: Raw): string
    decreases r, 1
  {
    match r
    case Lit(text) => text
    case Quoted(body) => "\"" + body + "\""
    case Arr(items) => "[" + FlatItems(items) + "]"
    case Obj(members) => "{" + FlatMembers(members) + "}"
  }

  function FlatItems(items: seq<Raw>): string
    decreases items, 0
  {
    if items == [] then ""
    else Flat(items[0]) + (if |items| == 1 then "" else "," + FlatItems(items[1..]))
  }

  function FlatName(name: string): string {
    "\"" + name + "\":"
  }

  function FlatMember(m: Member): string
    decreases m, 2
  {
    FlatName(m.name) + Flat(m.value)
  }

  function FlatMembers(members: seq<Member>): string
    decreases members, 0
  {
    if members == [] then ""
    else FlatMember(members[0]) + (if |members| == 1 then "" else "," + FlatMembers(members[1..]))
  }

  /** A string body: no quote and no NUL, each backslash with its character. */
  predicate Body(b: string) {
    if b == "" then true
    else if b[0] == '\\' then |b| >= 2 && b[1] != '\"' && b[1] != NUL && Body(b[2..])
    else b[0] != '\"' && b[0] != NUL && Body(b[1..])
  }

  predicate Literal(t: string) {
    t == "true" || t == "false" || t == "null" || (NulFree(t) && Numbers.Numeric(t))
  }

  predicate WellFormed(r: Raw) {
    match r
    case Lit(text) => Literal(text)
    case Quoted(body) => Body(body)
    case Arr(items) => forall i | 0 <= i < |items| :: WellFormed(items[i])
    case Obj(members) => forall i | 0 <= i < |members| :: WellFormedMember(members[i])
  }

  predicate WellFormedMember(m: Member) {
    Body(m.name) && WellFormed(m.value)
  }

  /** Characters the scanner and the normaliser pass over one by one. */
  predicate PlainChar(c: char) {
    Normaliser.Legal(c) && !Normaliser.Blank(c) && c !in "\"[]{},:/#"
  }

  predicate Plain(t: string) {
    forall i | 0 <= i < |t| :: PlainChar(t[i])
  }

  lemma LiteralIsPlain(t: string)
    requires Literal(t)
    ensures t != "" && Plain(t)
  {
    if t != "true" && t != "false" && t != "null" {
      Numbers.NumericChars(t);
    }
  }

  predicate QuoteFree(b: string) {
    forall i | 0 <= i < |b| :: b[i] != '\"' && b[i] != NUL
  }

  lemma {:induction false} BodyIsQuoteFree(b: string)
    requires Body(b)
    ensures QuoteFree(b)
  {
    if b != "" {
      var k := if b[0] == '\\' then 2 else 1;
      BodyIsQuoteFree(b[k..]);
      assert forall i | k <= i < |b| :: b[i] == b[k..][i - k];
    }
  }

  // ---------- scanning ----------

  lemma {:induction false} SkipBody(b: string, rest: string)
    requires QuoteFree(b)
    ensures Scanner.SkipQuote(b + "\"" + rest) == Some(|b| + 1)
  {
    var s := b + "\"" + rest;
    if b != "" {
      SkipBody(b[1..], rest);
      assert s[1..] == b[1..] + "\"" + rest;
    }
  }

  lemma {:induction false} SkipPlain(left: char, right: char, t: string, rest: string, depth: nat)
    requires Scanner.Kind(left, right) && Plain(t) && depth > 0
    ensures Scanner.SkipBracket(left, right, t + rest, depth)
         == Scanner.Shift(|t|, Scanner.SkipBracket(left, right, rest, depth))
  {
    if t == "" {
      assert t + rest == rest;
    } else {
      assert (t + rest)[1..] == t[1..] + rest;
      SkipPlain(left, right, t[1..], rest, depth);
    }
  }

  lemma SkipString(left: char, right: char, b: string, rest: string, depth: nat)
    requires Scanner.Kind(left, right) && Body(b) && depth > 0
    ensures Scanner.SkipBracket(left, right, "\"" + b + "\"" + rest, depth)
         == Scanner.Shift(|b| + 2, Scanner.SkipBracket(left, right, rest, depth))
  {
    var s := "\"" + b + "\"" + rest;
    BodyIsQuoteFree(b);
    SkipBody(b, rest);
    assert s[1..] == b + "\"" + rest && s[1 + (|b| + 1)..] == rest;
  }

  /** One character that is no quote, seen by the bracket loop. */
  lemma SkipChar(left: char, right: char, c: char, rest: string, depth: nat)
    requires Scanner.Kind(left, right) && depth > 0 && c != NUL && c != '\"'
    ensures Scanner.SkipBracket(left, right, [c] + rest, depth)
         == Scanner.Shift(1, Scanner.SkipBracket(left, right, rest,
              if c == right then depth - 1 else if c == left then depth + 1 else depth))
  {
    assert ([c] + rest)[1..] == rest;
  }

  function DepthInside(left: char, open: char, depth: nat): nat {
    if left == open then depth + 1 else depth
  }

  /** A bracketed region whose inside is passed over is passed over as a whole. */
  lemma SkipAround(left: char, right: char, open: char, close: char, inner: string, rest: string, depth: nat)
    requires Scanner.Kind(left, right) && Scanner.Kind(open, close) && depth > 0
    requires var d := DepthInside(left, open, depth);
             Scanner.SkipBracket(left, right, inner + ([close] + rest), d)
             == Scanner.Shift(|inner|, Scanner.SkipBracket(left, right, [close] + rest, d))
    ensures Scanner.SkipBracket(left, right, [open] + inner + [close] + rest, depth)
         == Scanner.Shift(|inner| + 2, Scanner.SkipBracket(left, right, rest, depth))
  {
    var d := DepthInside(left, open, depth);
    assert d == if open == left then depth + 1 else depth;
    assert if close == right then d == depth + 1 else d == depth && close != left;
    assert open != right && open != NUL && open != '\"' && close != NUL && close != '\"';
    hide Scanner.SkipBracket, Scanner.Kind, DepthInside;
    var s := inner + ([close] + rest);
    var x := Scanner.SkipBracket(left, right, rest, depth);
    Regroup(open, inner, close, rest);
    SkipChar(left, right, open, s, depth);
    SkipChar(left, right, close, rest, d);
    ShiftTwice(|inner|, 1, x);
    ShiftTwice(1, |inner| + 1, x);
  }

  lemma ShiftTwice(a: nat, b: nat, r: Option<nat>)
    ensures Scanner.Shift(a, Scanner.Shift(b, r)) == Scanner.Shift(a + b, r)
  {
  }

  lemma Regroup(open: char, inner: string, close: char, rest: string)
    ensures [open] + inner + [close] + rest == [open] + (inner + ([close] + rest))
  {
  }

  /** The bracket loop passes over every well-formed text with its count unchanged. */
  lemma {:induction false} SkipFlat(left: char, right: char, r: Raw, rest: string, depth: nat)
    requires Scanner.Kind(left, right) && WellFormed(r) && depth > 0
    ensures Scanner.SkipBracket(left, right, Flat(r) + rest, depth)
         == Scanner.Shift(|Flat(r)|, Scanner.SkipBracket(left, right, rest, depth))
    decreases r, 1
  {
    hide Scanner.SkipBracket, FlatItems, FlatMembers, Body, Literal, Plain;
    match r
    case Lit(t) =>
      LiteralIsPlain(t);
      SkipPlain(left, right, t, rest, depth);
    case Quoted(b) =>
      SkipString(left, right, b, rest, depth);
    case Arr(items) =>
      SkipFlatItems(left, right, items, "]" + rest, DepthInside(left, '[', depth));
      SkipAround(left, right, '[', ']', FlatItems(items), rest, depth);
    case Obj(members) =>
      SkipFlatMembers(left, right, members, "}" + rest, DepthInside(left, '{', depth));
      SkipAround(left, right, '{', '}', FlatMembers(members), rest, depth);
  }

  lemma {:induction false} SkipFlatItems(left: char, right: char, items: seq<Raw>, rest: string, depth: nat)
    requires Scanner.Kind(left, right) && depth > 0
    requires forall i | 0 <= i < |items| :: WellFormed(items[i])
    ensures Scanner.SkipBracket(left, right, FlatItems(items) + rest, depth)
         == Scanner.Shift(|FlatItems(items)|, Scanner.SkipBracket(left, right, rest, depth))
    decreases items, 0
  {
    hide Scanner.SkipBracket, Flat;
    if items == [] {
      assert "" + rest == rest;
    } else if |items| == 1 {
      SkipFlat(left, right, items[0], rest, depth);
      assert Flat(items[0]) + "" == Flat(items[0]);
    } else {
      var tail := FlatItems(items[1..]);
      SkipFlat(left, right, items[0], "," + (tail + rest), depth);
      SkipChar(left, right, ',', tail + rest, depth);
      SkipFlatItems(left, right, items[1..], rest, depth);
      assert FlatItems(items) + rest == Flat(items[0]) + ("," + (tail + rest));
    }
  }

  lemma SkipFlatMember(left: char, right: char, m: Member, rest: string, depth: nat)
    requires Scanner.Kind(left, right) && depth > 0 && WellFormedMember(m)
    ensures Scanner.SkipBracket(left, right, FlatMember(m) + rest, depth)
         == Scanner.Shift(|FlatMember(m)|, Scanner.SkipBracket(left, right, rest, depth))
    decreases m, 2
  {
    hide Scanner.SkipBracket, Flat;
    var tail := Flat(m.value) + rest;
    assert FlatMember(m) + rest == "\"" + m.name + "\"" + (":" + tail);
    SkipString(left, right, m.name, ":" + tail, depth);
    SkipChar(left, right, ':', tail, depth);
    SkipFlat(left, right, m.value, rest, depth);
  }

  lemma {:induction false} SkipFlatMembers(left: char, right: char, members: seq<Member>, rest: string, depth: nat)
    requires Scanner.Kind(left, right) && depth > 0
    requires forall i | 0 <= i < |members| :: WellFormedMember(members[i])
    ensures Scanner.SkipBracket(left, right, FlatMembers(members) + rest, depth)
         == Scanner.Shift(|FlatMembers(members)|, Scanner.SkipBracket(left, right, rest, depth))
    decreases members, 0
  {
    hide Scanner.SkipBracket, FlatMember, WellFormedMember;
    if members == [] {
      assert "" + rest == rest;
    } else if |members| == 1 {
      SkipFlatMember(left, right, members[0], rest, depth);
      assert FlatMember(members[0]) + "" == FlatMember(members[0]);
    } else {
      var tail := FlatMembers(members[1..]);
      SkipFlatMember(left, right, members[0], "," + (tail + rest), depth);
      SkipChar(left, right, ',', tail + rest, depth);
      SkipFlatMembers(left, right, members[1..], rest, depth);
      assert FlatMembers(members) + rest == FlatMember(members[0]) + ("," + (tail + rest));
    }
  }

  predicate Separator(ch: char) {
    ch == ',' || ch == ':'
  }

  lemma FirstOff(t: string, rest: string)
    requires t != "" && Plain(t)
    ensures t + rest == [t[0]] + (t[1..] + rest) && PlainChar(t[0]) && Plain(t[1..])
  {
  }

  lemma {:induction false} FindPlain(ch: char, t: string, rest: string)
    requires Separator(ch) && Plain(t)
    ensures Scanner.Find(ch, t + rest) == Scanner.Shift(|t|, Scanner.Find(ch, rest))
  {
    hide Scanner.Find, Separator, Plain, PlainChar;
    if t == "" {
      assert t + rest == rest;
    } else {
      FirstOff(t, rest);
      FindPlainChar(ch, t[0], t[1..] + rest);
      FindPlain(ch, t[1..], rest);
      ShiftTwice(1, |t| - 1, Scanner.Find(ch, rest));
    }
  }

  lemma FindPlainChar(ch: char, c: char, rest: string)
    requires Separator(ch) && PlainChar(c)
    ensures Scanner.Find(ch, [c] + rest) == Scanner.Shift(1, Scanner.Find(ch, rest))
  {
    var s := [c] + rest;
    assert s[0] == c && s[1..] == rest;
    hide PlainChar, Scanner.Find;
    assert PlainChar(c);
    PlainCharIsOther(c);
    FindSkips(ch, s, 1);
  }

  lemma PlainCharIsOther(c: char)
    requires PlainChar(c)
    ensures c !in ['[', ']', '{', '}', '\"', ',', ':', NUL, COMMENT]
  {
  }

  /** What `SkipOne` skips, `Find` passes over. */
  lemma FindSkips(ch: char, s: string, k: nat)
    requires !AtEnd(s) && s[0] != ch && s[0] != ']' && s[0] != '}' && Scanner.SkipOne(s) == Some(k)
    ensures Scanner.Find(ch, s) == Scanner.Shift(k, Scanner.Find(ch, s[k..]))
  {
  }

  lemma FindString(ch: char, b: string, rest: string)
    requires Separator(ch) && Body(b)
    ensures Scanner.Find(ch, "\"" + b + "\"" + rest) == Scanner.Shift(|b| + 2, Scanner.Find(ch, rest))
  {
    var s := "\"" + b + "\"" + rest;
    BodyIsQuoteFree(b);
    SkipBody(b, rest);
    assert s[1..] == b + "\"" + rest && s[|b| + 2..] == rest;
    FindSkips(ch, s, |b| + 2);
  }

  // Names for the parts of a bracketed region, so that proofs can treat them as units.

  function Surround(open: char, inner: string, close: char, rest: string): string {
    [open] + inner + [close] + rest
  }

  function Closing(close: char, rest: string): string {
    [close] + rest
  }

  function Inside(inner: string, close: char, rest: string): string {
    inner + Closing(close, rest)
  }

  lemma CloseBracket(open: char, close: char, rest: string)
    requires Scanner.Kind(open, close)
    ensures Scanner.SkipBracket(open, close, Closing(close, rest), 1) == Some(1)
  {
    hide Scanner.SkipBracket;
    SkipChar(open, close, close, rest, 1);
    Scanner.BracketDone(open, close, rest);
  }

  lemma AroundParts(open: char, inner: string, close: char, rest: string)
    ensures var s := Surround(open, inner, close, rest);
            s != "" && s[0] == open && s[1..] == Inside(inner, close, rest) && s[|inner| + 2..] == rest
  {
  }

  lemma SkipOneBracket(s: string, open: char, close: char, k: nat)
    requires s != "" && s[0] == open && Scanner.Kind(open, close)
    requires Scanner.SkipBracket(open, close, s[1..], 1) == Some(k)
    ensures Scanner.SkipOne(s) == Some(1 + k)
  {
    hide Scanner.SkipBracket;
  }

  lemma ShiftSome(a: nat, b: nat)
    ensures Scanner.Shift(a, Some(b)) == Some(a + b)
  {
  }

  /** A bracketed region is skipped as a whole. */
  lemma FindAround(ch: char, open: char, close: char, inner: string, rest: string)
    requires Separator(ch) && Scanner.Kind(open, close)
    requires Scanner.SkipBracket(open, close, Inside(inner, close, rest), 1)
          == Scanner.Shift(|inner|, Scanner.SkipBracket(open, close, Closing(close, rest), 1))
    ensures Scanner.Find(ch, Surround(open, inner, close, rest))
         == Scanner.Shift(|inner| + 2, Scanner.Find(ch, rest))
  {
    assert open != NUL && open != ch && open != ']' && open != '}';
    hide *;
    var s := Surround(open, inner, close, rest);
    AroundParts(open, inner, close, rest);
    CloseBracket(open, close, rest);
    ShiftSome(|inner|, 1);
    SkipOneBracket(s, open, close, |inner| + 1);
    NotAtEnd(s);
    FindSkips(ch, s, |inner| + 2);
  }

  lemma NotAtEnd(s: string)
    requires s != "" && s[0] != NUL
    ensures !AtEnd(s)
  {
  }

  /** `FindNextRelevant` passes over every well-formed value. */
  lemma FindFlat(ch: char, r: Raw, rest: string)
    requires Separator(ch) && WellFormed(r)
    ensures Scanner.Find(ch, Flat(r) + rest) == Scanner.Shift(|Flat(r)|, Scanner.Find(ch, rest))
  {
    hide Scanner.SkipBracket, Scanner.Find, FlatItems, FlatMembers, Body, Literal, Plain, WellFormedMember;
    match r
    case Lit(t) =>
      LiteralIsPlain(t);
      FindPlain(ch, t, rest);
    case Quoted(b) =>
      FindString(ch, b, rest);
    case Arr(items) =>
      SkipFlatItems('[', ']', items, "]" + rest, 1);
      FindAround(ch, '[', ']', FlatItems(items), rest);
    case Obj(members) =>
      SkipFlatMembers('{', '}', members, "}" + rest, 1);
      FindAround(ch, '{', '}', FlatMembers(members), rest);
  }

  lemma FindChar(ch: char, c: char, rest: string)
    requires Separator(ch)
    ensures c == ch ==> Scanner.Find(ch, [c] + rest) == Some(0)
    ensures c == ']' || c == '}' ==> Scanner.Find(ch, [c] + rest) == None
    ensures Separator(c) && c != ch ==> Scanner.Find(ch, [c] + rest) == Scanner.Shift(1, Scanner.Find(ch, rest))
  {
    assert ([c] + rest)[1..] == rest;
  }

  lemma FindNothing(ch: char)
    ensures Scanner.Find(ch, "") == None
  {
  }

  // ---------- parsing well-formed text ----------

  /** The node the constructor makes of a well-formed value. */
  function Unfetched(r: Raw, name: string, encoded: bool): Node {
    var n := Node(Null, name, encoded, Flat(r), false, false, []);
    match r
    case Lit(t) =>
      if t == "null" then n.(fetched := true)
      else if t == "true" || t == "false" then n.(kind := Bool, fetched := true)
      else n.(kind := Number)
    case Quoted(_) => n.(kind := String)
    case Arr(_) => n.(kind := Array)
    case Obj(_) => n.(kind := Object)
  }

  lemma {:induction false} PlainIsNulFree(t: string)
    requires Plain(t)
    ensures NulFree(t) && (t != "" ==> t[0] != COMMENT)
  {
    forall i | 0 <= i < |t| ensures t[i] != NUL && t[i] != COMMENT {
      PlainCharIsOther(t[i]);
    }
  }

  lemma {:induction false} FlatIsText(r: Raw)
    requires WellFormed(r)
    ensures NulFree(Flat(r)) && Flat(r) != "" && Flat(r)[0] != COMMENT
    decreases r, 1
  {
    match r
    case Lit(t) =>
      LiteralIsPlain(t);
      PlainIsNulFree(t);
    case Quoted(b) =>
      BodyIsQuoteFree(b);
    case Arr(items) =>
      FlatItemsIsText(items);
    case Obj(members) =>
      FlatMembersIsText(members);
  }

  lemma {:induction false} FlatItemsIsText(items: seq<Raw>)
    requires forall i | 0 <= i < |items| :: WellFormed(items[i])
    ensures NulFree(FlatItems(items)) && (items != [] ==> FlatItems(items) != "")
    decreases items, 0
  {
    if items != [] {
      FlatIsText(items[0]);
      FlatItemsIsText(items[1..]);
    }
  }

  lemma {:induction false} FlatMembersIsText(members: seq<Member>)
    requires forall i | 0 <= i < |members| :: WellFormedMember(members[i])
    ensures NulFree(FlatMembers(members)) && (members != [] ==> FlatMembers(members) != "")
    decreases members, 0
  {
    if members != [] {
      BodyIsQuoteFree(members[0].name);
      FlatIsText(members[0].value);
      FlatMembersIsText(members[1..]);
    }
  }

  /** The constructor recognises every well-formed value. */
  lemma NewInternalFlat(name: string, r: Raw)
    requires WellFormed(r)
    ensures NewInternal(name, Flat(r)) ==
            match Escape.Unescaped(name)
            case Overrun => Overrun
            case Done(plain) => Done(Unfetched(r, plain, Escape.Encoded(name)))
  {
    FlatIsText(r);
    match r
    case Lit(t) =>
      if t != "true" && t != "false" && t != "null" {
        Numbers.NumericChars(t);
      }
    case _ =>
  }

  lemma CStrOfText(s: string)
    requires NulFree(s)
    ensures CStr(s) == s
  {
  }

  lemma NewElement(r: Raw)
    requires WellFormed(r)
    ensures NewNode("", Flat(r), true) == Done(Unfetched(r, "", false))
  {
    FlatIsText(r);
    CStrOfText(Flat(r));
    NewInternalFlat("", r);
  }

  lemma NewMember(m: Member)
    requires WellFormedMember(m)
    ensures NewNode("\"" + m.name, Flat(m.value), false) ==
            match Escape.Unescaped(m.name)
            case Overrun => Overrun
            case Done(plain) => Done(Unfetched(m.value, plain, Escape.Encoded(m.name)))
  {
    var quoted := "\"" + m.name;
    assert quoted[1..] == m.name;
    BodyIsQuoteFree(m.name);
    CStrOfText(m.name);
    NewInternalFlat(m.name, m.value);
  }

  function Elements(items: seq<Raw>): seq<Node> {
    if items == [] then [] else [Unfetched(items[0], "", false)] + Elements(items[1..])
  }

  function Members(members: seq<Member>): Outcome<seq<Node>> {
    if members == [] then Done([])
    else
      match Escape.Unescaped(members[0].name)
      case Overrun => Overrun
      case Done(plain) =>
        match Members(members[1..])
        case Overrun => Overrun
        case Done(rest) => Done([Unfetched(members[0].value, plain, Escape.Encoded(members[0].name))] + rest)
  }

  // Names for the parts of an array text, so that proofs can treat them as units.

  function Enclosing(before: string, piece: string, more: string): string {
    before + piece + more
  }

  function MoreItems(items: seq<Raw>): string {
    if |items| <= 1 then "]" else "," + FlatItems(items[1..]) + "]"
  }

  function RestItems(before: string, items: seq<Raw>): string {
    before + FlatItems(items) + "]"
  }

  function NextItem(before: string, r: Raw): string {
    before + Flat(r) + ","
  }

  lemma ItemsByParts(before: string, items: seq<Raw>)
    requires items != []
    ensures var first, more := Flat(items[0]), MoreItems(items);
            var value, end := RestItems(before, items), |before| + |first|;
            && value == Enclosing(before, first, more)
            && value[|value| - 1] == ']'
            && (if |items| == 1 then end + 1 == |value| else end + 1 < |value|)
            && value[|before|..] == first + more && value[|before|..end] == first
            && (|items| > 1 ==> value == RestItems(NextItem(before, items[0]), items[1..]))
            && |NextItem(before, items[0])| == end + 1
  {
    hide Flat;
    var first, tail := Flat(items[0]), FlatItems(items[1..]);
    if |items| == 1 {
      assert first + "" == first;
    } else {
      Rejoin(before, first, tail, "]");
    }
  }

  lemma ItemFinds(items: seq<Raw>)
    requires items != [] && WellFormed(items[0])
    ensures var first, more := Flat(items[0]), MoreItems(items);
            && Scanner.Find(',', first + more) == (if |items| == 1 then None else Some(|first|))
            && Scanner.Find(':', first) == None
            && NewNode("", first, true) == Done(Unfetched(items[0], "", false))
  {
    hide Scanner.Find, NewNode, Unfetched, Flat, WellFormed;
    var first, more := Flat(items[0]), MoreItems(items);
    FindFlat(',', items[0], more);
    FindChar(',', more[0], more[1..]);
    assert more == [more[0]] + more[1..];
    FindFlat(':', items[0], "");
    FindNothing(':');
    assert first + "" == first;
    NewElement(items[0]);
  }

  lemma ElementsStep(items: seq<Raw>)
    requires items != []
    ensures Done(Kids(Elements(items), false))
         == Cons(Done(Unfetched(items[0], "", false)), Done(Kids(Elements(items[1..]), false)))
    ensures |items| == 1 ==> Elements(items[1..]) == []
  {
    hide Unfetched;
  }

  /** `DoArray` splits an array text at exactly the commas between its elements. */
  lemma {:induction false} ArrayKidsFlat(before: string, items: seq<Raw>)
    requires before != "" && items != [] && forall i | 0 <= i < |items| :: WellFormed(items[i])
    ensures ArrayKids(RestItems(before, items), |before|) == Done(Kids(Elements(items), false))
    decreases |items|
  {
    hide Scanner.Find, NewNode, Unfetched, Flat, WellFormed, SmallKids, SmallNode, Cons, Elements, ArrayKids,
      MoreItems, RestItems, NextItem, Enclosing;
    var value := RestItems(before, items);
    var end := |before| + |Flat(items[0])|;
    ItemsByParts(before, items);
    ItemFinds(items);
    ElementsStep(items);
    ElementTurn(value, |before|, if |items| == 1 then None else Some(end));
    if |items| > 1 {
      ArrayKidsFlat(NextItem(before, items[0]), items[1..]);
    }
  }

  lemma Rejoin(before: string, piece: string, rest: string, close: string)
    ensures before + (piece + ("," + rest)) + close == before + piece + "," + rest + close
    ensures before + (piece + ("," + rest)) + close == before + piece + ("," + rest + close)
  {
  }

  // Names for the parts of an object text, so that proofs can treat them as units.

  function OpenName(m: Member): string {
    "\"" + m.name
  }

  function FromColon(m: Member, more: string): string {
    ":" + (Flat(m.value) + more)
  }

  function FromName(m: Member, more: string): string {
    "\"" + m.name + "\"" + FromColon(m, more)
  }

  function Around(before: string, m: Member, more: string): string {
    before + FlatMember(m) + more
  }

  /** What follows a member: the closing bracket, or a comma and more members. */
  predicate Follows(more: string) {
    more == "}" || (more != "" && more[0] == ',' && |more| > 1 && more[|more| - 1] == '}')
  }

  predicate IsLast(more: string) {
    more == "}"
  }

  /** Where the name, its colon and the value of a member lie. */
  lemma MemberEnds(before: string, m: Member, more: string)
    requires Follows(more)
    ensures var value := Around(before, m, more);
            var nameEnd, end := |before| + |m.name| + 2, |before| + |FlatMember(m)|;
            && nameEnd < end < |value| && value[|value| - 1] == '}' && (if IsLast(more) then end + 1 == |value| else end + 1 < |value|)
            && value[|before|..] == FromName(m, more)
            && value[nameEnd..] == FromColon(m, more)
            && value[|before|..nameEnd - 1] == OpenName(m)
            && nameEnd + 1 + |Flat(m.value)| == end
            && value[nameEnd + 1..end] == Flat(m.value)
  {
    hide Flat;
    var value := Around(before, m, more);
    assert value[|value| - 1] == more[|more| - 1];
  }

  lemma MemberColon(m: Member, more: string)
    requires WellFormedMember(m) && Follows(more)
    ensures Scanner.Find(':', FromName(m, more)) == Some(|m.name| + 2)
    ensures Scanner.Find(',', FromColon(m, more)) == if IsLast(more) then None else Some(1 + |Flat(m.value)|)
  {
    hide Scanner.Find, Flat, WellFormed, Body;
    FindString(':', m.name, FromColon(m, more));
    FindChar(':', ':', Flat(m.value) + more);
    FindChar(',', ':', Flat(m.value) + more);
    FindFlat(',', m.value, more);
    FindChar(',', more[0], more[1..]);
    assert more == [more[0]] + more[1..];
  }

  function WithoutBad(r: Outcome<seq<Node>>): Outcome<Kids> {
    match r
    case Overrun => Overrun
    case Done(nodes) => Done(Kids(nodes, false))
  }

  lemma MembersStep(members: seq<Member>)
    requires members != [] && WellFormedMember(members[0])
    ensures var n := NewNode(OpenName(members[0]), Flat(members[0].value), false);
            WithoutBad(Members(members))
            == if n.Overrun? then Overrun else Cons(n, WithoutBad(Members(members[1..])))
  {
    hide Unfetched, Escape.Unescaped, Escape.Encoded, NewNode, WellFormedMember, Flat;
    NewMember(members[0]);
  }

  /** `ObjectKids` at a member that `more` follows. */
  lemma ObjectKidsMember(before: string, m: Member, more: string)
    requires before != "" && WellFormedMember(m) && Follows(more)
    ensures var value := Around(before, m, more);
            var end := |before| + |FlatMember(m)|;
            var n := NewNode(OpenName(m), Flat(m.value), false);
            && 0 < |before| < |value| && value[|value| - 1] == '}' && (!IsLast(more) ==> end + 1 < |value|)
            && ObjectKids(value, |before|)
               == if n.Overrun? then Overrun
                  else Cons(n, if IsLast(more) then Done(Kids([], false)) else ObjectKids(value, end + 1))
  {
    hide Around, FlatMember, Flat, OpenName, FromName, FromColon, WellFormedMember, Follows, IsLast,
      Scanner.Find, NewNode, Cons, SmallKids, SmallNode, ObjectKids;
    var value := Around(before, m, more);
    var nameEnd, end := |before| + |m.name| + 2, |before| + |FlatMember(m)|;
    var comma := if IsLast(more) then None else Some(end);
    MemberEnds(before, m, more);
    MemberColon(m, more);
    MemberTurn(value, |before|, Some(nameEnd), comma);
  }

  function Next(before: string, m: Member): string {
    before + FlatMember(m) + ","
  }

  function More(members: seq<Member>): string {
    if |members| <= 1 then "}" else "," + FlatMembers(members[1..]) + "}"
  }

  function Rest(before: string, members: seq<Member>): string {
    before + FlatMembers(members) + "}"
  }

  lemma ObjectByParts(before: string, members: seq<Member>)
    requires members != []
    ensures var m, more := members[0], More(members);
            && Rest(before, members) == Around(before, m, more)
            && Follows(more) && IsLast(more) == (|members| == 1)
            && (|members| > 1 ==> Rest(before, members) == Rest(Next(before, m), members[1..]))
            && |Next(before, m)| == |before| + |FlatMember(m)| + 1
            && (|members| == 1 ==> WithoutBad(Members(members[1..])) == Done(Kids([], false)))
  {
    hide FlatMember;
    var first, tail := FlatMember(members[0]), FlatMembers(members[1..]);
    if |members| == 1 {
      assert first + "" == first;
    } else {
      Rejoin(before, first, tail, "}");
    }
  }

  /** `DoNode` splits an object text at exactly its colons and commas. */
  lemma {:induction false} ObjectKidsFlat(before: string, members: seq<Member>)
    requires before != "" && members != [] && forall i | 0 <= i < |members| :: WellFormedMember(members[i])
    ensures ObjectKids(Rest(before, members), |before|) == WithoutBad(Members(members))
    decreases |members|
  {
    hide *;
    var m := members[0];
    ObjectByParts(before, members);
    MembersStep(members);
    ObjectKidsMember(before, m, More(members));
    if |members| > 1 {
      ObjectKidsFlat(Next(before, m), members[1..]);
    }
  }

  // ---------- decoding ----------

  /** The fully fetched node a well-formed text stands for. */
  function Decode(r: Raw, name: string, encoded: bool): Outcome<Node>
    decreases r, 1
  {
    match r
    case Lit(_) => Done(Unfetched(r, name, encoded).(fetched := true))
    case Quoted(body) =>
      (match Escape.Unescaped(body)
       case Overrun => Overrun
       case Done(s) => Done(Node(String, name, encoded, s, Escape.Encoded(body), true, [])))
    case Arr(items) =>
      (match DecodeItems(items)
       case Overrun => Overrun
       case Done(kids) => Done(Node(Array, name, encoded, "", false, true, kids)))
    case Obj(members) =>
      (match DecodeMembers(members)
       case Overrun => Overrun
       case Done(kids) => Done(Node(Object, name, encoded, "", false, true, kids)))
  }

  function DecodeItems(items: seq<Raw>): Outcome<seq<Node>>
    decreases items, 0
  {
    if items == [] then Done([])
    else ConsNode(Decode(items[0], "", false), DecodeItems(items[1..]))
  }

  function ConsNode(n: Outcome<Node>, rest: Outcome<seq<Node>>): Outcome<seq<Node>> {
    if n.Overrun? || rest.Overrun? then Overrun else Done([n.value] + rest.value)
  }

  function DecodeMembers(members: seq<Member>): Outcome<seq<Node>>
    decreases members, 0
  {
    if members == [] then Done([])
    else
      match Escape.Unescaped(members[0].name)
      case Overrun => Overrun
      case Done(name) =>
        ConsNode(Decode(members[0].value, name, Escape.Encoded(members[0].name)), DecodeMembers(members[1..]))
  }

  /** The escapes of every string can be read and give NUL-free bytes. */
  predicate Decodable(b: string) {
    var r := Escape.Unescaped(b);
    r.Done? && Bytes(r.value) && NulFree(r.value)
  }

  predicate AllDecodable(r: Raw) {
    match r
    case Lit(_) => true
    case Quoted(body) => Decodable(body)
    case Arr(items) => forall i | 0 <= i < |items| :: AllDecodable(items[i])
    case Obj(members) => forall i | 0 <= i < |members| :: Decodable(members[i].name) && AllDecodable(members[i].value)
  }

  /** All children preparsed, whether they stand in a node or in a list. */
  function PreparseAll(kids: seq<Node>): Outcome<seq<Node>> {
    if kids == [] then Done([]) else ConsNode(Preparse(kids[0]), PreparseAll(kids[1..]))
  }

  lemma {:induction false} PreparseKidsIsAll(n: Node, i: nat)
    requires Fetch(n).Done? && i <= |Fetch(n).value.kids|
    ensures PreparseKids(n, i) == PreparseAll(Fetch(n).value.kids[i..])
    decreases |Fetch(n).value.kids| - i
  {
    hide Fetch, Preparse;
    var kids := Fetch(n).value.kids;
    if i < |kids| {
      PreparseKidsIsAll(n, i + 1);
      assert kids[i..][0] == kids[i] && kids[i..][1..] == kids[i + 1..];
    }
  }

  lemma PreparseByParts(n: Node)
    requires Fetch(n).Done? && Container(Fetch(n).value)
    ensures var f := Fetch(n).value;
            Preparse(n) == match PreparseAll(f.kids)
                           case Overrun => Overrun
                           case Done(kids) => Done(f.(kids := kids))
  {
    hide Fetch;
    PreparseKidsIsAll(n, 0);
    assert Fetch(n).value.kids[0..] == Fetch(n).value.kids;
  }

  /** Fetching a well-formed container gives exactly its members, unfetched. */
  lemma FetchArray(r: Raw, name: string, encoded: bool)
    requires r.Arr? && WellFormed(r)
    ensures Fetch(Unfetched(r, name, encoded)) == Done(Node(Array, name, encoded, "", false, true, Elements(r.items)))
  {
    hide Unfetched, Elements;
    var text := Flat(r);
    assert text[|text| - 1] == ']';
    if r.items != [] {
      FlatItemsIsText(r.items);
      assert text == RestItems("[", r.items);
      ArrayKidsFlat("[", r.items);
    }
    assert DoArray(text) == Done(Kids(Elements(r.items), false)) by {
      assert r.items == [] ==> Elements(r.items) == [] by { NoElements(); }
    }
    ArrayNode(r, name, encoded);
    FetchArrayKids(Unfetched(r, name, encoded));
  }

  lemma NoElements()
    ensures Elements([]) == []
  {
  }

  lemma ArrayNode(r: Raw, name: string, encoded: bool)
    requires r.Arr?
    ensures Unfetched(r, name, encoded) == Node(Array, name, encoded, Flat(r), false, false, [])
  {
  }

  lemma FetchArrayKids(n: Node)
    requires n.kind == Array && !n.fetched && n.kids == [] && Bracketed(n.text, '[', ']')
    ensures Fetch(n) == match DoArray(n.text)
                        case Overrun => Overrun
                        case Done(k) =>
                          Done(Node(if k.bad then Null else Array, n.name, n.nameEncoded, "", n.textEncoded, true, k.nodes))
  {
    hide DoArray;
    var r := DoArray(n.text);
    if r.Done? {
      assert [] + r.value.nodes == r.value.nodes;
    }
  }

  lemma FetchObject(r: Raw, name: string, encoded: bool)
    requires r.Obj? && WellFormed(r)
    ensures Fetch(Unfetched(r, name, encoded)) ==
            match Members(r.members)
            case Overrun => Overrun
            case Done(kids) => Done(Node(Kind.Object, name, encoded, "", false, true, kids))
  {
    hide Escape.Unescaped, Escape.Encoded, Unfetched, WellFormedMember;
    var text := Flat(r);
    assert text[|text| - 1] == '}';
    if r.members != [] {
      FlatMembersIsText(r.members);
      assert text == Rest("{", r.members);
      ObjectKidsFlat("{", r.members);
    }
    assert DoNode(text) == WithoutBad(Members(r.members));
    ObjectNode(r, name, encoded);
    FetchNodeKids(Unfetched(r, name, encoded));
  }

  lemma ObjectNode(r: Raw, name: string, encoded: bool)
    requires r.Obj?
    ensures Unfetched(r, name, encoded) == Node(Kind.Object, name, encoded, Flat(r), false, false, [])
  {
  }

  lemma FetchNodeKids(n: Node)
    requires n.kind == Kind.Object && !n.fetched && n.kids == [] && Bracketed(n.text, '{', '}')
    ensures Fetch(n) == match DoNode(n.text)
                        case Overrun => Overrun
                        case Done(k) =>
                          Done(Node(if k.bad then Null else Kind.Object, n.name, n.nameEncoded, "", n.textEncoded, true, k.nodes))
  {
    hide DoNode;
    var r := DoNode(n.text);
    if r.Done? {
      assert [] + r.value.nodes == r.value.nodes;
    }
  }

  lemma PreparseLeaf(r: Raw, name: string, encoded: bool)
    requires r.Lit? || r.Quoted?
    ensures Preparse(Unfetched(r, name, encoded)) == Decode(r, name, encoded)
  {
    hide Escape.Unescaped, Escape.Encoded;
    if r.Quoted? {
      assert Flat(r)[1..|Flat(r)| - 1] == r.body;
    }
  }

  /** Preparsing a well-formed text gives the node it stands for. */
  lemma {:induction false} PreparseFlat(r: Raw, name: string, encoded: bool)
    requires WellFormed(r)
    ensures Preparse(Unfetched(r, name, encoded)) == Decode(r, name, encoded)
    decreases r, 1
  {
    if r.Lit? || r.Quoted? {
      PreparseLeaf(r, name, encoded);
    } else if r.Arr? {
      PreparseArray(r, name, encoded);
    } else {
      PreparseObject(r, name, encoded);
    }
  }

  lemma {:induction false} PreparseArray(r: Raw, name: string, encoded: bool)
    requires r.Arr? && WellFormed(r)
    ensures Preparse(Unfetched(r, name, encoded)) == Decode(r, name, encoded)
    decreases r, 0
  {
    hide Preparse, Fetch, Elements, Unfetched, PreparseAll, DecodeItems;
    FetchArray(r, name, encoded);
    PreparseByParts(Unfetched(r, name, encoded));
    PreparseItems(r.items);
  }

  lemma {:induction false} PreparseItems(items: seq<Raw>)
    requires forall i | 0 <= i < |items| :: WellFormed(items[i])
    ensures PreparseAll(Elements(items)) == DecodeItems(items)
    decreases items, 0
  {
    hide Preparse, Unfetched, Decode;
    if items != [] {
      PreparseFlat(items[0], "", false);
      PreparseItems(items[1..]);
      var first := Unfetched(items[0], "", false);
      assert Elements(items)[0] == first && Elements(items)[1..] == Elements(items[1..]);
    }
  }

  lemma {:induction false} PreparseObject(r: Raw, name: string, encoded: bool)
    requires r.Obj? && WellFormed(r)
    ensures Preparse(Unfetched(r, name, encoded)) == Decode(r, name, encoded)
    decreases r, 0
  {
    hide Fetch, Members, Unfetched, PreparseAll, DecodeMembers, WellFormedMember;
    var n := Unfetched(r, name, encoded);
    FetchObject(r, name, encoded);
    PreparseMembers(r.members);
    if Members(r.members).Done? {
      hide Preparse;
      PreparseByParts(n);
    }
  }

  lemma {:induction false} PreparseMembers(members: seq<Member>)
    requires forall i | 0 <= i < |members| :: WellFormedMember(members[i])
    ensures DecodeMembers(members) ==
            match Members(members)
            case Overrun => Overrun
            case Done(kids) => PreparseAll(kids)
    decreases members, 0
  {
    hide Preparse, Unfetched, Decode, Escape.Unescaped, Escape.Encoded;
    if members != [] {
      var m := members[0];
      PreparseMembers(members[1..]);
      match Escape.Unescaped(m.name)
      case Overrun =>
      case Done(name) =>
        PreparseFlat(m.value, name, Escape.Encoded(m.name));
        if Members(members[1..]).Done? {
          var kids := Members(members).value;
          assert kids[0] == Unfetched(m.value, name, Escape.Encoded(m.name));
          assert kids[1..] == Members(members[1..]).value;
        }
    }
  }
}
