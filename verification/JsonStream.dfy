/** The document splitter of JSONStream.cpp, which cuts complete documents out of
    bytes that arrive in arbitrary pieces. */
module JsonStream {
  import opened Text
  import opened Scanner
  import opened JsonRoundTrip

  function FirstOpen(s: string): (r: Option<nat>)
    ensures r.Some? ==> r.value < |s| && s[r.value] in "{["
    ensures r.Some? ==> forall i | 0 <= i < r.value :: s[i] !in "{["
    ensures r.None? ==> forall i | 0 <= i < |s| :: s[i] !in "{["
  {
    if s == "" then None
    else if s[0] in "{[" then Some(0)
    else Shift(1, FirstOpen(s[1..]))
  }

  function Closer(open: char): char {
    if open == '[' then ']' else '}'
  }

  /** Where the first document of `s` lies: its first and one past its last index. */
  function FirstDocument(s: string): (r: Option<(nat, nat)>)
    ensures r.Some? ==> r.value.0 + 1 < r.value.1 <= |s|
  {
    match FirstOpen(s)
    case None => None
    case Some(pos) =>
      match Find(Closer(s[pos]), s[pos + 1..])
      case None => None
      case Some(k) => Some((pos, pos + k + 2))
  }

  /** The documents `parse` hands to the callback, and the buffer it leaves;
      `retry` is what the callback answers. */
  function Split(s: string, retry: string -> bool): (r: (seq<string>, string))
    decreases |s|
  {
    match FirstDocument(s)
    case None => ([], s)
    case Some((from, to)) =>
      var doc, rest := s[from..to], s[to..];
      if retry(doc) then
        var (docs, left) := Split(rest, retry);
        ([doc] + docs, left)
      else ([doc], rest)
  }

  lemma SplitStep(s: string, retry: string -> bool)
    ensures FirstOpen(s).None? ==> Split(s, retry) == ([], s)
    ensures FirstOpen(s).Some? ==>
              var pos := FirstOpen(s).value;
              match Find(Closer(s[pos]), s[pos + 1..])
              case None => Split(s, retry) == ([], s)
              case Some(k) =>
                var doc, rest := s[pos..pos + k + 2], s[pos + k + 2..];
                Split(s, retry) ==
                if retry(doc) then ([doc] + Split(rest, retry).0, Split(rest, retry).1) else ([doc], rest)
  {
    hide FirstOpen, Find;
  }

  /** The stream object. `emitted` records the calls of the document callback. */
  class Stream {
    var buffer: string
    var state: bool
    ghost var emitted: seq<string>
    const call: string -> bool

    constructor (call: string -> bool)
      ensures buffer == "" && state && emitted == [] && this.call == call
    {
      buffer, state, emitted := "", true, [];
      this.call := call;
    }

    /** `parse`: calls itself again as long as the callback asks for more. */
    method Parse()
      modifies this
      ensures state == old(state)
      ensures var (docs, left) := Split(old(buffer), call); emitted == old(emitted) + docs && buffer == left
      decreases |buffer|
    {
      hide FirstOpen, Find, Split;
      SplitStep(buffer, call);
      var open := FirstOpen(buffer);
      if open.None? {
        assert emitted == emitted + [];
        return;
      }
      var pos := open.value;
      var end := FindNextRelevant(Closer(buffer[pos]), buffer, pos + 1);
      if end.None? {
        assert emitted == emitted + [];
        return;
      }
      var doc := buffer[pos..end.value + 1];
      var retry := call(doc);
      emitted := emitted + [doc];
      buffer := buffer[end.value + 1..];
      if retry {
        ghost var docs := Split(buffer, call).0;
        Parse();
        assert old(emitted) + [doc] + docs == old(emitted) + ([doc] + docs);
      }
    }

    method Push(data: string)
      modifies this
      ensures state == old(state)
      ensures if state then
                var (docs, left) := Split(old(buffer) + data, call);
                emitted == old(emitted) + docs && buffer == left
              else buffer == old(buffer) && emitted == old(emitted)
    {
      if state {
        buffer := buffer + data;
        Parse();
      }
    }
  }

  // ---------- nothing is lost ----------

  /** Documents with what was passed over in front of each. */
  function Woven(fillers: seq<string>, docs: seq<string>): string
    requires |fillers| == |docs|
  {
    if docs == [] then "" else fillers[0] + docs[0] + Woven(fillers[1..], docs[1..])
  }

  predicate OpensAndCloses(d: string) {
    |d| >= 2 && ((d[0] == '{' && d[|d| - 1] == '}') || (d[0] == '[' && d[|d| - 1] == ']'))
  }

  /** The text is the documents handed on, what was passed over in front of each of them,
      and the buffer left. Only about the last can the callback have answered no; if it
      did not, there is no further document in the buffer. */
  lemma {:induction false} SplitConserves(s: string, retry: string -> bool) returns (fillers: seq<string>)
    ensures var (docs, left) := Split(s, retry);
            && |fillers| == |docs| && s == Woven(fillers, docs) + left
            && (forall i | 0 <= i < |docs| :: OpensAndCloses(docs[i]) && '{' !in fillers[i] && '[' !in fillers[i])
            && (forall i | 0 <= i < |docs| - 1 :: retry(docs[i]))
            && (docs == [] || retry(docs[|docs| - 1]) ==> FirstDocument(left).None?)
    decreases |s|
  {
    hide Split, Find, FirstOpen, OpensAndCloses, Woven;
    SplitByDocument(s, retry);
    NothingWoven();
    fillers := [];
    match FirstDocument(s)
    case None =>
      assert "" + s == s;
    case Some((from, to)) =>
      var filler, doc, rest := s[..from], s[from..to], s[to..];
      DocumentCloses(s);
      assert s == filler + doc + rest;
      hide FirstDocument;
      if retry(doc) {
        var more := SplitConserves(rest, retry);
        var (docs, left) := Split(rest, retry);
        fillers := [filler] + more;
        WovenStep(filler, doc, more, docs, left);
      } else {
        fillers := [filler];
        WovenStep(filler, doc, [], [], rest);
        assert [filler] + [] == [filler] && [doc] + [] == [doc] && "" + rest == rest;
      }
  }

  lemma SplitByDocument(s: string, retry: string -> bool)
    ensures FirstDocument(s).None? ==> Split(s, retry) == ([], s)
    ensures FirstDocument(s).Some? ==>
              var (from, to) := FirstDocument(s).value;
              var doc, more := s[from..to], Split(s[to..], retry);
              Split(s, retry) == if retry(doc) then ([doc] + more.0, more.1) else ([doc], s[to..])
  {
    hide FirstDocument;
  }

  lemma NothingWoven()
    ensures Woven([], []) == ""
  {
  }

  lemma DocumentCloses(s: string)
    requires FirstDocument(s).Some?
    ensures var (from, to) := FirstDocument(s).value;
            from < to <= |s| && OpensAndCloses(s[from..to]) && '{' !in s[..from] && '[' !in s[..from]
  {
    var pos := FirstOpen(s).value;
    assert Find(Closer(s[pos]), s[pos + 1..]).Some?;
    hide Find;
  }

  lemma WovenStep(filler: string, doc: string, fillers: seq<string>, docs: seq<string>, left: string)
    requires |fillers| == |docs|
    ensures Woven([filler] + fillers, [doc] + docs) + left == filler + doc + (Woven(fillers, docs) + left)
  {
    assert ([filler] + fillers)[1..] == fillers && ([doc] + docs)[1..] == docs;
  }

  // ---------- a found document stays found when more bytes arrive ----------

  lemma {:induction false} QuoteExtends(s: string, t: string)
    requires SkipQuote(s).Some?
    ensures SkipQuote(s + t) == SkipQuote(s)
  {
    if s[0] != '\"' {
      assert (s + t)[1..] == s[1..] + t;
      QuoteExtends(s[1..], t);
    }
  }

  lemma {:induction false} BracketExtends(left: char, right: char, s: string, depth: nat, t: string)
    requires SkipBracket(left, right, s, depth).Some?
    ensures SkipBracket(left, right, s + t, depth) == SkipBracket(left, right, s, depth)
    decreases |s|
  {
    if depth > 0 {
      assert (s + t)[1..] == s[1..] + t;
      if s[0] == right {
        BracketExtends(left, right, s[1..], depth - 1, t);
      } else if s[0] == left {
        BracketExtends(left, right, s[1..], depth + 1, t);
      } else if s[0] == '\"' {
        var k := SkipQuote(s[1..]).value;
        QuoteExtends(s[1..], t);
        assert (s + t)[1 + k..] == s[1 + k..] + t;
        BracketExtends(left, right, s[1 + k..], depth, t);
      } else {
        BracketExtends(left, right, s[1..], depth, t);
      }
    }
  }

  lemma SkipOneExtends(s: string, t: string)
    requires !AtEnd(s) && SkipOne(s).Some?
    ensures SkipOne(s + t) == SkipOne(s)
  {
    hide SkipBracket, SkipQuote;
    assert (s + t)[1..] == s[1..] + t;
    if s[0] == '[' {
      BracketExtends('[', ']', s[1..], 1, t);
    } else if s[0] == '{' {
      BracketExtends('{', '}', s[1..], 1, t);
    } else if s[0] == '\"' {
      QuoteExtends(s[1..], t);
    }
  }

  lemma {:induction false} FindExtends(ch: char, s: string, t: string)
    requires Find(ch, s).Some?
    ensures Find(ch, s + t) == Find(ch, s)
    decreases |s|
  {
    if s[0] != ch {
      hide SkipOne;
      SkipOneExtends(s, t);
      var k := SkipOne(s).value;
      assert (s + t)[k..] == s[k..] + t;
      FindExtends(ch, s[k..], t);
    }
  }

  lemma {:induction false} OpenExtends(s: string, t: string)
    requires FirstOpen(s).Some?
    ensures FirstOpen(s + t) == FirstOpen(s)
  {
    if s[0] !in "{[" {
      assert (s + t)[1..] == s[1..] + t;
      OpenExtends(s[1..], t);
    }
  }

  lemma DocumentExtends(s: string, t: string)
    requires FirstDocument(s).Some?
    ensures FirstDocument(s + t) == FirstDocument(s)
  {
    hide FirstOpen, Find;
    OpenExtends(s, t);
    var pos := FirstOpen(s).value;
    assert (s + t)[pos + 1..] == s[pos + 1..] + t;
    FindExtends(Closer(s[pos]), s[pos + 1..], t);
  }

  ghost predicate Always(retry: string -> bool) {
    forall doc :: retry(doc)
  }

  /** Splitting two pieces one after the other is splitting them together. */
  lemma {:induction false} SplitConcat(s: string, t: string, retry: string -> bool)
    requires Always(retry)
    ensures var (d1, left) := Split(s, retry);
            var (d2, left') := Split(left + t, retry);
            Split(s + t, retry) == (d1 + d2, left')
    decreases |s|
  {
    hide FirstDocument;
    if FirstDocument(s).None? {
      assert [] + Split(s + t, retry).0 == Split(s + t, retry).0;
    } else {
      DocumentExtends(s, t);
      var (from, to) := FirstDocument(s).value;
      assert (s + t)[from..to] == s[from..to] && (s + t)[to..] == s[to..] + t;
      SplitConcat(s[to..], t, retry);
      var (d1, left) := Split(s[to..], retry);
      assert [s[from..to]] + d1 + Split(left + t, retry).0 == [s[from..to]] + (d1 + Split(left + t, retry).0);
    }
  }

  function Concat(chunks: seq<string>): string {
    if chunks == [] then "" else chunks[0] + Concat(chunks[1..])
  }

  /** What pushing the chunks one by one emits and leaves, starting from `buffer`. */
  function PushAll(buffer: string, chunks: seq<string>, retry: string -> bool): (seq<string>, string)
    decreases |chunks|
  {
    if chunks == [] then ([], buffer)
    else
      var (d1, left) := Split(buffer + chunks[0], retry);
      var (d2, left') := PushAll(left, chunks[1..], retry);
      (d1 + d2, left')
  }

  /** However the bytes are cut into chunks, the stream emits the same documents
      and ends with the same buffer as if they had come in one piece. */
  lemma {:induction false} ChunksDoNotMatter(buffer: string, chunks: seq<string>, retry: string -> bool)
    requires Always(retry) && Split(buffer, retry) == ([], buffer)
    ensures PushAll(buffer, chunks, retry) == Split(buffer + Concat(chunks), retry)
    decreases |chunks|
  {
    hide Split;
    if chunks == [] {
      assert buffer + "" == buffer;
    } else {
      var tail := Concat(chunks[1..]);
      var s := buffer + chunks[0];
      var (d1, left) := Split(s, retry);
      assert s + tail == buffer + Concat(chunks);
      SplitConcat(s, tail, retry);
      SplitIsDone(s, retry);
      ChunksDoNotMatter(left, chunks[1..], retry);
    }
  }

  /** Nothing is left to split in the buffer a push leaves behind. */
  lemma {:induction false} SplitIsDone(s: string, retry: string -> bool)
    requires Always(retry)
    ensures var left := Split(s, retry).1; Split(left, retry) == ([], left)
    decreases |s|
  {
    hide FirstDocument;
    if FirstDocument(s).Some? {
      SplitIsDone(s[FirstDocument(s).value.1..], retry);
    }
  }

  // ---------- exactly the documents that were sent ----------

  /** A document the scanner can delimit: brackets nested inside, read without
      knowledge of escaped quotes. */
  predicate Document(d: string) {
    |d| >= 2 && d[0] in "{[" && d[|d| - 1] == Closer(d[0]) && Lex(Outside, d[1..|d| - 1]) == Outside
  }

  predicate Filler(s: string) {
    forall i | 0 <= i < |s| :: s[i] !in "{["
  }

  /** What is sent: each document with the filler in front of it. */
  function Sent(items: seq<(string, string)>): string {
    if items == [] then "" else items[0].0 + items[0].1 + Sent(items[1..])
  }

  function Documents(items: seq<(string, string)>): seq<string> {
    if items == [] then [] else [items[0].1] + Documents(items[1..])
  }

  lemma {:induction false} OpenAfterFiller(filler: string, s: string)
    requires Filler(filler) && s != "" && s[0] in "{["
    ensures FirstOpen(filler + s) == Some(|filler|)
  {
    if filler == "" {
      assert filler + s == s;
    } else {
      assert (filler + s)[1..] == filler[1..] + s;
      OpenAfterFiller(filler[1..], s);
    }
  }

  lemma CloserFound(inner: string, close: char, rest: string)
    requires Lex(Outside, inner) == Outside && close in "]}"
    ensures Find(close, inner + ([close] + rest)) == Some(|inner|)
  {
    var s := inner + ([close] + rest);
    LexSplit(Outside, s, |inner|);
    assert s[..|inner|] == inner && s[|inner|..] == [close] + rest;
    assert Lex(Outside, s) == Closed by {
      assert ([close] + rest)[1..] == rest;
      StuckLex(Closed, rest);
    }
    hide Find;
    FindIsFirstOutside(close, s);
    forall j | 0 <= j < |inner| ensures !Wanted(close, s, j) {
      if Wanted(close, s, j) {
        assert s[..j] == inner[..j];
        LexSplit(Outside, inner, j);
        assert inner[j..][0] == close;
        StuckLex(Closed, inner[j..][1..]);
      }
    }
    assert Wanted(close, s, |inner|);
  }

  lemma DocumentFound(filler: string, d: string, rest: string)
    requires Filler(filler) && Document(d)
    ensures FirstDocument(filler + d + rest) == Some((|filler|, |filler| + |d|))
  {
    hide FirstOpen, Find, Lex;
    var s := filler + d + rest;
    var inner, close := d[1..|d| - 1], Closer(d[0]);
    assert s == filler + (d + rest);
    OpenAfterFiller(filler, d + rest);
    CloserFound(inner, close, rest);
    assert s[|filler| + 1..] == inner + ([close] + rest);
  }

  lemma {:induction false} NothingInFiller(s: string, retry: string -> bool)
    requires Filler(s)
    ensures Split(s, retry) == ([], s)
  {
  }

  lemma {:induction false} SplitSent(items: seq<(string, string)>, tail: string, retry: string -> bool)
    requires Always(retry) && Filler(tail)
    requires forall i | 0 <= i < |items| :: Filler(items[i].0) && Document(items[i].1)
    ensures Split(Sent(items) + tail, retry) == (Documents(items), tail)
    decreases |items|
  {
    hide FirstDocument, Document;
    if items == [] {
      assert "" + tail == tail;
      NothingInFiller(tail, retry);
    } else {
      var (filler, d) := items[0];
      var rest := Sent(items[1..]) + tail;
      var s := filler + d + rest;
      assert Sent(items) + tail == s;
      DocumentFound(filler, d, rest);
      assert s[|filler|..|filler| + |d|] == d && s[|filler| + |d|..] == rest;
      SplitSent(items[1..], tail, retry);
    }
  }

  /** Any documents, separated by anything without opening brackets and sent in any
      chunks, are emitted exactly and in order. */
  lemma DocumentsArrive(items: seq<(string, string)>, tail: string, chunks: seq<string>, retry: string -> bool)
    requires Always(retry) && Filler(tail)
    requires forall i | 0 <= i < |items| :: Filler(items[i].0) && Document(items[i].1)
    requires Concat(chunks) == Sent(items) + tail
    ensures PushAll("", chunks, retry) == (Documents(items), tail)
  {
    hide Split;
    NothingInFiller("", retry);
    ChunksDoNotMatter("", chunks, retry);
    SplitSent(items, tail, retry);
    assert "" + Concat(chunks) == Concat(chunks);
  }

  // ---------- which JSON texts are such documents ----------

  lemma {:induction false} LexConcat(m: Place, a: string, b: string)
    ensures Lex(m, a + b) == Lex(Lex(m, a), b)
  {
    LexSplit(m, a + b, |a|);
    assert (a + b)[..|a|] == a && (a + b)[|a|..] == b;
  }

  lemma {:induction false} LexPlain(stack: string, t: string)
    requires Plain(t)
    ensures Lex(In(stack, false), t) == In(stack, false)
  {
    if t != "" {
      PlainCharIsOther(t[0]);
      LexPlain(stack, t[1..]);
    }
  }

  lemma {:induction false} LexBody(stack: string, b: string)
    requires QuoteFree(b)
    ensures Lex(In(stack, true), b) == In(stack, true)
  {
    if b != "" { LexBody(stack, b[1..]); }
  }

  lemma LexChar(m: Place, c: char)
    ensures Lex(m, [c]) == Step(m, c)
  {
    assert [c][1..] == "";
  }

  lemma LexString(stack: string, b: string)
    requires Body(b)
    ensures Lex(In(stack, false), "\"" + b + "\"") == In(stack, false)
  {
    var m := In(stack, false);
    BodyIsQuoteFree(b);
    LexChar(m, '\"');
    LexChar(In(stack, true), '\"');
    LexBody(stack, b);
    hide Lex;
    LexConcat(m, "\"", b);
    LexConcat(m, "\"" + b, "\"");
  }

  lemma LexAround(stack: string, open: char, close: char, inner: string)
    requires Kind(open, close) && Lex(In(stack + [close], false), inner) == In(stack + [close], false)
    ensures Lex(In(stack, false), [open] + inner + [close]) == In(stack, false)
  {
    var m := In(stack, false);
    LexChar(m, open);
    LexChar(In(stack + [close], false), close);
    assert (stack + [close])[..|stack|] == stack;
    hide Lex;
    LexConcat(m, [open], inner);
    LexConcat(m, [open] + inner, [close]);
  }

  /** The lexer passes over every well-formed normalised text. */
  lemma {:induction false} LexFlat(stack: string, r: Raw)
    requires WellFormed(r)
    ensures Lex(In(stack, false), Flat(r)) == In(stack, false)
    decreases r, 1
  {
    hide Lex, FlatItems, FlatMembers, Body, Literal;
    match r
    case Lit(t) =>
      LiteralIsPlain(t);
      LexPlain(stack, t);
    case Quoted(b) =>
      LexString(stack, b);
    case Arr(items) =>
      LexItems(stack + "]", items);
      LexAround(stack, '[', ']', FlatItems(items));
    case Obj(members) =>
      LexMembers(stack + "}", members);
      LexAround(stack, '{', '}', FlatMembers(members));
  }

  lemma {:induction false} LexItems(stack: string, items: seq<Raw>)
    requires forall i | 0 <= i < |items| :: WellFormed(items[i])
    ensures Lex(In(stack, false), FlatItems(items)) == In(stack, false)
    decreases items, 0
  {
    var m := In(stack, false);
    LexChar(m, ',');
    assert Lex(m, "") == m;
    hide Lex, Flat;
    if items != [] {
      var first, tail := Flat(items[0]), FlatItems(items[1..]);
      LexFlat(stack, items[0]);
      LexItems(stack, items[1..]);
      LexConcat(m, ",", tail);
      LexConcat(m, first, if |items| == 1 then "" else "," + tail);
    }
  }

  lemma {:induction false} LexMembers(stack: string, members: seq<Member>)
    requires forall i | 0 <= i < |members| :: WellFormedMember(members[i])
    ensures Lex(In(stack, false), FlatMembers(members)) == In(stack, false)
    decreases members, 0
  {
    var m := In(stack, false);
    LexChar(m, ',');
    LexChar(m, ':');
    assert Lex(m, "") == m;
    hide Lex, Flat;
    if members != [] {
      var name, value := members[0].name, Flat(members[0].value);
      var tail := FlatMembers(members[1..]);
      LexString(stack, name);
      LexFlat(stack, members[0].value);
      LexConcat(m, "\"" + name + "\"", ":");
      assert FlatName(name) == "\"" + name + "\"" + ":";
      LexConcat(m, FlatName(name), value);
      LexMembers(stack, members[1..]);
      LexConcat(m, ",", tail);
      LexConcat(m, FlatMember(members[0]), if |members| == 1 then "" else "," + tail);
    }
  }

  /** Every well-formed array or object without escaped quotes is a document. */
  lemma FlatIsDocument(r: Raw)
    requires WellFormed(r) && (r.Arr? || r.Obj?)
    ensures Document(Flat(r))
  {
    hide Lex;
    if r.Arr? {
      LexItems("", r.items);
      assert Flat(r)[1..|Flat(r)| - 1] == FlatItems(r.items);
    } else {
      LexMembers("", r.members);
      assert Flat(r)[1..|Flat(r)| - 1] == FlatMembers(r.members);
    }
  }

  /** A bracketed text that closes its own kinds is cut out whole exactly when the
      lexer, which knows no escapes, stays outside strings at its last bracket. */
  lemma CutWholeIffDocument(d: string)
    requires |d| >= 2 && d[0] in "{[" && d[|d| - 1] == Closer(d[0]) && Lex(Outside, d[1..]) != Broken
    ensures FirstDocument(d) == Some((0, |d|)) <==> Document(d)
  {
    hide Find, Lex;
    assert "" + d + "" == d;
    if Document(d) {
      DocumentFound("", d, "");
    }
    if FirstDocument(d) == Some((0, |d|)) {
      FindIsFirstOutside(Closer(d[0]), d[1..]);
      assert Wanted(Closer(d[0]), d[1..], |d| - 2);
      assert d[1..][..|d| - 2] == d[1..|d| - 1];
    }
  }

  /** The stream scans text that is not normalised, so an escaped quote ends a
      string for it: the object with the string `"}` is cut off inside the string. */
  lemma EscapedQuoteCutsDocument(s: string)
    requires s == "{\"\\\"}\"}"
    ensures FirstDocument(s) == Some((0, 5)) && !Document(s)
  {
    var t := s[1..];
    assert t == "\"\\\"}\"}";
    assert t[1..][0] == '\\' && t[1..][1..][0] == '\"';
    assert SkipQuote(t[1..]) == Some(2);
    assert SkipOne(t) == Some(3);
    assert t[3..][0] == '}';
    assert Find('}', t[3..]) == Some(0);
    assert Find('}', t) == Some(3);
    if Document(s) {
      assert s == "" + s + "";
      DocumentFound("", s, "");
    }
  }
}
