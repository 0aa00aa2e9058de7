/** The multipart form parser of dep/MPFDParser/Parser.cpp, for text fields. */
module Multipart {
  import opened Text

  datatype Status = LookingForStartingBoundary | ProcessingHeaders | ProcessingContentOfTheField

  datatype Field = Field(name: string, content: string)

  /** How processing can end early: an exception, the use of a field that is not
      there, or a file field, which is not part of this model. */
  datatype Stop = Threw | NoField | FileField

  datatype Result<T> = Ok(value: T) | Stopped(why: Stop)

  /** `boundary` starts with the two hyphens; `current` is the name of the field whose
      content is awaited. */
  datatype Parser = Parser(boundary: string, status: Status, data: string, current: Option<string>, fields: seq<Field>)

  // ---------- searching ----------

  predicate OccursAt(sub: string, s: string, i: nat) {
    i + |sub| <= |s| && s[i..i + |sub|] == sub
  }

  /** `std::string::find` from a position on, and the two search loops of the parser. */
  function Find(sub: string, s: string, from: nat): (r: Option<nat>)
    requires from <= |s|
    ensures r.Some? ==> from <= r.value && OccursAt(sub, s, r.value)
    ensures r.Some? ==> (forall i: nat | from <= i < r.value :: !OccursAt(sub, s, i))
    ensures r.None? ==> (forall i: nat | from <= i :: !OccursAt(sub, s, i))
    decreases |s| - from
  {
    if OccursAt(sub, s, from) then Some(from) else if from == |s| then None else Find(sub, s, from + 1)
  }

  lemma FoundAt(sub: string, s: string, from: nat, at: nat)
    requires from <= at && OccursAt(sub, s, at)
    requires forall i: nat | from <= i < at :: !OccursAt(sub, s, i)
    ensures Find(sub, s, from) == Some(at)
  {
  }

  lemma NotFound(sub: string, s: string, from: nat)
    requires from <= |s| && forall i: nat | from <= i :: !OccursAt(sub, s, i)
    ensures Find(sub, s, from) == None
  {
  }

  // ---------- the steps ----------

  const CRLF := "\r\n"
  const BLANK_LINE := "\r\n\r\n"
  const DISPOSITION := "Content-Disposition: form-data;"
  const NAME_IS := "name=\""
  const FILENAME_IS := "filename=\""

  /** `_ParseHeaders`: the name of a text field. */
  function FieldName(headers: string): Result<string> {
    if Find(DISPOSITION, headers, 0).None? then Stopped(Threw)
    else
      match Find(NAME_IS, headers, 0)
      case None => Stopped(Threw)
      case Some(pos) =>
        match Find("\"", headers, pos + |NAME_IS|)
        case None => Stopped(Threw)
        case Some(end) =>
          match Find(FILENAME_IS, headers, 0)
          case None => Ok(headers[pos + |NAME_IS|..end])
          case Some(file) =>
            Stopped(if Find("\"", headers, file + |FILENAME_IS|).None? then Threw else FileField)
  }

  /** One turn of `_ProcessData`; None when more data is needed. */
  function Turn(p: Parser): (r: Result<Option<Parser>>)
    requires p.boundary != ""
    ensures r.Ok? && r.value.Some? ==>
              var q := r.value.value;
              q.boundary == p.boundary
              && (|q.data| < |p.data|
                  || (q.data == p.data && p.status == ProcessingContentOfTheField && q.status == LookingForStartingBoundary))
  {
    match p.status
    case LookingForStartingBoundary =>
      (match Find(p.boundary, p.data, 0)
       case None => Ok(None)
       case Some(n) => Ok(Some(p.(status := ProcessingHeaders, data := p.data[n + |p.boundary|..]))))
    case ProcessingHeaders =>
      (match Find(BLANK_LINE, p.data, 0)
       case None => Ok(None)
       case Some(i) =>
         match FieldName(CStr(p.data[..i]))
         case Stopped(why) => Stopped(why)
         case Ok(name) =>
           Ok(Some(p.(status := ProcessingContentOfTheField, data := p.data[i + 4..], current := Some(name)))))
    case ProcessingContentOfTheField =>
      match Find(p.boundary, p.data, 0)
      case Some(at) =>
        (match Collected(p, at - 2)
         case Stopped(why) => Stopped(why)
         case Ok(q) => Ok(Some(q.(status := LookingForStartingBoundary))))
      case None => if Collected(p, Partial(p)).Ok? then Ok(None) else Stopped(NoField)
  }

  /** How much content is taken when no boundary is in sight. */
  function Partial(p: Parser): int {
    if |p.data| < |p.boundary| + 2 then |p.data| - 2 else |p.data| - (|p.boundary| + 2)
  }

  /** Hands `n` bytes to the current field and files it; without bytes the field is
      neither filed nor forgotten. */
  function Collected(p: Parser, n: int): (r: Result<Parser>)
    requires n <= |p.data|
    ensures r.Ok? ==> r.value.boundary == p.boundary && if n > 0 then |r.value.data| < |p.data| else r.value == p
  {
    if n <= 0 then Ok(p)
    else if p.current.None? then Stopped(NoField)
    else
      Ok(p.(fields := p.fields + [Field(p.current.value, CStr(p.data[..n]))], current := None, data := p.data[n..]))
  }

  /** Where `_ProcessData` leaves the parser. */
  function Processed(p: Parser): (r: Result<Parser>)
    requires p.boundary != ""
    decreases |p.data|, if p.status == ProcessingContentOfTheField then 1 else 0
  {
    match Turn(p)
    case Stopped(why) => Stopped(why)
    case Ok(Some(q)) => Processed(q)
    case Ok(None) =>
      if p.status == ProcessingContentOfTheField then Collected(p, Partial(p)) else Ok(p)
  }

  /** `AcceptSomeData`. */
  function Accepted(p: Parser, data: string, max: nat): Result<Parser> {
    if p.boundary == "" then Stopped(Threw)
    else if |p.data + data| > max then Stopped(Threw)
    else Processed(p.(data := p.data + data))
  }

  function Started(boundary: string): Parser {
    Parser("--" + boundary, LookingForStartingBoundary, "", None, [])
  }

  // ---------- form data as it is sent (section 5.1.1 of RFC 2046) ----------

  function Headers(name: string): string {
    CRLF + DISPOSITION + " " + NAME_IS + name + "\""
  }

  function Part(boundary: string, f: Field): string {
    "--" + boundary + Headers(f.name) + BLANK_LINE + f.content + CRLF
  }

  function Body(boundary: string, fs: seq<Field>): string
    decreases |fs|
  {
    if fs == [] then "--" + boundary + "--" + CRLF else Part(boundary, fs[0]) + Body(boundary, fs[1..])
  }

  predicate LineFree(s: string) {
    '\r' !in s && '\n' !in s
  }

  predicate Contains(s: string, sub: string) {
    exists i: nat | i <= |s| :: OccursAt(sub, s, i)
  }

  /** A name that comes back as it is. */
  predicate PlainName(name: string) {
    NulFree(name) && '\"' !in name && '\r' !in name && !EndsWith(name, "filename=")
  }

  predicate EndsWith(s: string, end: string) {
    |s| >= |end| && s[|s| - |end|..] == end
  }

  /** The fields that come back: those with content, up to the first NUL. */
  function Kept(fs: seq<Field>): seq<Field> {
    if fs == [] then []
    else (if fs[0].content == "" then [] else [fs[0].(content := CStr(fs[0].content))]) + Kept(fs[1..])
  }

  // ---------- names ----------

  /** Everything up to the name and its opening quote. */
  function Opening(): (s: string)
    ensures |s| == 40
  {
    CRLF + DISPOSITION + " " + NAME_IS
  }

  lemma DispositionChars()
    ensures |DISPOSITION| == 31 && DISPOSITION[0] == 'C'
    ensures forall i | 0 <= i < 31 :: DISPOSITION[i] != '\"' && DISPOSITION[i] != '\r' && DISPOSITION[i] != NUL
  {
  }

  lemma NameIsChars()
    ensures |NAME_IS| == 6 && NAME_IS[0] == 'n' && NAME_IS[5] == '\"'
    ensures forall i | 0 <= i < 6 :: NAME_IS[i] != '\r' && NAME_IS[i] != NUL && (i < 5 ==> NAME_IS[i] != '\"')
  {
  }

  /** The characters of a header up to its name. */
  lemma OpeningCharAt(i: nat)
    requires i < 40
    ensures Opening()[i]
            == if i < 2 then CRLF[i] else if i < 33 then DISPOSITION[i - 2] else if i == 33 then ' ' else NAME_IS[i - 34]
  {
  }

  lemma OpeningChars()
    ensures var s := Opening();
            && s[39] == '\"' && s[0] == '\r' && s[2] == 'C' && s[33] == ' ' && s[34] == 'n'
            && (forall i | 0 <= i < 39 :: s[i] != '\"')
  {
    DispositionChars();
    NameIsChars();
    hide Opening;
    forall i: nat | i < 40 ensures i == 39 <==> Opening()[i] == '\"' {
      OpeningCharAt(i);
    }
    OpeningCharAt(0);
    OpeningCharAt(2);
    OpeningCharAt(33);
    OpeningCharAt(34);
  }

  lemma OpeningLine()
    ensures forall i | 0 < i < 40 :: Opening()[i] != '\r' && Opening()[i] != NUL
  {
    DispositionChars();
    NameIsChars();
    hide Opening;
    forall i: nat | 0 < i < 40 ensures Opening()[i] != '\r' && Opening()[i] != NUL {
      OpeningCharAt(i);
    }
  }

  lemma OpeningParts()
    ensures Opening() == CRLF + DISPOSITION + " " + NAME_IS
    ensures OccursAt(DISPOSITION, Opening(), 2) && OccursAt(NAME_IS, Opening(), 34)
  {
    assert |CRLF| == 2 && |CRLF + DISPOSITION + " "| == 34;
    var end := " " + NAME_IS;
    assert CRLF + DISPOSITION + " " + NAME_IS == CRLF + DISPOSITION + end;
    Middle(CRLF, DISPOSITION, end);
    Middle(CRLF + DISPOSITION + " ", NAME_IS, "");
    assert CRLF + DISPOSITION + " " + NAME_IS + "" == CRLF + DISPOSITION + " " + NAME_IS;
    hide Opening, OccursAt;
  }

  lemma Middle(a: string, sub: string, c: string)
    ensures OccursAt(sub, a + sub + c, |a|)
  {
  }

  lemma HeadersOpen(name: string)
    ensures Headers(name) == Opening() + name + "\""
  {
    OpeningParts();
  }

  lemma OccursLater(sub: string, s: string, tail: string, i: nat)
    requires OccursAt(sub, s, i)
    ensures OccursAt(sub, s + tail, i)
  {
    assert (s + tail)[i..i + |sub|] == s[i..i + |sub|];
  }

  /** The quotes of a header are those around the name. */
  lemma Quotes(name: string, i: nat)
    requires '\"' !in name && i < |Headers(name)| && Headers(name)[i] == '\"'
    ensures i == 39 || i == 40 + |name|
  {
    hide Opening, Headers;
    HeadersOpen(name);
    OpeningChars();
    var h := Opening() + name + "\"";
    assert forall j | 40 <= j < 40 + |name| :: h[j] == name[j - 40];
  }

  lemma NameFound(name: string)
    requires '\"' !in name
    ensures Find(NAME_IS, Headers(name), 0) == Some(34)
  {
    hide Opening, Headers;
    HeadersOpen(name);
    var h := Headers(name);
    OpeningParts();
    OccursLater(NAME_IS, Opening(), name + "\"", 34);
    assert Opening() + (name + "\"") == h;
    NameInside(name);
    forall i: nat | i < 34 ensures !OccursAt(NAME_IS, h, i) {
      assert h[i..i + 6][5] == h[i + 5];
      if OccursAt(NAME_IS, h, i) {
        Quotes(name, i + 5);
        assert false;
      }
    }
    FoundAt(NAME_IS, h, 0, 34);
  }

  lemma ClosingFound(name: string)
    requires '\"' !in name
    ensures |Headers(name)| == 41 + |name| && Find("\"", Headers(name), 40) == Some(40 + |name|)
  {
    hide Opening, Headers;
    HeadersOpen(name);
    var h := Headers(name);
    assert h[40 + |name|..40 + |name| + 1] == "\"";
    forall i: nat | 40 <= i < 40 + |name| ensures !OccursAt("\"", h, i) {
      assert h[i..i + 1][0] == h[i];
      if OccursAt("\"", h, i) {
        Quotes(name, i);
        assert false;
      }
    }
    FoundAt("\"", h, 40, 40 + |name|);
  }

  lemma NameInside(name: string)
    ensures |Headers(name)| == 41 + |name| && Headers(name)[40..40 + |name|] == name
    ensures Headers(name)[39] == '\"' && Headers(name)[33] == ' ' && Headers(name)[..40] == Opening()
  {
    hide Opening, Headers;
    OpeningChars();
    HeadersOpen(name);
  }

  lemma FileNameChars()
    ensures |FILENAME_IS| == 10 && FILENAME_IS[3] == 'e' && FILENAME_IS[9] == '\"'
    ensures (forall i | 0 <= i < 9 :: FILENAME_IS[i] != '\"') && FILENAME_IS[..9] == "filename="
  {
  }

  /** Where a file name would start. */
  lemma FileNameOnlyAtEnd(name: string, i: nat)
    requires '\"' !in name && OccursAt(FILENAME_IS, Headers(name), i)
    ensures EndsWith(name, "filename=") && i == 31 + |name|
  {
    var h := Headers(name);
    NameInside(name);
    FileNameChars();
    hide Opening, Headers;
    var w := h[i..i + 10];
    assert w == FILENAME_IS && forall k | 0 <= k < 10 :: w[k] == h[i + k];
    assert w[9] == h[i + 9] && w[3] == h[i + 3];
    Quotes(name, i + 9);
    assert i + 9 != 39;
    forall j | i <= j < i + 9 ensures h[j] != '\"' {
      assert h[j] == w[j - i];
    }
    assert i > 39;
    assert h[40..40 + |name|][i - 40..] == h[i..i + 9] == w[..9];
  }

  /** Which names come back: those that do not end like a file name attribute. A name
      that does makes the parser throw. */
  lemma NameComesBackIff(name: string)
    requires '\"' !in name
    ensures FieldName(Headers(name)) == if EndsWith(name, "filename=") then Stopped(Threw) else Ok(name)
  {
    var h := Headers(name);
    NameFound(name);
    ClosingFound(name);
    NameInside(name);
    DispositionFound(name);
    hide Opening, Headers, Find;
    if EndsWith(name, "filename=") {
      var at := 31 + |name|;
      FileNameAtEnd(name);
      assert Find(FILENAME_IS, h, 0).Some?;
      FileNameOnlyAtEnd(name, Find(FILENAME_IS, h, 0).value);
      assert at + 10 == |h|;
      assert Find("\"", h, |h|).None?;
    } else if Find(FILENAME_IS, h, 0).Some? {
      FileNameOnlyAtEnd(name, Find(FILENAME_IS, h, 0).value);
      assert false;
    }
  }

  lemma DispositionFound(name: string)
    ensures Find(DISPOSITION, Headers(name), 0).Some?
  {
    hide Opening, Headers;
    HeadersOpen(name);
    OpeningParts();
    OccursLater(DISPOSITION, Opening(), name + "\"", 2);
    assert Opening() + (name + "\"") == Headers(name);
  }

  lemma FileNameAtEnd(name: string)
    requires EndsWith(name, "filename=")
    ensures OccursAt(FILENAME_IS, Headers(name), 31 + |name|)
  {
    hide Opening, Headers;
    NameInside(name);
    HeadersOpen(name);
    var h := Headers(name);
    var at := 31 + |name|;
    assert h[at..at + 9] == h[40..40 + |name|][|name| - 9..] == "filename=";
    assert h[at..at + 10] == h[at..at + 9] + "\"";
  }

  // ---------- bodies ----------

  lemma HeaderChars(name: string)
    requires NulFree(name) && '\r' !in name
    ensures NulFree(Headers(name)) && Headers(name)[0] == '\r' && Headers(name)[2] == 'C'
    ensures forall i | 0 < i < |Headers(name)| :: Headers(name)[i] != '\r'
  {
    hide Opening, Headers;
    OpeningChars();
    OpeningLine();
    HeadersOpen(name);
    var h := Opening() + name + "\"";
    assert forall j | 40 <= j < 40 + |name| :: h[j] == name[j - 40];
  }

  /** The blank line that ends the headers is the first one. */
  lemma BlankLineFound(name: string, rest: string)
    requires NulFree(name) && '\r' !in name
    ensures Find(BLANK_LINE, Headers(name) + BLANK_LINE + rest, 0) == Some(|Headers(name)|)
  {
    HeaderChars(name);
    NameInside(name);
    hide Headers;
    var h := Headers(name);
    var s := h + BLANK_LINE + rest;
    forall i: nat | i < |h| ensures !OccursAt(BLANK_LINE, s, i) {
      assert i + 4 <= |s| ==> s[i..i + 4][0] == h[i] && s[i..i + 4][2] == s[i + 2];
      assert BLANK_LINE[0] == '\r' && BLANK_LINE[2] == '\r';
    }
    assert s[|h|..|h| + 4] == BLANK_LINE;
    FoundAt(BLANK_LINE, s, 0, |h|);
  }

  /** The boundary after a field's content is the first one, as the content does not
      contain it and the line end before it cannot be part of one. */
  lemma BoundaryFound(b: string, content: string, rest: string)
    requires LineFree(b) && b != "" && !Contains(content, b)
    ensures Find(b, content + CRLF + (b + rest), 0) == Some(|content| + 2)
  {
    var s := content + CRLF + (b + rest);
    assert s[|content|] == '\r' && s[|content| + 1] == '\n';
    forall i: nat | i < |content| + 2 ensures !OccursAt(b, s, i) {
      assert i + |b| <= |content| ==> s[i..i + |b|] == content[i..i + |b|];
      assert i + |b| <= |content| ==> !OccursAt(b, content, i);
      if OccursAt(b, s, i) {
        Window(b, s, i);
        assert false;
      }
    }
    assert s[|content| + 2..|content| + 2 + |b|] == b;
    FoundAt(b, s, 0, |content| + 2);
  }

  lemma Window(sub: string, s: string, i: nat)
    requires OccursAt(sub, s, i)
    ensures forall j | i <= j < i + |sub| :: s[j] in sub
  {
    forall j | i <= j < i + |sub| ensures s[j] in sub {
      assert s[i..i + |sub|][j - i] == s[j];
    }
  }

  function Ready(b: string, lead: string, rest: string, current: Option<string>, fields: seq<Field>): Parser {
    Parser(b, LookingForStartingBoundary, lead + rest, current, fields)
  }

  /** What one part leaves: its field, unless it is empty, and the line end before the
      next boundary. */
  lemma PartProcessed(boundary: string, lead: string, f: Field, rest: string, current: Option<string>, fields: seq<Field>)
    requires LineFree(boundary) && PlainName(f.name) && !Contains(f.content, "--" + boundary)
    requires lead == "" || lead == CRLF
    requires |rest| >= |boundary| + 2 && rest[..|boundary| + 2] == "--" + boundary
    ensures var b := "--" + boundary;
            Processed(Ready(b, lead, Part(boundary, f) + rest, current, fields))
            == Processed(Ready(b, CRLF, rest, if f.content == "" then Some(f.name) else None, fields + Kept([f])))
  {
    hide Headers, FieldName, Find, Contains, Processed, Kept;
    var b := "--" + boundary;
    var tail := rest[|b|..];
    assert rest == b + tail;
    var content := f.content + CRLF + (b + tail);
    var after := Headers(f.name) + BLANK_LINE + content;
    assert Part(boundary, f) + rest == b + after;
    BoundaryProcessed(b, lead, after, current, fields);
    HeadersProcessed(b, f.name, content, current, fields);
    BoundaryFound(b, f.content, tail);
    ContentProcessed(Parser(b, ProcessingContentOfTheField, content, Some(f.name), fields), f, rest);
  }

  lemma BoundaryProcessed(b: string, lead: string, after: string, current: Option<string>, fields: seq<Field>)
    requires |b| >= 2 && b[0] == '-' && (lead == "" || lead == CRLF)
    ensures Processed(Ready(b, lead, b + after, current, fields))
            == Processed(Parser(b, ProcessingHeaders, after, current, fields))
  {
    LeadFound(b, lead, after);
    assert (lead + (b + after))[|lead| + |b|..] == after;
    assert Turn(Ready(b, lead, b + after, current, fields))
        == Ok(Some(Parser(b, ProcessingHeaders, after, current, fields))) by {
      hide Find;
    }
    hide Turn;
  }

  lemma HeadersProcessed(b: string, name: string, content: string, current: Option<string>, fields: seq<Field>)
    requires b != "" && PlainName(name)
    ensures Processed(Parser(b, ProcessingHeaders, Headers(name) + BLANK_LINE + content, current, fields))
            == Processed(Parser(b, ProcessingContentOfTheField, content, Some(name), fields))
  {
    BlankLineFound(name, content);
    HeaderChars(name);
    NameComesBackIff(name);
    hide Find, Headers, FieldName;
    var after := Headers(name) + BLANK_LINE + content;
    assert after[..|Headers(name)|] == Headers(name) && after[|Headers(name)| + 4..] == content;
  }

  lemma LeadFound(b: string, lead: string, after: string)
    requires |b| >= 2 && b[0] == '-' && (lead == "" || lead == CRLF)
    ensures Find(b, lead + (b + after), 0) == Some(|lead|)
  {
    var s := lead + (b + after);
    assert s[|lead|..|lead| + |b|] == b;
    forall i: nat | i < |lead| ensures !OccursAt(b, s, i) {
      assert i + |b| <= |s| ==> s[i..i + |b|][0] == lead[i];
    }
    FoundAt(b, s, 0, |lead|);
  }

  lemma ContentProcessed(p: Parser, f: Field, rest: string)
    requires p.boundary != "" && p.status == ProcessingContentOfTheField && p.current == Some(f.name)
    requires p.data == f.content + CRLF + rest && Find(p.boundary, p.data, 0) == Some(|f.content| + 2)
    ensures Processed(p)
            == Processed(Ready(p.boundary, CRLF, rest, if f.content == "" then p.current else None, p.fields + Kept([f])))
  {
    hide Find;
    var n := |f.content|;
    assert p.data[..n] == f.content && p.data[n..] == CRLF + rest;
    KeptOne(f);
    assert p.fields + [] == p.fields;
    var q := Ready(p.boundary, CRLF, rest, if f.content == "" then p.current else None, p.fields + Kept([f]));
    assert Collected(p, n) == Ok(q.(status := ProcessingContentOfTheField));
    assert Turn(p) == Ok(Some(q));
  }

  lemma KeptOne(f: Field)
    ensures Kept([f]) == if f.content == "" then [] else [Field(f.name, CStr(f.content))]
  {
    assert [f][1..] == [] && Kept([]) == [];
  }

  lemma EndProcessed(boundary: string, lead: string, current: Option<string>, fields: seq<Field>)
    requires LineFree(boundary) && (lead == "" || lead == CRLF)
    ensures var b := "--" + boundary;
            Processed(Ready(b, lead, Body(boundary, []), current, fields))
            == Ok(Parser(b, ProcessingHeaders, "--" + CRLF, current, fields))
  {
    var b := "--" + boundary;
    var after := "--" + CRLF;
    var p1 := Ready(b, lead, Body(boundary, []), current, fields);
    assert p1.data == lead + (b + after);
    LeadFound(b, lead, after);
    var p2 := Parser(b, ProcessingHeaders, after, current, fields);
    assert p1.data[|lead| + |b|..] == after;
    NotFound(BLANK_LINE, after, 0) by {
      forall i: nat ensures !OccursAt(BLANK_LINE, after, i) {
        assert i + 4 <= |after| ==> after[i..i + 4][0] == '-';
      }
    }
    assert Processed(p1) == Processed(p2) by { hide Find; }
  }

  /** The parser yields exactly the fields that have content, in order, and then waits
      after the closing delimiter. */
  lemma {:induction false} BodyProcessed(boundary: string, lead: string, fs: seq<Field>, current: Option<string>, fields: seq<Field>)
    requires LineFree(boundary) && (lead == "" || lead == CRLF)
    requires forall i | 0 <= i < |fs| :: PlainName(fs[i].name) && !Contains(fs[i].content, "--" + boundary)
    ensures var r := Processed(Ready("--" + boundary, lead, Body(boundary, fs), current, fields));
            r.Ok? && r.value.fields == fields + Kept(fs) && r.value.status == ProcessingHeaders
            && r.value.data == "--" + CRLF
    decreases |fs|
  {
    hide Processed, Part, Ready, PlainName, Contains, LineFree;
    if fs == [] {
      EndProcessed(boundary, lead, current, fields);
      assert fields + [] == fields;
    } else {
      var f, rest := fs[0], Body(boundary, fs[1..]);
      BodyStarts(boundary, fs[1..]);
      PartProcessed(boundary, lead, f, rest, current, fields);
      BodyProcessed(boundary, CRLF, fs[1..], if f.content == "" then Some(f.name) else None, fields + Kept([f]));
      KeptSplits(fs);
      assert fields + Kept([f]) + Kept(fs[1..]) == fields + (Kept([f]) + Kept(fs[1..]));
    }
  }

  lemma KeptSplits(fs: seq<Field>)
    requires fs != []
    ensures Kept(fs) == Kept([fs[0]]) + Kept(fs[1..])
  {
    assert [fs[0]][1..] == [];
  }

  lemma BodyStarts(boundary: string, fs: seq<Field>)
    ensures var b := "--" + boundary; |Body(boundary, fs)| >= |b| && Body(boundary, fs)[..|b|] == b
  {
  }

  /** A form sent in one piece comes back as it was sent, but for its empty fields. */
  lemma FormComesBack(boundary: string, fs: seq<Field>, max: nat)
    requires LineFree(boundary) && |Body(boundary, fs)| <= max
    requires forall i | 0 <= i < |fs| :: PlainName(fs[i].name) && !Contains(fs[i].content, "--" + boundary)
    ensures var r := Accepted(Started(boundary), Body(boundary, fs), max); r.Ok? && r.value.fields == Kept(fs)
  {
    hide Processed, Body;
    var body := Body(boundary, fs);
    assert "" + body == body;
    BodyProcessed(boundary, "", fs, None, []);
    assert [] + Kept(fs) == Kept(fs);
  }

  /** It comes back unchanged exactly when no field is empty or holds a NUL. */
  lemma {:induction false} KeptIsAllIff(fs: seq<Field>)
    ensures Kept(fs) == fs <==> forall i | 0 <= i < |fs| :: fs[i].content != "" && NulFree(fs[i].content)
  {
    KeptNoLonger(fs);
    if fs != [] {
      KeptIsAllIff(fs[1..]);
      KeptNoLonger(fs[1..]);
    }
  }

  lemma {:induction false} KeptNoLonger(fs: seq<Field>)
    ensures |Kept(fs)| <= |fs|
  {
    if fs != [] { KeptNoLonger(fs[1..]); }
  }

  // ---------- content in pieces ----------

  /** Content with no boundary in sight is filed, and its field let go, exactly when
      something is left after holding back what may belong to a boundary. */
  lemma FiledEarlyIff(p: Parser)
    requires p.boundary != "" && p.status == ProcessingContentOfTheField && p.current.Some?
    requires Find(p.boundary, p.data, 0).None?
    ensures var r := Processed(p);
            && r.Ok? && r.value.status == ProcessingContentOfTheField && r.value.boundary == p.boundary
            && (r.value.current.None? <==> |p.data| > 2 && |p.data| != |p.boundary| + 2)
  {
    hide Find;
    assert Turn(p) == Ok(None);
  }

  /** What the next step asks of the current field. */
  predicate NeedsField(p: Parser) {
    match Find(p.boundary, p.data, 0)
    case Some(at) => at > 2
    case None => |p.data| > 2 && |p.data| != |p.boundary| + 2
  }

  /** When content arrives in pieces the parser uses a field it has let go exactly when
      it filed some of the content early and then needs the field again: for more
      content, or for any before the boundary. */
  lemma SplitContentCrashesIff(p: Parser, more: string)
    requires p.boundary != "" && p.status == ProcessingContentOfTheField && p.current.Some?
    requires Find(p.boundary, p.data, 0).None?
    ensures Processed(p).Ok?
    ensures var held := Processed(p).value;
            var next := held.(data := held.data + more);
            Processed(next) == Stopped(NoField)
            <==> |p.data| > 2 && |p.data| != |p.boundary| + 2 && NeedsField(next)
  {
    FiledEarlyIff(p);
    var held := Processed(p).value;
    var next := held.(data := held.data + more);
    CrashesIff(next);
  }

  lemma CrashesIff(p: Parser)
    requires p.boundary != "" && p.status == ProcessingContentOfTheField
    ensures Processed(p) == Stopped(NoField) <==> p.current.None? && NeedsField(p)
  {
    hide Find;
    if p.current.Some? || !NeedsField(p) {
      if Turn(p).Ok? && Turn(p).value.Some? {
        FieldIsThere(Turn(p).value.value);
      }
    } else {
      assert Turn(p) == Stopped(NoField);
    }
  }

  /** Headers always provide a field, so only content met without them lacks one. */
  lemma {:induction false} FieldIsThere(p: Parser)
    requires p.boundary != "" && (p.status == ProcessingContentOfTheField ==> p.current.Some?)
    ensures Processed(p) != Stopped(NoField)
    decreases |p.data|, if p.status == ProcessingContentOfTheField then 1 else 0
  {
    hide Find;
    HeadersGiveField(p);
    if Turn(p).Ok? && Turn(p).value.Some? {
      FieldIsThere(Turn(p).value.value);
    }
  }

  lemma HeadersGiveField(p: Parser)
    requires p.boundary != "" && (p.status == ProcessingContentOfTheField ==> p.current.Some?)
    ensures Turn(p) != Stopped(NoField)
    ensures Turn(p).Ok? && Turn(p).value.Some? ==>
              var q := Turn(p).value.value; q.status == ProcessingContentOfTheField ==> q.current.Some?
  {
    hide Find;
  }

  lemma BlankLineFits(s: string)
    ensures forall i: nat | OccursAt(BLANK_LINE, s, i) :: i < |s| - 3
  {
  }

  lemma BlankLineAt(s: string, i: nat)
    requires i + 4 <= |s|
    ensures OccursAt(BLANK_LINE, s, i) <==> s[i] == '\r' && s[i + 1] == '\n' && s[i + 2] == '\r' && s[i + 3] == '\n'
  {
    assert s[i..i + 4] == [s[i], s[i + 1], s[i + 2], s[i + 3]];
    assert BLANK_LINE == ['\r', '\n', '\r', '\n'];
  }

  // ---------- the object ----------

  // ---------- data in pieces ----------

  lemma FindExtends(sub: string, s: string, t: string)
    requires Find(sub, s, 0).Some?
    ensures Find(sub, s + t, 0) == Find(sub, s, 0)
  {
    var at := Find(sub, s, 0).value;
    forall i: nat | i + |sub| <= |s| ensures OccursAt(sub, s + t, i) == OccursAt(sub, s, i) {
      assert (s + t)[i..i + |sub|] == s[i..i + |sub|];
    }
    FoundAt(sub, s + t, 0, at);
  }

  lemma TurnExtends(p: Parser, more: string)
    requires p.boundary != "" && Turn(p).Ok? && Turn(p).value.Some?
    ensures var q := Turn(p).value.value;
            Turn(p.(data := p.data + more)) == Ok(Some(q.(data := q.data + more)))
  {
    hide Find;
    match p.status
    case LookingForStartingBoundary => BoundaryExtends(p, more);
    case ProcessingHeaders => HeadersExtend(p, more);
    case ProcessingContentOfTheField => ContentExtends(p, more);
  }

  lemma BoundaryExtends(p: Parser, more: string)
    requires p.boundary != "" && p.status == LookingForStartingBoundary && Turn(p).Ok? && Turn(p).value.Some?
    ensures var q := Turn(p).value.value;
            Turn(p.(data := p.data + more)) == Ok(Some(q.(data := q.data + more)))
  {
    FindExtends(p.boundary, p.data, more);
    hide Find;
    Suffix(p.data, more, Find(p.boundary, p.data, 0).value + |p.boundary|);
  }

  lemma HeadersExtend(p: Parser, more: string)
    requires p.boundary != "" && p.status == ProcessingHeaders && Turn(p).Ok? && Turn(p).value.Some?
    ensures var q := Turn(p).value.value;
            Turn(p.(data := p.data + more)) == Ok(Some(q.(data := q.data + more)))
  {
    FindExtends(BLANK_LINE, p.data, more);
    BlankLineFits(p.data);
    hide Find, FieldName;
    var at := Find(BLANK_LINE, p.data, 0).value;
    Suffix(p.data, more, at + 4);
    Suffix(p.data, more, at);
  }

  lemma ContentExtends(p: Parser, more: string)
    requires p.boundary != "" && p.status == ProcessingContentOfTheField && Turn(p).Ok? && Turn(p).value.Some?
    ensures var q := Turn(p).value.value;
            Turn(p.(data := p.data + more)) == Ok(Some(q.(data := q.data + more)))
  {
    FindExtends(p.boundary, p.data, more);
    hide Find;
    var at := Find(p.boundary, p.data, 0).value;
    if at > 2 { Suffix(p.data, more, at - 2); }
  }

  lemma Suffix(s: string, t: string, k: nat)
    requires k <= |s|
    ensures (s + t)[k..] == s[k..] + t && (s + t)[..k] == s[..k]
  {
  }

  /** The parser has let content go before it saw the end of it. */
  predicate CutContent(p: Parser) {
    p.status == ProcessingContentOfTheField && p.current.None?
  }

  /** A cut anywhere but in the content of a field makes no difference. */
  lemma {:induction false} CutIsHarmless(p: Parser, more: string)
    requires p.boundary != "" && Processed(p).Ok? && !CutContent(Processed(p).value)
    ensures var held := Processed(p).value;
            && held.boundary == p.boundary && |held.data| <= |p.data|
            && Processed(held.(data := held.data + more)) == Processed(p.(data := p.data + more))
    decreases |p.data|, if p.status == ProcessingContentOfTheField then 1 else 0
  {
    var t := Turn(p);
    if t.value.Some? {
      TurnExtends(p, more);
      hide Turn;
      CutIsHarmless(t.value.value, more);
    }
  }

  /** Data given in two pieces is parsed as if it had come in one, unless the first piece
      ends inside the content of a field and part of it was let go. */
  lemma PiecesDoNotMatter(p: Parser, a: string, b: string, max: nat)
    requires |p.data| + |a| + |b| <= max
    requires Accepted(p, a, max).Ok? && !CutContent(Accepted(p, a, max).value)
    ensures Accepted(Accepted(p, a, max).value, b, max) == Accepted(p, a + b, max)
  {
    hide Processed, CutContent;
    CutIsHarmless(p.(data := p.data + a), b);
    assert p.data + a + b == p.data + (a + b);
  }

  /** More data than the limit is refused, and so is any without a boundary; what is
      accepted comes behind the data held. */
  lemma AcceptedIff(p: Parser, data: string, max: nat)
    ensures p.boundary == "" || |p.data| + |data| > max ==> Accepted(p, data, max) == Stopped(Threw)
    ensures p.boundary != "" && |p.data| + |data| <= max && p.status == LookingForStartingBoundary
            && (forall i :: !OccursAt(p.boundary, p.data + data, i)) ==>
              Accepted(p, data, max) == Ok(p.(data := p.data + data))
  {
  }

  ghost predicate Has(sub: string, s: string, from: nat) {
    exists i: nat :: from <= i && OccursAt(sub, s, i)
  }

  lemma NameBetween(h: string, at: nat, end: nat)
    requires at + 6 <= end && OccursAt("name=\"", h, at) && OccursAt("\"", h, end)
    requires forall i: nat | at + 6 <= i < end :: !OccursAt("\"", h, i)
    ensures var name := h[at + 6..end]; '\"' !in name && OccursAt("name=\"" + name + "\"", h, at)
  {
    var name := h[at + 6..end];
    forall i | 0 <= i < |name| ensures name[i] != '\"' {
      assert h[at + 6 + i..at + 6 + i + 1] == [name[i]];
      assert !OccursAt("\"", h, at + 6 + i);
    }
    assert h[at..end + 1] == h[at..at + 6] + name + h[end..end + 1];
  }

  /** Which headers are accepted, and what the name is: the text from the first `name="`
      to the next quote. */
  lemma FieldNameIff(h: string)
    ensures match FieldName(h)
            case Ok(name) =>
              && Has("Content-Disposition: form-data;", h, 0) && !Has("filename=\"", h, 0) && '\"' !in name
              && exists at :: OccursAt("name=\"" + name + "\"", h, at) && forall i: nat | i < at :: !OccursAt("name=\"", h, i)
            case Stopped(why) =>
              && why != NoField
              && (why == FileField <==>
                    && Has("Content-Disposition: form-data;", h, 0)
                    && (exists at: nat :: OccursAt("name=\"", h, at) && Has("\"", h, at + 6))
                    && exists at: nat :: OccursAt("filename=\"", h, at) && Has("\"", h, at + 10))
              && (why == Threw && Has("Content-Disposition: form-data;", h, 0) && !Has("filename=\"", h, 0) ==>
                    !exists at: nat :: OccursAt("name=\"", h, at) && Has("\"", h, at + 6))
  {
    hide Find;
    var pos := Find(NAME_IS, h, 0);
    if pos.Some? {
      var end := Find("\"", h, pos.value + 6);
      if end.Some? {
        NameBetween(h, pos.value, end.value);
      }
    }
  }

  class MultipartParser {
    var boundary: string
    var status: Status
    var data: string
    var current: Option<string>
    var fields: seq<Field>
    var max: nat

    constructor (boundary: string)
      ensures State() == Started(boundary) && max == 16 * 1024 * 1024
    {
      this.boundary := "--" + boundary;
      status, data, current, fields := LookingForStartingBoundary, "", None, [];
      max := 16 * 1024 * 1024;
    }

    ghost function State(): Parser
      reads this
    {
      Parser(boundary, status, data, current, fields)
    }

    /** `BoundaryPositionInDataCollector`: two nested loops. */
    method BoundaryPosition() returns (r: Option<nat>)
      ensures r == Find(boundary, data, 0)
    {
      hide Find;
      if |data| < |boundary| {
        NotFound(boundary, data, 0);
        return None;
      }
      var i := 0;
      while i <= |data| - |boundary|
        invariant 0 <= i <= |data| - |boundary| + 1
        invariant forall k: nat | k < i :: !OccursAt(boundary, data, k)
      {
        var j := 0;
        while j < |boundary| && data[i + j] == boundary[j]
          invariant 0 <= j <= |boundary| && data[i..i + j] == boundary[..j]
        {
          assert data[i..i + j + 1] == data[i..i + j] + [data[i + j]];
          assert boundary[..j + 1] == boundary[..j] + [boundary[j]];
          j := j + 1;
        }
        if j == |boundary| {
          FoundAt(boundary, data, 0, i);
          return Some(i);
        }
        assert data[i..i + |boundary|][j] != boundary[j];
        i := i + 1;
      }
      NotFound(boundary, data, 0);
      return None;
    }

    method FindStartingBoundaryAndTruncData() returns (found: bool)
      requires boundary != "" && status == LookingForStartingBoundary
      modifies this
      ensures match Turn(old(State()))
              case Ok(Some(q)) => found && q.status == ProcessingHeaders && State() == q.(status := old(status))
              case Ok(None) => !found && State() == old(State())
              case Stopped(_) => false
    {
      var n := BoundaryPosition();
      if n.Some? {
        data := data[n.value + |boundary|..];
      }
      found := n.Some?;
    }

    /** `WaitForHeadersEndAndParseThem`. */
    method WaitForHeadersEndAndParseThem() returns (r: Result<bool>)
      requires boundary != "" && status == ProcessingHeaders
      modifies this
      ensures match Turn(old(State()))
              case Ok(Some(q)) =>
                r == Ok(true) && q.status == ProcessingContentOfTheField && State() == q.(status := old(status))
              case Ok(None) => r == Ok(false) && State() == old(State())
              case Stopped(why) => r == Stopped(why)
    {
      hide Find, FieldName, CStr, OccursAt;
      var i := 0;
      while i < |data| - 3
        invariant 0 <= i && State() == old(State())
        invariant forall k: nat | k < i :: !OccursAt(BLANK_LINE, data, k)
      {
        BlankLineAt(data, i);
        if data[i] == '\r' && data[i + 1] == '\n' && data[i + 2] == '\r' && data[i + 3] == '\n' {
          FoundAt(BLANK_LINE, data, 0, i);
          match FieldName(CStr(data[..i])) {
            case Stopped(why) => return Stopped(why);
            case Ok(name) =>
              current := Some(name);
              data := data[i + 4..];
              return Ok(true);
          }
        }
        i := i + 1;
      }
      BlankLineFits(data);
      NotFound(BLANK_LINE, data, 0);
      return Ok(false);
    }

    /** `ProcessContentOfTheField`. */
    method ProcessContentOfTheField() returns (r: Result<bool>)
      requires boundary != "" && status == ProcessingContentOfTheField
      modifies this
      ensures match Turn(old(State()))
              case Ok(Some(q)) => r == Ok(true) && State() == q
              case Ok(None) => r == Ok(false) && Collected(old(State()), Partial(old(State()))) == Ok(State())
              case Stopped(why) => r == Stopped(why)
    {
      hide Find, CStr;
      var at := BoundaryPosition();
      var n := if at.Some? then at.value - 2
               else if |data| < |boundary| + 2 then |data| - 2 else |data| - (|boundary| + 2);
      if n > 0 {
        if current.None? {
          return Stopped(NoField);
        }
        fields := fields + [Field(current.value, CStr(data[..n]))];
        current := None;
        data := data[n..];
      }
      if at.Some? {
        status := LookingForStartingBoundary;
        return Ok(true);
      }
      return Ok(false);
    }

    /** `_ProcessData`: the loop goes on while a step leaves something to do. */
    method ProcessData() returns (r: Result<bool>)
      requires boundary != ""
      modifies this
      ensures match Processed(old(State()))
              case Ok(q) => r.Ok? && State() == q
              case Stopped(why) => r == Stopped(why)
    {
      hide Turn, Collected;
      var again := true;
      while again
        invariant boundary != ""
        invariant if again then Processed(State()) == Processed(old(State())) else Processed(old(State())) == Ok(State())
        decreases again, |data|, if status == ProcessingContentOfTheField then 1 else 0
      {
        ghost var p := State();
        ghost var t := Turn(p);
        match status {
          case LookingForStartingBoundary =>
            again := FindStartingBoundaryAndTruncData();
            if again { status := ProcessingHeaders; }
          case ProcessingHeaders =>
            var parsed := WaitForHeadersEndAndParseThem();
            if parsed.Stopped? { return parsed; }
            again := parsed.value;
            if again { status := ProcessingContentOfTheField; }
          case ProcessingContentOfTheField =>
            var done := ProcessContentOfTheField();
            if done.Stopped? { return done; }
            again := done.value;
        }
      }
      return Ok(true);
    }

    method AcceptSomeData(more: string) returns (r: Result<bool>)
      modifies this
      ensures match Accepted(old(State()), more, old(max))
              case Ok(q) => r.Ok? && State() == q
              case Stopped(why) => r == Stopped(why)
    {
      if boundary == "" {
        return Stopped(Threw);
      }
      data := data + more;
      if |data| > max {
        return Stopped(Threw);
      }
      r := ProcessData();
    }
  }
}
