/** `RemoveWhiteSpace` of JSONWorker.cpp: drops white space outside strings, turns
    comments into delimited stretches and rewrites escaped quotes. */
module Normaliser {
  import opened Text

  /** How a scan of a string or a comment ends: behind its delimiter after `used`
      characters, with `throw false`, or beyond the terminator. */
  datatype Scan = Closed(out: string, used: nat) | Stopped(out: string) | Overran

  function Then(a: string, k: nat, r: Scan): Scan {
    match r
    case Closed(out, used) => Closed(a + out, k + used)
    case Stopped(out) => Stopped(a + out)
    case Overran => Overran
  }

  lemma ThenTwice(a: string, j: nat, b: string, k: nat, r: Scan)
    ensures Then(a, j, Then(b, k, r)) == Then(a + b, j + k, r)
  {
    if !r.Overran? {
      assert a + (b + r.out) == a + b + r.out;
    }
  }

  lemma ThenNothing(r: Scan)
    ensures Then("", 0, r) == r
  {
    if !r.Overran? {
      assert "" + r.out == r.out;
    }
  }

  predicate Blank(c: char) {
    c in " \t\n\r"
  }

  predicate Legal(c: char) {
    32 <= c as int <= 126
  }

  /** The inside of a string, `s` starting behind its opening quote. */
  function Quoted(s: string, escapeQuotes: bool): (r: Scan)
    ensures r.Closed? ==> 1 <= r.used <= |s|
    decreases |s|
  {
    if AtEnd(s) then Stopped("")
    else if s[0] == '\"' then Closed("", 1)
    else if s[0] == '\\' && escapeQuotes then
      if |s| < 2 then Overran
      else Then(['\\', if s[1] == '\"' then MARK else s[1]], 2, Quoted(s[2..], escapeQuotes))
    else Then([s[0]], 1, Quoted(s[1..], escapeQuotes))
  }

  /** The inside of a `/* */` comment. */
  function Block(s: string): (r: Scan)
    ensures r.Closed? ==> 1 <= r.used <= |s|
  {
    if AtEnd(s) then Stopped("")
    else if s[0] == '*' && At(s, 1) == '/' then Closed("", 2)
    else Then([s[0]], 1, Block(s[1..]))
  }

  /** The inside of a comment that runs to the end of its line. */
  function Line(s: string): (r: Scan)
    ensures r.Closed? ==> 1 <= r.used <= |s|
  {
    if s == "" then Overran
    else if s[0] == NUL || s[0] == '\n' then Closed("", 1)
    else Then([s[0]], 1, Line(s[1..]))
  }

  /** The stretch that starts at `s[0]`: one character outside strings, a whole
      string or a whole comment. */
  function Piece(s: string, escapeQuotes: bool): (r: Scan)
    requires !AtEnd(s)
    ensures r.Closed? ==> 1 <= r.used <= |s|
  {
    if Blank(s[0]) then Closed("", 1)
    else if s[0] == '/' && At(s, 1) == '*' then
      match Block(s[2..])
      case Closed(out, used) => Closed([COMMENT] + out + [COMMENT], 2 + used)
      case Stopped(out) => Stopped([COMMENT] + out + [COMMENT])
      case Overran => Overran
    else if s[0] == '/' && At(s, 1) != '/' then Stopped("")
    else if s[0] == '/' || s[0] == '#' then
      var k := if s[0] == '/' then 2 else 1;
      match Line(s[k..])
      case Closed(out, used) => Closed([COMMENT] + out + [COMMENT], k + used)
      case Stopped(out) => Stopped(out)
      case Overran => Overran
    else if s[0] == '\"' then
      match Quoted(s[1..], escapeQuotes)
      case Closed(out, used) => Closed("\"" + out + "\"", 1 + used)
      case Stopped(out) => Stopped("\"" + out)
      case Overran => Overran
    else if Legal(s[0]) then Closed([s[0]], 1)
    else Stopped("")
  }

  /** The normalised text; an illegal character ends it early. */
  function Normal(s: string, escapeQuotes: bool): Outcome<string>
    decreases |s|
  {
    if AtEnd(s) then Done("")
    else
      match Piece(s, escapeQuotes)
      case Closed(out, used) => Prepend(out, Normal(s[used..], escapeQuotes))
      case Stopped(out) => Done(out)
      case Overran => Overrun
  }

  // ---------- the loops of the source ----------

  /** What the string loop does at `p`. */
  lemma QuotedTurn(value: string, p: nat, escapeQuotes: bool)
    requires p <= |value|
    ensures Quoted(value[p..], escapeQuotes) ==
            if p == |value| || value[p] == NUL then Stopped("")
            else if value[p] == '\"' then Closed("", 1)
            else if value[p] == '\\' && escapeQuotes then
              if p + 1 == |value| then Overran
              else Then(['\\', if value[p + 1] == '\"' then MARK else value[p + 1]], 2,
                        Quoted(value[p + 2..], escapeQuotes))
            else Then([value[p]], 1, Quoted(value[p + 1..], escapeQuotes))
  {
    var rest := value[p..];
    if rest != [] {
      assert rest[0] == value[p] && rest[1..] == value[p + 1..];
    }
    if |rest| > 1 {
      assert rest[1] == value[p + 1] && rest[2..] == value[p + 2..];
    }
  }

  method QuotedLoop(value: string, start: nat, escapeQuotes: bool) returns (r: Scan)
    requires start <= |value|
    ensures r == Quoted(value[start..], escapeQuotes)
  {
    hide Quoted;
    ghost var goal := Quoted(value[start..], escapeQuotes);
    var out, p := "", start;
    ThenNothing(goal);
    while p < |value| && value[p] != '\"'
      invariant start <= p <= |value|
      invariant goal == Then(out, p - start, Quoted(value[p..], escapeQuotes))
      decreases |value| - p
    {
      QuotedTurn(value, p, escapeQuotes);
      if value[p] == NUL {
        assert out + "" == out;
        return Stopped(out);
      }
      if value[p] == '\\' && escapeQuotes {
        if p + 1 == |value| {
          return Overran;
        }
        var pair := ['\\', if value[p + 1] == '\"' then MARK else value[p + 1]];
        ThenTwice(out, p - start, pair, 2, Quoted(value[p + 2..], escapeQuotes));
        out := out + pair;
        p := p + 2;
      } else {
        ThenTwice(out, p - start, [value[p]], 1, Quoted(value[p + 1..], escapeQuotes));
        out := out + [value[p]];
        p := p + 1;
      }
    }
    QuotedTurn(value, p, escapeQuotes);
    assert out + "" == out;
    r := if p < |value| then Closed(out, p + 1 - start) else Stopped(out);
  }

  method BlockLoop(value: string, start: nat) returns (r: Scan)
    requires start <= |value|
    ensures r == Block(value[start..])
  {
    var out, p := "", start;
    ThenNothing(Block(value[start..]));
    while p < |value| && value[p] != NUL
      invariant start <= p <= |value|
      invariant Block(value[start..]) == Then(out, p - start, Block(value[p..]))
    {
      if value[p] == '*' && At(value, p + 1) == '/' {
        assert out + "" == out;
        return Closed(out, p + 2 - start);
      }
      assert value[p..][1..] == value[p + 1..];
      ThenTwice(out, p - start, [value[p]], 1, Block(value[p + 1..]));
      out := out + [value[p]];
      p := p + 1;
    }
    assert out + "" == out;
    r := Stopped(out);
  }

  method LineLoop(value: string, start: nat) returns (r: Scan)
    requires start <= |value|
    ensures r == Line(value[start..])
  {
    var out, p := "", start;
    ThenNothing(Line(value[start..]));
    while p < |value| && value[p] != NUL && value[p] != '\n'
      invariant start <= p <= |value|
      invariant Line(value[start..]) == Then(out, p - start, Line(value[p..]))
    {
      assert value[p..][1..] == value[p + 1..];
      ThenTwice(out, p - start, [value[p]], 1, Line(value[p + 1..]));
      out := out + [value[p]];
      p := p + 1;
    }
    assert out + "" == out;
    r := if p < |value| then Closed(out, p + 1 - start) else Overran;
  }

  method PieceLoop(value: string, p: nat, escapeQuotes: bool) returns (r: Scan)
    requires p < |value| && value[p] != NUL
    ensures r == Piece(value[p..], escapeQuotes)
  {
    assert value[p..][1..] == value[p + 1..];
    var c, next := value[p], At(value, p + 1);
    if Blank(c) {
      r := Closed("", 1);
    } else if c == '/' && next == '*' {
      assert value[p..][2..] == value[p + 2..];
      var block := BlockLoop(value, p + 2);
      match block {
        case Closed(out, used) => r := Closed([COMMENT] + out + [COMMENT], 2 + used);
        case Stopped(out) => r := Stopped([COMMENT] + out + [COMMENT]);
        case Overran => r := Overran;
      }
    } else if c == '/' && next != '/' {
      r := Stopped("");
    } else if c == '/' || c == '#' {
      var k := if c == '/' then 2 else 1;
      assert value[p..][k..] == value[p + k..];
      var line := LineLoop(value, p + k);
      r := if line.Closed? then Closed([COMMENT] + line.out + [COMMENT], k + line.used) else line;
    } else if c == '\"' {
      var quoted := QuotedLoop(value, p + 1, escapeQuotes);
      match quoted {
        case Closed(out, used) => r := Closed("\"" + out + "\"", 1 + used);
        case Stopped(out) => r := Stopped("\"" + out);
        case Overran => r := Overran;
      }
    } else {
      r := if Legal(c) then Closed([c], 1) else Stopped("");
    }
  }

  /** What the main loop does at `p`. */
  lemma NormalTurn(value: string, p: nat, escapeQuotes: bool)
    requires p <= |value|
    ensures p == |value| || value[p] == NUL ==> Normal(value[p..], escapeQuotes) == Done("")
    ensures p < |value| && value[p] != NUL ==>
              !AtEnd(value[p..]) &&
              match Piece(value[p..], escapeQuotes)
              case Closed(out, used) =>
                used <= |value| - p && Normal(value[p..], escapeQuotes) == Prepend(out, Normal(value[p + used..], escapeQuotes))
              case Stopped(out) => Normal(value[p..], escapeQuotes) == Done(out)
              case Overran => Normal(value[p..], escapeQuotes) == Overrun
  {
    hide Piece;
    var rest := value[p..];
    if p < |value| && value[p] != NUL {
      match Piece(rest, escapeQuotes)
      case Closed(_, used) => assert rest[used..] == value[p + used..];
      case _ =>
    }
  }

  method RemoveWhiteSpace(value: string, escapeQuotes: bool) returns (r: Outcome<string>)
    ensures r == Normal(value, escapeQuotes)
  {
    hide Normal, Piece;
    ghost var goal := Normal(value, escapeQuotes);
    var result, p := "", 0;
    PrependNothing(goal);
    assert value[0..] == value;
    while p < |value| && value[p] != NUL
      invariant 0 <= p <= |value|
      invariant goal == Prepend(result, Normal(value[p..], escapeQuotes))
      decreases |value| - p
    {
      NormalTurn(value, p, escapeQuotes);
      var piece := PieceLoop(value, p, escapeQuotes);
      match piece {
        case Closed(out, used) =>
          PrependTwice(result, out, Normal(value[p + used..], escapeQuotes));
          result := result + out;
          p := p + used;
        case Stopped(out) => return Done(result + out);
        case Overran => return Overrun;
      }
    }
    NormalTurn(value, p, escapeQuotes);
    assert result + "" == result;
    r := Done(result);
  }
}
