/** The normaliser read one character at a time: what it leaves of a text, and why white
    space outside strings does not matter. */
module Reader {
  import opened Text
  import opened Normaliser

  /** Where a reader is; `Slash` and `Star` are behind the first character of a comment's
      opening and of its end. */
  datatype Mode = Outside | InString | Escape | Slash | InBlock | Star | InLine

  /** Where the text ends for the reader, although a character is there. */
  predicate Ends(m: Mode, c: char) {
    match m
    case Outside => c != ' ' && c != '\t' && c != '\n' && c != '\r' && (c < ' ' || c > '~')
    case Slash => c != '*' && c != '/'
    case InString => c == '\0'
    case InBlock => c == '\0'
    case Star => c == '\0'
    case _ => false
  }

  function After(m: Mode, c: char, escapes: bool): Mode {
    match m
    case Outside => if c == '/' then Slash else if c == '#' then InLine else if c == '\"' then InString else Outside
    case Slash => if c == '*' then InBlock else InLine
    case InString => if c == '\"' then Outside else if c == '\\' && escapes then Escape else InString
    case Escape => InString
    case InBlock => if c == '*' then Star else InBlock
    case Star => if c == '/' then Outside else if c == '*' then Star else InBlock
    case InLine => if c == '\n' || c == '\0' then Outside else InLine
  }

  /** What is left of `c`: white space outside strings goes, an escaped quote becomes the
      character 1, and the character 5 stands at both ends of a comment. */
  function Leaves(m: Mode, c: char): string {
    match m
    case Outside => if c == ' ' || c == '\t' || c == '\n' || c == '\r' || c == '/' then ""
                    else if c == '#' then "\U{5}" else [c]
    case Slash => "\U{5}"
    case InString => [c]
    case Escape => if c == '\"' then "\U{1}" else [c]
    case InBlock => if c == '*' then "" else [c]
    case Star => if c == '/' then "\U{5}" else if c == '*' then "*" else ['*', c]
    case InLine => if c == '\n' || c == '\0' then "\U{5}" else [c]
  }

  /** The end of the text in each place; two of them are not noticed. */
  function AtTheEnd(m: Mode): Outcome<string> {
    match m
    case InBlock => Done("\U{5}")
    case Star => Done("*\U{5}")
    case InLine => Overrun
    case Escape => Overrun
    case _ => Done("")
  }

  function Read(m: Mode, t: string, escapes: bool): Outcome<string>
    decreases |t|
  {
    if t == "" || Ends(m, t[0]) then AtTheEnd(m)
    else Prepend(Leaves(m, t[0]), Read(After(m, t[0], escapes), t[1..], escapes))
  }

  /** A scan of one stretch, closed by `close`, and the text behind it. */
  function Closing(r: Scan, close: string, t: string, escapes: bool): Outcome<string>
    requires r.Closed? ==> r.used <= |t|
  {
    match r
    case Closed(out, used) => Prepend(out + close, Read(Outside, t[used..], escapes))
    case Stopped(out) => Done(out + if close == "\"" then "" else close)
    case Overran => Overrun
  }

  /** A scan that goes on `k` characters further. */
  lemma Further(a: string, k: nat, r: Scan, close: string, t: string, escapes: bool)
    requires k <= |t| && (r.Closed? ==> r.used <= |t| - k)
    ensures Closing(Then(a, k, r), close, t, escapes) == Prepend(a, Closing(r, close, t[k..], escapes))
  {
    match r
    case Closed(out, used) =>
      assert t[k..][used..] == t[k + used..];
      PrependTwice(a, out + close, Read(Outside, t[k + used..], escapes));
      assert a + (out + close) == a + out + close;
    case Stopped(out) =>
      assert a + (out + "") == a + out + "" && a + (out + close) == a + out + close;
    case Overran =>
  }

  lemma {:induction false} QuotedReads(t: string, escapes: bool)
    ensures Read(InString, t, escapes) == Closing(Quoted(t, escapes), "\"", t, escapes)
    decreases |t|
  {
    if t == "" || t[0] == '\0' || t[0] == '\"' {
      assert "" + "\"" == "\"" && "" + "" == "";
    } else if t[0] == '\\' && escapes {
      if |t| >= 2 {
        var pair := ['\\', if t[1] == '\"' then MARK else t[1]];
        QuotedReads(t[2..], escapes);
        Further(pair, 2, Quoted(t[2..], escapes), "\"", t, escapes);
        assert t[1..][0] == t[1] && t[1..][1..] == t[2..];
        PrependTwice(['\\'], Leaves(Escape, t[1]), Read(InString, t[2..], escapes));
        assert ['\\'] + Leaves(Escape, t[1]) == pair;
      }
    } else {
      QuotedReads(t[1..], escapes);
      Further([t[0]], 1, Quoted(t[1..], escapes), "\"", t, escapes);
    }
  }

  lemma {:induction false} LineReads(t: string, escapes: bool)
    ensures Read(InLine, t, escapes) == Closing(Line(t), "\U{5}", t, escapes) && !Line(t).Stopped?
    decreases |t|
  {
    if t == "" || t[0] == '\0' || t[0] == '\n' {
      assert "" + "\U{5}" == "\U{5}";
    } else {
      LineReads(t[1..], escapes);
      Further([t[0]], 1, Line(t[1..]), "\U{5}", t, escapes);
    }
  }

  lemma {:induction false} BlockReads(t: string, escapes: bool)
    ensures Read(InBlock, t, escapes) == Closing(Block(t), "\U{5}", t, escapes)
    ensures !(t != "" && t[0] == '/') ==> Read(Star, t, escapes) == Prepend("*", Read(InBlock, t, escapes))
    decreases |t|
  {
    if t == "" || t[0] == '\0' {
      assert "" + "\U{5}" == "\U{5}" && "*" + "\U{5}" == "*\U{5}";
    } else {
      BlockReads(t[1..], escapes);
      if t[0] == '*' && At(t, 1) == '/' {
        assert t[1..][1..] == t[2..] && "" + "\U{5}" == "\U{5}";
        PrependNothing(Read(Star, t[1..], escapes));
      } else {
        Further([t[0]], 1, Block(t[1..]), "\U{5}", t, escapes);
        if t[0] == '*' {
          PrependNothing(Read(Star, t[1..], escapes));
        }
      }
      assert "*" + [t[0]] == ['*', t[0]];
      PrependTwice("*", [t[0]], Read(After(InBlock, t[0], escapes), t[1..], escapes));
    }
  }

  /** A stretch outside strings and comments and the text behind it. */
  function Scanned(r: Scan, t: string, escapes: bool): Outcome<string>
    requires r.Closed? ==> r.used <= |t|
  {
    match r
    case Closed(out, used) => Prepend(out, Read(Outside, t[used..], escapes))
    case Stopped(out) => Done(out)
    case Overran => Overrun
  }

  /** The loops of the normaliser read as the automaton does, whatever the text. */
  lemma {:induction false} NormalReads(t: string, escapes: bool)
    ensures Normal(t, escapes) == Read(Outside, t, escapes)
    decreases |t|
  {
    if !AtEnd(t) {
      PieceReads(t, escapes);
      var r := Piece(t, escapes);
      hide Piece;
      if r.Closed? {
        NormalReads(t[r.used..], escapes);
      }
    }
  }

  lemma PieceReads(t: string, escapes: bool)
    requires !AtEnd(t)
    ensures Read(Outside, t, escapes) == Scanned(Piece(t, escapes), t, escapes)
  {
    var c, rest := t[0], t[1..];
    PrependNothing(Read(After(Outside, c, escapes), rest, escapes));
    if c == '\"' {
      StringReads(t, escapes);
    } else if c == '/' || c == '#' {
      CommentReads(t, escapes);
    }
  }

  lemma StringReads(t: string, escapes: bool)
    requires t != "" && t[0] == '\"'
    ensures Read(Outside, t, escapes) == Scanned(Piece(t, escapes), t, escapes)
  {
    QuotedReads(t[1..], escapes);
    Opened("\"", 1, Quoted(t[1..], escapes), "\"", t, escapes);
    hide Quoted;
  }

  lemma CommentReads(t: string, escapes: bool)
    requires t != "" && (t[0] == '/' || t[0] == '#')
    ensures Read(Outside, t, escapes) == Scanned(Piece(t, escapes), t, escapes)
  {
    PrependNothing(Read(Slash, t[1..], escapes));
    if t[0] == '#' {
      LineFrom(t, 1, escapes);
    } else if |t| > 1 && (t[1] == '*' || t[1] == '/') {
      assert t[1..][0] == t[1] && t[1..][1..] == t[2..];
      if t[1] == '*' { BlockFrom(t, escapes); } else { LineFrom(t, 2, escapes); }
    }
    hide Block, Line;
  }

  lemma LineFrom(t: string, k: nat, escapes: bool)
    requires k <= |t|
    ensures Prepend("\U{5}", Read(InLine, t[k..], escapes)) == Scanned(Around("\U{5}", k, Line(t[k..]), "\U{5}"), t, escapes)
    ensures !Line(t[k..]).Stopped?
  {
    LineReads(t[k..], escapes);
    Opened("\U{5}", k, Line(t[k..]), "\U{5}", t, escapes);
  }

  lemma BlockFrom(t: string, escapes: bool)
    requires |t| >= 2
    ensures Prepend("\U{5}", Read(InBlock, t[2..], escapes)) == Scanned(Around("\U{5}", 2, Block(t[2..]), "\U{5}"), t, escapes)
  {
    BlockReads(t[2..], escapes);
    Opened("\U{5}", 2, Block(t[2..]), "\U{5}", t, escapes);
  }

  /** What opens a stretch in front of its scan. */
  lemma Opened(open: string, k: nat, r: Scan, close: string, t: string, escapes: bool)
    requires k <= |t| && (r.Closed? ==> r.used <= |t| - k)
    ensures Prepend(open, Closing(r, close, t[k..], escapes)) == Scanned(Around(open, k, r, close), t, escapes)
  {
    if r.Closed? {
      assert t[k..][r.used..] == t[k + r.used..];
      PrependTwice(open, r.out + close, Read(Outside, t[k + r.used..], escapes));
      assert open + (r.out + close) == open + r.out + close;
    } else if r.Stopped? {
      assert open + (r.out + close) == open + r.out + close && open + (r.out + "") == open + r.out;
    }
  }

  /** A scan together with what stands around it. */
  function Around(open: string, k: nat, r: Scan, close: string): (a: Scan)
    ensures a.Closed? ==> r.Closed? && a.used == k + r.used
  {
    match r
    case Closed(out, used) => Closed(open + out + close, k + used)
    case Stopped(out) => Stopped(if close == "\"" then open + out else open + out + close)
    case Overran => Overran
  }

  // ---------- white space ----------

  /** `t` with `pads[i]` put in front of its i-th character, and the last at its end,
      wherever that is outside strings and comments. */
  function Padded(m: Mode, t: string, pads: seq<string>, escapes: bool): string
    requires |pads| == |t| + 1
    decreases |t|
  {
    (if m == Outside then pads[0] else "")
    + if t == "" then "" else [t[0]] + Padded(After(m, t[0], escapes), t[1..], pads[1..], escapes)
  }

  lemma {:induction false} WhiteIsSkipped(w: string, t: string, escapes: bool)
    requires forall i | 0 <= i < |w| :: w[i] == ' ' || w[i] == '\t' || w[i] == '\n' || w[i] == '\r'
    ensures Read(Outside, w + t, escapes) == Read(Outside, t, escapes)
  {
    if w == "" {
      assert w + t == t;
    } else {
      assert (w + t)[1..] == w[1..] + t;
      WhiteIsSkipped(w[1..], t, escapes);
      PrependNothing(Read(Outside, t, escapes));
    }
  }

  lemma {:induction false} PaddedReads(m: Mode, t: string, pads: seq<string>, escapes: bool)
    requires |pads| == |t| + 1
    requires forall i | 0 <= i < |pads| ::
               forall j | 0 <= j < |pads[i]| ::
                 pads[i][j] == ' ' || pads[i][j] == '\t' || pads[i][j] == '\n' || pads[i][j] == '\r'
    ensures Read(m, Padded(m, t, pads, escapes), escapes) == Read(m, t, escapes)
    decreases |t|
  {
    var w := if m == Outside then pads[0] else "";
    if t == "" {
      assert w + "" == w;
      if m == Outside { WhiteIsSkipped(w, "", escapes); }
    } else {
      var next := After(m, t[0], escapes);
      var tail := Padded(next, t[1..], pads[1..], escapes);
      PaddedReads(next, t[1..], pads[1..], escapes);
      assert ([t[0]] + tail)[1..] == tail;
      if m == Outside {
        WhiteIsSkipped(w, [t[0]] + tail, escapes);
      } else {
        assert "" + ([t[0]] + tail) == [t[0]] + tail;
      }
    }
  }

  /** Hence the normaliser does not see it. */
  lemma PaddedNormalises(t: string, pads: seq<string>, escapes: bool)
    requires |pads| == |t| + 1
    requires forall i | 0 <= i < |pads| ::
               forall j | 0 <= j < |pads[i]| ::
                 pads[i][j] == ' ' || pads[i][j] == '\t' || pads[i][j] == '\n' || pads[i][j] == '\r'
    ensures Normal(Padded(Outside, t, pads, escapes), escapes) == Normal(t, escapes)
  {
    hide Normal, Padded, Read;
    NormalReads(t, escapes);
    NormalReads(Padded(Outside, t, pads, escapes), escapes);
    PaddedReads(Outside, t, pads, escapes);
  }
}
