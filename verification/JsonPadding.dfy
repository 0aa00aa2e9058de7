/** White space in the text of a tree: where it is dropped, and where it stays. */
module JsonPadding {
  import opened Text
  import opened Normaliser
  import opened Reader
  import opened JsonNode
  import opened JsonWriter
  import opened JsonRoundTrip
  import opened JsonNormal
  import JsonTransparency

  /** White space anywhere outside strings and comments makes no difference to what is
      parsed, whatever the text. */
  lemma WhiteSpaceDoesNotMatter(t: string, pads: seq<string>)
    requires |pads| == |t| + 1
    requires forall i | 0 <= i < |pads| ::
               forall j | 0 <= j < |pads[i]| ::
                 pads[i][j] == ' ' || pads[i][j] == '\t' || pads[i][j] == '\n' || pads[i][j] == '\r'
    ensures Parse(Padded(Mode.Outside, t, pads, true)) == Parse(t)
  {
    hide Normal, Padded;
    PaddedNormalises(t, pads, true);
  }

  /** Written text with white space anywhere outside its strings parses to the same tree. */
  lemma PaddedTextParses(n: Node, usedMark: bool, pads: seq<string>)
    requires JsonTransparency.Faithful(n, usedMark) && Container(n) && |pads| == |Write(n, true, usedMark)| + 1
    requires forall i | 0 <= i < |pads| ::
               forall j | 0 <= j < |pads[i]| ::
                 pads[i][j] == ' ' || pads[i][j] == '\t' || pads[i][j] == '\n' || pads[i][j] == '\r'
    ensures var parsed := Parse(Padded(Mode.Outside, Write(n, true, usedMark), pads, true));
            && parsed.Done? && parsed.value.Some?
            && var reread, whole := Preparse(parsed.value.value), Preparse(n);
               reread.Done? && whole.Done? && JsonTransparency.View(reread.value) == JsonTransparency.Named(JsonTransparency.Written(JsonTransparency.View(whole.value)), "")
  {
    hide *;
    WhiteSpaceDoesNotMatter(Write(n, true, usedMark), pads);
    JsonTransparency.WriteThenParse(n, usedMark);
  }

  // ---------- comments ----------

  /** The text of a block comment: it does not hold the end of one, nor the characters
      that end a text or a comment inside. */
  predicate CommentText(c: string) {
    NulFree(c) && COMMENT !in c && forall i | 0 <= i < |c| :: !(c[i] == '*' && (c + "*/")[i + 1] == '/')
  }

  lemma {:induction false} BlockCloses(c: string, t: string)
    requires CommentText(c)
    ensures Block(c + "*/" + t) == Closed(c, |c| + 2)
  {
    var s := c + "*/" + t;
    if c != "" {
      assert s[1..] == c[1..] + "*/" + t && At(s, 1) == (c + "*/")[1];
      assert forall i | 0 <= i < |c[1..]| :: c[1..][i] == c[i + 1] && (c[1..] + "*/")[i + 1] == (c + "*/")[i + 2];
      BlockCloses(c[1..], t);
      assert [c[0]] + c[1..] == c;
    }
  }

  lemma CommentNormalises(c: string, t: string)
    requires CommentText(c)
    ensures Normal("/*" + c + "*/" + t, true) == Prepend([COMMENT] + c + [COMMENT], Normal(t, true))
  {
    var s := "/*" + c + "*/" + t;
    assert s[2..] == c + "*/" + t && s[0] == '/' && At(s, 1) == '*';
    BlockCloses(c, t);
    hide Block;
    assert Piece(s, true) == Closed([COMMENT] + c + [COMMENT], |c| + 4);
    assert s[|c| + 4..] == t;
    hide Piece;
  }

  /** A comment in front of a text makes no difference to what is parsed. */
  lemma CommentInFront(c: string, t: string)
    requires CommentText(c) && Normal(t, true) != Done("")
    ensures Parse("/*" + c + "*/" + t) == Parse(t)
  {
    hide Normal, SkipComments;
    CommentNormalises(c, t);
    if Normal(t, true).Done? {
      var stretch, r := [COMMENT] + c + [COMMENT], Normal(t, true).value;
      CommentsAreSkipped(c, r);
      assert (stretch + r)[|stretch + r| - 1] == r[|r| - 1];
    }
  }

  /** White space between two texts is dropped. */
  lemma WhiteBetween(a: string, x: string, w: string, b: string, y: string)
    requires NormalisesTo(a, x) && NormalisesTo(b, y)
    requires forall i | 0 <= i < |w| :: w[i] == ' ' || w[i] == '\t' || w[i] == '\n' || w[i] == '\r'
    ensures NormalisesTo(a + w + b, x + y)
  {
    hide NormalisesTo, Read;
    forall rest ensures Normal(w + rest, true) == Prepend("", Normal(rest, true)) {
      WhiteIsSkipped(w, rest, true);
      NormalReads(w + rest, true);
      NormalReads(rest, true);
      PrependNothing(Normal(rest, true));
    }
    Dropped(w);
    NormalConcat(a, x, w, "");
    NormalConcat(a + w, x + "", b, y);
    assert x + "" + y == x + y;
  }

  lemma Dropped(w: string)
    requires forall rest :: Normal(w + rest, true) == Prepend("", Normal(rest, true))
    ensures NormalisesTo(w, "")
  {
  }

  /** White space inside a string stays. */
  lemma WhiteInside(before: string, w: string, after: string)
    requires Body(before) && Body(after)
    requires forall i | 0 <= i < |w| :: w[i] == ' ' || w[i] == '\t' || w[i] == '\n' || w[i] == '\r'
    ensures NormalisesTo("\"" + (before + w + after) + "\"", "\"" + (before + w + after) + "\"")
  {
    hide NormalisesTo;
    WhiteIsBody(w);
    BodyConcat(before, w);
    BodyConcat(before + w, after);
    NormalString(before + w + after, false);
  }

  lemma {:induction false} WhiteIsBody(w: string)
    requires forall i | 0 <= i < |w| :: w[i] == ' ' || w[i] == '\t' || w[i] == '\n' || w[i] == '\r'
    ensures Body(w)
  {
    if w != "" { WhiteIsBody(w[1..]); }
  }

  lemma {:induction false} BodyConcat(a: string, b: string)
    requires Body(a) && Body(b)
    ensures Body(a + b)
    decreases |a|
  {
    if a == "" {
      assert a + b == b;
    } else {
      var k := if a[0] == '\\' then 2 else 1;
      BodyConcat(a[k..], b);
      assert (a + b)[k..] == a[k..] + b;
    }
  }
}
