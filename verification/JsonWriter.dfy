/** The unformatted writer of JSONWriter.cpp. */
module JsonWriter {
  import opened Text
  import Escape
  import opened JsonNode
  import Normaliser

  function WriteName(n: Node, arrayChild: bool): string {
    if arrayChild then "" else "\"" + Escape.Unfix(n.name, n.nameEncoded) + "\":"
  }

  /** Text of a node that was not fetched: marks turn back into quotes, but only
      once the program has ever rewritten an escaped quote (`usedMark`). */
  function Dump(s: string, usedMark: bool): string {
    if !usedMark then s else seq(|s|, i requires 0 <= i < |s| => if s[i] == MARK then '\"' else s[i])
  }

  function Write(n: Node, arrayChild: bool, usedMark: bool): string
    decreases n, 1
  {
    var name := WriteName(n, arrayChild);
    if !n.fetched then name + Dump(n.text, usedMark)
    else
      match n.kind
      case Object => name + "{" + WriteChildren(n.kids, false, usedMark) + "}"
      case Array => name + "[" + WriteChildren(n.kids, true, usedMark) + "]"
      case String => name + "\"" + Escape.Unfix(n.text, n.textEncoded) + "\""
      case _ => name + n.text
  }

  function WriteChildren(kids: seq<Node>, inArray: bool, usedMark: bool): string
    decreases kids, 0
  {
    if kids == [] then ""
    else
      Write(kids[0], inArray, usedMark) +
      (if |kids| == 1 then "" else "," + WriteChildren(kids[1..], inArray, usedMark))
  }

  /** The child loop: every child but the last is followed by a comma. */
  method WriteChildrenLoop(kids: seq<Node>, inArray: bool, usedMark: bool) returns (res: string)
    ensures res == WriteChildren(kids, inArray, usedMark)
  {
    hide Write;
    res := "";
    var i := 0;
    while i < |kids|
      invariant 0 <= i <= |kids|
      invariant res + WriteChildren(kids[i..], inArray, usedMark) == WriteChildren(kids, inArray, usedMark)
    {
      assert kids[i..][0] == kids[i] && kids[i..][1..] == kids[i + 1..];
      res := res + Write(kids[i], inArray, usedMark);
      if i < |kids| - 1 {
        res := res + ",";
      }
      i := i + 1;
    }
  }

  /** `JSONWorker::parse`: the root node, still unfetched, or `None` for the
      `invalid_argument` it throws. An empty normalised text has no last character
      to look at. */
  function Parse(json: string): Outcome<Option<Node>> {
    match Normaliser.Normal(json, true)
    case Overrun => Overrun
    case Done(t) =>
      if t == "" then Overrun
      else
        var last := t[|t| - 1];
        match SkipComments(t)
        case Overrun => Overrun
        case Done(r) =>
          var root := Node(Null, "", false, r, false, false, []);
          if At(r, 0) == '{' && last == '}' then Done(Some(root.(kind := Object)))
          else if At(r, 0) == '[' && last == ']' then Done(Some(root.(kind := Array)))
          else Done(None)
  }

  /** What is parsed is an object or an array, unfetched and nameless, and holds the
      normalised text behind its comments; anything else is refused. */
  lemma ParseIff(json: string)
    requires Normaliser.Normal(json, true).Done? && Normaliser.Normal(json, true).value != ""
    requires SkipComments(Normaliser.Normal(json, true).value).Done?
    ensures var t := Normaliser.Normal(json, true).value;
            var r, last := SkipComments(t).value, t[|t| - 1];
            match Parse(json)
            case Overrun => false
            case Done(None) =>
              !(r != "" && r[0] == '{' && last == '}') && !(r != "" && r[0] == '[' && last == ']')
            case Done(Some(n)) =>
              && n == Node(n.kind, "", false, r, false, false, []) && r != ""
              && (n.kind == Object ==> r[0] == '{' && last == '}') && (n.kind == Array ==> r[0] == '[' && last == ']')
              && (n.kind == Object || n.kind == Array)
  {
    hide Normaliser.Normal, SkipComments;
  }

  /** Text of which nothing is left cannot be parsed, nor a comment that is not closed. */
  lemma NothingToParse(json: string)
    ensures Normaliser.Normal(json, true) == Done("") ==> Parse(json) == Overrun
    ensures Normaliser.Normal(json, true) == Overrun ==> Parse(json) == Overrun
  {
    hide Normaliser.Normal, SkipComments;
  }
}
