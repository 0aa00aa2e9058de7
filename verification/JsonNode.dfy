/** Parsed JSON nodes: lazy parsing (JSONWorker.cpp, internalJSONNode.cpp) and
    writing (JSONWriter.cpp) with the options of JSONOptions.h. Numbers are kept
    as text and comments are skipped. */
module JsonNode {
  import opened Text
  import Escape
  import Normaliser
  import Numbers
  import Scanner

  datatype Kind = Null | String | Number | Bool | Array | Object

  /** The fields of `internalJSONNode`. A container that is not `fetched` still
      holds its members as text; a string, its quoted and escaped form. */
  datatype Node = Node(kind: Kind, name: string, nameEncoded: bool, text: string, textEncoded: bool,
                       fetched: bool, kids: seq<Node>)

  function Nullify(n: Node): Node {
    n.(kind := Null, text := "null", fetched := true)
  }

  // ---------- constructing nodes from text ----------

  /** The node for a name still escaped and a value still text. */
  function NewInternal(name: string, value: string): (r: Outcome<Node>)
    ensures r.Done? ==> r.value.kids == [] && (r.value.fetched || r.value.text == value)
  {
    match Escape.Unescaped(name)
    case Overrun => Overrun
    case Done(plain) =>
      var n := Node(Null, plain, Escape.Encoded(name), value, false, false, []);
      Done(
        if value == "" then n.(fetched := true)
        else
          var first, last := value[0], value[|value| - 1];
          if first == '\"' then (if last == '\"' then n.(kind := String) else Nullify(n))
          else if first == '{' then (if last == '}' then n.(kind := Object) else Nullify(n))
          else if first == '[' then (if last == ']' then n.(kind := Array) else Nullify(n))
          else if first == 't' || first == 'T' then
            (if value == "true" then n.(kind := Bool, fetched := true) else Nullify(n))
          else if first == 'f' || first == 'F' then
            (if value == "false" then n.(kind := Bool, fetched := true) else Nullify(n))
          else if first == 'n' || first == 'N' then
            (if value == "null" then n.(fetched := true) else Nullify(n))
          else if Numbers.Numeric(value) then n.(kind := Number)
          else Nullify(n))
  }

  /** Which kind a value is given, whatever its text; what is none of them is null. Only
      numbers, strings and containers keep something to fetch. */
  lemma KindIff(name: string, value: string)
    ensures NewInternal(name, value).Done? <==> Escape.Unescaped(name).Done?
    ensures NewInternal(name, value).Done? ==>
              var n := NewInternal(name, value).value;
              && Escape.Unescaped(name) == Done(n.name) && n.nameEncoded == Escape.Encoded(name)
              && (n.kind == Bool <==> value == "true" || value == "false")
              && (n.kind == Number <==> Numbers.Numeric(value))
              && (n.kind == String <==> value != "" && value[0] == '\"' && value[|value| - 1] == '\"')
              && (n.kind == Object <==> value != "" && value[0] == '{' && value[|value| - 1] == '}')
              && (n.kind == Array <==> value != "" && value[0] == '[' && value[|value| - 1] == ']')
              && n.text == (if n.kind == Null && value != "" then "null" else value)
              && (n.fetched <==> n.kind == Null || n.kind == Bool)
              && !n.textEncoded && n.kids == []
  {
    hide Numbers.Numeric, Escape.Unescaped, Escape.Encoded, Text.CStr;
    if Numbers.Numeric(value) {
      Numbers.NumericStart(value);
    }
  }

  /** Skips the comments in front of a name or a value; an unclosed one is not
      stopped by the terminator. */
  function SkipComments(s: string): (r: Outcome<string>)
    ensures r.Done? ==> |r.value| <= |s|
    decreases |s|
  {
    if s == "" || s[0] != COMMENT then Done(s)
    else if COMMENT !in s[1..] then Overrun
    else SkipComments(s[2 + IndexOf(COMMENT, s[1..])..])
  }

  function IndexOf(c: char, s: string): (i: nat)
    requires c in s
    ensures i < |s| && s[i] == c
  {
    if s[0] == c then 0 else 1 + IndexOf(c, s[1..])
  }

  /** Comments in front are skipped, one after the other, to whatever follows. */
  lemma CommentsAreSkipped(comment: string, s: string)
    requires COMMENT !in comment
    ensures SkipComments([COMMENT] + comment + [COMMENT] + s) == SkipComments(s)
    ensures s == "" || s[0] != COMMENT ==> SkipComments(s) == Done(s)
    ensures SkipComments([COMMENT] + comment) == Overrun
  {
    var t := [COMMENT] + comment + [COMMENT] + s;
    assert t[1..] == comment + [COMMENT] + s;
    assert t[1..][|comment|] == COMMENT;
    FirstIndex(COMMENT, t[1..], |comment|);
    assert t[2 + |comment|..] == s;
    assert ([COMMENT] + comment)[1..] == comment;
  }

  lemma {:induction false} FirstIndex(c: char, s: string, i: nat)
    requires i < |s| && s[i] == c && c !in s[..i]
    ensures IndexOf(c, s) == i
  {
    if i > 0 {
      assert s[0] == s[..i][0];
      assert s[1..][..i - 1] == s[..i][1..];
      FirstIndex(c, s[1..], i - 1);
    }
  }

  function NewNode(name: string, value: string, inArray: bool): (r: Outcome<Node>)
    ensures forall limit | |value| <= limit :: SmallNode(r, limit)
  {
    if inArray then
      match SkipComments(value)
      case Overrun => Overrun
      case Done(rest) => NewInternal(name, CStr(rest))
    else
      match SkipComments(name)
      case Overrun => Overrun
      case Done(rest) => if AtEnd(rest) then Overrun else NewInternal(CStr(rest[1..]), value)
  }

  /** The children `DoArray` or `DoNode` appends, and whether it then gave up and
      nullified the parent. */
  datatype Kids = Kids(nodes: seq<Node>, bad: bool)

  function Cons(n: Outcome<Node>, rest: Outcome<Kids>): Outcome<Kids> {
    if n.Overrun? || rest.Overrun? then Overrun
    else Done(Kids([n.value] + rest.value.nodes, rest.value.bad))
  }

  predicate SmallKids(r: Outcome<Kids>, limit: int) {
    r.Done? ==>
      forall i | 0 <= i < |r.value.nodes| ::
        r.value.nodes[i].kids == [] && (r.value.nodes[i].fetched || |r.value.nodes[i].text| <= limit)
  }

  predicate SmallNode(n: Outcome<Node>, limit: int) {
    n.Done? ==> n.value.kids == [] && (n.value.fetched || |n.value.text| <= limit)
  }

  lemma SmallCons(n: Outcome<Node>, rest: Outcome<Kids>, limit: int)
    requires SmallNode(n, limit) && SmallKids(rest, limit)
    ensures SmallKids(Cons(n, rest), limit)
  {
  }

  lemma SmallNothing(bad: bool, limit: int)
    ensures SmallKids(Done(Kids([], bad)), limit) && SmallKids(Overrun, limit)
  {
  }

  /** The elements from index `starting` of an array text on. */
  function ArrayKids(value: string, starting: nat): (r: Outcome<Kids>)
    requires 0 < starting < |value| && value[|value| - 1] == ']'
    ensures SmallKids(r, |value| - 2)
    decreases |value| - starting
  {
    hide NewNode, Scanner.Find, SmallKids, SmallNode, Cons;
    SmallNothing(true, |value| - 2);
    SmallNothing(false, |value| - 2);
    var ending := Scanner.Find(',', value[starting..]);
    var end := if ending.Some? then starting + ending.value else |value| - 1;
    var element := value[starting..end];
    if Scanner.Find(':', element).Some? then Done(Kids([], true))
    else
      var n := NewNode("", element, true);
      if n.Overrun? then Overrun
      else
        var rest := if ending.None? then Done(Kids([], false)) else ArrayKids(value, end + 1);
        SmallCons(n, rest, |value| - 2);
        Cons(n, rest)
  }

  /** The members from index `starting` of an object text on. A member without a
      quoted name in front of its colon makes the name a reversed range. */
  function ObjectKids(value: string, starting: nat): (r: Outcome<Kids>)
    requires 0 < starting < |value| && value[|value| - 1] == '}'
    ensures SmallKids(r, |value| - 2)
    decreases |value| - starting
  {
    hide NewNode, Scanner.Find, SmallKids, SmallNode, Cons;
    SmallNothing(true, |value| - 2);
    SmallNothing(false, |value| - 2);
    var colon := Scanner.Find(':', value[starting..]);
    if colon.None? then Done(Kids([], true))
    else if colon.value == 0 then Overrun
    else
      var nameEnd := starting + colon.value;
      var name := value[starting..nameEnd - 1];
      var comma := Scanner.Find(',', value[nameEnd..]);
      var end := if comma.Some? then nameEnd + comma.value else |value| - 1;
      var n := NewNode(name, value[nameEnd + 1..end], false);
      if n.Overrun? then Overrun
      else
        var rest := if comma.None? then Done(Kids([], false)) else ObjectKids(value, end + 1);
        SmallCons(n, rest, |value| - 2);
        Cons(n, rest)
  }

  function DoArray(value: string): (r: Outcome<Kids>)
    requires value != "" && value[|value| - 1] == ']'
    ensures SmallKids(r, |value| - 2)
  {
    if |value| <= 2 then Done(Kids([], false)) else ArrayKids(value, 1)
  }

  function DoNode(value: string): (r: Outcome<Kids>)
    requires value != "" && value[|value| - 1] == '}'
    ensures SmallKids(r, |value| - 2)
  {
    if |value| <= 2 then Done(Kids([], false)) else ObjectKids(value, 1)
  }

  /** One turn of the element loop: the comma at `ending`. */
  lemma ElementTurn(value: string, starting: nat, ending: Option<nat>)
    requires 0 < starting < |value| && value[|value| - 1] == ']'
    requires ending == Scanner.Shift(starting, Scanner.Find(',', value[starting..]))
    ensures var end := if ending.Some? then ending.value else |value| - 1;
            starting <= end < |value| && (ending.Some? ==> end + 1 < |value|) &&
            var element := value[starting..end];
            var n := NewNode("", element, true);
            ArrayKids(value, starting)
            == if Scanner.Find(':', element).Some? then Done(Kids([], true))
               else if n.Overrun? then Overrun
               else Cons(n, if ending.None? then Done(Kids([], false)) else ArrayKids(value, end + 1))
  {
    hide NewNode, Scanner.Find, SmallKids, Cons;
  }

  /** The element loop of `DoArray`. */
  method DoArrayLoop(value: string) returns (r: Outcome<Kids>)
    requires value != "" && value[|value| - 1] == ']'
    ensures r == DoArray(value)
  {
    hide NewNode, Scanner.Find, SmallKids, Cons, Append, ArrayKids;
    if |value| <= 2 {
      return Done(Kids([], false));
    }
    var nodes: seq<Node>, starting := [], 1;
    AppendNothing(ArrayKids(value, 1));
    while true
      invariant 0 < starting < |value|
      invariant DoArray(value) == Append(nodes, ArrayKids(value, starting))
      decreases |value| - starting
    {
      var ending := Scanner.FindNextRelevant(',', value, starting);
      ElementTurn(value, starting, ending);
      var end := if ending.Some? then ending.value else |value| - 1;
      var newValue := value[starting..end];
      assert newValue[0..] == newValue;
      var colon := Scanner.FindNextRelevant(':', newValue, 0);
      if colon.Some? {
        AppendLast(nodes, true);
        return Done(Kids(nodes, true));
      }
      var n := NewNode("", newValue, true);
      AppendLast(nodes, false);
      if n.Overrun? {
        return Overrun;
      }
      if ending.None? {
        AppendCons(nodes, n, Done(Kids([], false)));
        AppendLast(nodes + [n.value], false);
        return Done(Kids(nodes + [n.value], false));
      }
      AppendCons(nodes, n, ArrayKids(value, end + 1));
      nodes := nodes + [n.value];
      starting := end + 1;
    }
  }

  /** One turn of the member loop: the colon at `nameEnd`, the comma at `valueEnd`. */
  lemma MemberTurn(value: string, starting: nat, nameEnd: Option<nat>, valueEnd: Option<nat>)
    requires 0 < starting < |value| && value[|value| - 1] == '}'
    requires nameEnd == Scanner.Shift(starting, Scanner.Find(':', value[starting..]))
    requires nameEnd.Some? ==>
               valueEnd == Scanner.Shift(nameEnd.value, Scanner.Find(',', value[nameEnd.value..]))
    ensures ObjectKids(value, starting) ==
            if nameEnd.None? then Done(Kids([], true))
            else if nameEnd.value == starting then Overrun
            else
              var end := if valueEnd.Some? then valueEnd.value else |value| - 1;
              assert nameEnd.value + 1 <= end < |value| && (valueEnd.Some? ==> end + 1 < |value|);
              var n := NewNode(value[starting..nameEnd.value - 1], value[nameEnd.value + 1..end], false);
              if n.Overrun? then Overrun
              else Cons(n, if valueEnd.None? then Done(Kids([], false)) else ObjectKids(value, end + 1))
  {
    hide NewNode, Scanner.Find, SmallKids, Cons;
  }

  /** The member loop of `DoNode`. */
  method DoNodeLoop(value: string) returns (r: Outcome<Kids>)
    requires value != "" && value[|value| - 1] == '}'
    ensures r == DoNode(value)
  {
    hide NewNode, Scanner.Find, SmallKids, Cons, Append, ObjectKids;
    if |value| <= 2 {
      return Done(Kids([], false));
    }
    var nodes: seq<Node>, starting := [], 1;
    AppendNothing(ObjectKids(value, 1));
    while true
      invariant 0 < starting < |value|
      invariant DoNode(value) == Append(nodes, ObjectKids(value, starting))
      decreases |value| - starting
    {
      AppendLast(nodes, true);
      var nameEnd := Scanner.FindNextRelevant(':', value, starting);
      if nameEnd.None? {
        MemberTurn(value, starting, nameEnd, None);
        return Done(Kids(nodes, true));
      }
      var valueEnd := Scanner.FindNextRelevant(',', value, nameEnd.value);
      MemberTurn(value, starting, nameEnd, valueEnd);
      if nameEnd.value == starting {
        return Overrun;
      }
      var end := if valueEnd.Some? then valueEnd.value else |value| - 1;
      var n := NewNode(value[starting..nameEnd.value - 1], value[nameEnd.value + 1..end], false);
      if n.Overrun? {
        return Overrun;
      }
      if valueEnd.None? {
        AppendCons(nodes, n, Done(Kids([], false)));
        AppendLast(nodes + [n.value], false);
        return Done(Kids(nodes + [n.value], false));
      }
      AppendCons(nodes, n, ObjectKids(value, end + 1));
      nodes := nodes + [n.value];
      starting := end + 1;
    }
  }

  function Append(nodes: seq<Node>, r: Outcome<Kids>): Outcome<Kids> {
    if r.Overrun? then Overrun else Done(Kids(nodes + r.value.nodes, r.value.bad))
  }

  lemma AppendNothing(r: Outcome<Kids>)
    ensures Append([], r) == r
  {
    if r.Done? {
      assert [] + r.value.nodes == r.value.nodes;
    }
  }

  lemma AppendCons(nodes: seq<Node>, n: Outcome<Node>, rest: Outcome<Kids>)
    ensures n.Done? ==> Append(nodes, Cons(n, rest)) == Append(nodes + [n.value], rest)
    ensures n.Overrun? ==> Append(nodes, Cons(n, rest)) == Overrun
  {
    if n.Done? && rest.Done? {
      assert nodes + ([n.value] + rest.value.nodes) == nodes + [n.value] + rest.value.nodes;
    }
  }

  lemma AppendLast(nodes: seq<Node>, bad: bool)
    ensures Append(nodes, Done(Kids([], bad))) == Done(Kids(nodes, bad))
    ensures Append(nodes, Overrun) == Overrun
  {
    assert nodes + [] == nodes;
  }

  // ---------- fetching ----------

  predicate Bracketed(s: string, left: char, right: char) {
    s != "" && s[0] == left && s[|s| - 1] == right
  }

  /** New children go behind the ones the node already has; a container that
      `DoArray` or `DoNode` nullified loses the text `Nullify` gave it. */
  function WithKids(n: Node, r: Outcome<Kids>): Outcome<Node> {
    if r.Overrun? then Overrun
    else Done(n.(kind := if r.value.bad then Null else n.kind, text := "", fetched := true,
                 kids := n.kids + r.value.nodes))
  }

  function Fetch(n: Node): (r: Outcome<Node>)
    ensures r.Done? ==> r.value.fetched
  {
    if n.fetched then Done(n)
    else
      match n.kind
      case String =>
        if !Bracketed(n.text, '\"', '\"') then Done(Nullify(n))
        else if |n.text| < 2 then Overrun
        else
          var inner := n.text[1..|n.text| - 1];
          (match Escape.Unescaped(inner)
           case Overrun => Overrun
           case Done(s) => Done(n.(text := s, textEncoded := Escape.Encoded(inner), fetched := true)))
      case Object =>
        if Bracketed(n.text, '{', '}') then WithKids(n, DoNode(n.text)) else Done(Nullify(n))
      case Array =>
        if Bracketed(n.text, '[', ']') then WithKids(n, DoArray(n.text)) else Done(Nullify(n))
      case Number => Done(n.(fetched := true))
      case _ => Done(Nullify(n))
  }

  predicate Container(n: Node) {
    n.kind == Array || n.kind == Object
  }

  function Size(n: Node): nat {
    1 + (if n.fetched then 0 else |n.text|) + SizeAll(n.kids)
  }

  function SizeAll(kids: seq<Node>): nat {
    if kids == [] then 0 else Size(kids[0]) + SizeAll(kids[1..])
  }

  lemma {:induction false} SizeOfKid(kids: seq<Node>, i: nat)
    requires i < |kids|
    ensures Size(kids[i]) <= SizeAll(kids)
  {
    if i > 0 { SizeOfKid(kids[1..], i - 1); }
  }

  /** Fetching appends children that hold less text than the node did. */
  lemma FetchAppends(n: Node) returns (added: seq<Node>)
    requires Fetch(n).Done?
    ensures Fetch(n).value.kids == n.kids + added
    ensures forall i | 0 <= i < |added| :: Size(added[i]) < 1 + (if n.fetched then 0 else |n.text|)
  {
    hide DoNode, DoArray, Escape.Unescaped, Escape.Encoded;
    var f := Fetch(n).value;
    added := [];
    if !n.fetched && n.kind == Object && Bracketed(n.text, '{', '}') {
      added := DoNode(n.text).value.nodes;
    } else if !n.fetched && n.kind == Array && Bracketed(n.text, '[', ']') {
      added := DoArray(n.text).value.nodes;
    }
    forall i | 0 <= i < |added| ensures Size(added[i]) < 1 + (if n.fetched then 0 else |n.text|) {
      assert SizeAll(added[i].kids) == 0;
    }
  }

  lemma FetchShrinks(n: Node, i: nat)
    requires Fetch(n).Done? && i < |Fetch(n).value.kids|
    ensures Size(Fetch(n).value.kids[i]) < Size(n)
  {
    var added := FetchAppends(n);
    if i < |n.kids| {
      SizeOfKid(n.kids, i);
    }
  }

  /** `preparse`: fetches the node and everything below it. */
  function Preparse(n: Node): (r: Outcome<Node>)
    decreases Size(n)
  {
    match Fetch(n)
    case Overrun => Overrun
    case Done(f) =>
      if !Container(f) then Done(f)
      else
        match PreparseKids(n, 0)
        case Overrun => Overrun
        case Done(kids) => Done(f.(kids := kids))
  }

  /** The children of the fetched `n` from index `i` on, preparsed. */
  function PreparseKids(n: Node, i: nat): (r: Outcome<seq<Node>>)
    requires Fetch(n).Done? && i <= |Fetch(n).value.kids|
    decreases Size(n), |Fetch(n).value.kids| - i
  {
    var kids := Fetch(n).value.kids;
    if i == |kids| then Done([])
    else
      FetchShrinks(n, i);
      match Preparse(kids[i])
      case Overrun => Overrun
      case Done(kid) =>
        match PreparseKids(n, i + 1)
        case Overrun => Overrun
        case Done(rest) => Done([kid] + rest)
  }
}
