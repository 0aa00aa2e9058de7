/** How fetching cuts the text of a container into children, well-formed or not, and
    which texts it gives up on. */
module JsonPieces {
  import opened Text
  import Escape
  import Scanner
  import opened JsonNode

  // ---------- arrays ----------

  /** The stretches between the commas outside brackets and strings. The last character
      of `s` is the closing bracket. */
  function Elements(s: string): (es: seq<string>)
    requires s != "" && s[|s| - 1] == ']'
    ensures es != []
    decreases |s|
  {
    match Scanner.Find(',', s)
    case None => [s[..|s| - 1]]
    case Some(k) => [s[..k]] + Elements(s[k + 1..])
  }

  function Joined(es: seq<string>): string {
    if es == [] then "" else if |es| == 1 then es[0] else es[0] + "," + Joined(es[1..])
  }

  /** Nothing of the text is lost between the elements. */
  lemma {:induction false} ElementsJoin(s: string)
    requires s != "" && s[|s| - 1] == ']'
    ensures Joined(Elements(s)) + "]" == s
    decreases |s|
  {
    hide *;
    var comma := Scanner.Find(',', s);
    ElementsStep(s, comma);
    if comma.Some? {
      var k := comma.value;
      ElementsJoin(s[k + 1..]);
      JoinFirst(s, k, Elements(s[k + 1..]));
    } else {
      assert s == s[..|s| - 1] + [s[|s| - 1]];
      JoinOne(s[..|s| - 1]);
    }
  }

  lemma ElementsStep(s: string, comma: Option<nat>)
    requires s != "" && s[|s| - 1] == ']' && comma == Scanner.Find(',', s)
    ensures comma.None? ==> Elements(s) == [s[..|s| - 1]]
    ensures comma.Some? ==>
              var k := comma.value;
              k + 1 < |s| && s[k] == ',' && Elements(s) == [s[..k]] + Elements(s[k + 1..])
  {
    hide Scanner.Find;
  }

  lemma JoinOne(e: string)
    ensures Joined([e]) == e
  {
  }

  lemma JoinFirst(s: string, k: nat, es: seq<string>)
    requires k < |s| && s[k] == ',' && es != [] && Joined(es) + "]" == s[k + 1..]
    ensures Joined([s[..k]] + es) + "]" == s
  {
    assert ([s[..k]] + es)[1..] == es;
    var rest := Joined(es);
    hide Joined;
    assert s == s[..k] + [s[k]] + s[k + 1..];
    assert s[..k] + "," + rest + "]" == s[..k] + "," + (rest + "]");
  }

  predicate HasColon(element: string) {
    Scanner.Find(':', element).Some?
  }

  /** One child for each element, up to the first with a colon outside brackets and
      strings; there the array is given up. */
  ghost predicate ChildrenOf(es: seq<string>, r: Outcome<Kids>) {
    match r
    case Done(Kids(nodes, bad)) =>
      && |nodes| <= |es|
      && (forall i | 0 <= i < |nodes| :: !HasColon(es[i]) && NewNode("", es[i], true) == Done(nodes[i]))
      && (if |nodes| < |es| then bad && HasColon(es[|nodes|]) else !bad)
    case Overrun =>
      exists k | 0 <= k < |es| ::
        NewNode("", es[k], true) == Overrun && forall i | 0 <= i <= k :: !HasColon(es[i])
  }

  lemma FirstChild(element: string, es: seq<string>, n: Outcome<Node>, r: Outcome<Kids>)
    requires !HasColon(element) && n == NewNode("", element, true)
    requires n.Done? ==> ChildrenOf(es, r)
    ensures ChildrenOf([element] + es, if n.Overrun? then Overrun else Cons(n, r))
  {
    hide NewNode, HasColon;
    var all := [element] + es;
    if n.Overrun? {
      assert all[0] == element;
    } else if r.Overrun? {
      var k :| 0 <= k < |es| && NewNode("", es[k], true) == Overrun && forall i | 0 <= i <= k :: !HasColon(es[i]);
      assert all[k + 1] == es[k] && forall i | 0 < i <= k + 1 :: all[i] == es[i - 1];
    } else {
      assert forall i | 0 < i < |all| :: all[i] == es[i - 1];
    }
  }

  lemma {:induction false} ArrayByElements(value: string, starting: nat)
    requires 0 < starting < |value| && value[|value| - 1] == ']'
    ensures ChildrenOf(Elements(value[starting..]), ArrayKids(value, starting))
    decreases |value| - starting
  {
    hide NewNode, Scanner.Find, ArrayKids, Cons, ChildrenOf;
    var s := value[starting..];
    var comma := Scanner.Find(',', s);
    ElementTurn(value, starting, Scanner.Shift(starting, comma));
    var end := if comma.Some? then starting + comma.value else |value| - 1;
    var element := value[starting..end];
    var n := NewNode("", element, true);
    assert s[..end - starting] == element;
    if comma.Some? {
      assert s[comma.value + 1..] == value[end + 1..];
      if HasColon(element) {
        GivesUp(element, Elements(value[end + 1..]));
      } else {
        ArrayByElements(value, end + 1);
        FirstChild(element, Elements(value[end + 1..]), n, ArrayKids(value, end + 1));
      }
    } else {
      assert [element] + [] == [element];
      if HasColon(element) {
        GivesUp(element, []);
      } else {
        NoneLeft();
        FirstChild(element, [], n, Done(Kids([], false)));
      }
    }
  }

  lemma GivesUp(element: string, es: seq<string>)
    requires HasColon(element)
    ensures ChildrenOf([element] + es, Done(Kids([], true)))
  {
  }

  lemma NoneLeft()
    ensures ChildrenOf([], Done(Kids([], false)))
  {
  }

  /** The children of any array text: its elements, cut at exactly the outside commas. */
  lemma ArrayIsItsElements(value: string)
    requires |value| > 2 && value[0] == '[' && value[|value| - 1] == ']'
    ensures ChildrenOf(Elements(value[1..]), DoArray(value)) && "[" + Joined(Elements(value[1..])) + "]" == value
  {
    ArrayByElements(value, 1);
    ElementsJoin(value[1..]);
    assert value == [value[0]] + value[1..];
  }

  // ---------- objects ----------

  /** A member as it is cut: at its colon and its comma; or why it cannot be. `quote` is
      the character in front of the colon, which is dropped. */
  datatype Piece = Pair(name: string, quote: char, value: string) | NoColon(rest: string) | NoName(rest: string)

  /** Where the first member of an object text ends. */
  function EndOf(s: string, colon: nat, comma: Option<nat>): nat
    requires s != ""
  {
    if comma.Some? then colon + comma.value else |s| - 1
  }

  lemma FirstEnd(s: string, colon: nat, comma: Option<nat>)
    requires s != "" && s[|s| - 1] == '}' && Scanner.Find(':', s) == Some(colon)
    requires comma == Scanner.Find(',', s[colon..])
    ensures s[colon] == ':' && colon < EndOf(s, colon, comma) < |s|
    ensures comma.Some? ==> s[EndOf(s, colon, comma)] == ',' && EndOf(s, colon, comma) + 1 < |s|
  {
    hide Scanner.Find;
    if comma.Some? {
      assert s[colon..][comma.value] == s[colon + comma.value];
    }
  }

  /** The member whose colon and end are known. */
  function PairAt(s: string, colon: nat, end: nat): Piece
    requires 0 < colon < end <= |s|
  {
    Pair(s[..colon - 1], s[colon - 1], s[colon + 1..end])
  }

  function Members(s: string): (ps: seq<Piece>)
    requires s != "" && s[|s| - 1] == '}'
    ensures ps != []
    decreases |s|, 1
  {
    var colon := Scanner.Find(':', s);
    if colon.None? then [NoColon(s[..|s| - 1])]
    else if colon.value == 0 then [NoName(s[..|s| - 1])]
    else
      var comma := Scanner.Find(',', s[colon.value..]);
      FirstEnd(s, colon.value, comma);
      FromPair(s, colon.value, comma)
  }

  function FromPair(s: string, colon: nat, comma: Option<nat>): (ps: seq<Piece>)
    requires s != "" && s[|s| - 1] == '}' && 0 < colon < EndOf(s, colon, comma) < |s|
    requires comma.Some? ==> EndOf(s, colon, comma) + 1 < |s|
    ensures ps != []
    decreases |s|, 0
  {
    var end := EndOf(s, colon, comma);
    [PairAt(s, colon, end)] + if comma.Some? then Members(s[end + 1..]) else []
  }

  function TextOf(p: Piece): string {
    match p
    case Pair(name, quote, value) => name + [quote] + ":" + value
    case NoColon(rest) => rest
    case NoName(rest) => rest
  }

  function JoinedMembers(ps: seq<Piece>): string {
    if ps == [] then "" else if |ps| == 1 then TextOf(ps[0]) else TextOf(ps[0]) + "," + JoinedMembers(ps[1..])
  }

  lemma {:induction false} MembersJoin(s: string)
    requires s != "" && s[|s| - 1] == '}'
    ensures JoinedMembers(Members(s)) + "}" == s
    decreases |s|
  {
    hide *;
    var colon := Scanner.Find(':', s);
    if colon.None? || colon.value == 0 {
      WholeRest(s);
    } else {
      var comma := Scanner.Find(',', s[colon.value..]);
      FirstPiece(s, colon.value, comma);
      var end := EndOf(s, colon.value, comma);
      var p := PairAt(s, colon.value, end);
      Around(s, colon.value, end);
      if comma.Some? {
        MembersJoin(s[end + 1..]);
        JoinedStep(s, end, p, Members(s[end + 1..]));
      } else {
        LastEnd(s, colon.value);
        JoinedEnd(s, p);
      }
    }
  }

  lemma WholeRest(s: string)
    requires s != "" && s[|s| - 1] == '}' && (Scanner.Find(':', s).None? || Scanner.Find(':', s).value == 0)
    ensures JoinedMembers(Members(s)) + "}" == s
  {
    hide Scanner.Find;
    assert s == s[..|s| - 1] + [s[|s| - 1]];
  }

  lemma JoinedStep(s: string, end: nat, p: Piece, ps: seq<Piece>)
    requires end < |s| && s[end] == ',' && TextOf(p) == s[..end] && ps != []
    requires JoinedMembers(ps) + "}" == s[end + 1..]
    ensures JoinedMembers([p] + ps) + "}" == s
  {
    assert ([p] + ps)[1..] == ps;
    var rest := JoinedMembers(ps);
    hide TextOf, JoinedMembers;
    assert s == s[..end] + [s[end]] + s[end + 1..];
    assert s[..end] + "," + rest + "}" == s[..end] + "," + (rest + "}");
  }

  lemma LastEnd(s: string, colon: nat)
    requires s != ""
    ensures EndOf(s, colon, None) == |s| - 1
  {
  }

  lemma JoinedEnd(s: string, p: Piece)
    requires s != "" && s[|s| - 1] == '}' && TextOf(p) == s[..|s| - 1]
    ensures JoinedMembers([p] + []) + "}" == s
  {
    hide TextOf;
    assert [p] + [] == [p];
    assert s == s[..|s| - 1] + [s[|s| - 1]];
  }

  lemma Around(s: string, colon: nat, end: nat)
    requires 0 < colon < end <= |s| && s[colon] == ':'
    ensures TextOf(PairAt(s, colon, end)) == s[..end]
  {
  }

  /** One child for each member; without a colon the object is given up, and without a
      name in front of it the name is read from outside the text. */
  ghost predicate MembersOf(ps: seq<Piece>, r: Outcome<Kids>) {
    match r
    case Done(Kids(nodes, bad)) =>
      && |nodes| <= |ps|
      && (forall i | 0 <= i < |nodes| :: ps[i].Pair? && NewNode(ps[i].name, ps[i].value, false) == Done(nodes[i]))
      && (if |nodes| < |ps| then bad && ps[|nodes|].NoColon? else !bad)
    case Overrun =>
      exists k | 0 <= k < |ps| ::
        && (ps[k].NoName? || (ps[k].Pair? && NewNode(ps[k].name, ps[k].value, false) == Overrun))
        && forall i | 0 <= i < k :: ps[i].Pair?
  }

  lemma FirstMember(p: Piece, ps: seq<Piece>, n: Outcome<Node>, r: Outcome<Kids>)
    requires p.Pair? && n == NewNode(p.name, p.value, false)
    requires n.Done? ==> MembersOf(ps, r)
    ensures MembersOf([p] + ps, if n.Overrun? then Overrun else Cons(n, r))
  {
    hide NewNode;
    var all := [p] + ps;
    if n.Overrun? {
      assert all[0] == p;
    } else if r.Overrun? {
      var k :| 0 <= k < |ps|
               && (ps[k].NoName? || (ps[k].Pair? && NewNode(ps[k].name, ps[k].value, false) == Overrun))
               && forall i | 0 <= i < k :: ps[i].Pair?;
      assert all[k + 1] == ps[k] && forall i | 0 < i <= k + 1 :: all[i] == ps[i - 1];
    } else {
      assert forall i | 0 < i < |all| :: all[i] == ps[i - 1];
    }
  }

  lemma Last(p: Piece)
    ensures p.NoColon? ==> MembersOf([p], Done(Kids([], true)))
    ensures p.NoName? ==> MembersOf([p], Overrun)
    ensures MembersOf([], Done(Kids([], false)))
  {
    assert [p][0] == p;
  }

  lemma {:induction false} ObjectByMembers(value: string, starting: nat)
    requires 0 < starting < |value| && value[|value| - 1] == '}'
    ensures MembersOf(Members(value[starting..]), ObjectKids(value, starting))
    decreases |value| - starting
  {
    hide NewNode, Scanner.Find, ObjectKids, Cons, MembersOf;
    var s := value[starting..];
    var colon := Scanner.Find(':', s);
    if colon.None? {
      MemberTurn(value, starting, None, None);
      Last(NoColon(s[..|s| - 1]));
    } else {
      var nameEnd := starting + colon.value;
      assert s[colon.value..] == value[nameEnd..];
      var comma := Scanner.Find(',', value[nameEnd..]);
      MemberTurn(value, starting, Some(nameEnd), Scanner.Shift(nameEnd, comma));
      if colon.value == 0 {
        Last(NoName(s[..|s| - 1]));
      } else {
        OneMember(value, starting, nameEnd, comma);
      }
    }
  }

  lemma FirstPiece(s: string, colon: nat, comma: Option<nat>)
    requires s != "" && s[|s| - 1] == '}' && Scanner.Find(':', s) == Some(colon) && colon > 0
    requires comma == Scanner.Find(',', s[colon..])
    ensures s[colon] == ':' && colon < EndOf(s, colon, comma) < |s|
    ensures comma.Some? ==> s[EndOf(s, colon, comma)] == ',' && EndOf(s, colon, comma) + 1 < |s|
    ensures var end := EndOf(s, colon, comma);
            Members(s) == [PairAt(s, colon, end)] + if comma.Some? then Members(s[end + 1..]) else []
  {
    hide *;
    FirstEnd(s, colon, comma);
    MembersFromPair(s, colon, comma);
    FromPairStep(s, colon, comma);
  }

  lemma MembersFromPair(s: string, colon: nat, comma: Option<nat>)
    requires s != "" && s[|s| - 1] == '}' && Scanner.Find(':', s) == Some(colon) && colon > 0
    requires comma == Scanner.Find(',', s[colon..]) && colon < EndOf(s, colon, comma) < |s|
    requires comma.Some? ==> EndOf(s, colon, comma) + 1 < |s|
    ensures Members(s) == FromPair(s, colon, comma)
  {
    hide Scanner.Find, FromPair, EndOf;
  }

  lemma FromPairStep(s: string, colon: nat, comma: Option<nat>)
    requires s != "" && s[|s| - 1] == '}' && 0 < colon < EndOf(s, colon, comma) < |s|
    requires comma.Some? ==> EndOf(s, colon, comma) + 1 < |s|
    ensures var end := EndOf(s, colon, comma);
            FromPair(s, colon, comma) == [PairAt(s, colon, end)] + if comma.Some? then Members(s[end + 1..]) else []
  {
    hide Scanner.Find, Members, EndOf, PairAt;
  }

  lemma Slices(value: string, starting: nat, nameEnd: nat, end: nat)
    requires starting < nameEnd < end < |value|
    ensures var s, colon := value[starting..], nameEnd - starting;
            && PairAt(s, colon, end - starting)
               == Pair(value[starting..nameEnd - 1], value[nameEnd - 1], value[nameEnd + 1..end])
            && s[end - starting + 1..] == value[end + 1..]
  {
  }

  /** The piece of the member at `starting`, in terms of the whole text. */
  lemma PieceAt(value: string, starting: nat, nameEnd: nat, comma: Option<nat>)
    requires 0 < starting < nameEnd < |value| && value[|value| - 1] == '}'
    requires Scanner.Find(':', value[starting..]) == Some(nameEnd - starting)
    requires comma == Scanner.Find(',', value[nameEnd..])
    ensures var end := if comma.Some? then nameEnd + comma.value else |value| - 1;
            && nameEnd < end < |value| && (comma.Some? ==> end + 1 < |value|)
            && Members(value[starting..])
               == [Pair(value[starting..nameEnd - 1], value[nameEnd - 1], value[nameEnd + 1..end])]
                  + if comma.Some? then Members(value[end + 1..]) else []
  {
    hide Scanner.Find, Members;
    var s, colon := value[starting..], nameEnd - starting;
    assert s[colon..] == value[nameEnd..];
    FirstPiece(s, colon, comma);
    Slices(value, starting, nameEnd, if comma.Some? then nameEnd + comma.value else |value| - 1);
  }

  lemma OneMember(value: string, starting: nat, nameEnd: nat, comma: Option<nat>)
    requires 0 < starting < nameEnd < |value| && value[|value| - 1] == '}'
    requires Scanner.Find(':', value[starting..]) == Some(nameEnd - starting)
    requires comma == Scanner.Find(',', value[nameEnd..])
    ensures MembersOf(Members(value[starting..]), ObjectKids(value, starting))
    decreases |value| - starting, 0
  {
    hide *;
    PieceAt(value, starting, nameEnd, comma);
    TurnAt(value, starting, nameEnd, comma);
    var end := if comma.Some? then nameEnd + comma.value else |value| - 1;
    var p := Pair(value[starting..nameEnd - 1], value[nameEnd - 1], value[nameEnd + 1..end]);
    if comma.Some? {
      ObjectByMembers(value, end + 1);
      FirstMember(p, Members(value[end + 1..]), NewNode(p.name, p.value, false), ObjectKids(value, end + 1));
    } else {
      Last(p);
      FirstMember(p, [], NewNode(p.name, p.value, false), Done(Kids([], false)));
    }
  }

  /** The turn of the loop at the same member. */
  lemma TurnAt(value: string, starting: nat, nameEnd: nat, comma: Option<nat>)
    requires 0 < starting < nameEnd < |value| && value[|value| - 1] == '}'
    requires Scanner.Find(':', value[starting..]) == Some(nameEnd - starting)
    requires comma == Scanner.Find(',', value[nameEnd..])
    ensures var end := if comma.Some? then nameEnd + comma.value else |value| - 1;
            && nameEnd < end < |value| && (comma.Some? ==> end + 1 < |value|)
            && var n := NewNode(value[starting..nameEnd - 1], value[nameEnd + 1..end], false);
               ObjectKids(value, starting)
               == if n.Overrun? then Overrun
                  else Cons(n, if comma.Some? then ObjectKids(value, end + 1) else Done(Kids([], false)))
  {
    hide NewNode, Scanner.Find, ObjectKids, Cons;
    MemberTurn(value, starting, Some(nameEnd), Scanner.Shift(nameEnd, comma));
  }

  /** The children of any object text: its members, cut at the outside colons and commas. */
  lemma ObjectIsItsMembers(value: string)
    requires |value| > 2 && value[0] == '{' && value[|value| - 1] == '}'
    ensures MembersOf(Members(value[1..]), DoNode(value)) && "{" + JoinedMembers(Members(value[1..])) + "}" == value
  {
    ObjectByMembers(value, 1);
    MembersJoin(value[1..]);
    assert value == [value[0]] + value[1..];
  }

  // ---------- what fetching makes of them ----------

  /** A container fetched from any text with its brackets: the children behind those that
      were there; null if the text was given up, but with the children found by then. */
  lemma FetchedFromPieces(n: Node)
    requires !n.fetched && Container(n) && |n.text| > 2
    requires n.kind == Array ==> n.text[0] == '[' && n.text[|n.text| - 1] == ']'
    requires n.kind == Object ==> n.text[0] == '{' && n.text[|n.text| - 1] == '}'
    ensures var r := if n.kind == Array then DoArray(n.text) else DoNode(n.text);
            && (n.kind == Array ==> ChildrenOf(Elements(n.text[1..]), r))
            && (n.kind == Object ==> MembersOf(Members(n.text[1..]), r))
            && match r
               case Overrun => Fetch(n) == Overrun
               case Done(Kids(nodes, bad)) =>
                 && Fetch(n).Done? && var m := Fetch(n).value;
                    && m.fetched && m.name == n.name && m.nameEncoded == n.nameEncoded && m.text == ""
                    && m.kids == n.kids + nodes && m.kind == (if bad then Null else n.kind)
  {
    hide DoArray, DoNode, ChildrenOf, MembersOf, Elements, Members, Joined, JoinedMembers;
    if n.kind == Array { ArrayIsItsElements(n.text); } else { ObjectIsItsMembers(n.text); }
  }

  /** Any other text a container may hold gives null; a string its decoded inside. */
  lemma FetchedElse(n: Node)
    requires !n.fetched
    ensures n.kind == Array && !(n.text != "" && n.text[0] == '[' && n.text[|n.text| - 1] == ']') ==>
              Fetch(n) == Done(n.(kind := Null, text := "null", fetched := true))
    ensures n.kind == Object && !(n.text != "" && n.text[0] == '{' && n.text[|n.text| - 1] == '}') ==>
              Fetch(n) == Done(n.(kind := Null, text := "null", fetched := true))
    ensures n.kind == String && |n.text| >= 2 && n.text[0] == '\"' && n.text[|n.text| - 1] == '\"' ==>
              var inner := n.text[1..|n.text| - 1];
              match Escape.Unescaped(inner)
              case Overrun => Fetch(n) == Overrun
              case Done(s) => Fetch(n) == Done(n.(text := s, textEncoded := Escape.Encoded(inner), fetched := true))
    ensures n.kind == Number ==> Fetch(n) == Done(n.(fetched := true))
  {
    hide DoArray, DoNode, Escape.Unescaped, Escape.Encoded;
  }
}
