/** Writing a tree and parsing the text gives the same tree, whichever parts of it
    have been fetched. */
module JsonTransparency {
  import opened Text
  import Escape
  import Numbers
  import opened Normaliser
  import opened JsonNode
  import opened JsonWriter
  import opened JsonRoundTrip
  import opened JsonNormal

  // ---------- faithful trees ----------

  /** `r` is the text an unfetched node holds. */
  predicate HoldsText(n: Node, r: Raw, usedMark: bool) {
    && WellFormed(r) && AllDecodable(r) && (usedMark ==> Clean(r))
    && n == Unfetched(r, n.name, n.nameEncoded)
  }

  /** A tree in any state of fetching: fetched strings are NUL-free and flagged
      properly, fetched numbers are numeric, and what is not fetched is
      well-formed text. Setters and the parser build only such trees. */
  ghost predicate Faithful(n: Node, usedMark: bool) {
    if !n.fetched then exists r :: HoldsText(n, r, usedMark)
    else
      match n.kind
      case Null => n.text == "null"
      case Bool => n.text == "true" || n.text == "false"
      case Number => NulFree(n.text) && Numbers.Numeric(n.text)
      case String => Storable(n.text, n.textEncoded)
      case Array => forall i | 0 <= i < |n.kids| :: Faithful(n.kids[i], usedMark)
      case Object =>
        forall i | 0 <= i < |n.kids| ::
          Storable(n.kids[i].name, n.kids[i].nameEncoded) && Faithful(n.kids[i], usedMark)
  }

  ghost predicate FaithfulMember(n: Node, usedMark: bool) {
    Storable(n.name, n.nameEncoded) && Faithful(n, usedMark)
  }

  /** The normalised text of a faithful tree. */
  ghost function RawOf(n: Node, usedMark: bool): Raw
    requires Faithful(n, usedMark)
    decreases n, 1
  {
    if !n.fetched then
      var r :| HoldsText(n, r, usedMark);
      r
    else
      match n.kind
      case String => Quoted(RawBody(n.text, n.textEncoded))
      case Array => Arr(RawItems(n.kids, usedMark))
      case Object => Obj(RawMembers(n.kids, usedMark))
      case _ => Lit(n.text)
  }

  ghost function RawItems(kids: seq<Node>, usedMark: bool): seq<Raw>
    requires forall i | 0 <= i < |kids| :: Faithful(kids[i], usedMark)
    decreases kids, 0
  {
    if kids == [] then [] else [RawOf(kids[0], usedMark)] + RawItems(kids[1..], usedMark)
  }

  ghost function RawMembers(kids: seq<Node>, usedMark: bool): seq<Member>
    requires forall i | 0 <= i < |kids| :: FaithfulMember(kids[i], usedMark)
    decreases kids, 0
  {
    if kids == [] then []
    else
      var kid := kids[0];
      assert FaithfulMember(kid, usedMark);
      [Member(RawBody(kid.name, kid.nameEncoded), RawOf(kid, usedMark))] + RawMembers(kids[1..], usedMark)
  }

  lemma {:induction false} RawIsWellFormed(n: Node, usedMark: bool)
    requires Faithful(n, usedMark)
    ensures WellFormed(RawOf(n, usedMark))
    decreases n, 1
  {
    if n.fetched {
      match n.kind
      case String => StoredString(n.text, n.textEncoded);
      case Array =>
        RawItemsAreWellFormed(n.kids, usedMark);
        assert RawOf(n, usedMark) == Arr(RawItems(n.kids, usedMark));
      case Object =>
        RawMembersAreWellFormed(n.kids, usedMark);
        assert RawOf(n, usedMark) == Obj(RawMembers(n.kids, usedMark));
      case _ =>
    }
  }

  lemma {:induction false} RawItemsAreWellFormed(kids: seq<Node>, usedMark: bool)
    requires forall i | 0 <= i < |kids| :: Faithful(kids[i], usedMark)
    ensures var items := RawItems(kids, usedMark); forall i | 0 <= i < |items| :: WellFormed(items[i])
    decreases kids, 0
  {
    hide Faithful, RawOf, WellFormed;
    if kids != [] {
      RawIsWellFormed(kids[0], usedMark);
      RawItemsAreWellFormed(kids[1..], usedMark);
      var items := RawItems(kids, usedMark);
      assert items[0] == RawOf(kids[0], usedMark) && items[1..] == RawItems(kids[1..], usedMark);
      assert forall i | 1 <= i < |items| :: items[i] == items[1..][i - 1];
    }
  }

  lemma {:induction false} RawMembersAreWellFormed(kids: seq<Node>, usedMark: bool)
    requires forall i | 0 <= i < |kids| :: FaithfulMember(kids[i], usedMark)
    ensures var members := RawMembers(kids, usedMark);
            forall i | 0 <= i < |members| :: WellFormedMember(members[i])
    decreases kids, 0
  {
    hide Faithful, RawOf, WellFormed;
    if kids != [] {
      var kid := kids[0];
      StoredString(kid.name, kid.nameEncoded);
      RawIsWellFormed(kid, usedMark);
      RawMembersAreWellFormed(kids[1..], usedMark);
      var members := RawMembers(kids, usedMark);
      assert members[0] == Member(RawBody(kid.name, kid.nameEncoded), RawOf(kid, usedMark));
      assert members[1..] == RawMembers(kids[1..], usedMark);
      assert forall i | 1 <= i < |members| :: members[i] == members[1..][i - 1];
    }
  }

  // ---------- what is written normalises to the raw text ----------

  lemma NormalName(n: Node)
    requires Storable(n.name, n.nameEncoded)
    ensures NormalisesTo(WriteName(n, false), FlatName(RawBody(n.name, n.nameEncoded)))
  {
    var written, b := Escape.Unfix(n.name, n.nameEncoded), RawBody(n.name, n.nameEncoded);
    StoredString(n.name, n.nameEncoded);
    NormalChars(":");
    hide NormalisesTo;
    NormalConcat("\"" + written + "\"", "\"" + b + "\"", ":", ":");
    assert "\"" + written + "\":" == "\"" + written + "\"" + ":" && FlatName(b) == "\"" + b + "\"" + ":";
  }

  /** The value part of `Write`: what follows the name. */
  function WriteValue(n: Node, usedMark: bool): string {
    Write(n, true, usedMark)
  }

  lemma WriteByParts(n: Node, usedMark: bool)
    ensures Write(n, false, usedMark) == WriteName(n, false) + WriteValue(n, usedMark)
    ensures n.fetched && n.kind == Kind.Object ==>
              WriteValue(n, usedMark) == "{" + WriteChildren(n.kids, false, usedMark) + "}"
    ensures n.fetched && n.kind == Array ==>
              WriteValue(n, usedMark) == "[" + WriteChildren(n.kids, true, usedMark) + "]"
    ensures n.fetched && n.kind == String ==>
              WriteValue(n, usedMark) == "\"" + Escape.Unfix(n.text, n.textEncoded) + "\""
    ensures n.fetched && n.kind in {Null, Bool, Number} ==> WriteValue(n, usedMark) == n.text
    ensures !n.fetched ==> WriteValue(n, usedMark) == Dump(n.text, usedMark)
  {
    hide WriteName, WriteChildren, Dump, Escape.Unfix;
    NameParts(n);
    var name := WriteName(n, false);
    assert forall a: string, b: string, c: string :: name + a + b + c == name + (a + b + c);
    assert forall a: string :: "" + a == a;
  }

  lemma NameParts(n: Node)
    ensures WriteName(n, true) == ""
  {
  }

  lemma {:induction false} NormalWrite(n: Node, usedMark: bool)
    requires Faithful(n, usedMark)
    ensures NormalisesTo(WriteValue(n, usedMark), Flat(RawOf(n, usedMark)))
    decreases n, 1
  {
    hide NormalisesTo, Write, WriteValue, WriteChildren, Dump, Flat, FlatItems, FlatMembers, RawItems, RawMembers;
    WriteByParts(n, usedMark);
    if !n.fetched {
      var r := RawOf(n, usedMark);
      assert n.text == Flat(r);
      NormalFlat(r, usedMark);
    } else {
      match n.kind
      case String =>
        StoredString(n.text, n.textEncoded);
        FlatQuoted(RawBody(n.text, n.textEncoded));
      case Array =>
        NormalWriteItems(n.kids, usedMark);
        NormalAround("[", WriteChildren(n.kids, true, usedMark), FlatItems(RawItems(n.kids, usedMark)), "]");
        FlatContainer(RawItems(n.kids, usedMark), []);
      case Object =>
        NormalWriteMembers(n.kids, usedMark);
        NormalAround("{", WriteChildren(n.kids, false, usedMark), FlatMembers(RawMembers(n.kids, usedMark)), "}");
        FlatContainer([], RawMembers(n.kids, usedMark));
      case _ =>
        LiteralIsPlain(n.text);
        PlainIsSolid(n.text);
        NormalSolid(n.text);
        FlatLit(n.text);
    }
  }

  lemma FlatQuoted(b: string)
    ensures Flat(Quoted(b)) == "\"" + b + "\""
  {
  }

  lemma FlatLit(t: string)
    ensures Flat(Lit(t)) == t
  {
  }

  lemma FlatContainer(items: seq<Raw>, members: seq<Member>)
    ensures Flat(Arr(items)) == "[" + FlatItems(items) + "]"
    ensures Flat(Obj(members)) == "{" + FlatMembers(members) + "}"
  {
  }

  lemma NormalList(first: string, out: string, tail: string, out': string)
    requires NormalisesTo(first, out) && NormalisesTo(tail, out')
    ensures NormalisesTo(first + ("," + tail), out + ("," + out'))
  {
    NormalAround(",", tail, out', "");
    hide NormalisesTo;
    assert "," + tail + "" == "," + tail && "," + out' + "" == "," + out';
    NormalConcat(first, out, "," + tail, "," + out');
  }

  lemma {:induction false} NormalWriteItems(kids: seq<Node>, usedMark: bool)
    requires forall i | 0 <= i < |kids| :: Faithful(kids[i], usedMark)
    ensures NormalisesTo(WriteChildren(kids, true, usedMark), FlatItems(RawItems(kids, usedMark)))
    decreases kids, 0
  {
    hide NormalisesTo, Write, Faithful, RawOf, Flat;
    if kids == [] {
      NormalChars("");
    } else {
      var raws := RawItems(kids, usedMark);
      NormalWrite(kids[0], usedMark);
      assert raws[0] == RawOf(kids[0], usedMark) && raws[1..] == RawItems(kids[1..], usedMark);
      if |kids| == 1 {
        assert raws[1..] == [];
        assert WriteValue(kids[0], usedMark) + "" == WriteValue(kids[0], usedMark);
        assert Flat(raws[0]) + "" == Flat(raws[0]);
      } else {
        assert raws[1..] != [];
        NormalWriteItems(kids[1..], usedMark);
        NormalList(WriteValue(kids[0], usedMark), Flat(raws[0]),
                   WriteChildren(kids[1..], true, usedMark), FlatItems(raws[1..]));
      }
    }
  }

  lemma {:induction false} NormalWriteMember(n: Node, usedMark: bool)
    requires FaithfulMember(n, usedMark)
    ensures NormalisesTo(Write(n, false, usedMark),
                         FlatMember(Member(RawBody(n.name, n.nameEncoded), RawOf(n, usedMark))))
    decreases n, 2
  {
    hide NormalisesTo, Write, WriteValue, WriteName, Flat, RawOf, FlatName;
    NormalName(n);
    NormalWrite(n, usedMark);
    WriteByParts(n, usedMark);
    NormalConcat(WriteName(n, false), FlatName(RawBody(n.name, n.nameEncoded)),
                 WriteValue(n, usedMark), Flat(RawOf(n, usedMark)));
  }

  lemma {:induction false} NormalWriteMembers(kids: seq<Node>, usedMark: bool)
    requires forall i | 0 <= i < |kids| :: FaithfulMember(kids[i], usedMark)
    ensures NormalisesTo(WriteChildren(kids, false, usedMark), FlatMembers(RawMembers(kids, usedMark)))
    decreases kids, 0
  {
    hide NormalisesTo, Write, Faithful, RawOf, Flat, FlatMember;
    if kids == [] {
      NormalChars("");
    } else {
      var raws := RawMembers(kids, usedMark);
      var kid := kids[0];
      NormalWriteMember(kid, usedMark);
      assert raws[0] == Member(RawBody(kid.name, kid.nameEncoded), RawOf(kid, usedMark));
      assert raws[1..] == RawMembers(kids[1..], usedMark);
      if |kids| == 1 {
        assert raws[1..] == [];
        assert Write(kid, false, usedMark) + "" == Write(kid, false, usedMark);
        assert FlatMember(raws[0]) + "" == FlatMember(raws[0]);
      } else {
        assert raws[1..] != [];
        NormalWriteMembers(kids[1..], usedMark);
        NormalList(Write(kid, false, usedMark), FlatMember(raws[0]),
                   WriteChildren(kids[1..], false, usedMark), FlatMembers(raws[1..]));
      }
    }
  }

  // ---------- the tree a node stands for ----------

  /** What `IsEqualTo` looks at; a null has only its name. */
  datatype Tree = Leaf(kind: Kind, name: string, text: string) | Branch(kind: Kind, name: string, kids: seq<Tree>)

  function View(n: Node): Tree
    decreases n, 1
  {
    if n.kind == Null then Leaf(Null, n.name, "")
    else if Container(n) then Branch(n.kind, n.name, Views(n.kids))
    else Leaf(n.kind, n.name, n.text)
  }

  function Views(kids: seq<Node>): seq<Tree>
    decreases kids, 0
  {
    if kids == [] then [] else [View(kids[0])] + Views(kids[1..])
  }

  /** Equality of fetched nodes as `IsEqualTo` decides it. */
  predicate IsEqualTo(a: Node, b: Node)
    decreases a, 1
  {
    a.kind == b.kind && a.name == b.name &&
    (a.kind == Null ||
     if Container(a) then AllEqual(a.kids, b.kids) else a.text == b.text)
  }

  predicate AllEqual(a: seq<Node>, b: seq<Node>)
    decreases a, 0
  {
    if a == [] || b == [] then a == [] && b == []
    else IsEqualTo(a[0], b[0]) && AllEqual(a[1..], b[1..])
  }

  lemma {:induction false} EqualIffSameTree(a: Node, b: Node)
    ensures IsEqualTo(a, b) <==> View(a) == View(b)
    decreases a, 1
  {
    if a.kind == b.kind && Container(a) {
      AllEqualIffSameTrees(a.kids, b.kids);
    }
  }

  lemma {:induction false} AllEqualIffSameTrees(a: seq<Node>, b: seq<Node>)
    ensures AllEqual(a, b) <==> Views(a) == Views(b)
    decreases a, 0
  {
    if a != [] && b != [] {
      hide View, IsEqualTo;
      EqualIffSameTree(a[0], b[0]);
      AllEqualIffSameTrees(a[1..], b[1..]);
      assert Views(a)[0] == View(a[0]) && Views(a)[1..] == Views(a[1..]);
      assert Views(b)[0] == View(b[0]) && Views(b)[1..] == Views(b[1..]);
    }
  }

  function Named(t: Tree, name: string): Tree {
    t.(name := name)
  }

  /** The part of a tree that is written: the elements of arrays lose their names. */
  function Written(t: Tree): Tree
    decreases t, 1
  {
    if t.Leaf? then t else Branch(t.kind, t.name, WrittenKids(t.kids, t.kind == Array))
  }

  function WrittenKids(kids: seq<Tree>, inArray: bool): seq<Tree>
    decreases kids, 0
  {
    if kids == [] then []
    else
      [if inArray then Named(Written(kids[0]), "") else Written(kids[0])] + WrittenKids(kids[1..], inArray)
  }

  lemma {:induction false} DecodedIsWritten(r: Raw, name: string, encoded: bool)
    requires WellFormed(r) && AllDecodable(r)
    ensures var d := Decode(r, name, encoded);
            d.Done? && View(d.value).name == name && Written(View(d.value)) == View(d.value)
            && forall name', encoded' ::
                 var d' := Decode(r, name', encoded'); d'.Done? && View(d'.value) == Named(View(d.value), name')
    decreases r, 1
  {
    match r
    case Lit(_) =>
    case Quoted(_) =>
    case Arr(items) => DecodedItemsAreWritten(items);
    case Obj(members) => DecodedMembersAreWritten(members);
  }

  lemma {:induction false} DecodedItemsAreWritten(items: seq<Raw>)
    requires forall i | 0 <= i < |items| :: WellFormed(items[i]) && AllDecodable(items[i])
    ensures var d := DecodeItems(items); d.Done? && WrittenKids(Views(d.value), true) == Views(d.value)
    decreases items, 0
  {
    hide WellFormed, AllDecodable, Decode, View, Written;
    if items != [] {
      DecodedIsWritten(items[0], "", false);
      DecodedItemsAreWritten(items[1..]);
      ViewsStep(Decode(items[0], "", false).value, DecodeItems(items[1..]).value, true);
    }
  }

  lemma ViewsStep(first: Node, rest: seq<Node>, inArray: bool)
    ensures Views([first] + rest) == [View(first)] + Views(rest)
    ensures WrittenKids(Views([first] + rest), inArray)
         == [if inArray then Named(Written(View(first)), "") else Written(View(first))]
            + WrittenKids(Views(rest), inArray)
  {
    assert ([first] + rest)[1..] == rest;
    assert ([View(first)] + Views(rest))[1..] == Views(rest);
  }

  lemma {:induction false} DecodedMembersAreWritten(members: seq<Member>)
    requires forall i | 0 <= i < |members| ::
               WellFormedMember(members[i]) && Decodable(members[i].name) && AllDecodable(members[i].value)
    ensures var d := DecodeMembers(members); d.Done? && WrittenKids(Views(d.value), false) == Views(d.value)
    decreases members, 0
  {
    hide WellFormed, AllDecodable, Decode, View, Written, Escape.Unescaped, Escape.Encoded;
    if members != [] {
      var m := members[0];
      var name := Escape.Unescaped(m.name).value;
      DecodedIsWritten(m.value, name, Escape.Encoded(m.name));
      DecodedMembersAreWritten(members[1..]);
      ViewsStep(Decode(m.value, name, Escape.Encoded(m.name)).value, DecodeMembers(members[1..]).value, false);
    }
  }

  // ---------- reparsing gives the same tree ----------

  /** `d` is the tree of `p` as it is written, under the given name. */
  predicate Rereads(d: Outcome<Node>, p: Outcome<Node>, name: string) {
    d.Done? && p.Done? && View(d.value) == Named(Written(View(p.value)), name)
  }

  /** Decoding the raw text of a faithful tree gives the written part of the tree
      that fetching everything gives. */
  lemma {:induction false} DecodeRawOf(n: Node, usedMark: bool, name: string, encoded: bool)
    requires Faithful(n, usedMark)
    ensures Rereads(Decode(RawOf(n, usedMark), name, encoded), Preparse(n), name)
    decreases n, 1
  {
    if n.fetched && n.kind == Array {
      DecodeRawItems(n.kids, usedMark);
      DecodeRawArray(n, usedMark, name, encoded);
    } else if n.fetched && n.kind == Kind.Object {
      DecodeRawMembers(n.kids, usedMark);
      DecodeRawObject(n, usedMark, name, encoded);
    } else {
      DecodeRawLeaf(n, usedMark, name, encoded);
    }
  }

  lemma DecodeRawLeaf(n: Node, usedMark: bool, name: string, encoded: bool)
    requires Faithful(n, usedMark) && !(n.fetched && Container(n))
    ensures Rereads(Decode(RawOf(n, usedMark), name, encoded), Preparse(n), name)
  {
    if !n.fetched {
      var r := RawOf(n, usedMark);
      assert HoldsText(n, r, usedMark);
      hide *;
      DecodeHeldText(n, r, usedMark, name, encoded);
    } else if n.kind == String {
      StoredString(n.text, n.textEncoded);
    }
  }

  lemma DecodeHeldText(n: Node, r: Raw, usedMark: bool, name: string, encoded: bool)
    requires HoldsText(n, r, usedMark)
    ensures Rereads(Decode(r, name, encoded), Preparse(n), name)
  {
    hide Decode, Preparse, View, Written, WellFormed, AllDecodable, Clean;
    PreparseFlat(r, n.name, n.nameEncoded);
    DecodedIsWritten(r, n.name, n.nameEncoded);
  }

  lemma DecodeRawArray(n: Node, usedMark: bool, name: string, encoded: bool)
    requires Faithful(n, usedMark) && n.fetched && n.kind == Array
    requires var d, p := DecodeItems(RawItems(n.kids, usedMark)), PreparseAll(n.kids);
             d.Done? && p.Done? && Views(d.value) == WrittenKids(Views(p.value), true)
    ensures Rereads(Decode(RawOf(n, usedMark), name, encoded), Preparse(n), name)
  {
    assert RawOf(n, usedMark) == Arr(RawItems(n.kids, usedMark));
    hide Preparse, Faithful, RawOf, RawItems, PreparseAll, DecodeItems, Views, WrittenKids;
    PreparseByParts(n);
  }

  lemma DecodeRawObject(n: Node, usedMark: bool, name: string, encoded: bool)
    requires Faithful(n, usedMark) && n.fetched && n.kind == Kind.Object
    requires var d, p := DecodeMembers(RawMembers(n.kids, usedMark)), PreparseAll(n.kids);
             d.Done? && p.Done? && Views(d.value) == WrittenKids(Views(p.value), false)
    ensures Rereads(Decode(RawOf(n, usedMark), name, encoded), Preparse(n), name)
  {
    assert RawOf(n, usedMark) == Obj(RawMembers(n.kids, usedMark));
    hide Preparse, Faithful, RawOf, RawMembers, PreparseAll, DecodeMembers, Views, WrittenKids;
    PreparseByParts(n);
  }

  lemma {:induction false} DecodeRawItems(kids: seq<Node>, usedMark: bool)
    requires forall i | 0 <= i < |kids| :: Faithful(kids[i], usedMark)
    ensures var d, p := DecodeItems(RawItems(kids, usedMark)), PreparseAll(kids);
            d.Done? && p.Done? && Views(d.value) == WrittenKids(Views(p.value), true)
    decreases kids, 0
  {
    hide Faithful, Decode, Preparse, View, Written, RawOf;
    if kids != [] {
      var raws := RawItems(kids, usedMark);
      DecodeRawOf(kids[0], usedMark, "", false);
      DecodeRawItems(kids[1..], usedMark);
      assert raws[0] == RawOf(kids[0], usedMark) && raws[1..] == RawItems(kids[1..], usedMark);
      ViewsStep(Decode(raws[0], "", false).value, DecodeItems(raws[1..]).value, true);
      ViewsStep(Preparse(kids[0]).value, PreparseAll(kids[1..]).value, true);
    }
  }

  lemma {:induction false} DecodeRawMembers(kids: seq<Node>, usedMark: bool)
    requires forall i | 0 <= i < |kids| :: FaithfulMember(kids[i], usedMark)
    ensures var d, p := DecodeMembers(RawMembers(kids, usedMark)), PreparseAll(kids);
            d.Done? && p.Done? && Views(d.value) == WrittenKids(Views(p.value), false)
    decreases kids, 0
  {
    hide Faithful, Decode, Preparse, RawOf, RawBody, Escape.Unescaped, Escape.Encoded;
    if kids != [] {
      var kid := kids[0];
      var raws := RawMembers(kids, usedMark);
      var name := RawBody(kid.name, kid.nameEncoded);
      StoredString(kid.name, kid.nameEncoded);
      DecodeRawOf(kid, usedMark, kid.name, Escape.Encoded(name));
      PreparsedKeepsName(kid, usedMark);
      DecodeRawMembers(kids[1..], usedMark);
      assert raws[0] == Member(name, RawOf(kid, usedMark)) && raws[1..] == RawMembers(kids[1..], usedMark);
      ViewKeepsName(Preparse(kid).value);
      hide View, Written;
      ViewsStep(Decode(raws[0].value, kid.name, Escape.Encoded(name)).value, DecodeMembers(raws[1..]).value, false);
      ViewsStep(Preparse(kid).value, PreparseAll(kids[1..]).value, false);
    }
  }

  lemma PreparsedKeepsName(n: Node, usedMark: bool)
    requires Faithful(n, usedMark)
    ensures Preparse(n).Done? ==> Preparse(n).value.name == n.name
  {
    if !n.fetched {
      var r :| HoldsText(n, r, usedMark);
      hide *;
      HeldTextKeepsName(n, r, usedMark);
    }
  }

  lemma HeldTextKeepsName(n: Node, r: Raw, usedMark: bool)
    requires HoldsText(n, r, usedMark)
    ensures Preparse(n).Done? ==> Preparse(n).value.name == n.name
  {
    hide Preparse;
    PreparseFlat(r, n.name, n.nameEncoded);
  }

  lemma ViewKeepsName(n: Node)
    ensures Named(Written(View(n)), n.name) == Written(View(n))
  {
  }

  /** The text of a faithful container parses to its raw text, unfetched. */
  lemma ParseWritten(n: Node, usedMark: bool)
    requires Faithful(n, usedMark) && Container(n)
    ensures Parse(Write(n, true, usedMark)) == Done(Some(Unfetched(RawOf(n, usedMark), "", false)))
  {
    hide Write, Normal, NormalisesTo, Faithful;
    var r := RawOf(n, usedMark);
    var text := Write(n, true, usedMark);
    NormalWrite(n, usedMark);
    NormalEnd(text, Flat(r));
    RawIsWellFormed(n, usedMark);
    RawIsContainer(n, usedMark);
    FlatIsText(r);
  }

  lemma NormalEnd(text: string, out: string)
    requires NormalisesTo(text, out)
    ensures Normal(text, true) == Done(out)
  {
    assert text + "" == text && out + "" == out;
    assert Normal(text + "", true) == Prepend(out, Normal("", true));
  }

  lemma RawIsContainer(n: Node, usedMark: bool)
    requires Faithful(n, usedMark) && Container(n)
    ensures var r := RawOf(n, usedMark);
            && Unfetched(r, "", false) == Node(n.kind, "", false, Flat(r), false, false, [])
            && (n.kind == Kind.Object ==> Flat(r)[0] == '{' && Flat(r)[|Flat(r)| - 1] == '}')
            && (n.kind == Array ==> Flat(r)[0] == '[' && Flat(r)[|Flat(r)| - 1] == ']')
  {
    hide FlatItems, FlatMembers, RawItems, RawMembers;
    var r := RawOf(n, usedMark);
    if !n.fetched {
      assert HoldsText(n, r, usedMark);
    }
  }

  /** Writing any faithful container, fetched in whole, in part or not at all, and
      parsing the text back gives the tree that fetching everything would have
      given, except that the root and the elements of arrays come back nameless. */
  lemma WriteThenParse(n: Node, usedMark: bool)
    requires Faithful(n, usedMark) && Container(n)
    ensures var parsed := Parse(Write(n, true, usedMark));
            && parsed.Done? && parsed.value.Some?
            && var reread, whole := Preparse(parsed.value.value), Preparse(n);
               reread.Done? && whole.Done?
               && View(reread.value) == Named(Written(View(whole.value)), "")
               && (IsEqualTo(reread.value, whole.value)
                   <==> View(whole.value) == Named(Written(View(whole.value)), ""))
  {
    hide Write, Parse, Preparse, Faithful, Written, View;
    ParseWritten(n, usedMark);
    var r := RawOf(n, usedMark);
    RawIsWellFormed(n, usedMark);
    PreparseFlat(r, "", false);
    DecodeRawOf(n, usedMark, "", false);
    EqualIffSameTree(Preparse(Unfetched(r, "", false)).value, Preparse(n).value);
  }

  // ---------- lazy fetching is transparent ----------

  lemma DecodedString(body: string)
    requires Body(body) && Decodable(body)
    ensures Storable(Escape.Unescaped(body).value, Escape.Encoded(body))
  {
    BodyIsQuoteFree(body);
    CStrOfText(body);
    if !Escape.Encoded(body) {
      Escape.PlainIsItself(body);
    }
  }

  /** Everything fetched from well-formed text is faithful and stays as it is. */
  lemma {:induction false} DecodedIsFaithful(r: Raw, name: string, encoded: bool, usedMark: bool)
    requires WellFormed(r) && AllDecodable(r)
    ensures var d := Decode(r, name, encoded);
            d.Done? && d.value.name == name && d.value.nameEncoded == encoded
            && Faithful(d.value, usedMark) && Preparse(d.value) == d
    decreases r, 1
  {
    match r
    case Lit(_) =>
    case Quoted(body) =>
      DecodedString(body);
    case Arr(items) =>
      DecodedItemsAreFaithful(items, usedMark);
      hide Preparse;
      PreparseByParts(Decode(r, name, encoded).value);
    case Obj(members) =>
      DecodedMembersAreFaithful(members, usedMark);
      hide Preparse;
      PreparseByParts(Decode(r, name, encoded).value);
  }

  lemma {:induction false} DecodedItemsAreFaithful(items: seq<Raw>, usedMark: bool)
    requires forall i | 0 <= i < |items| :: WellFormed(items[i]) && AllDecodable(items[i])
    ensures var d := DecodeItems(items);
            d.Done? && PreparseAll(d.value) == d
            && forall i | 0 <= i < |d.value| :: Faithful(d.value[i], usedMark)
    decreases items, 0
  {
    hide WellFormed, AllDecodable, Decode, Preparse, Faithful;
    if items != [] {
      DecodedIsFaithful(items[0], "", false, usedMark);
      DecodedItemsAreFaithful(items[1..], usedMark);
      var d := DecodeItems(items).value;
      assert d[1..] == DecodeItems(items[1..]).value;
      assert forall i | 1 <= i < |d| :: d[i] == d[1..][i - 1];
    }
  }

  lemma {:induction false} DecodedMembersAreFaithful(members: seq<Member>, usedMark: bool)
    requires forall i | 0 <= i < |members| ::
               WellFormedMember(members[i]) && Decodable(members[i].name) && AllDecodable(members[i].value)
    ensures var d := DecodeMembers(members);
            d.Done? && PreparseAll(d.value) == d
            && forall i | 0 <= i < |d.value| :: FaithfulMember(d.value[i], usedMark)
    decreases members, 0
  {
    hide WellFormed, AllDecodable, Decode, Preparse, Faithful, Escape.Unescaped, Escape.Encoded, Storable;
    if members != [] {
      var m := members[0];
      DecodedString(m.name);
      DecodedIsFaithful(m.value, Escape.Unescaped(m.name).value, Escape.Encoded(m.name), usedMark);
      DecodedMembersAreFaithful(members[1..], usedMark);
      var d := DecodeMembers(members).value;
      assert FaithfulMember(d[0], usedMark);
      assert d[1..] == DecodeMembers(members[1..]).value;
      assert forall i | 1 <= i < |d| :: d[i] == d[1..][i - 1];
    }
  }

  /** Fetching everything keeps a tree faithful, and there is nothing left to fetch. */
  lemma {:induction false} PreparsedIsFaithful(n: Node, usedMark: bool)
    requires Faithful(n, usedMark)
    ensures var p := Preparse(n);
            p.Done? && p.value.name == n.name && p.value.nameEncoded == n.nameEncoded && p.value.kind == n.kind
            && Faithful(p.value, usedMark) && Preparse(p.value) == p
    decreases n, 1
  {
    if !n.fetched {
      var r := RawOf(n, usedMark);
      PreparseFlat(r, n.name, n.nameEncoded);
      DecodedIsFaithful(r, n.name, n.nameEncoded, usedMark);
    } else if n.kind == Array || n.kind == Kind.Object {
      PreparsedKidsAreFaithful(n.kids, usedMark);
      hide Preparse;
      PreparseByParts(n);
      PreparseByParts(Preparse(n).value);
    }
  }

  lemma {:induction false} PreparsedKidsAreFaithful(kids: seq<Node>, usedMark: bool)
    requires forall i | 0 <= i < |kids| :: Faithful(kids[i], usedMark)
    ensures var p := PreparseAll(kids);
            p.Done? && |p.value| == |kids| && PreparseAll(p.value) == p
            && forall i | 0 <= i < |kids| ::
                 Faithful(p.value[i], usedMark)
                 && p.value[i].name == kids[i].name && p.value[i].nameEncoded == kids[i].nameEncoded
    decreases kids, 0
  {
    hide Faithful, Preparse;
    if kids != [] {
      PreparsedIsFaithful(kids[0], usedMark);
      PreparsedKidsAreFaithful(kids[1..], usedMark);
      var p := PreparseAll(kids).value;
      assert p[1..] == PreparseAll(kids[1..]).value;
      forall i | 1 <= i < |kids|
        ensures Faithful(p[i], usedMark) && p[i].name == kids[i].name && p[i].nameEncoded == kids[i].nameEncoded
      {
        assert p[i] == p[1..][i - 1] && kids[i] == kids[1..][i - 1];
      }
    }
  }

  /** Writing before any fetch and after fetching everything gives texts that
      parse to equal trees. */
  lemma LazyIsTransparent(n: Node, usedMark: bool)
    requires Faithful(n, usedMark) && Container(n)
    ensures var whole := Preparse(n);
            && whole.Done?
            && var lazy, eager := Parse(Write(n, true, usedMark)), Parse(Write(whole.value, true, usedMark));
               lazy.Done? && lazy.value.Some? && eager.Done? && eager.value.Some?
               && var a, b := Preparse(lazy.value.value), Preparse(eager.value.value);
                  a.Done? && b.Done? && IsEqualTo(a.value, b.value)
  {
    hide Write, Parse, Preparse, Faithful, Written, View;
    PreparsedIsFaithful(n, usedMark);
    var whole := Preparse(n).value;
    WriteThenParse(n, usedMark);
    WriteThenParse(whole, usedMark);
    EqualIffSameTree(Preparse(Parse(Write(n, true, usedMark)).value.value).value,
                     Preparse(Parse(Write(whole, true, usedMark)).value.value).value);
  }

  // ---------- setters build faithful trees ----------

  function SetString(n: Node, val: string): Node {
    n.(kind := String, text := val, textEncoded := true, fetched := true)
  }

  function SetNumber(n: Node, val: int): Node {
    n.(kind := Number, text := Numbers.Decimal(val), fetched := true)
  }

  function SetBool(n: Node, val: bool): Node {
    n.(kind := Bool, text := if val then "true" else "false", fetched := true)
  }

  lemma SettersAreFaithful(n: Node, s: string, i: int, b: bool, usedMark: bool)
    ensures NulFree(s) && Bytes(s) ==> Faithful(SetString(n, s), usedMark)
    ensures Faithful(SetNumber(n, i), usedMark) && Faithful(SetBool(n, b), usedMark)
    ensures Faithful(Nullify(n), usedMark)
  {
    Numbers.DecimalIsNumeric(i);
  }

  /** What a node shows after a setter: the value given, under its old name. */
  lemma SettersStore(n: Node, s: string, i: int, b: bool)
    ensures View(SetString(n, s)) == Leaf(String, n.name, s) && SetString(n, s).textEncoded
    ensures var m := SetNumber(n, i);
            View(m) == Leaf(Number, n.name, m.text) && Numbers.Denotes(m.text) == i && Numbers.Numeric(m.text)
    ensures View(SetBool(n, b)) == Leaf(Bool, n.name, if b then "true" else "false")
    ensures View(Nullify(n)) == Leaf(Null, n.name, "") && Nullify(n).text == "null"
  {
    Numbers.DecimalIsNumeric(i);
    hide Numbers.Decimal, Numbers.Denotes, Numbers.Numeric;
    ShowsLeaf(SetString(n, s));
    ShowsLeaf(SetNumber(n, i));
    ShowsLeaf(SetBool(n, b));
    ShowsLeaf(Nullify(n));
    hide View;
  }

  lemma ShowsLeaf(n: Node)
    requires !Container(n)
    ensures View(n) == Leaf(n.kind, n.name, if n.kind == Null then "" else n.text)
  {
  }

  // ---------- pushing a child does not fetch ----------

  /** `push_back` adds the child without fetching the container first. */
  function PushBack(n: Node, child: Node): Node {
    if Container(n) then n.(kids := n.kids + [child]) else n
  }

  /** What is no container ignores it. */
  lemma ScalarIgnoresPush(n: Node, child: Node)
    ensures PushBack(n, child) == n <==> n.kind != Array && n.kind != Object
  {
    if Container(n) {
      assert |PushBack(n, child).kids| == |n.kids| + 1;
    }
  }

  lemma {:induction false} ViewsConcat(a: seq<Node>, b: seq<Node>)
    ensures Views(a + b) == Views(a) + Views(b)
  {
    hide View;
    if a == [] {
      assert a + b == b;
    } else {
      assert (a + b)[1..] == a[1..] + b;
      ViewsConcat(a[1..], b);
    }
  }

  lemma {:induction false} PreparseAllConcat(a: seq<Node>, b: seq<Node>)
    requires PreparseAll(a).Done? && PreparseAll(b).Done?
    ensures PreparseAll(a + b) == Done(PreparseAll(a).value + PreparseAll(b).value)
  {
    hide Preparse;
    if a == [] {
      assert a + b == b;
      assert [] + PreparseAll(b).value == PreparseAll(b).value;
    } else {
      var first, rest := Preparse(a[0]).value, PreparseAll(a[1..]).value;
      assert PreparseAll(a).value == [first] + rest;
      PreparseAllConcat(a[1..], b);
      assert PreparseAll(a + b) == Done([first] + (rest + PreparseAll(b).value)) by {
        assert (a + b)[0] == a[0] && (a + b)[1..] == a[1..] + b;
      }
      assert [first] + rest + PreparseAll(b).value == [first] + (rest + PreparseAll(b).value);
    }
  }

  lemma PreparseOne(c: Node)
    requires Preparse(c).Done?
    ensures PreparseAll([c]) == Done([Preparse(c).value]) && Views([Preparse(c).value]) == [View(Preparse(c).value)]
  {
    hide Preparse, View;
    assert [c][1..] == [] && PreparseAll([]) == Done([]);
    assert [Preparse(c).value] + [] == [Preparse(c).value];
  }

  predicate AllSame(ts: seq<Tree>, t: Tree) {
    forall i | 0 <= i < |ts| :: ts[i] == t
  }

  lemma {:induction false} RotatedIffAllSame(ts: seq<Tree>, t: Tree)
    ensures [t] + ts == ts + [t] <==> AllSame(ts, t)
  {
    if [t] + ts == ts + [t] && ts != [] {
      assert ([t] + ts)[0] == (ts + [t])[0] == ts[0];
      assert ts == [t] + ts[1..];
      assert [t] + ts[1..] == ts[1..] + [t] by {
        assert ([t] + ts)[1..] == (ts + [t])[1..];
        assert (ts + [t])[1..] == ts[1..] + [t];
      }
      RotatedIffAllSame(ts[1..], t);
      assert forall i | 1 <= i < |ts| :: ts[i] == ts[1..][i - 1];
    }
  }

  /** Pushing a child appends it to the tree if and only if the container has been
      fetched or holds nothing but copies of that child: later fetching puts the
      parsed members behind it. Until then the writer does not show it at all. */
  lemma PushBackAppends(n: Node, child: Node, usedMark: bool)
    requires Faithful(n, usedMark) && Container(n) && (!n.fetched ==> n.kids == [])
    requires Preparse(child).Done?
    ensures Preparse(n).Done? && Preparse(PushBack(n, child)).Done?
    ensures var before, after, c := View(Preparse(n).value), View(Preparse(PushBack(n, child)).value),
                                    View(Preparse(child).value);
            && before.Branch? && after.Branch?
            && (after.kids == before.kids + [c] <==> n.fetched || AllSame(before.kids, c))
    ensures !n.fetched ==> Write(PushBack(n, child), true, usedMark) == Write(n, true, usedMark)
  {
    PreparsedIsFaithful(n, usedMark);
    FetchContainer(n, usedMark);
    var added := FetchAppends(n);
    var pushed := PushBack(n, child);
    PushedFetch(n, child);
    hide Preparse, Faithful, Fetch;
    PreparseOne(child);
    PreparseByParts(n);
    PreparseByParts(pushed);
    if n.fetched {
      PreparseAllConcat(n.kids, [child]);
      ViewsConcat(PreparseAll(n.kids).value, [Preparse(child).value]);
    } else {
      PreparseAllConcat([child], Fetch(n).value.kids);
      ViewsConcat([Preparse(child).value], PreparseAll(Fetch(n).value.kids).value);
      RotatedIffAllSame(Views(Preparse(n).value.kids), View(Preparse(child).value));
    }
  }

  lemma FetchContainer(n: Node, usedMark: bool)
    requires Faithful(n, usedMark) && Container(n)
    ensures Fetch(n).Done? && Fetch(n).value.kind == n.kind
  {
    if !n.fetched {
      var r :| HoldsText(n, r, usedMark);
      DecodedIsWritten(r, n.name, n.nameEncoded);
      if r.Arr? {
        FetchArray(r, n.name, n.nameEncoded);
      } else {
        PreparseFlat(r, n.name, n.nameEncoded);
        FetchObject(r, n.name, n.nameEncoded);
      }
    }
  }

  lemma PushedFetch(n: Node, child: Node)
    requires Container(n) && Fetch(n).Done? && Fetch(n).value.kind == n.kind && (!n.fetched ==> n.kids == [])
    ensures var pushed := PushBack(n, child);
            && Fetch(pushed).Done? && Fetch(pushed).value.kind == n.kind
            && Fetch(pushed).value.kids
               == if n.fetched then n.kids + [child] else [child] + Fetch(n).value.kids
  {
    hide DoNode, DoArray;
    assert [] + [child] == [child];
  }
}
