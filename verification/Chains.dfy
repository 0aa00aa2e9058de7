/** Decorator chains on the writing side (BaseProtocol.h, BaseProtocol.cpp,
    FrameProtocol.cpp, FrameController.cpp) and the string list that travels in a
    frame (StringListProtocol.cpp). */
module Chains {
  import opened Text
  import opened Transport
  import opened Frames

  datatype Kind = Decorator(content: seq<Byte>) | FrameRoot(command: Word, transactionId: Word, payload: seq<Byte>)

  /** A protocol object; `shared` tells which kind of pointer leads to its parent,
      `out` is its writing buffer. */
  datatype Node = Node(kind: Kind, shared: bool, enabled: bool, out: seq<Byte>)

  /** A chain from the outermost decorator to its last parent; only the last one can
      be a frame. */
  predicate ValidChain(chain: seq<Node>) {
    chain != [] && forall i | 0 <= i < |chain| - 1 :: chain[i].kind.Decorator?
  }

  /** `FrameHeader::serialize`: the length counts the header itself. */
  function HeaderBytes(command: Word, transactionId: Word, size: nat, little: bool): (h: seq<Byte>)
    requires HEADER + size < 0x1_0000_0000
    ensures |h| == HEADER
  {
    Encode32(command, little) + Encode32(transactionId, little) + Encode32(1, little) + Encode32(HEADER + size, little)
  }

  /** `processSerialize` from the outermost decorator: each adds its size to what its
      parent is told. */
  function Serialized(chain: seq<Node>, size: nat, little: bool): (r: seq<Node>)
    requires HEADER + size + Total(chain) < 0x1_0000_0000
    ensures |r| == |chain|
    decreases |chain|
  {
    if chain == [] then []
    else
      match chain[0].kind
      case Decorator(content) =>
        [chain[0].(out := content)] + Serialized(chain[1..], |content| + size, little)
      case FrameRoot(command, transactionId, payload) =>
        [chain[0].(out := HeaderBytes(command, transactionId, size + |payload|, little) + payload)] + chain[1..]
  }

  /** The bytes a chain wants to send besides headers. */
  function Total(chain: seq<Node>): nat
    decreases |chain|
  {
    if chain == [] then 0
    else |if chain[0].kind.Decorator? then chain[0].kind.content else chain[0].kind.payload| + Total(chain[1..])
  }

  /** `writingBufferSize`: stops before a parent that does not write. */
  function WritingBufferSize(chain: seq<Node>): nat
    requires chain != []
    decreases |chain|
  {
    |chain[0].out| + if |chain| > 1 && chain[1].enabled then WritingBufferSize(chain[1..]) else 0
  }

  /** `processWrite`: parents first. */
  function Sent(chain: seq<Node>): seq<Byte>
    decreases |chain|
  {
    if chain == [] then [] else Sent(chain[1..]) + if chain[0].enabled then chain[0].out else []
  }

  /** The parent frame found by following only one kind of pointer. */
  function FindFrame(chain: seq<Node>, shared: bool): (r: Option<nat>)
    requires chain != []
    ensures r.Some? ==> 0 < r.value < |chain| && chain[r.value].kind.FrameRoot?
    decreases |chain|
  {
    if |chain| == 1 || chain[0].shared != shared then None
    else if chain[1].kind.FrameRoot? then Some(1)
    else
      match FindFrame(chain[1..], shared)
      case None => None
      case Some(i) => Some(i + 1)
  }

  /** `disableWriteBufferOfParentFrameProtocol`. */
  function Disabled(chain: seq<Node>): (r: seq<Node>)
    requires chain != []
    ensures |r| == |chain|
  {
    var raw := FindFrame(chain, false);
    var found := if raw.Some? then raw else FindFrame(chain, true);
    if found.None? then chain else chain[found.value := chain[found.value].(enabled := false)]
  }

  /** The payload bytes of a chain, root first. */
  function Contents(chain: seq<Node>): seq<Byte>
    decreases |chain|
  {
    if chain == [] then []
    else Contents(chain[1..]) + if chain[0].kind.Decorator? then chain[0].kind.content else []
  }

  predicate Enabled(chain: seq<Node>) {
    forall i | 0 <= i < |chain| :: chain[i].enabled
  }

  predicate DecoratorsEnabled(chain: seq<Node>) {
    forall i | 0 <= i < |chain| :: chain[i].kind.Decorator? ==> chain[i].enabled
  }

  // ---------- what a chain sends by itself ----------

  /** A chain over a frame sends one frame: its payload and the decorators' bytes
      behind a header whose length counts exactly the bytes sent. */
  lemma {:induction false} ChainSendsFrame(chain: seq<Node>, size: nat, little: bool)
    requires ValidChain(chain) && Enabled(chain) && chain[|chain| - 1].kind.FrameRoot?
    requires HEADER + size + Total(chain) < 0x1_0000_0000
    ensures var root := chain[|chain| - 1].kind;
            && Total(chain) == |root.payload| + |Contents(chain)|
            && Sent(Serialized(chain, size, little))
               == HeaderBytes(root.command, root.transactionId, size + Total(chain), little) + root.payload + Contents(chain)
    decreases |chain|
  {
    hide HeaderBytes;
    if |chain| == 1 {
      OneNode(chain, size, little);
    } else {
      var content := chain[0].kind.content;
      TailIsValid(chain);
      SerializedSteps(chain, size, little);
      ChainSendsFrame(chain[1..], |content| + size, little);
      hide *;
      var root := chain[|chain| - 1].kind;
      assert chain[1..][|chain| - 2] == chain[|chain| - 1];
      ContentsSteps(chain);
      Regroup(HeaderBytes(root.command, root.transactionId, size + Total(chain), little) + root.payload,
              Contents(chain[1..]), content);
    }
  }

  lemma OneNode(chain: seq<Node>, size: nat, little: bool)
    requires |chain| == 1 && chain[0].kind.FrameRoot? && chain[0].enabled
    requires HEADER + size + Total(chain) < 0x1_0000_0000
    ensures var root := chain[0].kind;
            && Total(chain) == |root.payload| && Contents(chain) == []
            && Sent(Serialized(chain, size, little))
               == HeaderBytes(root.command, root.transactionId, size + Total(chain), little) + root.payload
  {
    hide HeaderBytes;
    var s := Serialized(chain, size, little);
    assert chain[1..] == [] && s[1..] == [];
  }

  lemma TailIsValid(chain: seq<Node>)
    requires ValidChain(chain) && |chain| > 1
    ensures ValidChain(chain[1..]) && chain[0].kind.Decorator?
    ensures Enabled(chain) ==> Enabled(chain[1..]) && chain[0].enabled
    ensures DecoratorsEnabled(chain) ==> DecoratorsEnabled(chain[1..]) && chain[0].enabled
  {
  }

  lemma SerializedSteps(chain: seq<Node>, size: nat, little: bool)
    requires |chain| > 1 && chain[0].kind.Decorator? && HEADER + size + Total(chain) < 0x1_0000_0000
    ensures var content := chain[0].kind.content;
            && Total(chain) == |content| + Total(chain[1..])
            && var rest := Serialized(chain[1..], |content| + size, little);
               && Serialized(chain, size, little) == [chain[0].(out := content)] + rest
               && Sent(Serialized(chain, size, little)) == Sent(rest) + if chain[0].enabled then content else []
  {
    hide HeaderBytes;
    var content := chain[0].kind.content;
    var rest := Serialized(chain[1..], |content| + size, little);
    assert ([chain[0].(out := content)] + rest)[1..] == rest;
  }

  lemma SerializedAlone(chain: seq<Node>, size: nat, little: bool)
    requires |chain| == 1 && HEADER + size + Total(chain) < 0x1_0000_0000
    ensures Total(chain[1..]) == 0 && HEADER + size + Total(chain[1..]) < 0x1_0000_0000
    ensures match chain[0].kind
            case Decorator(content) => Serialized(chain, size, little) == [chain[0].(out := content)]
            case FrameRoot(command, transactionId, payload) =>
              HEADER + size + |payload| < 0x1_0000_0000 &&
              Serialized(chain, size, little)
              == [chain[0].(out := HeaderBytes(command, transactionId, size + |payload|, little) + payload)]
  {
    hide HeaderBytes;
    assert chain[1..] == [];
  }

  lemma SerializedDecorator(chain: seq<Node>, head: Node, parents: seq<Node>, size: nat, little: bool)
    requires chain == [head] + parents && head.kind.Decorator? && HEADER + size + Total(chain) < 0x1_0000_0000
    ensures HEADER + (|head.kind.content| + size) + Total(parents) < 0x1_0000_0000
    ensures Serialized(chain, size, little)
            == [head.(out := head.kind.content)] + Serialized(parents, |head.kind.content| + size, little)
  {
    hide HeaderBytes;
    assert chain[1..] == parents;
  }

  lemma HeadAndParents(v: seq<Node>) returns (head: Node, parents: seq<Node>)
    requires v != []
    ensures v == [head] + parents && head == v[0]
  {
    head, parents := v[0], v[1..];
  }

  lemma NothingToSerialize(chain: seq<Node>, size: nat, little: bool)
    requires chain == [] && HEADER + size + Total(chain) < 0x1_0000_0000
    ensures Serialized(chain, size, little) == []
  {
    hide HeaderBytes;
  }

  lemma ContentsSteps(chain: seq<Node>)
    requires |chain| > 1 && chain[0].kind.Decorator?
    ensures Contents(chain) == Contents(chain[1..]) + chain[0].kind.content
  {
  }

  /** Hence the length field counts exactly the bytes sent. */
  lemma LengthCountsBytesSent(chain: seq<Node>, little: bool)
    requires ValidChain(chain) && Enabled(chain) && chain[|chain| - 1].kind.FrameRoot?
    requires HEADER + Total(chain) < 0x1_0000_0000
    ensures var sent := Sent(Serialized(chain, 0, little));
            |sent| >= HEADER && LengthOf(sent, little) == |sent|
  {
    var root := chain[|chain| - 1].kind;
    hide *;
    ChainSendsFrame(chain, 0, little);
    var h := HeaderBytes(root.command, root.transactionId, Total(chain), little);
    HeaderLength(h, root.payload + Contents(chain), root.command, root.transactionId, Total(chain), little);
    Regroup(h, root.payload, Contents(chain));
  }

  lemma HeaderLength(h: seq<Byte>, tail: seq<Byte>, command: Word, transactionId: Word, size: nat, little: bool)
    requires HEADER + size < 0x1_0000_0000 && h == HeaderBytes(command, transactionId, size, little)
    ensures LengthOf(h + tail, little) == HEADER + size
  {
    WordRoundTrip(HEADER + size, little);
    assert (h + tail)[12..16] == Encode32(HEADER + size, little);
  }

  // ---------- a chain wrapped in another frame ----------

  /** All parents are held by the same kind of pointer. */
  predicate Homogeneous(chain: seq<Node>) {
    forall i, j | 0 <= i < |chain| - 1 && 0 <= j < |chain| - 1 :: chain[i].shared == chain[j].shared
  }

  /** The frame that `FrameController::writeFrame` sends for a protocol. */
  function Wrapped(chain: seq<Node>, command: Word, transactionId: Word, little: bool): seq<Byte>
    requires ValidChain(chain) && 2 * HEADER + Total(chain) < 0x1_0000_0000
  {
    DisabledKeeps(chain);
    var s := Serialized(Disabled(chain), 0, little);
    SizeBounded(Disabled(chain), 0, little);
    HeaderBytes(command, transactionId, WritingBufferSize(s), little) + Sent(s)
  }

  lemma {:induction false} EnabledDoesNotMatter(chain: seq<Node>, i: nat, enabled: bool)
    requires i < |chain|
    ensures var d := chain[i := chain[i].(enabled := enabled)];
            Total(d) == Total(chain) && Contents(d) == Contents(chain)
    decreases |chain|
  {
    var d := chain[i := chain[i].(enabled := enabled)];
    if i == 0 {
      assert d[1..] == chain[1..];
    } else {
      EnabledDoesNotMatter(chain[1..], i - 1, enabled);
      assert d[1..] == chain[1..][i - 1 := chain[i].(enabled := enabled)];
    }
  }

  lemma DisabledKeeps(chain: seq<Node>)
    requires ValidChain(chain)
    ensures ValidChain(Disabled(chain)) && Total(Disabled(chain)) == Total(chain)
    ensures Contents(Disabled(chain)) == Contents(chain) && Disabled(chain)[0].enabled == chain[0].enabled
    ensures DecoratorsEnabled(chain) ==> DecoratorsEnabled(Disabled(chain))
  {
    var raw := FindFrame(chain, false);
    var found := if raw.Some? then raw else FindFrame(chain, true);
    hide FindFrame, Total, Contents;
    if found.Some? {
      EnabledDoesNotMatter(chain, found.value, false);
    }
  }

  lemma {:induction false} SizeBounded(chain: seq<Node>, size: nat, little: bool)
    requires ValidChain(chain) && HEADER + size + Total(chain) < 0x1_0000_0000
    ensures WritingBufferSize(Serialized(chain, size, little)) <= HEADER + Total(chain)
    decreases |chain|
  {
    hide HeaderBytes;
    var s := Serialized(chain, size, little);
    if |chain| > 1 {
      var content := chain[0].kind.content;
      SizeBounded(chain[1..], |content| + size, little);
      assert s[1..] == Serialized(chain[1..], |content| + size, little);
    }
  }

  /** `writingBufferSize` counts what `processWrite` sends, as long as only the last
      parent may have its writing switched off. */
  lemma {:induction false} SizeCountsSent(s: seq<Node>)
    requires ValidChain(s) && DecoratorsEnabled(s) && s[0].enabled
    ensures WritingBufferSize(s) == |Sent(s)|
    decreases |s|
  {
    if |s| > 1 {
      TailIsValid(s);
      if s[1].enabled {
        SizeCountsSent(s[1..]);
      } else {
        assert |s| == 2 && s[1..][1..] == [];
        assert Sent(s[1..]) == Sent([]) + [] == [];
      }
    } else {
      assert s[1..] == [];
    }
  }

  lemma {:induction false} SerializedShape(chain: seq<Node>, size: nat, little: bool)
    requires ValidChain(chain) && HEADER + size + Total(chain) < 0x1_0000_0000
    ensures var s := Serialized(chain, size, little);
            && (forall i | 0 <= i < |chain| :: s[i].kind == chain[i].kind && s[i].enabled == chain[i].enabled)
            && ValidChain(s) && (DecoratorsEnabled(chain) ==> DecoratorsEnabled(s))
    decreases |chain|
  {
    hide HeaderBytes;
    if |chain| > 1 {
      SerializedShape(chain[1..], |chain[0].kind.content| + size, little);
    }
  }

  /** Wrapped by `writeFrame`, whatever the chain looks like, the length field still
      counts exactly the bytes sent. */
  lemma WrappedLengthCounts(chain: seq<Node>, command: Word, transactionId: Word, little: bool)
    requires ValidChain(chain) && DecoratorsEnabled(chain) && chain[0].enabled
    requires 2 * HEADER + Total(chain) < 0x1_0000_0000
    ensures var sent := Wrapped(chain, command, transactionId, little);
            |sent| >= HEADER && LengthOf(sent, little) == |sent|
  {
    DisabledKeeps(chain);
    var d := Disabled(chain);
    SizeBounded(d, 0, little);
    SerializedShape(d, 0, little);
    var s := Serialized(d, 0, little);
    hide HeaderBytes, Disabled, Serialized, WritingBufferSize, Sent;
    SizeCountsSent(s);
    HeaderLength(HeaderBytes(command, transactionId, WritingBufferSize(s), little), Sent(s),
                 command, transactionId, WritingBufferSize(s), little);
  }

  lemma {:induction false} FindFrameIff(chain: seq<Node>, shared: bool)
    requires ValidChain(chain)
    ensures FindFrame(chain, shared).Some? <==>
            |chain| > 1 && chain[|chain| - 1].kind.FrameRoot? && forall i | 0 <= i < |chain| - 1 :: chain[i].shared == shared
    ensures FindFrame(chain, shared).Some? ==> FindFrame(chain, shared).value == |chain| - 1
    decreases |chain|
  {
    if |chain| > 1 {
      FindFrameIff(chain[1..], shared);
      assert forall i | 0 <= i < |chain| - 2 :: chain[1..][i] == chain[i + 1];
    }
  }

  /** What is sent when the root does not write: the decorators' bytes only. */
  lemma {:induction false} SilentRoot(chain: seq<Node>, size: nat, little: bool)
    requires ValidChain(chain) && DecoratorsEnabled(chain) && !chain[|chain| - 1].enabled
    requires HEADER + size + Total(chain) < 0x1_0000_0000
    ensures Sent(Serialized(chain, size, little)) == Contents(chain)
    decreases |chain|
  {
    hide HeaderBytes;
    if |chain| > 1 {
      var content := chain[0].kind.content;
      SilentRoot(chain[1..], |content| + size, little);
      SerializedSteps(chain, size, little);
    } else {
      assert chain[1..] == [] && Serialized(chain, size, little)[1..] == [];
    }
  }

  lemma {:induction false} WritingRootIsLonger(chain: seq<Node>, size: nat, little: bool)
    requires ValidChain(chain) && Enabled(chain) && chain[|chain| - 1].kind.FrameRoot?
    requires HEADER + size + Total(chain) < 0x1_0000_0000
    ensures |Sent(Serialized(chain, size, little))| >= HEADER + |Contents(chain)|
  {
    ChainSendsFrame(chain, size, little);
    hide HeaderBytes, Serialized, Sent, Contents;
  }

  /** The frame carries just the decorators' bytes exactly when all links of the chain
      are of one kind; otherwise the old frame is not found, and its header goes out
      inside the new frame. */
  lemma WrappedPayloadIff(chain: seq<Node>, little: bool)
    requires ValidChain(chain) && Enabled(chain) && |chain| > 1 && chain[|chain| - 1].kind.FrameRoot?
    requires 2 * HEADER + Total(chain) < 0x1_0000_0000
    ensures HEADER + Total(Disabled(chain)) < 0x1_0000_0000
    ensures Sent(Serialized(Disabled(chain), 0, little)) == Contents(chain) <==> Homogeneous(chain)
  {
    FindFrameIff(chain, false);
    FindFrameIff(chain, true);
    DisabledKeeps(chain);
    hide FindFrame, Serialized, Sent, Contents, Total, HeaderBytes;
    var d := Disabled(chain);
    if Homogeneous(chain) {
      assert chain[0].shared == true || chain[0].shared == false;
      SilentRoot(d, 0, little);
    } else {
      assert d == chain;
      WritingRootIsLonger(chain, 0, little);
    }
  }

  // ---------- a list of strings ----------

  predicate Fits(list: seq<seq<Byte>>) {
    |list| < 0x1_0000_0000 && forall i | 0 <= i < |list| :: |list[i]| < 0x1_0000_0000
  }

  function Strings(list: seq<seq<Byte>>, little: bool): seq<Byte>
    requires forall i | 0 <= i < |list| :: |list[i]| < 0x1_0000_0000
  {
    if list == [] then [] else String32(list[0], little) + Strings(list[1..], little)
  }

  /** `writeString32List`. */
  function StringList32(list: seq<seq<Byte>>, little: bool): seq<Byte>
    requires Fits(list)
  {
    Encode32(|list|, little) + Strings(list, little)
  }

  datatype ListState = Begin | Items | End

  /** `StringListProtocol` on the reading side. */
  datatype Reader = Reader(state: ListState, size: nat, list: seq<seq<Byte>>)

  /** The loop over the strings, which stops for good at a string that is cut short. */
  function ReadStrings(r: Reader, c: Cursor, little: bool): (Reader, Cursor)
    requires Valid(c) && r.state == Items
    decreases if r.size > |r.list| then r.size - |r.list| else 0
  {
    if |r.list| >= r.size then (r.(state := End), c)
    else
      match TakeString32(c, little)
      case (None, after) => (r, after)
      case (Some(s), after) => ReadStrings(r.(list := r.list + [s]), after, little)
  }

  /** `processRead` once the parents are complete. */
  function ReadList(r: Reader, c: Cursor, little: bool): (Reader, Cursor)
    requires Valid(c)
  {
    match r.state
    case End => (r, c)
    case Items => ReadStrings(r, c, little)
    case Begin =>
      match TakeInt32(c, little)
      case (None, after) => (r, after)
      case (Some(n), after) => ReadStrings(r.(state := Items, size := n), after, little)
  }

  lemma {:induction false} StringsReadBack(r: Reader, c: Cursor, list: seq<seq<Byte>>, tail: seq<Byte>, little: bool)
    requires Valid(c) && r.state == Items && r.size == |r.list| + |list|
    requires forall i | 0 <= i < |list| :: |list[i]| < 0x1_0000_0000
    requires Rest(c) == Strings(list, little) + tail
    ensures var (end, after) := ReadStrings(r, c, little);
            end == Reader(End, r.size, r.list + list) && Valid(after) && Rest(after) == tail
    decreases |list|
  {
    hide TakeString32, String32;
    if list == [] {
      assert r.list + list == r.list && [] + tail == tail;
    } else {
      var rest := Strings(list[1..], little) + tail;
      assert Rest(c) == String32(list[0], little) + rest;
      ReadWrittenString(c, list[0], rest, little);
      var (s, after) := TakeString32(c, little);
      StringsReadBack(r.(list := r.list + [list[0]]), after, list[1..], tail, little);
      assert r.list + [list[0]] + list[1..] == r.list + list;
    }
  }

  /** A list written to a buffer is read back as it was, and what follows is left. */
  lemma ListReadsBack(c: Cursor, list: seq<seq<Byte>>, tail: seq<Byte>, little: bool)
    requires Valid(c) && Fits(list) && Rest(c) == StringList32(list, little) + tail
    ensures var (end, after) := ReadList(Reader(Begin, 0, []), c, little);
            end == Reader(End, |list|, list) && Valid(after) && Rest(after) == tail
  {
    var body := Strings(list, little) + tail;
    assert Rest(c) == Encode32(|list|, little) + body;
    ReadWritten(c, |list|, body, little);
    hide TakeInt32, ReadStrings, Encode32;
    var (n, after) := TakeInt32(c, little);
    StringsReadBack(Reader(Items, |list|, []), after, list, tail, little);
    assert [] + list == list;
  }

  /** A list sent over a frame arrives: cutting the frame from the stream and reading
      its payload gives the list back, and the bytes behind the frame stay. */
  lemma FramedListArrives(list: seq<seq<Byte>>, command: Word, transactionId: Word, shared: bool, tail: seq<Byte>, little: bool)
    requires Fits(list) && HEADER + |StringList32(list, little)| < 0x1_0000_0000
    ensures var chain := [Node(Decorator(StringList32(list, little)), shared, true, []),
                          Node(FrameRoot(command, transactionId, []), false, true, [])];
            && HEADER + Total(chain) < 0x1_0000_0000
            && var sent := Sent(Serialized(chain, 0, little));
               var (frames, rest) := Parse(sent + tail, little);
               && |frames| > 0 && frames[0].command == command && frames[0].transactionId == transactionId
               && ReadList(Reader(Begin, 0, []), Cursor(frames[0].payload, 0), little).0 == Reader(End, |list|, list)
               && frames == [frames[0]] + Parse(tail, little).0 && rest == Parse(tail, little).1
  {
    hide *;
    var payload := StringList32(list, little);
    var f := Frame(command, transactionId, 1, payload);
    FrameIsSent(payload, command, transactionId, shared, little);
    EncodedWords(f, tail, little);
    FromStart(payload);
    ListReadsBack(Cursor(payload, 0), list, [], little);
    ParseOne(Encode(f, little), f, tail, little);
  }

  // ---------- lists through the read loop ----------

  /** A list to be sent, and the header of its frame. */
  datatype Message = Message(command: Word, transactionId: Word, shared: bool, list: seq<seq<Byte>>)

  predicate Postable(m: Message, little: bool) {
    Fits(m.list) && HEADER + |StringList32(m.list, little)| < 0x8000_0000
  }

  function ChainOf(m: Message, little: bool): seq<Node>
    requires Postable(m, little)
  {
    [Node(Decorator(StringList32(m.list, little)), m.shared, true, []),
     Node(FrameRoot(m.command, m.transactionId, []), false, true, [])]
  }

  function FrameFor(m: Message, little: bool): Frame
    requires Postable(m, little)
  {
    Frame(m.command, m.transactionId, 1, StringList32(m.list, little))
  }

  function FramesFor(ms: seq<Message>, little: bool): seq<Frame>
    requires forall i | 0 <= i < |ms| :: Postable(ms[i], little)
  {
    seq(|ms|, i requires 0 <= i < |ms| => FrameFor(ms[i], little))
  }

  /** What `processSerialize` and `processWrite` send for the messages in turn. */
  function Posted(ms: seq<Message>, little: bool): seq<Byte>
    requires forall i | 0 <= i < |ms| :: Postable(ms[i], little)
  {
    if ms == [] then []
    else
      var m := ms[0];
      assert Postable(m, little);
      FrameIsSent(StringList32(m.list, little), m.command, m.transactionId, m.shared, little);
      Sent(Serialized(ChainOf(m, little), 0, little)) + Posted(ms[1..], little)
  }

  lemma {:induction false} PostedIsEncoded(ms: seq<Message>, little: bool)
    requires forall i | 0 <= i < |ms| :: Postable(ms[i], little)
    ensures Sendable(FramesFor(ms, little)) && Posted(ms, little) == EncodeAll(FramesFor(ms, little), little)
  {
    hide Serialized, Sent, Total, Encode, StringList32;
    if ms != [] {
      var m, frames := ms[0], FramesFor(ms, little);
      FrameIsSent(StringList32(m.list, little), m.command, m.transactionId, m.shared, little);
      PostedIsEncoded(ms[1..], little);
      assert frames[1..] == FramesFor(ms[1..], little);
    }
  }

  lemma PayloadReadsBack(m: Message, little: bool)
    requires Postable(m, little)
    ensures ReadList(Reader(Begin, 0, []), Cursor(FrameFor(m, little).payload, 0), little).0 == Reader(End, |m.list|, m.list)
  {
    hide ReadList;
    var payload := StringList32(m.list, little);
    FromStart(payload);
    ListReadsBack(Cursor(payload, 0), m.list, [], little);
  }

  /** Any lists, each sent over a frame, the frames back to back and read in any chunks
      that split no header word: each list is read back from the payload of its frame. */
  lemma FramedListsArrive(ms: seq<Message>, chunks: seq<seq<Byte>>, little: bool)
    requires forall i | 0 <= i < |ms| :: Postable(ms[i], little)
    requires Concat(chunks) == Posted(ms, little) && NoWordSplit([], chunks, little)
    requires forall i | 0 <= i < |chunks| :: |chunks[i]| <= 0x8000_0000
    ensures var f := Feed(None, chunks, little);
            && f.Fed? && |f.frames| == |ms| && Holds(f.last, [], little)
            && forall i | 0 <= i < |ms| ::
                 && f.frames[i].command == ms[i].command && f.frames[i].transactionId == ms[i].transactionId
                 && ReadList(Reader(Begin, 0, []), Cursor(f.frames[i].payload, 0), little).0
                    == Reader(End, |ms[i].list|, ms[i].list)
  {
    hide ReadList, Posted, Feed, NoWordSplit, Sendable, EncodeAll, Holds, StringList32;
    PostedIsEncoded(ms, little);
    FramesArrive(FramesFor(ms, little), chunks, little);
    forall i | 0 <= i < |ms|
      ensures ReadList(Reader(Begin, 0, []), Cursor(FrameFor(ms[i], little).payload, 0), little).0
              == Reader(End, |ms[i].list|, ms[i].list)
    {
      PayloadReadsBack(ms[i], little);
    }
  }

  lemma FromStart(payload: seq<Byte>)
    ensures Valid(Cursor(payload, 0)) && Rest(Cursor(payload, 0)) == payload + []
  {
  }

  lemma FrameIsSent(payload: seq<Byte>, command: Word, transactionId: Word, shared: bool, little: bool)
    requires HEADER + |payload| < 0x1_0000_0000
    ensures var chain := [Node(Decorator(payload), shared, true, []), Node(FrameRoot(command, transactionId, []), false, true, [])];
            && HEADER + Total(chain) < 0x1_0000_0000
            && Sent(Serialized(chain, 0, little)) == Encode(Frame(command, transactionId, 1, payload), little)
  {
    var chain := [Node(Decorator(payload), shared, true, []), Node(FrameRoot(command, transactionId, []), false, true, [])];
    TwoNodes(payload, command, transactionId, shared);
    ChainSendsFrame(chain, 0, little);
    hide Serialized, Sent, Total, Contents, Encode32;
    var h := HeaderBytes(command, transactionId, |payload|, little);
    assert h + [] + payload == h + payload;
  }

  lemma TwoNodes(payload: seq<Byte>, command: Word, transactionId: Word, shared: bool)
    ensures var chain := [Node(Decorator(payload), shared, true, []), Node(FrameRoot(command, transactionId, []), false, true, [])];
            && ValidChain(chain) && Enabled(chain) && Total(chain) == |payload| && Contents(chain) == payload
  {
    var root := Node(FrameRoot(command, transactionId, []), false, true, []);
    var chain := [Node(Decorator(payload), shared, true, []), root];
    assert chain[1..] == [root] && [root][1..] == [];
    assert Contents([root]) == Contents([]) + [] == [];
    assert Total([root]) == |root.kind.payload| + Total([]) == 0;
  }

  lemma ParseOne(e: seq<Byte>, f: Frame, tail: seq<Byte>, little: bool)
    requires |e| >= HEADER && LengthOf(e + tail, little) == |e| && FrameOf((e + tail)[..|e|], little) == f
    ensures var (frames, rest) := Parse(tail, little); Parse(e + tail, little) == ([f] + frames, rest)
  {
    assert (e + tail)[|e|..] == tail;
  }

  class StringListProtocol {
    var list: seq<seq<Byte>>
    var state: ListState
    var listSize: nat

    constructor ()
      ensures Value() == Reader(Begin, 0, [])
    {
      list, state, listSize := [], Begin, 0;
    }

    ghost function Value(): Reader
      reads this
    {
      Reader(state, listSize, list)
    }

    /** `processRead` on a transport with a complete frame behind it; it returns true
        even when a string is cut short. */
    method ProcessRead(transport: BufferedTransport, little: bool) returns (done: bool)
      requires Valid(transport.State())
      modifies this, transport
      ensures done && (Value(), transport.State()) == ReadList(old(Value()), old(transport.State()), little)
    {
      hide TakeInt32, TakeString32;
      if state == Begin {
        var n := transport.ReadInt32(little);
        if n.None? { return true; }
        listSize := n.value;
        state := Items;
      }
      if state == Items {
        ghost var end := ReadStrings(Value(), transport.State(), little);
        while true
          invariant state == Items && Valid(transport.State())
          invariant end == ReadStrings(Value(), transport.State(), little)
          decreases if listSize > |list| then listSize - |list| else 0
        {
          if listSize > |list| {
            var s := transport.ReadString32(little);
            if s.None? { return true; }
            list := list + [s.value];
            if listSize == |list| {
              state := End;
              break;
            }
          } else {
            state := End;
            break;
          }
        }
      }
      return true;
    }

    method ProcessSerialize(writeBuffer: BufferedTransport, little: bool)
      requires Fits(list)
      modifies writeBuffer
      ensures writeBuffer.State() == Cursor(StringList32(list, little), 0)
    {
      writeBuffer.Clear();
      writeBuffer.WriteInt32(|list|, little);
      var i := 0;
      assert list[0..] == list;
      while i < |list|
        invariant 0 <= i <= |list| && writeBuffer.readPos == 0
        invariant writeBuffer.buffer + Strings(list[i..], little) == StringList32(list, little)
      {
        assert list[i..][0] == list[i] && list[i..][1..] == list[i + 1..];
        ghost var before := writeBuffer.buffer;
        writeBuffer.WriteString32(list[i], little);
        Regroup(before, String32(list[i], little), Strings(list[i + 1..], little));
        i := i + 1;
      }
    }
  }

  // ---------- the chain objects ----------

  /** `BaseProtocol` on the writing side; `chain` is the object and its parents, and
      `out` what its writing buffer still holds. */
  class Protocol {
    const kind: Kind
    const parent: Protocol?
    const parentShared: Protocol?
    ghost const chain: seq<Protocol>
    var enabled: bool
    var out: seq<Byte>

    constructor (kind: Kind, parent: Protocol?, parentShared: Protocol?)
      requires parent == null || parentShared == null
      requires parent != null ==> parent.Linked() && kind.Decorator?
      requires parentShared != null ==> parentShared.Linked() && kind.Decorator?
      ensures Linked() && enabled && out == []
      ensures this.kind == kind && this.parent == parent && this.parentShared == parentShared
    {
      this.kind, this.parent, this.parentShared := kind, parent, parentShared;
      enabled, out := true, [];
      chain := [this] + if parent != null then parent.chain else if parentShared != null then parentShared.chain else [];
      new;
      if parent != null { assert chain[1..] == parent.chain; }
      if parentShared != null { assert chain[1..] == parentShared.chain; }
    }

    /** The parent pointers lead along `chain`, and only its end can be a frame. */
    ghost predicate Linked()
      decreases |chain|
    {
      && chain != [] && chain[0] == this
      && (parent == null || parentShared == null)
      && (|chain| == 1 <==> parent == null && parentShared == null)
      && (|chain| > 1 ==> kind.Decorator?)
      && (parent != null ==> |parent.chain| < |chain| && parent.chain == chain[1..] && parent.Linked())
      && (parentShared != null ==>
            |parentShared.chain| < |chain| && parentShared.chain == chain[1..] && parentShared.Linked())
    }

    /** The state of the chain as a value. */
    ghost function Value(): (v: seq<Node>)
      requires Linked()
      reads chain
      ensures |v| == |chain| && ValidChain(v)
      decreases |chain|
    {
      [Node(kind, parent == null, enabled, out)]
      + if parent != null then parent.Value() else if parentShared != null then parentShared.Value() else []
    }

    lemma NotAmongParents()
      requires Linked()
      ensures this !in chain[1..]
    {
      Shorter(chain[1..]);
    }

    /** An object further up has a shorter chain. */
    lemma Shorter(rest: seq<Protocol>)
      requires Linked() && rest == chain[1..]
      ensures forall p | p in rest :: |p.chain| < |chain|
      decreases |chain|
    {
      if parent != null {
        parent.Shorter(rest[1..]);
      } else if parentShared != null {
        parentShared.Shorter(rest[1..]);
      }
    }

    method ProcessSerialize(size: nat, little: bool)
      requires Linked() && HEADER + size + Total(Value()) < 0x1_0000_0000
      modifies chain
      ensures Value() == Serialized(old(Value()), size, little)
      decreases |chain|, 1
    {
      if kind.Decorator? {
        SerializeDecorator(size, little);
      } else {
        SerializeFrame(size, little);
      }
    }

    /** The decorator's own `processSerialize`. */
    method SerializeDecorator(size: nat, little: bool)
      requires Linked() && kind.Decorator? && HEADER + size + Total(Value()) < 0x1_0000_0000
      modifies chain
      ensures Value() == Serialized(old(Value()), size, little)
      decreases |chain|, 0, 1
    {
      hide *;
      HeadKind();
      ghost var head, parents := HeadAndParents(Value());
      SerializedDecorator(Value(), head, parents, size, little);
      SetOut(kind.content, head, parents);
      SerializeParent(|kind.content| + size, little, head.(out := kind.content), parents);
    }

    /** The frame's `processSerialize`. */
    method SerializeFrame(size: nat, little: bool)
      requires Linked() && kind.FrameRoot? && HEADER + size + Total(Value()) < 0x1_0000_0000
      modifies this`out
      ensures Value() == Serialized(old(Value()), size, little)
    {
      ghost var v := Value();
      HeadKind();
      SerializedAlone(v, size, little);
      assert v == [v[0]] + [];
      hide HeaderBytes, Serialized, Total, Linked, Value;
      SetOut(HeaderBytes(kind.command, kind.transactionId, size + |kind.payload|, little) + kind.payload, v[0], []);
    }

    lemma HeadKind()
      requires Linked()
      ensures Value()[0].kind == kind && (kind.FrameRoot? ==> |chain| == 1) && this in chain
    {
    }

    /** Fills the writing buffer, which is cleared first. */
    method SetOut(bytes: seq<Byte>, ghost head: Node, ghost parents: seq<Node>)
      requires Linked() && Value() == [head] + parents
      modifies this`out
      ensures Value() == [head.(out := bytes)] + parents
    {
      NotAmongParents();
      ghost var v := Value();
      assert v[0] == head && v[1..] == parents;
      out := bytes;
      assert Value()[1..] == v[1..];
    }

    /** `callParentProcessSerialize`. */
    method SerializeParent(size: nat, little: bool, ghost head: Node, ghost parents: seq<Node>)
      requires Linked() && kind.Decorator? && Value() == [head] + parents
      requires HEADER + size + Total(parents) < 0x1_0000_0000
      modifies chain
      ensures Value() == [head] + Serialized(parents, size, little)
      decreases |chain|, 0, 0
    {
      hide HeaderBytes, Serialized, Total;
      NotAmongParents();
      assert Value()[0] == head && Value()[1..] == parents;
      if parent != null {
        assert parents == parent.Value();
        parent.ProcessSerialize(size, little);
        assert Value() == [head] + parent.Value();
      } else if parentShared != null {
        assert parents == parentShared.Value();
        parentShared.ProcessSerialize(size, little);
        assert Value() == [head] + parentShared.Value();
      } else {
        NothingToSerialize(parents, size, little);
      }
    }

    /** `processWrite`: the parents write first; what is written leaves the buffer. */
    method ProcessWrite(transport: BufferedTransport)
      requires Linked()
      modifies chain, transport
      ensures transport.State() == Extend(old(transport.State()), Sent(old(Value())))
      decreases |chain|
    {
      NotAmongParents();
      ghost var v := Value();
      ghost var start := transport.State();
      if parent != null {
        assert v[1..] == parent.Value();
        parent.ProcessWrite(transport);
      } else if parentShared != null {
        assert v[1..] == parentShared.Value();
        parentShared.ProcessWrite(transport);
      } else {
        assert v[1..] == [];
        assert Extend(start, []) == start;
      }
      if enabled && |out| > 0 {
        Regroup(start.buffer, Sent(v[1..]), out);
        transport.Write(out);
        out := [];
      } else {
        assert Sent(v[1..]) + [] == Sent(v[1..]);
      }
    }
  
    /** One of the two loops of `disableWriteBufferOfParentFrameProtocol`: follows one
        kind of pointer up to a frame. */
    method FindParentFrame(shared: bool) returns (frame: Protocol?, ghost at: nat)
      requires Linked()
      ensures match FindFrame(Value(), shared)
              case None => frame == null
              case Some(i) => at == i && i < |chain| && frame == chain[i]
    {
      hide FindFrame, Linked, Value;
      ghost var v := Value();
      var p := if shared then parentShared else parent;
      at := 1;
      FollowOne(shared);
      while p != null && p.kind.Decorator?
        invariant p != null ==>
                    at < |chain| && p == chain[at] && p.Linked() && p.chain == chain[at..] && p.Value() == v[at..]
                    && v[at].kind == p.kind
        invariant FindFrame(v, shared) == Onward(v, at, shared, p == null)
        decreases if p == null then 0 else |p.chain|
      {
        p.FollowOne(shared);
        assert v[at..][1..] == v[at + 1..];
        p := if shared then p.parentShared else p.parent;
        at := at + 1;
      }
      frame := p;
    }

    /** `disableWriteBufferOfParentFrameProtocol`. */
    method DisableParentFrame()
      requires Linked()
      modifies chain
      ensures Value() == Disabled(old(Value()))
    {
      hide Linked, Value, FindFrame;
      ghost var v := Value();
      var frame, at := FindParentFrame(false);
      if frame == null {
        frame, at := FindParentFrame(true);
      }
      if frame != null {
        Places();
        frame.enabled := false;
        Places();
        assert Value() == v[at := v[at].(enabled := false)];
      }
    }

    ghost function Here(): Node
      reads this
    {
      Node(kind, parent == null, enabled, out)
    }

    /** Every object stands at its place in the value, and at no other. */
    lemma Places()
      requires Linked()
      ensures forall i | 0 <= i < |chain| :: Value()[i] == chain[i].Here() && |chain[i].chain| == |chain| - i
      decreases |chain|
    {
      if parent != null {
        parent.Places();
        assert forall i | 0 < i < |chain| :: chain[i] == parent.chain[i - 1] && Value()[i] == parent.Value()[i - 1];
      } else if parentShared != null {
        parentShared.Places();
        assert forall i | 0 < i < |chain| :: chain[i] == parentShared.chain[i - 1] && Value()[i] == parentShared.Value()[i - 1];
      }
    }

    /** The next pointer of one kind. */
    lemma FollowOne(shared: bool)
      requires Linked()
      ensures var p := if shared then parentShared else parent;
              var v := Value();
              && (p != null ==>
                    |chain| > 1 && p == chain[1] && p.Linked() && p.chain == chain[1..] && p.Value() == v[1..]
                    && v[1].kind == p.kind)
              && (p == null ==> FindFrame(v, shared) == None)
              && (p != null ==> FindFrame(v, shared) == if p.kind.FrameRoot? then Some(1) else Shifted(1, FindFrame(v[1..], shared)))
    {
    }
  }

  function Shifted(n: nat, r: Option<nat>): Option<nat> {
    if r.None? then None else Some(n + r.value)
  }

  /** What is found from position `at` on. */
  function Onward(v: seq<Node>, at: nat, shared: bool, ended: bool): Option<nat>
    requires !ended ==> at < |v|
  {
    if ended then None
    else if v[at].kind.FrameRoot? then Some(at)
    else Shifted(at, FindFrame(v[at..], shared))
  }
}
