/** The resumable frame parser (FrameProtocol.cpp, FrameProtocol.h) and the loop
    that drives it from socket reads (ClientController.cpp). */
module Frames {
  import opened Text
  import opened Transport

  const HEADER: nat := 16

  datatype State = Init | Command | TransactionId | Checksum | Length | Payload | Complete

  datatype Header = Header(command: Word, transactionId: Word, checksum: Word, length: Word)

  /** `FrameProtocol` as far as reading goes; `payload_pos_` counts up while the
      header is read and is then replaced, so only its last value is kept. */
  datatype Proto = Proto(input: Cursor, header: Header, state: State, payloadPos: nat, initLength: Word)

  function Fresh(buffer: seq<Byte>): Proto {
    Proto(Cursor(buffer, 0), Header(0, 0, 0, 0), Init, 0, 0)
  }

  function Added(p: Proto, data: seq<Byte>): Proto {
    p.(input := Extend(p.input, data))
  }

  /** `int remain`: the difference cut to 32 bits and read as a signed number. */
  function Remain(length: int, total: nat): int {
    var d := (length - total) % 0x1_0000_0000;
    if d >= 0x8000_0000 then d - 0x1_0000_0000 else d
  }

  /** `processRead`; a failed read ends the call with the bytes consumed. */
  function Progress(p: Proto, little: bool): (r: (Proto, bool))
    requires Valid(p.input)
    ensures Valid(r.0.input) && r.0.input.buffer == p.input.buffer
    ensures r.1 <==> r.0.state == Complete
    decreases if p.state == Complete then 0 else if p.state == Payload then 1 else if p.state == Length then 2
              else if p.state == Checksum then 3 else if p.state == TransactionId then 4 else 5
  {
    match p.state
    case Complete => (p, true)
    case Payload =>
      if Remain(p.header.length, |p.input.buffer|) > 0 then (p, false)
      else (p.(initLength := p.header.length, payloadPos := p.input.pos, state := Complete), true)
    case _ =>
      var (w, input) := TakeInt32(p.input, little);
      if w.None? then (p.(input := input), false)
      else Progress(Stored(p.(input := input), w.value), little)
  }

  /** The header word just read goes to its field, and the next one is awaited. */
  function Stored(p: Proto, w: Word): Proto
    requires p.state != Payload && p.state != Complete
  {
    match p.state
    case TransactionId => p.(header := p.header.(transactionId := w), state := Checksum)
    case Checksum => p.(header := p.header.(checksum := w), state := Length)
    case Length => p.(header := p.header.(length := w), state := Payload)
    case _ => p.(header := p.header.(command := w), state := TransactionId)
  }

  datatype Frame = Frame(command: Word, transactionId: Word, checksum: Word, payload: seq<Byte>)

  /** What a handler sees of a complete frame. With a length field that ends before the
      payload or outside the buffer there are no payload bytes to speak of. */
  function Received(p: Proto): Frame {
    var payload :=
      if p.payloadPos <= p.initLength <= |p.input.buffer| then p.input.buffer[p.payloadPos..p.initLength] else [];
    Frame(p.header.command, p.header.transactionId, p.header.checksum, payload)
  }

  /** `remainingBufferSize` and the offset of `remainingBufferPtr`: what a handler has
      already read of the payload cancels out. */
  function RemainingSize(p: Proto): (n: int)
    ensures n == |p.input.buffer| - p.initLength
  {
    |p.input.buffer| - p.input.pos - (p.initLength - p.payloadPos - (p.input.pos - p.payloadPos))
  }

  function RemainingStart(p: Proto): (n: int)
    ensures n == p.initLength
  {
    p.input.pos + (p.initLength - p.payloadPos - (p.input.pos - p.payloadPos))
  }

  // ---------- the read loop ----------

  /** `Delivered`: the loop ends and `last` is kept. `Spins`: after `frames` the frame
      `again` is handed on for ever. `Overreads`: the last of `frames` has a length field
      beyond the buffer, and the bytes asked for next lie outside it. */
  datatype Delivery =
    | Delivered(frames: seq<Frame>, last: Proto)
    | Spins(frames: seq<Frame>, again: Frame)
    | Overreads(frames: seq<Frame>)

  function Then(f: Frame, d: Delivery): Delivery {
    match d
    case Delivered(frames, last) => Delivered([f] + frames, last)
    case Spins(frames, again) => Spins([f] + frames, again)
    case Overreads(frames) => Overreads([f] + frames)
  }

  /** The loop of `onSocket_ReadEvent`: every complete frame is handed on, and what
      follows it starts a new protocol object. */
  function Deliver(p: Proto, little: bool): Delivery
    requires Valid(p.input)
    decreases |p.input.buffer|, if p == Fresh(p.input.buffer) then 0 else 1
  {
    var (q, complete) := Progress(p, little);
    if !complete then Delivered([], q)
    else if q.initLength > |q.input.buffer| then Overreads([Received(q)])
    else if q.initLength == |q.input.buffer| then Delivered([Received(q)], q)
    else
      var rest := Fresh(q.input.buffer[q.initLength..]);
      if rest == p then Spins([], Received(q)) else Then(Received(q), Deliver(rest, little))
  }

  /** One read event: a finished protocol object is replaced first. */
  function OnRead(p: Option<Proto>, chunk: seq<Byte>, little: bool): Delivery
    requires p.Some? ==> Valid(p.value.input)
  {
    Deliver(Added(if p.None? || p.value.state == Complete then Fresh([]) else p.value, chunk), little)
  }

  // ---------- the reference: frames cut from the whole stream ----------

  function WordAt(s: seq<Byte>, at: nat, little: bool): Word
    requires at + 4 <= |s|
  {
    Decode32(s[at..at + 4], little)
  }

  function LengthOf(s: seq<Byte>, little: bool): Word
    requires |s| >= HEADER
  {
    WordAt(s, 12, little)
  }

  function FrameOf(s: seq<Byte>, little: bool): Frame
    requires HEADER <= |s|
  {
    Frame(WordAt(s, 0, little), WordAt(s, 4, little), WordAt(s, 8, little), s[HEADER..])
  }

  predicate Whole(s: seq<Byte>, little: bool) {
    |s| >= HEADER && HEADER <= LengthOf(s, little) <= |s|
  }

  /** The frames of a stream and what follows the last whole one. */
  function Parse(s: seq<Byte>, little: bool): (r: (seq<Frame>, seq<Byte>))
    decreases |s|
  {
    if !Whole(s, little) then ([], s)
    else
      var n := LengthOf(s, little);
      var (frames, rest) := Parse(s[n..], little);
      ([FrameOf(s[..n], little)] + frames, rest)
  }

  /** All length fields are possible ones: no shorter than a header, and positive
      as a 32-bit number. */
  predicate Regular(s: seq<Byte>, little: bool)
    decreases |s|
  {
    |s| >= HEADER ==>
      && HEADER <= LengthOf(s, little) < 0x8000_0000
      && (LengthOf(s, little) <= |s| ==> Regular(s[LengthOf(s, little)..], little))
  }

  /** Bytes left over that do not end inside a header word. */
  predicate Aligned(rest: seq<Byte>) {
    |rest| % 4 == 0 || |rest| >= HEADER
  }

  // ---------- resuming ----------

  /** More bytes do not change the words already there. */
  lemma SameWord(c: Cursor, more: seq<Byte>, little: bool)
    requires Valid(c) && c.pos + 4 <= |c.buffer|
    ensures Valid(Extend(c, more))
    ensures TakeInt32(c, little) == (Some(WordAt(c.buffer, c.pos, little)), c.(pos := c.pos + 4))
    ensures TakeInt32(Extend(c, more), little)
            == (Some(WordAt(c.buffer, c.pos, little)), Extend(c.(pos := c.pos + 4), more))
  {
    assert (c.buffer + more)[c.pos..c.pos + 4] == c.buffer[c.pos..c.pos + 4];
  }

  /** A call that stopped between two words goes on as if it had not stopped. */
  lemma {:induction false} Resumes(p: Proto, more: seq<Byte>, little: bool)
    requires Valid(p.input) && !Progress(p, little).1
    requires Progress(p, little).0.state != Payload ==> (|p.input.buffer| - p.input.pos) % 4 == 0
    ensures Valid(Added(p, more).input)
    ensures Progress(Added(Progress(p, little).0, more), little) == Progress(Added(p, more), little)
    decreases if p.state == Complete then 0 else if p.state == Payload then 1 else if p.state == Length then 2
              else if p.state == Checksum then 3 else if p.state == TransactionId then 4 else 5
  {
    hide Progress, TakeInt32, WordAt;
    if p.state == Payload || p.state == Complete {
      Stops(p, little);
    } else if p.input.pos + 4 <= |p.input.buffer| {
      StepWord(p, little);
      StepWord(Added(p, more), little);
      var at, w := p.input.pos, WordAt(p.input.buffer, p.input.pos, little);
      var next := Stored(p.(input := p.input.(pos := at + 4)), w);
      Resumes(next, more, little);
      SameSlice(p.input.buffer, more, at, little);
      assert Stored(Added(p, more).(input := Added(p, more).input.(pos := at + 4)), w) == Added(next, more);
    } else {
      NoWord(p, little);
    }
  }

  lemma Stops(p: Proto, little: bool)
    requires Valid(p.input) && (p.state == Payload || p.state == Complete) && !Progress(p, little).1
    ensures Progress(p, little).0 == p
  {
  }

  lemma SameSlice(s: seq<Byte>, more: seq<Byte>, at: nat, little: bool)
    requires at + 4 <= |s|
    ensures WordAt(s + more, at, little) == WordAt(s, at, little)
  {
    assert (s + more)[at..at + 4] == s[at..at + 4];
  }

  lemma NoWord(p: Proto, little: bool)
    requires Valid(p.input) && p.state != Payload && p.state != Complete && |p.input.buffer| < p.input.pos + 4
    ensures Progress(p, little) == (p.(input := p.input.(pos := |p.input.buffer|)), false)
  {
  }

  /** The whole header, read in one call. */
  function HeaderOf(s: seq<Byte>, little: bool): Header
    requires |s| >= HEADER
  {
    Header(WordAt(s, 0, little), WordAt(s, 4, little), WordAt(s, 8, little), LengthOf(s, little))
  }

  lemma StepWord(p: Proto, little: bool)
    requires Valid(p.input) && p.state != Payload && p.state != Complete && p.input.pos + 4 <= |p.input.buffer|
    ensures Progress(p, little)
            == Progress(Stored(p.(input := p.input.(pos := p.input.pos + 4)),
                                  WordAt(p.input.buffer, p.input.pos, little)), little)
  {
    SameWord(p.input, [], little);
  }

  lemma FullHeader(s: seq<Byte>, little: bool)
    requires |s| >= HEADER
    ensures Progress(Fresh(s), little)
            == Progress(Proto(Cursor(s, HEADER), HeaderOf(s, little), Payload, 0, 0), little)
  {
    hide Progress, WordAt;
    var h := Header(0, 0, 0, 0);
    StepWord(Fresh(s), little);
    h := h.(command := WordAt(s, 0, little));
    StepWord(Proto(Cursor(s, 4), h, TransactionId, 0, 0), little);
    h := h.(transactionId := WordAt(s, 4, little));
    StepWord(Proto(Cursor(s, 8), h, Checksum, 0, 0), little);
    h := h.(checksum := WordAt(s, 8, little));
    StepWord(Proto(Cursor(s, 12), h, Length, 0, 0), little);
  }

  lemma {:induction false} ShortHeader(p: Proto, little: bool)
    requires Valid(p.input) && p.state != Payload && p.state != Complete
    requires |p.input.buffer| - p.input.pos < Awaited(p.state)
    ensures var (q, complete) := Progress(p, little);
            && !complete && q.state != Payload && q.input.pos == |q.input.buffer|
            && Awaited(q.state) > 0
            && 0 <= |p.input.buffer| - p.input.pos - (Awaited(p.state) - Awaited(q.state)) < 4
    decreases Awaited(p.state)
  {
    if p.input.pos + 4 <= |p.input.buffer| {
      StepWord(p, little);
      hide Progress, WordAt, Decode32;
      var next := Stored(p.(input := p.input.(pos := p.input.pos + 4)), WordAt(p.input.buffer, p.input.pos, little));
      ShortHeader(next, little);
    } else {
      NoWord(p, little);
      hide Progress;
    }
  }

  /** Header bytes still to be read in a state. */
  function Awaited(state: State): nat {
    match state
    case TransactionId => 12
    case Checksum => 8
    case Length => 4
    case Payload => 0
    case Complete => 0
    case _ => 16
  }

  /** A protocol object that was given `rest` and waits for more. */
  function Waiting(rest: seq<Byte>, little: bool): Proto {
    Progress(Fresh(rest), little).0
  }

  /** Nothing is lost between two reads exactly when the first one did not end
      inside a header word. */
  lemma InSyncIffAligned(rest: seq<Byte>, little: bool)
    requires !Progress(Fresh(rest), little).1
    ensures Aligned(rest) <==>
            forall more: seq<Byte> ::
              Progress(Added(Waiting(rest, little), more), little) == Progress(Fresh(rest + more), little)
  {
    hide Progress;
    if Aligned(rest) {
      forall more: seq<Byte>
        ensures Progress(Added(Waiting(rest, little), more), little) == Progress(Fresh(rest + more), little)
      {
        ResumesFresh(rest, more, little);
      }
    } else {
      LosesBytes(rest, little);
    }
  }

  lemma ResumesFresh(rest: seq<Byte>, more: seq<Byte>, little: bool)
    requires !Progress(Fresh(rest), little).1 && Aligned(rest)
    ensures Progress(Added(Waiting(rest, little), more), little) == Progress(Fresh(rest + more), little)
  {
    if |rest| >= HEADER {
      FullHeader(rest, little);
    } else {
      ShortHeader(Fresh(rest), little);
    }
    Resumes(Fresh(rest), more, little);
    assert Added(Fresh(rest), more) == Fresh(rest + more);
  }

  lemma PayloadOrComplete(p: Proto, little: bool)
    requires Valid(p.input) && p.state == Payload
    ensures Awaited(Progress(p, little).0.state) == 0
  {
  }

  lemma LosesBytes(rest: seq<Byte>, little: bool)
    requires !Aligned(rest)
    ensures exists more: seq<Byte> ::
              Progress(Added(Waiting(rest, little), more), little) != Progress(Fresh(rest + more), little)
  {
    hide Progress, WordAt, LengthOf;
    var more: seq<Byte> := seq(HEADER - |rest|, i => 0);
    var p := Waiting(rest, little);
    ShortHeader(Fresh(rest), little);
    WaitingInput(rest, little);
    ShortHeader(Added(p, more), little);
    FullHeader(rest + more, little);
    PayloadOrComplete(Proto(Cursor(rest + more, HEADER), HeaderOf(rest + more, little), Payload, 0, 0), little);
    assert Progress(Added(p, more), little) != Progress(Fresh(rest + more), little);
  }

  // ---------- the loop cuts the frames the reference cuts ----------

  /** The buffer is not so much longer than the frame that the 32-bit difference wraps. */
  predicate Measurable(s: seq<Byte>, little: bool) {
    |s| >= HEADER ==> |s| - LengthOf(s, little) <= 0x8000_0000
  }

  lemma RemainIsExact(length: int, total: nat)
    requires 0 <= length < 0x8000_0000 && total - length <= 0x8000_0000
    ensures Remain(length, total) == length - total
  {
    if length >= total {
      assert (length - total) % 0x1_0000_0000 == length - total;
    } else {
      assert (length - total) % 0x1_0000_0000 == length - total + 0x1_0000_0000;
    }
  }

  lemma CompleteIffWhole(s: seq<Byte>, little: bool)
    requires Regular(s, little) && Measurable(s, little)
    ensures var (q, complete) := Progress(Fresh(s), little);
            && complete == Whole(s, little)
            && (complete ==> q == Proto(Cursor(s, HEADER), HeaderOf(s, little), Complete, HEADER, LengthOf(s, little)))
  {
    if |s| >= HEADER {
      FullHeader(s, little);
      RemainIsExact(LengthOf(s, little), |s|);
    } else {
      ShortHeader(Fresh(s), little);
    }
  }

  lemma ReceivedIsFrame(s: seq<Byte>, little: bool)
    requires Whole(s, little)
    ensures var n := LengthOf(s, little);
            Received(Proto(Cursor(s, HEADER), HeaderOf(s, little), Complete, HEADER, n)) == FrameOf(s[..n], little)
  {
    var n := LengthOf(s, little);
    assert s == s[..n] + s[n..];
    SameSlice(s[..n], s[n..], 0, little);
    SameSlice(s[..n], s[n..], 4, little);
    SameSlice(s[..n], s[n..], 8, little);
    assert s[HEADER..n] == s[..n][HEADER..];
  }

  /** The state between two reads: what is left over is held by the protocol object,
      or the last frame has just been completed and nothing is left. */
  ghost predicate Holds(p: Option<Proto>, rest: seq<Byte>, little: bool) {
    match p
    case None => rest == []
    case Some(q) =>
      if q.state == Complete then rest == [] && Valid(q.input)
      else q == Waiting(rest, little) && !Progress(Fresh(rest), little).1
  }

  lemma {:induction false} DeliverIsParse(s: seq<Byte>, little: bool)
    requires Regular(s, little) && Measurable(s, little)
    ensures var d := Deliver(Fresh(s), little);
            && d.Delivered? && d.frames == Parse(s, little).0
            && Holds(Some(d.last), Parse(s, little).1, little)
    decreases |s|
  {
    CompleteIffWhole(s, little);
    WholeTurn(s, little);
    hide Progress, WordAt, Deliver, Received;
    if Whole(s, little) {
      var n := LengthOf(s, little);
      if n < |s| {
        MeasurableTail(s, little);
        DeliverIsParse(s[n..], little);
      } else {
        assert s[n..] == [];
        NotWhole([], little);
      }
    }
  }

  /** The first turn, when `processRead` takes exactly the whole frames for complete. */
  lemma WholeTurn(s: seq<Byte>, little: bool)
    requires var (q, complete) := Progress(Fresh(s), little);
             complete == Whole(s, little) &&
             (complete ==> q == Proto(Cursor(s, HEADER), HeaderOf(s, little), Complete, HEADER, LengthOf(s, little)))
    ensures var d, q := Deliver(Fresh(s), little), Progress(Fresh(s), little).0;
            if !Whole(s, little) then d == Delivered([], q)
            else
              var n := LengthOf(s, little);
              var f := FrameOf(s[..n], little);
              if n == |s| then d == Delivered([f], q) else d == Then(f, Deliver(Fresh(s[n..]), little))
  {
    if Whole(s, little) { ReceivedIsFrame(s, little); }
    hide Progress, WordAt;
  }

  lemma NotWhole(s: seq<Byte>, little: bool)
    requires |s| < HEADER
    ensures Parse(s, little) == ([], s)
  {
  }

  lemma MeasurableTail(s: seq<Byte>, little: bool)
    requires Whole(s, little) && Measurable(s, little)
    ensures Measurable(s[LengthOf(s, little)..], little)
  {
  }

  /** Parsing goes on from what was left over. */
  lemma {:induction false} ParseConcat(a: seq<Byte>, b: seq<Byte>, little: bool)
    ensures var (frames, rest) := Parse(a, little);
            var (more, rest') := Parse(rest + b, little);
            Parse(a + b, little) == (frames + more, rest')
    decreases |a|
  {
    hide *;
    var (frames, rest) := Parse(a, little);
    if Whole(a, little) {
      ParseMore(a, little);
      var n := LengthOf(a, little);
      WholeGrows(a, b, little);
      ParseMore(a + b, little);
      ParseConcat(a[n..], b, little);
      Regroup([FrameOf(a[..n], little)], Parse(a[n..], little).0, Parse(rest + b, little).0);
    } else {
      PartParses(a, little);
      assert [] + Parse(a + b, little).0 == Parse(a + b, little).0;
    }
  }

  lemma WholeGrows(a: seq<Byte>, b: seq<Byte>, little: bool)
    requires Whole(a, little)
    ensures var n := LengthOf(a, little);
            && Whole(a + b, little) && LengthOf(a + b, little) == n
            && (a + b)[..n] == a[..n] && (a + b)[n..] == a[n..] + b
  {
    hide WordAt;
    SameSlice(a, b, 12, little);
  }

  lemma {:induction false} ParseLeavesPart(s: seq<Byte>, little: bool)
    ensures !Whole(Parse(s, little).1, little)
    decreases |s|
  {
    hide WordAt;
    if Whole(s, little) {
      ParseLeavesPart(s[LengthOf(s, little)..], little);
    }
  }

  /** One read event delivers what the reference cuts from the bytes held and the
      new ones, when the bytes held do not end inside a header word. */
  lemma EventIsParse(p: Option<Proto>, rest: seq<Byte>, chunk: seq<Byte>, little: bool)
    requires Holds(p, rest, little) && !Whole(rest, little) && Aligned(rest)
    requires Regular(rest + chunk, little) && |chunk| <= 0x8000_0000
    ensures var d := OnRead(p, chunk, little);
            && d.Delivered? && d.frames == Parse(rest + chunk, little).0
            && Holds(Some(d.last), Parse(rest + chunk, little).1, little)
  {
    PartIsMeasurable(rest, chunk, little);
    DeliverIsParse(rest + chunk, little);
    if p.None? || p.value.state == Complete {
      assert [] + chunk == chunk;
      assert Added(Fresh([]), chunk) == Fresh(chunk);
    } else {
      ResumesFresh(rest, chunk, little);
      CompleteIffWhole(rest + chunk, little);
      hide Progress, Parse;
      SameDelivery(Added(Waiting(rest, little), chunk), Fresh(rest + chunk), little);
    }
  }

  lemma SameDelivery(p: Proto, q: Proto, little: bool)
    requires Valid(p.input) && Valid(q.input) && Progress(p, little) == Progress(q, little)
    requires Progress(p, little).1 ==> Progress(p, little).0.initLength > 0
    ensures Deliver(p, little) == Deliver(q, little)
  {
    hide Progress;
  }

  lemma PartIsMeasurable(rest: seq<Byte>, chunk: seq<Byte>, little: bool)
    requires !Whole(rest, little) && Regular(rest + chunk, little) && |chunk| <= 0x8000_0000
    ensures Measurable(rest + chunk, little)
  {
    if |rest| >= HEADER {
      SameSlice(rest, chunk, 12, little);
    }
  }

  // ---------- any number of reads ----------

  function Concat(chunks: seq<seq<Byte>>): seq<Byte> {
    if chunks == [] then [] else chunks[0] + Concat(chunks[1..])
  }

  datatype Feeding = Fed(frames: seq<Frame>, last: Option<Proto>) | Lost

  /** The read events for the chunks in turn. */
  function Feed(p: Option<Proto>, chunks: seq<seq<Byte>>, little: bool): Feeding
    requires p.Some? ==> Valid(p.value.input)
    decreases |chunks|
  {
    if chunks == [] then Fed([], p)
    else
      var d := OnRead(p, chunks[0], little);
      if !d.Delivered? || !Valid(d.last.input) then Lost
      else
        match Feed(Some(d.last), chunks[1..], little)
        case Lost => Lost
        case Fed(more, end) => Fed(d.frames + more, end)
  }

  /** No chunk but the last ends inside a header word. */
  predicate NoWordSplit(rest: seq<Byte>, chunks: seq<seq<Byte>>, little: bool)
    decreases |chunks|
  {
    chunks == [] || (Aligned(rest) && NoWordSplit(Parse(rest + chunks[0], little).1, chunks[1..], little))
  }

  /** Whatever the chunks, the frames delivered and the bytes held back are those the
      reference cuts from the bytes received so far, in order. */
  lemma {:induction false} ChunksDoNotMatter(p: Option<Proto>, rest: seq<Byte>, chunks: seq<seq<Byte>>, little: bool)
    requires Holds(p, rest, little) && !Whole(rest, little) && (p.Some? ==> Valid(p.value.input))
    requires Regular(rest + Concat(chunks), little) && NoWordSplit(rest, chunks, little)
    requires forall i | 0 <= i < |chunks| :: |chunks[i]| <= 0x8000_0000
    ensures var f := Feed(p, chunks, little);
            var (frames, end) := Parse(rest + Concat(chunks), little);
            f.Fed? && f.frames == frames && Holds(f.last, end, little)
    decreases |chunks|
  {
    hide Progress, WordAt, Regular, Whole, Parse, Holds, Deliver;
    if chunks == [] {
      assert rest + [] == rest;
      PartParses(rest, little);
    } else {
      var chunk, tail := chunks[0], Concat(chunks[1..]);
      assert rest + Concat(chunks) == (rest + chunk) + tail;
      RegularPrefix(rest + chunk, tail, little);
      EventIsParse(p, rest, chunk, little);
      ParseConcat(rest + chunk, tail, little);
      ParseLeavesPart(rest + chunk, little);
      var left := Parse(rest + chunk, little).1;
      RegularRest(rest + chunk, tail, little);
      var last := OnRead(p, chunk, little).last;
      HoldsIsValid(last, left, little);
      ChunksDoNotMatter(Some(last), left, chunks[1..], little);
    }
  }

  lemma HoldsIsValid(p: Proto, rest: seq<Byte>, little: bool)
    requires Holds(Some(p), rest, little)
    ensures Valid(p.input)
  {
  }

  lemma PartParses(rest: seq<Byte>, little: bool)
    requires !Whole(rest, little)
    ensures Parse(rest, little) == ([], rest)
  {
  }

  lemma {:induction false} RegularPrefix(a: seq<Byte>, b: seq<Byte>, little: bool)
    requires Regular(a + b, little)
    ensures Regular(a, little)
    decreases |a|
  {
    hide WordAt;
    if |a| >= HEADER {
      SameSlice(a, b, 12, little);
      var n := LengthOf(a, little);
      if n <= |a| {
        assert (a + b)[n..] == a[n..] + b;
        RegularPrefix(a[n..], b, little);
      }
    }
  }

  lemma {:induction false} RegularRest(a: seq<Byte>, b: seq<Byte>, little: bool)
    requires Regular(a + b, little)
    ensures Regular(Parse(a, little).1 + b, little)
    decreases |a|
  {
    hide WordAt;
    if Whole(a, little) {
      SameSlice(a, b, 12, little);
      var n := LengthOf(a, little);
      assert (a + b)[n..] == a[n..] + b;
      RegularRest(a[n..], b, little);
    }
  }

  // ---------- frames as they are written ----------

  predicate Encodable(fs: seq<Frame>) {
    forall i | 0 <= i < |fs| :: HEADER + |fs[i].payload| < 0x1_0000_0000
  }

  /** The length fields stay positive as 32-bit numbers. */
  predicate Sendable(fs: seq<Frame>) {
    forall i | 0 <= i < |fs| :: HEADER + |fs[i].payload| < 0x8000_0000
  }

  /** A serialized header followed by the payload. */
  function Encode(f: Frame, little: bool): (s: seq<Byte>)
    requires HEADER + |f.payload| < 0x1_0000_0000
    ensures |s| == HEADER + |f.payload|
  {
    Encode32(f.command, little) + Encode32(f.transactionId, little) + Encode32(f.checksum, little)
    + Encode32(HEADER + |f.payload|, little) + f.payload
  }

  function EncodeAll(fs: seq<Frame>, little: bool): seq<Byte>
    requires Encodable(fs)
  {
    if fs == [] then [] else Encode(fs[0], little) + EncodeAll(fs[1..], little)
  }

  lemma EncodedWords(f: Frame, tail: seq<Byte>, little: bool)
    requires HEADER + |f.payload| < 0x1_0000_0000
    ensures var s := Encode(f, little) + tail;
            LengthOf(s, little) == |Encode(f, little)| && FrameOf(s[..|Encode(f, little)|], little) == f
  {
    var e := Encode(f, little);
    var s := e + tail;
    WordRoundTrip(f.command, little);
    WordRoundTrip(f.transactionId, little);
    WordRoundTrip(f.checksum, little);
    WordRoundTrip(HEADER + |f.payload|, little);
    assert s[..|e|] == e;
    assert e[0..4] == Encode32(f.command, little);
    assert e[4..8] == Encode32(f.transactionId, little);
    assert e[8..12] == Encode32(f.checksum, little);
    assert e[12..16] == Encode32(HEADER + |f.payload|, little) == s[12..16];
    assert e[HEADER..] == f.payload;
  }

  /** Frames sent back to back, up to any point inside the next one, are cut as sent. */
  lemma {:induction false} ParseEncoded(fs: seq<Frame>, tail: seq<Byte>, little: bool)
    requires Sendable(fs) && !Whole(tail, little)
    ensures Parse(EncodeAll(fs, little) + tail, little) == (fs, tail)
    decreases |fs|
  {
    hide Encode, WordAt;
    if fs == [] {
      assert [] + tail == tail;
    } else {
      var rest := EncodeAll(fs[1..], little) + tail;
      var e := Encode(fs[0], little);
      assert EncodeAll(fs, little) + tail == e + rest;
      EncodedWords(fs[0], rest, little);
      assert (e + rest)[|e|..] == rest;
      ParseEncoded(fs[1..], tail, little);
      assert Parse(e + rest, little) == ([fs[0]] + fs[1..], tail);
      assert [fs[0]] + fs[1..] == fs;
    }
  }

  lemma {:induction false} EncodedIsRegular(fs: seq<Frame>, little: bool)
    requires Sendable(fs)
    ensures Regular(EncodeAll(fs, little), little)
    decreases |fs|
  {
    hide Encode, WordAt;
    if fs != [] {
      var rest := EncodeAll(fs[1..], little);
      EncodedWords(fs[0], rest, little);
      assert (Encode(fs[0], little) + rest)[|Encode(fs[0], little)|..] == rest;
      EncodedIsRegular(fs[1..], little);
    }
  }

  /** Any frames, sent back to back and read in any chunks that split no header word,
      are delivered exactly and in order, and nothing is held back. */
  lemma FramesArrive(fs: seq<Frame>, chunks: seq<seq<Byte>>, little: bool)
    requires Sendable(fs) && Concat(chunks) == EncodeAll(fs, little)
    requires NoWordSplit([], chunks, little)
    requires forall i | 0 <= i < |chunks| :: |chunks[i]| <= 0x8000_0000
    ensures var f := Feed(None, chunks, little);
            f.Fed? && f.frames == fs && Holds(f.last, [], little)
  {
    hide EncodeAll, Parse, Feed;
    EncodedIsRegular(fs, little);
    ParseEncoded(fs, [], little);
    assert EncodeAll(fs, little) + [] == EncodeAll(fs, little) == [] + Concat(chunks);
    ChunksDoNotMatter(None, [], chunks, little);
  }

  /** A frame cut from a stream, written again, gives the bytes it was cut from. */
  lemma EncodeFrameOf(s: seq<Byte>, little: bool)
    requires HEADER <= |s| == LengthOf(s, little)
    ensures |s| == HEADER + |FrameOf(s, little).payload| && Encode(FrameOf(s, little), little) == s
  {
    BytesRoundTrip(s[0..4], little);
    BytesRoundTrip(s[4..8], little);
    BytesRoundTrip(s[8..12], little);
    BytesRoundTrip(s[12..16], little);
    hide Encode32, Decode32;
    HeaderWords(s);
  }

  lemma HeaderWords(s: seq<Byte>)
    requires |s| >= HEADER
    ensures s[0..4] + s[4..8] + s[8..12] + s[12..16] + s[16..] == s
  {
  }

  /** The frames delivered and the bytes held back are together the bytes received. */
  lemma {:induction false} NothingIsLost(s: seq<Byte>, little: bool)
    ensures var (frames, rest) := Parse(s, little);
            Encodable(frames) && EncodeAll(frames, little) + rest == s
    decreases |s|
  {
    hide *;
    if Whole(s, little) {
      ParseMore(s, little);
      var n := LengthOf(s, little);
      var (frames, rest) := Parse(s[n..], little);
      NothingIsLost(s[n..], little);
      FirstIsKept(s[..n], s[n..], frames, rest, little);
      assert s == s[..n] + s[n..];
    } else {
      PartParses(s, little);
      EncodeNone(little);
      assert [] + s == s;
    }
  }

  lemma FirstIsKept(first: seq<Byte>, tail: seq<Byte>, frames: seq<Frame>, rest: seq<Byte>, little: bool)
    requires HEADER <= |first| == LengthOf(first, little) && Encodable(frames)
    requires EncodeAll(frames, little) + rest == tail
    ensures var all := [FrameOf(first, little)] + frames;
            Encodable(all) && EncodeAll(all, little) + rest == first + tail
  {
    hide *;
    EncodeFrameOf(first, little);
    EncodeMore(FrameOf(first, little), frames, little);
    Regroup(first, EncodeAll(frames, little), rest);
  }

  lemma Regroup<T>(a: seq<T>, b: seq<T>, c: seq<T>)
    ensures a + b + c == a + (b + c)
  {
  }

  lemma EncodeNone(little: bool)
    ensures Encodable([]) && EncodeAll([], little) == []
  {
  }

  lemma ParseMore(s: seq<Byte>, little: bool)
    requires Whole(s, little)
    ensures |s| >= HEADER
    ensures var n := LengthOf(s, little);
            && HEADER <= n <= |s| && LengthOf(s[..n], little) == n
            && var (frames, rest) := Parse(s[n..], little);
               Parse(s, little) == ([FrameOf(s[..n], little)] + frames, rest)
  {
    hide WordAt;
    var n := LengthOf(s, little);
    assert s == s[..n] + s[n..];
    SameSlice(s[..n], s[n..], 12, little);
  }

  lemma EncodeMore(f: Frame, fs: seq<Frame>, little: bool)
    requires Encodable(fs) && HEADER + |f.payload| < 0x1_0000_0000
    ensures Encodable([f] + fs) && EncodeAll([f] + fs, little) == Encode(f, little) + EncodeAll(fs, little)
  {
    assert ([f] + fs)[1..] == fs;
  }

  // ---------- where the code does not meet its purpose ----------

  /** A frame without payload that arrives in two reads is delivered exactly when the
      first read ends between two words of its header. */
  lemma TwoReadsDeliver(f: Frame, k: nat, little: bool)
    requires f.payload == [] && 0 < k < HEADER
    ensures var s := Encode(f, little);
            Feed(None, [s[..k], s[k..]], little).Fed?
    ensures var s := Encode(f, little);
            Feed(None, [s[..k], s[k..]], little).frames == (if k % 4 == 0 then [f] else [])
  {
    hide Encode, WordAt, Progress;
    var s := Encode(f, little);
    var a, b := s[..k], s[k..];
    assert s == a + b && [] + a == a;
    var p := Waiting(a, little);
    ShortHeader(Fresh(a), little);
    assert Added(Fresh([]), a) == Fresh(a);
    assert OnRead(None, a, little) == Delivered([], p);
    var q := Added(p, b);
    assert Valid(q.input) by { WaitingInput(a, little); }
    if k % 4 == 0 {
      ResumesFresh(a, b, little);
      ParseEncoded([f], [], little);
      assert EncodeAll([f], little) + [] == s by { assert [f][1..] == []; }
      EncodedIsRegular([f], little);
      assert Measurable(s, little) by { EncodedWords(f, [], little); assert s + [] == s; }
      CompleteIffWhole(s, little);
      SameDelivery(q, Fresh(s), little);
      EncodedWords(f, [], little);
      assert s + [] == s;
      DeliverIsParse(s, little);
    } else {
      ShortHeader(q, little);
    }
    FeedTwo(a, b, p, little);
  }

  lemma WaitingInput(rest: seq<Byte>, little: bool)
    ensures Valid(Waiting(rest, little).input) && Waiting(rest, little).input.buffer == rest
  {
  }

  lemma FeedTwo(a: seq<Byte>, b: seq<Byte>, p: Proto, little: bool)
    requires OnRead(None, a, little) == Delivered([], p) && Valid(p.input) && p.state != Complete
    ensures var d := Deliver(Added(p, b), little);
            Feed(None, [a, b], little)
            == if !d.Delivered? || !Valid(d.last.input) then Lost else Fed(d.frames, Some(d.last))
  {
    hide Progress, Deliver;
    assert [a, b][1..] == [b] && [b][1..] == [];
    var d := Deliver(Added(p, b), little);
    assert OnRead(Some(p), b, little) == d;
    if d.Delivered? && Valid(d.last.input) {
      assert Feed(Some(p), [b], little) == Fed(d.frames + [], Some(d.last));
      assert [] + (d.frames + []) == d.frames;
    }
  }

  /** `int remain` is exact for all lengths met: none has its top bit set, and the
      buffer is not longer than a signed number can tell. */
  predicate InRange(s: seq<Byte>, little: bool)
    decreases |s|
  {
    |s| <= 0x8000_0000 &&
    (|s| >= HEADER ==>
       var n := LengthOf(s, little);
       n < 0x8000_0000 && (0 < n <= |s| ==> InRange(s[n..], little)))
  }

  /** The loop comes to a length field of zero. */
  predicate ReachesZero(s: seq<Byte>, little: bool)
    decreases |s|
  {
    |s| >= HEADER &&
    var n := LengthOf(s, little);
    n == 0 || (n <= |s| && ReachesZero(s[n..], little))
  }

  /** One frame of a fresh protocol object, whatever its length field says: it counts
      as complete if it is, or if the signed difference wraps. */
  lemma FirstTurn(s: seq<Byte>, little: bool)
    requires |s| >= HEADER
    ensures var (q, complete) := Progress(Fresh(s), little);
            var n := LengthOf(s, little);
            && (|s| <= 0x8000_0000 ==> (complete <==> n <= |s| || n - |s| >= 0x8000_0000))
            && (complete ==> q == Proto(Cursor(s, HEADER), HeaderOf(s, little), Complete, HEADER, n))
  {
    FullHeader(s, little);
    var n := LengthOf(s, little);
    LastSteps(Proto(Cursor(s, HEADER), HeaderOf(s, little), Payload, 0, 0), little);
    if |s| <= 0x8000_0000 {
      RemainSign(n, |s|);
    }
    hide Progress, Remain, WordAt;
  }

  /** When `int remain` is positive. */
  lemma RemainSign(length: Word, total: nat)
    requires total <= 0x8000_0000
    ensures Remain(length, total) > 0 <==> total < length < total + 0x8000_0000
  {
    var d := length - total;
    assert d % 0x1_0000_0000 == if d < 0 then d + 0x1_0000_0000 else d;
  }

  /** A length field beyond the buffer by half the range of a word or more makes the
      loop ask for bytes outside the buffer; any smaller excess makes it wait. */
  lemma OverreadsIff(s: seq<Byte>, little: bool)
    requires HEADER <= |s| <= 0x8000_0000 && LengthOf(s, little) > |s|
    ensures Deliver(Fresh(s), little).Overreads? <==> LengthOf(s, little) - |s| >= 0x8000_0000
  {
    FirstTurn(s, little);
    hide Progress;
  }

  /** A length field between 1 and 15 ends inside its own header: the frame is handed on
      without payload, and the loop goes on with the bytes from there. */
  lemma ShortLengthGoesOnInside(s: seq<Byte>, little: bool)
    requires HEADER <= |s| <= 0x8000_0000 && 0 < LengthOf(s, little) < HEADER
    ensures var h, n := HeaderOf(s, little), LengthOf(s, little);
            Deliver(Fresh(s), little)
            == Then(Frame(h.command, h.transactionId, h.checksum, []), Deliver(Fresh(s[n..]), little))
  {
    FirstTurn(s, little);
    hide Progress, WordAt;
  }

  /** The loop goes round for ever exactly when it comes to a length field of zero, and
      then it is the frame with that field that is handed on again and again. */
  lemma {:induction false} SpinsIffZero(s: seq<Byte>, little: bool)
    requires InRange(s, little)
    ensures var d := Deliver(Fresh(s), little);
            !d.Overreads? && (d.Spins? <==> ReachesZero(s, little))
    decreases |s|
  {
    if |s| < HEADER {
      ShortHeader(Fresh(s), little);
    } else {
      FirstTurn(s, little);
      hide Progress, WordAt;
      var n := LengthOf(s, little);
      if 0 < n <= |s| {
        if n == |s| {
          assert s[n..] == [];
        }
        SpinsIffZero(s[n..], little);
      } else if n == 0 {
        assert s[0..] == s;
      }
    }
  }

  /** The first turn on bytes that hold a whole frame, and on bytes that hold less. */
  lemma GoodTurn(s: seq<Byte>, little: bool)
    requires |s| <= 0x8000_0000 && (|s| >= HEADER ==> HEADER <= LengthOf(s, little) < 0x8000_0000)
    ensures var d := Deliver(Fresh(s), little);
            if !Whole(s, little) then d.Delivered? && d.frames == []
            else
              var n := LengthOf(s, little);
              var f := FrameOf(s[..n], little);
              if n == |s| then d.Delivered? && d.frames == [f] else d == Then(f, Deliver(Fresh(s[n..]), little))
  {
    if |s| < HEADER {
      ShortHeader(Fresh(s), little);
    } else {
      FirstTurn(s, little);
    }
    WholeTurn(s, little);
  }

  /** The loop delivers the frames of the reference exactly when every length field it
      comes to is at least a header. */
  lemma {:induction false} AgreesIffRegular(s: seq<Byte>, little: bool)
    requires InRange(s, little)
    ensures var d := Deliver(Fresh(s), little);
            && (d.Delivered? && d.frames == Parse(s, little).0 <==> Regular(s, little))
            && |d.frames| >= |Parse(s, little).0|
            && (!Regular(s, little) && d.Delivered? ==> |d.frames| > |Parse(s, little).0|)
    decreases |s|
  {
    hide Deliver, WordAt;
    if |s| < HEADER || LengthOf(s, little) >= HEADER {
      GoodTurn(s, little);
      if Whole(s, little) {
        var n := LengthOf(s, little);
        AgreesIffRegular(s[n..], little);
        ParseMore(s, little);
        if n < |s| {
          ThenAgrees(FrameOf(s[..n], little), Deliver(Fresh(s[n..]), little), Parse(s[n..], little).0);
        } else {
          assert s[n..] == [];
        }
      }
    } else if LengthOf(s, little) == 0 {
      SpinsIffZero(s, little);
    } else {
      ShortLengthGoesOnInside(s, little);
    }
  }

  lemma ThenAgrees(f: Frame, d: Delivery, frames: seq<Frame>)
    ensures Then(f, d).frames == [f] + frames <==> d.frames == frames
    ensures Then(f, d).Delivered? <==> d.Delivered?
  {
    assert ([f] + d.frames)[1..] == d.frames && ([f] + frames)[1..] == frames;
  }

  // ---------- the objects ----------

  /** `FrameProtocol` on the reading side; its buffer is the one bytes are added to. */
  class FrameProtocol {
    const readBuffer: BufferedTransport
    var header: Header
    var state: State
    var payloadPos: nat
    var initLength: Word

    constructor ()
      ensures fresh(readBuffer) && Value() == Fresh([])
    {
      readBuffer := new BufferedTransport();
      header, state, payloadPos, initLength := Header(0, 0, 0, 0), Init, 0, 0;
    }

    function Value(): Proto
      reads this, readBuffer
    {
      Proto(readBuffer.State(), header, state, payloadPos, initLength)
    }

    /** One `readInt32`; the exception ends the call. */
    method ReadWord(little: bool) returns (w: Option<Word>)
      requires Valid(Value().input) && state != Payload && state != Complete
      modifies readBuffer
      ensures Valid(Value().input) && Value() == old(Value()).(input := Value().input)
      ensures Progress(old(Value()), little)
           == if w.None? then (Value(), false) else Progress(Stored(Value(), w.value), little)
    {
      OneWord(Value(), little);
      hide TakeInt32, Progress, Stored;
      w := readBuffer.ReadInt32(little);
    }

    /** `processRead`: the cases fall through, each starting where the last call stopped. */
    method ProcessRead(little: bool) returns (complete: bool)
      requires Valid(Value().input)
      modifies this, readBuffer
      ensures (Value(), complete) == Progress(old(Value()), little)
    {
      hide TakeInt32, Progress, Valid;
      var w;
      if state == Init || state == Command {
        w := ReadWord(little);
        if w.None? { return false; }
        header, state := header.(command := w.value), TransactionId;
      }
      if state == TransactionId {
        w := ReadWord(little);
        if w.None? { return false; }
        header, state := header.(transactionId := w.value), Checksum;
      }
      if state == Checksum {
        w := ReadWord(little);
        if w.None? { return false; }
        header, state := header.(checksum := w.value), Length;
      }
      if state == Length {
        w := ReadWord(little);
        if w.None? { return false; }
        header, state := header.(length := w.value), Payload;
      }
      LastSteps(Value(), little);
      if state == Payload {
        if Remain(header.length, |readBuffer.buffer|) > 0 { return false; }
        initLength, payloadPos, state := header.length, readBuffer.readPos, Complete;
      }
      return true;
    }
  }

  lemma OneWord(p: Proto, little: bool)
    requires Valid(p.input) && p.state != Payload && p.state != Complete
    ensures var (w, input) := TakeInt32(p.input, little);
            Progress(p, little)
            == if w.None? then (p.(input := input), false) else Progress(Stored(p.(input := input), w.value), little)
  {
  }

  lemma LastSteps(p: Proto, little: bool)
    requires Valid(p.input) && (p.state == Payload || p.state == Complete)
    ensures Progress(p, little)
            == if p.state == Complete then (p, true)
               else if Remain(p.header.length, |p.input.buffer|) > 0 then (p, false)
               else (p.(initLength := p.header.length, payloadPos := p.input.pos, state := Complete), true)
  {
  }

  /** `ClientController` as the owner of the protocol object; `received` records what
      the observers are handed. */
  class ClientController {
    var protocol: FrameProtocol?
    ghost var received: seq<Frame>

    constructor ()
      ensures Held() == None && received == []
    {
      protocol, received := null, [];
    }

    ghost function Held(): Option<Proto>
      reads this, if protocol == null then {} else {protocol, protocol.readBuffer}
    {
      if protocol == null then None else Some(protocol.Value())
    }

    /** One turn of the loop. When the bytes asked for lie outside the buffer the turn
        ends here; the source goes on to read them. */
    method Turn(little: bool) returns (end: Ending)
      requires protocol != null && Valid(protocol.Value().input)
      modifies this, protocol, protocol.readBuffer
      ensures protocol != null && Valid(protocol.Value().input)
      ensures protocol == old(protocol) || (fresh(protocol) && fresh(protocol.readBuffer))
      ensures end == GoesOn ==>
                var p, now := old(protocol.Value()), protocol.Value();
                && now == Fresh(now.input.buffer) && |now.input.buffer| <= |p.input.buffer|
                && (|now.input.buffer| == |p.input.buffer| ==> now.input.buffer == p.input.buffer)
      ensures var d := Deliver(old(protocol.Value()), little);
              match end
              case Waits => received == old(received) + d.frames && d == Delivered(d.frames, protocol.Value())
              case Outside => received == old(received) + d.frames && d.Overreads?
              case GoesOn =>
                && |received| > 0 && received[..|received| - 1] == old(received)
                && d == if protocol.Value() == old(protocol.Value()) then Spins([], received[|received| - 1])
                        else Then(received[|received| - 1], Deliver(protocol.Value(), little))
    {
      ghost var p := protocol.Value();
      DeliverSteps(p, little);
      hide Progress, Deliver, Received;
      var complete := protocol.ProcessRead(little);
      ghost var q := protocol.Value();
      assert (q, complete) == Progress(p, little) && q.input.buffer == p.input.buffer;
      if !complete {
        return Waits;
      }
      received := received + [Received(protocol.Value())];
      if protocol.initLength > |protocol.readBuffer.buffer| {
        return Outside;
      }
      if RemainingSize(protocol.Value()) <= 0 {
        return Waits;
      }
      Restart(protocol.readBuffer.buffer[RemainingStart(protocol.Value())..]);
      return GoesOn;
    }

    /** A new protocol object with the bytes that were left. */
    method Restart(rest: seq<Byte>)
      modifies this`protocol
      ensures protocol != null && fresh(protocol) && fresh(protocol.readBuffer) && protocol.Value() == Fresh(rest)
    {
      protocol := new FrameProtocol();
      protocol.readBuffer.Write(rest);
      assert [] + rest == rest;
    }

    /** `onSocket_ReadEvent` for the bytes a read returned. */
    method OnReadEvent(chunk: seq<Byte>, little: bool) returns (end: Ending)
      requires Held().Some? ==> Valid(Held().value.input)
      modifies this, if protocol == null then {} else {protocol, protocol.readBuffer}
      ensures Held().Some? ==> Valid(Held().value.input)
      ensures if chunk == [] then end == Waits && Held() == old(Held()) && received == old(received)
              else Held().Some? && Ended(OnRead(old(Held()), chunk, little), end, old(received), received, Held().value)
    {
      if chunk == [] {
        return Waits;
      }
      hide Progress, Deliver;
      if protocol == null || protocol.state == Complete {
        protocol := new FrameProtocol();
      }
      protocol.readBuffer.Write(chunk);
      end := Drain(little);
    }

    /** The loop itself. The source never leaves it once it has come round to the same
        bytes; here that is the result `GoesOn`. */
    method Drain(little: bool) returns (end: Ending)
      requires protocol != null && Valid(protocol.Value().input)
      modifies this, protocol, protocol.readBuffer
      ensures protocol != null && Valid(protocol.Value().input)
      ensures Ended(Deliver(old(protocol.Value()), little), end, old(received), received, protocol.Value())
    {
      hide Progress, Deliver;
      ghost var d := Deliver(protocol.Value(), little);
      ghost var sofar: seq<Frame> := [];
      while true
        invariant protocol != null && (protocol == old(protocol) || (fresh(protocol) && fresh(protocol.readBuffer)))
        invariant Valid(protocol.Value().input) && received == old(received) + sofar
        invariant d == After(sofar, Deliver(protocol.Value(), little))
        decreases |protocol.readBuffer.buffer|, if protocol.Value() == Fresh(protocol.readBuffer.buffer) then 0 else 1
      {
        var before := protocol.Value();
        ghost var had := received;
        end := Turn(little);
        if end != GoesOn || protocol.Value() == before {
          TurnEnds(sofar, Deliver(before, little), received[|had|..]);
          assert received == had + received[|had|..];
          Regroup(old(received), sofar, received[|had|..]);
          return;
        }
        ghost var f := received[|had|];
        AfterThen(sofar, f, Deliver(protocol.Value(), little));
        Regroup(old(received), sofar, [f]);
        sofar := sofar + [f];
      }
    }
  }

  /** How a turn or the loop ends. */
  datatype Ending = Waits | GoesOn | Outside

  /** The loop has done what `d` says: handed on the frames, and kept the protocol object
      if it waits for more bytes. */
  predicate Ended(d: Delivery, end: Ending, before: seq<Frame>, after: seq<Frame>, last: Proto) {
    match d
    case Delivered(frames, p) => end == Waits && after == before + frames && last == p
    case Spins(frames, again) => end == GoesOn && after == before + frames + [again]
    case Overreads(frames) => end == Outside && after == before + frames
  }

  /** `frames` in front of a delivery. */
  function After(frames: seq<Frame>, d: Delivery): Delivery {
    match d
    case Delivered(more, last) => Delivered(frames + more, last)
    case Spins(more, again) => Spins(frames + more, again)
    case Overreads(more) => Overreads(frames + more)
  }

  lemma AfterThen(frames: seq<Frame>, f: Frame, d: Delivery)
    ensures After(frames, Then(f, d)) == After(frames + [f], d)
  {
    assert frames + ([f] + d.frames) == frames + [f] + d.frames;
  }

  lemma TurnEnds(frames: seq<Frame>, d: Delivery, added: seq<Frame>)
    ensures After(frames, d).frames == frames + d.frames
  {
  }

  lemma DeliverSteps(p: Proto, little: bool)
    requires Valid(p.input)
    ensures var (q, complete) := Progress(p, little);
            Deliver(p, little)
            == if !complete then Delivered([], q)
               else if q.initLength > |q.input.buffer| then Overreads([Received(q)])
               else if q.initLength == |q.input.buffer| then Delivered([Received(q)], q)
               else
                 var rest := Fresh(q.input.buffer[q.initLength..]);
                 if rest == p then Spins([], Received(q)) else Then(Received(q), Deliver(rest, little))
  {
    hide Progress;
  }
}
