/** Writing through the event-driven socket of LibeventTcpSocketImpl.h: what is
    queued, what has been sent, and when the socket closes. */
module EventSocket {
  import opened Transport
  import KBuffer

  datatype Phase = Disconnected | Connecting | Connected

  /** What the system answered to a write. */
  datatype Answer = Accepted(n: nat) | WouldBlock | Failed

  /** `hasEvent` tells whether `ev_write_` exists, `armed` whether it is added. */
  datatype Sock = Sock(phase: Phase, hasEvent: bool, armed: bool, expired: bool, pending: seq<Byte>, sent: seq<Byte>)

  datatype Event =
    | Connect
    | Attach
    | Write(data: seq<Byte>)
    | Writable(answer: Answer)
    | CloseAfterAllSent
    | Close

  /** When the program or the event loop can cause an event. */
  predicate Enabled(s: Sock, e: Event) {
    match e
    case Connect => s.phase == Disconnected && !s.hasEvent
    case Attach => s.phase == Disconnected && !s.hasEvent
    case Write(_) => true
    case Writable(answer) => s.hasEvent && s.armed && (answer.Accepted? ==> 0 < answer.n)
    case CloseAfterAllSent => s.hasEvent
    case Close => true
  }

  /** `_close` and the change of state around it; the queue is kept for a reconnect. */
  function Closed(s: Sock): Sock {
    s.(phase := Disconnected, hasEvent := false, armed := false)
  }

  /** `write`: a socket that is not connected queues the data, and so does one that
      has a write event. */
  function Written(s: Sock, data: seq<Byte>): Sock {
    if data == [] then s
    else
      var queued := if s.phase != Connected then s.(pending := s.pending + data) else s;
      if s.hasEvent then queued.(pending := queued.pending + data, armed := true) else queued
  }

  /** `_onWriteEvent`. */
  function Flushed(s: Sock, answer: Answer): Sock {
    if s.phase == Connecting then s.(phase := Connected, armed := s.pending != [])
    else if s.pending == [] then if s.expired then Closed(s) else s.(armed := false)
    else
      match answer
      case WouldBlock => s
      case Failed => Closed(s)
      case Accepted(n) =>
        var k := if n <= |s.pending| then n else |s.pending|;
        s.(pending := s.pending[k..], sent := s.sent + s.pending[..k])
  }

  function Step(s: Sock, e: Event): Sock {
    match e
    case Connect => s.(phase := Connecting, hasEvent := true, armed := true)
    case Attach => s.(phase := Connected, hasEvent := true, armed := true)
    case Write(data) => Written(s, data)
    case Writable(answer) => Flushed(s, answer)
    case CloseAfterAllSent => s.(expired := true, armed := true)
    case Close => Closed(s)
  }

  function Run(s: Sock, es: seq<Event>): Sock
    decreases |es|
  {
    if es == [] then s else Run(Step(s, es[0]), es[1..])
  }

  predicate AllEnabled(s: Sock, es: seq<Event>)
    decreases |es|
  {
    es == [] || (Enabled(s, es[0]) && AllEnabled(Step(s, es[0]), es[1..]))
  }

  function Initial(): Sock {
    Sock(Disconnected, false, false, false, [], [])
  }

  // ---------- what every step keeps ----------

  /** The write event exists exactly while the socket is connecting or connected, and
      bytes that wait on a connected socket have a write event pending for them. */
  predicate Sound(s: Sock) {
    && (s.hasEvent <==> s.phase != Disconnected)
    && (s.armed ==> s.hasEvent)
    && (s.phase == Connecting ==> s.armed)
    && (s.phase == Connected && s.pending != [] ==> s.armed)
  }

  lemma StepKeepsSound(s: Sock, e: Event)
    requires Sound(s) && Enabled(s, e)
    ensures Sound(Step(s, e))
  {
  }

  lemma {:induction false} AlwaysSound(s: Sock, es: seq<Event>)
    requires Sound(s) && AllEnabled(s, es)
    ensures Sound(Run(s, es))
    decreases |es|
  {
    if es != [] {
      StepKeepsSound(s, es[0]);
      AlwaysSound(Step(s, es[0]), es[1..]);
    }
  }

  // ---------- bytes go out once and in order ----------

  /** All bytes the program wrote. */
  function AllWritten(es: seq<Event>): seq<Byte> {
    if es == [] then []
    else (if es[0].Write? then es[0].data else []) + AllWritten(es[1..])
  }

  /** Nothing is written while a connect is in progress. */
  predicate NoneWhileConnecting(s: Sock, es: seq<Event>)
    decreases |es|
  {
    es == [] || ((es[0].Write? ==> s.phase != Connecting || es[0].data == [])
                 && NoneWhileConnecting(Step(s, es[0]), es[1..]))
  }

  /** A write adds its data once, except while a connect is in progress: then the data
      is queued a second time for the write event. */
  lemma WriteAddsOnceIff(s: Sock, data: seq<Byte>)
    requires Sound(s)
    ensures Written(s, data).pending == s.pending + data <==> (s.phase != Connecting || data == [])
    ensures s.phase == Connecting ==> Written(s, data).pending == s.pending + data + data
    ensures Written(s, []) == s && (data != [] && s.phase != Disconnected ==> Written(s, data).armed)
  {
  }

  lemma StepConserves(s: Sock, e: Event)
    requires Sound(s) && Enabled(s, e) && (e.Write? ==> s.phase != Connecting || e.data == [])
    ensures var t := Step(s, e);
            t.sent + t.pending == s.sent + s.pending + if e.Write? then e.data else []
  {
    match e
    case Writable(answer) =>
      if answer.Accepted? && s.phase == Connected && s.pending != [] {
        var k := if answer.n <= |s.pending| then answer.n else |s.pending|;
        assert s.sent + s.pending[..k] + s.pending[k..] == s.sent + s.pending;
      }
    case _ =>
  }

  /** Whatever part of the queue the system takes at a time, over any number of
      connections: bytes sent followed by bytes queued are the bytes written. */
  lemma {:induction false} SentThenPending(s: Sock, es: seq<Event>)
    requires Sound(s) && AllEnabled(s, es) && NoneWhileConnecting(s, es)
    ensures var t := Run(s, es); t.sent + t.pending == s.sent + s.pending + AllWritten(es)
    decreases |es|
  {
    if es != [] {
      hide Step;
      StepKeepsSound(s, es[0]);
      StepConserves(s, es[0]);
      SentThenPending(Step(s, es[0]), es[1..]);
      var first := if es[0].Write? then es[0].data else [];
      assert s.sent + s.pending + (first + AllWritten(es[1..])) == s.sent + s.pending + first + AllWritten(es[1..]);
    }
  }

  /** A connected socket offers what is queued: bytes the system takes leave the front of
      the queue, as many as it takes, and the rest stays queued. */
  lemma TakesWhatIsAccepted(s: Sock, n: nat)
    requires Sound(s) && s.phase == Connected && s.pending != [] && s.armed && 0 < n
    ensures var t := Step(s, Writable(Accepted(n)));
            && t.phase == Connected && t.armed
            && |t.pending| == (if |s.pending| > n then |s.pending| - n else 0)
            && s.sent <= t.sent && t.sent + t.pending == s.sent + s.pending
    ensures Step(s, Writable(WouldBlock)) == s
  {
    var k := if n <= |s.pending| then n else |s.pending|;
    assert s.sent + s.pending[..k] + s.pending[k..] == s.sent + s.pending;
  }

  /** With enough write events everything queued is sent, and then the socket waits for
      no further one. */
  lemma {:induction false} AllIsSent(s: Sock, es: seq<Event>) returns (k: nat)
    requires Sound(s) && s.phase == Connected && s.armed && !s.expired
    requires Flushing(es) && |es| > |s.pending|
    ensures k <= |es| && AllEnabled(s, es[..k])
    ensures Run(s, es[..k]) == s.(armed := false, pending := [], sent := s.sent + s.pending)
    decreases |s.pending|
  {
    if s.pending == [] {
      k := 1;
      assert es[..1] == [es[0]] && es[..1][1..] == [];
      assert s.sent + [] == s.sent;
    } else {
      var t := Step(s, es[0]);
      StepConserves(s, es[0]);
      k := AllIsSent(t, es[1..]);
      k := k + 1;
      assert es[..k][0] == es[0] && es[..k][1..] == es[1..][..k - 1];
    }
  }

  /** The ordinary life of a socket, connecting or given a connection: what is written goes
      out, and closing it ends the connection. */
  lemma OrdinaryLife(data: seq<Byte>, connects: bool)
    requires data != []
    ensures var es := (if connects then [Connect, Writable(WouldBlock)] else [Attach])
                      + [Write(data), Writable(Accepted(|data|)), Close];
            && AllEnabled(Initial(), es)
            && Run(Initial(), es) == Initial().(sent := data)
  {
    var last: seq<Event> := [Write(data), Writable(Accepted(|data|)), Close];
    var t := Initial().(phase := Connected, hasEvent := true, armed := true);
    LifeFrom(t, data);
    LifeFrom(t.(armed := false), data);
    if connects {
      var es := [Connect, Writable(WouldBlock)] + last;
      assert es[1..][0] == Writable(WouldBlock) && es[1..][1..] == last;
    } else {
      assert ([Attach] + last)[1..] == last;
    }
  }

  lemma LifeFrom(t: Sock, data: seq<Byte>)
    requires data != [] && t.phase == Connected && t.hasEvent && t.pending == [] && t.sent == [] && !t.expired
    ensures var last := [Write(data), Writable(Accepted(|data|)), Close];
            && AllEnabled(t, last)
            && Run(t, last) == Initial().(sent := data)
  {
    var last := [Write(data), Writable(Accepted(|data|)), Close];
    assert last[1..][0] == last[1] && last[1..][1..] == [Close] && [Close][1..] == [];
    var u := Step(t, last[0]);
    assert u.pending == [] + data == data;
    assert Run(u, last[1..]) == Run(Step(u, last[1]), [Close]);
  }

  // ---------- closing ----------

  /** The write event closes the socket only when the system refuses a write, or when
      `closeAfterAllSent` was called and everything has been sent. */
  lemma ClosesWhenAllSent(s: Sock, answer: Answer)
    requires Sound(s) && Enabled(s, Writable(answer))
    ensures Step(s, Writable(answer)).phase == Disconnected <==>
            s.phase == Connected && if s.pending == [] then s.expired else answer == Failed
  {
  }

  /** Write events for which the system takes some bytes. */
  predicate Flushing(es: seq<Event>) {
    forall i | 0 <= i < |es| :: es[i].Writable? && es[i].answer.Accepted? && es[i].answer.n > 0
  }

  /** After the first `k + 1` events everything is sent and the socket is closed. */
  predicate ClosesAt(s: Sock, es: seq<Event>, k: nat) {
    && k < |es| && AllEnabled(s, es[..k + 1])
    && Run(s, es[..k + 1]) == Closed(s.(pending := [], sent := s.sent + s.pending))
  }

  /** A graceful close on a connected socket sends everything and then closes: as long
      as the system takes at least a byte each time, one event more than there are
      bytes is enough. */
  lemma {:induction false} GracefulClose(s: Sock, es: seq<Event>) returns (k: nat)
    requires Sound(s) && s.phase == Connected && s.expired && s.armed
    requires Flushing(es) && |es| > |s.pending|
    ensures ClosesAt(s, es, k)
    decreases |s.pending|
  {
    if s.pending == [] {
      k := 0;
      assert es[..1] == [es[0]] && es[..1][1..] == [];
      assert s.sent + [] == s.sent;
    } else {
      var t := Step(s, es[0]);
      StepConserves(s, es[0]);
      k := GracefulClose(t, es[1..]);
      k := k + 1;
      assert es[..k + 1][0] == es[0] && es[..k + 1][1..] == es[1..][..k];
    }
  }

  /** Asked for during a connect with nothing queued, the graceful close is forgotten:
      once connected the socket is neither closed nor waiting for a write event. */
  lemma GracefulCloseForgotten(s: Sock, answer: Answer)
    requires Sound(s) && s.phase == Connecting && s.pending == []
    ensures var t := Step(Step(s, CloseAfterAllSent), Writable(answer));
            t.phase == Connected && t.expired && !t.armed
  {
  }

  /** A graceful close, given enough write events for which the system takes some
      bytes, sends everything and closes exactly when the socket is connected or has
      something queued; otherwise no number of write events closes it. */
  lemma GracefulCloseIff(s: Sock, es: seq<Event>)
    requires Sound(s) && s.hasEvent && Flushing(es) && |es| > |s.pending| + 1
    ensures var t := Step(s, CloseAfterAllSent);
            (exists k | 0 <= k < |es| :: ClosesAt(t, es, k)) <==> s.phase == Connected || s.pending != []
    ensures var t := Step(s, CloseAfterAllSent);
            s.phase == Connecting && s.pending == [] ==>
              forall k | 0 <= k <= |es| && AllEnabled(t, es[..k]) :: Run(t, es[..k]).phase != Disconnected
  {
    var t := Step(s, CloseAfterAllSent);
    if s.phase == Connected {
      var k := GracefulClose(t, es);
    } else if s.pending != [] {
      var u := Step(t, es[0]);
      var k := GracefulClose(u, es[1..]);
      assert es[..k + 2][0] == es[0] && es[..k + 2][1..] == es[1..][..k + 1];
      assert ClosesAt(t, es, k + 1);
    } else {
      forall k: nat | k <= |es| && AllEnabled(t, es[..k])
        ensures Run(t, es[..k]).phase != Disconnected
      {
        StaysOpen(t, es[..k]);
      }
    }
  }

  lemma StaysOpen(t: Sock, es: seq<Event>)
    requires t.phase == Connecting && t.pending == [] && Flushing(es) && AllEnabled(t, es)
    ensures Run(t, es).phase != Disconnected
  {
    if |es| > 1 {
      assert false;
    }
  }

  lemma PrefixOf(data: seq<Byte>, waiting: seq<Byte>, n: nat)
    requires data <= waiting && n <= |data|
    ensures n <= |waiting| && data[..n] == waiting[..n]
  {
  }

  // ---------- the socket object ----------

  /** `LibeventTcpSocketImpl` in event mode; `sent` records what the system took. */
  class TcpSocket {
    var phase: Phase
    var hasEvent: bool
    var armed: bool
    var expired: bool
    const queue: KBuffer.Queue
    ghost var sent: seq<Byte>

    constructor ()
      ensures Good() && fresh(queue) && State() == Initial()
    {
      phase, hasEvent, armed, expired, sent := Disconnected, false, false, false, [];
      queue := new KBuffer.Queue();
    }

    ghost predicate Good()
      reads this, queue, queue.chunks
    {
      queue.Valid() && queue.Tight() && Sound(State())
    }

    ghost function State(): Sock
      requires queue.Valid()
      reads this, queue, queue.chunks
    {
      Sock(phase, hasEvent, armed, expired, queue.Contents(), sent)
    }

    /** One call of `kbuffer_add`. */
    method Enqueue(data: seq<Byte>)
      requires queue.Valid() && queue.Tight() && data != []
      modifies queue, queue.chunks
      ensures queue.Valid() && queue.Tight()
      ensures queue.Contents() == old(queue.Contents()) + data
      ensures |queue.chunks| > 0 && fresh(queue.chunks[|queue.chunks| - 1])
      ensures queue.chunks[..|queue.chunks| - 1] == old(queue.chunks)
    {
      hide *;
      var _ := queue.Add(data);
    }

    method Write(data: seq<Byte>) returns (n: nat)
      requires Good()
      modifies this, queue, queue.chunks
      ensures Good() && State() == Written(old(State()), data) && n <= |data|
    {
      hide KBuffer.Queue.Valid, KBuffer.Queue.Contents, KBuffer.Queue.Tight;
      if data == [] {
        return 0;
      }
      n := 0;
      if phase != Connected {
        Enqueue(data);
        n := |data|;
      }
      if hasEvent {
        Enqueue(data);
        n := |data|;
        armed := true;
      }
    }

    /** `_onWriteEvent`; the system is offered the first chunk of the queue and
        `actual` is what came of it. */
    method OnWriteEvent(answer: Answer) returns (actual: Answer)
      requires Good() && Enabled(State(), Writable(answer))
      modifies this, queue, queue.chunks
      ensures Good() && Enabled(old(State()), Writable(actual))
      ensures State() == Flushed(old(State()), actual)
      ensures answer.Accepted? <==> actual.Accepted?
    {
      actual := answer;
      if phase == Connecting {
        armed := false;
        phase := Connected;
        if queue.size > 0 {
          armed := true;
        }
        return;
      }
      if queue.size == 0 {
        armed := false;
        if expired {
          Close();
        }
        return;
      }
      match answer
      case WouldBlock =>
      case Failed =>
        Close();
      case Accepted(n) =>
        var nwrite := SendSome(n);
        actual := Accepted(nwrite);
    }

    /** Offers the first chunk to a system that takes up to `n` bytes. */
    method SendSome(n: nat) returns (nwrite: nat)
      requires queue.Valid() && queue.Tight() && queue.Contents() != [] && n > 0
      modifies this`sent, queue, queue.chunks
      ensures queue.Valid() && queue.Tight()
      ensures 0 < nwrite <= n && nwrite <= |old(queue.Contents())|
      ensures sent == old(sent) + old(queue.Contents())[..nwrite]
      ensures queue.Contents() == old(queue.Contents())[nwrite..]
    {
      ghost var waiting := queue.Contents();
      hide *;
      var data := queue.GetContiguous();
      nwrite := if n <= |data| then n else |data|;
      PrefixOf(data, waiting, nwrite);
      sent := sent + data[..nwrite];
      Took(nwrite);
    }

    /** What was sent leaves the queue. */
    method Took(n: nat)
      requires queue.Valid() && queue.Tight() && n <= |queue.Contents()|
      modifies queue, queue.chunks
      ensures queue.Valid() && queue.Tight() && queue.Contents() == old(queue.Contents())[n..]
    {
      hide *;
      queue.Drain(n);
    }

    method CloseAfterAllSent()
      requires Good() && hasEvent
      modifies this
      ensures Good() && State() == Step(old(State()), Event.CloseAfterAllSent)
    {
      expired := true;
      armed := true;
    }

    method Close()
      requires queue.Valid() && queue.Tight()
      modifies this
      ensures Good() && State() == Closed(old(State()))
    {
      phase := Disconnected;
      armed := false;
      hasEvent := false;
    }
  }
}
