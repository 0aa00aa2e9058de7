/** Redis tickets (RedisRequest.cpp): commands are reserved while there is no
    connection, sent when there is one, and end by a reply, an error, a timeout or a
    cancellation. Commands are issued in the thread of the event loop. */
module Redis {
  type Ticket = nat

  datatype Link = Idle | Connecting | Connected

  datatype Outcome = Replied | Failed | TimedOut

  /** `requestContext`; a command without a timeout has `ttl` -1. `deadline` is the
      number of the tick at which it would time out. */
  datatype Context = Context(ttl: int, deadline: int)

  /** `inflight` are the callbacks the connection still owes, oldest first; `calls`
      and `sent` record the handlers run and the commands sent. */
  datatype Client = Client(link: Link, contexts: map<Ticket, Context>, reserved: seq<Ticket>, inflight: seq<Ticket>,
                           next: Ticket, calls: seq<(Ticket, Outcome)>, sent: seq<Ticket>, ticks: nat)

  datatype Event =
    | Command(timeout: int)
    | Cancel(t: Ticket)
    | Connect
    | ConnectUp
    | ConnectFails
    | Reply
    | Close
    | Tick

  function DropFirst(s: seq<Ticket>, t: Ticket): seq<Ticket> {
    if s == [] then [] else if s[0] == t then s[1..] else [s[0]] + DropFirst(s[1..], t)
  }

  /** `_removeContext`. */
  function Remove(c: Client, t: Ticket): Client {
    c.(contexts := c.contexts - {t}, reserved := DropFirst(c.reserved, t))
  }

  /** `fire_onRedisRequest_Response` and `fire_onRedisRequest_Error`: the handler of a
      ticket that is still known runs, and the ticket is forgotten. */
  function Finish(c: Client, t: Ticket, outcome: Outcome): Client {
    if t in c.contexts then Remove(c.(calls := c.calls + [(t, outcome)]), t) else c
  }

  function FinishAll(c: Client, ts: seq<Ticket>, outcome: Outcome): Client
    decreases |ts|
  {
    if ts == [] then c else FinishAll(Finish(c, ts[0], outcome), ts[1..], outcome)
  }

  /** `_doCommand`. */
  function Send(c: Client, t: Ticket): Client {
    c.(inflight := c.inflight + [t], sent := c.sent + [t])
  }

  /** `command`. */
  function Issue(c: Client, timeout: int): Client {
    var t := c.next;
    var ctx := if timeout > 0 then Context(timeout, c.ticks + timeout) else Context(-1, -1);
    var known := c.(contexts := c.contexts[t := ctx], next := t + 1);
    if c.link == Connected then Send(known, t) else known.(reserved := known.reserved + [t])
  }

  function Counted(ctx: Context): Context {
    if ctx.ttl > 0 then ctx.(ttl := ctx.ttl - 1) else ctx
  }

  /** The tickets below `n`, in order, whose time is up at the next tick. */
  function Due(contexts: map<Ticket, Context>, n: nat): seq<Ticket> {
    if n == 0 then []
    else Due(contexts, n - 1) + if n - 1 in contexts && contexts[n - 1].ttl == 1 then [n - 1] else []
  }

  function CountedDown(c: Client): Client {
    c.(contexts := map t | t in c.contexts :: Counted(c.contexts[t]), ticks := c.ticks + 1)
  }

  /** The command timer: all counts go down, then the due tickets fail. */
  function Ticked(c: Client): Client {
    FinishAll(CountedDown(c), Due(c.contexts, c.next), TimedOut)
  }

  predicate Enabled(c: Client, e: Event) {
    match e
    case Connect => c.link == Idle
    case ConnectUp => c.link == Connecting
    case ConnectFails => c.link == Connecting
    case Reply => c.link == Connected && c.inflight != []
    case _ => true
  }

  /** A connection that ends answers all commands in flight with a null reply, before
      the client is told. */
  function Step(c: Client, e: Event): Client {
    match e
    case Command(timeout) => Issue(c, timeout)
    case Cancel(t) => Remove(c, t)
    case Connect => c.(link := Connecting)
    case ConnectUp => c.(link := Connected, inflight := c.inflight + c.reserved, sent := c.sent + c.reserved)
    case ConnectFails => c.(link := Idle)
    case Reply => if c.inflight == [] then c else Finish(c.(inflight := c.inflight[1..]), c.inflight[0], Replied)
    case Close => FinishAll(c.(inflight := []), c.inflight, Failed).(link := Idle)
    case Tick => Ticked(c)
  }

  function Run(c: Client, es: seq<Event>): Client
    decreases |es|
  {
    if es == [] then c else Run(Step(c, es[0]), es[1..])
  }

  predicate AllEnabled(c: Client, es: seq<Event>)
    decreases |es|
  {
    es == [] || (Enabled(c, es[0]) && AllEnabled(Step(c, es[0]), es[1..]))
  }

  function Initial(): Client {
    Client(Idle, map[], [], [], 0, [], [], 0)
  }

  // ---------- the invariant ----------

  predicate Distinct(s: seq<Ticket>) {
    forall i, j | 0 <= i < j < |s| :: s[i] != s[j]
  }

  function Called(c: Client): seq<Ticket> {
    seq(|c.calls|, i requires 0 <= i < |c.calls| => c.calls[i].0)
  }

  /** No ticket was ever sent twice or had its handler run twice. */
  predicate Once(c: Client) {
    && Distinct(c.sent) && Distinct(Called(c))
    && |c.inflight| <= |c.sent| && c.inflight == c.sent[|c.sent| - |c.inflight|..]
  }

  predicate Known(c: Client) {
    && (forall t | t in c.contexts :: t < c.next && t !in Called(c))
    && (forall t | t in c.sent :: t < c.next)
    && (forall t | t in Called(c) :: t < c.next)
  }

  /** A reserved ticket is unfinished; every unfinished one is reserved or in flight;
      without a connection nothing is in flight and nothing reserved has been sent.
      Tickets in `ending` are about to be finished. */
  predicate AccountedBut(c: Client, ending: set<Ticket>) {
    && Distinct(c.reserved)
    && (forall t | t in c.reserved :: t in c.contexts)
    && (forall t | t in c.contexts :: t in c.reserved || t in c.inflight || t in ending)
    && (c.link != Connected ==> c.inflight == [] && forall t | t in c.reserved :: t !in c.sent)
    && (c.link == Connected ==> forall t | t in c.reserved :: t in c.inflight || t in ending)
  }

  predicate Timed(c: Client) {
    forall t | t in c.contexts ::
      var ctx := c.contexts[t];
      if ctx.ttl >= 0 then ctx.deadline == c.ticks + ctx.ttl else ctx == Context(-1, -1)
  }

  predicate NoneDue(c: Client) {
    forall t | t in c.contexts :: c.contexts[t].ttl != 0
  }

  predicate SoundBut(c: Client, ending: set<Ticket>) {
    Once(c) && Known(c) && AccountedBut(c, ending) && Timed(c)
  }

  predicate Sound(c: Client) {
    SoundBut(c, {}) && NoneDue(c)
  }

  // ---------- every step keeps it ----------

  lemma {:induction false} DropFirstDrops(s: seq<Ticket>, t: Ticket)
    requires Distinct(s)
    ensures var r := DropFirst(s, t); Distinct(r) && forall u :: u in r <==> u in s && u != t
  {
    if s != [] {
      var rest := s[1..];
      assert s == [s[0]] + rest;
      DropFirstDrops(rest, t);
      if s[0] == t {
        assert t !in rest;
      } else {
        var r := DropFirst(rest, t);
        assert s[0] !in r;
      }
    }
  }

  lemma RemoveKeeps(c: Client, t: Ticket, ending: set<Ticket>)
    requires SoundBut(c, ending)
    ensures SoundBut(Remove(c, t), ending - {t}) && t !in Remove(c, t).contexts
    ensures Remove(c, t).calls == c.calls
  {
    DropFirstDrops(c.reserved, t);
    hide Distinct, DropFirst;
    assert Called(Remove(c, t)) == Called(c);
  }

  lemma FinishKeeps(c: Client, t: Ticket, outcome: Outcome, ending: set<Ticket>)
    requires SoundBut(c, ending)
    ensures SoundBut(Finish(c, t, outcome), ending - {t})
    ensures Finish(c, t, outcome).contexts == c.contexts - {t}
  {
    if t in c.contexts {
      FinishOnce(c, t, outcome);
      DropFirstDrops(c.reserved, t);
      FinishAccounted(c, t, outcome, ending);
      hide DropFirst, Once, AccountedBut;
    }
  }

  lemma FinishAccounted(c: Client, t: Ticket, outcome: Outcome, ending: set<Ticket>)
    requires AccountedBut(c, ending) && t in c.contexts
    ensures AccountedBut(Remove(c.(calls := c.calls + [(t, outcome)]), t), ending - {t})
  {
    DropFirstDrops(c.reserved, t);
    hide DropFirst, Distinct;
  }

  lemma FinishOnce(c: Client, t: Ticket, outcome: Outcome)
    requires Once(c) && t !in Called(c)
    ensures var r := Remove(c.(calls := c.calls + [(t, outcome)]), t); Once(r) && Called(r) == Called(c) + [t]
  {
    var r := Remove(c.(calls := c.calls + [(t, outcome)]), t);
    assert Called(r) == Called(c) + [t];
    DistinctAppend(Called(c), [t]);
  }

  lemma {:induction false} FinishAllKeeps(c: Client, ts: seq<Ticket>, outcome: Outcome, ending: set<Ticket>)
    requires SoundBut(c, ending)
    ensures var d := FinishAll(c, ts, outcome);
            && SoundBut(d, ending - Elements(ts))
            && d.contexts == c.contexts - Elements(ts)
            && d.link == c.link && d.inflight == c.inflight && d.sent == c.sent && d.next == c.next && d.ticks == c.ticks
    decreases |ts|
  {
    hide SoundBut;
    if ts == [] {
      assert ending - Elements(ts) == ending;
    } else {
      FinishKeeps(c, ts[0], outcome, ending);
      FinishAllKeeps(Finish(c, ts[0], outcome), ts[1..], outcome, ending - {ts[0]});
      assert Elements(ts) == {ts[0]} + Elements(ts[1..]) by { assert ts == [ts[0]] + ts[1..]; }
      assert ending - {ts[0]} - Elements(ts[1..]) == ending - Elements(ts);
    }
  }

  function Elements(ts: seq<Ticket>): set<Ticket> {
    set t | t in ts
  }

  lemma IssueKeeps(c: Client, timeout: int)
    requires Sound(c)
    ensures Sound(Issue(c, timeout))
  {
    assert c.next !in c.sent && c.next !in c.reserved;
    DistinctAppend(c.sent, [c.next]);
    DistinctAppend(c.reserved, [c.next]);
    IssueOnce(c, timeout);
    hide Distinct, Once, Called;
  }

  lemma IssueOnce(c: Client, timeout: int)
    requires Once(c) && Distinct(c.sent + [c.next])
    ensures Once(Issue(c, timeout)) && Called(Issue(c, timeout)) == Called(c)
  {
    hide Distinct;
    assert Called(Issue(c, timeout)) == Called(c);
  }

  lemma DistinctAppend(a: seq<Ticket>, b: seq<Ticket>)
    requires Distinct(a) && Distinct(b) && forall t | t in b :: t !in a
    ensures Distinct(a + b)
  {
    forall i, j | 0 <= i < j < |a + b| ensures (a + b)[i] != (a + b)[j] {
      if i < |a| <= j {
        assert b[j - |a|] in b;
      }
    }
  }

  lemma ConnectUpOnce(c: Client)
    requires Once(c) && c.inflight == [] && Distinct(c.reserved) && forall t | t in c.reserved :: t !in c.sent
    ensures var d := Step(c, ConnectUp); Once(d) && Called(d) == Called(c) && d.inflight == c.reserved
  {
    var d := Step(c, ConnectUp);
    DistinctAppend(c.sent, c.reserved);
    hide Distinct;
    assert Called(d) == Called(c);
    assert [] + c.reserved == c.reserved && d.sent[|c.sent|..] == c.reserved;
  }

  lemma ConnectUpKeeps(c: Client)
    requires Sound(c) && c.link == Connecting
    ensures Sound(Step(c, ConnectUp))
  {
    hide Distinct, Once, Called;
    ReservedUnsent(c);
    ConnectUpOnce(c);
    ConnectUpRest(c);
  }

  lemma ReservedUnsent(c: Client)
    requires Sound(c) && c.link == Connecting
    ensures Once(c) && c.inflight == [] && Distinct(c.reserved) && forall t | t in c.reserved :: t !in c.sent
  {
  }

  lemma ConnectUpRest(c: Client)
    requires Sound(c) && c.link == Connecting
    requires var d := Step(c, ConnectUp); Once(d) && Called(d) == Called(c) && d.inflight == c.reserved
    ensures Sound(Step(c, ConnectUp))
  {
    hide Distinct, Once, Called;
  }

  lemma ReplyKeeps(c: Client)
    requires Sound(c) && c.link == Connected && c.inflight != []
    ensures Sound(Step(c, Reply))
  {
    hide *;
    var t := c.inflight[0];
    var d := c.(inflight := c.inflight[1..]);
    ReplyFinishes(c);
    PoppedKeeps(c);
    FinishKeeps(d, t, Replied, {t});
    assert {t} - {t} == {};
    StillNoneDue(c, Step(c, Reply));
  }

  lemma ReplyFinishes(c: Client)
    requires c.inflight != []
    ensures Step(c, Reply) == Finish(c.(inflight := c.inflight[1..]), c.inflight[0], Replied)
    ensures forall t | t in Step(c, Reply).contexts :: t in c.contexts && Step(c, Reply).contexts[t] == c.contexts[t]
  {
  }

  lemma StillNoneDue(c: Client, d: Client)
    requires Sound(c) && SoundBut(d, {})
    requires forall t | t in d.contexts :: t in c.contexts && d.contexts[t] == c.contexts[t]
    ensures Sound(d)
  {
    hide SoundBut;
  }

  lemma PoppedKeeps(c: Client)
    requires Sound(c) && c.link == Connected && c.inflight != []
    ensures SoundBut(c.(inflight := c.inflight[1..]), {c.inflight[0]})
  {
    var d := c.(inflight := c.inflight[1..]);
    assert c.inflight == [c.inflight[0]] + d.inflight;
    assert Called(d) == Called(c);
    hide Called;
  }

  lemma CloseKeeps(c: Client)
    requires Sound(c)
    ensures Sound(Step(c, Close))
  {
    var d := c.(inflight := []);
    var all := Elements(c.inflight);
    assert Called(d) == Called(c);
    assert SoundBut(d, all);
    FinishAllKeeps(d, c.inflight, Failed, all);
    assert all - all == {};
    var e := FinishAll(d, c.inflight, Failed);
    assert Called(e.(link := Idle)) == Called(e);
  }

  lemma {:induction false} DueFacts(contexts: map<Ticket, Context>, n: nat)
    ensures Distinct(Due(contexts, n))
    ensures forall t :: t in Due(contexts, n) <==> t < n && t in contexts && contexts[t].ttl == 1
  {
    if n > 0 {
      DueFacts(contexts, n - 1);
    }
  }

  lemma CountedDownKeeps(c: Client)
    requires Sound(c)
    ensures SoundBut(CountedDown(c), {})
  {
    var d := CountedDown(c);
    assert Called(d) == Called(c);
    assert forall t | t in d.contexts :: t in c.contexts && d.contexts[t] == Counted(c.contexts[t]);
  }

  lemma TickedContexts(c: Client)
    requires Sound(c)
    ensures Ticked(c).contexts == CountedDown(c).contexts - Elements(Due(c.contexts, c.next))
    ensures SoundBut(Ticked(c), {})
  {
    CountedDownKeeps(c);
    hide Sound, SoundBut, CountedDown;
    FinishAllKeeps(CountedDown(c), Due(c.contexts, c.next), TimedOut, {});
    assert {} - Elements(Due(c.contexts, c.next)) == {};
  }

  lemma NoneIsDue(c: Client)
    requires Sound(c) && Ticked(c).contexts == CountedDown(c).contexts - Elements(Due(c.contexts, c.next))
    ensures NoneDue(Ticked(c))
  {
    DueFacts(c.contexts, c.next);
    hide FinishAll, Due, Ticked;
    var e := Ticked(c);
    forall t | t in e.contexts ensures e.contexts[t].ttl != 0 {
      assert t in c.contexts && e.contexts[t] == Counted(c.contexts[t]) && t !in Due(c.contexts, c.next);
    }
  }

  lemma TickKeeps(c: Client)
    requires Sound(c)
    ensures Sound(Step(c, Tick))
  {
    TickedContexts(c);
    NoneIsDue(c);
    hide Ticked, SoundBut, NoneDue;
  }

  lemma StepKeepsSound(c: Client, e: Event)
    requires Sound(c) && Enabled(c, e)
    ensures Sound(Step(c, e))
  {
    match e
    case Command(timeout) => IssueKeeps(c, timeout);
    case Cancel(t) => RemoveKeeps(c, t, {}); assert {} - {t} == {};
    case Connect => assert Called(Step(c, e)) == Called(c);
    case ConnectUp => ConnectUpKeeps(c);
    case ConnectFails => assert Called(Step(c, e)) == Called(c);
    case Reply => ReplyKeeps(c);
    case Close => CloseKeeps(c);
    case Tick => TickKeeps(c);
  }

  /** Over any run: every handler runs at most once, every command is sent at most once
      (so on one connection), and every unfinished ticket is reserved or in flight. */
  lemma {:induction false} AlwaysSound(c: Client, es: seq<Event>)
    requires Sound(c) && AllEnabled(c, es)
    ensures Sound(Run(c, es))
    decreases |es|
  {
    if es != [] {
      hide Sound, Step, Enabled;
      StepKeepsSound(c, es[0]);
      AlwaysSound(Step(c, es[0]), es[1..]);
    }
  }

  lemma InitialIsSound()
    ensures Sound(Initial())
  {
  }

  /** Hence, from the start on. */
  lemma EveryRun(es: seq<Event>)
    requires AllEnabled(Initial(), es)
    ensures var c := Run(Initial(), es);
            && Distinct(c.sent) && Distinct(Called(c))
            && (forall t | t in c.contexts :: t !in Called(c) && (t in c.reserved || t in c.inflight))
            && (forall t | t in c.reserved :: t in c.contexts)
            && (c.link != Connected ==> c.inflight == [])
  {
    InitialIsSound();
    AlwaysSound(Initial(), es);
  }

  // ---------- what follows for a single ticket ----------

  /** Once a ticket has been answered, failed or cancelled, its handler never runs
      (again), whatever happens later. */
  lemma {:induction false} NeverAgain(c: Client, es: seq<Event>, t: Ticket)
    requires Sound(c) && AllEnabled(c, es) && t < c.next && t !in c.contexts
    ensures var d := Run(c, es);
            && t !in d.contexts && |c.calls| <= |d.calls| && d.calls[..|c.calls|] == c.calls
            && forall i | |c.calls| <= i < |d.calls| :: d.calls[i].0 != t
    decreases |es|
  {
    if es != [] {
      hide Sound, Step, Enabled;
      StepKeepsSound(c, es[0]);
      NotCalled(c, es[0], t);
      NeverAgain(Step(c, es[0]), es[1..], t);
    }
  }

  ghost predicate Silent(c: Client, d: Client, t: Ticket) {
    && t !in d.contexts && c.next <= d.next && |c.calls| <= |d.calls| && d.calls[..|c.calls|] == c.calls
    && forall i | |c.calls| <= i < |d.calls| :: d.calls[i].0 != t
  }

  lemma {:induction false} FinishAllSilent(c: Client, ts: seq<Ticket>, outcome: Outcome, t: Ticket)
    requires t !in c.contexts
    ensures Silent(c, FinishAll(c, ts, outcome), t)
    decreases |ts|
  {
    if ts != [] {
      FinishAllSilent(Finish(c, ts[0], outcome), ts[1..], outcome, t);
    }
  }

  lemma NotCalled(c: Client, e: Event, t: Ticket)
    requires t < c.next && t !in c.contexts
    ensures Silent(c, Step(c, e), t)
  {
    match e
    case Close => FinishAllSilent(c.(inflight := []), c.inflight, Failed, t);
    case Tick => FinishAllSilent(CountedDown(c), Due(c.contexts, c.next), TimedOut, t);
    case _ =>
  }

  predicate Answered(c: Client, t: Ticket) {
    exists i | 0 <= i < |c.calls| :: c.calls[i].0 == t
  }

  /** No command is forgotten: a ticket that is no longer open, and was not cancelled,
      has had its handler run. */
  lemma {:induction false} NoneForgotten(c: Client, es: seq<Event>, t: Ticket)
    requires Sound(c) && AllEnabled(c, es) && t in c.contexts
    requires forall i | 0 <= i < |es| :: es[i] != Cancel(t)
    ensures t in Run(c, es).contexts || Answered(Run(c, es), t)
    decreases |es|
  {
    if es != [] {
      SoundKnows(c, t);
      var d := Step(c, es[0]);
      StepKeepsSound(c, es[0]);
      NextGrows(c, es[0]);
      StepAnswersOrKeeps(c, es[0], t);
      hide Sound, Step, Enabled;
      if t in d.contexts {
        NoneForgotten(d, es[1..], t);
      } else {
        NeverAgain(d, es[1..], t);
        var i :| 0 <= i < |d.calls| && d.calls[i].0 == t;
        assert Run(c, es).calls[..|d.calls|][i].0 == t;
      }
    }
  }

  lemma StepAnswersOrKeeps(c: Client, e: Event, t: Ticket)
    requires t in c.contexts && e != Cancel(t)
    ensures t in Step(c, e).contexts || Answered(Step(c, e), t)
  {
    match e
    case Close =>
      FinishAllAnswers(c.(inflight := []), c.inflight, Failed);
    case Tick =>
      FinishAllAnswers(CountedDown(c), Due(c.contexts, c.next), TimedOut);
    case Reply =>
      if c.inflight != [] && t == c.inflight[0] {
        assert Step(c, e).calls[|c.calls|] == (t, Replied);
      }
    case _ =>
  }

  ghost predicate AnsweredAll(c: Client, d: Client, ts: seq<Ticket>, outcome: Outcome) {
    && |c.calls| <= |d.calls| && d.calls[..|c.calls|] == c.calls
    && (forall t :: t in d.contexts <==> t in c.contexts && t !in ts)
    && (forall i | |c.calls| <= i < |d.calls| ::
          d.calls[i].1 == outcome && d.calls[i].0 in ts && d.calls[i].0 in c.contexts)
    && (forall t | t in ts && t in c.contexts :: exists i | |c.calls| <= i < |d.calls| :: d.calls[i].0 == t)
  }

  lemma {:induction false} FinishAllAnswers(c: Client, ts: seq<Ticket>, outcome: Outcome)
    ensures AnsweredAll(c, FinishAll(c, ts, outcome), ts, outcome)
    decreases |ts|
  {
    if ts != [] {
      var d, rest := Finish(c, ts[0], outcome), ts[1..];
      var end := FinishAll(d, rest, outcome);
      FinishAllAnswers(d, rest, outcome);
      assert ts == [ts[0]] + rest;
      if ts[0] in c.contexts {
        assert end.calls[|c.calls|] == end.calls[..|d.calls|][|c.calls|] == (ts[0], outcome);
      }
      assert end.calls[..|c.calls|] == end.calls[..|d.calls|][..|c.calls|] == c.calls;
    }
  }

  /** A connection that ends fails exactly the open commands in flight; the others stay
      open for the next connection. */
  lemma CloseFailsInFlight(c: Client)
    requires Sound(c)
    ensures var d := Step(c, Close);
            && |c.calls| <= |d.calls| && d.calls[..|c.calls|] == c.calls
            && (forall t | t in c.contexts :: t in d.contexts <==> t !in c.inflight)
            && (forall t | t in c.contexts && t in c.inflight :: Answered(d, t))
            && (forall i | |c.calls| <= i < |d.calls| ::
                  d.calls[i].1 == Failed && d.calls[i].0 in c.inflight && d.calls[i].0 in c.contexts)
            && d.link == Idle && d.inflight == [] && forall t | t in d.contexts :: t in d.reserved
  {
    CloseKeeps(c);
    FinishAllAnswers(c.(inflight := []), c.inflight, Failed);
  }

  /** A tick fails exactly the commands whose timeout it completes, in ticket order. */
  lemma TickFailsTheDue(c: Client)
    requires Sound(c)
    ensures var due := Due(c.contexts, c.next);
            && Ticked(c).calls == c.calls + seq(|due|, i requires 0 <= i < |due| => (due[i], TimedOut))
            && forall t | t in c.contexts ::
                 (t in due <==> c.contexts[t].ttl > 0 && c.contexts[t].deadline == c.ticks + 1)
                 && (t in due <==> t !in Ticked(c).contexts)
  {
    var due := Due(c.contexts, c.next);
    DueFacts(c.contexts, c.next);
    TickedContexts(c);
    hide Due;
    FinishAllCalls(CountedDown(c), due, TimedOut);
  }

  lemma {:induction false} FinishAllCalls(c: Client, ts: seq<Ticket>, outcome: Outcome)
    requires Distinct(ts) && forall t | t in ts :: t in c.contexts
    ensures FinishAll(c, ts, outcome).calls == c.calls + seq(|ts|, i requires 0 <= i < |ts| => (ts[i], outcome))
    decreases |ts|
  {
    if ts != [] {
      var rest := ts[1..];
      var d := Finish(c, ts[0], outcome);
      assert ts[0] in c.contexts;
      forall t | t in rest ensures t in d.contexts {
        assert t in ts && t != ts[0];
      }
      FinishAllCalls(d, rest, outcome);
      assert [(ts[0], outcome)] + seq(|rest|, i requires 0 <= i < |rest| => (rest[i], outcome))
          == seq(|ts|, i requires 0 <= i < |ts| => (ts[i], outcome));
      assert c.calls + [(ts[0], outcome)] + seq(|rest|, i requires 0 <= i < |rest| => (rest[i], outcome))
          == c.calls + ([(ts[0], outcome)] + seq(|rest|, i requires 0 <= i < |rest| => (rest[i], outcome)));
    }
  }

  function TicksIn(es: seq<Event>): nat {
    if es == [] then 0 else (if es[0].Tick? then 1 else 0) + TicksIn(es[1..])
  }

  /** A command with a timeout of n ticks that is still unanswered has seen fewer than n
      ticks, and its deadline has not moved: the n-th tick is the one that fails it. */
  lemma {:induction false} DeadlineStands(c: Client, es: seq<Event>, t: Ticket)
    requires Sound(c) && AllEnabled(c, es) && t in c.contexts && c.contexts[t].ttl > 0
    requires t in Run(c, es).contexts
    ensures var d := Run(c, es);
            && d.ticks == c.ticks + TicksIn(es) && d.contexts[t].deadline == c.contexts[t].deadline
            && d.contexts[t].ttl == c.contexts[t].ttl - TicksIn(es) > 0
    decreases |es|
  {
    if es != [] {
      hide Sound, Step, Enabled;
      StepKeepsSound(c, es[0]);
      var d := Step(c, es[0]);
      if t !in d.contexts {
        SoundKnows(c, t);
        NextGrows(c, es[0]);
        NeverAgain(d, es[1..], t);
        assert false;
      }
      StepKeepsDeadline(c, es[0], t);
      DeadlineStands(d, es[1..], t);
    }
  }

  lemma SoundKnows(c: Client, t: Ticket)
    requires Sound(c) && t in c.contexts
    ensures t < c.next
  {
  }

  lemma {:induction false} FinishAllNext(c: Client, ts: seq<Ticket>, outcome: Outcome)
    ensures FinishAll(c, ts, outcome).next == c.next && FinishAll(c, ts, outcome).ticks == c.ticks
    ensures forall t | t in FinishAll(c, ts, outcome).contexts ::
              t in c.contexts && FinishAll(c, ts, outcome).contexts[t] == c.contexts[t]
    decreases |ts|
  {
    if ts != [] { FinishAllNext(Finish(c, ts[0], outcome), ts[1..], outcome); }
  }

  lemma NextGrows(c: Client, e: Event)
    ensures c.next <= Step(c, e).next
  {
    FinishAllNext(c.(inflight := []), c.inflight, Failed);
    FinishAllNext(CountedDown(c), Due(c.contexts, c.next), TimedOut);
  }

  lemma StepKeepsDeadline(c: Client, e: Event, t: Ticket)
    requires Sound(c) && Enabled(c, e) && t in c.contexts && c.contexts[t].ttl > 0 && t in Step(c, e).contexts
    ensures var d := Step(c, e);
            && d.ticks == c.ticks + (if e.Tick? then 1 else 0) && d.contexts[t].deadline == c.contexts[t].deadline
            && d.contexts[t].ttl == c.contexts[t].ttl - (if e.Tick? then 1 else 0) && d.contexts[t].ttl > 0
  {
    StepKeepsSound(c, e);
    SoundKnows(c, t);
    KeptByStep(c, e, t);
    var d := Step(c, e);
    assert NoneDue(d) && NoneDue(c);
    hide Step, SoundBut;
  }

  lemma KeptByStep(c: Client, e: Event, t: Ticket)
    requires t in c.contexts && t < c.next && t in Step(c, e).contexts
    ensures var d := Step(c, e);
            && d.ticks == c.ticks + (if e.Tick? then 1 else 0)
            && d.contexts[t] == if e.Tick? then Counted(c.contexts[t]) else c.contexts[t]
  {
    FinishAllNext(c.(inflight := []), c.inflight, Failed);
    FinishAllNext(CountedDown(c), Due(c.contexts, c.next), TimedOut);
    hide FinishAll, Due;
  }

  /** `reservedCommands_` is not cleared when its commands are sent: if a connection
      were lost without null replies, the next one would send commands a second time
      exactly when some of them are still on the list. */
  lemma ResentIffReserved(c: Client)
    requires Sound(c) && c.link == Connected
    ensures var next := Step(c.(link := Connecting, inflight := []), ConnectUp);
            && next.sent == c.sent + c.reserved
            && (Distinct(next.sent) <==> c.reserved == [])
  {
    var sent, reserved := c.sent, c.reserved;
    assert Distinct(sent) && forall t | t in reserved :: t in sent by {
      assert forall t | t in c.inflight :: t in c.sent;
    }
    hide Sound, Once;
    if reserved != [] {
      assert reserved[0] in sent;
      var i :| 0 <= i < |sent| && sent[i] == reserved[0];
      assert (sent + reserved)[i] == (sent + reserved)[|sent|];
    } else {
      assert sent + reserved == sent;
    }
  }

  lemma {:induction false} DropFound(s: seq<Ticket>, t: Ticket, i: nat)
    requires i <= |s| && (forall j | 0 <= j < i :: s[j] != t) && (i < |s| ==> s[i] == t)
    ensures DropFirst(s, t) == if i < |s| then s[..i] + s[i + 1..] else s
  {
    if i > 0 {
      var rest := s[1..];
      assert DropFirst(s, t) == [s[0]] + DropFirst(rest, t);
      DropFound(rest, t, i - 1);
      hide DropFirst;
      if i < |s| {
        Spliced(s, i);
      }
    }
  }

  lemma Spliced(s: seq<Ticket>, i: nat)
    requires 0 < i < |s|
    ensures [s[0]] + (s[1..][..i - 1] + s[1..][i..]) == s[..i] + s[i + 1..]
  {
  }

  // ---------- the object ----------

  /** `RedisRequestImpl`, together with the callbacks its transport still owes. */
  class RedisRequest {
    var link: Link
    var contexts: map<Ticket, Context>
    var reserved: seq<Ticket>
    var next: Ticket
    var inflight: seq<Ticket>
    var ticks: nat
    ghost var calls: seq<(Ticket, Outcome)>
    ghost var sent: seq<Ticket>

    constructor ()
      ensures State() == Initial()
    {
      link, contexts, reserved, next := Idle, map[], [], 0;
      inflight, calls, sent, ticks := [], [], [], 0;
    }

    ghost function State(): Client
      reads this
    {
      Client(link, contexts, reserved, inflight, next, calls, sent, ticks)
    }

    method DoCommand(t: Ticket)
      modifies this
      ensures State() == Send(old(State()), t)
    {
      inflight := inflight + [t];
      sent := sent + [t];
    }

    method Command(timeout: int) returns (t: Ticket)
      modifies this
      ensures State() == Issue(old(State()), timeout) && t == old(next)
    {
      t := next;
      next := next + 1;
      contexts := contexts[t := if timeout > 0 then Context(timeout, ticks + timeout) else Context(-1, -1)];
      if link != Connected {
        reserved := reserved + [t];
        return;
      }
      DoCommand(t);
    }

    method RemoveContext(t: Ticket)
      modifies this
      ensures State() == Remove(old(State()), t)
    {
      contexts := contexts - {t};
      var i := 0;
      while i < |reserved| && reserved[i] != t
        invariant 0 <= i <= |reserved|
        invariant forall j | 0 <= j < i :: reserved[j] != t
      {
        i := i + 1;
      }
      DropFound(reserved, t, i);
      if i < |reserved| {
        reserved := reserved[..i] + reserved[i + 1..];
      }
    }

    method Cancel(t: Ticket)
      modifies this
      ensures State() == Step(old(State()), Event.Cancel(t))
    {
      RemoveContext(t);
    }

    /** The reply or error path: the handler first, then the context is dropped. */
    method Fire(t: Ticket, outcome: Outcome)
      modifies this
      ensures State() == Finish(old(State()), t, outcome)
    {
      if t in contexts {
        calls := calls + [(t, outcome)];
        RemoveContext(t);
      }
    }

    method FireConnected()
      requires link == Connecting
      modifies this
      ensures State() == Step(old(State()), ConnectUp)
    {
      link := Connected;
      var i := 0;
      while i < |reserved|
        invariant 0 <= i <= |reserved|
        invariant State() == old(State()).(link := Connected, inflight := old(inflight) + reserved[..i],
                                           sent := old(sent) + reserved[..i])
      {
        assert reserved[..i + 1] == reserved[..i] + [reserved[i]];
        DoCommand(reserved[i]);
        i := i + 1;
      }
      assert reserved[..|reserved|] == reserved;
    }

    /** The transport closes: null replies for everything in flight, then the callback. */
    method FireClosed()
      modifies this
      ensures State() == Step(old(State()), Close)
    {
      var owed := inflight;
      inflight := [];
      FireAll(owed, Failed);
      link := Idle;
    }

    method FireAll(ts: seq<Ticket>, outcome: Outcome)
      modifies this
      ensures State() == FinishAll(old(State()), ts, outcome)
    {
      var i := 0;
      assert ts[0..] == ts;
      while i < |ts|
        invariant 0 <= i <= |ts|
        invariant FinishAll(State(), ts[i..], outcome) == FinishAll(old(State()), ts, outcome)
      {
        assert ts[i..][0] == ts[i] && ts[i..][1..] == ts[i + 1..];
        Fire(ts[i], outcome);
        i := i + 1;
      }
    }

    /** The command timer: one pass counts every timeout down and collects the tickets
        whose time is up, a second one fails them. */
    method OnTtlTimer()
      requires forall t | t in contexts :: t < next
      modifies this
      ensures State() == Step(old(State()), Tick)
    {
      ghost var before := contexts;
      var cancelList: seq<Ticket> := [];
      ticks := ticks + 1;
      var t := 0;
      while t < next
        invariant 0 <= t <= next && cancelList == Due(before, t)
        invariant State() == old(State()).(contexts := contexts, ticks := old(ticks) + 1)
        invariant contexts.Keys == before.Keys
        invariant forall u | u in before :: contexts[u] == if u < t then Counted(before[u]) else before[u]
      {
        if t in contexts && contexts[t].ttl > 0 {
          contexts := contexts[t := contexts[t].(ttl := contexts[t].ttl - 1)];
          if contexts[t].ttl <= 0 {
            cancelList := cancelList + [t];
          }
        }
        t := t + 1;
      }
      assert contexts == CountedDown(old(State())).contexts;
      hide FinishAll, Due;
      FireAll(cancelList, TimedOut);
    }
  }
}
