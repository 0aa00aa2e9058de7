/** What happens to one Redis ticket over a whole run, told by the events of the run:
    cancellation, timeouts, and the order of sending and answering. */
module RedisRuns {
  import opened Redis

  lemma {:induction false} RunConcat(c: Client, a: seq<Event>, b: seq<Event>)
    ensures Run(c, a + b) == Run(Run(c, a), b)
    ensures AllEnabled(c, a + b) <==> AllEnabled(c, a) && AllEnabled(Run(c, a), b)
    decreases |a|
  {
    hide Step, Enabled;
    if a == [] {
      assert a + b == b;
    } else {
      assert (a + b)[1..] == a[1..] + b;
      RunConcat(Step(c, a[0]), a[1..], b);
    }
  }

  /** `b` grew out of `a` without `x`. */
  predicate Without<T(==)>(a: seq<T>, b: seq<T>, x: T) {
    a <= b && x !in b[|a|..]
  }

  lemma WithoutTwice<T>(a: seq<T>, b: seq<T>, c: seq<T>, x: T)
    requires Without(a, b, x) && Without(b, c, x)
    ensures Without(a, c, x)
  {
    assert c[|a|..] == b[|a|..] + c[|b|..];
  }

  // ---------- cancellation ----------

  /** A cancelled ticket is forgotten and its reservation given up. Nothing is sent, no
      handler runs, and every other ticket keeps its context and its place. */
  lemma CancelForgets(c: Client, t: Ticket)
    requires Sound(c)
    ensures var d := Step(c, Cancel(t));
            && t !in d.contexts && t !in d.reserved
            && d.calls == c.calls && d.sent == c.sent && d.inflight == c.inflight
            && d.link == c.link && d.next == c.next && d.ticks == c.ticks
            && (forall u | u != t :: u in d.contexts <==> u in c.contexts)
            && (forall u | u in d.contexts :: d.contexts[u] == c.contexts[u])
            && (t !in c.reserved ==> d.reserved == c.reserved)
            && forall i | 0 <= i < |c.reserved| && c.reserved[i] == t :: d.reserved == c.reserved[..i] + c.reserved[i + 1..]
  {
    ReservedAreOpen(c);
    DropsItsPlace(c.reserved, t);
    hide DropFirst, Sound;
  }

  lemma DropsItsPlace(ts: seq<Ticket>, t: Ticket)
    requires Distinct(ts)
    ensures t !in DropFirst(ts, t) && (t !in ts ==> DropFirst(ts, t) == ts)
    ensures forall i | 0 <= i < |ts| && ts[i] == t :: DropFirst(ts, t) == ts[..i] + ts[i + 1..]
  {
    DropFirstDrops(ts, t);
    hide DropFirst;
    if t in ts {
      var i :| 0 <= i < |ts| && ts[i] == t;
      DropFound(ts, t, i);
    } else {
      DropFound(ts, t, |ts|);
    }
  }

  /** No handler of a ticket runs after it was cancelled, and it is not sent any more. */
  lemma CancelIsFinal(c: Client, before: seq<Event>, t: Ticket, after: seq<Event>)
    requires Sound(c) && AllEnabled(c, before + [Cancel(t)] + after) && t < Run(c, before).next
    ensures var mid, end := Run(c, before), Run(c, before + [Cancel(t)] + after);
            && mid.calls <= end.calls && (forall i | |mid.calls| <= i < |end.calls| :: end.calls[i].0 != t)
            && Without(mid.sent, end.sent, t)
  {
    hide Step, Sound, Enabled;
    RunConcat(c, before + [Cancel(t)], after);
    RunConcat(c, before, [Cancel(t)]);
    var mid := Run(c, before);
    AlwaysSound(c, before);
    assert Run(mid, [Cancel(t)]) == Step(mid, Cancel(t)) by { assert [Cancel(t)][1..] == []; }
    var d := Step(mid, Cancel(t));
    AlwaysSound(c, before + [Cancel(t)]);
    CancelForgets(mid, t);
    NeverAgain(d, after, t);
    NeverSent(d, after, t);
  }

  lemma {:induction false} NeverSent(c: Client, es: seq<Event>, t: Ticket)
    requires Sound(c) && AllEnabled(c, es) && t < c.next && t !in c.contexts && t !in c.reserved
    ensures Without(c.sent, Run(c, es).sent, t)
    decreases |es|
  {
    if es != [] {
      hide Sound, Step, Enabled, Without;
      var d := Step(c, es[0]);
      StepKeepsSound(c, es[0]);
      NotSentNow(c, es[0], t);
      NotCalled(c, es[0], t);
      ReservedIsKnown(d);
      NeverSent(d, es[1..], t);
      WithoutTwice(c.sent, d.sent, Run(c, es).sent, t);
    } else {
      assert c.sent[|c.sent|..] == [];
    }
  }

  lemma NotSentNow(c: Client, e: Event, t: Ticket)
    requires Sound(c) && Enabled(c, e) && t < c.next && t !in c.reserved
    ensures Without(c.sent, Step(c, e).sent, t) && t < Step(c, e).next
  {
    hide Sound, Step, Enabled;
    Effects(c, e);
  }

  lemma ReservedIsKnown(c: Client)
    requires Sound(c)
    ensures forall t | t in c.reserved :: t in c.contexts
  {
  }

  // ---------- what each event does ----------

  function LinkAfter(link: Link, e: Event): Link {
    match e
    case Connect => Connecting
    case ConnectUp => Connected
    case ConnectFails => Idle
    case Close => Idle
    case _ => link
  }

  function Kept(ts: seq<Ticket>, known: set<Ticket>): seq<Ticket> {
    if ts == [] then [] else (if ts[0] in known then [ts[0]] else []) + Kept(ts[1..], known)
  }

  function With(ts: seq<Ticket>, outcome: Outcome): seq<(Ticket, Outcome)> {
    seq(|ts|, i requires 0 <= i < |ts| => (ts[i], outcome))
  }

  /** Whether a connection is there, which tickets are given out, what is sent and which
      replies are owed. */
  lemma Effects(c: Client, e: Event)
    requires Sound(c) && Enabled(c, e)
    ensures var d := Step(c, e);
            && d.link == LinkAfter(c.link, e)
            && d.next == c.next + (if e.Command? then 1 else 0)
            && d.ticks == c.ticks + (if e.Tick? then 1 else 0)
            && d.sent == c.sent + (if e.ConnectUp? then c.reserved
                                   else if e.Command? && c.link == Connected then [c.next] else [])
            && d.inflight == match e
                             case Command(_) => if c.link == Connected then c.inflight + [c.next] else c.inflight
                             case ConnectUp => c.reserved
                             case Reply => c.inflight[1..]
                             case Close => []
                             case _ => c.inflight
  {
    FinishAllRest(c.(inflight := []), c.inflight, Failed);
    FinishAllRest(CountedDown(c), Due(c.contexts, c.next), TimedOut);
    hide FinishAll, Due;
  }

  lemma {:induction false} FinishAllRest(c: Client, ts: seq<Ticket>, outcome: Outcome)
    ensures var d := FinishAll(c, ts, outcome);
            d.link == c.link && d.next == c.next && d.ticks == c.ticks && d.sent == c.sent && d.inflight == c.inflight
    decreases |ts|
  {
    if ts != [] {
      FinishAllRest(Finish(c, ts[0], outcome), ts[1..], outcome);
    }
  }

  /** Which handlers `e` runs. A timeout is noticed by the tick that completes it. */
  ghost predicate Runs(c: Client, e: Event, more: seq<(Ticket, Outcome)>) {
    match e
    case Reply => c.inflight != [] && more == With(Kept([c.inflight[0]], c.contexts.Keys), Replied)
    case Close => more == With(Kept(c.inflight, c.contexts.Keys), Failed)
    case Tick =>
      exists due :: && more == With(due, TimedOut) && Increasing(due)
                    && forall t :: t in due <==> t in c.contexts && c.contexts[t].ttl == 1
    case _ => more == []
  }

  lemma HandlersRun(c: Client, e: Event)
    requires Sound(c) && Enabled(c, e)
    ensures c.calls <= Step(c, e).calls && Runs(c, e, Step(c, e).calls[|c.calls|..])
  {
    match e
    case Reply => ReplyRuns(c);
    case Close =>
      InflightDistinct(c);
      FinishAllCallsKept(c.(inflight := []), c.inflight, Failed);
      hide FinishAll, Sound;
    case Tick => TickRuns(c);
    case _ => hide Sound;
  }

  lemma ReplyRuns(c: Client)
    requires c.inflight != []
    ensures c.calls <= Step(c, Reply).calls && Runs(c, Reply, Step(c, Reply).calls[|c.calls|..])
  {
    assert [c.inflight[0]][1..] == [];
  }

  lemma TickRuns(c: Client)
    requires Sound(c)
    ensures c.calls <= Step(c, Tick).calls && Runs(c, Tick, Step(c, Tick).calls[|c.calls|..])
  {
    hide *;
    var due := Due(c.contexts, c.next);
    TickFailsTheDue(c);
    TickIsTicked(c);
    DueFacts(c.contexts, c.next);
    DueIncreases(c.contexts, c.next);
    KnownBelow(c);
    DueRuns(c, due, Step(c, Tick).calls);
  }

  lemma TickIsTicked(c: Client)
    ensures Step(c, Tick) == Ticked(c)
  {
  }

  lemma DueRuns(c: Client, due: seq<Ticket>, calls: seq<(Ticket, Outcome)>)
    requires calls == c.calls + seq(|due|, i requires 0 <= i < |due| => (due[i], TimedOut)) && Increasing(due)
    requires forall t :: t in due <==> t in c.contexts && c.contexts[t].ttl == 1
    ensures c.calls <= calls && Runs(c, Tick, calls[|c.calls|..])
  {
    assert calls[|c.calls|..] == With(due, TimedOut);
  }

  lemma KnownBelow(c: Client)
    requires Sound(c)
    ensures forall t | t in c.contexts :: t < c.next
  {
  }

  lemma InflightDistinct(c: Client)
    requires Sound(c)
    ensures Distinct(c.inflight)
  {
  }

  lemma {:induction false} DueIncreases(contexts: map<Ticket, Context>, n: nat)
    ensures Increasing(Due(contexts, n))
  {
    if n > 0 {
      DueIncreases(contexts, n - 1);
      DueFacts(contexts, n - 1);
      IncreasingAppend(Due(contexts, n - 1), if n - 1 in contexts && contexts[n - 1].ttl == 1 then [n - 1] else []);
    }
  }

  lemma {:induction false} FinishAllCallsKept(c: Client, ts: seq<Ticket>, outcome: Outcome)
    requires Distinct(ts)
    ensures FinishAll(c, ts, outcome).calls == c.calls + With(Kept(ts, c.contexts.Keys), outcome)
    decreases |ts|
  {
    if ts != [] {
      var d, rest := Finish(c, ts[0], outcome), ts[1..];
      FinishAllCallsKept(d, rest, outcome);
      assert ts[0] !in rest;
      SameKept(rest, c.contexts.Keys, d.contexts.Keys);
      var more := Kept(rest, c.contexts.Keys);
      if ts[0] in c.contexts {
        assert With([ts[0]] + more, outcome) == [(ts[0], outcome)] + With(more, outcome);
        assert c.calls + [(ts[0], outcome)] + With(more, outcome) == c.calls + ([(ts[0], outcome)] + With(more, outcome));
      } else {
        assert [] + more == more;
      }
    }
  }

  lemma {:induction false} SameKept(ts: seq<Ticket>, a: set<Ticket>, b: set<Ticket>)
    requires forall t | t in ts :: t in a <==> t in b
    ensures Kept(ts, a) == Kept(ts, b)
  {
    if ts != [] {
      SameKept(ts[1..], a, b);
    }
  }

  lemma {:induction false} KeptFacts(ts: seq<Ticket>, known: set<Ticket>)
    ensures forall t :: t in Kept(ts, known) <==> t in ts && t in known
  {
    if ts != [] {
      KeptFacts(ts[1..], known);
      assert ts == [ts[0]] + ts[1..];
    }
  }

  predicate Increasing(ts: seq<Ticket>) {
    forall i, j | 0 <= i < j < |ts| :: ts[i] < ts[j]
  }

  lemma {:induction false} KeptIncreases(ts: seq<Ticket>, known: set<Ticket>)
    requires Increasing(ts)
    ensures Increasing(Kept(ts, known))
  {
    if ts != [] {
      var rest := ts[1..];
      KeptIncreases(rest, known);
      KeptFacts(rest, known);
      IncreasingAppend(if ts[0] in known then [ts[0]] else [], Kept(rest, known));
    }
  }

  lemma IncreasingAppend(a: seq<Ticket>, b: seq<Ticket>)
    requires Increasing(a) && Increasing(b) && forall t, u | t in a && u in b :: t < u
    ensures Increasing(a + b)
  {
    forall i, j | 0 <= i < j < |a + b| ensures (a + b)[i] < (a + b)[j] {
      if i < |a| <= j {
        assert a[i] in a && b[j - |a|] in b;
      }
    }
  }

  // ---------- timeouts ----------

  /** From the outside: an open command with `n` ticks left is timed out by the n-th tick
      from now and by no other. */
  lemma {:induction false} TimeLeft(c: Client, es: seq<Event>, t: Ticket)
    requires Sound(c) && AllEnabled(c, es) && t in c.contexts && Cancel(t) !in es
    ensures c.calls <= Run(c, es).calls
    ensures c.contexts[t].ttl > TicksIn(es) || c.contexts[t].ttl < 0 ==> Without(c.calls, Run(c, es).calls, (t, TimedOut))
    ensures 0 < c.contexts[t].ttl <= TicksIn(es) ==> t !in Run(c, es).contexts
    decreases |es|
  {
    if es != [] {
      hide Step, Sound, Enabled, Runs, Without;
      var d, end := Step(c, es[0]), Run(c, es);
      StepKeepsSound(c, es[0]);
      StepOnTicket(c, es[0], t);
      if t in d.contexts {
        TimeLeft(d, es[1..], t);
      } else {
        SoundKnows(c, t);
        NextGrows(c, es[0]);
        NeverTimedOut(d, es[1..], t);
      }
      if c.contexts[t].ttl > TicksIn(es) || c.contexts[t].ttl < 0 {
        WithoutTwice(c.calls, d.calls, end.calls, (t, TimedOut));
      }
    }
  }

  lemma NeverTimedOut(c: Client, es: seq<Event>, t: Ticket)
    requires Sound(c) && AllEnabled(c, es) && t < c.next && t !in c.contexts
    ensures c.calls <= Run(c, es).calls && t !in Run(c, es).contexts && Without(c.calls, Run(c, es).calls, (t, TimedOut))
  {
    hide Sound, Step, Enabled;
    NeverAgain(c, es, t);
  }

  /** One event and one open ticket. */
  lemma StepOnTicket(c: Client, e: Event, t: Ticket)
    requires Sound(c) && Enabled(c, e) && t in c.contexts && e != Cancel(t)
    ensures var d := Step(c, e); var ttl := c.contexts[t].ttl;
            && c.calls <= d.calls
            && (Without(c.calls, d.calls, (t, TimedOut)) <==> !(e.Tick? && ttl == 1))
            && (e.Tick? && ttl == 1 ==> t !in d.contexts)
            && (t in d.contexts ==> d.contexts[t].ttl == if e.Tick? && ttl > 0 then ttl - 1 else ttl)
  {
    hide Sound, Step, Due, FinishAll;
    HandlersRun(c, e);
    SoundKnows(c, t);
    if t in Step(c, e).contexts {
      KeptByStep(c, e, t);
    }
    if e.Tick? {
      TickFailsTheDue(c);
      TickIsTicked(c);
      DueFacts(c.contexts, c.next);
      var more := Step(c, e).calls[|c.calls|..];
      var due :| more == With(due, TimedOut) && forall u :: u in due <==> u in c.contexts && c.contexts[u].ttl == 1;
      if t in due {
        var i :| 0 <= i < |due| && due[i] == t;
        assert more[i] == (t, TimedOut);
      }
    }
  }

  /** A command with a timeout of n > 0 is not timed out before the n-th tick after it was
      issued, has been answered once that tick is done, and is timed out by that tick if
      it was still open; one without a timeout never is. */
  lemma TimesOutAtItsTick(c: Client, n: int, es: seq<Event>)
    requires Sound(c) && AllEnabled(c, [Command(n)] + es) && Cancel(c.next) !in es
    ensures var t, end := c.next, Run(c, [Command(n)] + es);
            && (n <= 0 || TicksIn(es) < n ==> (t, TimedOut) !in end.calls)
            && (0 < n <= TicksIn(es) ==> Answered(end, t))
    ensures es != [] ==>
              var before := [Command(n)] + es[..|es| - 1];
              0 < n == TicksIn(es) && es[|es| - 1] == Tick && !Answered(Run(c, before), c.next) ==>
                (c.next, TimedOut) in Run(c, [Command(n)] + es).calls
  {
    hide Sound, Step, Enabled;
    var t, d := c.next, Step(c, Command(n));
    First(c, Command(n), es);
    AnyCommand(c, n);
    StepKeepsSound(c, Command(n));
    Issued(c, n);
    TimeLeft(d, es, t);
    NoneForgotten(d, es, t);
    var end := Run(d, es);
    assert end.calls == d.calls + end.calls[|d.calls|..];
    if 0 < n == TicksIn(es) && es[|es| - 1] == Tick {
      var before := es[..|es| - 1];
      assert es == before + [Tick];
      First(c, Command(n), before);
      if !Answered(Run(d, before), t) {
        LastTick(d, before, t);
      }
    }
  }

  lemma First(c: Client, e: Event, es: seq<Event>)
    ensures Run(c, [e] + es) == Run(Step(c, e), es)
    ensures AllEnabled(c, [e] + es) <==> Enabled(c, e) && AllEnabled(Step(c, e), es)
  {
    assert ([e] + es)[1..] == es;
  }

  lemma AnyCommand(c: Client, n: int)
    ensures Enabled(c, Command(n))
  {
  }

  lemma Issued(c: Client, n: int)
    requires Sound(c)
    ensures var d := Step(c, Command(n));
            && d.calls == c.calls && (forall o :: (c.next, o) !in c.calls)
            && c.next in d.contexts && d.contexts[c.next].ttl == if n > 0 then n else -1
  {
    forall i | 0 <= i < |c.calls| ensures c.calls[i].0 != c.next {
      assert Called(c)[i] in Called(c);
    }
  }

  /** The tick that completes a timeout, on a command still unanswered. */
  lemma LastTick(d: Client, before: seq<Event>, t: Ticket)
    requires Sound(d) && AllEnabled(d, before + [Tick]) && t in d.contexts && Cancel(t) !in before
    requires d.contexts[t].ttl == TicksIn(before + [Tick]) && !Answered(Run(d, before), t)
    ensures (t, TimedOut) in Run(d, before + [Tick]).calls
  {
    var last := Run(d, before);
    RunConcat(d, before, [Tick]);
    AlwaysSound(d, before);
    NoneForgotten(d, before, t);
    TicksConcat(before, [Tick]);
    DeadlineStands(d, before, t);
    StepOnTicket(last, Tick, t);
    First(last, Tick, []);
    hide Sound, Step, Enabled;
    assert [Tick] + [] == [Tick] && TicksIn([Tick]) == 1;
  }

  lemma {:induction false} TicksConcat(a: seq<Event>, b: seq<Event>)
    ensures TicksIn(a + b) == TicksIn(a) + TicksIn(b)
  {
    if a == [] {
      assert a + b == b;
    } else {
      assert (a + b)[1..] == a[1..] + b;
      TicksConcat(a[1..], b);
    }
  }

  // ---------- reservations ----------

  /** The reservations are always the open tickets among those there were, in order, and
      a ticket issued without a connection. */
  lemma ReservationsStay(c: Client, e: Event)
    requires Sound(c) && Enabled(c, e)
    ensures var d := Step(c, e);
            d.reserved == Kept(c.reserved, d.contexts.Keys)
                          + if e.Command? && c.link != Connected then [c.next] else []
  {
    ReservedAreOpen(c);
    match e
    case Command(n) => AllKept(c.reserved, Step(c, e).contexts.Keys); hide Sound, Kept;
    case Cancel(t) => DropIsKept(c.reserved, c.contexts.Keys, t); hide Sound, Kept, DropFirst;
    case Close => FinishAllReserved(c.(inflight := []), c.inflight, Failed); hide Sound, Kept, FinishAll;
    case Tick => FinishAllReserved(CountedDown(c), Due(c.contexts, c.next), TimedOut); hide Sound, Kept, FinishAll, Due;
    case Reply => FinishReserved(c.(inflight := c.inflight[1..]), c.inflight[0], Replied); hide Sound, Kept, Finish;
    case _ => AllKept(c.reserved, c.contexts.Keys); hide Sound, Kept;
  }

  lemma ReservedAreOpen(c: Client)
    requires Sound(c)
    ensures Distinct(c.reserved) && forall t | t in c.reserved :: t in c.contexts
  {
  }

  lemma {:induction false} AllKept(ts: seq<Ticket>, known: set<Ticket>)
    requires forall t | t in ts :: t in known
    ensures Kept(ts, known) == ts
  {
    if ts != [] {
      AllKept(ts[1..], known);
    }
  }

  lemma {:induction false} DropIsKept(ts: seq<Ticket>, known: set<Ticket>, t: Ticket)
    requires Distinct(ts) && forall u | u in ts :: u in known
    ensures DropFirst(ts, t) == Kept(ts, known - {t})
  {
    if ts != [] {
      var rest := ts[1..];
      if ts[0] == t {
        assert t !in rest;
        AllKept(rest, known - {t});
      } else {
        DropIsKept(rest, known, t);
      }
    }
  }

  lemma {:induction false} KeptTwice(ts: seq<Ticket>, a: set<Ticket>, b: set<Ticket>)
    requires b <= a
    ensures Kept(Kept(ts, a), b) == Kept(ts, b)
  {
    if ts != [] {
      KeptTwice(ts[1..], a, b);
      if ts[0] in a {
        assert ([ts[0]] + Kept(ts[1..], a))[1..] == Kept(ts[1..], a);
      } else {
        assert [] + Kept(ts[1..], a) == Kept(ts[1..], a);
      }
    }
  }

  lemma FinishReserved(c: Client, t: Ticket, outcome: Outcome)
    requires Distinct(c.reserved) && forall u | u in c.reserved :: u in c.contexts
    ensures var d := Finish(c, t, outcome);
            d.reserved == Kept(c.reserved, d.contexts.Keys) && Distinct(d.reserved) && forall u | u in d.reserved :: u in d.contexts
  {
    DropFirstDrops(c.reserved, t);
    DropIsKept(c.reserved, c.contexts.Keys, t);
    AllKept(c.reserved, c.contexts.Keys);
    assert (c.contexts - {t}).Keys == c.contexts.Keys - {t};
    hide Kept, DropFirst, Distinct;
  }

  lemma {:induction false} FinishAllReserved(c: Client, ts: seq<Ticket>, outcome: Outcome)
    requires Distinct(c.reserved) && forall u | u in c.reserved :: u in c.contexts
    ensures var d := FinishAll(c, ts, outcome);
            d.reserved == Kept(c.reserved, d.contexts.Keys) && d.contexts.Keys <= c.contexts.Keys
    decreases |ts|
  {
    if ts == [] {
      AllKept(c.reserved, c.contexts.Keys);
    } else {
      var d := Finish(c, ts[0], outcome);
      FinishReserved(c, ts[0], outcome);
      FinishAllReserved(d, ts[1..], outcome);
      KeptTwice(c.reserved, d.contexts.Keys, FinishAll(c, ts, outcome).contexts.Keys);
      hide Kept, Distinct;
    }
  }

  // ---------- order over whole runs ----------

  /** The commands whose reply has come, or will not come any more. */
  function Acknowledged(c: Client): seq<Ticket>
    requires |c.inflight| <= |c.sent|
  {
    c.sent[..|c.sent| - |c.inflight|]
  }

  /** Commands are sent in the order they were issued, and those answered by the
      connection are answered in that order. */
  predicate Ordered(c: Client) {
    && |c.inflight| <= |c.sent|
    && Increasing(c.sent) && Increasing(c.reserved)
    && (c.link != Connected ==> forall t, u | t in c.sent && u in c.reserved :: t < u)
    && InTurn(c.calls, Acknowledged(c))
  }

  predicate InTurn(calls: seq<(Ticket, Outcome)>, done: seq<Ticket>) {
    && (forall i | 0 <= i < |calls| && calls[i].1 != TimedOut :: calls[i].0 in done)
    && forall i, j | 0 <= i < j < |calls| && calls[i].1 != TimedOut && calls[j].1 != TimedOut :: calls[i].0 < calls[j].0
  }

  lemma MoreInTurn(calls: seq<(Ticket, Outcome)>, done: seq<Ticket>, ts: seq<Ticket>, outcome: Outcome, done': seq<Ticket>)
    requires InTurn(calls, done) && done <= done' && Increasing(done')
    requires outcome == TimedOut || (Increasing(ts) && forall t | t in ts :: t in done'[|done|..])
    ensures InTurn(calls + With(ts, outcome), done')
  {
    var all := calls + With(ts, outcome);
    forall t | t in done ensures t in done' {
      var k :| 0 <= k < |done| && done[k] == t;
      assert done'[k] == t;
    }
    if outcome != TimedOut {
      forall i | |calls| <= i < |all| ensures all[i].0 in done' && forall t | t in done :: t < all[i].0 {
        assert ts[i - |calls|] in done'[|done|..];
        var k :| |done| <= k < |done'| && done'[k] == all[i].0;
        forall t | t in done ensures t < all[i].0 {
          var j :| 0 <= j < |done| && done[j] == t;
          assert done'[j] == t;
        }
      }
    }
  }

  lemma NoMoreInTurn(calls: seq<(Ticket, Outcome)>, done: seq<Ticket>)
    ensures InTurn(calls + [], done) == InTurn(calls, done)
  {
    assert calls + [] == calls;
  }

  lemma OrderedStep(c: Client, e: Event)
    requires Sound(c) && Enabled(c, e) && Ordered(c)
    ensures Ordered(Step(c, e))
  {
    Effects(c, e);
    ReservationsStay(c, e);
    SendingOrder(c, e);
    HandlersRun(c, e);
    AnsweringOrder(c, e);
    hide Sound, Step, Increasing, InTurn, Runs, Kept;
  }

  /** What the invariant knows about the queues of a sound client. */
  lemma Queues(c: Client)
    requires Sound(c)
    ensures |c.inflight| <= |c.sent| && c.sent == c.sent[..|c.sent| - |c.inflight|] + c.inflight
    ensures c.link != Connected ==> c.inflight == []
    ensures forall t | t in c.sent || t in c.reserved :: t < c.next
    ensures c.link == Connected ==> forall t | t in c.reserved :: t in c.inflight
    ensures forall t | t in c.contexts :: t in c.reserved || t in c.inflight
  {
  }

  lemma SendingOrder(c: Client, e: Event)
    requires Sound(c) && Enabled(c, e) && Ordered(c)
    ensures var d := Step(c, e);
            && |d.inflight| <= |d.sent| && Increasing(d.sent) && Increasing(d.reserved)
            && (d.link != Connected ==> forall t, u | t in d.sent && u in d.reserved :: t < u)
  {
    hide Sound, Step, Kept, InTurn, Increasing;
    var d := Step(c, e);
    StepKeepsSound(c, e);
    Queues(d);
    ReservedBehindSent(c, e);
    Effects(c, e);
    ReservationsStay(c, e);
    Queues(c);
    var kept := Kept(c.reserved, d.contexts.Keys);
    KeptFacts(c.reserved, d.contexts.Keys);
    KeptIncreases(c.reserved, d.contexts.Keys);
    IncreasingAppend(kept, if e.Command? && c.link != Connected then [c.next] else []);
    IncreasingAppend(c.sent, if e.ConnectUp? then c.reserved else if e.Command? && c.link == Connected then [c.next] else []);
  }

  lemma ReservedBehindSent(c: Client, e: Event)
    requires Sound(c) && Enabled(c, e) && Ordered(c)
    ensures var d := Step(c, e); d.link != Connected ==> forall t, u | t in d.sent && u in d.reserved :: t < u
  {
    hide Sound, Step, Kept, InTurn, Increasing;
    var d := Step(c, e);
    Effects(c, e);
    ReservationsStay(c, e);
    Queues(c);
    KeptFacts(c.reserved, d.contexts.Keys);
    if e == Close {
      CloseFailsInFlight(c);
      ReservedAreOpen(c);
      forall u | u in d.reserved ensures c.link != Connected {
        assert u in c.reserved && u in d.contexts;
      }
    }
  }

  lemma AnsweringOrder(c: Client, e: Event)
    requires Sound(c) && Enabled(c, e) && Ordered(c)
    ensures var d := Step(c, e); |d.inflight| <= |d.sent| && InTurn(d.calls, Acknowledged(d))
  {
    var d := Step(c, e);
    hide Sound, Step, InTurn, Increasing;
    Effects(c, e);
    Queues(c);
    HandlersRun(c, e);
    var more := d.calls[|c.calls|..];
    assert d.calls == c.calls + more;
    if e == Reply || e == Close {
      var lost := if e == Reply then [c.inflight[0]] else c.inflight;
      AnswersFollow(c, lost, if e == Reply then Replied else Failed);
      assert Acknowledged(c) + lost == Acknowledged(d);
    } else if e == Tick {
      assert Acknowledged(c) == Acknowledged(d);
      var due :| more == With(due, TimedOut);
      Prefix(c);
      MoreInTurn(c.calls, Acknowledged(c), due, TimedOut, Acknowledged(d));
    } else {
      NoMoreInTurn(c.calls, Acknowledged(c));
      assert Acknowledged(c) == Acknowledged(d);
    }
  }

  lemma Prefix(c: Client)
    requires |c.inflight| <= |c.sent| && Increasing(c.sent)
    ensures Increasing(Acknowledged(c)) && Increasing(c.sent[|c.sent| - |c.inflight|..])
  {
  }

  /** Handlers run by the connection, for the first commands in flight. */
  lemma AnswersFollow(c: Client, first: seq<Ticket>, outcome: Outcome)
    requires Sound(c) && Ordered(c) && first <= c.inflight
    ensures InTurn(c.calls + With(Kept(first, c.contexts.Keys), outcome), Acknowledged(c) + first)
  {
    Queues(c);
    var done := Acknowledged(c);
    var done' := done + first;
    assert done' == c.sent[..|done'|] && first == c.sent[|done|..|done'|];
    KeptFacts(first, c.contexts.Keys);
    KeptIncreases(first, c.contexts.Keys);
    MoreInTurn(c.calls, done, Kept(first, c.contexts.Keys), outcome, done');
  }

  /** Over any run from the start, the tickets sent are in the order they were given out,
      and so are the tickets answered by the connection. */
  lemma SentAndAnsweredInOrder(es: seq<Event>)
    requires AllEnabled(Initial(), es)
    ensures var c := Run(Initial(), es);
            && Increasing(c.sent)
            && forall i, j | 0 <= i < j < |c.calls| && c.calls[i].1 != TimedOut && c.calls[j].1 != TimedOut ::
                 c.calls[i].0 < c.calls[j].0
  {
    InitialIsSound();
    AlwaysOrdered(Initial(), es);
  }

  lemma {:induction false} AlwaysOrdered(c: Client, es: seq<Event>)
    requires Sound(c) && Ordered(c) && AllEnabled(c, es)
    ensures Ordered(Run(c, es))
    decreases |es|
  {
    if es != [] {
      hide Sound, Ordered, Step, Enabled;
      StepKeepsSound(c, es[0]);
      OrderedStep(c, es[0]);
      AlwaysOrdered(Step(c, es[0]), es[1..]);
    }
  }

  /** Nothing is held back: while there is a connection, every ticket given out has been
      sent, unless it was cancelled or timed out before; one that is still open is among
      those a reply is owed for. */
  lemma EveryCommandIsSent(es: seq<Event>, t: Ticket)
    requires AllEnabled(Initial(), es) && Cancel(t) !in es
    requires var c := Run(Initial(), es); c.link == Connected && t < c.next
    ensures var c := Run(Initial(), es);
            && (t in c.contexts ==> t in c.inflight)
            && ((t, TimedOut) !in c.calls ==> t in c.sent)
  {
    InitialIsSound();
    AlwaysSound(Initial(), es);
    AlwaysOrdered(Initial(), es);
    NoTicketLost(Initial(), es, t);
    var c := Run(Initial(), es);
    Queues(c);
    hide Sound;
    if Answered(c, t) {
      var i :| 0 <= i < |c.calls| && c.calls[i].0 == t;
      assert c.calls[i] in c.calls && c.calls[i] == (t, c.calls[i].1);
    }
  }

  lemma {:induction false} NoTicketLost(c: Client, es: seq<Event>, t: Ticket)
    requires Sound(c) && AllEnabled(c, es) && Cancel(t) !in es && t < Run(c, es).next
    requires t < c.next ==> t in c.contexts || Answered(c, t)
    ensures t in Run(c, es).contexts || Answered(Run(c, es), t)
    decreases |es|
  {
    if es != [] {
      var d := Step(c, es[0]);
      StepKeepsSound(c, es[0]);
      Effects(c, es[0]);
      HandlersRun(c, es[0]);
      if t in c.contexts {
        StepAnswersOrKeeps(c, es[0], t);
      }
      StillAnswered(c, d, t);
      hide Sound, Enabled, Runs, Answered;
      if t == c.next && es[0].Command? {
        Issued(c, es[0].timeout);
      }
      hide Step;
      NoTicketLost(d, es[1..], t);
    }
  }

  lemma StillAnswered(c: Client, d: Client, t: Ticket)
    requires c.calls <= d.calls
    ensures Answered(c, t) ==> Answered(d, t)
  {
    if i: nat :| i < |c.calls| && c.calls[i].0 == t {
      assert d.calls[i].0 == t;
    }
  }
}
