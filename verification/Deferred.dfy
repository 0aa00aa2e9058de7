/** Deferred calls (IOServiceImpl.h, DeferredCallerImpl.h): any thread posts a call
    under a lock and then triggers an event; the loop thread runs all posted calls
    under the same lock, which it may take again when a call posts more calls. */
module Deferred {
  type Call = nat
  type Thread = nat

  /** Where a posting thread is inside `deferredCall`. */
  datatype Phase = Locked(call: Call) | Pushed | Unlocked

  /** Where the loop thread is: `Called` stands for `fireDeferredEvent` waiting for the
      lock, `Running` for a call in progress, `Cleared` for the end of the loop. */
  datatype Loop = Sleeping | Called | Firing(i: nat) | Running(i: nat) | Cleared

  datatype Owner = Nobody | LoopThread | Poster(p: Thread)

  /** `woken` is a pending activation of the event; `posted` and `executed` record the
      order of `push_back`s and of calls. */
  datatype World = World(queue: seq<Call>, lock: Owner, loop: Loop, woken: bool, posters: map<Thread, Phase>,
                         posted: seq<Call>, executed: seq<Call>)

  datatype Step =
    | Lock(p: Thread, call: Call)
    | Push(p: Thread)
    | Unlock(p: Thread)
    | Trigger(p: Thread)
    | Wake
    | TakeLock
    | StartCall
    | PostFromCall(call: Call)
    | EndCall
    | Clear
    | Release

  /** What the scheduler may do next. */
  predicate Enabled(w: World, s: Step) {
    match s
    case Lock(p, _) => w.lock == Nobody && p !in w.posters
    case Push(p) => p in w.posters && w.posters[p].Locked?
    case Unlock(p) => p in w.posters && w.posters[p] == Pushed
    case Trigger(p) => p in w.posters && w.posters[p] == Unlocked
    case Wake => w.woken && w.loop == Sleeping
    case TakeLock => w.loop == Called && w.lock == Nobody
    case StartCall => w.loop.Firing? && w.loop.i < |w.queue|
    case PostFromCall(_) => w.loop.Running?
    case EndCall => w.loop.Running?
    case Clear => w.loop.Firing? && w.loop.i >= |w.queue|
    case Release => w.loop == Cleared
  }

  function Next(w: World, s: Step): World
    requires Enabled(w, s)
  {
    match s
    case Lock(p, call) => w.(lock := Poster(p), posters := w.posters[p := Locked(call)])
    case Push(p) =>
      var call := w.posters[p].call;
      w.(queue := w.queue + [call], posted := w.posted + [call], posters := w.posters[p := Pushed])
    case Unlock(p) => w.(lock := Nobody, posters := w.posters[p := Unlocked])
    case Trigger(p) => w.(woken := true, posters := w.posters - {p})
    case Wake => w.(woken := false, loop := Called)
    case TakeLock => w.(lock := LoopThread, loop := Firing(0))
    case StartCall => w.(executed := w.executed + [w.queue[w.loop.i]], loop := Running(w.loop.i))
    case PostFromCall(call) => w.(queue := w.queue + [call], posted := w.posted + [call], woken := true)
    case EndCall => w.(loop := Firing(w.loop.i + 1))
    case Clear => w.(queue := [], loop := Cleared)
    case Release => w.(lock := Nobody, loop := Sleeping)
  }

  function Initial(): World {
    World([], Nobody, Sleeping, false, map[], [], [])
  }

  predicate AllEnabled(w: World, ss: seq<Step>)
    decreases |ss|
  {
    ss == [] || (Enabled(w, ss[0]) && AllEnabled(Next(w, ss[0]), ss[1..]))
  }

  function Run(w: World, ss: seq<Step>): World
    requires AllEnabled(w, ss)
    decreases |ss|
  {
    if ss == [] then w else Run(Next(w, ss[0]), ss[1..])
  }

  // ---------- what every interleaving keeps ----------

  /** One owner at a time: the lock is held exactly by the thread inside it. */
  predicate Exclusive(w: World) {
    && (w.lock == LoopThread <==> w.loop.Firing? || w.loop.Running? || w.loop == Cleared)
    && (forall p | p in w.posters :: w.lock == Poster(p) <==> w.posters[p] != Unlocked)
    && (w.lock.Poster? ==> w.lock.p in w.posters)
  }

  /** The calls still to run are the end of the queue, in the order they were posted. */
  function Waiting(w: World): seq<Call>
    requires w.loop.Firing? ==> w.loop.i <= |w.queue|
    requires w.loop.Running? ==> w.loop.i < |w.queue|
  {
    match w.loop
    case Firing(i) => w.queue[i..]
    case Running(i) => w.queue[i + 1..]
    case _ => w.queue
  }

  predicate InOrder(w: World) {
    && (w.loop.Firing? ==> w.loop.i <= |w.queue|)
    && (w.loop.Running? ==> w.loop.i < |w.queue|)
    && (w.loop == Cleared ==> w.queue == [])
    && w.posted == w.executed + Waiting(w)
  }

  /** A queue that is not empty never goes unnoticed: a wake-up is pending, the loop is
      on its way or at work, or a poster has yet to trigger. */
  ghost predicate Noticed(w: World) {
    w.queue != [] ==>
      w.woken || w.loop != Sleeping || exists p | p in w.posters :: w.posters[p] == Pushed || w.posters[p] == Unlocked
  }

  ghost predicate Sound(w: World) {
    Exclusive(w) && InOrder(w) && Noticed(w)
  }

  lemma ExclusiveStep(w: World, s: Step)
    requires Exclusive(w) && Enabled(w, s)
    ensures Exclusive(Next(w, s))
  {
  }

  lemma InOrderStep(w: World, s: Step)
    requires Exclusive(w) && InOrder(w) && Enabled(w, s)
    ensures InOrder(Next(w, s))
  {
    if s.Push? {
      AppendedInOrder(w, s, w.posters[s.p].call);
    } else if s.PostFromCall? {
      AppendedInOrder(w, s, s.call);
    } else if s.StartCall? {
      StartInOrder(w);
    } else if s.Clear? || s.EndCall? || s.Wake? || s.TakeLock? || s.Release? {
      LoopInOrder(w, s);
    } else {
      hide Waiting;
      SameWaiting(w, Next(w, s));
    }
  }

  lemma SameWaiting(w: World, v: World)
    requires InOrder(w) && v.loop == w.loop && v.queue == w.queue
    ensures Waiting(v) == Waiting(w)
  {
  }

  lemma AppendedInOrder(w: World, s: Step, call: Call)
    requires Exclusive(w) && InOrder(w) && Enabled(w, s)
    requires s.PostFromCall? || s.Push?
    requires call == if s.Push? then w.posters[s.p].call else s.call
    ensures InOrder(Next(w, s))
  {
    var v := Next(w, s);
    var more := w.queue + [call];
    assert v.queue == more && v.loop == w.loop && w.loop != Cleared;
    if w.loop.Running? {
      assert more[w.loop.i + 1..] == w.queue[w.loop.i + 1..] + [call];
    }
    assert Waiting(v) == Waiting(w) + [call];
    assert w.executed + Waiting(w) + [call] == w.executed + (Waiting(w) + [call]);
  }

  lemma StartInOrder(w: World)
    requires InOrder(w) && Enabled(w, StartCall)
    ensures InOrder(Next(w, StartCall))
  {
    var q, i := w.queue, w.loop.i;
    assert q[i..] == [q[i]] + q[i + 1..];
    assert w.executed + ([q[i]] + q[i + 1..]) == w.executed + [q[i]] + q[i + 1..];
  }

  /** The loop moves on without starting a call. */
  lemma LoopInOrder(w: World, s: Step)
    requires InOrder(w) && Enabled(w, s) && (s.Clear? || s.EndCall? || s.Wake? || s.TakeLock? || s.Release?)
    ensures InOrder(Next(w, s))
  {
    if s.Clear? {
      assert w.queue[w.loop.i..] == [];
    } else if s.TakeLock? {
      assert w.queue[0..] == w.queue;
    }
    assert Waiting(Next(w, s)) == Waiting(w);
  }

  lemma NoticedStep(w: World, s: Step)
    requires Exclusive(w) && InOrder(w) && Noticed(w) && Enabled(w, s)
    ensures Noticed(Next(w, s))
  {
    var v := Next(w, s);
    match s
    case Push(p) => assert v.posters[p] == Pushed;
    case Unlock(p) => assert v.posters[p] == Unlocked;
    case Lock(p, _) =>
      if w.queue != [] && !w.woken && w.loop == Sleeping {
        var q :| q in w.posters && (w.posters[q] == Pushed || w.posters[q] == Unlocked);
        assert v.posters[q] == w.posters[q];
      }
    case _ =>
  }

  lemma {:induction false} AlwaysSound(w: World, ss: seq<Step>)
    requires Sound(w) && AllEnabled(w, ss)
    ensures Sound(Run(w, ss))
    decreases |ss|
  {
    if ss != [] {
      ExclusiveStep(w, ss[0]);
      InOrderStep(w, ss[0]);
      NoticedStep(w, ss[0]);
      AlwaysSound(Next(w, ss[0]), ss[1..]);
    }
  }

  /** In every interleaving the calls run one after the other in the order they were
      posted, each at most once. */
  lemma ExecutedInPostOrder(ss: seq<Step>)
    requires AllEnabled(Initial(), ss)
    ensures var w := Run(Initial(), ss); w.executed <= w.posted
  {
    AlwaysSound(Initial(), ss);
  }

  /** Nothing can happen any more without a new post. */
  ghost predicate Quiet(w: World) {
    forall s: Step :: !s.Lock? && !s.PostFromCall? ==> !Enabled(w, s)
  }

  /** When all threads have come to rest every posted call has run. */
  lemma QuietMeansDone(ss: seq<Step>)
    requires AllEnabled(Initial(), ss) && Quiet(Run(Initial(), ss))
    ensures var w := Run(Initial(), ss); w.executed == w.posted
  {
    AlwaysSound(Initial(), ss);
    RestIsDone(Run(Initial(), ss));
  }

  lemma PosterCanGoOn(w: World, p: Thread)
    requires p in w.posters
    ensures Enabled(w, Push(p)) || Enabled(w, Unlock(p)) || Enabled(w, Trigger(p))
  {
  }

  lemma QuietPosters(w: World, p: Thread)
    requires Quiet(w)
    ensures p !in w.posters
  {
    hide Enabled;
    if p in w.posters {
      PosterCanGoOn(w, p);
    }
  }

  lemma QuietLoop(w: World)
    requires Quiet(w)
    ensures !Enabled(w, Wake) && !Enabled(w, TakeLock) && !Enabled(w, StartCall) && !Enabled(w, EndCall)
    ensures !Enabled(w, Clear) && !Enabled(w, Release)
  {
    hide Enabled;
  }

  lemma RestingLoop(w: World)
    requires Sound(w) && Quiet(w)
    ensures w.loop == Sleeping && !w.woken
  {
    QuietLoop(w);
    if w.lock.Poster? {
      QuietPosters(w, w.lock.p);
    }
    hide Quiet, InOrder, Noticed;
  }

  lemma RestIsDone(w: World)
    requires Sound(w) && Quiet(w)
    ensures w.executed == w.posted
  {
    RestingLoop(w);
    forall p: Thread ensures p !in w.posters {
      QuietPosters(w, p);
    }
    hide Quiet;
    assert w.executed + [] == w.executed;
  }

  // ---------- every schedule comes to rest ----------

  predicate Posts(s: Step) {
    s.Lock? || s.PostFromCall?
  }

  function NotPushed(w: World): set<Thread> {
    set p | p in w.posters && w.posters[p].Locked?
  }

  function NotUnlocked(w: World): set<Thread> {
    set p | p in w.posters && w.posters[p] == Pushed
  }

  function Stage(loop: Loop): nat {
    match loop
    case Called => 3
    case Firing(_) => 2
    case Running(_) => 2
    case Cleared => 1
    case Sleeping => 0
  }

  /** Steps left in a pass over the queue. */
  function Remaining(w: World): nat
    requires InOrder(w)
  {
    match w.loop
    case Firing(i) => 2 * (|w.queue| - i)
    case Running(i) => 2 * (|w.queue| - i) - 1
    case _ => 0
  }

  /** Without new posts every step brings the threads closer to rest. */
  predicate Closer(v: World, w: World)
    requires InOrder(v) && InOrder(w)
  {
    var pv, pw := v.posters.Keys, w.posters.Keys;
    if pv != pw then pv < pw
    else if NotPushed(v) != NotPushed(w) then NotPushed(v) < NotPushed(w)
    else if NotUnlocked(v) != NotUnlocked(w) then NotUnlocked(v) < NotUnlocked(w)
    else if v.woken != w.woken then w.woken
    else if Stage(v.loop) != Stage(w.loop) then Stage(v.loop) < Stage(w.loop)
    else Remaining(v) < Remaining(w)
  }

  lemma StepIsCloser(w: World, s: Step)
    requires Exclusive(w) && InOrder(w) && Enabled(w, s) && !Posts(s)
    ensures InOrder(Next(w, s)) && Closer(Next(w, s), w)
  {
    InOrderStep(w, s);
    var v := Next(w, s);
    if s.Push? {
      assert v.posters.Keys == w.posters.Keys && NotPushed(v) == NotPushed(w) - {s.p} && s.p in NotPushed(w);
    } else if s.Unlock? {
      assert v.posters.Keys == w.posters.Keys && NotPushed(v) == NotPushed(w);
      assert NotUnlocked(v) == NotUnlocked(w) - {s.p} && s.p in NotUnlocked(w);
    } else if s.Trigger? {
      assert v.posters.Keys == w.posters.Keys - {s.p} && s.p in w.posters.Keys;
    } else {
      assert v.posters == w.posters && NotPushed(v) == NotPushed(w) && NotUnlocked(v) == NotUnlocked(w);
    }
  }

  /** A schedule that always takes some step that is not a new post. */
  ghost predicate Schedules(pick: World -> Step) {
    forall w: World :: !Quiet(w) ==> Enabled(w, pick(w)) && !Posts(pick(w))
  }

  /** `ss` are the steps the schedule takes from `w` on. */
  predicate Follows(w: World, ss: seq<Step>, pick: World -> Step)
    decreases |ss|
  {
    ss == [] || (ss[0] == pick(w) && Enabled(w, ss[0]) && Follows(Next(w, ss[0]), ss[1..], pick))
  }

  /** Once posting stops, every schedule brings all threads to rest by its own steps,
      and then all calls ever posted have run, in order. */
  lemma {:induction false} EveryScheduleFinishes(w: World, pick: World -> Step) returns (ss: seq<Step>)
    requires Sound(w) && Schedules(pick)
    ensures Follows(w, ss, pick)
    ensures AllEnabled(w, ss) && (forall i | 0 <= i < |ss| :: !Posts(ss[i]))
    ensures var end := Run(w, ss); Quiet(end) && w.posted <= end.posted && end.executed == end.posted
    decreases w.posters.Keys, NotPushed(w), NotUnlocked(w), w.woken, Stage(w.loop), Remaining(w)
  {
    if Quiet(w) {
      ss := [];
      RestIsDone(w);
    } else {
      var s := pick(w);
      ExclusiveStep(w, s);
      InOrderStep(w, s);
      NoticedStep(w, s);
      StepIsCloser(w, s);
      var rest := EveryScheduleFinishes(Next(w, s), pick);
      ss := [s] + rest;
      assert ss[1..] == rest;
    }
  }

  /** Whoever adds a call wakes the loop: a poster once it has let go of the lock, a call
      that runs at once. Nothing but the loop itself, waking, takes a wake-up away. */
  lemma PostersWake(w: World, s: Step)
    requires Enabled(w, s)
    ensures s.Trigger? || s.PostFromCall? ==> Next(w, s).woken
    ensures w.woken && !Next(w, s).woken ==> s == Wake && Next(w, s).loop == Called
    ensures !w.woken && Next(w, s).woken ==> s.Trigger? || s.PostFromCall?
  {
  }
}
