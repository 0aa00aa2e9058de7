/** The allocator of mempool++/mempool.h: pools of equal slots, the chain of
    fallback pools, and the bucket pool. Addresses are numbers; what the system
    allocator would return is an argument `offer`. */
module MemPool {
  import opened Text

  const FALLBACK_DEPTH: nat := 3

  /** `memory_pool_no_fullflag` without its link: `start` is memoryPool_start,
      `running` the index runningPointer stands at. */
  datatype Pool = Pool(start: nat, bytes: nat, used: seq<bool>, current: nat, running: nat)

  /** How full a pool may get before it sends requests on: three quarters. */
  function Threshold(size: nat): nat {
    3 * size / 4
  }

  function Flags(used: seq<bool>): nat {
    if used == [] then 0 else Flags(used[..|used| - 1]) + if used[|used| - 1] then 1 else 0
  }

  predicate Valid(p: Pool) {
    p.bytes > 0 && p.current == Flags(p.used) && p.running < |p.used|
  }

  function Fresh(start: nat, bytes: nat, size: nat): Pool {
    Pool(start, bytes, seq(size, _ => false), 0, 0)
  }

  function Address(p: Pool, slot: nat): nat {
    p.start + slot * p.bytes
  }

  /** The address range of the slots. */
  predicate Within(p: Pool, a: nat) {
    p.start <= a < Address(p, |p.used|)
  }

  function FirstFree(used: seq<bool>, from: nat, to: nat): (r: Option<nat>)
    requires from <= to <= |used|
    ensures r.Some? ==> from <= r.value < to && !used[r.value]
    ensures r.Some? ==> (forall i | from <= i < r.value :: used[i])
    ensures r.None? ==> (forall i | from <= i < to :: used[i])
    decreases (to as int) - from
  {
    if from == to then None else if !used[from] then Some(from) else FirstFree(used, from + 1, to)
  }

  /** How the scan of `allocate_nofallback` ends: `Missed` for the line marked
      "impossible code location", `Endless` when it does not end. */
  datatype Search = Found(slot: nat) | Missed | Endless

  /** The free slot met first on the way round from `at`. The slot at `at` itself is
      looked at only when `at` is the first slot, as the test for the end of the round
      comes before the pointer is wrapped. */
  function NextFree(used: seq<bool>, at: nat): (r: Search)
    requires at < |used|
    ensures r.Found? ==> r.slot < |used| && !used[r.slot] && (at > 0 ==> r.slot != at)
  {
    match FirstFree(used, at + 1, |used|)
    case Some(slot) => Found(slot)
    case None =>
      if at == 0 then if used[0] then Endless else Found(0)
      else
        match FirstFree(used, 0, at)
        case Some(slot) => Found(slot)
        case None => Missed
  }

  /** The loop, turn by turn: None while it is still going on after `n` turns. */
  function Turns(used: seq<bool>, position: nat, running: nat, n: nat): Option<Search>
    requires running <= |used| && used != []
    decreases n
  {
    if position == running then Some(Missed)
    else
      var at := if running >= |used| then 0 else running;
      if !used[at] then Some(Found(at))
      else if n == 0 then None
      else Turns(used, position, at + 1, n - 1)
  }

  function Mark(p: Pool, slot: nat): Pool
    requires slot < |p.used|
  {
    p.(used := p.used[slot := true], current := p.current + 1, running := slot)
  }

  /** The slot `allocate_nofallback` hands out, if any, and the pool it leaves. */
  function Take(p: Pool): (r: (Pool, Option<nat>))
    requires Valid(p)
    ensures r.1.Some? ==> r.1.value < |p.used| && !p.used[r.1.value] && r.0 == Mark(p, r.1.value)
    ensures r.1.None? ==> r.0 == p.(running := r.0.running) && r.0.running < |p.used|
  {
    if p.current < Threshold(|p.used|) then
      ScanSucceeds(p);
      var slot := NextFree(p.used, p.running).slot;
      (Mark(p, slot), Some(slot))
    else
      var next := if p.running + 1 >= |p.used| then 0 else p.running + 1;
      if !p.used[next] then (Mark(p, next), Some(next)) else (p.(running := next), None)
  }

  function Release(p: Pool, slot: nat): Pool
    requires slot < |p.used| && p.current > 0
  {
    p.(used := p.used[slot := false], current := p.current - 1)
  }

  // ---------- counting the flags ----------

  lemma {:induction false} FlagsUpdate(used: seq<bool>, i: nat, v: bool)
    requires i < |used|
    ensures Flags(used[i := v]) + (if used[i] then 1 else 0) == Flags(used) + if v then 1 else 0
  {
    var n := |used| - 1;
    if i == n {
      assert used[i := v][..n] == used[..n];
    } else {
      FlagsUpdate(used[..n], i, v);
      assert used[i := v][..n] == used[..n][i := v];
    }
  }

  lemma {:induction false} NoFlags(size: nat)
    ensures Flags(seq(size, _ => false)) == 0
  {
    if size > 0 {
      NoFlags(size - 1);
      assert seq(size, _ => false)[..size - 1] == seq(size - 1, _ => false);
    }
  }

  /** A full stretch of flags counts every slot. */
  lemma {:induction false} AllSetButOne(used: seq<bool>, at: nat)
    requires forall i | 0 <= i < |used| && i != at :: used[i]
    ensures Flags(used) >= |used| - if at < |used| then 1 else 0
  {
    if used != [] {
      AllSetButOne(used[..|used| - 1], at);
    }
  }

  /** The line marked "impossible code location" is never reached, and the loop ends:
      below the threshold some slot other than the one it starts from is free. */
  lemma ScanSucceeds(p: Pool)
    requires Valid(p) && p.current < Threshold(|p.used|)
    ensures NextFree(p.used, p.running).Found? && NextFree(p.used, p.running).slot != p.running
  {
    if forall i | 0 <= i < |p.used| && i != p.running :: p.used[i] {
      AllSetButOne(p.used, p.running);
    }
  }

  /** Without the slack of the threshold: the scan misses exactly when no slot but the
      one it starts from is free and that is not the first; starting from the first it
      finds that one too, and goes on for ever exactly when all slots are taken. */
  lemma ScanFailsIff(used: seq<bool>, at: nat)
    requires at < |used|
    ensures NextFree(used, at) == Missed <==> at > 0 && forall i | 0 <= i < |used| && i != at :: used[i]
    ensures NextFree(used, at) == Endless <==> at == 0 && forall i | 0 <= i < |used| :: used[i]
    ensures at == 0 && !used[0] && (forall i | 0 < i < |used| :: used[i]) ==> NextFree(used, at) == Found(0)
  {
  }

  /** The slot `d` places behind the last one given, on the way round. */
  function Ahead(p: Pool, d: nat): (slot: nat)
    requires p.running < |p.used| && 0 < d <= |p.used|
    ensures slot < |p.used|
  {
    if p.running + d < |p.used| then p.running + d else p.running + d - |p.used|
  }

  /** A pool gives a slot exactly when less than three quarters of its slots are taken, as
      far as that can be counted, or the slot behind the last one given is free. */
  lemma TakeIff(p: Pool)
    requires Valid(p)
    ensures Take(p).1.Some? <==> 4 * (Flags(p.used) + 1) <= 3 * |p.used| || !p.used[Ahead(p, 1)]
  {
    hide Flags, NextFree;
  }

  /** The slot given is the first free one on the way round. */
  lemma TakesTheNextFree(p: Pool) returns (d: nat)
    requires Valid(p) && Take(p).1.Some?
    ensures 0 < d <= |p.used| && Take(p).1 == Some(Ahead(p, d))
    ensures forall e | 0 < e < d :: p.used[Ahead(p, e)]
  {
    hide Flags;
    var slot, n := Take(p).1.value, |p.used|;
    d := if slot > p.running then slot - p.running else slot + n - p.running;
    if p.current < Threshold(n) {
      ScanSucceeds(p);
      NextFreeIsNext(p.used, p.running);
    }
    hide Take;
  }

  /** The pool after `k` attempts that gave nothing. */
  function Tried(p: Pool, k: nat): (q: Pool)
    requires Valid(p)
    ensures Valid(q)
    decreases k
  {
    TakeKeepsValid(p);
    if k == 0 then p else Tried(Take(p).0, k - 1)
  }

  /** Every attempt moves on: a free slot `d` places ahead is found by the d-th at the
      latest, however full the pool is. */
  lemma {:induction false} FreeSlotIsFound(p: Pool, d: nat) returns (k: nat)
    requires Valid(p) && 0 < d <= |p.used| && !p.used[Ahead(p, d)]
    ensures k < d && Take(Tried(p, k)).1.Some? && forall j | 0 <= j < k :: Take(Tried(p, j)).1.None?
    ensures Tried(p, k).used == p.used
    decreases d
  {
    k := 0;
    if Take(p).1.None? {
      var q := Take(p).0;
      TakeKeepsValid(p);
      TakeIff(p);
      MovesOn(p);
      hide Take, Valid;
      assert d > 1 && Ahead(q, d - 1) == Ahead(p, d);
      var rest := FreeSlotIsFound(q, d - 1);
      k := rest + 1;
      assert forall j | 0 < j < k :: Tried(p, j) == Tried(q, j - 1);
    }
  }

  /** Where the next search starts. */
  lemma MovesOn(p: Pool)
    requires Valid(p)
    ensures Take(p).0.running == (if Take(p).1.Some? then Take(p).1.value else Ahead(p, 1))
    ensures Take(p).1.None? ==> Take(p).0.used == p.used
  {
    hide Flags, NextFree;
  }

  lemma NextFreeIsNext(used: seq<bool>, at: nat)
    requires at < |used| && NextFree(used, at).Found?
    ensures var slot := NextFree(used, at).slot;
            if slot > at then forall i | at < i < slot :: used[i]
            else (forall i | at < i < |used| :: used[i]) && forall i | 0 <= i < slot :: used[i]
  {
  }

  /** `NextFree` is what the loop arrives at, after at most one turn for each slot. */
  lemma LoopEnds(used: seq<bool>, at: nat, n: nat)
    requires at < |used|
    ensures NextFree(used, at).Endless? ==> Turns(used, at, at + 1, n) == None
    ensures !NextFree(used, at).Endless? && n >= |used| ==> Turns(used, at, at + 1, n) == Some(NextFree(used, at))
  {
    if NextFree(used, at).Endless? {
      NeverEnds(used, at + 1, n);
    } else if n >= |used| {
      ToTheEnd(used, at, at + 1, n);
    }
  }

  lemma {:induction false} NeverEnds(used: seq<bool>, running: nat, n: nat)
    requires 0 < running <= |used| && forall i | 0 <= i < |used| :: used[i]
    ensures Turns(used, 0, running, n) == None
    decreases n
  {
    if n > 0 {
      NeverEnds(used, (if running >= |used| then 0 else running) + 1, n - 1);
    }
  }

  /** From behind `at` to the end of the flags, and round. */
  lemma {:induction false} ToTheEnd(used: seq<bool>, at: nat, running: nat, n: nat)
    requires at < running <= |used| && n >= |used| - running + at + 1 && !NextFree(used, at).Endless?
    requires FirstFree(used, at + 1, |used|) == FirstFree(used, running, |used|)
    ensures Turns(used, at, running, n) == Some(NextFree(used, at))
    decreases |used| - running
  {
    if running < |used| {
      if used[running] {
        ToTheEnd(used, at, running + 1, n - 1);
      }
    } else if at > 0 {
      assert Turns(used, at, running, n) == Turns(used, at, 0, n);
      UpToStart(used, at, 0, n);
    }
  }

  lemma {:induction false} UpToStart(used: seq<bool>, at: nat, running: nat, n: nat)
    requires running <= at < |used| && n >= at - running
    ensures Turns(used, at, running, n)
         == match FirstFree(used, running, at)
            case Some(slot) => Some(Found(slot))
            case None => Some(Missed)
    decreases at - running
  {
    if running < at && used[running] {
      UpToStart(used, at, running + 1, n - 1);
    }
  }

  lemma TakeKeepsValid(p: Pool)
    requires Valid(p)
    ensures Valid(Take(p).0)
  {
    var (_, slot) := Take(p);
    if slot.Some? { FlagsUpdate(p.used, slot.value, true); }
  }

  lemma ReleaseKeepsValid(p: Pool, slot: nat)
    requires Valid(p) && slot < |p.used| && p.used[slot]
    ensures p.current > 0 && Valid(Release(p, slot))
  {
    FlagsUpdate(p.used, slot, false);
  }

  lemma FreshIsValid(start: nat, bytes: nat, size: nat)
    requires bytes > 0 && size > 0
    ensures Valid(Fresh(start, bytes, size)) && Take(Fresh(start, bytes, size)).1.Some?
  {
    NoFlags(size);
    var p := Fresh(start, bytes, size);
    if p.current < Threshold(size) {
      ScanSucceeds(p);
    }
  }

  // ---------- the chain of fallback pools ----------

  function End(p: Pool): nat {
    Address(p, |p.used|)
  }

  /** A pool and its links, outermost first. */
  predicate ValidChain(chain: seq<Pool>, depth: nat) {
    && chain != [] && depth + |chain| <= FALLBACK_DEPTH + 1
    && ValidPools(chain)
    && forall i | 0 <= i < |chain| :: chain[i].bytes == chain[0].bytes && |chain[i].used| == |chain[0].used|
  }

  predicate ValidPools(pools: seq<Pool>) {
    && (forall i | 0 <= i < |pools| :: Valid(pools[i]))
    && forall i, j | 0 <= i < j < |pools| :: Apart(pools[i], pools[j])
  }

  predicate Apart(p: Pool, q: Pool) {
    End(p) <= q.start || End(q) <= p.start
  }

  /** Memory the system hands out lies outside all pools. */
  predicate Outside(chain: seq<Pool>, start: nat, length: nat) {
    forall i | 0 <= i < |chain| :: End(chain[i]) <= start || start + length <= chain[i].start
  }

  /** `allocate`: the pools left, the address, and whether it is the system's. */
  function ChainTake(chain: seq<Pool>, depth: nat, offer: nat): (r: (seq<Pool>, nat, bool))
    requires ValidChain(chain, depth)
    decreases FALLBACK_DEPTH + 1 - depth
  {
    var (p, slot) := Take(chain[0]);
    if slot.Some? then ([p] + chain[1..], Address(p, slot.value), false)
    else if depth >= FALLBACK_DEPTH then ([p] + chain[1..], offer, true)
    else
      var link := if |chain| > 1 then chain[1..] else [Fresh(offer, p.bytes, |p.used|)];
      FreshIsValid(offer, p.bytes, |p.used|);
      LinkIsValid(chain, depth);
      var (rest, a, system) := ChainTake(link, depth + 1, offer);
      ([p] + rest, a, system)
  }

  lemma LinkIsValid(chain: seq<Pool>, depth: nat)
    requires ValidChain(chain, depth)
    ensures |chain| > 1 ==> ValidChain(chain[1..], depth + 1)
  {
    forall i, j | 0 <= i < j < |chain| - 1 ensures Apart(chain[1..][i], chain[1..][j]) {
      assert Apart(chain[i + 1], chain[j + 1]);
    }
  }

  /** `contains`: which pool of the chain an address belongs to. */
  function Owner(chain: seq<Pool>, a: nat): (r: Option<nat>)
    ensures r.Some? ==> r.value < |chain| && Within(chain[r.value], a)
    ensures r.None? ==> forall i | 0 <= i < |chain| :: !Within(chain[i], a)
  {
    if chain == [] then None
    else if Within(chain[0], a) then Some(0)
    else
      match Owner(chain[1..], a)
      case None => None
      case Some(i) => Some(i + 1)
  }

  function Slot(p: Pool, a: nat): nat
    requires p.bytes > 0 && p.start <= a
  {
    (a - p.start) / p.bytes
  }

  predicate Allocated(p: Pool, a: nat) {
    exists slot | 0 <= slot < |p.used| :: p.used[slot] && a == Address(p, slot)
  }

  predicate LiveBlock(chain: seq<Pool>, a: nat) {
    exists i | 0 <= i < |chain| :: Allocated(chain[i], a)
  }

  lemma SlotOfAddress(p: Pool, slot: nat)
    requires p.bytes > 0
    ensures Slot(p, Address(p, slot)) == slot
  {
    DivideProduct(slot, p.bytes);
  }

  lemma DivideProduct(k: nat, n: nat)
    requires n > 0
    ensures (k * n) / n == k
  {
    var q := (k * n) / n;
    assert k * n == q * n + (k * n) % n;
    if q < k {
      ProductGrows(q, k, n);
    } else if k < q {
      ProductGrows(k, q, n);
    }
  }

  lemma {:induction false} ProductGrows(i: nat, j: nat, n: nat)
    requires i < j
    ensures i * n + n <= j * n
  {
    assert j * n == (j - 1) * n + n;
    if i < j - 1 { ProductGrows(i, j - 1, n); }
  }

  lemma AddressGrows(p: Pool, i: nat, j: nat)
    requires i < j
    ensures Address(p, i) + p.bytes <= Address(p, j)
  {
    ProductGrows(i, j, p.bytes);
  }

  /** A block lies within the slots of its pool. */
  lemma BlockWithin(p: Pool, a: nat)
    requires Allocated(p, a)
    ensures p.start <= a && a + p.bytes <= End(p)
  {
    var slot :| 0 <= slot < |p.used| && p.used[slot] && a == Address(p, slot);
    AddressGrows(p, slot, |p.used|);
  }

  lemma BlocksApart(p: Pool, a: nat, b: nat)
    requires Allocated(p, a) && Allocated(p, b) && a != b
    ensures a + p.bytes <= b || b + p.bytes <= a
  {
    var i :| 0 <= i < |p.used| && p.used[i] && a == Address(p, i);
    var j :| 0 <= j < |p.used| && p.used[j] && b == Address(p, j);
    if i < j { AddressGrows(p, i, j); } else { AddressGrows(p, j, i); }
  }

  /** Live blocks of a chain never overlap. */
  lemma LiveBlocksApart(chain: seq<Pool>, depth: nat, a: nat, b: nat)
    requires ValidChain(chain, depth) && LiveBlock(chain, a) && LiveBlock(chain, b) && a != b
    ensures a + chain[0].bytes <= b || b + chain[0].bytes <= a
  {
    hide Allocated, Address, Valid;
    var i :| 0 <= i < |chain| && Allocated(chain[i], a);
    var j :| 0 <= j < |chain| && Allocated(chain[j], b);
    BlockWithin(chain[i], a);
    BlockWithin(chain[j], b);
    if i == j {
      BlocksApart(chain[i], a, b);
    } else if i < j {
      assert Apart(chain[i], chain[j]);
    } else {
      assert Apart(chain[j], chain[i]);
    }
  }

  lemma MarkAllocates(p: Pool, slot: nat)
    requires slot < |p.used| && !p.used[slot] && p.bytes > 0
    ensures !Allocated(p, Address(p, slot))
    ensures forall a: nat :: Allocated(Mark(p, slot), a) <==> Allocated(p, a) || a == Address(p, slot)
  {
    if Allocated(p, Address(p, slot)) {
      var i :| 0 <= i < |p.used| && p.used[i] && Address(p, slot) == Address(p, i);
      SlotOfAddress(p, slot);
      SlotOfAddress(p, i);
    }
    var q := Mark(p, slot);
    forall a: nat ensures Allocated(q, a) <==> Allocated(p, a) || a == Address(p, slot) {
      if Allocated(p, a) {
        var i :| 0 <= i < |p.used| && p.used[i] && a == Address(p, i);
        assert q.used[i] && a == Address(q, i);
      }
      if a == Address(p, slot) {
        assert q.used[slot] && a == Address(q, slot);
      }
    }
  }

  predicate Unmoved(pools: seq<Pool>, after: seq<Pool>) {
    && |after| == |pools|
    && forall i | 0 <= i < |pools| ::
         after[i].start == pools[i].start && after[i].bytes == pools[i].bytes && |after[i].used| == |pools[i].used|
  }

  /** The pools keep their places; at most one is added, at `offer`. */
  predicate SamePlaces(chain: seq<Pool>, after: seq<Pool>, offer: nat)
    requires chain != []
  {
    && |chain| <= |after| <= |chain| + 1
    && (forall i | 0 <= i < |chain| ::
          after[i].start == chain[i].start && after[i].bytes == chain[i].bytes && |after[i].used| == |chain[i].used|)
    && (|after| > |chain| ==>
          after[|chain|].start == offer && after[|chain|].bytes == chain[0].bytes
          && |after[|chain|].used| == |chain[0].used|)
  }

  function Room(chain: seq<Pool>): nat
    requires chain != []
  {
    |chain[0].used| * chain[0].bytes
  }

  lemma LiveCons(p: Pool, rest: seq<Pool>)
    ensures forall a: nat :: LiveBlock([p] + rest, a) <==> Allocated(p, a) || LiveBlock(rest, a)
  {
    hide Allocated;
    forall a: nat ensures LiveBlock([p] + rest, a) <==> Allocated(p, a) || LiveBlock(rest, a) {
      if Allocated(p, a) {
        assert Allocated(([p] + rest)[0], a);
      }
      if LiveBlock(rest, a) {
        var i :| 0 <= i < |rest| && Allocated(rest[i], a);
        assert Allocated(([p] + rest)[i + 1], a);
      }
    }
  }

  lemma ValidCons(p: Pool, rest: seq<Pool>, depth: nat)
    requires Valid(p) && ValidChain(rest, depth + 1) && p.bytes == rest[0].bytes && |p.used| == |rest[0].used|
    requires forall i | 0 <= i < |rest| :: Apart(p, rest[i])
    ensures ValidChain([p] + rest, depth)
  {
    hide Valid, Apart;
    var chain := [p] + rest;
    forall i, j | 0 <= i < j < |chain| ensures Apart(chain[i], chain[j]) {
      if i == 0 {
        assert chain[j] == rest[j - 1];
      } else {
        assert Apart(rest[i - 1], rest[j - 1]);
      }
    }
  }

  lemma ApartIsDisjoint(p: Pool, q: Pool, a: nat)
    requires Apart(p, q) && Allocated(q, a) && p.bytes > 0 && q.bytes > 0
    ensures !Allocated(p, a)
  {
    hide Address;
    BlockWithin(q, a);
    if Allocated(p, a) { BlockWithin(p, a); }
  }

  /** What an allocation may rely on and what it achieves. */
  ghost predicate Granted(chain: seq<Pool>, depth: nat, offer: nat, after: seq<Pool>, a: nat, system: bool)
    requires chain != []
  {
    && ValidChain(after, depth) && SamePlaces(chain, after, offer)
    && if system then
         a == offer && |after| == |chain| == FALLBACK_DEPTH + 1 - depth
         && forall b: nat :: LiveBlock(after, b) <==> LiveBlock(chain, b)
       else
         !LiveBlock(chain, a) && forall b: nat :: LiveBlock(after, b) <==> LiveBlock(chain, b) || b == a
  }

  /** The head of the chain serves the request, or the system does. */
  lemma HeadGrants(chain: seq<Pool>, depth: nat, offer: nat)
    requires ValidChain(chain, depth) && Outside(chain, offer, Room(chain))
    requires Take(chain[0]).1.Some? || depth >= FALLBACK_DEPTH
    ensures var (after, a, system) := ChainTake(chain, depth, offer); Granted(chain, depth, offer, after, a, system)
  {
    hide Valid, Take, Allocated, Address, Mark;
    var (p, slot) := Take(chain[0]);
    var rest := chain[1..];
    assert chain == [chain[0]] + rest;
    TakeKeepsValid(chain[0]);
    TakenPlace(chain[0]);
    LiveCons(chain[0], rest);
    LiveCons(p, rest);
    forall i | 0 <= i < |rest| ensures Apart(p, rest[i]) {
      assert Apart(chain[0], chain[i + 1]);
    }
    if rest != [] {
      LinkIsValid(chain, depth);
      ValidCons(p, rest, depth);
    }
    if slot.Some? {
      var a := Address(p, slot.value);
      TakenBlock(chain[0]);
      forall i | 0 <= i < |rest| ensures !Allocated(rest[i], a) {
        assert Apart(chain[0], chain[i + 1]);
        ApartIsDisjoint(rest[i], p, a);
      }
    }
  }

  lemma TakenPlace(p: Pool)
    requires Valid(p)
    ensures var (q, slot) := Take(p);
            && q.start == p.start && q.bytes == p.bytes && |q.used| == |p.used| && p.bytes > 0 && End(q) == End(p)
            && (slot.None? ==> forall a: nat :: Allocated(q, a) <==> Allocated(p, a))
  {
  }

  lemma TakenBlock(p: Pool)
    requires Valid(p) && Take(p).1.Some?
    ensures var (q, slot) := Take(p);
            var a := Address(q, slot.value);
            && !Allocated(p, a) && Allocated(q, a)
            && forall b: nat :: Allocated(q, b) <==> Allocated(p, b) || b == a
  {
    MarkAllocates(p, Take(p).1.value);
  }

  /** A fresh pool is linked in and serves the request. */
  lemma LinkGrants(chain: seq<Pool>, depth: nat, offer: nat)
    requires ValidChain(chain, depth) && Outside(chain, offer, Room(chain))
    requires Take(chain[0]).1.None? && depth < FALLBACK_DEPTH && |chain| == 1
    ensures var (after, a, system) := ChainTake(chain, depth, offer); Granted(chain, depth, offer, after, a, system)
  {
    hide Valid, Take, Allocated, Mark;
    var p := Take(chain[0]).0;
    var blank := Fresh(offer, p.bytes, |p.used|);
    TakeKeepsValid(chain[0]);
    TakenPlace(chain[0]);
    FreshIsValid(offer, p.bytes, |p.used|);
    TakeKeepsValid(blank);
    TakenPlace(blank);
    TakenBlock(blank);
    NoneAllocated(offer, p.bytes, |p.used|);
    var q := Take(blank).0;
    assert [blank][1..] == [] && [q] + [] == [q];
    assert ChainTake([blank], depth + 1, offer) == ([q], Address(q, Take(blank).1.value), false);
    assert Apart(p, q);
    ValidCons(p, [q], depth);
    LiveCons(p, [q]);
    LiveCons(q, []);
    assert chain == [chain[0]] + [];
    LiveCons(chain[0], []);
    ApartIsDisjoint(p, q, Address(q, Take(blank).1.value));
  }

  lemma NoneAllocated(start: nat, bytes: nat, size: nat)
    ensures forall a: nat :: !Allocated(Fresh(start, bytes, size), a)
  {
  }

  /** An allocation returns a block that was not live, adds it to the live blocks,
      and turns to the system only when the chain has all its pools. */
  lemma {:induction false} AllocationIsFresh(chain: seq<Pool>, depth: nat, offer: nat)
    requires ValidChain(chain, depth) && Outside(chain, offer, Room(chain))
    ensures var (after, a, system) := ChainTake(chain, depth, offer); Granted(chain, depth, offer, after, a, system)
    decreases |chain|
  {
    hide Valid, Take, Allocated, Address, Fresh;
    if Take(chain[0]).1.Some? || depth >= FALLBACK_DEPTH {
      HeadGrants(chain, depth, offer);
    } else if |chain| == 1 {
      LinkGrants(chain, depth, offer);
    } else {
      LinkIsValid(chain, depth);
      AllocationIsFresh(chain[1..], depth + 1, offer);
      DeeperGrants(chain, depth, offer);
    }
  }

  lemma DeeperApart(chain: seq<Pool>, depth: nat, offer: nat, p: Pool, rest: seq<Pool>)
    requires ValidChain(chain, depth) && Outside(chain, offer, Room(chain)) && |chain| > 1
    requires p.start == chain[0].start && End(p) == End(chain[0]) && SamePlaces(chain[1..], rest, offer)
    ensures forall i | 0 <= i < |rest| :: Apart(p, rest[i])
  {
    hide Valid, Address;
    forall i | 0 <= i < |rest| ensures Apart(p, rest[i]) {
      if i < |chain| - 1 {
        assert Apart(chain[0], chain[i + 1]);
        SameEnd(rest[i], chain[i + 1]);
      } else {
        RoomIsEnd(rest[i], chain);
      }
    }
  }

  lemma DeeperGrants(chain: seq<Pool>, depth: nat, offer: nat)
    requires ValidChain(chain, depth) && Outside(chain, offer, Room(chain))
    requires Take(chain[0]).1.None? && depth < FALLBACK_DEPTH && |chain| > 1 && ValidChain(chain[1..], depth + 1)
    requires var (rest, a, system) := ChainTake(chain[1..], depth + 1, offer);
             Granted(chain[1..], depth + 1, offer, rest, a, system)
    ensures var (after, a, system) := ChainTake(chain, depth, offer); Granted(chain, depth, offer, after, a, system)
  {
    hide Valid, Take, Allocated, Address, Fresh;
    var p := Take(chain[0]).0;
    var link := chain[1..];
    var (rest, a, system) := ChainTake(link, depth + 1, offer);
    TakeKeepsValid(chain[0]);
    TakenPlace(chain[0]);
    DeeperApart(chain, depth, offer, p, rest);
    hide Apart, Outside;
    ValidCons(p, rest, depth);
    LiveCons(p, rest);
    LiveCons(chain[0], link);
    assert chain == [chain[0]] + link;
    assert ChainTake(chain, depth, offer) == ([p] + rest, a, system);
    if !system {
      SizesPositive(rest, depth + 1);
      assert LiveBlock(rest, a);
      LiveElsewhere(p, rest, a);
      assert forall b: nat :: Allocated(p, b) <==> Allocated(chain[0], b);
    }
  }

  lemma LiveElsewhere(p: Pool, rest: seq<Pool>, a: nat)
    requires LiveBlock(rest, a) && p.bytes > 0
    requires forall i | 0 <= i < |rest| :: Apart(p, rest[i]) && rest[i].bytes > 0
    ensures !Allocated(p, a)
  {
    hide Allocated, Apart;
    var i :| 0 <= i < |rest| && Allocated(rest[i], a);
    ApartIsDisjoint(p, rest[i], a);
  }

  lemma SameEnd(p: Pool, q: Pool)
    requires p.start == q.start && p.bytes == q.bytes && |p.used| == |q.used|
    ensures End(p) == End(q)
  {
  }

  lemma RoomIsEnd(p: Pool, chain: seq<Pool>)
    requires chain != [] && p.bytes == chain[0].bytes && |p.used| == |chain[0].used|
    ensures End(p) == p.start + Room(chain)
  {
  }

  // ---------- giving a block back ----------

  /** `deallocate`; an address in no pool goes back to the system. */
  function ChainRelease(chain: seq<Pool>, a: nat): seq<Pool>
    requires ValidPools(chain)
  {
    match Owner(chain, a)
    case None => chain
    case Some(i) =>
      var slot := Slot(chain[i], a);
      if slot < |chain[i].used| && chain[i].current > 0 then chain[i := Release(chain[i], slot)] else chain
  }

  /** The owner of a live block is the pool it was taken from, and its slot is
      found again from the address. */
  lemma OwnerOfBlock(chain: seq<Pool>, a: nat)
    requires ValidPools(chain) && LiveBlock(chain, a)
    ensures Owner(chain, a).Some?
    ensures var p := chain[Owner(chain, a).value];
            var slot := Slot(p, a);
            Allocated(p, a) && slot < |p.used| && p.used[slot] && a == Address(p, slot) && p.current > 0
  {
    var k :| 0 <= k < |chain| && Allocated(chain[k], a);
    var q := chain[k];
    BlockWithin(q, a);
    var slot :| 0 <= slot < |q.used| && q.used[slot] && a == Address(q, slot);
    SlotOfAddress(q, slot);
    ReleaseKeepsValid(q, slot);
    hide Allocated, Address, Owner, Slot, Valid;
    OneOwner(chain, a);
  }

  lemma OneOwner(chain: seq<Pool>, a: nat)
    requires ValidPools(chain)
    ensures forall i, k | 0 <= i < k < |chain| :: !(Within(chain[i], a) && Within(chain[k], a))
  {
    hide Address, Valid;
    forall i, k | 0 <= i < k < |chain| ensures !(Within(chain[i], a) && Within(chain[k], a)) {
      assert Apart(chain[i], chain[k]);
    }
  }

  lemma SizesPositive(chain: seq<Pool>, depth: nat)
    requires ValidChain(chain, depth)
    ensures chain != [] && ValidPools(chain)
    ensures forall i | 0 <= i < |chain| ::
              chain[i].bytes == chain[0].bytes > 0 && |chain[i].used| == |chain[0].used| > 0
  {
  }

  lemma ReleaseFrees(p: Pool, slot: nat)
    requires slot < |p.used| && p.used[slot] && p.bytes > 0 && p.current > 0
    ensures forall a: nat :: Allocated(Release(p, slot), a) <==> Allocated(p, a) && a != Address(p, slot)
  {
    var q := Release(p, slot);
    forall a: nat ensures Allocated(q, a) <==> Allocated(p, a) && a != Address(p, slot) {
      if Allocated(p, a) && a != Address(p, slot) {
        var i :| 0 <= i < |p.used| && p.used[i] && a == Address(p, i);
        assert q.used[i] && a == Address(q, i);
      }
      if Allocated(q, a) {
        var i :| 0 <= i < |q.used| && q.used[i] && a == Address(q, i);
        assert p.used[i] && a == Address(p, i);
        SlotOfAddress(p, i);
        SlotOfAddress(p, slot);
      }
    }
  }

  /** Freeing a live block frees that block alone. */
  lemma DeallocationFreesOne(chain: seq<Pool>, a: nat)
    requires ValidPools(chain) && LiveBlock(chain, a)
    ensures var after := ChainRelease(chain, a);
            && ValidPools(after) && Unmoved(chain, after)
            && forall b: nat :: LiveBlock(after, b) <==> LiveBlock(chain, b) && b != a
  {
    OwnerOfBlock(chain, a);
    assert forall k | 0 <= k < |chain| :: chain[k].bytes > 0;
    var i := Owner(chain, a).value;
    var p := chain[i];
    var slot := Slot(p, a);
    ReleaseKeepsValid(p, slot);
    ReleaseFrees(p, slot);
    var q := Release(p, slot);
    var after := ChainRelease(chain, a);
    assert after == chain[i := q];
    SameEnd(p, q);
    hide Allocated, Address, Owner, Slot, Valid, End, Release;
    forall j, k | 0 <= j < k < |chain| ensures Apart(after[j], after[k]) {
      assert Apart(chain[j], chain[k]);
    }
    forall b: nat ensures LiveBlock(after, b) <==> LiveBlock(chain, b) && b != a {
      if LiveBlock(after, b) {
        var k :| 0 <= k < |after| && Allocated(after[k], b);
        assert Allocated(chain[k], b);
        if k != i && b == a {
          if k < i { assert Apart(chain[k], p); } else { assert Apart(p, chain[k]); }
          ApartIsDisjoint(chain[k], p, a);
        }
      }
      if LiveBlock(chain, b) && b != a {
        var k :| 0 <= k < |chain| && Allocated(chain[k], b);
        assert Allocated(after[k], b);
      }
    }
  }

  // ---------- whole runs ----------

  datatype Request = Allocate(offer: nat) | Deallocate(a: nat)

  /** The pools and the live blocks that came from the system. */
  datatype Arena = Arena(chain: seq<Pool>, system: set<nat>)

  predicate LiveIn(m: Arena, a: nat) {
    LiveBlock(m.chain, a) || a in m.system
  }

  /** The system never offers memory in use, and only live blocks are given back. */
  predicate Fair(m: Arena, r: Request)
    requires m.chain != []
  {
    match r
    case Allocate(offer) =>
      && Outside(m.chain, offer, Room(m.chain))
      && forall b | b in m.system :: offer + Room(m.chain) <= b || b + m.chain[0].bytes <= offer
    case Deallocate(a) => LiveIn(m, a)
  }

  function Serve(m: Arena, r: Request): Arena
    requires ValidChain(m.chain, 0)
  {
    match r
    case Allocate(offer) =>
      var (after, a, system) := ChainTake(m.chain, 0, offer);
      Arena(after, if system then m.system + {a} else m.system)
    case Deallocate(a) =>
      if LiveBlock(m.chain, a) then Arena(ChainRelease(m.chain, a), m.system) else Arena(m.chain, m.system - {a})
  }

  /** Every block lies outside the others, and the system's blocks lie outside the pools. */
  predicate Tidy(m: Arena) {
    && ValidChain(m.chain, 0)
    && (forall b | b in m.system :: Outside(m.chain, b, m.chain[0].bytes))
    && forall b, c | b in m.system && c in m.system && b != c ::
         b + m.chain[0].bytes <= c || c + m.chain[0].bytes <= b
  }

  lemma SystemIsNotPooled(m: Arena, a: nat)
    requires Tidy(m) && a in m.system
    ensures !LiveBlock(m.chain, a)
  {
    hide Valid, LiveBlock;
    assert Outside(m.chain, a, m.chain[0].bytes);
    OutsideIsFree(m.chain, 0, a);
  }

  lemma RoomHoldsBlock(chain: seq<Pool>)
    requires chain != [] && chain[0].used != []
    ensures chain[0].bytes <= Room(chain)
  {
    ProductGrows(0, |chain[0].used|, chain[0].bytes);
  }

  lemma ServeKeepsTidy(m: Arena, r: Request)
    requires Tidy(m) && Fair(m, r)
    ensures Tidy(Serve(m, r))
  {
    hide ChainTake, ChainRelease, Room, Outside, LiveBlock, Valid;
    SizesPositive(m.chain, 0);
    match r
    case Allocate(offer) =>
      AllocationIsFresh(m.chain, 0, offer);
      SystemBlockFits(m, offer);
      PlacesStayOutside(m, ChainTake(m.chain, 0, offer).0, offer);
    case Deallocate(a) =>
      if LiveBlock(m.chain, a) {
        DeallocationFreesOne(m.chain, a);
        PlacesStayOutside(m, ChainRelease(m.chain, a), 0);
      }
  }

  lemma SystemBlockFits(m: Arena, offer: nat)
    requires Tidy(m) && Fair(m, Allocate(offer))
    ensures m.chain != [] && Outside(m.chain, offer, m.chain[0].bytes)
    ensures forall b | b in m.system :: offer + m.chain[0].bytes <= b || b + m.chain[0].bytes <= offer
  {
    SizesPositive(m.chain, 0);
    RoomHoldsBlock(m.chain);
    hide Valid, Room, End;
  }

  lemma PlacesStayOutside(m: Arena, after: seq<Pool>, offer: nat)
    requires Tidy(m) && ValidChain(after, 0) && SamePlaces(m.chain, after, offer)
    requires |after| > |m.chain| ==>
               forall b | b in m.system :: offer + Room(m.chain) <= b || b + m.chain[0].bytes <= offer
    ensures forall b | b in m.system :: Outside(after, b, m.chain[0].bytes)
    ensures forall start: nat, length: nat | |after| == |m.chain| && Outside(m.chain, start, length) ::
              Outside(after, start, length)
  {
    SizesPositive(m.chain, 0);
    hide Valid, End, ValidChain;
    forall i: nat | i < |m.chain| ensures End(after[i]) == End(m.chain[i]) {
      SameEnd(after[i], m.chain[i]);
    }
    if |after| > |m.chain| {
      RoomIsEnd(after[|m.chain|], m.chain);
    }
  }

  predicate AllFair(m: Arena, rs: seq<Request>)
    requires Tidy(m)
    decreases |rs|
  {
    rs == [] || (Fair(m, rs[0]) && (ServeKeepsTidy(m, rs[0]); AllFair(Serve(m, rs[0]), rs[1..])))
  }

  function ServeAll(m: Arena, rs: seq<Request>): Arena
    requires Tidy(m) && AllFair(m, rs)
    decreases |rs|
  {
    if rs == [] then m else ServeKeepsTidy(m, rs[0]); ServeAll(Serve(m, rs[0]), rs[1..])
  }

  /** After any run of requests no two live blocks overlap, and there are at most
      four pools. */
  lemma {:induction false} NoOverlapEver(m: Arena, rs: seq<Request>, a: nat, b: nat)
    requires Tidy(m) && AllFair(m, rs) && a != b
    requires LiveIn(ServeAll(m, rs), a) && LiveIn(ServeAll(m, rs), b)
    ensures var end := ServeAll(m, rs);
            && 0 < |end.chain| <= FALLBACK_DEPTH + 1
            && (a + end.chain[0].bytes <= b || b + end.chain[0].bytes <= a)
    decreases |rs|
  {
    hide Valid, Allocated, Serve, Fair;
    if rs != [] {
      ServeKeepsTidy(m, rs[0]);
      NoOverlapEver(Serve(m, rs[0]), rs[1..], a, b);
    } else if LiveBlock(m.chain, a) && LiveBlock(m.chain, b) {
      LiveBlocksApart(m.chain, 0, a, b);
    } else if LiveBlock(m.chain, a) {
      OutsideApart(m, a, b);
    } else if LiveBlock(m.chain, b) {
      OutsideApart(m, b, a);
    }
  }

  lemma OutsideApart(m: Arena, a: nat, b: nat)
    requires Tidy(m) && LiveBlock(m.chain, a) && b in m.system
    ensures a + m.chain[0].bytes <= b || b + m.chain[0].bytes <= a
  {
    hide Valid, Allocated, End;
    var i :| 0 <= i < |m.chain| && Allocated(m.chain[i], a);
    BlockWithin(m.chain[i], a);
    assert Outside(m.chain, b, m.chain[0].bytes);
  }

  /** In any reachable state an allocation yields a block that is not live. */
  lemma AllocationNeverRepeats(m: Arena, offer: nat)
    requires Tidy(m) && Fair(m, Allocate(offer))
    ensures var (_, a, _) := ChainTake(m.chain, 0, offer); !LiveIn(m, a) && LiveIn(Serve(m, Allocate(offer)), a)
  {
    hide ChainTake, LiveBlock, Room, Outside, Valid, Tidy;
    assert ValidChain(m.chain, 0) by { TidyIsValid(m); }
    AllocationIsFresh(m.chain, 0, offer);
    SystemBlockFits(m, offer);
    SizesPositive(m.chain, 0);
    var (after, a, system) := ChainTake(m.chain, 0, offer);
    if system {
      if LiveBlock(m.chain, a) {
        OutsideIsFree(m.chain, 0, a);
      }
    } else if a in m.system {
      ServeKeepsTidy(m, Allocate(offer));
      SystemIsNotPooled(Serve(m, Allocate(offer)), a);
    }
  }

  lemma TidyIsValid(m: Arena)
    requires Tidy(m)
    ensures ValidChain(m.chain, 0)
  {
  }

  lemma OutsideIsFree(chain: seq<Pool>, depth: nat, a: nat)
    requires ValidChain(chain, depth) && Outside(chain, a, chain[0].bytes)
    ensures !LiveBlock(chain, a)
  {
    hide Valid, Allocated;
    SizesPositive(chain, depth);
    if LiveBlock(chain, a) {
      var i :| 0 <= i < |chain| && Allocated(chain[i], a);
      BlockWithin(chain[i], a);
    }
  }

  lemma ChainTakeSteps(chain: seq<Pool>, depth: nat, offer: nat)
    requires ValidChain(chain, depth)
    ensures depth + |chain| <= FALLBACK_DEPTH + 1 && Valid(chain[0])
    ensures |chain| > 1 ==> ValidChain(chain[1..], depth + 1)
    ensures var (p, slot) := Take(chain[0]);
            && p.start == chain[0].start && p.bytes == chain[0].bytes && |p.used| == |chain[0].used|
            && if slot.Some? then
                 ChainTake(chain, depth, offer) == ([p] + chain[1..], Address(p, slot.value), false)
               else if depth >= FALLBACK_DEPTH then
                 ChainTake(chain, depth, offer) == ([p] + chain[1..], offer, true)
               else
                 var rest := if |chain| > 1 then chain[1..] else [Fresh(offer, p.bytes, |p.used|)];
                 && ValidChain(rest, depth + 1)
                 && var (after, a, system) := ChainTake(rest, depth + 1, offer);
                    ChainTake(chain, depth, offer) == ([p] + after, a, system)
  {
    hide Take, Fresh;
    LinkIsValid(chain, depth);
    TakenPlace(chain[0]);
    FreshIsValid(offer, chain[0].bytes, |chain[0].used|);
  }

  // ---------- the pool objects ----------

  /** `memory_pool_no_fullflag`, with its flags in an array. */
  class MemoryPool {
    const start: nat
    const bytes: nat
    const depth: nat
    const used: array<bool>
    var current: nat
    var running: nat
    var link: MemoryPool?
    ghost var repr: set<object>

    constructor (start: nat, bytes: nat, size: nat, depth: nat)
      requires bytes > 0 && size > 0
      ensures Good() && State() == [Fresh(start, bytes, size)] && fresh(repr) && this.depth == depth
    {
      this.start, this.bytes, this.depth := start, bytes, depth;
      var flags := new bool[size](_ => false);
      used, current, running, link := flags, 0, 0, null;
      repr := {this, flags};
      new;
      FreshIsValid(start, bytes, size);
      assert used[..] == seq(size, _ => false);
    }

    ghost function Own(): Pool
      reads this, used
    {
      Pool(start, bytes, used[..], current, running)
    }

    ghost predicate Good()
      reads this, repr
      decreases repr
    {
      && this in repr && used in repr && Valid(Own())
      && (link != null ==>
            && link in repr && link.repr < repr && {this, used} !! link.repr
            && link.depth == depth + 1 && link.Good())
    }

    ghost function State(): (chain: seq<Pool>)
      requires Good()
      reads this, repr
      ensures chain != [] && chain[0] == Own()
      decreases repr
    {
      [Own()] + if link == null then [] else link.State()
    }

    method ReturnCurrent() returns (a: nat)
      requires running < used.Length
      modifies this`current, used
      ensures Own() == Mark(old(Own()), running) && a == Address(Own(), running)
    {
      used[running] := true;
      current := current + 1;
      a := start + running * bytes;
    }

    /** The scan loop of `allocate_nofallback`, which always ends on a free slot. */
    method Scan()
      requires Valid(Own()) && current < Threshold(used.Length)
      modifies this`running
      ensures Own() == old(Own()).(running := running)
      ensures NextFree(old(Own()).used, old(running)) == Found(running)
    {
      ghost var flags := used[..];
      ScanSucceeds(Own());
      ghost var slot := NextFree(flags, running).slot;
      var position := running;
      running := running + 1;
      while position != running
        invariant position == old(running) < used.Length && used[..] == flags
        invariant if slot > position then position < running <= slot
                  else position < running <= used.Length || 0 < running <= slot
        decreases if running > slot then used.Length + slot - running else slot - running
      {
        if running >= used.Length { running := 0; }
        if !used[running] {
          return;
        }
        running := running + 1;
      }
      assert false;
    }

    method AllocateNoFallback() returns (r: Option<nat>)
      requires Valid(Own())
      modifies this`current, this`running, used
      ensures Valid(Own())
      ensures var (p, slot) := Take(old(Own()));
              Own() == p && r == if slot.Some? then Some(Address(p, slot.value)) else None
    {
      TakeKeepsValid(Own());
      hide Flags, NextFree, Address;
      if current < Threshold(used.Length) {
        Scan();
        var a := ReturnCurrent();
        return Some(a);
      }
      running := running + 1;
      if running >= used.Length { running := 0; }
      if !used[running] {
        var a := ReturnCurrent();
        return Some(a);
      }
      return None;
    }

    /** `allocate_nofallback` seen from the chain that starts here. */
    method TakeHere() returns (r: Option<nat>)
      requires Good()
      modifies this`current, this`running, used
      ensures Good() && State()[1..] == old(State())[1..] && (link != null ==> link.State() == State()[1..])
      ensures var (p, slot) := Take(old(State())[0]);
              State()[0] == p && r == if slot.Some? then Some(Address(p, slot.value)) else None
    {
      hide Valid, Take, Address;
      r := AllocateNoFallback();
    }

    /** `allocate`, falling back on the linked pools and then on the system. */
    method Allocate(offer: nat) returns (a: nat, system: bool)
      requires Good() && ValidChain(State(), depth)
      modifies repr
      ensures Good() && fresh(repr - old(repr))
      ensures (State(), a, system) == ChainTake(old(State()), depth, offer)
      decreases FALLBACK_DEPTH + 1 - depth, 1
    {
      ChainTakeSteps(State(), depth, offer);
      hide Valid, Take, Fresh, ValidChain, ChainTake, Address;
      assert {this, used} <= repr;
      var r := TakeHere();
      assert State() == [State()[0]] + State()[1..];
      if r.Some? {
        a, system := r.value, false;
      } else {
        a, system := LinkAllocate(offer);
      }
    }

    method LinkAllocate(offer: nat) returns (a: nat, system: bool)
      requires Good() && depth + |State()| <= FALLBACK_DEPTH + 1
      requires link != null ==> ValidChain(link.State(), depth + 1)
      modifies repr
      ensures Good() && fresh(repr - old(repr))
      ensures var chain := old(State());
              if depth >= FALLBACK_DEPTH then State() == chain && a == offer && system
              else
                var rest := if |chain| > 1 then chain[1..] else [Fresh(offer, bytes, |chain[0].used|)];
                && ValidChain(rest, depth + 1)
                && State() == [chain[0]] + ChainTake(rest, depth + 1, offer).0
                && (a, system) == (ChainTake(rest, depth + 1, offer).1, ChainTake(rest, depth + 1, offer).2)
      decreases FALLBACK_DEPTH + 1 - depth, 0
    {
      if depth >= FALLBACK_DEPTH {
        return offer, true;
      }
      hide Valid, Take, Fresh, ValidChain, ChainTake;
      if link == null {
        LinkNew(offer);
      }
      a, system := AskLink(offer);
    }

    method AskLink(offer: nat) returns (a: nat, system: bool)
      requires Good() && link != null && ValidChain(link.State(), depth + 1)
      modifies this`repr, link.repr
      ensures Good() && fresh(repr - old(repr))
      ensures State()[0] == old(State())[0]
      ensures (State()[1..], a, system) == ChainTake(old(State())[1..], depth + 1, offer)
      decreases FALLBACK_DEPTH + 1 - depth, 0, 0
    {
      assert depth + 1 + |link.State()| <= FALLBACK_DEPTH + 1;
      hide Valid, Take, Fresh, ValidChain, ChainTake;
      a, system := link.Allocate(offer);
      repr := repr + link.repr;
    }

    /** A pool of the same shape, one level deeper. */
    method LinkNew(offer: nat)
      requires Good() && link == null && depth < FALLBACK_DEPTH
      modifies this`link, this`repr
      ensures Good() && link != null && fresh(repr - old(repr))
      ensures link.State() == [Fresh(offer, bytes, used.Length)] && ValidChain(link.State(), depth + 1)
      ensures State()[0] == old(State())[0]
    {
      FreshIsValid(offer, bytes, used.Length);
      link := new MemoryPool(offer, bytes, used.Length, depth + 1);
      repr := repr + link.repr;
    }

    method DeallocateNoFallback(a: nat)
      requires Valid(Own()) && start <= a
      requires var slot := Slot(Own(), a); slot < used.Length && used[slot]
      modifies this`current, used
      ensures Valid(Own()) && old(current) > 0
      ensures Own() == Release(old(Own()), Slot(old(Own()), a))
    {
      ghost var p := Own();
      ReleaseKeepsValid(p, Slot(p, a));
      current := current - 1;
      used[(a - start) / bytes] := false;
    }

    /** `deallocate`: the pool that contains the address takes the block back. */
    method Deallocate(a: nat) returns (system: bool)
      requires Good() && ValidChain(State(), depth)
      requires LiveBlock(State(), a) || Owner(State(), a).None?
      modifies repr
      ensures Good() && repr == old(repr)
      ensures State() == ChainRelease(old(State()), a)
      ensures system == Owner(old(State()), a).None?
      decreases repr, 1
    {
      ghost var chain := State();
      ChainReleaseSteps(chain, depth, a);
      assert link != null ==> link.State() == chain[1..];
      hide Valid, Owner, LiveBlock, ValidChain, ValidPools, ChainRelease, Release, Slot;
      if start <= a && a < start + used.Length * bytes {
        ReleaseHere(a);
        return false;
      }
      if link == null {
        return true;
      }
      system := AskLinkToRelease(a);
    }

    /** `deallocate_nofallback` seen from the chain that starts here. */
    method ReleaseHere(a: nat)
      requires Good() && start <= a && bytes > 0 && current > 0
      requires var slot := Slot(Own(), a); slot < used.Length && used[slot]
      modifies this`current, used
      ensures Good() && State() == [Release(old(Own()), Slot(old(Own()), a))] + old(State())[1..]
    {
      hide Valid, Release, Slot;
      DeallocateNoFallback(a);
    }

    method AskLinkToRelease(a: nat) returns (system: bool)
      requires Good() && link != null && ValidChain(link.State(), depth + 1)
      requires LiveBlock(link.State(), a) || Owner(link.State(), a).None?
      modifies link.repr
      ensures Good() && ValidPools(old(State())[1..])
      ensures State() == [old(State())[0]] + ChainRelease(old(State())[1..], a)
      ensures system == Owner(old(State())[1..], a).None?
      decreases repr, 0
    {
      ghost var rest := link.State();
      assert ValidPools(rest) && State()[1..] == rest;
      hide Valid, Owner, LiveBlock, ValidChain, ValidPools, ChainRelease;
      system := link.Deallocate(a);
    }
  }

  /** What `deallocate` does with the first pool of a chain, and with the others. */
  lemma ChainReleaseSteps(chain: seq<Pool>, depth: nat, a: nat)
    requires ValidChain(chain, depth) && (LiveBlock(chain, a) || Owner(chain, a).None?)
    ensures ValidPools(chain) && chain[0].bytes > 0 && |chain[0].used| > 0
    ensures if Within(chain[0], a) then
              && Owner(chain, a) == Some(0) && Valid(chain[0])
              && var slot := Slot(chain[0], a);
                 && slot < |chain[0].used| && chain[0].used[slot] && chain[0].current > 0
                 && ChainRelease(chain, a) == [Release(chain[0], slot)] + chain[1..]
            else if |chain| == 1 then Owner(chain, a).None? && ChainRelease(chain, a) == chain
            else
              && ValidChain(chain[1..], depth + 1) && (LiveBlock(chain[1..], a) || Owner(chain[1..], a).None?)
              && (Owner(chain, a).None? <==> Owner(chain[1..], a).None?)
              && ChainRelease(chain, a) == [chain[0]] + ChainRelease(chain[1..], a)
  {
    SizesPositive(chain, depth);
    if Within(chain[0], a) {
      HeadReleases(chain, a);
    } else if |chain| > 1 {
      LinkIsValid(chain, depth);
      LiveInLink(chain, depth, a);
      LinkReleases(chain, depth, a);
    } else {
      assert chain[1..] == [];
    }
  }

  lemma HeadReleases(chain: seq<Pool>, a: nat)
    requires ValidPools(chain) && chain != [] && Within(chain[0], a) && chain[0].bytes > 0
    requires LiveBlock(chain, a) || Owner(chain, a).None?
    ensures var slot := Slot(chain[0], a);
            && Owner(chain, a) == Some(0) && slot < |chain[0].used| && chain[0].used[slot] && chain[0].current > 0
            && ChainRelease(chain, a) == [Release(chain[0], slot)] + chain[1..]
  {
    OwnerOfBlock(chain, a);
    hide Release, LiveBlock, Valid, ValidPools;
  }

  lemma LinkReleases(chain: seq<Pool>, depth: nat, a: nat)
    requires ValidChain(chain, depth) && |chain| > 1 && !Within(chain[0], a) && ValidChain(chain[1..], depth + 1)
    ensures Owner(chain, a).None? <==> Owner(chain[1..], a).None?
    ensures ChainRelease(chain, a) == [chain[0]] + ChainRelease(chain[1..], a)
  {
    SizesPositive(chain, depth);
    hide Release, LiveBlock, Valid, ValidPools;
    assert chain == [chain[0]] + chain[1..];
  }

  lemma LiveInLink(chain: seq<Pool>, depth: nat, a: nat)
    requires ValidChain(chain, depth) && |chain| > 1 && !Within(chain[0], a)
    requires LiveBlock(chain, a) || Owner(chain, a).None?
    ensures LiveBlock(chain[1..], a) || Owner(chain[1..], a).None?
  {
    hide Allocated, Address;
    if LiveBlock(chain, a) {
      SizesPositive(chain, depth);
      var i :| 0 <= i < |chain| && Allocated(chain[i], a);
      BlockWithin(chain[i], a);
      assert Allocated(chain[1..][i - 1], a);
    }
  }
}
