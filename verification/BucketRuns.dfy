/** Whole runs of the bucket pool of mempool++/mempool.h, blocks of the system included. */
module BucketRuns {
  import opened Text
  import opened MemPool
  import opened BucketPool

  /** The pools, and the blocks the system handed out with the sizes asked for. */
  datatype Bank = Bank(pools: seq<Pool>, system: map<nat, nat>)

  datatype Request = Allocate(bytes: nat, offer: nat) | Deallocate(a: nat) | Reallocate(a: nat, bytes: nat, offer: nat)

  /** A block the system hands out takes at least one byte, so that its address is its own. */
  function Span(bytes: nat): nat {
    if bytes == 0 then 1 else bytes
  }

  predicate LiveIn(m: Bank, a: nat) {
    LiveBlock(m.pools, a) || a in m.system
  }

  /** Bytes a live block may use. */
  function SizeOf(m: Bank, a: nat): nat
    requires LiveIn(m, a) && ValidPools(m.pools)
  {
    if a in m.system then m.system[a]
    else
      OwnerOfBlock(m.pools, a);
      m.pools[Owner(m.pools, a).value].bytes
  }

  /** What the system offers lies outside the pools and all its own blocks but `except`. */
  predicate Offered(m: Bank, bytes: nat, offer: nat, except: set<nat>) {
    && Outside(m.pools, offer, Span(bytes))
    && forall b | b in m.system && b !in except :: offer + Span(bytes) <= b || b + Span(m.system[b]) <= offer
  }

  /** The system offers memory that is free, and callers name live blocks only. A block
      of the system may grow into its own place. */
  predicate Fair(m: Bank, r: Request) {
    match r
    case Allocate(bytes, offer) => Offered(m, bytes, offer, {})
    case Deallocate(a) => LiveIn(m, a)
    case Reallocate(a, bytes, offer) => LiveIn(m, a) && Offered(m, bytes, offer, {a})
  }

  /** The pools are valid, and the system's blocks lie outside them and each other. */
  predicate Tidy(m: Bank) {
    && ValidPools(m.pools)
    && (forall b | b in m.system :: Outside(m.pools, b, Span(m.system[b])))
    && forall b, c | b in m.system && c in m.system && b != c ::
         b + Span(m.system[b]) <= c || c + Span(m.system[c]) <= b
  }

  function Serve(m: Bank, r: Request): Bank
    requires Tidy(m) && Fair(m, r)
  {
    match r
    case Allocate(bytes, offer) =>
      var (after, a, size) := BucketTake(m.pools, bytes, offer);
      Bank(after, if size.None? then m.system[a := bytes] else m.system)
    case Deallocate(a) =>
      if Owner(m.pools, a).Some? then Bank(ChainRelease(m.pools, a), m.system) else Bank(m.pools, m.system - {a})
    case Reallocate(a, bytes, offer) =>
      if Owner(m.pools, a).None? then Bank(m.pools, (m.system - {a})[offer := bytes])
      else
        OwnedIsLive(m, a);
        var (after, b) := Regrown(m.pools, a, bytes, offer);
        Bank(after, if Owner(after, b).Some? then m.system else m.system[b := bytes])
  }

  // ---------- places ----------

  lemma OutsideHasNoOwner(pools: seq<Pool>, a: nat, length: nat)
    requires Outside(pools, a, length) && length > 0
    ensures Owner(pools, a).None?
  {
    hide Owner;
  }

  /** An address in a pool is not the system's. */
  lemma OwnedIsLive(m: Bank, a: nat)
    requires Tidy(m) && LiveIn(m, a) && Owner(m.pools, a).Some?
    ensures LiveBlock(m.pools, a) && a !in m.system
  {
    hide Owner, Outside, LiveBlock, ValidPools;
    if a in m.system {
      OutsideHasNoOwner(m.pools, a, Span(m.system[a]));
    }
  }

  lemma UnmovedOutside(pools: seq<Pool>, after: seq<Pool>, start: nat, length: nat)
    requires Unmoved(pools, after)
    ensures Outside(after, start, length) == Outside(pools, start, length)
  {
    forall i: nat | i < |pools| ensures End(after[i]) == End(pools[i]) {
      SameEnd(after[i], pools[i]);
    }
    hide End;
  }

  lemma ShorterOutside(pools: seq<Pool>, start: nat, bytes: nat)
    requires Outside(pools, start, Span(bytes))
    ensures Outside(pools, start, bytes)
  {
    hide End;
  }

  lemma UnmovedTwice(a: seq<Pool>, b: seq<Pool>, c: seq<Pool>)
    requires Unmoved(a, b) && Unmoved(b, c)
    ensures Unmoved(a, c)
  {
  }

  lemma RegrownUnmoved(pools: seq<Pool>, a: nat, bytes: nat, offer: nat)
    requires ValidPools(pools) && LiveBlock(pools, a)
    ensures Unmoved(pools, Regrown(pools, a, bytes, offer).0)
  {
    RegrownParts(pools, a, bytes, offer);
    BucketAllocationIsFresh(pools, bytes, offer);
    hide Regrown, Owner, BucketTake, LiveBlock, ValidPools, ChainRelease, NewlyLive;
    if bytes > pools[Owner(pools, a).value].bytes {
      var taken := BucketTake(pools, bytes, offer).0;
      DeallocationFreesOne(taken, a);
      UnmovedTwice(pools, taken, ChainRelease(taken, a));
    }
  }

  // ---------- every request keeps blocks apart ----------

  /** Pools that have not moved, and one more block of the system at most. */
  lemma StaysTidy(m: Bank, after: seq<Pool>, system: map<nat, nat>)
    requires Tidy(m) && ValidPools(after) && Unmoved(m.pools, after)
    requires forall b | b in system :: (b in m.system && system[b] == m.system[b]) ||
               (Outside(m.pools, b, Span(system[b])) &&
                forall c | c in system && c != b ::
                  c in m.system && system[c] == m.system[c] && (b + Span(system[b]) <= c || c + Span(system[c]) <= b))
    ensures Tidy(Bank(after, system))
  {
    hide ValidPools, Unmoved, Outside;
    forall b | b in system ensures Outside(after, b, Span(system[b])) {
      UnmovedOutside(m.pools, after, b, Span(system[b]));
    }
  }

  lemma ServeKeepsTidy(m: Bank, r: Request)
    requires Tidy(m) && Fair(m, r)
    ensures Tidy(Serve(m, r))
  {
    hide BucketTake, ChainRelease, Regrown, Outside, LiveBlock, Valid, ValidPools, Owner, Unmoved, NewlyLive;
    match r
    case Allocate(bytes, offer) =>
      BucketAllocationIsFresh(m.pools, bytes, offer);
      StaysTidy(m, BucketTake(m.pools, bytes, offer).0, Serve(m, r).system);
    case Deallocate(a) =>
      SameUnmoved(m.pools);
      if Owner(m.pools, a).Some? {
        OwnedIsLive(m, a);
        DeallocationFreesOne(m.pools, a);
      }
      StaysTidy(m, Serve(m, r).pools, Serve(m, r).system);
    case Reallocate(a, bytes, offer) =>
      SameUnmoved(m.pools);
      if Owner(m.pools, a).Some? {
        OwnedIsLive(m, a);
        ShorterOutside(m.pools, offer, bytes);
        RegrowthMovesOne(m.pools, a, bytes, offer);
        RegrownUnmoved(m.pools, a, bytes, offer);
        RegrownOwner(m.pools, a, bytes, offer);
      }
      StaysTidy(m, Serve(m, r).pools, Serve(m, r).system);
  }

  lemma SameUnmoved(pools: seq<Pool>)
    ensures Unmoved(pools, pools)
  {
  }

  /** A block that moved to the system is where the system offered. */
  lemma RegrownOwner(pools: seq<Pool>, a: nat, bytes: nat, offer: nat)
    requires ValidPools(pools) && LiveBlock(pools, a) && Outside(pools, offer, bytes)
    ensures var (after, b) := Regrown(pools, a, bytes, offer); Owner(after, b).None? ==> b == offer
  {
    RegrowthMovesOne(pools, a, bytes, offer);
    hide Regrown, Owner, LiveBlock, ValidPools, Outside;
    var (after, b) := Regrown(pools, a, bytes, offer);
    if LiveBlock(after, b) {
      LiveIsBlock(after, b);
    }
  }

  // ---------- whole runs ----------

  predicate AllFair(m: Bank, rs: seq<Request>)
    requires Tidy(m)
    decreases |rs|
  {
    rs == [] || (Fair(m, rs[0]) && (ServeKeepsTidy(m, rs[0]); AllFair(Serve(m, rs[0]), rs[1..])))
  }

  function ServeAll(m: Bank, rs: seq<Request>): Bank
    requires Tidy(m) && AllFair(m, rs)
    decreases |rs|
  {
    if rs == [] then m else ServeKeepsTidy(m, rs[0]); ServeAll(Serve(m, rs[0]), rs[1..])
  }

  /** After any run of requests no two live blocks overlap, whatever their sizes and
      wherever they come from. */
  lemma {:induction false} NoOverlapEver(m: Bank, rs: seq<Request>, a: nat, b: nat)
    requires Tidy(m) && AllFair(m, rs) && a != b
    requires LiveIn(ServeAll(m, rs), a) && LiveIn(ServeAll(m, rs), b)
    ensures var end := ServeAll(m, rs);
            Tidy(end) && (a + SizeOf(end, a) <= b || b + SizeOf(end, b) <= a)
    decreases |rs|
  {
    hide Serve, Fair, Tidy, SizeOf;
    if rs != [] {
      ServeKeepsTidy(m, rs[0]);
      NoOverlapEver(Serve(m, rs[0]), rs[1..], a, b);
    } else {
      TidyBlocksApart(m, a, b);
    }
  }

  lemma TidyBlocksApart(m: Bank, a: nat, b: nat)
    requires Tidy(m) && LiveIn(m, a) && LiveIn(m, b) && a != b
    ensures a + SizeOf(m, a) <= b || b + SizeOf(m, b) <= a
  {
    if a !in m.system { LiveIsBlock(m.pools, a); }
    if b !in m.system { LiveIsBlock(m.pools, b); }
    hide LiveBlock, Owner, Outside, BlockOf, ValidPools;
    if a !in m.system && b !in m.system {
      PoolBlocksApart(m.pools, a, SizeOf(m, a), b, SizeOf(m, b));
    } else if a !in m.system {
      OutsideBlock(m.pools, b, Span(m.system[b]), a, SizeOf(m, a));
    } else if b !in m.system {
      OutsideBlock(m.pools, a, Span(m.system[a]), b, SizeOf(m, b));
    }
  }

  /** In any reachable state an allocation gives a block that is not live, of at least
      the size asked for, and leaves every live block as it is. */
  lemma AllocationFits(m: Bank, bytes: nat, offer: nat)
    requires Tidy(m) && Fair(m, Request.Allocate(bytes, offer))
    ensures var a, end := BucketTake(m.pools, bytes, offer).1, Serve(m, Request.Allocate(bytes, offer));
            && !LiveIn(m, a) && LiveIn(end, a) && ValidPools(end.pools) && SizeOf(end, a) >= bytes
            && forall b | LiveIn(m, b) :: LiveIn(end, b) && SizeOf(end, b) == SizeOf(m, b)
  {
    ServeKeepsTidy(m, Request.Allocate(bytes, offer));
    NewBlockFits(m, bytes, offer);
    var end := Serve(m, Request.Allocate(bytes, offer));
    hide Serve, LiveIn, SizeOf, Tidy;
    assert ValidPools(end.pools) by { TidyIsValid(end); }
    forall b | LiveIn(m, b) ensures LiveIn(end, b) && SizeOf(end, b) == SizeOf(m, b) {
      OldBlockStays(m, bytes, offer, b);
    }
  }

  lemma TidyIsValid(m: Bank)
    requires Tidy(m)
    ensures ValidPools(m.pools)
  {
  }

  lemma NewBlockFits(m: Bank, bytes: nat, offer: nat)
    requires Tidy(m) && Fair(m, Request.Allocate(bytes, offer))
    ensures var a, end := BucketTake(m.pools, bytes, offer).1, Serve(m, Request.Allocate(bytes, offer));
            !LiveIn(m, a) && LiveIn(end, a) && ValidPools(end.pools) && SizeOf(end, a) >= bytes
  {
    var (after, a, size) := BucketTake(m.pools, bytes, offer);
    BucketAllocationIsFresh(m.pools, bytes, offer);
    hide BucketTake, LiveBlock, Outside, ValidPools, Owner, BlockOf;
    match size
    case None => OutsideNotLive(m.pools, offer, Span(bytes));
    case Some(n) =>
      LiveHasSize(after, a, n);
      if a in m.system {
        UnmovedOutside(m.pools, after, a, Span(m.system[a]));
        OutsideHasNoOwner(after, a, Span(m.system[a]));
      }
  }

  lemma OldBlockStays(m: Bank, bytes: nat, offer: nat, b: nat)
    requires Tidy(m) && Fair(m, Request.Allocate(bytes, offer)) && LiveIn(m, b)
    ensures var end := Serve(m, Request.Allocate(bytes, offer));
            LiveIn(end, b) && ValidPools(end.pools) && SizeOf(end, b) == SizeOf(m, b)
  {
    BucketAllocationIsFresh(m.pools, bytes, offer);
    if b !in m.system {
      LiveIsBlock(m.pools, b);
    }
    hide BucketTake, LiveBlock, Outside, ValidPools, Owner, Unmoved, BlockOf;
    var after := BucketTake(m.pools, bytes, offer).0;
    if b in m.system {
      assert b != offer;
    } else {
      OwnerUnmoved(m.pools, after, b);
      SameBytes(m.pools, after, Owner(m.pools, b).value);
      OutsideHasNoOwner(m.pools, offer, Span(bytes));
    }
  }

  lemma SameBytes(pools: seq<Pool>, after: seq<Pool>, i: nat)
    requires Unmoved(pools, after) && i < |pools|
    ensures i < |after| && after[i].bytes == pools[i].bytes
  {
  }

  /** The size of a block is that of the pool it lies in. */
  lemma LiveHasSize(pools: seq<Pool>, a: nat, n: nat)
    requires ValidPools(pools) && BlockOf(pools, a, n)
    ensures LiveBlock(pools, a) && Owner(pools, a).Some? && pools[Owner(pools, a).value].bytes == n
  {
    BlockSizesPositive(pools);
    var i :| 0 <= i < |pools| && Allocated(pools[i], a) && pools[i].bytes == n;
    BlockWithin(pools[i], a);
    OneOwner(pools, a);
    assert LiveBlock(pools, a);
    OwnerOfBlock(pools, a);
    hide Allocated, Valid, ValidPools;
  }
}
