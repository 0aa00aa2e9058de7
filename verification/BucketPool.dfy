/** The bucket pool of mempool++/mempool.h: one pool for each block size, tried in
    turn, and blocks that move between them when they grow. */
module BucketPool {
  import opened Text
  import opened MemPool

  /** `allocate(bytes)`: the pools left, the address, and the size of the block if
      it is not the system's. */
  function BucketTake(pools: seq<Pool>, bytes: nat, offer: nat): (r: (seq<Pool>, nat, Option<nat>))
    requires ValidPools(pools)
  {
    if pools == [] then ([], offer, None)
    else
      ValidTail(pools);
      var (p, slot) := Asked(pools[0], bytes);
      if slot.Some? then ([p] + pools[1..], Address(p, slot.value), Some(p.bytes))
      else
        var (rest, a, size) := BucketTake(pools[1..], bytes, offer);
        ([p] + rest, a, size)
  }

  ghost predicate BucketGranted(pools: seq<Pool>, bytes: nat, after: seq<Pool>, a: nat, size: Option<nat>) {
    ValidPools(after) && Unmoved(pools, after) && NewlyLive(pools, bytes, after, a, size)
  }

  ghost predicate NewlyLive(pools: seq<Pool>, bytes: nat, after: seq<Pool>, a: nat, size: Option<nat>) {
    match size
       case None => forall b: nat :: LiveBlock(after, b) <==> LiveBlock(pools, b)
       case Some(n) =>
         && n >= bytes && !LiveBlock(pools, a) && BlockOf(after, a, n)
         && forall b: nat :: LiveBlock(after, b) <==> LiveBlock(pools, b) || b == a
  }

  /** `a` is a live block of `size` bytes. */
  predicate BlockOf(pools: seq<Pool>, a: nat, size: nat) {
    exists i | 0 <= i < |pools| :: Allocated(pools[i], a) && pools[i].bytes == size
  }

  lemma ValidTail(pools: seq<Pool>)
    requires ValidPools(pools) && pools != []
    ensures ValidPools(pools[1..])
  {
    hide Valid, Apart;
    forall i, j | 0 <= i < j < |pools| - 1 ensures Apart(pools[1..][i], pools[1..][j]) {
      assert Apart(pools[i + 1], pools[j + 1]);
    }
  }

  lemma ValidHead(p: Pool, rest: seq<Pool>)
    requires Valid(p) && ValidPools(rest) && forall i | 0 <= i < |rest| :: Apart(p, rest[i])
    ensures ValidPools([p] + rest)
  {
    hide Valid, Apart;
    var pools := [p] + rest;
    forall i, j | 0 <= i < j < |pools| ensures Apart(pools[i], pools[j]) {
      if i == 0 { assert pools[j] == rest[j - 1]; } else { assert Apart(rest[i - 1], rest[j - 1]); }
    }
  }

  lemma HeadApart(pools: seq<Pool>, p: Pool, rest: seq<Pool>)
    requires ValidPools(pools) && pools != [] && Unmoved(pools[1..], rest)
    requires p.start == pools[0].start && End(p) == End(pools[0])
    ensures forall i | 0 <= i < |rest| :: Apart(p, rest[i])
  {
    hide Valid;
    forall i | 0 <= i < |rest| ensures Apart(p, rest[i]) {
      assert Apart(pools[0], pools[i + 1]);
      SameEnd(rest[i], pools[i + 1]);
    }
  }

  lemma BlockOfCons(p: Pool, rest: seq<Pool>, a: nat, n: nat)
    requires BlockOf(rest, a, n)
    ensures BlockOf([p] + rest, a, n) && LiveBlock(rest, a)
  {
    hide Allocated;
    var i :| 0 <= i < |rest| && Allocated(rest[i], a) && rest[i].bytes == n;
    assert Allocated(([p] + rest)[i + 1], a);
  }

  lemma BlockSizesPositive(pools: seq<Pool>)
    requires ValidPools(pools)
    ensures forall i | 0 <= i < |pools| :: pools[i].bytes > 0
  {
  }

  /** What one pool answers to a request; it is not asked when its blocks are too small. */
  function Asked(p: Pool, bytes: nat): (Pool, Option<nat>)
    requires Valid(p)
  {
    if bytes <= p.bytes then Take(p) else (p, None)
  }

  lemma AskedPlace(p: Pool, bytes: nat)
    requires Valid(p) && Asked(p, bytes).1.None?
    ensures var q := Asked(p, bytes).0;
            && Valid(q) && q.start == p.start && q.bytes == p.bytes && |q.used| == |p.used| && End(q) == End(p)
            && forall a: nat :: Allocated(q, a) <==> Allocated(p, a)
  {
    TakenPlace(p);
    TakeKeepsValid(p);
  }

  lemma TailServes(pools: seq<Pool>, bytes: nat, rest: seq<Pool>, a: nat, size: Option<nat>)
    requires ValidPools(pools) && pools != [] && Asked(pools[0], bytes).1.None?
    requires BucketGranted(pools[1..], bytes, rest, a, size)
    ensures BucketGranted(pools, bytes, [Asked(pools[0], bytes).0] + rest, a, size)
  {
    AskedPlace(pools[0], bytes);
    hide Asked, Valid, Allocated, LiveBlock, BlockOf, End, ValidPools, Apart, NewlyLive;
    var p := Asked(pools[0], bytes).0;
    HeadApart(pools, p, rest);
    ValidHead(p, rest);
    TailLive(pools, bytes, p, rest, a, size);
  }

  lemma TailLive(pools: seq<Pool>, bytes: nat, p: Pool, rest: seq<Pool>, a: nat, size: Option<nat>)
    requires ValidPools(pools) && pools != [] && Unmoved(pools[1..], rest) && p.bytes == pools[0].bytes
    requires NewlyLive(pools[1..], bytes, rest, a, size)
    requires forall i | 0 <= i < |rest| :: Apart(p, rest[i])
    requires forall b: nat :: Allocated(p, b) <==> Allocated(pools[0], b)
    ensures NewlyLive(pools, bytes, [p] + rest, a, size)
  {
    BlockSizesPositive(pools);
    hide Valid, Allocated, LiveBlock, BlockOf, End, ValidPools, Apart;
    assert pools == [pools[0]] + pools[1..];
    LiveCons(pools[0], pools[1..]);
    LiveCons(p, rest);
    if size.Some? {
      BlockOfCons(p, rest, a, size.value);
      LiveElsewhere(p, rest, a);
    }
  }

  /** An allocation gives a block large enough that no live block shares. */
  lemma {:induction false} BucketAllocationIsFresh(pools: seq<Pool>, bytes: nat, offer: nat)
    requires ValidPools(pools)
    ensures var (after, a, size) := BucketTake(pools, bytes, offer);
            BucketGranted(pools, bytes, after, a, size) && (size.None? ==> a == offer)
  {
    if pools != [] {
      ValidTail(pools);
      hide Take, Valid, Allocated, Address, LiveBlock, BlockOf, End, BucketGranted;
      BucketAllocationIsFresh(pools[1..], bytes, offer);
      if Asked(pools[0], bytes).1.Some? {
        HeadServes(pools, bytes);
      } else {
        var (rest, a, size) := BucketTake(pools[1..], bytes, offer);
        TailServes(pools, bytes, rest, a, size);
      }
    }
  }

  /** A pool that could serve the request. */
  predicate CanServe(p: Pool, bytes: nat)
    requires Valid(p)
  {
    bytes <= p.bytes && Take(p).1.Some?
  }

  /** Pool `i` serves the request with the slot it would give by itself, and if there is
      no such pool the system does. The pools in front were asked if their blocks are
      large enough; those behind were not. */
  ghost predicate ServedBy(pools: seq<Pool>, i: nat, bytes: nat, offer: nat, after: seq<Pool>, a: nat, size: Option<nat>)
    requires forall j | 0 <= j < |pools| :: Valid(pools[j])
  {
    && i <= |pools| == |after|
    && (if i == |pools| then a == offer && size == None
        else && Take(pools[i]).1.Some? && a == Address(pools[i], Take(pools[i]).1.value)
             && size == Some(pools[i].bytes) && after[i] == Take(pools[i]).0)
    && (forall j | 0 <= j < i :: after[j] == if bytes <= pools[j].bytes then Take(pools[j]).0 else pools[j])
    && forall j | i < j < |pools| :: after[j] == pools[j]
  }

  /** The number of the first pool that can serve the request; all pools if none can. */
  predicate FirstAble(pools: seq<Pool>, i: nat, bytes: nat)
    requires forall j | 0 <= j < |pools| :: Valid(pools[j])
  {
    && i <= |pools| && (forall j | 0 <= j < i :: !CanServe(pools[j], bytes))
    && (i < |pools| ==> CanServe(pools[i], bytes))
  }

  /** The first pool that can serve a request does. */
  lemma {:induction false} TakesTheFirst(pools: seq<Pool>, bytes: nat, offer: nat) returns (i: nat)
    requires ValidPools(pools)
    ensures forall j | 0 <= j < |pools| :: Valid(pools[j])
    ensures FirstAble(pools, i, bytes)
    ensures var (after, a, size) := BucketTake(pools, bytes, offer); ServedBy(pools, i, bytes, offer, after, a, size)
  {
    hide Take, Valid, Apart;
    if pools == [] {
      i := 0;
    } else if CanServe(pools[0], bytes) {
      i := 0;
      TakenPlace(pools[0]);
    } else {
      ValidTail(pools);
      var k := TakesTheFirst(pools[1..], bytes, offer);
      i := k + 1;
      assert forall j | 0 < j < |pools| :: pools[j] == pools[1..][j - 1];
      var (rest, a, size) := BucketTake(pools[1..], bytes, offer);
      ServedBehind(pools, k, bytes, offer, rest, a, size);
    }
  }

  lemma ServedBehind(pools: seq<Pool>, k: nat, bytes: nat, offer: nat, rest: seq<Pool>, a: nat, size: Option<nat>)
    requires pools != [] && (forall j | 0 <= j < |pools| :: Valid(pools[j]))
    requires ServedBy(pools[1..], k, bytes, offer, rest, a, size)
    ensures ServedBy(pools, k + 1, bytes, offer, [Asked(pools[0], bytes).0] + rest, a, size)
  {
    hide Take, Valid, Address;
    var after := [Asked(pools[0], bytes).0] + rest;
    assert forall j | 0 < j < |pools| :: pools[j] == pools[1..][j - 1] && after[j] == rest[j - 1];
  }

  lemma HeadServes(pools: seq<Pool>, bytes: nat)
    requires ValidPools(pools) && pools != [] && bytes <= pools[0].bytes && Take(pools[0]).1.Some?
    ensures var (p, slot) := Take(pools[0]);
            var a := Address(p, slot.value);
            BucketGranted(pools, bytes, [p] + pools[1..], a, Some(p.bytes))
  {
    hide Take, Valid, Address;
    var (p, slot) := Take(pools[0]);
    var rest := pools[1..];
    var a := Address(p, slot.value);
    assert pools == [pools[0]] + rest;
    TakenPlace(pools[0]) by { assert Valid(pools[0]); }
    TakeKeepsValid(pools[0]);
    TakenBlock(pools[0]);
    ValidTail(pools);
    BlockSizesPositive(pools);
    hide Allocated, End;
    HeadApart(pools, p, rest);
    ValidHead(p, rest);
    LiveCons(pools[0], rest);
    LiveCons(p, rest);
    forall i | 0 <= i < |rest| ensures !Allocated(rest[i], a) {
      ApartIsDisjoint(rest[i], p, a);
    }
    assert Allocated(([p] + rest)[0], a);
  }

  // ---------- growing a block ----------

  /** `reallocate` on a block of the pools: the pools left and the block's new place.
      A block that is large enough stays; otherwise it moves. */
  function Regrown(pools: seq<Pool>, a: nat, bytes: nat, offer: nat): (r: (seq<Pool>, nat))
    requires ValidPools(pools) && LiveBlock(pools, a)
  {
    OwnerOfBlock(pools, a);
    if bytes <= pools[Owner(pools, a).value].bytes then (pools, a)
    else
      BucketAllocationIsFresh(pools, bytes, offer);
      var (after, b, _) := BucketTake(pools, bytes, offer);
      (ChainRelease(after, a), b)
  }

  predicate Fits(pools: seq<Pool>, memory: nat) {
    forall i | 0 <= i < |pools| :: End(pools[i]) <= memory
  }

  lemma PoolBlocksApart(pools: seq<Pool>, a: nat, n: nat, b: nat, m: nat)
    requires ValidPools(pools) && BlockOf(pools, a, n) && BlockOf(pools, b, m) && a != b
    ensures a + n <= b || b + m <= a
  {
    var i :| 0 <= i < |pools| && Allocated(pools[i], a) && pools[i].bytes == n;
    var j :| 0 <= j < |pools| && Allocated(pools[j], b) && pools[j].bytes == m;
    hide Valid, Allocated, Address;
    BlockWithin(pools[i], a);
    BlockWithin(pools[j], b);
    if i == j {
      BlocksApart(pools[i], a, b);
    } else if i < j {
      assert Apart(pools[i], pools[j]);
    } else {
      assert Apart(pools[j], pools[i]);
    }
  }

  lemma StillBlock(pools: seq<Pool>, after: seq<Pool>, a: nat, n: nat)
    requires ValidPools(pools) && ValidPools(after) && Unmoved(pools, after)
    requires BlockOf(pools, a, n) && LiveBlock(after, a)
    ensures BlockOf(after, a, n)
  {
    var i :| 0 <= i < |pools| && Allocated(pools[i], a) && pools[i].bytes == n;
    var k :| 0 <= k < |after| && Allocated(after[k], a);
    BlockSizesPositive(after);
    hide Valid, Allocated, Address;
    BlockWithin(pools[i], a);
    BlockWithin(after[k], a);
    SameEnd(pools[i], after[i]);
    OneOwner(after, a);
  }

  lemma LiveIsBlock(pools: seq<Pool>, a: nat)
    requires ValidPools(pools) && LiveBlock(pools, a)
    ensures Owner(pools, a).Some? && BlockOf(pools, a, pools[Owner(pools, a).value].bytes)
  {
    OwnerOfBlock(pools, a);
  }

  lemma OutsideBlock(pools: seq<Pool>, start: nat, length: nat, a: nat, n: nat)
    requires Outside(pools, start, length) && BlockOf(pools, a, n)
    ensures start + length <= a || a + n <= start
  {
    var i :| 0 <= i < |pools| && Allocated(pools[i], a) && pools[i].bytes == n;
    BlockWithin(pools[i], a);
  }

  lemma OutsideNotLive(pools: seq<Pool>, start: nat, length: nat)
    requires ValidPools(pools) && Outside(pools, start, length) && length > 0
    ensures !LiveBlock(pools, start)
  {
    BlockSizesPositive(pools);
    hide Valid, Allocated;
    if LiveBlock(pools, start) {
      var i :| 0 <= i < |pools| && Allocated(pools[i], start);
      BlockWithin(pools[i], start);
    }
  }

  /** The bytes of a new block belong to no block that was live. */
  lemma NewBlockApart(pools: seq<Pool>, bytes: nat, offer: nat, a: nat, n: nat)
    requires ValidPools(pools) && BlockOf(pools, a, n) && LiveBlock(pools, a) && Outside(pools, offer, bytes)
    requires bytes > 0
    ensures var (after, b, size) := BucketTake(pools, bytes, offer);
            (b + bytes <= a || a + n <= b) && LiveBlock(after, a) && BlockOf(after, a, n)
  {
    BucketAllocationIsFresh(pools, bytes, offer);
    hide BucketTake, LiveBlock, BlockOf, Valid, ValidPools, Unmoved, Outside;
    var (after, b, size) := BucketTake(pools, bytes, offer);
    StillBlock(pools, after, a, n);
    match size
    case None => OutsideBlock(pools, offer, bytes, a, n);
    case Some(m) => PoolBlocksApart(after, a, n, b, m);
  }

  /** `reallocate` keeps the number of blocks: the old one is gone unless it stays
      where it is, the new one is live, and all others are as before. */
  lemma RegrowthMovesOne(pools: seq<Pool>, a: nat, bytes: nat, offer: nat)
    requires ValidPools(pools) && LiveBlock(pools, a) && Outside(pools, offer, bytes)
    ensures var (after, b) := Regrown(pools, a, bytes, offer);
            && ValidPools(after)
            && (forall c: nat | c != a && c != b :: LiveBlock(after, c) <==> LiveBlock(pools, c))
            && (b != a ==> !LiveBlock(after, a) && !LiveBlock(pools, b))
            && if LiveBlock(after, b) then LargeEnough(after, b, bytes) else b == offer
  {
    RegrownParts(pools, a, bytes, offer);
    LiveIsBlock(pools, a);
    hide Regrown, Owner, BucketTake, LiveBlock, BlockOf, Valid, ValidPools, Outside, ChainRelease;
    var n := pools[Owner(pools, a).value].bytes;
    if bytes > n {
      NewBlockApart(pools, bytes, offer, a, n);
      MovedBlock(pools, a, bytes, offer);
    }
  }

  /** The new block taken, the old one given up. */
  lemma MovedBlock(pools: seq<Pool>, a: nat, bytes: nat, offer: nat)
    requires ValidPools(pools) && LiveBlock(pools, a) && Outside(pools, offer, bytes) && bytes > 0
    requires var (taken, b, _) := BucketTake(pools, bytes, offer); b != a && LiveBlock(taken, a)
    ensures var (taken, b, size) := BucketTake(pools, bytes, offer);
            && ValidPools(taken)
            && var after := ChainRelease(taken, a);
               && ValidPools(after) && !LiveBlock(after, a) && !LiveBlock(pools, b)
               && (forall c: nat | c != a && c != b :: LiveBlock(after, c) <==> LiveBlock(pools, c))
               && if LiveBlock(after, b) then LargeEnough(after, b, bytes) else b == offer
  {
    BucketAllocationIsFresh(pools, bytes, offer);
    hide BucketTake, LiveBlock, BlockOf, Valid, ValidPools, Unmoved, Outside, ChainRelease;
    var (taken, b, size) := BucketTake(pools, bytes, offer);
    DeallocationFreesOne(taken, a);
    match size
    case None => OutsideNotLive(pools, offer, bytes);
    case Some(m) => StillBlock(taken, ChainRelease(taken, a), b, m);
  }

  lemma RegrownParts(pools: seq<Pool>, a: nat, bytes: nat, offer: nat)
    requires ValidPools(pools) && LiveBlock(pools, a)
    ensures Owner(pools, a).Some?
    ensures if bytes <= pools[Owner(pools, a).value].bytes then Regrown(pools, a, bytes, offer) == (pools, a)
            else
              var (taken, b, _) := BucketTake(pools, bytes, offer);
              && ValidPools(taken) && LiveBlock(taken, a)
              && Regrown(pools, a, bytes, offer) == (ChainRelease(taken, a), b)
  {
    OwnerOfBlock(pools, a);
    BucketAllocationIsFresh(pools, bytes, offer);
    hide Owner, BucketTake, LiveBlock, BlockOf, Valid, ValidPools, ChainRelease;
  }

  ghost predicate LargeEnough(pools: seq<Pool>, a: nat, bytes: nat) {
    exists n: nat :: n >= bytes && BlockOf(pools, a, n)
  }

  // ---------- the bucket pool object ----------

  type Byte = bv8

  /** `memcpy`. */
  method CopyMemory(memory: array<Byte>, dst: nat, src: nat, n: nat)
    requires dst + n <= memory.Length && src + n <= memory.Length && (dst + n <= src || src + n <= dst)
    modifies memory
    ensures memory[..] == Copied(old(memory[..]), dst, src, n)
  {
    ghost var before := memory[..];
    var i := 0;
    while i < n
      invariant 0 <= i <= n
      invariant forall x | 0 <= x < memory.Length && !(dst <= x < dst + i) :: memory[x] == before[x]
      invariant forall x | dst <= x < dst + i :: memory[x] == before[src + (x - dst)]
    {
      memory[dst + i] := memory[src + i];
      i := i + 1;
    }
    ghost var copied := Copied(before, dst, src, n);
    hide Copied;
    forall x | 0 <= x < |before| ensures memory[x] == copied[x] {
      if dst <= x < dst + n {
        assert copied[dst..dst + n][x - dst] == before[src..src + n][x - dst];
      }
    }
    assert memory[..] == copied;
  }

  /** `bucket_pool_8` and its relatives; `memory` is the memory all blocks live in. */
  class Buckets {
    const pools: seq<MemoryPool>
    const memory: array<Byte>

    ghost predicate Good()
      reads this, pools, set p | p in pools :: p.used
    {
      && (forall i, j | 0 <= i < j < |pools| :: pools[i] != pools[j] && pools[i].used != pools[j].used)
      && (forall i | 0 <= i < |pools| :: pools[i].used as object != memory as object)
      && ValidPools(State()) && Fits(State(), memory.Length)
    }

    ghost function State(): (s: seq<Pool>)
      reads this, pools, set p | p in pools :: p.used
      ensures |s| == |pools| && forall i | 0 <= i < |s| :: s[i] == pools[i].Own()
    {
      seq(|pools|, i requires 0 <= i < |pools| reads this, pools, (set p | p in pools :: p.used) => pools[i].Own())
    }

    /** One line of `allocate`: asks pool `i` if its blocks are large enough. */
    method Ask(i: nat, bytes: nat) returns (r: Option<nat>)
      requires Good() && i < |pools|
      modifies pools[i], pools[i].used
      ensures Good() && memory[..] == old(memory[..])
      ensures var (p, slot) := Asked(old(State())[i], bytes);
              && State() == old(State())[i := p]
              && r == if slot.Some? then Some(Address(p, slot.value)) else None
    {
      hide Valid, Take;
      ghost var before := State();
      assert Valid(before[i]);
      TakenPlace(before[i]);
      TakeKeepsValid(before[i]);
      if bytes <= pools[i].bytes {
        r := pools[i].AllocateNoFallback();
        assert State() == before[i := Take(before[i]).0];
        PutPool(before, i, Take(before[i]).0, memory.Length);
      } else {
        assert State() == before[i := before[i]];
        r := None;
      }
    }

    /** `allocate(bytes)`; `size` is the size of the block unless it is the system's. */
    method Allocate(bytes: nat, offer: nat) returns (a: nat, size: Option<nat>)
      requires Good()
      modifies pools, set p | p in pools :: p.used
      ensures Good() && memory[..] == old(memory[..])
      ensures (State(), a, size) == BucketTake(old(State()), bytes, offer)
      ensures ValidPools(old(State())) && exists i ::
                FirstAble(old(State()), i, bytes) && ServedBy(old(State()), i, bytes, offer, State(), a, size)
    {
      ghost var before := State();
      GoodIsValid();
      ghost var first := TakesTheFirst(before, bytes, offer);
      ServingStart(before, bytes, offer);
      hide *;
      var i := 0;
      while i < |pools|
        invariant 0 <= i <= |pools| && Good() && memory[..] == old(memory[..])
        invariant |State()| == |pools| && Serving(before, State(), i, bytes, offer)
      {
        ghost var s := State();
        ServingTurn(before, s, i, bytes, offer);
        var r := Ask(i, bytes);
        if r.Some? {
          return r.value, Some(pools[i].bytes);
        }
        i := i + 1;
      }
      ServingEnd(before, State(), bytes, offer);
      return offer, None;
    }

    method Copy(dst: nat, src: nat, n: nat)
      requires dst + n <= memory.Length && src + n <= memory.Length && (dst + n <= src || src + n <= dst)
      requires Good()
      modifies memory
      ensures Good() && State() == old(State())
      ensures memory[..] == Copied(old(memory[..]), dst, src, n)
    {
      hide ValidPools, Fits, Copied;
      CopyMemory(memory, dst, src, n);
    }

    /** `reallocate` once the pool with the block is known: a block that is too
        small is copied to a new one and given back. */
    method Grow(i: nat, a: nat, bytes: nat, offer: nat) returns (b: nat)
      requires Good() && i < |pools| && LiveBlock(State(), a) && Owner(State(), a) == Some(i)
      requires Outside(State(), offer, bytes) && offer + bytes <= memory.Length
      modifies memory, pools, set p | p in pools :: p.used
      ensures Good()
      ensures (State(), b) == Regrown(old(State()), a, bytes, offer)
      ensures Moved(old(State()), old(memory[..]), a, b, memory[..])
    {
      hide Valid, LiveBlock, BucketTake, ChainRelease, ValidPools, Outside, Owner, Good, Regrown, Fits;
      ghost var before := State();
      GoodIsValid();
      if bytes <= pools[i].bytes {
        RegrownParts(before, a, bytes, offer);
        return a;
      }
      MoveFacts(before, a, bytes, offer, i, memory.Length);
      var size;
      b, size := Allocate(bytes, offer);
      ghost var taken := State();
      Copy(b, a, pools[i].bytes);
      Release(i, a);
    }

    /** `deallocate_nofallback` on the pool that holds the block. */
    method Release(i: nat, a: nat)
      requires Good() && i < |pools| && LiveBlock(State(), a) && Owner(State(), a) == Some(i)
      modifies pools[i], pools[i].used
      ensures Good() && memory[..] == old(memory[..])
      ensures State() == ChainRelease(old(State()), a)
    {
      hide Valid, LiveBlock, Allocated, Owner;
      ghost var before := State();
      OwnerOfBlock(before, a);
      ghost var slot := Slot(before[i], a);
      ReleaseKeepsValid(before[i], slot);
      pools[i].DeallocateNoFallback(a);
      SameEnd(before[i], pools[i].Own());
      assert State() == before[i := MemPool.Release(before[i], slot)];
      PutPool(before, i, pools[i].Own(), memory.Length);
    }

    /** `contains` on one pool after the other, as `deallocate` and `reallocate` ask:
        the number of pools if none holds the address. */
    method FindOwner(a: nat) returns (i: nat)
      requires Good()
      ensures i <= |pools| && Owner(State(), a) == if i < |pools| then Some(i) else None
    {
      ghost var s := State();
      NoPoolsNoOwner(a);
      hide Good, Owner;
      assert s[0..] == s && s[|pools|..] == [];
      i := 0;
      while i < |pools|
        invariant 0 <= i <= |pools| && Owner(s, a) == Later(i, Owner(s[i..], a))
      {
        OwnerTurn(s, i, a, pools[i].Own());
        if pools[i].start <= a && a < pools[i].start + pools[i].used.Length * pools[i].bytes {
          return;
        }
        i := i + 1;
      }
    }

    /** `reallocate` on a block of the pools; the system's blocks are the system's concern. */
    method Reallocate(a: nat, bytes: nat, offer: nat) returns (r: Option<nat>)
      requires Good() && (LiveBlock(State(), a) || Owner(State(), a).None?)
      requires Outside(State(), offer, bytes) && offer + bytes <= memory.Length
      modifies memory, pools, set p | p in pools :: p.used
      ensures Good()
      ensures Owner(old(State()), a).None? ==> r.None? && State() == old(State()) && memory[..] == old(memory[..])
      ensures LiveBlock(old(State()), a) ==>
                var (after, b) := Regrown(old(State()), a, bytes, offer);
                r == Some(b) && State() == after && Moved(old(State()), old(memory[..]), a, b, memory[..])
    {
      hide Good, Valid, LiveBlock, BucketTake, ChainRelease, ValidPools, Outside, Owner, Regrown, Moved;
      GoodIsValid();
      var i := FindOwner(a);
      if i < |pools| {
        var b := Grow(i, a, bytes, offer);
        return Some(b);
      }
      NoOwner(State(), a);
      return None;
    }

    /** `deallocate`: the pool with the block takes it back, the system any other. */
    method Deallocate(a: nat) returns (system: bool)
      requires Good() && (LiveBlock(State(), a) || Owner(State(), a).None?)
      modifies pools, set p | p in pools :: p.used
      ensures Good() && memory[..] == old(memory[..])
      ensures ValidPools(old(State())) && State() == ChainRelease(old(State()), a)
      ensures system <==> Owner(old(State()), a).None?
    {
      GoodIsValid();
      ReleaseOutside(State(), a);
      hide Good, Valid, LiveBlock, ChainRelease, ValidPools, Owner;
      var i := FindOwner(a);
      system := i == |pools|;
      if !system {
        Release(i, a);
      }
    }

    lemma GoodIsValid()
      requires Good()
      ensures ValidPools(State()) && Fits(State(), memory.Length)
    {
    }
  }

  /** One turn of the search for the owner. */
  lemma OwnerTurn(before: seq<Pool>, i: nat, a: nat, p: Pool)
    requires i < |before| && before[i] == p && Owner(before, a) == Later(i, Owner(before[i..], a))
    ensures if p.start <= a && a < p.start + |p.used| * p.bytes then Owner(before, a) == Some(i)
            else Owner(before, a) == Later(i + 1, Owner(before[i + 1..], a))
  {
    OwnerStep(before, i, a);
    hide Owner;
  }

  lemma ReleaseOutside(pools: seq<Pool>, a: nat)
    requires ValidPools(pools)
    ensures Owner(pools, a).None? ==> ChainRelease(pools, a) == pools
  {
  }

  lemma NoPoolsNoOwner(a: nat)
    ensures Owner([], a).None?
  {
  }

  lemma SliceFacts(before: seq<Pool>, s: seq<Pool>, i: nat)
    requires i < |s| == |before| && s[i..] == before[i..]
    ensures before[i..][0] == before[i] == s[i] && before[i..][1..] == before[i + 1..]
  {
    assert s[i..][0] == s[i];
  }

  lemma StepFacts(before: seq<Pool>, s: seq<Pool>, i: nat, p: Pool, rest: seq<Pool>)
    requires i < |s| == |before| && s[i..] == before[i..]
    ensures var after := s[i := p];
            && after[..i + 1] + rest == s[..i] + ([p] + rest)
            && after[i + 1..] == before[i + 1..]
            && after == s[..i] + ([p] + before[i + 1..])
  {
    assert before[i + 1..] == before[i..][1..] == s[i..][1..] == s[i + 1..];
  }

  lemma OwnerStep(pools: seq<Pool>, i: nat, a: nat)
    requires i < |pools|
    ensures Owner(pools[i..], a) == if Within(pools[i], a) then Some(0) else Later(1, Owner(pools[i + 1..], a))
  {
    assert pools[i..][0] == pools[i] && pools[i..][1..] == pools[i + 1..];
  }

  lemma NoOwner(pools: seq<Pool>, a: nat)
    requires ValidPools(pools) && Owner(pools, a).None?
    ensures !LiveBlock(pools, a)
  {
    if LiveBlock(pools, a) {
      OwnerOfBlock(pools, a);
    }
  }

  lemma PutPool(pools: seq<Pool>, i: nat, p: Pool, memory: nat)
    requires ValidPools(pools) && Fits(pools, memory) && i < |pools| && Valid(p)
    requires p.start == pools[i].start && End(p) == End(pools[i])
    ensures ValidPools(pools[i := p]) && Fits(pools[i := p], memory)
  {
    hide Valid, End;
    var after := pools[i := p];
    forall j, k | 0 <= j < k < |after| ensures Apart(after[j], after[k]) {
      assert Apart(pools[j], pools[k]);
    }
  }

  /** The state of `allocate` before it asks pool `i`. */
  ghost predicate Serving(before: seq<Pool>, s: seq<Pool>, i: nat, bytes: nat, offer: nat) {
    && i <= |s| == |before| && s[i..] == before[i..] && ValidPools(before) && ValidPools(before[i..])
    && var (rest, b, n) := BucketTake(before[i..], bytes, offer);
       BucketTake(before, bytes, offer) == (s[..i] + rest, b, n)
  }

  lemma ServingStart(before: seq<Pool>, bytes: nat, offer: nat)
    requires ValidPools(before)
    ensures Serving(before, before, 0, bytes, offer)
  {
    hide ValidPools, BucketTake;
    assert before[0..] == before && before[..0] == [];
    assert [] + BucketTake(before, bytes, offer).0 == BucketTake(before, bytes, offer).0;
  }

  lemma ServingTurn(before: seq<Pool>, s: seq<Pool>, i: nat, bytes: nat, offer: nat)
    requires Serving(before, s, i, bytes, offer) && i < |s|
    ensures ValidPools(before) && Valid(s[i])
    ensures var (p, slot) := Asked(s[i], bytes);
            if slot.Some? then BucketTake(before, bytes, offer) == (s[i := p], Address(p, slot.value), Some(s[i].bytes))
            else Serving(before, s[i := p], i + 1, bytes, offer)
  {
    BucketStep(before[i..], bytes, offer);
    SliceFacts(before, s, i);
    hide Asked, Valid, ValidPools, BucketTake, Address;
    var (p, slot) := Asked(s[i], bytes);
    StepFacts(before, s, i, p, BucketTake(before[i + 1..], bytes, offer).0);
  }

  lemma ServingEnd(before: seq<Pool>, s: seq<Pool>, bytes: nat, offer: nat)
    requires Serving(before, s, |s|, bytes, offer)
    ensures ValidPools(before) && BucketTake(before, bytes, offer) == (s, offer, None)
  {
    hide ValidPools;
    assert before[|s|..] == [] && s[..|s|] + [] == s;
  }

  lemma BucketStep(pools: seq<Pool>, bytes: nat, offer: nat)
    requires ValidPools(pools) && pools != []
    ensures Valid(pools[0]) && ValidPools(pools[1..])
    ensures var (p, slot) := Asked(pools[0], bytes);
            var (rest, a, size) := BucketTake(pools[1..], bytes, offer);
            && (slot.Some? ==> p.bytes == pools[0].bytes)
            && BucketTake(pools, bytes, offer)
               == if slot.Some? then ([p] + pools[1..], Address(p, slot.value), Some(p.bytes)) else ([p] + rest, a, size)
  {
    hide Take;
    TakenPlace(pools[0]);
    ValidTail(pools);
  }

  function Later(i: nat, r: Option<nat>): Option<nat> {
    if r.None? then None else Some(i + r.value)
  }

  /** Memory after `n` bytes were copied from `src` to `dst`. */
  function Copied(memory: seq<Byte>, dst: nat, src: nat, n: nat): (after: seq<Byte>)
    requires dst + n <= |memory| && src + n <= |memory|
    ensures |after| == |memory|
    ensures after[dst..dst + n] == memory[src..src + n]
    ensures forall x | 0 <= x < |memory| && !(dst <= x < dst + n) :: after[x] == memory[x]
  {
    memory[..dst] + memory[src..src + n] + memory[dst + n..]
  }

  /** All bytes the old block held are found in the new one. */
  ghost predicate Moved(pools: seq<Pool>, memory: seq<Byte>, a: nat, b: nat, after: seq<Byte>) {
    if a == b then after == memory
    else
      && Owner(pools, a).Some?
      && var n := pools[Owner(pools, a).value].bytes;
         a + n <= |memory| && b + n <= |memory| && after == Copied(memory, b, a, n)
  }

  lemma {:induction false} OwnerUnmoved(pools: seq<Pool>, after: seq<Pool>, a: nat)
    requires Unmoved(pools, after)
    ensures Owner(after, a) == Owner(pools, a)
  {
    if pools != [] {
      SameEnd(pools[0], after[0]);
      OwnerUnmoved(pools[1..], after[1..], a);
    }
  }

  /** What moving a block needs: room for the copy, and no overlap. */
  lemma MoveFacts(pools: seq<Pool>, a: nat, bytes: nat, offer: nat, i: nat, memory: nat)
    requires ValidPools(pools) && Fits(pools, memory) && LiveBlock(pools, a) && Owner(pools, a) == Some(i)
    requires Outside(pools, offer, bytes) && offer + bytes <= memory && pools[i].bytes < bytes
    ensures var (after, b, size) := BucketTake(pools, bytes, offer);
            var n := pools[i].bytes;
            && a + n <= memory && b + n <= memory && a != b && (b + n <= a || a + n <= b)
            && ValidPools(after) && LiveBlock(after, a) && Owner(after, a) == Some(i)
            && Regrown(pools, a, bytes, offer) == (ChainRelease(after, a), b)
  {
    var n := pools[i].bytes;
    LiveIsBlock(pools, a);
    NewBlockApart(pools, bytes, offer, a, n);
    BucketAllocationIsFresh(pools, bytes, offer);
    BlockSizesPositive(pools);
    hide BucketTake, LiveBlock, BlockOf, Valid, ValidPools, Outside, Owner;
    var (after, b, size) := BucketTake(pools, bytes, offer);
    OwnerUnmoved(pools, after, a);
    BlockInMemory(pools, a, n, memory);
    if size.Some? {
      forall k | 0 <= k < |after| ensures End(after[k]) <= memory {
        SameEnd(pools[k], after[k]);
      }
      BlockInMemory(after, b, size.value, memory);
    }
  }

  /** After `reallocate` the block's old bytes are found at its new place, and every
      other live block still holds its own. */
  lemma ContentsSurvive(pools: seq<Pool>, a: nat, bytes: nat, offer: nat, memory: seq<Byte>, after: seq<Byte>)
    requires ValidPools(pools) && Fits(pools, |memory|) && LiveBlock(pools, a)
    requires Outside(pools, offer, bytes) && offer + bytes <= |memory|
    requires Moved(pools, memory, a, Regrown(pools, a, bytes, offer).1, after)
    ensures Owner(pools, a).Some? && |after| == |memory|
    ensures var b, n := Regrown(pools, a, bytes, offer).1, pools[Owner(pools, a).value].bytes;
            && a + n <= |memory| && b + n <= |memory| && after[b..b + n] == memory[a..a + n]
    ensures forall c: nat, m: nat | c != a && LiveBlock(pools, c) && BlockOf(pools, c, m) ::
              c + m <= |memory| && after[c..c + m] == memory[c..c + m]
  {
    RegrownParts(pools, a, bytes, offer);
    LiveIsBlock(pools, a);
    MovedBytes(pools, memory, a, Regrown(pools, a, bytes, offer).1, after);
    hide Regrown, LiveBlock, BlockOf, Valid, ValidPools, Outside, Fits, Owner, BucketTake, ChainRelease, Copied, Moved;
    var n := pools[Owner(pools, a).value].bytes;
    BlockInMemory(pools, a, n, |memory|);
    if bytes > n {
      MoveFacts(pools, a, bytes, offer, Owner(pools, a).value, |memory|);
    }
    forall c: nat, m: nat | c != a && LiveBlock(pools, c) && BlockOf(pools, c, m)
      ensures c + m <= |memory| && after[c..c + m] == memory[c..c + m]
    {
      BlockInMemory(pools, c, m, |memory|);
      if bytes > n {
        NewBlockApart(pools, bytes, offer, c, m);
        CopiedElsewhere(memory, BucketTake(pools, bytes, offer).1, a, n, c, m);
      }
    }
  }

  lemma MovedBytes(pools: seq<Pool>, memory: seq<Byte>, a: nat, b: nat, after: seq<Byte>)
    requires Owner(pools, a).Some? && Moved(pools, memory, a, b, after)
    ensures var n := pools[Owner(pools, a).value].bytes;
            && |after| == |memory|
            && (a == b ==> after == memory)
            && (a != b ==> a + n <= |memory| && b + n <= |memory| && after == Copied(memory, b, a, n)
                           && after[b..b + n] == memory[a..a + n])
  {
    hide Owner;
  }

  lemma CopiedElsewhere(memory: seq<Byte>, dst: nat, src: nat, n: nat, c: nat, m: nat)
    requires dst + n <= |memory| && src + n <= |memory| && c + m <= |memory|
    requires dst + n <= c || c + m <= dst
    ensures Copied(memory, dst, src, n)[c..c + m] == memory[c..c + m]
  {
    var after := Copied(memory, dst, src, n);
    hide Copied;
    assert forall x | c <= x < c + m :: after[x] == memory[x];
  }

  lemma BlockInMemory(pools: seq<Pool>, a: nat, n: nat, memory: nat)
    requires Fits(pools, memory) && BlockOf(pools, a, n)
    ensures a + n <= memory
  {
    var i :| 0 <= i < |pools| && Allocated(pools[i], a) && pools[i].bytes == n;
    BlockWithin(pools[i], a);
  }
}
