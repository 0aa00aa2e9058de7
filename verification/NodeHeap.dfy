/** The shared cells behind `JSONNode` handles (internalJSONNode.h): reference
    counts, the tree seen at each cell, and what a change of one cell does. */
module NodeHeap {
  import opened Text
  import JsonNode

  type Id = nat
  type Handle = nat

  datatype Data = Data(kind: JsonNode.Kind, name: string, nameEncoded: bool, text: string, textEncoded: bool)

  /** One `internalJSONNode`. `kids` is CHILDREN, which stays in memory, out of
      sight, when a container is turned into a scalar. */
  datatype Cell = Cell(refcount: nat, data: Data, kids: seq<Id>)

  /** What a node looks like from outside. */
  datatype Tree = Tree(data: Data, kids: seq<Tree>)

  /** Memory by address; a freed cell is None. */
  type Heap = seq<Option<Cell>>

  predicate Container(l: Data) {
    l.kind.Array? || l.kind.Object?
  }

  predicate Live(heap: Heap, id: Id) {
    id < |heap| && heap[id].Some?
  }

  function KidsOf(c: Option<Cell>): seq<Id> {
    if c.None? then [] else c.value.kids
  }

  /** All child entries of all cells. */
  function Entries(heap: Heap): multiset<Id> {
    if heap == [] then multiset{}
    else Entries(heap[..|heap| - 1]) + multiset(KidsOf(heap[|heap| - 1]))
  }

  function RefCount(heap: Heap, id: Id): nat {
    if Live(heap, id) then heap[id].value.refcount else 0
  }

  /** How many references to `id` are counted that no child entry accounts for. */
  function Surplus(heap: Heap, id: Id): int {
    RefCount(heap, id) - Entries(heap)[id]
  }

  /** The cells form a graph without cycles, `rank` being a witness, and `view`
      is the tree seen at each of them. */
  ghost predicate Shaped(heap: Heap, view: seq<Tree>, rank: seq<nat>) {
    && |view| == |rank| == |heap|
    && forall id: Id | Live(heap, id) :: CellShaped(heap, view, rank, id)
  }

  ghost predicate CellShaped(heap: Heap, view: seq<Tree>, rank: seq<nat>, id: Id)
    requires |view| == |rank| == |heap| && Live(heap, id)
  {
    var c := heap[id].value;
    && c.refcount > 0
    && (forall i | 0 <= i < |c.kids| :: Live(heap, c.kids[i]) && rank[c.kids[i]] < rank[id])
    && view[id].data == c.data
    && |view[id].kids| == (if Container(c.data) then |c.kids| else 0)
    && forall i | 0 <= i < |view[id].kids| :: view[id].kids[i] == view[c.kids[i]]
  }

  // ---------- counting child entries ----------

  lemma EntriesLast(heap: Heap)
    requires heap != []
    ensures Entries(heap) == Entries(heap[..|heap| - 1]) + multiset(KidsOf(heap[|heap| - 1]))
  {
  }

  lemma {:induction false} EntriesUpdate(heap: Heap, id: Id, c: Option<Cell>)
    requires id < |heap|
    ensures forall x: Id ::
              Entries(heap[id := c])[x] + multiset(KidsOf(heap[id]))[x] == Entries(heap)[x] + multiset(KidsOf(c))[x]
  {
    hide *;
    var n := |heap| - 1;
    var after := heap[id := c];
    EntriesLast(heap);
    EntriesLast(after);
    if id == n {
      assert after[..n] == heap[..n];
    } else {
      EntriesUpdate(heap[..n], id, c);
      assert after[..n] == heap[..n][id := c] && after[n] == heap[n];
    }
  }

  lemma {:induction false} EntriesAppend(heap: Heap, c: Option<Cell>)
    ensures Entries(heap + [c]) == Entries(heap) + multiset(KidsOf(c))
  {
    assert (heap + [c])[..|heap|] == heap;
  }

  lemma CountEntry(s: seq<Id>, i: nat)
    requires i < |s|
    ensures multiset(s)[s[i]] >= 1
  {
    assert s[i] in multiset(s);
  }

  lemma EntryCounts(heap: Heap, c: Id, i: nat)
    requires Live(heap, c) && i < |heap[c].value.kids|
    ensures Entries(heap)[heap[c].value.kids[i]] >= 1
  {
    var cell := heap[c].value;
    EntriesUpdate(heap, c, Some(cell.(kids := [])));
    CountEntry(cell.kids, i);
  }

  lemma TwicePicked(s: seq<Id>, i: nat, j: nat)
    requires i < j < |s| && s[i] == s[j]
    ensures multiset(s)[s[i]] >= 2
  {
    assert s == s[..j] + s[j..];
    CountEntry(s[..j], i);
    CountEntry(s[j..], 0);
  }

  /** Two different entries for the same cell count twice. */
  lemma TwoEntries(heap: Heap, c: Id, i: nat, d: Id, j: nat)
    requires Live(heap, c) && Live(heap, d) && i < |heap[c].value.kids| && j < |heap[d].value.kids|
    requires heap[c].value.kids[i] == heap[d].value.kids[j] && (c, i) != (d, j)
    ensures Entries(heap)[heap[c].value.kids[i]] >= 2
  {
    hide Entries;
    var cell := heap[c].value;
    var rest := heap[c := Some(cell.(kids := []))];
    EntriesUpdate(heap, c, rest[c]);
    if c == d {
      TwicePicked(cell.kids, if i < j then i else j, if i < j then j else i);
    } else {
      CountEntry(cell.kids, i);
      EntryCounts(rest, d, j);
    }
  }

  lemma {:induction false} EntryExists(heap: Heap, id: Id) returns (c: Id, i: nat)
    requires Entries(heap)[id] >= 1
    ensures Live(heap, c) && i < |heap[c].value.kids| && heap[c].value.kids[i] == id
  {
    var n := |heap| - 1;
    var last := KidsOf(heap[n]);
    if id in multiset(last) {
      c := n;
      i :| 0 <= i < |last| && last[i] == id;
    } else {
      c, i := EntryExists(heap[..n], id);
    }
  }

  /** Entries name live cells only. */
  lemma EntriesLive(heap: Heap, view: seq<Tree>, rank: seq<nat>, id: Id)
    requires Shaped(heap, view, rank) && Entries(heap)[id] >= 1
    ensures Live(heap, id)
  {
    var c, i := EntryExists(heap, id);
    assert CellShaped(heap, view, rank, c);
  }

  lemma SurplusIsLive(heap: Heap, id: Id)
    requires Surplus(heap, id) >= 1
    ensures Live(heap, id)
  {
  }

  lemma Unreferenced(heap: Heap, view: seq<Tree>, rank: seq<nat>, id: Id)
    requires Shaped(heap, view, rank) && !Live(heap, id)
    ensures Surplus(heap, id) == 0
  {
    hide Shaped;
    if Entries(heap)[id] >= 1 {
      EntriesLive(heap, view, rank, id);
    }
  }

  lemma SoleOwner(heap: Heap, id: Id)
    requires RefCount(heap, id) == 1 && Surplus(heap, id) == 1
    ensures Entries(heap)[id] == 0
  {
  }

  // ---------- elementary steps ----------

  function Count(heap: Heap, id: Id, refcount: nat): Heap
    requires Live(heap, id)
  {
    heap[id := Some(heap[id].value.(refcount := refcount))]
  }

  lemma CountKeeps(heap: Heap, view: seq<Tree>, rank: seq<nat>, id: Id, refcount: nat)
    requires Shaped(heap, view, rank) && Live(heap, id) && refcount > 0
    ensures Shaped(Count(heap, id, refcount), view, rank)
    ensures forall x: Id ::
              Surplus(Count(heap, id, refcount), x)
              == Surplus(heap, x) + if x == id then refcount - heap[id].value.refcount else 0
  {
    var after := Count(heap, id, refcount);
    EntriesUpdate(heap, id, after[id]);
    forall x: Id | Live(after, x) ensures CellShaped(after, view, rank, x) {
      assert CellShaped(heap, view, rank, x);
    }
  }

  /** Freeing a cell whose last reference goes leaves its entries uncovered. */
  lemma FreeKeeps(heap: Heap, view: seq<Tree>, rank: seq<nat>, id: Id)
    requires Shaped(heap, view, rank) && Live(heap, id) && heap[id].value.refcount == 1
    requires Surplus(heap, id) >= 1
    ensures Shaped(heap[id := None], view, rank)
    ensures forall x: Id ::
              Surplus(heap[id := None], x)
              == Surplus(heap, x) + multiset(heap[id].value.kids)[x] - if x == id then 1 else 0
  {
    var after := heap[id := None];
    var kids := heap[id].value.kids;
    EntriesUpdate(heap, id, None);
    forall x: Id | Live(after, x) ensures CellShaped(after, view, rank, x) {
      assert CellShaped(heap, view, rank, x);
      forall i | 0 <= i < |after[x].value.kids| ensures after[x].value.kids[i] != id {
        EntryCounts(heap, x, i);
      }
    }
  }

  function Blank(data: Data): Option<Cell> {
    Some(Cell(1, data, []))
  }

  lemma AllocateKeeps(heap: Heap, view: seq<Tree>, rank: seq<nat>, data: Data, r: nat)
    requires Shaped(heap, view, rank)
    ensures Shaped(heap + [Blank(data)], view + [Tree(data, [])], rank + [r])
    ensures forall x: Id ::
              Surplus(heap + [Blank(data)], x) == Surplus(heap, x) + if x == |heap| then 1 else 0
  {
    var after, view', rank' := heap + [Blank(data)], view + [Tree(data, [])], rank + [r];
    EntriesAppend(heap, Blank(data));
    assert Entries(after) == Entries(heap);
    forall x: Id | Live(after, x) ensures CellShaped(after, view', rank', x) {
      if x < |heap| {
        assert CellShaped(heap, view, rank, x);
      }
    }
  }

  // ---------- changing a cell that only one handle can see ----------

  /** Cells with a single reference, each an entry of the one before: what the
      chained `operator[]` calls of a program walk through. */
  predicate Chain(heap: Heap, chain: seq<Id>, path: seq<nat>) {
    && |chain| == |path| + 1
    && (forall i | 0 <= i < |chain| :: Live(heap, chain[i]) && heap[chain[i]].value.refcount == 1)
    && forall i | 0 <= i < |path| :: Link(heap, chain, path, i)
  }

  predicate Link(heap: Heap, chain: seq<Id>, path: seq<nat>, i: nat)
    requires i < |path| < |chain| && Live(heap, chain[i])
  {
    var c := heap[chain[i]].value;
    Container(c.data) && path[i] < |c.kids| && c.kids[path[i]] == chain[i + 1]
  }

  lemma ChainShape(heap: Heap, chain: seq<Id>, path: seq<nat>)
    requires Chain(heap, chain, path)
    ensures |chain| == |path| + 1 && forall i | 0 <= i < |chain| :: Live(heap, chain[i]) && heap[chain[i]].value.refcount == 1
  {
  }

  /** Every count covers the entries, and something outside holds `root`. */
  ghost predicate Held(heap: Heap, root: Id) {
    Surplus(heap, root) >= 1 && forall x: Id :: Surplus(heap, x) >= 0
  }

  predicate HasPath(t: Tree, path: seq<nat>) {
    path == [] || (Container(t.data) && path[0] < |t.kids| && HasPath(t.kids[path[0]], path[1..]))
  }

  function Inner(t: Tree, path: seq<nat>): Tree
    requires HasPath(t, path)
  {
    if path == [] then t else Inner(t.kids[path[0]], path[1..])
  }

  function Put(t: Tree, path: seq<nat>, u: Tree): Tree {
    if path == [] then u
    else if path[0] >= |t.kids| then t
    else t.(kids := t.kids[path[0] := Put(t.kids[path[0]], path[1..], u)])
  }

  /** The only entry that leads into a chain is the one the chain itself uses. */
  lemma OnlyWayIn(heap: Heap, chain: seq<Id>, path: seq<nat>, x: Id, j: nat, k: nat)
    requires Chain(heap, chain, path) && Held(heap, chain[0])
    requires Live(heap, x) && j < |heap[x].value.kids| && k < |chain| && heap[x].value.kids[j] == chain[k]
    ensures k > 0 && x == chain[k - 1] && j == path[k - 1]
  {
    hide Entries;
    EntryCounts(heap, x, j);
    assert RefCount(heap, chain[k]) == 1;
    assert Surplus(heap, chain[k]) >= 0;
    if k > 0 && (x, j) != (chain[k - 1], path[k - 1]) {
      assert Link(heap, chain, path, k - 1);
      TwoEntries(heap, x, j, chain[k - 1], path[k - 1]);
    }
  }

  /** Nobody outside holds a cell of the chain, but for one reference to its root. */
  lemma HeldOutside(heap: Heap, chain: seq<Id>, path: seq<nat>, k: nat)
    requires Chain(heap, chain, path) && Held(heap, chain[0]) && k < |chain|
    ensures Surplus(heap, chain[k]) == if k == 0 then 1 else 0
  {
    hide Entries;
    assert RefCount(heap, chain[k]) == 1;
    assert Surplus(heap, chain[k]) >= 0;
    if k > 0 {
      assert Link(heap, chain, path, k - 1);
      EntryCounts(heap, chain[k - 1], path[k - 1]);
    }
  }

  lemma {:induction false} ChainFalls(heap: Heap, view: seq<Tree>, rank: seq<nat>, chain: seq<Id>, path: seq<nat>, i: nat, j: nat)
    requires Shaped(heap, view, rank) && Chain(heap, chain, path) && i < j < |chain|
    ensures rank[chain[j]] < rank[chain[i]]
    decreases j
  {
    assert Link(heap, chain, path, j - 1);
    assert CellShaped(heap, view, rank, chain[j - 1]);
    if i < j - 1 {
      ChainFalls(heap, view, rank, chain, path, i, j - 1);
    }
  }

  /** The trees seen once the last cell of the chain looks like `u`. */
  ghost predicate Rebuilt(view: seq<Tree>, view': seq<Tree>, chain: seq<Id>, path: seq<nat>, u: Tree)
    requires |chain| == |path| + 1
  {
    && |view'| == |view|
    && (forall x | 0 <= x < |view| && x !in chain :: view'[x] == view[x])
    && forall i | 0 <= i < |chain| && chain[i] < |view| :: view'[chain[i]] == Put(view[chain[i]], path[i..], u)
  }

  ghost predicate Raised(rank: seq<nat>, rank': seq<nat>, chain: seq<Id>, lift: nat) {
    && |rank'| == |rank|
    && forall x | 0 <= x < |rank| :: rank'[x] == rank[x] + if x in chain then lift else 0
  }

  ghost predicate Looks(view: seq<Tree>, c: Cell, u: Tree) {
    && u.data == c.data
    && |u.kids| == (if Container(c.data) then |c.kids| else 0)
    && forall i | 0 <= i < |u.kids| :: c.kids[i] < |view| && u.kids[i] == view[c.kids[i]]
  }

  /** `c` can replace a cell and then looks like `u`. */
  ghost predicate Fits(heap: Heap, view: seq<Tree>, rank: seq<nat>, chain: seq<Id>, lift: nat, c: Cell, u: Tree)
    requires |view| == |rank| == |heap|
  {
    && c.refcount == 1 && Looks(view, c, u)
    && forall kid | kid in c.kids :: Live(heap, kid) && kid !in chain && rank[kid] < lift
  }

  lemma OthersOutside(heap: Heap, view: seq<Tree>, rank: seq<nat>, chain: seq<Id>, path: seq<nat>, k: nat, j: nat)
    requires Shaped(heap, view, rank) && Chain(heap, chain, path) && Held(heap, chain[0])
    requires k < |path| && j < |heap[chain[k]].value.kids| && j != path[k]
    ensures heap[chain[k]].value.kids[j] !in chain
  {
    hide Entries, Surplus, Held, Shaped;
    var x := chain[k];
    if m: nat :| m < |chain| && chain[m] == heap[x].value.kids[j] {
      OnlyWayIn(heap, chain, path, x, j, m);
      if m - 1 < k {
        ChainFalls(heap, view, rank, chain, path, m - 1, k);
      } else {
        ChainFalls(heap, view, rank, chain, path, k, m - 1);
      }
      assert false;
    }
  }

  lemma ChangeKeepsLink(heap: Heap, view: seq<Tree>, rank: seq<nat>, chain: seq<Id>, path: seq<nat>,
                        c: Cell, u: Tree, view': seq<Tree>, rank': seq<nat>, lift: nat, k: nat)
    requires Shaped(heap, view, rank) && Chain(heap, chain, path) && Held(heap, chain[0])
    requires Fits(heap, view, rank, chain, lift, c, u)
    requires Rebuilt(view, view', chain, path, u) && Raised(rank, rank', chain, lift) && k < |path|
    ensures CellShaped(heap[chain[|path|] := Some(c)], view', rank', chain[k])
  {
    var x := chain[k];
    var kids := heap[x].value.kids;
    ChainFalls(heap, view, rank, chain, path, k, |path|);
    LinkFacts(heap, view, rank, chain, path, k);
    assert forall j: nat | j < |kids| && j != path[k] :: kids[j] !in chain by {
      hide *;
      forall j: nat | j < |kids| && j != path[k] ensures kids[j] !in chain {
        OthersOutside(heap, view, rank, chain, path, k, j);
      }
    }
    RebuiltLink(view, view', chain, path, u, k);
    assert CellShaped(heap, view, rank, x);
    assert chain[k] in chain && chain[k + 1] in chain;
    hide Fits, Link, Chain, Entries, Surplus, Held, Put, CellShaped, Container;
    OneKidChanges(heap, view, rank, heap[chain[|path|] := Some(c)], view', rank', x, path[k], lift);
  }

  lemma RebuiltLink(view: seq<Tree>, view': seq<Tree>, chain: seq<Id>, path: seq<nat>, u: Tree, k: nat)
    requires |chain| == |path| + 1 && Rebuilt(view, view', chain, path, u) && k < |path|
    requires chain[k] < |view| && chain[k + 1] < |view|
    requires path[k] < |view[chain[k]].kids| && view[chain[k]].kids[path[k]] == view[chain[k + 1]]
    ensures var t := view[chain[k]];
            view'[chain[k]] == t.(kids := t.kids[path[k] := view'[chain[k + 1]]])
  {
    assert path[k..][0] == path[k] && path[k..][1..] == path[k + 1..];
  }

  lemma OneKidChanges(heap: Heap, view: seq<Tree>, rank: seq<nat>, heap': Heap, view': seq<Tree>, rank': seq<nat>,
                      x: Id, pos: nat, lift: nat)
    requires |view| == |rank| == |heap| && Live(heap, x) && CellShaped(heap, view, rank, x)
    requires |view'| == |rank'| == |heap'| == |heap| && Live(heap', x) && heap'[x] == heap[x]
    requires forall y: Id | Live(heap, y) :: Live(heap', y)
    requires forall y: Id | y < |rank| :: rank'[y] <= rank[y] + lift
    requires rank'[x] == rank[x] + lift
    requires var kids := heap[x].value.kids;
             && pos < |kids| && pos < |view[x].kids|
             && (forall j: nat | j < |kids| && j != pos :: kids[j] < |view| && view'[kids[j]] == view[kids[j]])
             && kids[pos] < |view| && view'[x] == view[x].(kids := view[x].kids[pos := view'[kids[pos]]])
    ensures CellShaped(heap', view', rank', x)
  {
  }

  lemma LinkFacts(heap: Heap, view: seq<Tree>, rank: seq<nat>, chain: seq<Id>, path: seq<nat>, k: nat)
    requires Shaped(heap, view, rank) && Chain(heap, chain, path) && k < |path|
    ensures var c := heap[chain[k]].value;
            && Container(c.data) && path[k] < |c.kids| && c.kids[path[k]] == chain[k + 1]
            && path[k] < |view[chain[k]].kids| && view[chain[k]].kids[path[k]] == view[chain[k + 1]]
  {
    assert Link(heap, chain, path, k) && CellShaped(heap, view, rank, chain[k]);
  }

  lemma ChangeKeepsOther(heap: Heap, view: seq<Tree>, rank: seq<nat>, chain: seq<Id>, path: seq<nat>,
                         c: Cell, u: Tree, view': seq<Tree>, rank': seq<nat>, lift: nat, x: Id)
    requires Shaped(heap, view, rank) && Chain(heap, chain, path) && Held(heap, chain[0])
    requires Fits(heap, view, rank, chain, lift, c, u)
    requires Rebuilt(view, view', chain, path, u) && Raised(rank, rank', chain, lift)
    requires Live(heap, x) && x !in chain
    ensures CellShaped(heap[chain[|path|] := Some(c)], view', rank', x)
  {
    hide Entries, Surplus, Held;
    assert CellShaped(heap, view, rank, x);
    var kids := heap[x].value.kids;
    forall j | 0 <= j < |kids| ensures kids[j] !in chain {
      if m: nat :| m < |chain| && chain[m] == kids[j] {
        OnlyWayIn(heap, chain, path, x, j, m);
        assert false;
      }
    }
  }

  /** Writing the last cell of a chain changes what is seen along the chain and
      nowhere else. */
  lemma ChangeKeeps(heap: Heap, view: seq<Tree>, rank: seq<nat>, chain: seq<Id>, path: seq<nat>,
                    c: Cell, u: Tree, view': seq<Tree>, rank': seq<nat>, lift: nat)
    requires Shaped(heap, view, rank) && Chain(heap, chain, path) && Held(heap, chain[0])
    requires Fits(heap, view, rank, chain, lift, c, u)
    requires Rebuilt(view, view', chain, path, u) && Raised(rank, rank', chain, lift)
    ensures Shaped(heap[chain[|path|] := Some(c)], view', rank')
    ensures forall x: Id ::
              Surplus(heap[chain[|path|] := Some(c)], x) + multiset(c.kids)[x]
              == Surplus(heap, x) + multiset(heap[chain[|path|]].value.kids)[x]
  {
    var last := chain[|path|];
    var after := heap[last := Some(c)];
    EntriesUpdate(heap, last, Some(c));
    forall x: Id | Live(after, x) ensures CellShaped(after, view', rank', x) {
      hide *;
      ChangeKeepsAt(heap, view, rank, chain, path, c, u, view', rank', lift, x);
    }
  }

  lemma EndOfChain(heap: Heap, chain: seq<Id>, path: seq<nat>)
    requires Chain(heap, chain, path)
    ensures |chain| == |path| + 1 && chain[|path|] in chain && Live(heap, chain[|path|])
  {
  }

  lemma StillLive(heap: Heap, id: Id, c: Cell, x: Id)
    requires Live(heap, id) && Live(heap[id := Some(c)], x) && x != id
    ensures Live(heap, x) && heap[id := Some(c)][x] == heap[x]
  {
  }

  lemma ChangeKeepsAt(heap: Heap, view: seq<Tree>, rank: seq<nat>, chain: seq<Id>, path: seq<nat>,
                      c: Cell, u: Tree, view': seq<Tree>, rank': seq<nat>, lift: nat, x: Id)
    requires Shaped(heap, view, rank) && Chain(heap, chain, path) && Held(heap, chain[0])
    requires Fits(heap, view, rank, chain, lift, c, u)
    requires Rebuilt(view, view', chain, path, u) && Raised(rank, rank', chain, lift)
    requires Live(heap[chain[|path|] := Some(c)], x)
    ensures CellShaped(heap[chain[|path|] := Some(c)], view', rank', x)
  {
    hide *;
    EndOfChain(heap, chain, path);
    if x !in chain {
      StillLive(heap, chain[|path|], c, x);
      ChangeKeepsOther(heap, view, rank, chain, path, c, u, view', rank', lift, x);
    } else {
      var k: nat :| k < |chain| && chain[k] == x;
      if k < |path| {
        ChangeKeepsLink(heap, view, rank, chain, path, c, u, view', rank', lift, k);
      } else {
        ChangeKeepsLast(heap, view, rank, chain, path, c, u, view', rank', lift);
      }
    }
  }

  lemma ChangeKeepsLast(heap: Heap, view: seq<Tree>, rank: seq<nat>, chain: seq<Id>, path: seq<nat>,
                        c: Cell, u: Tree, view': seq<Tree>, rank': seq<nat>, lift: nat)
    requires Shaped(heap, view, rank) && Chain(heap, chain, path)
    requires Fits(heap, view, rank, chain, lift, c, u)
    requires Rebuilt(view, view', chain, path, u) && Raised(rank, rank', chain, lift)
    ensures CellShaped(heap[chain[|path|] := Some(c)], view', rank', chain[|path|])
  {
    assert path[|path|..] == [];
    assert forall i | 0 <= i < |c.kids| :: c.kids[i] in c.kids;
  }

  lemma {:induction false} AtEndOfChain(heap: Heap, view: seq<Tree>, rank: seq<nat>, chain: seq<Id>, path: seq<nat>)
    requires Shaped(heap, view, rank) && Chain(heap, chain, path)
    ensures HasPath(view[chain[0]], path) && Inner(view[chain[0]], path) == view[chain[|path|]]
    decreases |path|
  {
    if path != [] {
      assert Link(heap, chain, path, 0) && CellShaped(heap, view, rank, chain[0]);
      assert Chain(heap, chain[1..], path[1..]) by {
        forall i | 0 <= i < |path| - 1 ensures Link(heap, chain[1..], path[1..], i) {
          assert Link(heap, chain, path, i + 1);
        }
      }
      AtEndOfChain(heap, view, rank, chain[1..], path[1..]);
    }
  }

  // ---------- what a step may do to the other cells ----------

  /** Cells are only freed or counted down. */
  ghost predicate Thinned(before: Heap, after: Heap) {
    && |after| == |before|
    && forall x: Id | Live(after, x) ::
         && Live(before, x) && after[x].value.refcount <= before[x].value.refcount
         && after[x].value == before[x].value.(refcount := after[x].value.refcount)
  }

  function Adopt(heap: Heap, id: Id, kid: Id): Heap
    requires Live(heap, id)
  {
    heap[id := Some(heap[id].value.(kids := heap[id].value.kids + [kid]))]
  }

  function AdoptView(view: seq<Tree>, id: Id, kid: Id): seq<Tree>
    requires id < |view| && kid < |view|
  {
    view[id := Tree(view[id].data, view[id].kids + [view[kid]])]
  }

  lemma NotEntered(heap: Heap, id: Id, x: Id)
    requires Entries(heap)[id] == 0 && Live(heap, x)
    ensures forall i | 0 <= i < |heap[x].value.kids| :: heap[x].value.kids[i] != id
  {
    forall i | 0 <= i < |heap[x].value.kids| ensures heap[x].value.kids[i] != id {
      EntryCounts(heap, x, i);
    }
  }

  lemma AdoptKeepsAt(heap: Heap, view: seq<Tree>, rank: seq<nat>, id: Id, kid: Id, x: Id)
    requires Shaped(heap, view, rank) && Live(heap, id) && Live(heap, kid) && Live(heap, x)
    requires Entries(heap)[id] == 0 && rank[kid] < rank[id] && Container(heap[id].value.data)
    ensures CellShaped(Adopt(heap, id, kid), AdoptView(view, id, kid), rank, x)
  {
    NotEntered(heap, id, x);
    assert CellShaped(heap, view, rank, x) && CellShaped(heap, view, rank, id);
    hide Entries, Shaped;
    if x == id {
      AdopterKeeps(heap, view, rank, id, kid);
    }
  }

  lemma AdopterKeeps(heap: Heap, view: seq<Tree>, rank: seq<nat>, id: Id, kid: Id)
    requires |view| == |rank| == |heap| && Live(heap, id) && Live(heap, kid)
    requires CellShaped(heap, view, rank, id) && rank[kid] < rank[id] && Container(heap[id].value.data)
    requires forall i | 0 <= i < |heap[id].value.kids| :: heap[id].value.kids[i] != id
    ensures CellShaped(Adopt(heap, id, kid), AdoptView(view, id, kid), rank, id)
  {
    var c := heap[id].value;
    var v := AdoptView(view, id, kid)[id];
    assert v.kids[|c.kids|] == view[kid];
    assert forall i | 0 <= i < |c.kids| :: v.kids[i] == view[c.kids[i]];
  }

  lemma AdoptCounts(heap: Heap, id: Id, kid: Id)
    requires Live(heap, id)
    ensures forall x: Id :: Surplus(Adopt(heap, id, kid), x) == Surplus(heap, x) - if x == kid then 1 else 0
  {
    EntriesUpdate(heap, id, Adopt(heap, id, kid)[id]);
    hide Entries;
  }

  lemma AdoptKeeps(heap: Heap, view: seq<Tree>, rank: seq<nat>, id: Id, kid: Id)
    requires Shaped(heap, view, rank) && Live(heap, id) && Live(heap, kid)
    requires Entries(heap)[id] == 0 && rank[kid] < rank[id] && Container(heap[id].value.data)
    ensures Shaped(Adopt(heap, id, kid), AdoptView(view, id, kid), rank)
    ensures forall x: Id :: Surplus(Adopt(heap, id, kid), x) == Surplus(heap, x) - if x == kid then 1 else 0
  {
    AdoptCounts(heap, id, kid);
    var heap' := Adopt(heap, id, kid);
    forall x: Id | Live(heap', x) ensures CellShaped(heap', AdoptView(view, id, kid), rank, x) {
      hide Entries, CellShaped, Shaped, Surplus;
      AdoptKeepsAt(heap, view, rank, id, kid, x);
    }
    hide Entries, CellShaped, Surplus;
  }

  // ---------- handles ----------

  function One(v: Option<Id>): multiset<Id> {
    if v.None? then multiset{} else multiset{v.value}
  }

  /** The references held by the handles of the program. */
  function References(handles: seq<Option<Id>>): multiset<Id> {
    if handles == [] then multiset{}
    else References(handles[..|handles| - 1]) + One(handles[|handles| - 1])
  }

  lemma ReferencesLast(handles: seq<Option<Id>>)
    requires handles != []
    ensures References(handles) == References(handles[..|handles| - 1]) + One(handles[|handles| - 1])
  {
  }

  lemma {:induction false} ReferencesUpdate(handles: seq<Option<Id>>, h: Handle, v: Option<Id>)
    requires h < |handles|
    ensures forall x: Id ::
              References(handles[h := v])[x] + One(handles[h])[x] == References(handles)[x] + One(v)[x]
  {
    hide *;
    var n := |handles| - 1;
    var after := handles[h := v];
    ReferencesLast(handles);
    ReferencesLast(after);
    if h == n {
      assert after[..n] == handles[..n];
    } else {
      ReferencesUpdate(handles[..n], h, v);
      assert after[..n] == handles[..n][h := v] && after[n] == handles[n];
    }
  }

  lemma {:induction false} ReferencesAppend(handles: seq<Option<Id>>, v: Option<Id>)
    ensures References(handles + [v]) == References(handles) + One(v)
  {
    assert (handles + [v])[..|handles|] == handles;
  }

  lemma HandleCounts(handles: seq<Option<Id>>, h: Handle)
    requires h < |handles| && handles[h].Some?
    ensures References(handles)[handles[h].value] >= 1
  {
    ReferencesUpdate(handles, h, None);
    hide References;
  }

  lemma TwoHandlesCount(handles: seq<Option<Id>>, g: Handle, h: Handle)
    requires g < |handles| && h < |handles| && g != h && handles[g] == handles[h] && handles[h].Some?
    ensures References(handles)[handles[h].value] >= 2
  {
    hide References;
    ReferencesUpdate(handles, h, None);
    HandleCounts(handles[h := None], g);
  }

  /** The count of every cell is the number of handles and child entries to it. */
  ghost predicate Balanced(heap: Heap, handles: seq<Option<Id>>) {
    forall x: Id :: Surplus(heap, x) == References(handles)[x]
  }

  /** No count is too low. */
  ghost predicate Covered(heap: Heap, handles: seq<Option<Id>>) {
    forall x: Id :: Surplus(heap, x) >= References(handles)[x]
  }

  lemma HandleIsHeld(heap: Heap, handles: seq<Option<Id>>, h: Handle)
    requires Covered(heap, handles) && h < |handles| && handles[h].Some?
    ensures Held(heap, handles[h].value) && Live(heap, handles[h].value)
  {
    HandleCounts(handles, h);
    SurplusIsLive(heap, handles[h].value);
  }

  /** What each handle shows. */
  ghost function TreesOf(handles: seq<Option<Id>>, view: seq<Tree>): (trees: seq<Option<Tree>>)
    ensures |trees| == |handles|
  {
    seq(|handles|, h requires 0 <= h < |handles| =>
      if handles[h].Some? && handles[h].value < |view| then Some(view[handles[h].value]) else None)
  }

  lemma HandlesAreLive(heap: Heap, handles: seq<Option<Id>>)
    requires Balanced(heap, handles)
    ensures forall h: Handle | h < |handles| && handles[h].Some? :: Live(heap, handles[h].value)
  {
    forall h: Handle | h < |handles| && handles[h].Some? ensures Live(heap, handles[h].value) {
      HandleIsHeld(heap, handles, h);
    }
  }

  lemma TreesSurvive(heap: Heap, handles: seq<Option<Id>>, view: seq<Tree>, view': seq<Tree>)
    requires Balanced(heap, handles) && |view| == |heap| && view <= view'
    ensures TreesOf(handles, view') == TreesOf(handles, view)
  {
    HandlesAreLive(heap, handles);
  }

  // ---------- making the cells along a path unique ----------

  function SetEntry(heap: Heap, p: Id, pos: nat, id: Id): Heap
    requires Live(heap, p) && pos < |heap[p].value.kids|
  {
    heap[p := Some(heap[p].value.(kids := heap[p].value.kids[pos := id]))]
  }

  lemma SetEntryCounts(heap: Heap, p: Id, pos: nat, id: Id)
    requires Live(heap, p) && pos < |heap[p].value.kids|
    ensures forall x: Id ::
              Surplus(SetEntry(heap, p, pos, id), x)
              == Surplus(heap, x) + (if x == heap[p].value.kids[pos] then 1 else 0) - if x == id then 1 else 0
  {
    var after := SetEntry(heap, p, pos, id);
    EntriesUpdate(heap, p, after[p]);
    UpdateCounts(heap[p].value.kids, pos, id);
    forall x: Id ensures RefCount(after, x) == RefCount(heap, x) {
    }
    hide Entries, RefCount, SetEntry;
  }

  lemma UpdateCounts(s: seq<Id>, pos: nat, id: Id)
    requires pos < |s|
    ensures forall x: Id ::
              multiset(s[pos := id])[x] + (if x == s[pos] then 1 else 0)
              == multiset(s)[x] + if x == id then 1 else 0
  {
    assert multiset(s[pos := id]) == multiset(s) - multiset{s[pos]} + multiset{id};
    CountEntry(s, pos);
  }

  /** An entry may be redirected to a cell that looks the same. */
  lemma SetEntryKeeps(heap: Heap, view: seq<Tree>, rank: seq<nat>, p: Id, pos: nat, id: Id)
    requires Shaped(heap, view, rank) && Live(heap, p) && pos < |heap[p].value.kids| && Live(heap, id)
    requires view[id] == view[heap[p].value.kids[pos]] && rank[id] == rank[heap[p].value.kids[pos]]
    ensures Shaped(SetEntry(heap, p, pos, id), view, rank)
  {
    var heap' := SetEntry(heap, p, pos, id);
    forall x: Id | Live(heap', x) ensures CellShaped(heap', view, rank, x) {
      assert CellShaped(heap, view, rank, x);
    }
  }

  /** The chain after its last entry has been made unique. */
  lemma ExtendChain(before: Heap, view: seq<Tree>, rank: seq<nat>, after: Heap, chain: seq<Id>, path: seq<nat>, pos: nat, id: Id)
    requires Shaped(before, view, rank) && Chain(before, chain, path)
    requires var c := before[chain[|path|]].value;
             && Container(c.data) && pos < |c.kids|
             && Live(after, chain[|path|]) && after[chain[|path|]].value == c.(kids := c.kids[pos := id])
    requires forall x: Id | Live(before, x) && before[x].value.refcount == 1 && x != chain[|path|] ::
               Live(after, x) && after[x] == before[x]
    requires Live(after, id) && after[id].value.refcount == 1
    ensures Chain(after, chain + [id], path + [pos])
  {
    hide Shaped;
    var chain', path' := chain + [id], path + [pos];
    forall i: nat | i < |path| ensures chain[i] != chain[|path|] && after[chain[i]] == before[chain[i]] {
      ChainFalls(before, view, rank, chain, path, i, |path|);
      assert before[chain[i]].value.refcount == 1;
    }
    forall i: nat | i < |chain'| ensures Live(after, chain'[i]) && after[chain'[i]].value.refcount == 1 {
      if i < |path| {
        assert chain'[i] == chain[i] && before[chain[i]].value.refcount == 1;
      }
    }
    forall i: nat | i < |path'| ensures Link(after, chain', path', i) {
      if i < |path| {
        assert Link(before, chain, path, i);
      }
    }
  }

  // ---------- rewriting the end of a chain ----------

  function Bound(rank: seq<nat>): (b: nat)
    ensures forall i | 0 <= i < |rank| :: rank[i] < b
  {
    if rank == [] then 0
    else
      var b := Bound(rank[1..]);
      assert forall i | 0 < i < |rank| :: rank[i] == rank[1..][i - 1];
      if rank[0] < b then b else rank[0] + 1
  }

  ghost function Raise(rank: seq<nat>, chain: seq<Id>, lift: nat): (rank': seq<nat>)
    ensures Raised(rank, rank', chain, lift)
  {
    seq(|rank|, x requires 0 <= x < |rank| => rank[x] + if x in chain then lift else 0)
  }

  /** The views after a change, built from the end of the chain. */
  ghost function Rebuild(view: seq<Tree>, chain: seq<Id>, path: seq<nat>, u: Tree): (view': seq<Tree>)
    requires |chain| == |path| + 1
    ensures |view'| == |view|
    decreases |path|
  {
    var deeper := if path == [] then view else Rebuild(view, chain[1..], path[1..], u);
    if chain[0] < |view| then deeper[chain[0] := Put(view[chain[0]], path, u)] else deeper
  }

  lemma {:induction false} RebuildIsRebuilt(view: seq<Tree>, chain: seq<Id>, path: seq<nat>, u: Tree)
    requires |chain| == |path| + 1
    requires forall i, j | 0 <= i < j < |chain| :: chain[i] != chain[j]
    ensures Rebuilt(view, Rebuild(view, chain, path, u), chain, path, u)
    decreases |path|
  {
    var view' := Rebuild(view, chain, path, u);
    assert path[0..] == path;
    if path == [] {
    } else {
      var deeper := Rebuild(view, chain[1..], path[1..], u);
      RebuildIsRebuilt(view, chain[1..], path[1..], u);
      forall i: nat | 0 < i < |chain| && chain[i] < |view| ensures view'[chain[i]] == Put(view[chain[i]], path[i..], u) {
        assert chain[1..][i - 1] == chain[i] && path[1..][i - 1..] == path[i..];
      }
      forall x | 0 <= x < |view| && x !in chain ensures view'[x] == view[x] {
        assert x !in chain[1..];
      }
    }
  }

  lemma ChainDistinct(heap: Heap, view: seq<Tree>, rank: seq<nat>, chain: seq<Id>, path: seq<nat>)
    requires Shaped(heap, view, rank) && Chain(heap, chain, path)
    ensures forall i, j | 0 <= i < j < |chain| :: chain[i] != chain[j]
  {
    hide Shaped, Chain;
    forall i: nat, j: nat | i < j < |chain| ensures chain[i] != chain[j] {
      ChainFalls(heap, view, rank, chain, path, i, j);
    }
  }

  /** Only the handle at the root of the chain sees the change. */
  lemma OneTreeChanges(heap: Heap, handles: seq<Option<Id>>, view: seq<Tree>, rank: seq<nat>, view': seq<Tree>,
                       h: Handle, chain: seq<Id>, path: seq<nat>, u: Tree)
    requires Shaped(heap, view, rank) && Chain(heap, chain, path) && Held(heap, chain[0])
    requires Covered(heap, handles)
    requires Rebuilt(view, view', chain, path, u)
    requires h < |handles| && handles[h] == Some(chain[0])
    ensures TreesOf(handles, view') == TreesOf(handles, view)[h := Some(Put(view[chain[0]], path, u))]
  {
    hide References, Surplus, Held, Shaped;
    assert path[0..] == path && Live(heap, chain[0]);
    assert |view| == |heap| by { LengthsAgree(heap, view, rank); }
    forall g: Handle | g < |handles| && g != h && handles[g].Some?
      ensures handles[g].value !in chain
    {
      if k: nat :| k < |chain| && chain[k] == handles[g].value {
        HeldOutside(heap, chain, path, k);
        HandleCounts(handles, g);
        if k == 0 {
          TwoHandlesCount(handles, g, h);
        }
        assert false;
      }
    }
  }

  lemma LengthsAgree(heap: Heap, view: seq<Tree>, rank: seq<nat>)
    requires Shaped(heap, view, rank)
    ensures |view| == |rank| == |heap|
  {
  }

  lemma LastKidsOutside(heap: Heap, view: seq<Tree>, rank: seq<nat>, chain: seq<Id>, path: seq<nat>)
    requires Shaped(heap, view, rank) && Chain(heap, chain, path) && Held(heap, chain[0])
    ensures forall kid | kid in heap[chain[|path|]].value.kids ::
              Live(heap, kid) && kid !in chain && rank[kid] < Bound(rank)
  {
    hide Entries, Surplus, Held;
    var last := chain[|path|];
    var kids := heap[last].value.kids;
    assert CellShaped(heap, view, rank, last);
    forall j: nat | j < |kids| ensures Live(heap, kids[j]) && kids[j] !in chain && rank[kids[j]] < Bound(rank) {
      if k: nat :| k < |chain| && chain[k] == kids[j] {
        OnlyWayIn(heap, chain, path, last, j, k);
        ChainFalls(heap, view, rank, chain, path, k - 1, |path|);
        assert false;
      }
    }
  }

  lemma HandleOutside(heap: Heap, handles: seq<Option<Id>>, chain: seq<Id>, path: seq<nat>, g: Handle, h: Handle)
    requires Chain(heap, chain, path) && Held(heap, chain[0])
    requires Covered(heap, handles)
    requires g < |handles| && h < |handles| && g != h && handles[g].Some? && handles[h] == Some(chain[0])
    ensures handles[g].value !in chain
  {
    hide References, Surplus, Held;
    if k: nat :| k < |chain| && chain[k] == handles[g].value {
      HeldOutside(heap, chain, path, k);
      HandleCounts(handles, g);
      if k == 0 {
        TwoHandlesCount(handles, g, h);
      }
      assert false;
    }
  }

  /** What an operation may rely on once the cells along its path are unique. */
  lemma OwnedFacts(heap: Heap, handles: seq<Option<Id>>, view: seq<Tree>, rank: seq<nat>,
                   h: Handle, chain: seq<Id>, path: seq<nat>)
    requires Shaped(heap, view, rank) && Covered(heap, handles) && Chain(heap, chain, path)
    requires h < |handles| && handles[h] == Some(chain[0])
    ensures |chain| == |path| + 1 && Live(heap, chain[|path|]) && Held(heap, chain[0])
    ensures |view| == |rank| == |heap| && chain[0] < |view|
    ensures var c := heap[chain[|path|]].value;
            && c.refcount == 1
            && (forall kid | kid in c.kids :: Live(heap, kid) && kid !in chain && rank[kid] < Bound(rank))
            && Looks(view, c, view[chain[|path|]])
    ensures HasPath(view[chain[0]], path) && Inner(view[chain[0]], path) == view[chain[|path|]]
    ensures forall g: Handle | g < |handles| && g != h && handles[g].Some? ::
              Live(heap, handles[g].value) && handles[g].value !in chain && rank[handles[g].value] < Bound(rank)
  {
    hide Entries, Surplus, References, Held;
    HandleIsHeld(heap, handles, h);
    LastKidsOutside(heap, view, rank, chain, path);
    AtEndOfChain(heap, view, rank, chain, path);
    assert CellShaped(heap, view, rank, chain[|path|]);
    forall g: Handle | g < |handles| && g != h && handles[g].Some?
      ensures Live(heap, handles[g].value) && handles[g].value !in chain
    {
      HandleIsHeld(heap, handles, g);
      HandleOutside(heap, handles, chain, path, g, h);
    }
  }

  lemma {:induction false} PutTwice(t: Tree, path: seq<nat>, u: Tree, v: Tree)
    requires HasPath(t, path)
    ensures HasPath(Put(t, path, u), path) && Inner(Put(t, path, u), path) == u
    ensures Put(Put(t, path, u), path, v) == Put(t, path, v)
  {
    if path != [] {
      PutTwice(t.kids[path[0]], path[1..], u, v);
    }
  }

  function Without<T>(s: seq<T>, pos: nat): seq<T>
    requires pos < |s|
  {
    s[..pos] + s[pos + 1..]
  }

  lemma WithoutCounts(s: seq<Id>, pos: nat)
    requires pos < |s|
    ensures multiset(s) == multiset(Without(s, pos)) + multiset{s[pos]}
  {
    assert s == s[..pos] + [s[pos]] + s[pos + 1..];
  }

  lemma WithoutIn(s: seq<Id>, pos: nat)
    requires pos < |s|
    ensures forall x | x in Without(s, pos) :: x in s
  {
  }

  function Insert<T>(s: seq<T>, pos: nat, x: T): seq<T>
    requires pos <= |s|
  {
    s[..pos] + [x] + s[pos..]
  }

  lemma InsertCounts(s: seq<Id>, pos: nat, x: Id)
    requires pos <= |s|
    ensures multiset(Insert(s, pos, x)) == multiset(s) + multiset{x}
  {
    assert s == s[..pos] + s[pos..];
  }

  lemma InsertFits(heap: Heap, view: seq<Tree>, rank: seq<nat>, chain: seq<Id>, c: Cell, t: Tree, pos: nat, kid: Id)
    requires |view| == |rank| == |heap| && Fits(heap, view, rank, chain, Bound(rank), c, t)
    requires Container(c.data) && pos <= |c.kids|
    requires Live(heap, kid) && kid !in chain && rank[kid] < Bound(rank)
    ensures Fits(heap, view, rank, chain, Bound(rank),
                 c.(kids := Insert(c.kids, pos, kid)), t.(kids := Insert(t.kids, pos, view[kid])))
  {
    hide Bound;
    assert forall x | x in Insert(c.kids, pos, kid) :: x in c.kids || x == kid;
  }

  lemma InsertBack<T>(s: seq<T>, pos: nat, x: T)
    requires pos < |s|
    ensures Insert(Without(s, pos), pos, x) == s[pos := x]
  {
  }

  /** Taking a child out and putting another in its place. */
  lemma Reassigned(root: Tree, path: seq<nat>, v: Tree)
    requires HasPath(root, path) && path != []
    ensures var n := |path| - 1;
            HasPath(root, path[..n]) &&
            var t := Inner(root, path[..n]);
            path[n] < |t.kids| &&
            var without := t.(kids := Without(t.kids, path[n]));
            var emptied := Put(root, path[..n], without);
            && HasPath(emptied, path[..n]) && Inner(emptied, path[..n]) == without
            && Put(emptied, path[..n], without.(kids := Insert(without.kids, path[n], v))) == Put(root, path, v)
  {
    hide Inner, Put, HasPath;
    var n := |path| - 1;
    LastStep(root, path);
    var t := Inner(root, path[..n]);
    InsertBack(t.kids, path[n], v);
    PutTwice(root, path[..n], t.(kids := Without(t.kids, path[n])), t.(kids := t.kids[path[n] := v]));
  }

  /** Where a handle is stored: in the program, or among the children of a cell. */
  datatype Place = Root(h: Handle) | Entry(cell: Id, pos: nat)

  /** `place` is what the path leads to, all handles on the way being unique. */
  ghost predicate Placed(heap: Heap, handles: seq<Option<Id>>, h: Handle, path: seq<nat>, place: Place, chain: seq<Id>) {
    && h < |handles| && handles[h].Some?
    && if path == [] then place == Root(h) && chain == []
       else
         var n := |path| - 1;
         && Chain(heap, chain, path[..n]) && handles[h] == Some(chain[0])
         && place == Entry(chain[n], path[n])
         && var c := heap[chain[n]].value; Container(c.data) && path[n] < |c.kids|
  }

  function Occupant(heap: Heap, handles: seq<Option<Id>>, place: Place): (id: Id) {
    match place
    case Root(h) => if h < |handles| && handles[h].Some? then handles[h].value else 0
    case Entry(c, pos) => if Live(heap, c) && pos < |heap[c].value.kids| then heap[c].value.kids[pos] else 0
  }

  /** A path taken up to its last step. */
  lemma {:induction false} LastStep(t: Tree, path: seq<nat>)
    requires HasPath(t, path) && path != []
    ensures var n := |path| - 1;
            && HasPath(t, path[..n])
            && var parent := Inner(t, path[..n]);
               && Container(parent.data) && path[n] < |parent.kids|
               && Inner(t, path) == parent.kids[path[n]]
               && forall u: Tree :: Put(t, path, u) == Put(t, path[..n], parent.(kids := parent.kids[path[n] := u]))
  {
    var n := |path| - 1;
    if n > 0 {
      LastStep(t.kids[path[0]], path[1..]);
      assert path[..n][1..] == path[1..][..n - 1];
    }
  }

  lemma IncRefKeepsChain(before: Heap, after: Heap, chain: seq<Id>, path: seq<nat>, id: Id)
    requires Chain(before, chain, path) && Live(before, id) && id !in chain
    requires after == Count(before, id, before[id].value.refcount + 1)
    ensures Chain(after, chain, path)
  {
    forall i | 0 <= i < |path| ensures Link(after, chain, path, i) {
      assert Link(before, chain, path, i);
    }
  }

  /** Destroying a handle elsewhere leaves the chain in place. */
  lemma {:induction false} ThinnedChain(before: Heap, after: Heap, view: seq<Tree>, rank: seq<nat>,
                                        chain: seq<Id>, path: seq<nat>, k: nat)
    requires Thinned(before, after) && Shaped(after, view, rank) && Chain(before, chain, path)
    requires Live(after, chain[0]) && k < |chain|
    ensures Live(after, chain[k]) && after[chain[k]] == before[chain[k]]
  {
    if k > 0 {
      ThinnedChain(before, after, view, rank, chain, path, k - 1);
      assert Link(before, chain, path, k - 1);
      assert CellShaped(after, view, rank, chain[k - 1]);
    }
    assert CellShaped(after, view, rank, chain[k]);
    assert before[chain[k]].value.refcount == 1;
  }

  lemma ThinnedKeepsChain(before: Heap, after: Heap, view: seq<Tree>, rank: seq<nat>, chain: seq<Id>, path: seq<nat>)
    requires Thinned(before, after) && Shaped(after, view, rank) && Chain(before, chain, path)
    requires Live(after, chain[0])
    ensures Chain(after, chain, path)
    ensures after[chain[|path|]] == before[chain[|path|]]
  {
    hide Shaped, Thinned;
    forall k: nat | k < |chain| ensures Live(after, chain[k]) && after[chain[k]] == before[chain[k]] {
      ThinnedChain(before, after, view, rank, chain, path, k);
    }
    forall i: nat | i < |path| ensures Link(after, chain, path, i) {
      assert Link(before, chain, path, i);
    }
    forall k: nat | k < |chain| ensures after[chain[k]].value.refcount == 1 {
      assert before[chain[k]].value.refcount == 1;
    }
  }

  /** A chain survives any change of its last cell. */
  lemma RewrittenChain(before: Heap, view: seq<Tree>, rank: seq<nat>, chain: seq<Id>, path: seq<nat>, c: Cell)
    requires Shaped(before, view, rank) && Chain(before, chain, path) && c.refcount == 1
    ensures Chain(before[chain[|path|] := Some(c)], chain, path)
  {
    hide Shaped;
    var after := before[chain[|path|] := Some(c)];
    forall i: nat | i < |path| ensures Link(after, chain, path, i) {
      assert Link(before, chain, path, i);
      ChainFalls(before, view, rank, chain, path, i, |path|);
    }
    forall k: nat | k < |chain| ensures Live(after, chain[k]) && after[chain[k]].value.refcount == 1 {
      assert before[chain[k]].value.refcount == 1;
    }
  }

  lemma CellSeen(heap: Heap, view: seq<Tree>, rank: seq<nat>, id: Id)
    requires Shaped(heap, view, rank) && Live(heap, id)
    ensures id < |view| && Looks(view, heap[id].value, view[id])
  {
    assert CellShaped(heap, view, rank, id);
  }
}
