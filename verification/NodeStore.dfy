/** Reference counting and copy-on-write of `JSONNode` (JSONNode.h, JSONNode.cpp,
    internalJSONNode.cpp), seen from programs that hold only root handles. */
module NodeStore {
  import opened Text
  import opened NodeHeap
  import opened NodeOps
  import JsonNode

  /** The program's handles and the cells they share. */
  class Store {
    var heap: Heap
    var handles: seq<Option<Id>>
    ghost var view: seq<Tree>
    ghost var rank: seq<nat>

    method IncRef(id: Id)
      requires Shaped(heap, view, rank) && Live(heap, id)
      modifies this`heap
      ensures Shaped(heap, view, rank) && heap == Count(old(heap), id, old(heap)[id].value.refcount + 1)
      ensures forall x: Id :: Surplus(heap, x) == Surplus(old(heap), x) + if x == id then 1 else 0
    {
      hide Entries, Surplus, Shaped;
      CountKeeps(heap, view, rank, id, heap[id].value.refcount + 1);
      heap := heap[id := Some(heap[id].value.(refcount := heap[id].value.refcount + 1))];
    }

    /** `decRef`, then `deleteInternal` on the last reference, which destroys the
        child handles in turn. */
    method DecRef(id: Id)
      requires Shaped(heap, view, rank) && Held(heap, id) && Live(heap, id)
      modifies this`heap
      ensures Shaped(heap, view, rank) && Thinned(old(heap), heap)
      ensures forall x: Id :: Surplus(heap, x) == Surplus(old(heap), x) - if x == id then 1 else 0
      decreases rank[id], 1
    {
      hide Entries, Surplus;
      if heap[id].value.refcount > 1 {
        CountKeeps(heap, view, rank, id, heap[id].value.refcount - 1);
        heap := heap[id := Some(heap[id].value.(refcount := heap[id].value.refcount - 1))];
      } else {
        var kids := heap[id].value.kids;
        assert CellShaped(heap, view, rank, id);
        FreeKeeps(heap, view, rank, id);
        heap := heap[id := None];
        DecRefAll(kids, rank[id]);
      }
    }

    /** `deleteAll`: the handles in `kids`, already out of reach, are destroyed. */
    method DecRefAll(kids: seq<Id>, ghost bound: nat)
      requires Shaped(heap, view, rank) && forall x: Id :: Surplus(heap, x) >= multiset(kids)[x]
      requires forall i | 0 <= i < |kids| :: kids[i] < |rank| && rank[kids[i]] < bound
      modifies this`heap
      ensures Shaped(heap, view, rank) && Thinned(old(heap), heap)
      ensures forall x: Id :: Surplus(heap, x) == Surplus(old(heap), x) - multiset(kids)[x]
      decreases bound, 0
    {
      hide Entries, Surplus;
      var i := 0;
      assert kids[0..] == kids;
      while i < |kids|
        invariant 0 <= i <= |kids|
        invariant Shaped(heap, view, rank) && Thinned(old(heap), heap)
        invariant forall x: Id ::
                    Surplus(heap, x) == Surplus(old(heap), x) - multiset(kids)[x] + multiset(kids[i..])[x]
      {
        SurplusIsLive(heap, kids[i]) by {
          CountEntry(kids[i..], 0);
          assert Surplus(heap, kids[i]) >= 1;
        }
        DecRef(kids[i]);
        assert kids[i..] == [kids[i]] + kids[i + 1..];
        i := i + 1;
      }
    }

    /** The deep copy made by the copy constructor of `internalJSONNode`; the
        children of a former container are not copied. */
    method CopyInternal(id: Id) returns (copy: Id)
      requires Shaped(heap, view, rank) && Live(heap, id)
      modifies this`heap, this`view, this`rank
      ensures Shaped(heap, view, rank) && old(heap) <= heap && old(view) <= view && old(rank) <= rank
      ensures copy == |old(heap)| && Live(heap, copy) && heap[copy].value.refcount == 1
      ensures view[copy] == old(view)[id] && rank[copy] == old(rank)[id]
      ensures forall x: Id :: Surplus(heap, x) == Surplus(old(heap), x) + if x == copy then 1 else 0
      decreases rank[id], 0
    {
      hide Entries, Surplus;
      var c := heap[id].value;
      copy := |heap|;
      AllocateKeeps(heap, view, rank, c.data, rank[id]);
      heap := heap + [Some(Cell(1, c.data, []))];
      view := view + [Tree(c.data, [])];
      rank := rank + [rank[id]];
      if Container(c.data) {
        var i := 0;
        while i < |c.kids|
          invariant 0 <= i <= |c.kids|
          invariant Shaped(heap, view, rank) && old(heap) <= heap && old(view) <= view && old(rank) <= rank
          invariant copy < |heap| && heap[copy].Some? && heap[copy].value.refcount == 1 && heap[copy].value.data == c.data
          invariant rank[copy] == old(rank)[id]
          invariant view[copy] == Tree(c.data, old(view)[id].kids[..i])
          invariant forall x: Id :: Surplus(heap, x) == Surplus(old(heap), x) + if x == copy then 1 else 0
        {
          assert CellShaped(old(heap), old(view), old(rank), id);
          var kid := Duplicate(c.kids[i]);
          Unreferenced(old(heap), old(view), old(rank), copy);
          assert Entries(heap)[copy] == 0 by { SoleOwner(heap, copy); }
          AdoptKeeps(heap, view, rank, copy, kid);
          heap := heap[copy := Some(heap[copy].value.(kids := heap[copy].value.kids + [kid]))];
          view := AdoptView(view, copy, kid);
          i := i + 1;
        }
      }
    }

    method MakeUnique(id: Id) returns (copy: Id)
      requires Shaped(heap, view, rank) && Live(heap, id)
      modifies this`heap, this`view, this`rank
      ensures Shaped(heap, view, rank) && old(view) <= view && old(rank) <= rank
      ensures Live(heap, copy) && heap[copy].value.refcount == 1
      ensures view[copy] == old(view)[id] && rank[copy] == old(rank)[id]
      ensures var count := old(heap)[id].value.refcount;
              if count > 1 then copy == |old(heap)| && Count(old(heap), id, count - 1) <= heap
              else copy == id && heap == old(heap)
      ensures forall x: Id ::
                Surplus(heap, x)
                == Surplus(old(heap), x) + (if x == copy then 1 else 0) - if x == id then 1 else 0
      decreases rank[id], 1
    {
      hide Entries, Surplus;
      if heap[id].value.refcount > 1 {
        CountKeeps(heap, view, rank, id, heap[id].value.refcount - 1);
        heap := heap[id := Some(heap[id].value.(refcount := heap[id].value.refcount - 1))];
        copy := CopyInternal(id);
      } else {
        assert CellShaped(heap, view, rank, id);
        copy := id;
      }
    }

    /** A temporary handle that is then made unique. */
    method Duplicate(id: Id) returns (copy: Id)
      requires Shaped(heap, view, rank) && Live(heap, id)
      modifies this`heap, this`view, this`rank
      ensures Shaped(heap, view, rank) && old(heap) <= heap && old(view) <= view && old(rank) <= rank
      ensures copy == |old(heap)| && Live(heap, copy) && heap[copy].value.refcount == 1
      ensures view[copy] == old(view)[id] && rank[copy] == old(rank)[id]
      ensures forall x: Id :: Surplus(heap, x) == Surplus(old(heap), x) + if x == copy then 1 else 0
      decreases rank[id], 2
    {
      hide Entries, Surplus;
      assert CellShaped(heap, view, rank, id);
      IncRef(id);
      copy := MakeUnique(id);
      assert Count(Count(old(heap), id, old(heap)[id].value.refcount + 1), id, old(heap)[id].value.refcount) == old(heap);
    }
  
    // ---------- at a handle of the program ----------

    ghost predicate Valid()
      reads this
    {
      Shaped(heap, view, rank) && Balanced(heap, handles)
    }

    ghost function Trees(): seq<Option<Tree>>
      reads this
    {
      TreesOf(handles, view)
    }

    /** `makeUniqueInternal` on a handle of the program. */
    method OwnRoot(h: Handle)
      requires Valid() && h < |handles| && handles[h].Some?
      modifies this
      ensures Valid() && Trees() == old(Trees())
      ensures |handles| == |old(handles)| && handles[h].Some?
      ensures Chain(heap, [handles[h].value], [])
      ensures forall g | 0 <= g < |handles| && g != h :: handles[g] == old(handles)[g]
    {
      hide Entries, Surplus, References, Held;
      HandleIsHeld(heap, handles, h);
      var id := handles[h].value;
      var copy := MakeUnique(id);
      ReferencesUpdate(handles, h, Some(copy));
      TreesSurvive(old(heap), handles, old(view), view);
      handles := handles[h := Some(copy)];
    }

    /** `makeUniqueInternal` on a child handle. */
    method OwnEntry(p: Id, pos: nat, ghost chain: seq<Id>, ghost path: seq<nat>) returns (id: Id)
      requires Valid() && Chain(heap, chain, path) && p == chain[|path|]
      requires pos < |heap[p].value.kids| && Container(heap[p].value.data)
      modifies this`heap, this`view, this`rank
      ensures Valid() && Trees() == old(Trees()) && old(view) <= view && old(rank) <= rank
      ensures Chain(heap, chain + [id], path + [pos])
    {
      hide Entries, Surplus, References, Held;
      assert CellShaped(heap, view, rank, p);
      var kid := heap[p].value.kids[pos];
      id := MakeUnique(kid);
      assert heap[p] == old(heap)[p];
      SetEntryKeeps(heap, view, rank, p, pos, id);
      SetEntryCounts(heap, p, pos, id);
      heap := heap[p := Some(heap[p].value.(kids := heap[p].value.kids[pos := id]))];
      assert Balanced(heap, handles);
      TreesSurvive(old(heap), handles, old(view), view);
      ExtendChain(old(heap), old(view), old(rank), heap, chain, path, pos, id);
    }
  
    /** `h[p0][p1]...`: every handle on the way is made unique, and so is the one
        the path ends at. */
    method Own(h: Handle, path: seq<nat>) returns (id: Id, ghost chain: seq<Id>)
      requires Valid() && Reachable(Trees(), h, path)
      modifies this
      ensures Valid() && Trees() == old(Trees())
      ensures |handles| == |old(handles)| && handles[h].Some?
      ensures forall g | 0 <= g < |handles| && g != h :: handles[g] == old(handles)[g]
      ensures Chain(heap, chain, path) && chain[0] == handles[h].value && id == chain[|path|]
    {
      hide Entries, Surplus, References, Held;
      OwnRoot(h);
      id := handles[h].value;
      chain := [id];
      assert Trees()[h] == old(Trees())[h];
      assert path[..0] == [] && path[0..] == path;
      var i := 0;
      while i < |path|
        invariant 0 <= i <= |path|
        invariant Valid() && Trees() == old(Trees())
        invariant |handles| == |old(handles)| && handles[h].Some?
        invariant forall g | 0 <= g < |handles| && g != h :: handles[g] == old(handles)[g]
        invariant Chain(heap, chain, path[..i]) && chain[0] == handles[h].value && id == chain[i]
        invariant HasPath(view[id], path[i..])
      {
        assert CellShaped(heap, view, rank, id);
        assert path[i..][0] == path[i] && path[i..][1..] == path[i + 1..];
        ghost var before := view[id];
        label step:
        id := OwnEntry(id, path[i], chain, path[..i]);
        assert path[..i] + [path[i]] == path[..i + 1];
        assert Link(heap, chain + [id], path[..i + 1], i);
        assert CellShaped(heap, view, rank, chain[i]);
        assert view[chain[i]] == before;
        assert view[id] == before.kids[path[i]];
        chain := chain + [id];
        i := i + 1;
      }
      assert path[..|path|] == path;
    }

    /** Writes the cell at the end of a chain. */
    method Rewrite(h: Handle, ghost chain: seq<Id>, ghost path: seq<nat>, id: Id, c: Cell, ghost u: Tree)
      requires Shaped(heap, view, rank) && Chain(heap, chain, path) && id == chain[|path|]
      requires h < |handles| && handles[h] == Some(chain[0])
      requires Covered(heap, handles)
      requires Fits(heap, view, rank, chain, Bound(rank), c, u)
      modifies this`heap, this`view, this`rank
      ensures Shaped(heap, view, rank) && heap == old(heap)[id := Some(c)]
      ensures Trees() == old(Trees())[h := Some(Put(old(view)[chain[0]], path, u))]
      ensures Rebuilt(old(view), view, chain, path, u)
      ensures forall x: Id ::
                Surplus(heap, x) + multiset(c.kids)[x]
                == Surplus(old(heap), x) + multiset(old(heap)[id].value.kids)[x]
    {
      hide Entries, Surplus, References;
      ghost var view', rank' := Rebuild(view, chain, path, u), Raise(rank, chain, Bound(rank));
      ChainDistinct(heap, view, rank, chain, path);
      RebuildIsRebuilt(view, chain, path, u);
      assert Held(heap, chain[0]) by {
        HandleCounts(handles, h);
        assert References(handles)[chain[0]] >= 1;
      }
      ChangeKeeps(heap, view, rank, chain, path, c, u, view', rank', Bound(rank));
      OneTreeChanges(heap, handles, view, rank, view', h, chain, path, u);
      heap, view, rank := heap[id := Some(c)], view', rank';
    }
  
    method Make(data: Data)
      requires Valid()
      modifies this
      ensures Valid() && Trees() == Apply(old(Trees()), Op.Make(data))
    {
      hide Entries, Surplus, References;
      AllocateKeeps(heap, view, rank, data, 0);
      ReferencesAppend(handles, Some(|heap|));
      TreesSurvive(heap, handles, view, view + [Tree(data, [])]);
      handles := handles + [Some(|heap|)];
      heap := heap + [Some(Cell(1, data, []))];
      view := view + [Tree(data, [])];
      rank := rank + [0];
      assert Trees() == old(Trees()) + [Some(Tree(data, []))];
    }

    /** A typed setter on `h[p0][p1]...`. */
    method Set(h: Handle, path: seq<nat>, kind: JsonNode.Kind, text: string)
      requires Valid() && Allowed(Trees(), Op.Set(h, path, kind, text))
      modifies this
      ensures Valid() && Trees() == Apply(old(Trees()), Op.Set(h, path, kind, text))
      ensures Meant(old(Trees()), Op.Set(h, path, kind, text), Trees())
    {
      ApplyIsMeant(Trees(), Op.Set(h, path, kind, text));
      hide Meant;
      hide Shaped, Entries, Surplus, References, Held, Chain, Put, Bound;
      ghost var chain: seq<Id>;
      var id;
      id, chain := Own(h, path);
      OwnedFacts(heap, handles, view, rank, h, chain, path);
      var c := heap[id].value;
      var c' := c.(data := Typed(c.data, kind, text));
      Rewrite(h, chain, path, id, c', Tree(c'.data, []));
    }

    method Rename(h: Handle, path: seq<nat>, name: string)
      requires Valid() && Allowed(Trees(), Op.Rename(h, path, name))
      modifies this
      ensures Valid() && Trees() == Apply(old(Trees()), Op.Rename(h, path, name))
    {
      hide Shaped, Entries, Surplus, References, Held, Chain, Put, Bound;
      ghost var chain: seq<Id>;
      var id;
      id, chain := Own(h, path);
      OwnedFacts(heap, handles, view, rank, h, chain, path);
      var c := heap[id].value;
      var c' := c.(data := Named(c.data, name));
      Rewrite(h, chain, path, id, c', view[id].(data := c'.data));
    }
  
    /** `push_back`; a node that is not a container ignores it. */
    method PushBack(h: Handle, path: seq<nat>, src: Handle)
      requires Valid() && Allowed(Trees(), Op.PushBack(h, path, src))
      modifies this
      ensures Valid() && Trees() == Apply(old(Trees()), Op.PushBack(h, path, src))
    {
      hide Shaped, Entries, Surplus, References, Held, Chain, Put, Bound;
      ghost var chain: seq<Id>;
      var id;
      id, chain := Own(h, path);
      OwnedFacts(heap, handles, view, rank, h, chain, path);
      ghost var t := view[id];
      assert Trees()[h] == old(Trees())[h] && Trees()[src] == old(Trees())[src];
      if Container(heap[id].value.data) {
        var kid := handles[src].value;
        label owned:
        IncRef(kid);
        IncRefKeepsChain(old@owned(heap), heap, chain, path, kid);
        var c := heap[id].value;
        var c' := c.(kids := c.kids + [kid]);
        Rewrite(h, chain, path, id, c', t.(kids := t.kids + [view[kid]]));
        assert multiset(c'.kids) == multiset(c.kids) + multiset{kid};
      }
    }
  
    /** Finds the handle `h[p0][p1]...`, which is not made unique itself. */
    method Locate(h: Handle, path: seq<nat>) returns (place: Place, ghost chain: seq<Id>)
      requires Valid() && Reachable(Trees(), h, path)
      modifies this
      ensures Valid() && Trees() == old(Trees()) && |handles| == |old(handles)|
      ensures forall g | 0 <= g < |handles| && g != h :: handles[g] == old(handles)[g]
      ensures Placed(heap, handles, h, path, place, chain)
      ensures var id := Occupant(heap, handles, place);
              Live(heap, id) && id < |view| && view[id] == Inner(old(Trees())[h].value, path)
    {
      hide Entries, Surplus, References, Held, Chain;
      if path == [] {
        place, chain := Root(h), [];
        HandleIsHeld(heap, handles, h);
      } else {
        var n := |path| - 1;
        LastStep(Trees()[h].value, path);
        var p;
        p, chain := Own(h, path[..n]);
        OwnedFacts(heap, handles, view, rank, h, chain, path[..n]);
        assert Trees()[h] == old(Trees())[h];
        place := Entry(p, path[n]);
        assert heap[p].value.kids[path[n]] in heap[p].value.kids;
      }
    }

    /** `makeUniqueInternal` on the handle that was found. */
    method OwnPlace(h: Handle, path: seq<nat>, place: Place, ghost before: seq<Id>) returns (id: Id, ghost chain: seq<Id>)
      requires Valid() && Placed(heap, handles, h, path, place, before)
      modifies this
      ensures Valid() && Trees() == old(Trees()) && |handles| == |old(handles)|
      ensures forall g | 0 <= g < |handles| && g != h :: handles[g] == old(handles)[g]
      ensures Chain(heap, chain, path) && handles[h] == Some(chain[0]) && id == chain[|path|]
    {
      hide Shaped, Entries, Surplus, References, Held, Chain, Balanced;
      match place
      case Root(_) =>
        OwnRoot(h);
        id := handles[h].value;
        chain := [id];
      case Entry(p, pos) =>
        ChainShape(heap, before, path[..|path| - 1]);
        id := OwnEntry(p, pos, before, path[..|path| - 1]);
        chain := before + [id];
        assert path[..|path| - 1] + [pos] == path;
    }

    /** A new handle for a node of a tree. */
    method Copy(src: Handle, path: seq<nat>)
      requires Valid() && Allowed(Trees(), Op.Copy(src, path))
      modifies this
      ensures Valid() && Trees() == Apply(old(Trees()), Op.Copy(src, path))
    {
      hide Shaped, Entries, Surplus, References, Placed;
      ghost var chain: seq<Id>;
      var place;
      place, chain := Locate(src, path);
      var id := Occupant(heap, handles, place);
      IncRef(id);
      ReferencesAppend(handles, Some(id));
      handles := handles + [Some(id)];
      assert Trees() == old(Trees()) + [Some(view[id])];
    }

    method Destroy(h: Handle)
      requires Valid() && Allowed(Trees(), Op.Destroy(h))
      modifies this
      ensures Valid() && Trees() == Apply(old(Trees()), Op.Destroy(h))
    {
      hide Shaped, Entries, Surplus, References;
      var id := handles[h].value;
      HandleIsHeld(heap, handles, h);
      DecRef(id);
      ReferencesUpdate(handles, h, None);
      handles := handles[h := None];
    }

    method Swap(a: Handle, b: Handle)
      requires Valid() && Allowed(Trees(), Op.Swap(a, b))
      modifies this
      ensures Valid() && Trees() == Apply(old(Trees()), Op.Swap(a, b))
    {
      hide Shaped, Entries, Surplus, References;
      var temp := handles[b];
      ReferencesUpdate(handles, b, handles[a]);
      ReferencesUpdate(handles[b := handles[a]], a, temp);
      handles := handles[b := handles[a]];
      handles := handles[a := temp];
    }

    /** `operator =` between handles of the program. */
    method AssignRoot(dst: Handle, src: Handle)
      requires Valid() && Reachable(Trees(), dst, []) && Reachable(Trees(), src, [])
      modifies this
      ensures Valid() && Trees() == old(Trees())[dst := old(Trees())[src]]
    {
      hide Shaped, Entries, Surplus, References, Held;
      var was, id := handles[dst].value, handles[src].value;
      if was == id {
        return;
      }
      HandleIsHeld(heap, handles, dst);
      HandleIsHeld(heap, handles, src);
      assert Surplus(heap, id) >= 1 by { HandleCounts(handles, src); }
      DecRef(was);
      SurplusIsLive(heap, id);
      IncRef(id);
      ReferencesUpdate(handles, dst, Some(id));
      handles := handles[dst := Some(id)];
    }

    /** `merge` keeps the cell with more references. The library means it for nodes that
        are equal, and then no tree changes; but it goes through for any two nodes. */
    method Merge(a: Handle, b: Handle)
      requires Valid() && Reachable(Trees(), a, []) && Reachable(Trees(), b, [])
      modifies this
      ensures Valid()
      ensures old(Live(heap, handles[a].value) && Live(heap, handles[b].value))
      ensures var fewer := old(heap[handles[a].value].value.refcount < heap[handles[b].value].value.refcount);
              Trees() == if old(handles[a] == handles[b]) then old(Trees())
                         else if fewer then old(Trees())[a := old(Trees())[b]]
                         else old(Trees())[b := old(Trees())[a]]
      ensures old(Trees()[a] == Trees()[b]) ==> Trees() == old(Trees())
    {
      HandleIsHeld(heap, handles, a);
      HandleIsHeld(heap, handles, b);
      hide Shaped, Entries, Surplus, References, Held;
      if handles[a] == handles[b] {
        return;
      }
      if heap[handles[a].value].value.refcount < heap[handles[b].value].value.refcount {
        AssignRoot(a, b);
      } else {
        AssignRoot(b, a);
      }
    }

    /** `merge` used as it is meant. */
    method MergeEqual(a: Handle, b: Handle)
      requires Valid() && Allowed(Trees(), Op.Merge(a, b))
      modifies this
      ensures Valid() && Trees() == Apply(old(Trees()), Op.Merge(a, b))
    {
      hide Valid, Trees, HasPath;
      Merge(a, b);
    }

    method Clear(h: Handle, path: seq<nat>)
      requires Valid() && Allowed(Trees(), Op.Clear(h, path))
      modifies this
      ensures Valid() && Trees() == Apply(old(Trees()), Op.Clear(h, path))
    {
      hide Shaped, Entries, Surplus, References, Held, Chain, Put, Bound, Placed;
      ghost var chain: seq<Id>;
      var place;
      place, chain := Locate(h, path);
      var id := Occupant(heap, handles, place);
      CellSeen(heap, view, rank, id);
      ghost var root := old(Trees())[h].value;
      if !Container(heap[id].value.data) || heap[id].value.kids == [] {
        PutSame(root, path);
        assert Inner(root, path).(kids := []) == Inner(root, path);
        return;
      }
      id, chain := OwnPlace(h, path, place, chain);
      OwnedFacts(heap, handles, view, rank, h, chain, path);
      assert Trees()[h] == old(Trees())[h];
      var c := heap[id].value;
      Rewrite(h, chain, path, id, c.(kids := []), view[id].(kids := []));
      assert forall i | 0 <= i < |c.kids| :: c.kids[i] in c.kids;
      LengthsAgree(heap, view, rank);
      DecRefAll(c.kids, Bound(rank));
    }

    /** `return *temp.mynode`: the result copies the removed handle, which is then
        deleted. */
    method Return(kid: Id)
      requires Shaped(heap, view, rank) && Live(heap, kid)
      requires forall x: Id :: Surplus(heap, x) == References(handles)[x] + if x == kid then 1 else 0
      modifies this`heap, this`handles
      ensures Valid() && kid < |view| && Trees() == old(Trees()) + [Some(view[kid])]
    {
      hide Shaped, Entries, Surplus, References;
      LengthsAgree(heap, view, rank);
      IncRef(kid);
      ReferencesAppend(handles, Some(kid));
      handles := handles + [Some(kid)];
      assert Held(heap, kid) by { assert References(handles)[kid] >= 1; }
      DecRef(kid);
      assert Trees() == old(Trees()) + [Some(view[kid])];
    }

    /** `pop_back(pos)`: false stands for the out-of-range exception. The removed
        node becomes a new handle. */
    method PopBack(h: Handle, path: seq<nat>, pos: nat) returns (ok: bool)
      requires Valid() && Allowed(Trees(), Op.PopBack(h, path, pos))
      modifies this
      ensures Valid() && Trees() == Apply(old(Trees()), Op.PopBack(h, path, pos))
      ensures ok <==> pos < |Inner(old(Trees())[h].value, path).kids|
    {
      hide Shaped, Entries, Surplus, References, Held, Chain, Put, Bound, Placed;
      ghost var chain: seq<Id>;
      var place;
      place, chain := Locate(h, path);
      var id := Occupant(heap, handles, place);
      CellSeen(heap, view, rank, id);
      if !Container(heap[id].value.data) || pos >= |heap[id].value.kids| {
        return false;
      }
      id, chain := OwnPlace(h, path, place, chain);
      OwnedFacts(heap, handles, view, rank, h, chain, path);
      assert Trees()[h] == old(Trees())[h];
      PopOwned(h, chain, path, id, pos);
      return true;
    }

    /** The same once the cell `id` at the end of the chain is unique. */
    method PopOwned(h: Handle, ghost chain: seq<Id>, ghost path: seq<nat>, id: Id, pos: nat)
      requires Valid() && Chain(heap, chain, path) && id == chain[|path|] && Live(heap, id)
      requires h < |handles| && handles[h] == Some(chain[0])
      requires Container(heap[id].value.data) && pos < |heap[id].value.kids|
      modifies this
      ensures Valid() && id < |old(view)| && chain[0] < |old(view)| && pos < |old(view)[id].kids|
      ensures var t := old(view)[id];
              Trees() == old(Trees())[h := Some(Put(old(view)[chain[0]], path, t.(kids := Without(t.kids, pos))))]
                         + [Some(t.kids[pos])]
    {
      hide Shaped, Entries, Surplus, References, Held, Chain, Put, Bound;
      OwnedFacts(heap, handles, view, rank, h, chain, path);
      var c := heap[id].value;
      var kid := c.kids[pos];
      assert kid in c.kids;
      ghost var t := view[id];
      var c' := c.(kids := Without(c.kids, pos));
      WithoutIn(c.kids, pos);
      WithoutCounts(c.kids, pos);
      Rewrite(h, chain, path, id, c', t.(kids := Without(t.kids, pos)));
      assert view[kid] == t.kids[pos];
      Return(kid);
    }
  
    /** Empties the entry `pos` of the cell at the end of a chain and destroys the
        handle it held. */
    method TakeOut(h: Handle, ghost chain: seq<Id>, ghost path: seq<nat>, p: Id, pos: nat)
      requires Valid() && Chain(heap, chain, path) && p == chain[|path|] && Live(heap, p)
      requires h < |handles| && handles[h] == Some(chain[0])
      requires Container(heap[p].value.data) && pos < |heap[p].value.kids|
      modifies this`heap, this`view, this`rank
      ensures Valid() && Chain(heap, chain, path)
      ensures heap[p] == Some(old(heap)[p].value.(kids := Without(old(heap)[p].value.kids, pos)))
      ensures p < |old(view)| && pos < |old(view)[p].kids|
      ensures Trees() == old(Trees())[h :=
                Some(Put(old(view)[chain[0]], path, old(view)[p].(kids := Without(old(view)[p].kids, pos))))]
    {
      hide Shaped, Entries, Surplus, References, Held, Chain, Put, Bound;
      OwnedFacts(heap, handles, view, rank, h, chain, path);
      var c := heap[p].value;
      var was := c.kids[pos];
      assert was in c.kids;
      ghost var t := view[p];
      var c' := c.(kids := Without(c.kids, pos));
      WithoutIn(c.kids, pos);
      WithoutCounts(c.kids, pos);
      RewrittenChain(heap, view, rank, chain, path, c');
      Rewrite(h, chain, path, p, c', t.(kids := Without(t.kids, pos)));
      Drop(h, chain, path, was);
    }

    /** Destroys a handle that is already out of reach. */
    method Drop(h: Handle, ghost chain: seq<Id>, ghost path: seq<nat>, was: Id)
      requires Shaped(heap, view, rank) && Chain(heap, chain, path)
      requires h < |handles| && handles[h] == Some(chain[0])
      requires forall x: Id :: Surplus(heap, x) == References(handles)[x] + if x == was then 1 else 0
      modifies this`heap
      ensures Valid() && Chain(heap, chain, path)
      ensures heap[chain[|path|]] == old(heap)[chain[|path|]]
    {
      hide Shaped, Entries, Surplus, References, Chain;
      assert Held(heap, was) by { assert Surplus(heap, was) >= 1; }
      SurplusIsLive(heap, was);
      DecRef(was);
      hide Held, Thinned;
      HandleIsHeld(heap, handles, h);
      ThinnedKeepsChain(old(heap), heap, view, rank, chain, path);
    }

    /** Stores a reference to the cell of `src` in the entry `pos`. */
    method PutIn(h: Handle, ghost chain: seq<Id>, ghost path: seq<nat>, p: Id, pos: nat, src: Handle)
      requires Valid() && Chain(heap, chain, path) && p == chain[|path|] && Live(heap, p)
      requires h < |handles| && handles[h] == Some(chain[0])
      requires Container(heap[p].value.data) && pos <= |heap[p].value.kids|
      requires src < |handles| && src != h && handles[src].Some?
      modifies this`heap, this`view, this`rank
      ensures Valid()
      ensures Trees()[src].Some? && p < |old(view)| && pos <= |old(view)[p].kids|
      ensures Trees() == old(Trees())[h :=
                Some(Put(old(view)[chain[0]], path,
                         old(view)[p].(kids := Insert(old(view)[p].kids, pos, Trees()[src].value))))]
    {
      hide Shaped, Entries, Surplus, References, Held, Chain, Put, Bound;
      OwnedFacts(heap, handles, view, rank, h, chain, path);
      var kid := handles[src].value;
      ghost var t := view[p];
      IncRef(kid);
      IncRefKeepsChain(old(heap), heap, chain, path, kid);
      var c := heap[p].value;
      var c' := c.(kids := Insert(c.kids, pos, kid));
      InsertCounts(c.kids, pos, kid);
      InsertFits(heap, view, rank, chain, c, t, pos, kid);
      Rewrite(h, chain, path, p, c', t.(kids := Insert(t.kids, pos, view[kid])));
    }

    /** `operator =` on the child handle `dst[p0][p1]...`: while the old cell is
        released the entry counts as empty. */
    method AssignEntry(dst: Handle, path: seq<nat>, src: Handle)
      requires Valid() && Allowed(Trees(), Op.Assign(dst, path, src)) && path != []
      modifies this
      ensures Valid() && Trees() == Apply(old(Trees()), Op.Assign(dst, path, src))
    {
      hide Shaped, Entries, Surplus, References, Held, Chain, Put, Inner;
      ghost var root, new' := old(Trees())[dst].value, old(Trees())[src].value;
      var n := |path| - 1;
      ghost var chain: seq<Id>;
      var place;
      place, chain := Locate(dst, path);
      var id := Occupant(heap, handles, place);
      assert Trees()[src] == old(Trees())[src] && Trees()[dst] == old(Trees())[dst];
      if id == handles[src].value {
        PutSame(root, path);
        return;
      }
      Reassigned(root, path, new');
      hide Insert, Without;
      var p := place.cell;
      OwnedFacts(heap, handles, view, rank, dst, chain, path[..n]);
      TakeOut(dst, chain, path[..n], p, path[n]);
      OwnedFacts(heap, handles, view, rank, dst, chain, path[..n]);
      assert Trees()[dst] == Some(view[chain[0]]) && Trees()[src] == Some(new');
      PutIn(dst, chain, path[..n], p, path[n], src);
    }

    method Assign(dst: Handle, path: seq<nat>, src: Handle)
      requires Valid() && Allowed(Trees(), Op.Assign(dst, path, src))
      modifies this
      ensures Valid() && Trees() == Apply(old(Trees()), Op.Assign(dst, path, src))
    {
      if path == [] {
        AssignRoot(dst, src);
      } else {
        AssignEntry(dst, path, src);
      }
    }

    method Step(op: Op)
      requires Valid() && Allowed(Trees(), op)
      modifies this
      ensures Valid() && Trees() == Apply(old(Trees()), op)
      ensures Meant(old(Trees()), op, Trees())
    {
      ApplyIsMeant(Trees(), op);
      hide Meant;
      hide *;
      match op
      case Make(data) => Make(data);
      case Copy(src, path) => Copy(src, path);
      case Assign(dst, path, src) => Assign(dst, path, src);
      case Destroy(h) => Destroy(h);
      case Swap(a, b) => Swap(a, b);
      case Merge(a, b) => MergeEqual(a, b);
      case Set(h, path, kind, text) => Set(h, path, kind, text);
      case Rename(h, path, name) => Rename(h, path, name);
      case PushBack(h, path, src) => PushBack(h, path, src);
      case Clear(h, path) => Clear(h, path);
      case PopBack(h, path, pos) => var _ := PopBack(h, path, pos);
    }

    /** Over any run, the shared cells cannot be told from handles that each own a
        tree of their own: no step changes what another handle shows. */
    method Run(ops: seq<Op>)
      requires Valid() && AllAllowed(Trees(), ops)
      modifies this
      ensures Valid() && Trees() == ApplyAll(old(Trees()), ops) && AllMeant(old(Trees()), ops, Trees())
    {
      EachIsMeant(Trees(), ops);
      hide Apply, Allowed, Valid, Trees, AllMeant;
      var i := 0;
      assert ops[0..] == ops;
      while i < |ops|
        invariant 0 <= i <= |ops|
        invariant Valid() && AllAllowed(Trees(), ops[i..])
        invariant ApplyAll(Trees(), ops[i..]) == ApplyAll(old(Trees()), ops)
      {
        assert ops[i..][0] == ops[i] && ops[i..][1..] == ops[i + 1..];
        Step(ops[i]);
        i := i + 1;
      }
    }
  }

  predicate AllAllowed(trees: seq<Option<Tree>>, ops: seq<Op>)
    decreases |ops|
  {
    ops == [] || (Allowed(trees, ops[0]) && AllAllowed(Apply(trees, ops[0]), ops[1..]))
  }

  function ApplyAll(trees: seq<Option<Tree>>, ops: seq<Op>): seq<Option<Tree>>
    requires AllAllowed(trees, ops)
    decreases |ops|
  {
    if ops == [] then trees else ApplyAll(Apply(trees, ops[0]), ops[1..])
  }

  /** Each step of a run does what it is for. */
  ghost predicate AllMeant(before: seq<Option<Tree>>, ops: seq<Op>, after: seq<Option<Tree>>)
    decreases |ops|
  {
    if ops == [] then after == before
    else exists mid :: Meant(before, ops[0], mid) && AllMeant(mid, ops[1..], after)
  }

  lemma {:induction false} EachIsMeant(before: seq<Option<Tree>>, ops: seq<Op>)
    requires AllAllowed(before, ops)
    ensures AllMeant(before, ops, ApplyAll(before, ops))
    decreases |ops|
  {
    if ops != [] {
      hide Apply, Allowed, Meant;
      ApplyIsMeant(before, ops[0]);
      EachIsMeant(Apply(before, ops[0]), ops[1..]);
    }
  }

  /** The handles a step gives a new tree or takes away. */
  predicate Writes(op: Op, g: Handle) {
    match op
    case Make(_) => false
    case Copy(_, _) => false
    case Assign(dst, _, _) => g == dst
    case Destroy(h) => g == h
    case Swap(a, b) => g == a || g == b
    case Merge(_, _) => false
    case Set(h, _, _, _) => g == h
    case Rename(h, _, _) => g == h
    case PushBack(h, _, _) => g == h
    case Clear(h, _) => g == h
    case PopBack(h, _, _) => g == h
  }

  /** A handle that no step of a run writes shows the same tree at the end. */
  lemma {:induction false} UntouchedHandle(trees: seq<Option<Tree>>, ops: seq<Op>, g: Handle)
    requires AllAllowed(trees, ops) && g < |trees|
    requires forall i | 0 <= i < |ops| :: !Writes(ops[i], g)
    ensures g < |ApplyAll(trees, ops)| && ApplyAll(trees, ops)[g] == trees[g]
    decreases |ops|
  {
    hide Put, Inner, HasPath;
    if ops != [] {
      assert !Writes(ops[0], g);
      UntouchedHandle(Apply(trees, ops[0]), ops[1..], g);
    }
  }

  // ---------- nothing leaks ----------

  /** Following the child positions `path` from `from` leads to `to`. */
  predicate Leads(heap: Heap, from: Id, path: seq<nat>, to: Id)
    decreases |path|
  {
    if path == [] then from == to
    else
      var n := |path| - 1;
      exists c: Id | c < |heap| :: Leads(heap, from, path[..n], c) && EntryIs(heap, c, path[n], to)
  }

  predicate EntryIs(heap: Heap, c: Id, pos: nat, to: Id) {
    Live(heap, c) && pos < |heap[c].value.kids| && heap[c].value.kids[pos] == to
  }

  lemma LeadsOn(heap: Heap, from: Id, path: seq<nat>, c: Id, pos: nat, to: Id)
    requires Leads(heap, from, path, c) && EntryIs(heap, c, pos, to)
    ensures Leads(heap, from, path + [pos], to)
  {
    assert (path + [pos])[..|path|] == path;
  }

  /** Every cell still in memory can be reached from a handle. */
  lemma {:induction false} NoGarbage(heap: Heap, view: seq<Tree>, rank: seq<nat>, handles: seq<Option<Id>>, id: Id)
    returns (h: Handle, path: seq<nat>)
    requires Shaped(heap, view, rank) && Balanced(heap, handles) && Live(heap, id)
    ensures h < |handles| && handles[h].Some? && Leads(heap, handles[h].value, path, id)
    decreases Bound(rank) - rank[id]
  {
    hide Entries, References;
    assert CellShaped(heap, view, rank, id);
    if References(handles)[id] >= 1 {
      h := HandleExists(handles, id);
      path := [];
    } else {
      assert Surplus(heap, id) == References(handles)[id];
      var c, i := EntryExists(heap, id);
      assert CellShaped(heap, view, rank, c);
      h, path := NoGarbage(heap, view, rank, handles, c);
      LeadsOn(heap, handles[h].value, path, c, i, id);
      path := path + [i];
    }
  }

  lemma {:induction false} HandleExists(handles: seq<Option<Id>>, id: Id) returns (h: Handle)
    requires References(handles)[id] >= 1
    ensures h < |handles| && handles[h] == Some(id)
  {
    var n := |handles| - 1;
    if handles[n] == Some(id) {
      h := n;
    } else {
      h := HandleExists(handles[..n], id);
    }
  }

  /** When the last handle is gone every cell has been freed. */
  lemma NothingRemains(heap: Heap, view: seq<Tree>, rank: seq<nat>, handles: seq<Option<Id>>)
    requires Shaped(heap, view, rank) && Balanced(heap, handles)
    requires forall h | 0 <= h < |handles| :: handles[h].None?
    ensures forall id | 0 <= id < |heap| :: heap[id].None?
  {
    hide Shaped, Balanced, Leads;
    forall id: Id | id < |heap| ensures heap[id].None? {
      if heap[id].Some? {
        var h, path := NoGarbage(heap, view, rank, handles, id);
        assert false;
      }
    }
  }

  // ---------- uses the library does not survive ----------

  lemma LiveIsCounted(heap: Heap, view: seq<Tree>, rank: seq<nat>, id: Id)
    requires Shaped(heap, view, rank) && Live(heap, id)
    ensures RefCount(heap, id) > 0
  {
    assert CellShaped(heap, view, rank, id);
  }

  lemma NotItsOwnChild(heap: Heap, view: seq<Tree>, rank: seq<nat>, id: Id, pos: nat)
    requires Shaped(heap, view, rank) && Live(heap, id) && pos < |heap[id].value.kids|
    ensures heap[id].value.kids[pos] != id
  {
    assert CellShaped(heap, view, rank, id);
  }

  /** The heap after a node was pushed into the cell `target`; only containers take it. */
  function Pushed(heap: Heap, target: Id, root: Id): Heap
    requires Live(heap, target) && Live(heap, root)
  {
    if !Container(heap[target].value.data) then heap
    else Adopt(Count(heap, root, heap[root].value.refcount + 1), target, root)
  }

  /** A node pushed into itself, or into one of its own children, has no tree any more
      exactly when the target is a container. Then it counts a reference that no handle
      holds, and is not freed when the last handle goes. */
  lemma PushedIntoItselfIff(heap: Heap, view: seq<Tree>, rank: seq<nat>, chain: seq<Id>, path: seq<nat>)
    requires Shaped(heap, view, rank) && Chain(heap, chain, path) && Held(heap, chain[0])
    ensures var target, root := chain[|path|], chain[0];
            (exists view', rank' :: Shaped(Pushed(heap, target, root), view', rank'))
            <==> !Container(heap[target].value.data)
    ensures var target, root := chain[|path|], chain[0];
            Container(heap[target].value.data) ==>
              var pushed := Pushed(heap, target, root);
              && Live(pushed, root) && pushed[root].value.refcount == 2
              && var released := Count(pushed, root, 1);
                 Live(released, root) && Surplus(released, root) == 0
  {
    hide Entries;
    var target, root := chain[|path|], chain[0];
    EndOfChain(heap, chain, path);
    HeldOutside(heap, chain, path, 0);
    if Container(heap[target].value.data) {
      var counted, pushed := Count(heap, root, 2), Pushed(heap, target, root);
      CountKeeps(heap, view, rank, root, 2);
      AdoptCounts(counted, target, root);
      var released := Count(pushed, root, 1);
      EntriesUpdate(pushed, root, released[root]);
      assert Surplus(heap, root) == 1 && Surplus(pushed, root) == 1 && Entries(released)[root] == Entries(pushed)[root];
      forall view': seq<Tree>, rank': seq<nat> ensures !Shaped(pushed, view', rank') {
        ChainDistinct(heap, view, rank, chain, path);
        PushedHasNoRank(heap, chain, path, view', rank');
      }
    } else {
      assert Shaped(Pushed(heap, target, root), view, rank);
    }
  }

  lemma PushedHasNoRank(heap: Heap, chain: seq<Id>, path: seq<nat>, view': seq<Tree>, rank': seq<nat>)
    requires Chain(heap, chain, path) && (forall i, j | 0 <= i < j < |chain| :: chain[i] != chain[j])
    requires Live(heap, chain[|path|]) && Container(heap[chain[|path|]].value.data)
    ensures !Shaped(Pushed(heap, chain[|path|], chain[0]), view', rank')
  {
    var pushed, target := Pushed(heap, chain[|path|], chain[0]), chain[|path|];
    if Shaped(pushed, view', rank') {
      var last := |heap[target].value.kids|;
      assert CellShaped(pushed, view', rank', target) && pushed[target].value.kids[last] == chain[0];
      Descends(heap, chain, path, pushed, view', rank', |path|);
      assert false;
    }
  }

  lemma {:induction false} Descends(heap: Heap, chain: seq<Id>, path: seq<nat>, pushed: Heap, view': seq<Tree>, rank': seq<nat>, k: nat)
    requires Chain(heap, chain, path) && (forall i, j | 0 <= i < j < |chain| :: chain[i] != chain[j])
    requires Live(heap, chain[|path|]) && Container(heap[chain[|path|]].value.data)
    requires pushed == Pushed(heap, chain[|path|], chain[0]) && Shaped(pushed, view', rank') && k <= |path|
    ensures forall i | 0 <= i < |chain| :: Live(pushed, chain[i])
    ensures rank'[chain[k]] <= rank'[chain[0]]
  {
    if k > 0 {
      Descends(heap, chain, path, pushed, view', rank', k - 1);
      assert CellShaped(pushed, view', rank', chain[k - 1]) && Link(heap, chain, path, k - 1);
      assert pushed[chain[k - 1]].value.kids == heap[chain[k - 1]].value.kids;
    }
  }

  /** A program that starts from the cell `from` comes to `to` by the child positions
      `path`, through containers only. */
  predicate Shows(heap: Heap, from: Id, path: seq<nat>, to: Id)
    decreases |path|
  {
    if path == [] then from == to
    else
      && Live(heap, from) && Container(heap[from].value.data) && path[0] < |heap[from].value.kids|
      && Shows(heap, heap[from].value.kids[path[0]], path[1..], to)
  }

  /** `id` without its child `pos`: what `pop_back(name)` leaves. */
  function Popped(heap: Heap, id: Id, pos: nat): Heap
    requires Live(heap, id) && pos < |heap[id].value.kids|
  {
    heap[id := Some(heap[id].value.(kids := Without(heap[id].value.kids, pos)))]
  }

  ghost predicate Ranked(heap: Heap, rank: seq<nat>) {
    && |rank| == |heap|
    && forall id: Id | Live(heap, id) ::
         var c := heap[id].value;
         c.refcount > 0 && forall i | 0 <= i < |c.kids| :: Live(heap, c.kids[i]) && rank[c.kids[i]] < rank[id]
  }

  /** The tree seen at a cell. */
  ghost function TreeAt(heap: Heap, rank: seq<nat>, id: Id): Tree
    requires Ranked(heap, rank) && Live(heap, id)
    decreases rank[id]
  {
    var c := heap[id].value;
    Tree(c.data, if Container(c.data)
                 then seq(|c.kids|, i requires 0 <= i < |c.kids| => TreeAt(heap, rank, c.kids[i]))
                 else [])
  }

  ghost function TreesAt(heap: Heap, rank: seq<nat>): (view: seq<Tree>)
    requires Ranked(heap, rank)
    ensures Shaped(heap, view, rank)
  {
    var none := Tree(Data(JsonNode.Kind.Null, "", false, "", false), []);
    seq(|heap|, id requires 0 <= id < |heap| => if heap[id].Some? then TreeAt(heap, rank, id) else none)
  }

  /** Every cell still shows a tree after a child was taken out of a cell, shared or not. */
  lemma PoppedIsShaped(heap: Heap, view: seq<Tree>, rank: seq<nat>, id: Id, pos: nat) returns (view': seq<Tree>)
    requires Shaped(heap, view, rank) && Live(heap, id) && pos < |heap[id].value.kids|
    ensures Shaped(Popped(heap, id, pos), view', rank)
  {
    var popped := Popped(heap, id, pos);
    forall x: Id | Live(popped, x)
      ensures var c := popped[x].value;
              c.refcount > 0 && forall i | 0 <= i < |c.kids| :: Live(popped, c.kids[i]) && rank[c.kids[i]] < rank[x]
    {
      assert CellShaped(heap, view, rank, x);
    }
    view' := TreesAt(popped, rank);
  }

  /** `pop_back(name)` does not make its node unique. Another handle shows something
      else afterwards exactly when the cell can be reached from it; with a single
      reference to the cell there is no such handle. */
  lemma SharedPopShowsIff(heap: Heap, view: seq<Tree>, rank: seq<nat>, handles: seq<Option<Id>>, g: Handle, id: Id,
                          pos: nat, view': seq<Tree>, rank': seq<nat>, h: Handle)
    requires Shaped(heap, view, rank) && Balanced(heap, handles) && Live(heap, id) && Container(heap[id].value.data)
    requires pos < |heap[id].value.kids| && Shaped(Popped(heap, id, pos), view', rank')
    requires g < |handles| && handles[g] == Some(id) && h < |handles| && handles[h].Some?
    ensures TreesOf(handles, view')[h] != TreesOf(handles, view)[h] <==> exists path :: Shows(heap, handles[h].value, path, id)
    ensures heap[id].value.refcount == 1 && h != g ==> TreesOf(handles, view')[h] == TreesOf(handles, view)[h]
  {
    HandlesAreLive(heap, handles);
    var x := handles[h].value;
    assert TreesOf(handles, view)[h] == Some(view[x]) && TreesOf(handles, view')[h] == Some(view'[x]);
    hide Shaped, Balanced, TreesOf, Shows, Popped;
    if view'[x] != view[x] {
      var path := ChangeIsShown(heap, view, rank, id, pos, view', rank', x);
      if h != g {
        ShownTwice(heap, view, rank, handles, g, h, path, id);
      }
    }
    if path: seq<nat> :| Shows(heap, x, path, id) {
      ShownChanges(heap, view, rank, id, pos, view', rank', x, path);
    }
  }

  lemma {:induction false} ChangeIsShown(heap: Heap, view: seq<Tree>, rank: seq<nat>, id: Id, pos: nat,
                                         view': seq<Tree>, rank': seq<nat>, x: Id) returns (path: seq<nat>)
    requires Shaped(heap, view, rank) && Live(heap, id) && pos < |heap[id].value.kids|
    requires Shaped(Popped(heap, id, pos), view', rank') && Live(heap, x) && view'[x] != view[x]
    ensures Shows(heap, x, path, id)
    decreases rank[x]
  {
    if x == id {
      path := [];
    } else {
      var kids := heap[x].value.kids;
      assert CellShaped(heap, view, rank, x) && CellShaped(Popped(heap, id, pos), view', rank', x);
      hide Shaped;
      var i := ChangedKid(heap, view, rank, Popped(heap, id, pos), view', rank', x);
      path := ChangeIsShown(heap, view, rank, id, pos, view', rank', kids[i]);
      path := [i] + path;
    }
  }

  /** A cell that is the same but looks different has a child that does. */
  lemma ChangedKid(heap: Heap, view: seq<Tree>, rank: seq<nat>, heap': Heap, view': seq<Tree>, rank': seq<nat>, x: Id)
    returns (i: nat)
    requires |view| == |rank| == |heap| && Live(heap, x) && CellShaped(heap, view, rank, x)
    requires |view'| == |rank'| == |heap'| == |heap| && Live(heap', x) && CellShaped(heap', view', rank', x)
    requires heap'[x] == heap[x] && view'[x] != view[x]
    ensures var c := heap[x].value;
            && Container(c.data) && i < |c.kids| && Live(heap, c.kids[i]) && rank[c.kids[i]] < rank[x]
            && view'[c.kids[i]] != view[c.kids[i]]
  {
    var seen, seen' := view[x].kids, view'[x].kids;
    assert seen != seen' && |seen| == |seen'|;
    i :| 0 <= i < |seen| && seen[i] != seen'[i];
  }

  lemma {:induction false} ShownChanges(heap: Heap, view: seq<Tree>, rank: seq<nat>, id: Id, pos: nat,
                                        view': seq<Tree>, rank': seq<nat>, x: Id, path: seq<nat>)
    requires Shaped(heap, view, rank) && Live(heap, id) && Container(heap[id].value.data) && pos < |heap[id].value.kids|
    requires Shaped(Popped(heap, id, pos), view', rank') && Live(heap, x) && Shows(heap, x, path, id)
    ensures view'[x] != view[x]
    decreases |path|
  {
    assert CellShaped(heap, view, rank, x) && CellShaped(Popped(heap, id, pos), view', rank', x);
    if path == [] {
      assert |view'[id].kids| < |view[id].kids|;
    } else {
      ShowsDown(heap, view, rank, x, path, id);
      var kid := heap[x].value.kids[path[0]];
      ShownChanges(heap, view, rank, id, pos, view', rank', kid, path[1..]);
      assert view'[x].kids[path[0]] == view'[kid] && view[x].kids[path[0]] == view[kid];
    }
  }

  lemma {:induction false} ShowsDown(heap: Heap, view: seq<Tree>, rank: seq<nat>, from: Id, path: seq<nat>, to: Id)
    requires Shaped(heap, view, rank) && Live(heap, from) && Shows(heap, from, path, to)
    ensures Live(heap, to) && if path == [] then from == to else rank[to] < rank[from] && Entries(heap)[to] >= 1
    decreases |path|
  {
    if path != [] {
      assert CellShaped(heap, view, rank, from);
      EntryCounts(heap, from, path[0]);
      hide Entries;
      ShowsDown(heap, view, rank, heap[from].value.kids[path[0]], path[1..], to);
    }
  }

  /** A cell shown by two handles is counted twice. */
  lemma ShownTwice(heap: Heap, view: seq<Tree>, rank: seq<nat>, handles: seq<Option<Id>>, g: Handle, h: Handle,
                   path: seq<nat>, id: Id)
    requires Shaped(heap, view, rank) && Balanced(heap, handles) && Live(heap, id) && g != h
    requires g < |handles| && handles[g] == Some(id) && h < |handles| && handles[h].Some?
    requires Live(heap, handles[h].value) && Shows(heap, handles[h].value, path, id)
    ensures heap[id].value.refcount > 1
  {
    ShowsDown(heap, view, rank, handles[h].value, path, id);
    HandleCounts(handles, g);
    if path == [] {
      TwoHandlesCount(handles, g, h);
    }
    hide Entries, References;
    assert Surplus(heap, id) == References(handles)[id];
  }

  lemma {:induction false} ThinnedEntries(before: Heap, after: Heap, id: Id)
    requires Thinned(before, after)
    ensures Entries(after)[id] <= Entries(before)[id]
  {
    if before != [] {
      var n := |before| - 1;
      ThinnedEntries(before[..n], after[..n], id);
    }
  }

  /** The heap after one reference to `id` was given up, as `DecRef` leaves it. */
  ghost predicate Released(before: Heap, after: Heap, view: seq<Tree>, rank: seq<nat>, id: Id) {
    && Shaped(after, view, rank) && Thinned(before, after)
    && forall x: Id :: Surplus(after, x) == Surplus(before, x) - if x == id then 1 else 0
  }

  /** The child handle `pos` of the cell `c` is in memory: it is destroyed with its cell. */
  predicate HandleLives(heap: Heap, c: Id, pos: nat) {
    Live(heap, c) && pos < |heap[c].value.kids|
  }

  /** `operator =` gives up the old cell before it reads the handle it assigns from. When
      that is a child handle of the old cell, it has been destroyed exactly when the
      cell had no other reference. */
  lemma AssignedFromOwnChildIff(before: Heap, after: Heap, view: seq<Tree>, rank: seq<nat>, id: Id, pos: nat)
    requires Shaped(before, view, rank) && Held(before, id) && HandleLives(before, id, pos)
    requires Released(before, after, view, rank, id)
    ensures !HandleLives(after, id, pos) <==> before[id].value.refcount == 1
  {
    hide Entries;
    if before[id].value.refcount == 1 {
      SoleOwner(before, id);
      ThinnedEntries(before, after, id);
      if Live(after, id) { LiveIsCounted(after, view, rank, id); }
    } else if !Live(after, id) {
      LiveIsCounted(before, view, rank, id);
      Unreferenced(after, view, rank, id);
      var c, i := EntryExists(before, id);
      assert CellShaped(before, view, rank, c);
      AboveSurvives(before, after, view, rank, id, c);
      EntryCounts(after, c, i);
      EntriesLive(after, view, rank, id);
    }
  }

  /** Giving up a reference frees nothing above the cell. */
  lemma {:induction false} AboveSurvives(before: Heap, after: Heap, view: seq<Tree>, rank: seq<nat>, id: Id, c: Id)
    requires Shaped(before, view, rank) && Released(before, after, view, rank, id)
    requires Live(before, c) && id < |rank| && rank[c] > rank[id]
    ensures Live(after, c)
    decreases Bound(rank) - rank[c]
  {
    hide Entries;
    if !Live(after, c) {
      LiveIsCounted(before, view, rank, c);
      Unreferenced(after, view, rank, c);
      var d, i := EntryExists(before, c);
      assert CellShaped(before, view, rank, d);
      AboveSurvives(before, after, view, rank, id, d);
      EntryCounts(after, d, i);
      EntriesLive(after, view, rank, c);
    }
  }

  /** A node assigned from a node further down, reached by `operator[]`, which makes
      every cell on the way unshared: the handle it assigns from is always gone. */
  lemma AssignedFromOwnDescendant(before: Heap, after: Heap, view: seq<Tree>, rank: seq<nat>,
                                  chain: seq<Id>, path: seq<nat>, pos: nat)
    requires Shaped(before, view, rank) && Chain(before, chain, path) && Held(before, chain[0])
    requires HandleLives(before, chain[|path|], pos) && Released(before, after, view, rank, chain[0])
    ensures !HandleLives(after, chain[|path|], pos)
  {
    ChainIsFreed(before, after, view, rank, chain, path, |path|);
  }

  lemma {:induction false} ChainIsFreed(before: Heap, after: Heap, view: seq<Tree>, rank: seq<nat>,
                                        chain: seq<Id>, path: seq<nat>, k: nat)
    requires Shaped(before, view, rank) && Chain(before, chain, path) && Held(before, chain[0])
    requires Released(before, after, view, rank, chain[0]) && k <= |path|
    ensures !Live(after, chain[k])
  {
    hide Entries;
    HeldOutside(before, chain, path, k);
    if Live(after, chain[k]) {
      LiveIsCounted(after, view, rank, chain[k]);
      ChainDistinct(before, view, rank, chain, path);
      var c, i := EntryExists(after, chain[k]);
      OnlyWayIn(before, chain, path, c, i, k);
      ChainIsFreed(before, after, view, rank, chain, path, k - 1);
    }
  }
}
