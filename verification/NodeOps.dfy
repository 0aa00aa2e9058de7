/** The operations of `JSONNode` on trees that are never shared, and what each of them
    shows at every position of every handle. */
module NodeOps {
  import opened Text
  import opened NodeHeap
  import JsonNode

  /** A program step. Nodes inside a tree are named by a handle and a path of positions. */
  datatype Op =
    | Make(data: Data)
    | Copy(src: Handle, path: seq<nat>)
    | Assign(dst: Handle, path: seq<nat>, src: Handle)
    | Destroy(h: Handle)
    | Swap(a: Handle, b: Handle)
    | Merge(a: Handle, b: Handle)
    | Set(h: Handle, path: seq<nat>, kind: JsonNode.Kind, text: string)
    | Rename(h: Handle, path: seq<nat>, name: string)
    | PushBack(h: Handle, path: seq<nat>, src: Handle)
    | Clear(h: Handle, path: seq<nat>)
    | PopBack(h: Handle, path: seq<nat>, pos: nat)

  predicate Reachable(trees: seq<Option<Tree>>, h: Handle, path: seq<nat>) {
    h < |trees| && trees[h].Some? && HasPath(trees[h].value, path)
  }

  /** What the library asks of its callers: handles that exist, positions in
      range, no node put inside itself, and equal nodes for `merge`. */
  predicate Allowed(trees: seq<Option<Tree>>, op: Op) {
    match op
    case Make(_) => true
    case Copy(src, path) => Reachable(trees, src, path)
    case Assign(dst, path, src) =>
      Reachable(trees, dst, path) && Reachable(trees, src, []) && (path != [] ==> dst != src)
    case Destroy(h) => Reachable(trees, h, [])
    case Swap(a, b) => Reachable(trees, a, []) && Reachable(trees, b, [])
    case Merge(a, b) => Reachable(trees, a, []) && Reachable(trees, b, []) && trees[a] == trees[b]
    case Set(h, path, kind, text) => Reachable(trees, h, path) && !kind.Array? && !kind.Object?
    case Rename(h, path, _) => Reachable(trees, h, path)
    case PushBack(h, path, src) => Reachable(trees, h, path) && Reachable(trees, src, []) && h != src
    case Clear(h, path) => Reachable(trees, h, path)
    case PopBack(h, path, _) => Reachable(trees, h, path)
  }

  function Typed(d: Data, kind: JsonNode.Kind, text: string): Data {
    d.(kind := kind, text := text, textEncoded := kind.String? || d.textEncoded)
  }

  function Named(d: Data, name: string): Data {
    d.(name := name, nameEncoded := true)
  }

  /** The same step when every handle owns a tree of its own. */
  function Apply(trees: seq<Option<Tree>>, op: Op): seq<Option<Tree>>
    requires Allowed(trees, op)
  {
    match op
    case Make(data) => trees + [Some(Tree(data, []))]
    case Copy(src, path) => trees + [Some(Inner(trees[src].value, path))]
    case Assign(dst, path, src) => trees[dst := Some(Put(trees[dst].value, path, trees[src].value))]
    case Destroy(h) => trees[h := None]
    case Swap(a, b) => trees[a := trees[b]][b := trees[a]]
    case Merge(_, _) => trees
    case Set(h, path, kind, text) =>
      var t := Inner(trees[h].value, path);
      trees[h := Some(Put(trees[h].value, path, Tree(Typed(t.data, kind, text), [])))]
    case Rename(h, path, name) =>
      var t := Inner(trees[h].value, path);
      trees[h := Some(Put(trees[h].value, path, t.(data := Named(t.data, name))))]
    case PushBack(h, path, src) =>
      var t := Inner(trees[h].value, path);
      if !Container(t.data) then trees
      else trees[h := Some(Put(trees[h].value, path, t.(kids := t.kids + [trees[src].value])))]
    case Clear(h, path) =>
      var t := Inner(trees[h].value, path);
      trees[h := Some(Put(trees[h].value, path, t.(kids := [])))]
    case PopBack(h, path, pos) =>
      var t := Inner(trees[h].value, path);
      if pos >= |t.kids| then trees
      else trees[h := Some(Put(trees[h].value, path, t.(kids := Without(t.kids, pos))))] + [Some(t.kids[pos])]
  }

  lemma {:induction false} PutSame(t: Tree, path: seq<nat>)
    requires HasPath(t, path)
    ensures Put(t, path, Inner(t, path)) == t
  {
    if path != [] {
      PutSame(t.kids[path[0]], path[1..]);
    }
  }

  // ---------- what a program sees afterwards ----------

  /** The node reached by child positions. */
  function At(t: Tree, p: seq<nat>): Option<Tree>
    decreases |p|
  {
    if p == [] then Some(t) else if p[0] < |t.kids| then At(t.kids[p[0]], p[1..]) else None
  }

  /** No difference but in what is further down. */
  predicate Alike(a: Option<Tree>, b: Option<Tree>) {
    if a.Some? then b.Some? && a.value.data == b.value.data && |a.value.kids| == |b.value.kids| else b.None?
  }

  ghost predicate SameBut(t: Tree, t': Tree, path: seq<nat>) {
    forall p | !(path <= p) :: Alike(At(t', p), At(t, p))
  }

  predicate Others(before: seq<Option<Tree>>, after: seq<Option<Tree>>, h: Handle) {
    |before| <= |after| && forall g | 0 <= g < |before| && g != h :: after[g] == before[g]
  }

  /** Of all positions of all handles `before`, only those from `path` of `h` on have
      changed, and there is `n` now. */
  ghost predicate Changed(before: seq<Option<Tree>>, after: seq<Option<Tree>>, h: Handle, path: seq<nat>, n: Tree) {
    && h < |before| && before[h].Some? && Others(before, after, h) && after[h].Some?
    && SameBut(before[h].value, after[h].value, path) && At(after[h].value, path) == Some(n)
  }

  ghost predicate Added(before: seq<Option<Tree>>, after: seq<Option<Tree>>, t: Option<Tree>) {
    |after| == |before| + 1 && after[..|before|] == before && after[|before|] == t && t.Some?
  }

  /** The node an operation is about. */
  function Subject(trees: seq<Option<Tree>>, h: Handle, path: seq<nat>): Option<Tree> {
    if h < |trees| && trees[h].Some? then At(trees[h].value, path) else None
  }

  /** What each operation is for. */
  ghost predicate Meant(before: seq<Option<Tree>>, op: Op, after: seq<Option<Tree>>) {
    match op
    case Make(data) => Added(before, after, Some(Tree(data, [])))
    case Copy(src, path) => Added(before, after, Subject(before, src, path))
    case Assign(dst, path, src) =>
      |after| == |before| && Subject(before, src, []).Some?
      && Changed(before, after, dst, path, Subject(before, src, []).value)
    case Destroy(h) => h < |before| == |after| && Others(before, after, h) && after[h].None?
    case Swap(a, b) =>
      && a < |before| == |after| && b < |before| && after[a] == before[b] && after[b] == before[a]
      && forall g | 0 <= g < |before| && g != a && g != b :: after[g] == before[g]
    case Merge(_, _) => after == before
    case Set(h, path, kind, text) =>
      |after| == |before| && Subject(before, h, path).Some?
      && var d := Subject(before, h, path).value.data;
         Changed(before, after, h, path,
                 Tree(Data(kind, d.name, d.nameEncoded, text, kind.String? || d.textEncoded), []))
    case Rename(h, path, name) =>
      |after| == |before| && Subject(before, h, path).Some?
      && var Tree(d, kids) := Subject(before, h, path).value;
         Changed(before, after, h, path, Tree(Data(d.kind, name, true, d.text, d.textEncoded), kids))
    case PushBack(h, path, src) =>
      |after| == |before| && Subject(before, src, []).Some? && Subject(before, h, path).Some?
      && var Tree(d, kids) := Subject(before, h, path).value;
         if d.kind.Array? || d.kind.Object?
         then Changed(before, after, h, path, Tree(d, kids + [Subject(before, src, []).value]))
         else after == before
    case Clear(h, path) =>
      |after| == |before| && Subject(before, h, path).Some?
      && Changed(before, after, h, path, Tree(Subject(before, h, path).value.data, []))
    case PopBack(h, path, pos) =>
      Subject(before, h, path).Some?
      && var Tree(d, kids) := Subject(before, h, path).value;
         if pos < |kids|
         then |after| == |before| + 1 && after[|before|] == Some(kids[pos])
              && Changed(before, after, h, path, Tree(d, kids[..pos] + kids[pos + 1..]))
         else after == before
  }

  lemma {:induction false} InnerIsAt(t: Tree, path: seq<nat>)
    requires HasPath(t, path)
    ensures At(t, path) == Some(Inner(t, path))
  {
    if path != [] { InnerIsAt(t.kids[path[0]], path[1..]); }
  }

  lemma {:induction false} PutAt(t: Tree, path: seq<nat>, u: Tree)
    requires HasPath(t, path)
    ensures At(Put(t, path, u), path) == Some(u)
  {
    if path != [] { PutAt(t.kids[path[0]], path[1..], u); }
  }

  lemma {:induction false} PutElsewhere(t: Tree, path: seq<nat>, u: Tree, p: seq<nat>)
    requires HasPath(t, path) && !(path <= p)
    ensures Alike(At(Put(t, path, u), p), At(t, p))
  {
    if p != [] && p[0] == path[0] {
      PrefixTail(path, p);
      PutElsewhere(t.kids[path[0]], path[1..], u, p[1..]);
    }
  }

  lemma PrefixTail(path: seq<nat>, p: seq<nat>)
    requires path != [] && p != [] && path[0] == p[0]
    ensures path[1..] <= p[1..] ==> path <= p
  {
    assert path == [path[0]] + path[1..] && p == [p[0]] + p[1..];
  }

  /** `Apply` changes one position of one handle. */
  lemma PutChanges(before: seq<Option<Tree>>, h: Handle, path: seq<nat>, u: Tree, more: seq<Option<Tree>>)
    requires Reachable(before, h, path)
    ensures Changed(before, before[h := Some(Put(before[h].value, path, u))] + more, h, path, u)
    ensures Subject(before, h, path) == Some(Inner(before[h].value, path))
  {
    var t := before[h].value;
    InnerIsAt(t, path);
    PutAt(t, path, u);
    forall p | !(path <= p) ensures Alike(At(Put(t, path, u), p), At(t, p)) {
      PutElsewhere(t, path, u, p);
    }
  }

  lemma ApplyIsMeant(before: seq<Option<Tree>>, op: Op)
    requires Allowed(before, op)
    ensures Meant(before, op, Apply(before, op))
  {
    hide Changed, At;
    var after := Apply(before, op);
    assert after + [] == after;
    match op
    case Copy(src, path) => InnerIsAt(before[src].value, path);
    case Assign(dst, path, src) => PutChanges(before, dst, path, before[src].value, []); InnerIsAt(before[src].value, []);
    case Set(h, path, kind, text) => PutChanges(before, h, path, Tree(Typed(Inner(before[h].value, path).data, kind, text), []), []);
    case Rename(h, path, name) =>
      var t := Inner(before[h].value, path);
      PutChanges(before, h, path, t.(data := Named(t.data, name)), []);
    case PushBack(h, path, src) =>
      var t := Inner(before[h].value, path);
      InnerIsAt(before[src].value, []);
      PutChanges(before, h, path, t.(kids := t.kids + [before[src].value]), []);
    case Clear(h, path) => PutChanges(before, h, path, Inner(before[h].value, path).(kids := []), []);
    case PopBack(h, path, pos) =>
      var t := Inner(before[h].value, path);
      PutChanges(before, h, path, t, []);
      if pos < |t.kids| {
        PutChanges(before, h, path, t.(kids := Without(t.kids, pos)), [Some(t.kids[pos])]);
      }
    case _ =>
  }

  /** What a program may do: anything to a node it can reach, as long as no container is
      typed as a value, no tree is put into itself, and nodes merged are equal. */
  lemma AllowedIff(trees: seq<Option<Tree>>, h: Handle, path: seq<nat>, g: Handle, kind: JsonNode.Kind, s: string, pos: nat,
                   data: Data)
    requires Reachable(trees, h, path) && Reachable(trees, g, [])
    ensures Allowed(trees, Op.Make(data)) && Allowed(trees, Op.Copy(h, path)) && Allowed(trees, Op.Rename(h, path, s))
    ensures Allowed(trees, Op.Clear(h, path)) && Allowed(trees, Op.PopBack(h, path, pos))
    ensures Allowed(trees, Op.Destroy(h)) && Allowed(trees, Op.Swap(h, g))
    ensures Allowed(trees, Op.Set(h, path, kind, s)) <==> kind != JsonNode.Kind.Array && kind != JsonNode.Kind.Object
    ensures Allowed(trees, Op.PushBack(h, path, g)) <==> h != g
    ensures Allowed(trees, Op.Assign(h, path, g)) <==> h != g || path == []
    ensures Allowed(trees, Op.Merge(h, g)) <==> trees[h] == trees[g]
  {
  }

  // ---------- nothing is left open ----------

  lemma {:induction false} AlikeEverywhere(a: Tree, b: Tree)
    requires forall p :: Alike(At(a, p), At(b, p))
    ensures a == b
    decreases a
  {
    assert Alike(At(a, []), At(b, []));
    forall i | 0 <= i < |a.kids| ensures a.kids[i] == b.kids[i] {
      forall p ensures Alike(At(a.kids[i], p), At(b.kids[i], p)) {
        assert ([i] + p)[1..] == p && Alike(At(a, [i] + p), At(b, [i] + p));
      }
      AlikeEverywhere(a.kids[i], b.kids[i]);
    }
  }

  lemma {:induction false} AtThrough(t: Tree, path: seq<nat>, q: seq<nat>)
    requires At(t, path).Some?
    ensures At(t, path + q) == At(At(t, path).value, q)
  {
    if path == [] {
      assert path + q == q;
    } else {
      assert (path + q)[1..] == path[1..] + q;
      AtThrough(t.kids[path[0]], path[1..], q);
    }
  }

  lemma ChangedIsUnique(before: seq<Option<Tree>>, x: seq<Option<Tree>>, y: seq<Option<Tree>>, h: Handle, path: seq<nat>, n: Tree)
    requires Changed(before, x, h, path, n) && Changed(before, y, h, path, n)
    ensures x[..|before|] == y[..|before|]
  {
    var a, b := x[h].value, y[h].value;
    forall p ensures Alike(At(a, p), At(b, p)) {
      if path <= p {
        assert p == path + p[|path|..];
        AtThrough(a, path, p[|path|..]);
        AtThrough(b, path, p[|path|..]);
      } else {
        assert Alike(At(a, p), At(before[h].value, p)) && Alike(At(b, p), At(before[h].value, p));
      }
    }
    AlikeEverywhere(a, b);
  }

  /** `Meant` says everything about the trees after a step. */
  lemma MeantIsUnique(before: seq<Option<Tree>>, op: Op, x: seq<Option<Tree>>, y: seq<Option<Tree>>)
    requires Meant(before, op, x) && Meant(before, op, y)
    ensures x == y
  {
    hide At;
    match op
    case Make(_) => SameAdded(before, x, y);
    case Copy(_, _) => SameAdded(before, x, y);
    case Assign(dst, path, src) => ChangedIsUnique(before, x, y, dst, path, Subject(before, src, []).value); Whole(before, x, y);
    case Set(h, path, kind, text) =>
      var d := Subject(before, h, path).value.data;
      ChangedIsUnique(before, x, y, h, path, Tree(Data(kind, d.name, d.nameEncoded, text, kind.String? || d.textEncoded), []));
      Whole(before, x, y);
    case Rename(h, path, name) =>
      var Tree(d, kids) := Subject(before, h, path).value;
      ChangedIsUnique(before, x, y, h, path, Tree(Data(d.kind, name, true, d.text, d.textEncoded), kids));
      Whole(before, x, y);
    case PushBack(h, path, src) =>
      var Tree(d, kids) := Subject(before, h, path).value;
      if d.kind.Array? || d.kind.Object? {
        ChangedIsUnique(before, x, y, h, path, Tree(d, kids + [Subject(before, src, []).value]));
        Whole(before, x, y);
      }
    case Clear(h, path) =>
      ChangedIsUnique(before, x, y, h, path, Tree(Subject(before, h, path).value.data, []));
      Whole(before, x, y);
    case PopBack(h, path, pos) =>
      var Tree(d, kids) := Subject(before, h, path).value;
      if pos < |kids| {
        ChangedIsUnique(before, x, y, h, path, Tree(d, kids[..pos] + kids[pos + 1..]));
        assert x == x[..|before|] + [x[|before|]] && y == y[..|before|] + [y[|before|]];
      }
    case _ =>
  }

  lemma SameAdded(before: seq<Option<Tree>>, x: seq<Option<Tree>>, y: seq<Option<Tree>>)
    requires |x| == |y| == |before| + 1 && x[..|before|] == y[..|before|] && x[|before|] == y[|before|]
    ensures x == y
  {
    assert x == x[..|before|] + [x[|before|]] && y == y[..|before|] + [y[|before|]];
  }

  lemma Whole(before: seq<Option<Tree>>, x: seq<Option<Tree>>, y: seq<Option<Tree>>)
    requires |x| == |y| == |before| && x[..|before|] == y[..|before|]
    ensures x == y
  {
    assert x == x[..|before|] && y == y[..|before|];
  }
}
