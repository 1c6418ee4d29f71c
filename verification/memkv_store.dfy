/** The tree of the key-value store (apps/memkv/src/memkv_store.cc), refining the flat map. */
module MemKv {
  import opened PathMap

  class Node {
    var children: map<string, Node>
    var data: string

    constructor ()
      ensures children == map[] && data == ""
    {
      children, data := map[], "";
    }
  }

  function Parent(p: Path): Path
    requires p != []
  {
    p[..|p| - 1]
  }

  function Last(p: Path): string
    requires p != []
  {
    p[|p| - 1]
  }

  lemma Snoc(p: Path, seg: string)
    ensures Parent(p + [seg]) == p && Last(p + [seg]) == seg
  {
  }

  /** The children of every node, by its path. */
  type Kids = map<Path, map<string, Node>>

  /** The node at q is the child of its parent for its last segment. */
  ghost predicate Hangs(nodes: map<Path, Node>, kids: Kids, q: Path) {
    q in nodes && q != [] ==>
      Parent(q) in nodes && Parent(q) in kids && Last(q) in kids[Parent(q)] && kids[Parent(q)][Last(q)] == nodes[q]
  }

  /** Every child is a node of the tree. */
  ghost predicate Named(nodes: map<Path, Node>, kids: Kids, p: Path, seg: string) {
    p in kids && seg in kids[p] ==> p + [seg] in nodes
  }

  ghost predicate SamePath(nodes: map<Path, Node>, p: Path, q: Path) {
    p in nodes && q in nodes && nodes[p] == nodes[q] ==> p == q
  }

  /** nodes names each node of the tree by one path, and kids are their children. */
  ghost predicate Shape(root: Node, nodes: map<Path, Node>, kids: Kids) {
    && kids.Keys == nodes.Keys
    && [] in nodes && nodes[[]] == root
    && (forall p, q {:trigger SamePath(nodes, p, q)} :: SamePath(nodes, p, q))
    && (forall q {:trigger Hangs(nodes, kids, q)} :: Hangs(nodes, kids, q))
    && (forall p, seg {:trigger Named(nodes, kids, p, seg)} :: Named(nodes, kids, p, seg))
  }

  /** Every prefix of a path in the tree is in the tree. */
  lemma {:induction false} PrefixIn(root: Node, nodes: map<Path, Node>, kids: Kids, q: Path, i: nat)
    requires Shape(root, nodes, kids) && q in nodes && i <= |q|
    ensures q[..i] in nodes
    decreases |q|
  {
    if i < |q| {
      assert Hangs(nodes, kids, q);
      PrefixIn(root, nodes, kids, Parent(q), i);
      assert Parent(q)[..i] == q[..i];
    } else {
      assert q[..i] == q;
    }
  }

  lemma ChildIn(root: Node, nodes: map<Path, Node>, kids: Kids, p: Path, seg: string)
    requires Shape(root, nodes, kids) && p in nodes
    ensures seg in kids[p] <==> p + [seg] in nodes
    ensures p + [seg] in nodes ==> kids[p][seg] == nodes[p + [seg]]
  {
    Snoc(p, seg);
    assert Hangs(nodes, kids, p + [seg]) && Named(nodes, kids, p, seg);
  }

  lemma OnlyAt(root: Node, nodes: map<Path, Node>, kids: Kids, p: Path)
    requires Shape(root, nodes, kids) && p in nodes
    ensures forall x :: x in nodes && x != p ==> nodes[x] != nodes[p]
  {
    forall x | x in nodes && x != p ensures nodes[x] != nodes[p] {
      assert SamePath(nodes, x, p);
    }
  }

  /** A missing child cuts off everything under it. */
  lemma Missing(root: Node, nodes: map<Path, Node>, kids: Kids, p: Path, seg: string, key: Path)
    requires Shape(root, nodes, kids) && p in nodes && seg !in kids[p] && p + [seg] <= key
    ensures key !in nodes
  {
    if key in nodes {
      PrefixIn(root, nodes, kids, key, |p| + 1);
      assert key[..|p| + 1] == p + [seg];
      ChildIn(root, nodes, kids, p, seg);
    }
  }

  function AttachKid(kids: Kids, p: Path, seg: string, c: Node): Kids
    requires p in kids
  {
    kids[p := kids[p][seg := c]][p + [seg] := map[]]
  }

  lemma AttachKeeps(root: Node, nodes: map<Path, Node>, kids: Kids, p: Path, seg: string, c: Node)
    requires Shape(root, nodes, kids) && p in nodes && seg !in kids[p] && (forall x :: x in nodes ==> nodes[x] != c)
    ensures Shape(root, nodes[p + [seg] := c], AttachKid(kids, p, seg, c))
  {
    var added := p + [seg];
    var nodes', kids' := nodes[added := c], AttachKid(kids, p, seg, c);
    Snoc(p, seg);
    ChildIn(root, nodes, kids, p, seg);
    forall q ensures Hangs(nodes', kids', q) {
      assert Hangs(nodes, kids, q);
      if q != [] && q != added {
        assert q == Parent(q) + [Last(q)];
      }
    }
    forall x, y ensures Named(nodes', kids', x, y) {
      assert Named(nodes, kids, x, y);
    }
    forall x, y ensures SamePath(nodes', x, y) {
      assert SamePath(nodes, x, y);
    }
  }

  /** m without the paths at or under key. */
  function Pruned<T>(m: map<Path, T>, key: Path): map<Path, T> {
    map q | q in m && !(key <= q) :: m[q]
  }

  function EraseKid(kids: Kids, p: Path, seg: string): Kids
    requires p in kids
  {
    Pruned(kids[p := kids[p] - {seg}], p + [seg])
  }

  lemma EraseKeeps(root: Node, nodes: map<Path, Node>, kids: Kids, p: Path, seg: string)
    requires Shape(root, nodes, kids) && p in nodes
    ensures Shape(root, Pruned(nodes, p + [seg]), EraseKid(kids, p, seg))
  {
    var key := p + [seg];
    var nodes', kids' := Pruned(nodes, key), EraseKid(kids, p, seg);
    Snoc(p, seg);
    forall q ensures Hangs(nodes', kids', q) {
      assert Hangs(nodes, kids, q);
      if q != [] {
        assert q == Parent(q) + [Last(q)];
      }
    }
    forall x, y ensures Named(nodes', kids', x, y) {
      assert Named(nodes, kids, x, y);
      Snoc(x, y);
      assert key <= x + [y] ==> key == x + [y] || key <= x;
    }
    forall x, y ensures SamePath(nodes', x, y) {
      assert SamePath(nodes, x, y);
    }
  }

  class MemKvStore {
    const root: Node
    /** Every node of the tree, by its path. */
    ghost var nodes: map<Path, Node>
    /** Every node allocated so far; Delete does not free any. */
    ghost var region: set<Node>

    ghost predicate Owned()
      reads this
    {
      forall p :: p in nodes ==> nodes[p] in region
    }

    ghost function ChildrenByPath(): Kids
      requires Owned()
      reads this, region
    {
      map p | p in nodes :: nodes[p].children
    }

    ghost predicate Valid()
      reads this, region
    {
      Owned() && Shape(root, nodes, ChildrenByPath())
    }

    ghost function Contents(): Tree
      requires Owned()
      reads this, region
    {
      map p | p in nodes :: nodes[p].data
    }

    constructor ()
      ensures Valid() && fresh(region) && Contents() == EMPTY_TREE
    {
      root := new Node();
      new;
      nodes, region := map[[] := root], {root};
    }

    method Get(path: string) returns (s: Status, data: string)
      requires Valid()
      ensures (s, data) == PathMap.Get(Contents(), path)
      ensures s == InvalidArgument <==> !Acceptable(path)
    {
      ValidIff(path);
      var segs := ValidatePath(path);
      if segs == [] {
        return InvalidArgument, "";
      }
      var n, i := root, 0;
      ghost var p: Path := [];
      while i < |segs|
        invariant i <= |segs| && p == Key(segs[..i]) && p in nodes && n == nodes[p]
      {
        var seg := segs[i];
        KeyNext(segs, i);
        if seg != "" {
          ChildIn(root, nodes, ChildrenByPath(), p, seg);
          if seg !in n.children {
            KeyPrefix(segs, i + 1);
            Missing(root, nodes, ChildrenByPath(), p, seg, Key(segs));
            return NodeNotExist, "";
          }
          n := n.children[seg];
        }
        p := Enter(p, seg);
        i := i + 1;
      }
      assert segs[..i] == segs;
      return OK, n.data;
    }

    /** Replaces the children of one node; the tree may be out of shape until nodes follows. */
    method SetChildren(ghost p: Path, n: Node, children: map<string, Node>)
      requires Valid() && p in nodes && nodes[p] == n
      modifies n`children
      ensures Owned() && ChildrenByPath() == old(ChildrenByPath())[p := children] && Contents() == old(Contents())
    {
      OnlyAt(root, nodes, ChildrenByPath(), p);
      n.children := children;
    }

    ghost method Adopt(q: Path, c: Node)
      requires Owned()
      modifies this`nodes, this`region
      ensures Owned() && nodes == old(nodes)[q := c] && region == old(region) + {c}
      ensures ChildrenByPath() == old(ChildrenByPath())[q := c.children]
      ensures Contents() == old(Contents())[q := c.data]
    {
      nodes, region := nodes[q := c], region + {c};
    }

    /** A new child of n, without data. */
    method AddChild(ghost p: Path, n: Node, seg: string) returns (c: Node)
      requires Valid() && p in nodes && nodes[p] == n && seg !in n.children
      modifies this`nodes, this`region, n`children
      ensures Valid() && fresh(c) && region == old(region) + {c} && nodes == old(nodes)[p + [seg] := c]
      ensures Contents() == old(Contents())[p + [seg] := ""]
    {
      ghost var was, kids := nodes, ChildrenByPath();
      c := new Node();
      SetChildren(p, n, n.children[seg := c]);
      Adopt(p + [seg], c);
      assert ChildrenByPath() == AttachKid(kids, p, seg, c);
      AttachKeeps(root, was, kids, p, seg, c);
    }

    /** The child of n for the segment, created if there is none. */
    method ChildOrNew(ghost p: Path, n: Node, seg: string) returns (c: Node)
      requires Valid() && p in nodes && nodes[p] == n
      modifies this`nodes, this`region, n`children
      ensures Valid() && p + [seg] in nodes && c == nodes[p + [seg]]
      ensures forall x :: x in region ==> x in old(region) || fresh(x)
      ensures var t, q := old(Contents()), p + [seg]; Contents() == if q in t then t else t[q := ""]
    {
      ChildIn(root, nodes, ChildrenByPath(), p, seg);
      if seg in n.children {
        c := n.children[seg];
      } else {
        c := AddChild(p, n, seg);
      }
    }

    method Write(path: string, value: string) returns (s: Status)
      requires Valid()
      modifies this`nodes, this`region, region
      ensures Valid() && fresh(region - old(region))
      ensures (Contents(), s) == AfterWrite(old(Contents()), path, value)
      ensures s == if Acceptable(path) then OK else InvalidArgument
    {
      ValidIff(path);
      var segs := ValidatePath(path);
      if segs == [] {
        return InvalidArgument;
      }
      ghost var t := Contents();
      var n := Locate(segs);
      SetData(KeyOf(path), n, value);
      return OK;
    }

    /** The descent of Write: the node of the path, with missing nodes created on the way. */
    method Locate(segs: seq<string>) returns (n: Node)
      requires Valid()
      modifies this`nodes, this`region, region
      ensures Valid() && Key(segs) in nodes && n == nodes[Key(segs)]
      ensures forall x :: x in region ==> x in old(region) || fresh(x)
      ensures Contents() == Grown(old(Contents()), Key(segs))
    {
      n := root;
      var i := 0;
      ghost var p: Path := [];
      ghost var t := Contents();
      GrownRoot(t);
      while i < |segs|
        invariant i <= |segs| && p == Key(segs[..i]) && Valid() && p in nodes && n == nodes[p]
        invariant forall x :: x in region ==> x in old(region) || fresh(x)
        invariant Contents() == Grown(t, p)
      {
        KeyNext(segs, i);
        n := Descend(t, p, n, segs[i]);
        p := Enter(p, segs[i]);
        i := i + 1;
      }
      assert segs[..i] == segs;
    }

    /** One round of the descent; an empty segment is ignored. */
    method Descend(ghost t: Tree, ghost p: Path, n: Node, seg: string) returns (c: Node)
      requires Valid() && p in nodes && nodes[p] == n && Contents() == Grown(t, p)
      modifies this`nodes, this`region, n`children
      ensures Valid() && Enter(p, seg) in nodes && c == nodes[Enter(p, seg)]
      ensures forall x :: x in region ==> x in old(region) || fresh(x)
      ensures Contents() == Grown(t, Enter(p, seg))
    {
      if seg == "" {
        return n;
      }
      GrownNext(t, p, seg);
      c := ChildOrNew(p, n, seg);
    }

    method SetData(ghost p: Path, n: Node, value: string)
      requires Valid() && p in nodes && n == nodes[p]
      modifies n`data
      ensures Valid() && Contents() == old(Contents())[p := value]
    {
      OnlyAt(root, nodes, ChildrenByPath(), p);
      n.data := value;
      assert ChildrenByPath() == old(ChildrenByPath());
    }

    /** Erases the child of n for the segment, with all that is under it. */
    method EraseChild(ghost p: Path, n: Node, seg: string)
      requires Valid() && p in nodes && nodes[p] == n && seg in n.children
      modifies this`nodes, n`children
      ensures Valid()
      ensures Contents() == Cut(old(Contents()), p + [seg])
    {
      EraseKeeps(root, nodes, ChildrenByPath(), p, seg);
      SetChildren(p, n, n.children - {seg});
      nodes := Pruned(nodes, p + [seg]);
      assert ChildrenByPath() == EraseKid(old(ChildrenByPath()), p, seg);
    }

    method Delete(path: string) returns (s: Status)
      requires Valid()
      modifies this`nodes, region
      ensures Valid()
      ensures (Contents(), s) == AfterDelete(old(Contents()), path)
      ensures !Acceptable(path) ==> s == InvalidArgument && Contents() == old(Contents())
    {
      ValidIff(path);
      var segs := ValidatePath(path);
      if segs == [] {
        return InvalidArgument;
      }
      var n, i := root, 0;
      ghost var p: Path := [];
      while i < |segs|
        invariant i <= |segs| && p == Key(segs[..i]) && p in nodes && n == nodes[p]
        invariant Valid() && nodes == old(nodes) && Contents() == old(Contents())
        invariant i == |segs| ==> segs[i - 1] == ""
      {
        var seg := segs[i];
        KeyNext(segs, i);
        if seg != "" {
          ChildIn(root, nodes, ChildrenByPath(), p, seg);
          KeyPrefix(segs, i + 1);
          if seg !in n.children {
            Missing(root, nodes, ChildrenByPath(), p, seg, Key(segs));
            return OK;
          }
          if i + 1 == |segs| {
            assert segs[..i + 1] == segs;
            assert !EndsInSlash(path) && Key(segs) == p + [seg];
            EraseChild(p, n, seg);
            return OK;
          }
          n := n.children[seg];
        }
        p := Enter(p, seg);
        i := i + 1;
      }
      assert segs[..i] == segs;
      return InvalidArgument;
    }
  }
}
