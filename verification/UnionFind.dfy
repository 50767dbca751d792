/** The union-find with path compression behind merge proposals (extraction/core.go), against the equivalence
    closure of the united pairs. */
module UnionFind {
  import opened Ordering

  type Edges = set<(string, string)>

  // ----- the equivalence closure -----

  ghost predicate Linked(edges: Edges, a: string, b: string) { (a, b) in edges || (b, a) in edges }

  ghost predicate IsPath(edges: Edges, p: seq<string>) {
    p != [] && forall i | 0 <= i < |p| - 1 :: Linked(edges, p[i], p[i + 1])
  }

  ghost predicate PathBetween(edges: Edges, p: seq<string>, a: string, b: string) {
    IsPath(edges, p) && p[0] == a && p[|p| - 1] == b
  }

  /** a and b are in one class of the equivalence closure of the edges. */
  ghost predicate Connected(edges: Edges, a: string, b: string) {
    exists p :: PathBetween(edges, p, a, b)
  }

  ghost function Endpoints(edges: Edges): set<string> {
    (set e | e in edges :: e.0) + (set e | e in edges :: e.1)
  }

  ghost function ClassOf(edges: Edges, x: string): set<string> {
    set y | y in Endpoints(edges) + {x} && Connected(edges, x, y)
  }

  lemma ConnectedSelf(edges: Edges, a: string)
    ensures Connected(edges, a, a)
  {
    assert PathBetween(edges, [a], a, a);
  }

  lemma ConnectedLink(edges: Edges, a: string, b: string)
    requires Linked(edges, a, b)
    ensures Connected(edges, a, b)
  {
    assert PathBetween(edges, [a, b], a, b);
  }

  lemma ConnectedSymmetric(edges: Edges, a: string, b: string)
    requires Connected(edges, a, b)
    ensures Connected(edges, b, a)
  {
    var p :| PathBetween(edges, p, a, b);
    var q := seq(|p|, i requires 0 <= i < |p| => p[|p| - 1 - i]);
    forall i | 0 <= i < |q| - 1 ensures Linked(edges, q[i], q[i + 1]) {
      assert Linked(edges, p[|p| - 2 - i], p[|p| - 2 - i + 1]);
    }
    assert PathBetween(edges, q, b, a);
  }

  lemma ConnectedTransitive(edges: Edges, a: string, b: string, c: string)
    requires Connected(edges, a, b) && Connected(edges, b, c)
    ensures Connected(edges, a, c)
  {
    var p :| PathBetween(edges, p, a, b);
    var q :| PathBetween(edges, q, b, c);
    assert PathBetween(edges, p + q[1..], a, c);
  }

  lemma ConnectedMonotone(edges: Edges, more: Edges, a: string, b: string)
    requires Connected(edges, a, b)
    requires forall x, y :: Linked(edges, x, y) ==> Linked(more, x, y)
    ensures Connected(more, a, b)
  {
    var p :| PathBetween(edges, p, a, b);
    assert PathBetween(more, p, a, b);
  }

  lemma ConnectedEndpoint(edges: Edges, a: string, b: string)
    requires Connected(edges, a, b) && a != b
    ensures a in Endpoints(edges) && b in Endpoints(edges)
  {
    var p :| PathBetween(edges, p, a, b);
    assert Linked(edges, p[0], p[1]);
    assert Linked(edges, p[|p| - 2], p[|p| - 2 + 1]);
  }

  lemma ClassMembers(edges: Edges, x: string, y: string)
    ensures y in ClassOf(edges, x) <==> Connected(edges, x, y)
  {
    if Connected(edges, x, y) && x != y { ConnectedEndpoint(edges, x, y); }
  }

  /** Two members of one class have the same class. */
  lemma SameClass(edges: Edges, x: string, y: string)
    requires Connected(edges, x, y)
    ensures ClassOf(edges, x) == ClassOf(edges, y)
  {
    ConnectedSymmetric(edges, x, y);
    forall z ensures z in ClassOf(edges, x) <==> z in ClassOf(edges, y) {
      ClassMembers(edges, x, z);
      ClassMembers(edges, y, z);
      if Connected(edges, x, z) { ConnectedTransitive(edges, y, x, z); }
      if Connected(edges, y, z) { ConnectedTransitive(edges, x, y, z); }
    }
  }

  /** Only which ids are linked matters, not the direction of a link. */
  lemma ClassDependsOnLinks(edges: Edges, others: Edges, x: string)
    requires forall a, b :: Linked(edges, a, b) <==> Linked(others, a, b)
    ensures ClassOf(edges, x) == ClassOf(others, x)
  {
    forall y ensures y in ClassOf(edges, x) <==> y in ClassOf(others, x) {
      ClassMembers(edges, x, y);
      ClassMembers(others, x, y);
      if Connected(edges, x, y) { ConnectedMonotone(edges, others, x, y); }
      if Connected(others, x, y) { ConnectedMonotone(others, edges, x, y); }
    }
  }

  // ----- roots against the closure -----

  /** `root` names the classes of the closure: equal roots exactly for connected ids. */
  ghost predicate NamesClasses(root: map<string, string>, edges: Edges) {
    && root.Keys == Endpoints(edges)
    && (forall e | e in edges :: e.0 in root && e.1 in root && root[e.0] == root[e.1])
    && (forall x, y | x in root && y in root && root[x] == root[y] :: Connected(edges, x, y))
  }

  lemma {:induction false} PathKeepsRoot(root: map<string, string>, edges: Edges, p: seq<string>)
    requires NamesClasses(root, edges) && IsPath(edges, p) && p[0] in root
    ensures p[|p| - 1] in root && root[p[|p| - 1]] == root[p[0]]
  {
    if |p| > 1 {
      var q := p[..|p| - 1];
      assert IsPath(edges, q) by {
        forall i | 0 <= i < |q| - 1 ensures Linked(edges, q[i], q[i + 1]) { assert Linked(edges, p[i], p[i + 1]); }
      }
      PathKeepsRoot(root, edges, q);
      assert Linked(edges, p[|p| - 2], p[|p| - 2 + 1]);
    }
  }

  lemma ConnectedHaveEqualRoots(root: map<string, string>, edges: Edges, x: string, y: string)
    requires NamesClasses(root, edges) && x in root && Connected(edges, x, y)
    ensures y in root && root[x] == root[y]
  {
    var p :| PathBetween(edges, p, x, y);
    PathKeepsRoot(root, edges, p);
  }

  /** `root` with both ids present, each new one in a class of its own. */
  ghost function WithIds(root: map<string, string>, a: string, b: string): map<string, string> {
    map x | x in root.Keys + {a, b} :: if x in root then root[x] else x
  }

  ghost function United(root: map<string, string>, a: string, b: string): map<string, string> {
    var r := WithIds(root, a, b);
    map x | x in r :: if r[x] == r[b] then r[a] else r[x]
  }

  lemma EndpointsWith(edges: Edges, a: string, b: string)
    ensures Endpoints(edges + {(a, b)}) == Endpoints(edges) + {a, b}
  {
    var more := edges + {(a, b)};
    assert (a, b) in more;
    forall x ensures x in Endpoints(more) <==> x in Endpoints(edges) + {a, b} {
      if x in Endpoints(more) {
        var e :| e in more && (x == e.0 || x == e.1);
      }
    }
  }

  /** Within the joined classes everything is connected by the new edge. */
  lemma ConnectedThrough(edges: Edges, a: string, b: string, x: string, y: string)
    requires Connected(edges, x, b) && Connected(edges, a, y)
    ensures Connected(edges + {(a, b)}, x, y) && Connected(edges + {(a, b)}, y, x)
  {
    var more := edges + {(a, b)};
    ConnectedMonotone(edges, more, x, b);
    ConnectedMonotone(edges, more, a, y);
    ConnectedLink(more, b, a);
    ConnectedTransitive(more, x, b, a);
    ConnectedTransitive(more, x, a, y);
    ConnectedSymmetric(more, x, y);
  }

  lemma WithIdsConnected(root: map<string, string>, edges: Edges, a: string, b: string, x: string, y: string)
    requires NamesClasses(root, edges) && root.Values <= root.Keys
    requires x in root.Keys + {a, b} && y in root.Keys + {a, b} && WithIds(root, a, b)[x] == WithIds(root, a, b)[y]
    ensures Connected(edges, x, y)
  {
    if x == y {
      ConnectedSelf(edges, x);
    } else {
      if x in root { assert root[x] in root.Values; }
      if y in root { assert root[y] in root.Values; }
    }
  }

  /** Joining the classes of a and b names the classes of the closure with the edge (a, b) added. */
  lemma UnitedNamesClasses(root: map<string, string>, edges: Edges, a: string, b: string)
    requires NamesClasses(root, edges)
    requires root.Values <= root.Keys
    ensures NamesClasses(United(root, a, b), edges + {(a, b)})
  {
    var r, more, u := WithIds(root, a, b), edges + {(a, b)}, United(root, a, b);
    EndpointsWith(edges, a, b);
    forall x, y | x in u && y in u && u[x] == u[y] ensures Connected(more, x, y) {
      if r[x] == r[y] {
        WithIdsConnected(root, edges, a, b, x, y);
        ConnectedMonotone(edges, more, x, y);
      } else if r[x] == r[b] {
        WithIdsConnected(root, edges, a, b, x, b);
        WithIdsConnected(root, edges, a, b, a, y);
        ConnectedThrough(edges, a, b, x, y);
      } else {
        WithIdsConnected(root, edges, a, b, y, b);
        WithIdsConnected(root, edges, a, b, a, x);
        ConnectedThrough(edges, a, b, y, x);
      }
    }
  }

  // ----- the code -----

  /** One id of the forest: its parent is in the same tree and nearer the root. */
  ghost predicate NodeOk(parent: map<string, string>, root: map<string, string>, depth: map<string, nat>, x: string) {
    && x in parent && x in root && x in depth && parent[x] in parent && parent[x] in root && parent[x] in depth
    && root[x] in parent && root[x] in root && root[x] in depth
    && root[parent[x]] == root[x] && root[root[x]] == root[x]
    && parent[root[x]] == root[x]
    && (parent[x] == x <==> root[x] == x)
    && (parent[x] != x ==> depth[parent[x]] < depth[x] && depth[root[x]] < depth[x])
  }

  ghost predicate ForestOk(parent: map<string, string>, root: map<string, string>, depth: map<string, nat>) {
    && root.Keys == parent.Keys == depth.Keys
    && forall x {:trigger NodeOk(parent, root, depth, x)} | x in parent :: NodeOk(parent, root, depth, x)
  }

  lemma AddNode(parent: map<string, string>, root: map<string, string>, depth: map<string, nat>, v: string)
    requires ForestOk(parent, root, depth) && v !in parent
    ensures ForestOk(parent[v := v], root[v := v], depth[v := 0])
  {
    var parent', root', depth' := parent[v := v], root[v := v], depth[v := 0];
    forall x | x in parent' ensures NodeOk(parent', root', depth', x) {
      if x != v { assert NodeOk(parent, root, depth, x); }
    }
  }

  /** Path compression: pointing an id straight at its root. */
  lemma Compress(parent: map<string, string>, root: map<string, string>, depth: map<string, nat>, v: string)
    requires ForestOk(parent, root, depth) && v in parent
    ensures v in root && ForestOk(parent[v := root[v]], root, depth)
  {
    assert NodeOk(parent, root, depth, v);
    forall x | x in parent ensures NodeOk(parent[v := root[v]], root, depth, x) {
      assert NodeOk(parent, root, depth, x);
      assert NodeOk(parent, root, depth, root[x]);
    }
  }

  ghost function HungRoot(root: map<string, string>, under: string, r: string): map<string, string> {
    map x | x in root :: if root[x] == r then under else root[x]
  }

  ghost function HungDepth(root: map<string, string>, depth: map<string, nat>, under: string, r: string): map<string,
                           nat>
  {
    map x | x in depth :: if x in root && root[x] == r && under in depth then depth[x] + depth[under] + 1 else depth[x]
  }

  /** Hanging one root under another. */
  lemma Hang(parent: map<string, string>, root: map<string, string>, depth: map<string, nat>, under: string, r: string)
    requires ForestOk(parent, root, depth) && under in root && r in root && root[under] == under && root[r] == r
      && r != under
    ensures ForestOk(parent[r := under], HungRoot(root, under, r), HungDepth(root, depth, under, r))
  {
    var parent', root', depth' := parent[r := under], HungRoot(root, under, r), HungDepth(root, depth, under, r);
    assert NodeOk(parent, root, depth, under) && NodeOk(parent, root, depth, r);
    forall x | x in parent' ensures NodeOk(parent', root', depth', x) {
      assert NodeOk(parent, root, depth, x);
      assert NodeOk(parent, root, depth, parent[x]);
      assert NodeOk(parent, root, depth, root[x]);
    }
  }

  lemma RootsAreIds(parent: map<string, string>, root: map<string, string>, depth: map<string, nat>)
    requires ForestOk(parent, root, depth)
    ensures root.Values <= root.Keys
  {
    forall r | r in root.Values ensures r in root {
      var x :| x in root && root[x] == r;
      assert NodeOk(parent, root, depth, x);
    }
  }

  lemma HungIsUnited(root: map<string, string>, a: string, b: string)
    ensures HungRoot(WithIds(root, a, b), WithIds(root, a, b)[a], WithIds(root, a, b)[b]) == United(root, a, b)
    ensures WithIds(root, a, b)[a] == WithIds(root, a, b)[b] ==> WithIds(root, a, b) == United(root, a, b)
  {
  }

  class Forest {
    var parent: map<string, string>
    ghost var root: map<string, string>
    ghost var depth: map<string, nat>

    ghost predicate Valid()
      reads this
    {
      ForestOk(parent, root, depth)
    }

    constructor ()
      ensures Valid() && root == map[]
    {
      parent, root, depth := map[], map[], map[];
    }

    /** The root of a value, entering it as its own root if it is new; every id on the way is re-pointed at the root. */
    method Find(value: string) returns (r: string)
      requires Valid()
      modifies this
      ensures Valid()
      ensures root == (if value in old(root) then old(root) else old(root)[value := value])
      ensures value in root && r == root[value]
      ensures value in old(depth) ==> depth == old(depth)
      decreases if value in depth then depth[value] else 0
    {
      if value !in parent {
        AddNode(parent, root, depth, value);
        parent, root, depth := parent[value := value], root[value := value], depth[value := 0];
        return value;
      }
      assert NodeOk(parent, root, depth, value);
      if parent[value] != value {
        var above := Find(parent[value]);
        assert above == root[value];
        Compress(parent, root, depth, value);
        parent := parent[value := above];
      }
      assert NodeOk(parent, root, depth, value);
      return parent[value];
    }

    method Union(left: string, right: string)
      requires Valid()
      modifies this
      ensures Valid()
      ensures root == United(old(root), left, right)
    {
      var leftRoot := Find(left);
      var rightRoot := Find(right);
      assert root == WithIds(old(root), left, right);
      HungIsUnited(old(root), left, right);
      assert NodeOk(parent, root, depth, left) && NodeOk(parent, root, depth, right);
      if leftRoot != rightRoot {
        Hang(parent, root, depth, leftRoot, rightRoot);
        parent := parent[rightRoot := leftRoot];
        depth := HungDepth(root, depth, leftRoot, rightRoot);
        root := HungRoot(root, leftRoot, rightRoot);
      }
    }
  }
}
