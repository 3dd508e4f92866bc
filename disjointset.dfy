/** The union-find structure the maze builder uses to tell whether two cells
    are already joined by passages. */
module DisjointSets {

  /** The number of negative entries of s: in `nodes`, the number of roots. */
  function CountNeg(s: seq<int>): nat {
    if s == [] then 0 else CountNeg(s[..|s| - 1]) + (if s[|s| - 1] < 0 then 1 else 0)
  }

  /** The number of entries of s equal to v: in `root`, the size of v's set. */
  function CountOf(s: seq<nat>, v: nat): nat {
    if s == [] then 0 else CountOf(s[..|s| - 1], v) + (if s[|s| - 1] == v then 1 else 0)
  }

  /** The link structure: `root[i]` is the root that i's parent links lead to,
      and `depth` strictly decreases along every parent link (roots have depth
      0), so the links have no cycle. */
  ghost predicate Rooted(nodes: seq<int>, root: seq<nat>, depth: seq<nat>) {
    |root| == |nodes| && |depth| == |nodes|
    && (forall i :: 0 <= i < |nodes| ==> RootIsRoot(nodes, root, i))
    && (forall i :: 0 <= i < |nodes| && nodes[i] < 0 ==> OwnRoot(root, depth, i))
    && (forall i :: 0 <= i < |nodes| && nodes[i] >= 0 ==>
          nodes[i] < |nodes| && root[nodes[i]] == root[i] && depth[nodes[i]] < depth[i])
  }

  /** root[i] is an element of the structure and a root. (A separate predicate,
      so that the quantifier over it in Rooted fires only where it is named.) */
  ghost predicate RootIsRoot(nodes: seq<int>, root: seq<nat>, i: int)
    requires 0 <= i < |root|
  {
    root[i] < |nodes| && nodes[root[i]] < 0
  }

  /** i is its own root, at depth 0. */
  ghost predicate OwnRoot(root: seq<nat>, depth: seq<nat>, i: int)
    requires 0 <= i < |root| && 0 <= i < |depth|
  {
    root[i] == i && depth[i] == 0
  }

  /** Every root holds minus the number of elements whose root it is. */
  ghost predicate Sized(nodes: seq<int>, root: seq<nat>) {
    forall r {:trigger CountOf(root, r)} :: 0 <= r < |nodes| && nodes[r] < 0 ==> CountOf(root, r) == -nodes[r]
  }

  /** The invariant of the structure, with setNum the number of roots. */
  ghost predicate Inv(nodes: seq<int>, root: seq<nat>, depth: seq<nat>, setNum: int) {
    Rooted(nodes, root, depth) && Sized(nodes, root) && setNum == CountNeg(nodes)
  }

  /** The chain of parent links from i up to its root, as the recursive find
      walks it. */
  ghost function Chain(nodes: seq<int>, root: seq<nat>, depth: seq<nat>, i: nat): (c: seq<nat>)
    requires Rooted(nodes, root, depth) && i < |nodes|
    ensures |c| > 0 && c[0] == i
    decreases depth[i]
  {
    if nodes[i] < 0 then [i] else [i] + Chain(nodes, root, depth, nodes[i])
  }

  /** The parent links from i lead to root[i] and visit only elements of
      root[i]'s set; the depth strictly decreases along the way, so no element
      is visited twice: the parent links are acyclic. */
  lemma {:induction false} ChainEndsAtRoot(nodes: seq<int>, root: seq<nat>, depth: seq<nat>, i: nat)
    requires Rooted(nodes, root, depth) && i < |nodes|
    ensures var c := Chain(nodes, root, depth, i);
      && c[|c| - 1] == root[i]
      && (forall k :: 0 <= k < |c| ==> c[k] < |nodes| && root[c[k]] == root[i])
      && (forall j, k :: 0 <= j < k < |c| ==> depth[c[k]] < depth[c[j]])
    decreases depth[i]
  {
    if nodes[i] >= 0 {
      var p := nodes[i];
      ChainEndsAtRoot(nodes, root, depth, p);
      var c, cp := Chain(nodes, root, depth, i), Chain(nodes, root, depth, p);
      assert c == [i] + cp;
      forall j, k | 0 <= j < k < |c|
        ensures depth[c[k]] < depth[c[j]]
      {
        if j > 0 {
          assert c[j] == cp[j - 1] && c[k] == cp[k - 1];
        } else if k > 1 {
          assert c[k] == cp[k - 1] && depth[cp[k - 1]] < depth[cp[0]];
        }
      }
    }
  }

  lemma ChainAcyclic(nodes: seq<int>, root: seq<nat>, depth: seq<nat>, i: nat)
    requires Rooted(nodes, root, depth) && i < |nodes|
    ensures var c := Chain(nodes, root, depth, i);
      forall j, k :: 0 <= j < k < |c| ==> c[j] != c[k]
  {
    ChainEndsAtRoot(nodes, root, depth, i);
  }

  lemma {:induction false} CountNegUpdate(s: seq<int>, i: nat, v: int)
    requires i < |s|
    ensures CountNeg(s[i := v]) == CountNeg(s) - (if s[i] < 0 then 1 else 0) + (if v < 0 then 1 else 0)
  {
    var n := |s|;
    if i < n - 1 {
      assert s[i := v][..n - 1] == s[..n - 1][i := v];
      CountNegUpdate(s[..n - 1], i, v);
    } else {
      assert s[i := v][..n - 1] == s[..n - 1];
    }
  }

  /** Renaming every `from` to `to` adds the count of `from` to that of `to`
      and leaves every other count alone. */
  lemma {:induction false} CountOfRelabel(s: seq<nat>, s': seq<nat>, from: nat, to: nat, v: nat)
    requires |s'| == |s| && from != to
    requires forall i :: 0 <= i < |s| ==> s'[i] == if s[i] == from then to else s[i]
    ensures CountOf(s', v) == if v == to then CountOf(s, to) + CountOf(s, from)
                              else if v == from then 0 else CountOf(s, v)
  {
    if s != [] {
      var n := |s|;
      CountOfRelabel(s[..n - 1], s'[..n - 1], from, to, v);
    }
  }

  lemma {:induction false} CountNegAllMinusOne(s: seq<int>)
    requires forall i :: 0 <= i < |s| ==> s[i] == -1
    ensures CountNeg(s) == |s|
  {
    if s != [] {
      CountNegAllMinusOne(s[..|s| - 1]);
    }
  }

  lemma {:induction false} CountOfIdentity(s: seq<nat>, v: nat)
    requires forall i :: 0 <= i < |s| ==> s[i] == i
    ensures CountOf(s, v) == if v < |s| then 1 else 0
  {
    if s != [] {
      CountOfIdentity(s[..|s| - 1], v);
    }
  }

  /** Pointing an element of positive depth straight at its root keeps the
      link structure. */
  lemma PointAtRoot(nodes: seq<int>, root: seq<nat>, depth: seq<nat>, x: nat)
    requires Rooted(nodes, root, depth) && x < |nodes| && depth[x] > 0
    ensures Rooted(nodes[x := root[x]], root, depth)
  {
    var nodes' := nodes[x := root[x]];
    assert RootIsRoot(nodes, root, x);
    forall j | 0 <= j < |nodes|
      ensures RootIsRoot(nodes', root, j)
    {
      assert RootIsRoot(nodes, root, j);
    }
  }

  /** Pointing a non-root x straight at its root keeps the invariant. */
  lemma CompressKeepsInv(nodes: seq<int>, root: seq<nat>, depth: seq<nat>, setNum: int, x: nat)
    requires Inv(nodes, root, depth, setNum) && x < |nodes| && depth[x] > 0
    ensures Inv(nodes[x := root[x]], root, depth, setNum)
  {
    PointAtRoot(nodes, root, depth, x);
    assert RootIsRoot(nodes, root, x);
    CountNegUpdate(nodes, x, root[x]);
  }

  /** The links after a find with path compression from i: the chain above
      i is compressed first, then i itself is pointed at its root. The walk
      stops at a root; it also stops at a link that does not lead deeper,
      which never happens where Rooted holds (there the guard only makes the
      termination evident). */
  ghost function Compressed(nodes: seq<int>, root: seq<nat>, depth: seq<nat>, i: nat): (r: seq<int>)
    requires |root| == |nodes| && |depth| == |nodes| && i < |nodes|
    ensures |r| == |nodes|
    decreases depth[i]
  {
    if nodes[i] < 0 || nodes[i] >= |nodes| || depth[nodes[i]] >= depth[i] then nodes
    else Compressed(nodes, root, depth, nodes[i])[i := root[i]]
  }

  /** Compression keeps the link structure. */
  lemma {:induction false} CompressedRooted(nodes: seq<int>, root: seq<nat>, depth: seq<nat>, i: nat)
    requires Rooted(nodes, root, depth) && i < |nodes|
    ensures Rooted(Compressed(nodes, root, depth, i), root, depth)
    decreases depth[i]
  {
    if nodes[i] >= 0 {
      var c := Compressed(nodes, root, depth, nodes[i]);
      CompressedRooted(nodes, root, depth, nodes[i]);
      PointAtRoot(c, root, depth, i);
    }
  }

  /** Compression keeps the invariant with the same root and depth: the
      partition, the sizes and the number of sets do not change. */
  lemma {:induction false} CompressedKeepsInv(nodes: seq<int>, root: seq<nat>, depth: seq<nat>, setNum: int, i: nat)
    requires Inv(nodes, root, depth, setNum) && i < |nodes|
    ensures Inv(Compressed(nodes, root, depth, i), root, depth, setNum)
    decreases depth[i]
  {
    if nodes[i] >= 0 {
      var c := Compressed(nodes, root, depth, nodes[i]);
      CompressedKeepsInv(nodes, root, depth, setNum, nodes[i]);
      CompressedPointwise(nodes, root, depth, nodes[i]);
      CompressKeepsInv(c, root, depth, setNum, i);
    }
  }

  /** Exactly the non-roots on i's chain now point at i's root; every other
      entry, each root and its size included, is as before. */
  lemma {:induction false} CompressedPointwise(nodes: seq<int>, root: seq<nat>, depth: seq<nat>, i: nat)
    requires Rooted(nodes, root, depth) && i < |nodes|
    ensures var r, c := Compressed(nodes, root, depth, i), Chain(nodes, root, depth, i);
      forall j :: 0 <= j < |nodes| ==> r[j] == if j in c && nodes[j] >= 0 then root[i] else nodes[j]
    decreases depth[i]
  {
    if nodes[i] >= 0 {
      var p := nodes[i];
      CompressedPointwise(nodes, root, depth, p);
      var c, cp := Chain(nodes, root, depth, i), Chain(nodes, root, depth, p);
      assert c == [i] + cp;
      forall j | 0 <= j < |nodes|
        ensures j in c <==> j == i || j in cp
      {
      }
    }
  }

  /** The link step of a merge: root r2 goes under root r1, and r1 takes the
      sum of both (negative) sizes. */
  function Link(nodes: seq<int>, r1: nat, r2: nat): seq<int>
    requires r1 < |nodes| && r2 < |nodes|
  {
    nodes[r1 := nodes[r1] + nodes[r2]][r2 := r1]
  }

  /** The ghost effect of that step: r2's members now lead to r1, one level deeper. */
  ghost predicate Relinked(root: seq<nat>, depth: seq<nat>, r1: nat, r2: nat, root': seq<nat>, depth': seq<nat>) {
    |root'| == |root| && |depth'| == |depth| == |root|
    && (forall i :: 0 <= i < |root| ==> root'[i] == if root[i] == r2 then r1 else root[i])
    && (forall i :: 0 <= i < |root| ==> depth'[i] == if root[i] == r2 then depth[i] + 1 else depth[i])
  }

  lemma LinkKeepsRooted(nodes: seq<int>, root: seq<nat>, depth: seq<nat>, r1: nat, r2: nat,
                        root': seq<nat>, depth': seq<nat>)
    requires Rooted(nodes, root, depth)
    requires r1 < |nodes| && r2 < |nodes| && r1 != r2 && nodes[r1] < 0 && nodes[r2] < 0
    requires Relinked(root, depth, r1, r2, root', depth')
    ensures Rooted(Link(nodes, r1, r2), root', depth')
  {
    var nodes' := Link(nodes, r1, r2);
    forall i | 0 <= i < |nodes'| && nodes'[i] >= 0
      ensures nodes'[i] < |nodes'| && root'[nodes'[i]] == root'[i] && depth'[nodes'[i]] < depth'[i]
    {
      if i != r2 {
        assert nodes'[i] == nodes[i];
      }
    }
    forall i | 0 <= i < |nodes'|
      ensures RootIsRoot(nodes', root', i)
    {
      assert RootIsRoot(nodes, root, i);
    }
  }

  lemma LinkKeepsSized(nodes: seq<int>, root: seq<nat>, depth: seq<nat>, r1: nat, r2: nat,
                       root': seq<nat>, depth': seq<nat>)
    requires Rooted(nodes, root, depth) && Sized(nodes, root)
    requires r1 < |nodes| && r2 < |nodes| && r1 != r2 && nodes[r1] < 0 && nodes[r2] < 0
    requires Relinked(root, depth, r1, r2, root', depth')
    ensures Sized(Link(nodes, r1, r2), root')
  {
    var nodes' := Link(nodes, r1, r2);
    forall r | 0 <= r < |nodes'| && nodes'[r] < 0
      ensures CountOf(root', r) == -nodes'[r]
    {
      CountOfRelabel(root, root', r2, r1, r);
    }
  }

  lemma LinkCount(nodes: seq<int>, r1: nat, r2: nat)
    requires r1 < |nodes| && r2 < |nodes| && r1 != r2 && nodes[r1] < 0 && nodes[r2] < 0
    ensures CountNeg(Link(nodes, r1, r2)) == CountNeg(nodes) - 1
  {
    CountNegUpdate(nodes, r1, nodes[r1] + nodes[r2]);
    CountNegUpdate(nodes[r1 := nodes[r1] + nodes[r2]], r2, r1);
  }

  /** Linking root r2 under root r1 keeps the invariant with one set fewer. */
  lemma LinkKeepsInv(nodes: seq<int>, root: seq<nat>, depth: seq<nat>, setNum: int, r1: nat, r2: nat,
                     root': seq<nat>, depth': seq<nat>)
    requires Inv(nodes, root, depth, setNum)
    requires r1 < |nodes| && r2 < |nodes| && r1 != r2 && nodes[r1] < 0 && nodes[r2] < 0
    requires Relinked(root, depth, r1, r2, root', depth')
    ensures Inv(Link(nodes, r1, r2), root', depth', setNum - 1)
  {
    LinkKeepsRooted(nodes, root, depth, r1, r2, root', depth');
    LinkKeepsSized(nodes, root, depth, r1, r2, root', depth');
    LinkCount(nodes, r1, r2);
  }

  /** The links after a merge of the sets of a and b: both finds compress
      their chains; if the roots differ, b's root is linked under a's. */
  ghost function Merged(nodes: seq<int>, root: seq<nat>, depth: seq<nat>, a: nat, b: nat): (r: seq<int>)
    requires Rooted(nodes, root, depth) && a < |nodes| && b < |nodes|
    ensures |r| == |nodes|
  {
    var found := Compressed(Compressed(nodes, root, depth, a), root, depth, b);
    assert RootIsRoot(nodes, root, a) && RootIsRoot(nodes, root, b);
    if root[a] == root[b] then found else Link(found, root[a], root[b])
  }

  /** Compression never touches a root's entry, so every set keeps its size. */
  lemma CompressedKeepsRoots(nodes: seq<int>, root: seq<nat>, depth: seq<nat>, i: nat)
    requires Rooted(nodes, root, depth) && i < |nodes|
    ensures forall j :: 0 <= j < |nodes| && nodes[j] < 0 ==> Compressed(nodes, root, depth, i)[j] == nodes[j]
  {
    CompressedPointwise(nodes, root, depth, i);
  }

  /** Two elements share a root after a relink exactly when they did before,
      or one was in r1's set and the other in r2's. */
  lemma RelinkedJoins(root: seq<nat>, depth: seq<nat>, r1: nat, r2: nat, root': seq<nat>, depth': seq<nat>)
    requires Relinked(root, depth, r1, r2, root', depth') && r1 != r2
    ensures forall x, y :: 0 <= x < |root| && 0 <= y < |root| ==>
      (root'[x] == root'[y] <==>
        root[x] == root[y] || ((root[x] == r1 || root[x] == r2) && (root[y] == r1 || root[y] == r2)))
  {
  }

  /** A merge of two different sets keeps the invariant with one set fewer:
      b's root now links to a's root, which holds the sum of both sizes, and
      every other root keeps its entry. */
  lemma MergedKeepsInv(nodes: seq<int>, root: seq<nat>, depth: seq<nat>, setNum: int, a: nat, b: nat,
                       root': seq<nat>, depth': seq<nat>)
    requires Inv(nodes, root, depth, setNum) && a < |nodes| && b < |nodes| && root[a] != root[b]
    requires Relinked(root, depth, root[a], root[b], root', depth')
    ensures Inv(Merged(nodes, root, depth, a, b), root', depth', setNum - 1)
    ensures var m, r1, r2 := Merged(nodes, root, depth, a, b), root[a], root[b];
      && r1 < |m| && r2 < |m| && m[r2] == r1 && m[r1] == nodes[r1] + nodes[r2]
      && forall j :: 0 <= j < |nodes| && nodes[j] < 0 && j != r1 && j != r2 ==> m[j] == nodes[j]
  {
    var r1, r2 := root[a], root[b];
    assert RootIsRoot(nodes, root, a) && RootIsRoot(nodes, root, b);
    var c1 := Compressed(nodes, root, depth, a);
    CompressedKeepsInv(nodes, root, depth, setNum, a);
    CompressedKeepsRoots(nodes, root, depth, a);
    var c2 := Compressed(c1, root, depth, b);
    CompressedKeepsInv(c1, root, depth, setNum, b);
    CompressedKeepsRoots(c1, root, depth, b);
    LinkKeepsInv(c2, root, depth, setNum, r1, r2, root', depth');
  }

  lemma {:induction false} CountNegTwo(s: seq<int>, i: nat, j: nat)
    requires i < j < |s| && s[i] < 0 && s[j] < 0
    ensures CountNeg(s) >= 2
  {
    var n := |s|;
    if j < n - 1 {
      CountNegTwo(s[..n - 1], i, j);
    } else {
      CountNegOne(s[..n - 1], i);
    }
  }

  lemma {:induction false} CountNegOne(s: seq<int>, i: nat)
    requires i < |s| && s[i] < 0
    ensures CountNeg(s) >= 1
  {
    var n := |s|;
    if i < n - 1 {
      CountNegOne(s[..n - 1], i);
    }
  }

  lemma {:induction false} CountNegOnly(s: seq<int>, i: nat)
    requires i < |s| && s[i] < 0
    requires forall j :: 0 <= j < |s| && j != i ==> s[j] >= 0
    ensures CountNeg(s) == 1
  {
    var n := |s|;
    if i < n - 1 {
      CountNegOnly(s[..n - 1], i);
    } else {
      CountNegNone(s[..n - 1]);
    }
  }

  lemma {:induction false} CountNegNone(s: seq<int>)
    requires forall j :: 0 <= j < |s| ==> s[j] >= 0
    ensures CountNeg(s) == 0
  {
    if s != [] {
      CountNegNone(s[..|s| - 1]);
    }
  }

  /** One set left: when setNum is 1, every element has the same root. */
  lemma OneSetAllJoined(nodes: seq<int>, root: seq<nat>, depth: seq<nat>, setNum: int)
    requires Inv(nodes, root, depth, setNum) && setNum == 1
    ensures forall x, y :: 0 <= x < |nodes| && 0 <= y < |nodes| ==> root[x] == root[y]
  {
    forall x, y | 0 <= x < |nodes| && 0 <= y < |nodes|
      ensures root[x] == root[y]
    {
      assert RootIsRoot(nodes, root, x) && RootIsRoot(nodes, root, y);
      if root[x] < root[y] {
        CountNegTwo(nodes, root[x], root[y]);
      } else if root[y] < root[x] {
        CountNegTwo(nodes, root[y], root[x]);
      }
    }
  }

  /** And conversely: when every element has the same root, setNum is 1. */
  lemma AllJoinedOneSet(nodes: seq<int>, root: seq<nat>, depth: seq<nat>, setNum: int)
    requires Inv(nodes, root, depth, setNum) && |nodes| > 0
    requires forall x :: 0 <= x < |nodes| ==> root[x] == root[0]
    ensures setNum == 1
  {
    assert RootIsRoot(nodes, root, 0);
    forall j | 0 <= j < |nodes| && j != root[0]
      ensures nodes[j] >= 0
    {
      assert nodes[j] < 0 ==> OwnRoot(root, depth, j);
    }
    CountNegOnly(nodes, root[0]);
  }

  /** A union-find over the indices 0 .. size-1.

      `nodes[i]` is a parent link when it is nonnegative; when it is negative,
      i is a root and -nodes[i] is the number of elements in its set.
      `setNum` counts the sets. The ghost `root` and `depth` explain the
      encoding (see Rooted); the depth is what makes the recursive find
      terminate, and it is no bound on tree height. */
  class DisjointSet {
    var nodes: seq<int>
    var setNum: int
    ghost var root: seq<nat>
    ghost var depth: seq<nat>

    ghost predicate Valid()
      reads this
    {
      Inv(nodes, root, depth, setNum)
    }

    /** size singleton sets: every entry is -1 and setNum is size. */
    constructor (size: nat)
      ensures Valid()
      ensures |nodes| == size && setNum == size
      ensures forall i :: 0 <= i < size ==> nodes[i] == -1 && root[i] == i
    {
      nodes := [];
      new;
      var i := 0;
      while i < size
        invariant 0 <= i <= size && |nodes| == i
        invariant forall k :: 0 <= k < i ==> nodes[k] == -1
      {
        nodes := nodes + [-1];
        i := i + 1;
      }
      setNum := size;
      root := seq(size, k => k);
      depth := seq(size, k => 0);
      CountNegAllMinusOne(nodes);
      forall r | 0 <= r < size
        ensures CountOf(root, r) == -nodes[r]
      {
        CountOfIdentity(root, r);
      }
    }

    /** Find with path compression: returns root[node] and leaves the links
        compressed along node's chain. Nothing else changes: the partition,
        the sizes and setNum stay as they were (CompressedKeepsInv,
        CompressedPointwise). */
    method GetParent(node: nat) returns (parent: nat)
      requires Valid() && node < |nodes|
      modifies this
      ensures Valid()
      ensures root == old(root) && depth == old(depth) && setNum == old(setNum)
      ensures parent == root[node] && parent < |nodes| && nodes[parent] < 0
      ensures nodes == Compressed(old(nodes), root, depth, node)
      ensures old(nodes[node]) < 0 ==> parent == node && nodes == old(nodes)
      ensures old(nodes[node]) >= 0 ==> nodes[node] == parent
      decreases depth[node]
    {
      assert RootIsRoot(nodes, root, node);
      if nodes[node] >= 0 {
        ghost var nodes0 := nodes;
        var next := nodes[node];
        assert root[next] == root[node] && depth[next] < depth[node];
        parent := GetParent(next);
        assert parent == root[node] && nodes[parent] < 0 && depth[parent] == 0;
        CompressKeepsInv(nodes, root, depth, setNum, node);
        assert Compressed(nodes0, root, depth, node) == nodes[node := parent];
        nodes := nodes[node := parent];
      } else {
        parent := node;
      }
    }

    /** Whether the two elements are in one set (compressing both chains on the way). */
    method SameSet(node1: nat, node2: nat) returns (same: bool)
      requires Valid() && node1 < |nodes| && node2 < |nodes|
      modifies this
      ensures Valid()
      ensures root == old(root) && depth == old(depth) && setNum == old(setNum)
      ensures nodes == Compressed(Compressed(old(nodes), root, depth, node1), root, depth, node2)
      ensures same <==> root[node1] == root[node2]
    {
      var p1 := GetParent(node1);
      var p2 := GetParent(node2);
      same := p1 == p2;
    }

    /** Join the sets of node1 and node2. Both roots are found first (with
        compression). On two elements of one set nothing else happens.
        Otherwise the root of node2 always goes under the root of node1
        (both branches of the size comparison in the source do the same),
        node1's root takes the sum of both sizes, every member of node2's set
        now has node1's root, and setNum drops by one. */
    method Merge(node1: nat, node2: nat)
      requires Valid() && node1 < |nodes| && node2 < |nodes|
      modifies this
      ensures Valid()
      ensures nodes == Merged(old(nodes), old(root), old(depth), node1, node2)
      ensures var r1, r2 := old(root[node1]), old(root[node2]);
        if r1 == r2 then root == old(root) && depth == old(depth) && setNum == old(setNum)
        else Relinked(old(root), old(depth), r1, r2, root, depth) && setNum == old(setNum) - 1
      ensures root[node1] == root[node2]
    {
      var parent1 := GetParent(node1);
      var parent2 := GetParent(node2);
      if parent1 == parent2 {
        return;
      }
      assert RootIsRoot(nodes, root, node1) && RootIsRoot(nodes, root, node2);
      LinkRoots(parent1, parent2);
    }

    /** The link step of Merge on two different roots: r2 goes under r1, and
        r1 takes the sum of both sizes; the source compares the sizes first,
        but both of its branches do the same. */
    method LinkRoots(r1: nat, r2: nat)
      requires Valid() && r1 < |nodes| && r2 < |nodes| && r1 != r2 && nodes[r1] < 0 && nodes[r2] < 0
      modifies this
      ensures Valid() && nodes == Link(old(nodes), r1, r2) && setNum == old(setNum) - 1
      ensures Relinked(old(root), old(depth), r1, r2, root, depth)
    {
      if -nodes[r1] >= -nodes[r2] {
        nodes := nodes[r1 := nodes[r1] + nodes[r2]];
        nodes := nodes[r2 := r1];
      } else {
        nodes := nodes[r1 := nodes[r1] + nodes[r2]];
        nodes := nodes[r2 := r1];
      }
      setNum := setNum - 1;
      ghost var root0, depth0 := root, depth;
      root := seq(|root0|, i requires 0 <= i < |root0| => if root0[i] == r2 then r1 else root0[i]);
      depth := seq(|depth0|, i requires 0 <= i < |depth0| => if root0[i] == r2 then depth0[i] + 1 else depth0[i]);
      assert Relinked(root0, depth0, r1, r2, root, depth);
      LinkKeepsInv(old(nodes), root0, depth0, old(setNum), r1, r2, root, depth);
    }
  }

  /** Five singletons; joining 0 with 1, 2 with 3, then 1 with 2 leaves 0
      and 3 in one set and two sets in all ({0, 1, 2, 3} and {4}). */
  method MergeExample() returns (joined: bool, sets: int)
    ensures joined && sets == 2
  {
    var ds := new DisjointSet(5);
    ds.Merge(0, 1);
    ds.Merge(2, 3);
    ds.Merge(1, 2);
    joined := ds.SameSet(0, 3);
    sets := ds.setNum;
  }
}
