/** Undirected graphs given as a list of edges between integer vertices: the
    reference notions (walks, connectivity, acyclicity built edge by edge,
    degree) against which the maze's passages and the union-find are judged. */
module Graph {

  type Edge = (int, int)

  /** u and v are joined by an edge of E, in either orientation. */
  predicate Linked(E: seq<Edge>, u: int, v: int) {
    (u, v) in E || (v, u) in E
  }

  /** p is a walk along the edges of E. */
  ghost predicate IsWalk(E: seq<Edge>, p: seq<int>) {
    |p| > 0 && forall i :: 0 <= i < |p| - 1 ==> Linked(E, p[i], p[i + 1])
  }

  /** Some walk along E leads from x to y. */
  ghost predicate Connected(E: seq<Edge>, x: int, y: int) {
    exists p :: IsWalk(E, p) && p[0] == x && p[|p| - 1] == y
  }

  /** No edge of E closes a cycle with the edges listed before it: the
      edges were added one at a time, each between two components. */
  ghost predicate Forest(E: seq<Edge>)
    decreases |E|
  {
    E == [] || (Forest(E[..|E| - 1]) && !Connected(E[..|E| - 1], E[|E| - 1].0, E[|E| - 1].1))
  }

  /** Every vertex named by an edge of E lies in [0, n). */
  predicate EdgesBelow(E: seq<Edge>, n: int) {
    forall e :: e in E ==> 0 <= e.0 < n && 0 <= e.1 < n
  }

  /** The number of edge ends of E at x. */
  function Degree(E: seq<Edge>, x: int): nat {
    if E == [] then 0
    else Degree(E[..|E| - 1], x) + (if E[|E| - 1].0 == x then 1 else 0) + (if E[|E| - 1].1 == x then 1 else 0)
  }

  /** The labels L name the components of E over the vertices [0, |L|):
      two vertices carry the same label exactly when a walk joins them. */
  ghost predicate Components(L: seq<int>, E: seq<Edge>) {
    forall x, y {:trigger Connected(E, x, y)} :: 0 <= x < |L| && 0 <= y < |L| ==> (L[x] == L[y] <==> Connected(E, x, y))
  }

  /** L with every occurrence of label `from` replaced by `to`. */
  function Relabel(L: seq<int>, from: int, to: int): (r: seq<int>)
    ensures |r| == |L|
    ensures forall i :: 0 <= i < |L| ==> r[i] == if L[i] == from then to else L[i]
  {
    seq(|L|, i requires 0 <= i < |L| => if L[i] == from then to else L[i])
  }

  /** Without edges every vertex is a component of its own. */
  lemma NoEdgesComponents(L: seq<int>)
    requires forall i :: 0 <= i < |L| ==> L[i] == i
    ensures Components(L, [])
  {
    forall x, y | 0 <= x < |L| && 0 <= y < |L| && Connected([], x, y)
      ensures x == y
    {
      var p :| IsWalk([], p) && p[0] == x && p[|p| - 1] == y;
      assert |p| > 1 ==> Linked([], p[0], p[1]);
    }
    forall x | 0 <= x < |L|
      ensures Connected([], x, x)
    {
      ConnectedRefl([], x);
    }
  }

  lemma ConnectedRefl(E: seq<Edge>, x: int)
    ensures Connected(E, x, x)
  {
    assert IsWalk(E, [x]);
  }

  lemma ConnectedLinked(E: seq<Edge>, u: int, v: int)
    requires Linked(E, u, v)
    ensures Connected(E, u, v)
  {
    assert IsWalk(E, [u, v]);
  }

  lemma ConnectedSym(E: seq<Edge>, x: int, y: int)
    requires Connected(E, x, y)
    ensures Connected(E, y, x)
  {
    var p :| IsWalk(E, p) && p[0] == x && p[|p| - 1] == y;
    var q := seq(|p|, i requires 0 <= i < |p| => p[|p| - 1 - i]);
    forall i | 0 <= i < |q| - 1
      ensures Linked(E, q[i], q[i + 1])
    {
      assert Linked(E, p[|p| - 2 - i], p[|p| - 1 - i]);
    }
    assert IsWalk(E, q);
  }

  lemma ConnectedTrans(E: seq<Edge>, x: int, y: int, z: int)
    requires Connected(E, x, y) && Connected(E, y, z)
    ensures Connected(E, x, z)
  {
    var p :| IsWalk(E, p) && p[0] == x && p[|p| - 1] == y;
    var q :| IsWalk(E, q) && q[0] == y && q[|q| - 1] == z;
    var r := p + q[1..];
    forall i | 0 <= i < |r| - 1
      ensures Linked(E, r[i], r[i + 1])
    {
      if i < |p| - 1 {
        assert r[i] == p[i] && r[i + 1] == p[i + 1];
      } else {
        assert r[i] == q[i - |p| + 1] && r[i + 1] == q[i - |p| + 2];
      }
    }
    assert IsWalk(E, r);
  }

  /** Adding edges keeps every connection. */
  lemma ConnectedGrow(E: seq<Edge>, F: seq<Edge>, x: int, y: int)
    requires Connected(E, x, y)
    requires forall e :: e in E ==> e in F
    ensures Connected(F, x, y)
  {
    var p :| IsWalk(E, p) && p[0] == x && p[|p| - 1] == y;
    assert forall i :: 0 <= i < |p| - 1 ==> Linked(E, p[i], p[i + 1]);
    assert IsWalk(F, p);
  }

  /** A labelling that agrees at the two ends of every edge is constant along
      every walk, so connected vertices carry the same label. */
  lemma {:induction false} LabelsAgreeOnConnected(E: seq<Edge>, L: seq<int>, x: int, y: int)
    requires EdgesBelow(E, |L|) && 0 <= x < |L|
    requires forall e :: e in E ==> L[e.0] == L[e.1]
    requires Connected(E, x, y)
    ensures 0 <= y < |L| && L[x] == L[y]
  {
    var p :| IsWalk(E, p) && p[0] == x && p[|p| - 1] == y;
    WalkKeepsLabel(E, L, p);
  }

  lemma {:induction false} WalkKeepsLabel(E: seq<Edge>, L: seq<int>, p: seq<int>)
    requires EdgesBelow(E, |L|) && IsWalk(E, p) && 0 <= p[0] < |L|
    requires forall e :: e in E ==> L[e.0] == L[e.1]
    ensures 0 <= p[|p| - 1] < |L| && L[p[|p| - 1]] == L[p[0]]
  {
    if |p| > 1 {
      var q := p[1..];
      assert Linked(E, p[0], p[1]);
      forall i | 0 <= i < |q| - 1
        ensures Linked(E, q[i], q[i + 1])
      {
        assert Linked(E, p[i + 1], p[i + 2]);
      }
      WalkKeepsLabel(E, L, q);
    }
  }

  /** The heart of Kruskal's algorithm. Suppose the labels L partition
      [0, n) exactly into the components of E, and a and b lie in different
      components. Then after adding the edge (a, b) and renaming b's label to
      a's, the labels partition [0, n) exactly into the components of the
      larger graph. */
  lemma MergeComponents(E: seq<Edge>, L: seq<int>, a: int, b: int)
    requires EdgesBelow(E, |L|) && 0 <= a < |L| && 0 <= b < |L|
    requires Components(L, E)
    ensures Components(Relabel(L, L[b], L[a]), E + [(a, b)])
  {
    var n, L', E' := |L|, Relabel(L, L[b], L[a]), E + [(a, b)];
    assert EdgesBelow(E', n);
    assert forall e :: e in E ==> e in E';
    forall e | e in E'
      ensures L'[e.0] == L'[e.1]
    {
      if e in E {
        ConnectedLinked(E, e.0, e.1);
      }
    }
    forall x, y | 0 <= x < n && 0 <= y < n
      ensures L'[x] == L'[y] <==> Connected(E', x, y)
    {
      if Connected(E', x, y) {
        LabelsAgreeOnConnected(E', L', x, y);
      }
      if L'[x] == L'[y] {
        ConnectedLinked(E', a, b);
        ConnectedRefl(E, a);
        ConnectedRefl(E, b);
        if L[x] == L[y] {
          ConnectedGrow(E, E', x, y);
        } else if L[x] == L[a] {
          // then L[y] == L[b]: walk x ~ a, cross to b, walk b ~ y
          ConnectedGrow(E, E', x, a);
          ConnectedGrow(E, E', b, y);
          ConnectedTrans(E', x, a, b);
          ConnectedTrans(E', x, b, y);
        } else {
          // L[x] == L[b] and L[y] == L[a]
          ConnectedGrow(E, E', x, b);
          ConnectedGrow(E, E', a, y);
          ConnectedSym(E', a, b);
          ConnectedTrans(E', x, b, a);
          ConnectedTrans(E', x, a, y);
        }
      }
    }
  }

  /** In a forest no edge is listed twice, and no edge is a loop. */
  lemma {:induction false} ForestHasNoRepeatedEdge(E: seq<Edge>)
    requires Forest(E)
    ensures forall j, k :: 0 <= j < k < |E| ==> E[j] != E[k] && E[j] != (E[k].1, E[k].0)
    ensures forall k :: 0 <= k < |E| ==> E[k].0 != E[k].1
  {
    if E != [] {
      var F, last := E[..|E| - 1], E[|E| - 1];
      ForestHasNoRepeatedEdge(F);
      forall j, k | 0 <= j < k < |E|
        ensures E[j] != E[k] && E[j] != (E[k].1, E[k].0)
      {
        assert E[j] == F[j];
        if k < |F| {
          assert E[k] == F[k];
        } else if E[j] == last || E[j] == (last.1, last.0) {
          ConnectedLinked(F, last.0, last.1);
        }
      }
      forall k | 0 <= k < |E|
        ensures E[k].0 != E[k].1
      {
        if k < |F| {
          assert E[k] == F[k];
        } else if last.0 == last.1 {
          ConnectedRefl(F, last.0);
        }
      }
    }
  }

  /** Adding an edge between two components keeps a forest a forest. */
  lemma ForestGrow(E: seq<Edge>, a: int, b: int)
    requires Forest(E) && !Connected(E, a, b)
    ensures Forest(E + [(a, b)])
  {
    assert (E + [(a, b)])[..|E|] == E;
  }

  lemma DegreeAppend(E: seq<Edge>, e: Edge, x: int)
    ensures Degree(E + [e], x) == Degree(E, x) + (if e.0 == x then 1 else 0) + (if e.1 == x then 1 else 0)
  {
    assert (E + [e])[..|E|] == E;
  }

  /** A vertex that has a neighbour has an edge end at it. */
  lemma {:induction false} LinkedHasDegree(E: seq<Edge>, x: int, y: int)
    requires Linked(E, x, y)
    ensures Degree(E, x) >= 1
  {
    var last := E[|E| - 1];
    if last != (x, y) && last != (y, x) {
      var F := E[..|E| - 1];
      assert E == F + [last];
      assert Linked(F, x, y);
      LinkedHasDegree(F, x, y);
    }
  }

  /** In a graph where every two of the n >= 2 vertices are connected, every
      vertex has at least one edge end at it. */
  lemma ConnectedHasDegree(E: seq<Edge>, n: int, x: int)
    requires 2 <= n && 0 <= x < n
    requires forall u, v :: 0 <= u < n && 0 <= v < n ==> Connected(E, u, v)
    ensures Degree(E, x) >= 1
  {
    var y := if x == 0 then 1 else 0;
    assert Connected(E, x, y);
    var p :| IsWalk(E, p) && p[0] == x && p[|p| - 1] == y;
    assert |p| > 1;
    LinkedHasDegree(E, x, p[1]);
  }
}
