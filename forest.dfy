/** The parent-pointer forest behind the union-find structure, as values.

    A parent table `p` maps every vertex of [0, |p|) to its parent; a vertex with
    `p[i] == i` is a root (the representative of its set). A ghost `rank` gives
    every vertex a number that strictly grows along parent pointers, which is what
    makes following the pointers terminate. The class in module UnionFind keeps
    its array and ghost rank in this shape and is specified with these functions. */
module Forest {

  /** Every pointer stays in range and, unless it is a self-loop, climbs in rank. */
  ghost predicate IsForest(p: seq<int>, rk: seq<nat>)
  {
    && |rk| == |p|
    && forall i :: 0 <= i < |p| ==> 0 <= p[i] < |p| && (p[i] != i ==> rk[i] < rk[p[i]])
  }

  /** The vertices ranked strictly above `i`: the termination measure of a walk to the root. */
  ghost function Above(rk: seq<nat>, i: int): (r: set<int>)
    requires 0 <= i < |rk|
  {
    set k | 0 <= k < |rk| && rk[k] > rk[i]
  }

  lemma AboveShrinks(rk: seq<nat>, i: int, j: int)
    requires 0 <= i < |rk| && 0 <= j < |rk| && rk[i] < rk[j]
    ensures Above(rk, j) < Above(rk, i)
  {
    assert j in Above(rk, i) && j !in Above(rk, j);
  }

  /** The root reached from `i` by following parent pointers. */
  ghost function Root(p: seq<int>, rk: seq<nat>, i: int): (r: int)
    requires IsForest(p, rk) && 0 <= i < |p|
    ensures 0 <= r < |p| && p[r] == r
    ensures r != i ==> rk[i] < rk[r]
    decreases Above(rk, i)
  {
    if p[i] == i then i
    else
      AboveShrinks(rk, i, p[i]);
      Root(p, rk, p[i])
  }

  /** The vertices met on the way from `i` to its root, both ends included. */
  ghost function Path(p: seq<int>, rk: seq<nat>, i: int): (s: set<int>)
    requires IsForest(p, rk) && 0 <= i < |p|
    ensures i in s && Root(p, rk, i) in s
    ensures forall j :: j in s ==> 0 <= j < |p| && Root(p, rk, j) == Root(p, rk, i)
    decreases Above(rk, i)
  {
    if p[i] == i then {i}
    else
      AboveShrinks(rk, i, p[i]);
      {i} + Path(p, rk, p[i])
  }

  /** The roots of the forest, one per set of the partition. */
  ghost function RootSet(p: seq<int>): (r: set<int>)
  {
    set j | 0 <= j < |p| && p[j] == j
  }

  /** The set label of every vertex. */
  ghost function Classes(p: seq<int>, rk: seq<nat>): (c: seq<int>)
    requires IsForest(p, rk)
    ensures |c| == |p|
    ensures forall j :: 0 <= j < |p| ==> c[j] == Root(p, rk, j)
  {
    seq(|p|, j requires 0 <= j < |p| => Root(p, rk, j))
  }

  /** Labels `c` with every label `from` replaced by `to`: the classes after a merge. */
  function Merge(c: seq<int>, from: int, to: int): (m: seq<int>)
    ensures |m| == |c|
    ensures forall j :: 0 <= j < |c| ==> m[j] == if c[j] == from then to else c[j]
  {
    seq(|c|, j requires 0 <= j < |c| => if c[j] == from then to else c[j])
  }

  /** Path compression from `i`: every vertex on the path from `i` is re-pointed
      straight at the root; every other entry is left as it was. */
  ghost function Compress(p: seq<int>, rk: seq<nat>, i: int): (q: seq<int>)
    requires IsForest(p, rk) && 0 <= i < |p|
    ensures |q| == |p| && IsForest(q, rk)
  {
    var r := Root(p, rk, i);
    var path := Path(p, rk, i);
    var q := seq(|p|, j requires 0 <= j < |p| => if j in path then r else p[j]);
    RedirectPreservesRoots(p, q, rk);
    q
  }

  /** Compression keeps the partition: every vertex keeps its root, the roots
      stay the same, and afterwards `i` points straight at its root. */
  lemma CompressKeepsClasses(p: seq<int>, rk: seq<nat>, i: int)
    requires IsForest(p, rk) && 0 <= i < |p|
    ensures Compress(p, rk, i)[i] == Root(p, rk, i)
    ensures forall j :: 0 <= j < |p| ==> Root(Compress(p, rk, i), rk, j) == Root(p, rk, j)
    ensures Classes(Compress(p, rk, i), rk) == Classes(p, rk)
    ensures RootSet(Compress(p, rk, i)) == RootSet(p)
  {
    var r := Root(p, rk, i);
    var path := Path(p, rk, i);
    var q := seq(|p|, j requires 0 <= j < |p| => if j in path then r else p[j]);
    assert q == Compress(p, rk, i);
    RedirectPreservesRoots(p, q, rk);
  }

  /** Re-pointing any vertices directly at their own roots changes no root. */
  lemma RedirectPreservesRoots(p: seq<int>, q: seq<int>, rk: seq<nat>)
    requires IsForest(p, rk) && |q| == |p|
    requires forall j :: 0 <= j < |p| ==> q[j] == p[j] || q[j] == Root(p, rk, j)
    ensures IsForest(q, rk)
    ensures forall j :: 0 <= j < |p| ==> Root(q, rk, j) == Root(p, rk, j)
    ensures RootSet(q) == RootSet(p)
  {
    forall j | 0 <= j < |p|
      ensures Root(q, rk, j) == Root(p, rk, j)
    {
      RedirectRootAt(p, q, rk, j);
    }
  }

  lemma {:induction false} RedirectRootAt(p: seq<int>, q: seq<int>, rk: seq<nat>, j: int)
    requires IsForest(p, rk) && IsForest(q, rk) && |q| == |p| && 0 <= j < |p|
    requires forall k :: 0 <= k < |p| ==> q[k] == p[k] || q[k] == Root(p, rk, k)
    ensures Root(q, rk, j) == Root(p, rk, j)
    decreases Above(rk, j)
  {
    if q[j] != j {
      if q[j] == p[j] {
        AboveShrinks(rk, j, p[j]);
        RedirectRootAt(p, q, rk, p[j]);
      } else {
        var r := Root(p, rk, j);
        assert q[r] == r;
      }
    }
  }

  /** The rank update that goes with linking root `x` under root `y`. */
  ghost function LinkRank(rk: seq<nat>, x: int, y: int): (r: seq<nat>)
    requires 0 <= x < |rk| && 0 <= y < |rk|
  {
    rk[y := if rk[y] > rk[x] then rk[y] else rk[x] + 1]
  }

  /** Linking root `x` under a different root `y` merges exactly the set of `x`
      into the set of `y`: every other vertex keeps its root, and `x` stops
      being a root. */
  lemma LinkRoots(p: seq<int>, rk: seq<nat>, x: int, y: int)
    requires IsForest(p, rk) && 0 <= x < |p| && 0 <= y < |p|
    requires p[x] == x && p[y] == y && x != y
    ensures IsForest(p[x := y], LinkRank(rk, x, y))
    ensures forall j :: 0 <= j < |p| ==>
      Root(p[x := y], LinkRank(rk, x, y), j) == if Root(p, rk, j) == x then y else Root(p, rk, j)
    ensures Classes(p[x := y], LinkRank(rk, x, y)) == Merge(Classes(p, rk), x, y)
    ensures RootSet(p[x := y]) == RootSet(p) - {x}
  {
    var q, rk' := p[x := y], LinkRank(rk, x, y);
    forall j | 0 <= j < |p|
      ensures Root(q, rk', j) == if Root(p, rk, j) == x then y else Root(p, rk, j)
    {
      LinkRootAt(p, rk, x, y, j);
    }
    assert Classes(q, rk') == Merge(Classes(p, rk), x, y);
  }

  lemma {:induction false} LinkRootAt(p: seq<int>, rk: seq<nat>, x: int, y: int, j: int)
    requires IsForest(p, rk) && 0 <= x < |p| && 0 <= y < |p|
    requires p[x] == x && p[y] == y && x != y
    requires IsForest(p[x := y], LinkRank(rk, x, y)) && 0 <= j < |p|
    ensures Root(p[x := y], LinkRank(rk, x, y), j) == if Root(p, rk, j) == x then y else Root(p, rk, j)
    decreases Above(rk, j)
  {
    var q, rk' := p[x := y], LinkRank(rk, x, y);
    if j == x {
      assert q[y] == y;
    } else if p[j] != j {
      AboveShrinks(rk, j, p[j]);
      LinkRootAt(p, rk, x, y, p[j]);
    }
  }

  /** A second compression from the same vertex finds nothing left to do. */
  lemma CompressIsIdempotent(p: seq<int>, rk: seq<nat>, i: int)
    requires IsForest(p, rk) && 0 <= i < |p|
    ensures Compress(Compress(p, rk, i), rk, i) == Compress(p, rk, i)
  {
    var q := Compress(p, rk, i);
    var r := Root(p, rk, i);
    CompressKeepsClasses(p, rk, i);
    assert Root(q, rk, i) == r;
    assert Path(q, rk, i) <= {i, r} by {
      if q[i] != i {
        assert Path(q, rk, i) == {i} + Path(q, rk, r);
      }
    }
  }

  /** In the initial table every vertex is its own parent. */
  ghost function Identity(n: nat): (p: seq<int>)
    ensures |p| == n && forall i :: 0 <= i < n ==> p[i] == i
  {
    seq(n, i => i)
  }

  lemma {:induction false} IdentityRoots(n: nat)
    ensures |RootSet(Identity(n))| == n
  {
    if n > 0 {
      IdentityRoots(n - 1);
      assert RootSet(Identity(n)) == RootSet(Identity(n - 1)) + {n - 1};
    }
  }
}
