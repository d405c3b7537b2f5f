/** The union-find structure of Kruskal.cpp (`struct DisjointSet`): a parent
    array `pai` updated in place by `encontrar` (find with path compression) and
    `unir` (link the root of x under the root of y). */
module UnionFind {
  import opened Forest

  class DisjointSet {
    /** pai[i] is the parent of vertex i; a vertex that is its own parent is a root. */
    var pai: array<int>
    /** Proof-only rank that grows along parent pointers (the source keeps none). */
    ghost var rank: seq<nat>

    ghost predicate Valid()
      reads this, pai
    {
      IsForest(pai[..], rank)
    }

    /** The representative of j's set, as following the pointers finds it. */
    ghost function RootOf(j: int): (r: int)
      reads this, pai
      requires Valid() && 0 <= j < pai.Length
    {
      Root(pai[..], rank, j)
    }

    /** `DisjointSet(int n)`: n singleton sets, every vertex its own parent. */
    constructor (n: nat)
      ensures Valid() && fresh(pai) && pai.Length == n
      ensures pai[..] == Identity(n)
      ensures forall i :: 0 <= i < n ==> RootOf(i) == i
      ensures |RootSet(pai[..])| == n
    {
      var a := new int[n];
      for i := 0 to n
        invariant forall k :: 0 <= k < i ==> a[k] == k
      {
        a[i] := i;
      }
      assert a[..] == Identity(n);
      IdentityRoots(n);
      pai := a;
      rank := seq(n, _ => 0);
    }

    /** `encontrar(i)`: returns the root of i and re-points every vertex on the
        path from i straight at that root, without changing any vertex's root. */
    method Encontrar(i: int) returns (r: int)
      requires Valid() && 0 <= i < pai.Length
      modifies pai
      ensures Valid()
      ensures r == old(RootOf(i)) && pai[r] == r
      ensures pai[..] == Compress(old(pai[..]), rank, i)
      ensures pai[i] == r
      ensures Classes(pai[..], rank) == old(Classes(pai[..], rank))
      ensures RootSet(pai[..]) == old(RootSet(pai[..]))
      decreases Above(rank, i)
    {
      ghost var p0 := pai[..];
      CompressKeepsClasses(p0, rank, i);
      if pai[i] == i {
        assert Path(p0, rank, i) == {i};
        assert Compress(p0, rank, i) == p0;
        return i;
      }
      AboveShrinks(rank, i, pai[i]);
      r := Encontrar(pai[i]);
      ghost var p1 := pai[..];
      pai[i] := r;
      assert pai[..] == p1[i := r];
      assert Path(p0, rank, i) == {i} + Path(p0, rank, p0[i]);
      assert pai[..] == Compress(p0, rank, i);
    }

    /** `unir(x, y)`: finds both roots (compressing both paths) and, when they
        differ, links the root of x under the root of y. */
    method Unir(x: int, y: int)
      requires Valid() && 0 <= x < pai.Length && 0 <= y < pai.Length
      modifies this, pai
      ensures Valid() && pai == old(pai)
      ensures RootOf(x) == RootOf(y)
      ensures Classes(pai[..], rank) == Merge(old(Classes(pai[..], rank)), old(RootOf(x)), old(RootOf(y)))
      ensures old(RootOf(x)) == old(RootOf(y)) ==> RootSet(pai[..]) == old(RootSet(pai[..]))
      ensures old(RootOf(x)) != old(RootOf(y)) ==>
        RootSet(pai[..]) == old(RootSet(pai[..])) - {old(RootOf(x))}
      ensures var c := Compress(Compress(old(pai[..]), old(rank), x), old(rank), y);
        pai[..] == if old(RootOf(x)) == old(RootOf(y)) then c else c[old(RootOf(x)) := old(RootOf(y))]
      ensures rank == if old(RootOf(x)) == old(RootOf(y)) then old(rank)
                      else LinkRank(old(rank), old(RootOf(x)), old(RootOf(y)))
    {
      ghost var c0 := Classes(pai[..], rank);
      ghost var p0 := pai[..];
      var raizX := Encontrar(x);
      CompressKeepsClasses(p0, rank, x);
      ghost var p1 := pai[..];
      var raizY := Encontrar(y);
      CompressKeepsClasses(p1, rank, y);
      assert raizX == c0[x] && raizY == c0[y];
      if raizX != raizY {
        ghost var p := pai[..];
        LinkRoots(p, rank, raizX, raizY);
        pai[raizX] := raizY;
        assert pai[..] == p[raizX := raizY];
        rank := LinkRank(rank, raizX, raizY);
      } else {
        assert Merge(c0, raizX, raizY) == c0;
      }
    }
  }

  /** Two finds of the same vertex with no union between them agree, and the
      second one leaves the array as the first left it. */
  method EncontrarTwice(ds: DisjointSet, i: int) returns (r1: int, r2: int)
    requires ds.Valid() && 0 <= i < ds.pai.Length
    modifies ds.pai
    ensures r1 == r2 == old(ds.RootOf(i))
    ensures ds.pai[..] == Compress(old(ds.pai[..]), ds.rank, i)
  {
    r1 := ds.Encontrar(i);
    r2 := ds.Encontrar(i);
    CompressIsIdempotent(old(ds.pai[..]), ds.rank, i);
  }
}
